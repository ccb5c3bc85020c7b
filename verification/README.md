# Verified models of chatripper's bcrypt library, IRC wire code and server state machines

This project models parts of the chatripper IRC server in Dafny and proves properties of the
models. Code that updates fields, buffers and tables in place is modelled by classes, arrays and
loops, and each method is proved against a function on values; the lemmas state what those
functions promise.

- **bcrypt** (`Words`, `Feistel`, `KeySchedule`, `BlowfishState`, `BlockModes`, `BcryptBase64`,
  `BcryptHash`, `BcryptSteps`, `Bcrypt`): the Blowfish cipher over arbitrary tables, both key schedules, the word,
  ECB and CBC modes, bcrypt's base64, and hash strings that are read back as their own salt. The
  main results: deciphering inverts enciphering in every mode, in place; a hash is made in the steps
  that the source announces; a stored hash accepts a password exactly if the digests agree, and a
  generated hash its own; a minor-`b` hash sees exactly the first 72 bytes of a NUL-free password.
- **IRC wire code** (`ByteStrings`, `MessageTags`, `LineSplitter`, `LineFramer`,
  `IsupportPacking`): message tags, the line splitter, the framing of a byte stream into lines, and
  the packing of isupport tokens into 005 lines. The main results are parser/printer inverses with
  the exact condition under which they hold, independence of how the stream is cut, and
  conservation of tokens.
- **Server state machines** (`RateLimiter`, `Admission`, `SnakePit`, `Registration`, `Modes`,
  `AccountIndex`, with `BitFlags`, `Residues` and `Lists`): properties of all runs. Every section under a
  lock is one step.

Conventions. Bytes and words of the cipher are `bv8` and `bv32`, so additions wrap as `u_int32_t`
does. Text is a sequence of bytes written as characters. The constant tables of Blowfish, clock
readings, random seeds, database rows, nick validation, `QByteArray::toInt` and the answers of hooks
are parameters. `char` is signed, as on x86-64: a version byte from 0x80 on is not above `'2'`.
Reads beyond the end of a C string are taken to find NUL. What an uninitialised buffer
holds is a parameter called `junk`; the theorems hold for all its values.

Where code and comments disagree, the code is followed: the user-mode letters are those of
`src/irc/modes.cpp`, not the ones in the comments of `src/irc/modes.h`.

## What the proofs show about the code

- A `$2$` hash without a minor version has 59 characters and never validates, because it is compared
  with a 60-byte buffer (`BcryptHash.HashValidatesIffMinor`).
- The error text `:` followed by 59 NULs is the one string with a rejected header that validates, and
  it validates every password (`BcryptHash.RejectedHeaderAccepts`).
- Minor versions `a` and `b` hash alike up to 254 bytes (`BcryptHash.MinorsAgree`); at 255 bytes the
  key length of `a` wraps to 0 and only the first byte counts (`BcryptHash.WrappedLengthForgets`).
- NUL-free passwords key the cipher alike exactly when they agree up to byte 72
  (`BcryptHash.StreamIsTheTruncation`); with a NUL inside this fails, since `p` and `p NUL p` are the
  same key stream (`BcryptHash.EmbeddedNulRepeats`). For passwords of any bytes, a longer one is keyed
  like a shorter one exactly if it continues it with a NUL and its own 72 stream bytes repeat with
  that period (`BcryptHash.ShorterSharesStreamIff`).
- A tag prefix that exceeds 4096 bytes is cut in front of its closing space, so no tag at all can be
  read from it (`MessageTags.CutPrefixHasNoTags`); one long value is enough
  (`MessageTags.LongValueIsCut`).
- `split_irc` loses a trailing parameter that follows the command directly
  (`LineSplitter.SplitPrintIffMiddle`).
- A 005 line flushed in the middle of the list glues its last token to the closing text
  (`IsupportPacking.MiddleLineReads`), which happens (`IsupportPacking.FlushOccurs`). All 005 lines
  read back if and only if there is at most one token or all fit into one line
  (`IsupportPacking.LinesReadIffOneLine`).
- A channel MODE line with an unknown letter or too few arguments is applied but not announced. A
  client that knew the flags knows them after the reply if and only if its line was complete or
  changed no flag (`Modes.ReplyTellsTheFlags`).
- A window-long stretch of time admits at most `2 * max - 1` requests per address, and that many can
  occur (`RateLimiter.AtMostTwoWindowsLessOne`, `RateLimiter.BoundIsReached`).
- A limit of 0 or less makes the admission check store entries of 0
  (`Admission.NoLimitLeavesDeadEntries`).
- A client that logged in and was then refused for its password can still rename its account
  (`Registration.AccountIsOfTheRun`).
- After a failed registration attempt a further NICK with a new nick follows a null account
  (`Registration.NullAccountExactly`); a client that gives no password to a server with one gets there
  in four commands (`Registration.NullAccountOccurs`).

## Model

| member | source | states |
|---|---|---|
| Words.BytesOfBlockOf | src/lib/bcrypt/blowfish.cpp:534-544 | storing a loaded 8-byte block puts back the same bytes in the same order |
| Words.BlockOfBytesOf | src/lib/bcrypt/blowfish.cpp:534-544 | loading a stored block gives back both words |
| Feistel.NetworkInverse | src/lib/bcrypt/blowfish.cpp:60-108 | 16 rounds with the subkeys reversed undo 16 rounds, for any round function and subkeys |
| Feistel.DecipherEncipher | src/lib/bcrypt/blowfish.cpp:60-108 | deciphering undoes enciphering for all S and P |
| Feistel.EncipherDecipher | src/lib/bcrypt/blowfish.cpp:60-108 | enciphering undoes deciphering for all S and P |
| Feistel.NetworkIsARecurrence | src/lib/bcrypt/blowfish.cpp:60-84 | the 18 halves of a block follow one recurrence in the round function and the subkeys in order, and the last two, one with the last subkey, are the result |
| Feistel.MixOfBytes | src/lib/bcrypt/blowfish.cpp:53-56 | the round function combines the entries of the four boxes at the four bytes of its argument, most significant first |
| Feistel.CombineParts | src/lib/bcrypt/blowfish.cpp:53-56 | with the others zero, the first two entries are added, the last two are added, and the first and third are xored, modulo 2^32 |
| Feistel.CombineChains | src/lib/bcrypt/blowfish.cpp:53-56 | ... and these three happen in the order of the entries |
| KeySchedule.ZeroSaltIsNoSalt | src/lib/bcrypt/blowfish.cpp:410-489 | the salted schedule with an all-zero salt leaves exactly the tables of the unsalted one |
| KeySchedule.XorKeyIsTheStream | src/lib/bcrypt/blowfish.cpp:389-425 | two keys leave equal subkeys if and only if their first 72 cyclic stream bytes agree |
| KeySchedule.SchedulesSeeOnlyTheStream | src/lib/bcrypt/blowfish.cpp:410-489 | both schedules depend on a key only through its first 72 stream bytes |
| KeySchedule.RepeatedKeySameStream | src/lib/bcrypt/blowfish.cpp:389-408 | a key repeated any number of times is the same endless stream |
| KeySchedule.RepeatedKeySameSchedule | src/lib/bcrypt/blowfish.cpp:410-489 | ... and leaves the same tables in both schedules |
| KeySchedule.ExpandTrace | src/lib/bcrypt/blowfish.cpp:448-489 | the key words are xored into P; a chain of 521 blocks, each the cipher of the one before plus salt under the cells overwritten so far, replaces all 1042 cells in order, left half first |
| BlowfishState.Stream2Word | src/lib/bcrypt/blowfish.cpp:389-408 | returns the next four stream bytes and a cursor that stands for the next position, through the lazy wraparound |
| BlowfishState.BlowfishContext.InitState | src/lib/bcrypt/blowfish.cpp:71-387 | both tables hold the given constants |
| BlowfishState.BlowfishContext.Encipher | src/lib/bcrypt/blowfish.cpp:60-84 | the unrolled rounds compute the network over the current tables |
| BlowfishState.BlowfishContext.Decipher | src/lib/bcrypt/blowfish.cpp:86-108 | the unrolled rounds compute the network over the reversed subkeys |
| BlowfishState.BlowfishContext.Expand0State | src/lib/bcrypt/blowfish.cpp:410-445 | overwriting the tables while enciphering with them gives the unsalted schedule |
| BlowfishState.BlowfishContext.ExpandState | src/lib/bcrypt/blowfish.cpp:448-489 | ... and the salted schedule, with one salt cursor running through P and S |
| BlowfishState.BlowfishContext.Key | src/lib/bcrypt/blowfish.cpp:491-499 | tables are the unsalted schedule of the constants |
| BlockModes.BlfEnc | src/lib/bcrypt/blowfish.cpp:501-512 | the first blocks are enciphered in place, later words untouched |
| BlockModes.BlfDec | src/lib/bcrypt/blowfish.cpp:514-525 | the first blocks are deciphered in place, later words untouched |
| BlockModes.BlfDecUndoesBlfEnc | src/lib/bcrypt/blowfish.cpp:501-525 | each of blf_dec and blf_enc undoes the other on every buffer |
| BlockModes.EcbEncrypt | src/lib/bcrypt/blowfish.cpp:527-547 | the buffer holds the ECB encryption of what it held, bytes beyond len untouched |
| BlockModes.EcbDecrypt | src/lib/bcrypt/blowfish.cpp:549-569 | the same for decryption |
| BlockModes.EcbDecryptUndoesEncrypt | src/lib/bcrypt/blowfish.cpp:527-569 | ECB decryption and encryption undo each other on whole blocks |
| BlockModes.EcbAt | src/lib/bcrypt/blowfish.cpp:527-547 | every 8-byte block is transformed alike and by itself |
| BlockModes.CbcEncrypt | src/lib/bcrypt/blowfish.cpp:571-594 | the forward loop, chaining on its own output in the buffer, gives the CBC encryption |
| BlockModes.CbcDecrypt | src/lib/bcrypt/blowfish.cpp:596-635 | the backward loop gives the CBC decryption of what the buffer held |
| BlockModes.CbcRoundTrip | src/lib/bcrypt/blowfish.cpp:571-635 | CBC decryption restores exactly what encryption overwrote, and vice versa, for all tables, IVs and whole-block buffers |
| BlockModes.CbcEncryptedAt | src/lib/bcrypt/blowfish.cpp:571-594 | every ciphertext block encrypts the plaintext block xored with the ciphertext block before it, the first one with the IV |
| BcryptBase64.CodeChar64 | src/lib/bcrypt/bcrypt.cpp:63-81 | the decoding table inverts the alphabet, which has no NUL |
| BcryptBase64.CodeIsAlphabet | src/lib/bcrypt/bcrypt.cpp:63-64 | the alphabet is ./, A-Z, a-z, 0-9 in this order |
| BcryptBase64.GroupIsNumber | src/lib/bcrypt/bcrypt.cpp:291-319 | the four 6-bit values are the digits to the base 64 of the three bytes as one number |
| BcryptBase64.EncodedLength | src/lib/bcrypt/bcrypt.cpp:291-319 | encoded length is ceil(4 * len / 3) and no character is NUL |
| BcryptBase64.DecodeEncode | src/lib/bcrypt/bcrypt.cpp:83-116 | decoding len bytes of an encoding followed by any text gives the original bytes |
| BcryptBase64.EncodeIsInjective | src/lib/bcrypt/bcrypt.cpp:291-319 | different byte strings of one length have different encodings |
| BcryptBase64.EncodeBase64 | src/lib/bcrypt/bcrypt.cpp:291-319 | the loop writes the encoding and a NUL at the given place and nothing else |
| BcryptBase64.DecodeBase64 | src/lib/bcrypt/bcrypt.cpp:83-116 | the loop writes the decoded bytes; on invalid data the rest of the buffer is untouched |
| BcryptHash.CostDigits | src/lib/bcrypt/bcrypt.cpp:198-267 | atoi reads the two printed cost digits back, whatever follows |
| BcryptHash.ReadHeader | src/lib/bcrypt/bcrypt.cpp:164-215 | a printed header is accepted and read back with minor version, cost and text |
| BcryptHash.SaltIsJudged | src/lib/bcrypt/bcrypt.cpp:164-215 | a string shaped like a salt is refused if and only if its version is above '2', its cost below 4 or its text shorter than 22, and its first byte is not looked at |
| BcryptHash.OtherwiseRejected | src/lib/bcrypt/bcrypt.cpp:171-195 | any other minor version, or a missing dollar behind the cost, is refused |
| BcryptHash.HeaderIs | src/lib/bcrypt/bcrypt.cpp:260-266 | a header is "$2", the minor version if any, and the two cost digits between dollars |
| BcryptHash.HashReparsesAsSalt | src/lib/bcrypt/bcrypt.cpp:164-271 | a printed salt or hash, read as a salt, gives back minor, cost and the 16 salt bytes |
| BcryptHash.HashIsItsOwnSalt | src/lib/bcrypt/bcrypt.cpp:152-276 | hashing the same password with a hash as salt prints that hash again |
| BcryptHash.HashSize | src/lib/bcrypt/bcrypt.cpp:260-271 | a hash has 60 characters, or 59 without a minor version |
| BcryptHash.HashValidatesIffMinor | src/lib/bcrypt/bcrypt.cpp:337-342 | a computed hash validates its password if and only if it carries a minor version |
| BcryptHash.VerdictExactly | src/lib/bcrypt/bcrypt.cpp:337-342 | any string validates a password if and only if it is the 60 bytes of its own header and salt with the candidate's digest, or of the error text |
| BcryptHash.AcceptsIffSameDigest | src/lib/bcrypt/bcrypt.cpp:337-342 | the stored hash of p accepts q if and only if both have the same digest under its minor version, cost and salt |
| BcryptHash.RejectedHeaderAccepts | src/lib/bcrypt/bcrypt.cpp:337-342 | a string with a rejected header accepts a password if and only if it is the error text and 59 NULs; a NUL-free one never |
| BcryptHash.GeneratedHashValidates | src/lib/bcrypt/bcrypt.cpp:321-342 | every generated hash validates, for all passwords, seeds and costs |
| BcryptHash.GeneratedHashRounds | src/lib/bcrypt/bcrypt.cpp:138-147 | bcrypt_get_rounds of a generated hash is the cost bcrypt_gensalt clamped; see RequestedCost for its value |
| BcryptHash.ErrorTextIsRejected | src/lib/bcrypt/bcrypt.cpp:164-188 | that exception exists: the header of the error text and 59 NULs is rejected |
| BcryptHash.RequestedCost | src/lib/bcrypt/bcrypt.cpp:138-147 | for requests below 256 a generated hash shows the cost requested if it is in 4..31, and otherwise the nearer bound |
| BcryptHash.CostWraps | src/lib/bcrypt/bcrypt.cpp:138-147 | requests that differ by 256 give the same hash |
| BcryptHash.JunkUnused | src/lib/bcrypt/bcrypt.cpp:160-218 | uninitialised salt bytes do not matter when the salt text decodes to 16 bytes |
| BcryptHash.DigestSeesTheStream | src/lib/bcrypt/bcrypt.cpp:232-258 | the ciphertext depends on the key only through its first 72 stream bytes |
| BcryptHash.SameStreamSameHash | src/lib/bcrypt/bcrypt.cpp:220-258 | for minor b, passwords with the same stream share every hash |
| BcryptHash.ShorterSharesStreamIff | src/lib/bcrypt/bcrypt.cpp:220-229 | for passwords of any bytes, one shorter within 72: the same stream if and only if the longer starts with the shorter and a NUL and its 72 stream bytes have that period |
| BcryptHash.EqualLengthSharesStreamIff | src/lib/bcrypt/bcrypt.cpp:220-229 | for passwords of any bytes, equally long within 72: the same stream if and only if they agree up to byte 72 |
| BcryptHash.StreamIsTheTruncation | src/lib/bcrypt/bcrypt.cpp:220-229 | NUL-free passwords have the same stream if and only if they agree up to byte 72 |
| BcryptHash.LongPasswordsShareHashes | src/lib/bcrypt/bcrypt.cpp:220-239 | passwords of at least 72 bytes with equal first 72 bytes share every hash |
| BcryptHash.EmbeddedNulRepeats | src/lib/bcrypt/bcrypt.cpp:220-229 | without NUL-freedom this fails: every p and p NUL p have the same stream |
| BcryptHash.WithoutMinorDoublesAgree | src/lib/bcrypt/bcrypt.cpp:220-221 | without a minor version p and pp share every hash |
| BcryptHash.MinorsAgree | src/lib/bcrypt/bcrypt.cpp:220-229 | up to 254 bytes the minor versions a and b have the same digest |
| BcryptHash.WrappedLengthForgets | src/lib/bcrypt/bcrypt.cpp:220-221 | with minor a, passwords of length 255 modulo 256 and equal first byte share every hash |
| BcryptHash.SameHashIffSameDigest | src/lib/bcrypt/bcrypt.cpp:260-271 | under one salt two passwords share a hash if and only if their 23 digest bytes agree |
| BcryptSteps.RoundsArePowers | src/lib/bcrypt/bcrypt.cpp:203-204 | 1 << logr as u_int32_t is 2^logr |
| BcryptSteps.StretchTrace | src/lib/bcrypt/bcrypt.cpp:232-239 | a chain of 2 * 2^cost + 1 tables, first the salted schedule of key and salt and then by turns one of the key and one of the salt, ends in the tables that are used |
| BcryptSteps.EcbOfWords | src/lib/bcrypt/blowfish.cpp:501-547 | enciphering words in pairs is ECB on their bytes |
| BcryptSteps.HashFollowsTheSteps | src/lib/bcrypt/bcrypt.cpp:19-33 | a hash is header, encoded salt and the first 23 bytes of the magic text after 64 ECB encryptions under the tables of that chain |
| Bcrypt.Stretch | src/lib/bcrypt/bcrypt.cpp:232-239 | the in-place schedules leave the tables at the end of the chain of BcryptSteps.StretchTrace |
| Bcrypt.EncryptText | src/lib/bcrypt/bcrypt.cpp:241-258 | the ciphertext bytes are the 64-fold encryption of the magic text, shifted out big-endian |
| Bcrypt.GenSalt | src/lib/bcrypt/bcrypt.cpp:118-147 | the salt buffer holds header, cost (see BcryptHash.RequestedCost) and encoded seed as a C string |
| Bcrypt.NodeBcrypt | src/lib/bcrypt/bcrypt.cpp:152-276 | the output buffer holds the hash string or ":" as a C string, on every path, and is otherwise untouched |
| Bcrypt.GenerateHash | src/lib/bcrypt/bcrypt.cpp:321-335 | returns the 60-byte hash of the generated salt, whatever uninitialised memory holds |
| Bcrypt.ValidatePassword | src/lib/bcrypt/bcrypt.cpp:337-342 | the verdict is that of BcryptHash.VerdictExactly, independent of uninitialised memory when the salt text decodes fully |
| Bcrypt.GetRounds | src/lib/bcrypt/bcrypt.cpp:278-289 | the pointer walk reads the cost field or 0 |
| BitFlags.SetHas | src/lib/bitflags.h:14-29 | after set, exactly the set enumerator and the earlier ones are present |
| BitFlags.ClearHas | src/lib/bitflags.h:21-29 | after clear, exactly the other earlier ones are present |
| BitFlags.SameBits | src/lib/bitflags.h:37-39 | two flag words with the same enumerators are equal |
| MessageTags.UnescapeEscape | src/irc/utils.cpp:4-36 | unescaping an escaped value gives the value without a final backslash, for all values |
| MessageTags.EscapedIsClean | src/irc/utils.cpp:8-33 | an escaped value has no semicolon, space, CR or LF |
| MessageTags.UnescapeByCases | src/irc/utils.cpp:107-138 | on any text: the five escapes, an unknown escape as its character, and nothing for a final backslash |
| MessageTags.ParsePrefix | src/irc/utils.cpp:75-148 | the printed prefix, followed by any line, parses to the intended map (empty as null, last key wins) and the closing space |
| MessageTags.ParsePieces | src/irc/utils.cpp:78-89 | any pieces without space or semicolon, empty ones included, are read as the list between '@' and the first space |
| MessageTags.TagsOfPieces | src/irc/utils.cpp:91-145 | the table holds for every key the unescaped text of the last piece that names it, null where that is empty, and nothing for a key no piece names |
| MessageTags.CutPrefixHasNoTags | src/irc/utils.cpp:67-70 | a prefix cut at 4096 bytes parses to no tags |
| MessageTags.LongValueIsCut | src/irc/utils.cpp:67-70 | one tag with a value of 4094 bytes or more is cut, and nothing is read back |
| MessageTags.BuildParse | src/irc/utils.cpp:38-148 | parsing undoes printing if and only if the prefix fits, and finds nothing otherwise |
| MessageTags.AccountTagIsRead | src/irc/utils.cpp:46-62 | the account tag is read back if and only if the capability is there and the sender has a name, next to the tags of the message |
| MessageTags.NothingToPrint | src/irc/utils.cpp:41-63 | nothing is printed if and only if the capability is missing or there is no tag |
| MessageTags.Build | src/irc/utils.cpp:67-72 | the result never exceeds 4096 bytes |
| MessageTags.EscapeTagValue | src/irc/utils.cpp:4-36 | the loop computes the escaped value |
| MessageTags.BuildMessageTags | src/irc/utils.cpp:38-73 | the loop prints account tag and message tags, joined and cut |
| MessageTags.UnescapeTagValue | src/irc/utils.cpp:107-138 | the index loop computes the unescaped value |
| MessageTags.ParseMessageTags | src/irc/utils.cpp:75-148 | the loop builds the parsed map and end position |
| ByteStrings.SplitJoin | src/irc/utils.cpp:65-89 | splitting joined pieces gives them back when none contains the separator |
| LineSplitter.SplitIrcLoop | src/irc/client_connection.cpp:1556-1581 | the loop returns command, non-empty middles and non-empty trailing parameter |
| LineSplitter.NoEmptyParameter | src/irc/client_connection.cpp:1556-1581 | no line gives an empty parameter |
| LineSplitter.ExtraSpaceIsIgnored | src/irc/client_connection.cpp:1556-1581 | a further space between two parameters changes nothing, if no trailing parameter begins before it |
| LineSplitter.SplitPrint | src/irc/client_connection.cpp:1556-1581 | splitting a printed line gives back command, middles and trailing parameter |
| LineSplitter.TrailingAfterCommand | src/irc/client_connection.cpp:1565-1571 | a trailing parameter right after the command is not recognised |
| LineSplitter.SplitPrintIffMiddle | src/irc/client_connection.cpp:1556-1581 | a trailing parameter survives if and only if a middle parameter precedes it |
| LineFramer.CutInTwo | src/irc/client_connection.cpp:1247-1258 | a stream may be cut anywhere and continued from the kept rest |
| LineFramer.ChunksDoNotMatter | src/irc/client_connection.cpp:1227-1259 | events that fit deliver the lines and leave the rest of the whole stream at once |
| LineFramer.SameStreamSameLines | src/irc/client_connection.cpp:1227-1259 | two ways to cut one stream give the same lines and rest |
| LineFramer.OverflowRestarts | src/irc/client_connection.cpp:1236-1244 | an event that overflows delivers nothing, and what follows is read as on a new connection |
| LineFramer.RestHasNoLF | src/irc/client_connection.cpp:1247-1250 | what stays in the buffer has no LF |
| LineFramer.CutPrinted | src/irc/client_connection.cpp:1252-1257 | lines ended by LF or CR LF are cut back apart, each losing one CR before its LF |
| LineFramer.ReadAllIsExact | src/irc/client_connection.cpp:1252-1254 | they come back whole if and only if none ended by a bare LF had a final CR |
| LineFramer.Connection.OnReadyRead | src/irc/client_connection.cpp:1227-1259 | discards and disconnects exactly if buffer plus available exceed 1024, leaving unread what follows the chunk that overflowed; otherwise delivers all lines, empties the socket and keeps an LF-free rest |
| IsupportPacking.SendIsupport | src/irc/client_connection.cpp:1321-1346 | for any entries, the loop sends the packed lines, without a space before a middle suffix and with one before the final one |
| IsupportPacking.TokenReads | src/irc/client_connection.cpp:1326-1330 | a token splits at its first '=' into key and value, and has none if the value is empty |
| IsupportPacking.TokensConserved | src/irc/client_connection.cpp:1325-1346 | the lines read in order carry every non-empty token exactly once in iteration order, and nothing else if none is empty |
| IsupportPacking.LinesAreGood | src/irc/client_connection.cpp:1332-1346 | if base plus any token plus one fits in 480, no line is empty and no payload exceeds 480 |
| IsupportPacking.FinalLineReads | src/irc/client_connection.cpp:1343-1346 | split_irc of the final line gives exactly its tokens and the closing text |
| IsupportPacking.MiddleLineReads | src/irc/client_connection.cpp:1332-1336 | split_irc of a middle line glues the last token to ":are" and scatters the closing text |
| IsupportPacking.NoFlushIff | src/irc/client_connection.cpp:1332-1341 | no line is flushed in the middle if and only if base plus first token plus one and the whole payload fit in 480 |
| IsupportPacking.LinesReadIffOneLine | src/irc/client_connection.cpp:1325-1346 | every line sent reads back as its tokens and the closing text if and only if there is at most one token or the whole payload fits in 480 |
| IsupportPacking.FlushOccurs | src/irc/client_connection.cpp:1332-1336 | two tokens that each just fit are sent in two lines, the first flushed in the middle |
| RateLimiter.RateLimiter.Check | src/web/ratelimiter.cpp:6-41 | answer, retry time, message seconds and new table of one check |
| RateLimiter.AtMostTwoWindowsLessOne | src/web/ratelimiter.cpp:6-41 | with non-decreasing time any window-long interval admits at most 2 * max - 1 requests per address |
| RateLimiter.BoundIsReached | src/web/ratelimiter.cpp:24-34 | a run with non-decreasing time reaches that number, for every positive limit and window |
| RateLimiter.RetryAfterIsExact | src/web/ratelimiter.cpp:36-40 | after a refusal every request before the announced time is refused with the same time, the first from it on is allowed |
| RateLimiter.OnlyItsOwnRequestsMatter | src/web/ratelimiter.cpp:7-21 | entry and answers of an address are those of the run with only its own requests |
| Admission.ThreadedServer.IncomingConnection | src/irc/threaded_server.cpp:136-169 | counts and dispatches below the limit, refuses at it, and advances the worker cursor only on dispatch |
| Admission.Worker.HandleConnection | src/irc/worker.cpp:47-86 | releases the slot exactly when the socket cannot be set up |
| Admission.Worker.OnDisconnected | src/irc/worker.cpp:76-83 | releases the slot and drops the connection |
| Admission.StepKeepsInv | src/irc/threaded_server.cpp:136-158 | accept, pickup, failure and disconnect keep the accounting |
| Admission.EveryRunKeepsInv | src/irc/worker.cpp:47-86 | over all interleavings the table is exact and worker loads follow the cursor |
| Admission.SlotsAreExact | src/irc/threaded_server.cpp:136-158 | for a limit of at least 1 an entry equals the connections held, is within the limit, and exists only while positive |
| Admission.UnknownPeerIsFree | src/irc/threaded_server.cpp:136-158 | a peer without a known address is admitted whatever the limit and never counted |
| Admission.LoadsDifferByOne | src/irc/threaded_server.cpp:160-162 | after any run no worker has been given more than one connection above another |
| Admission.NoLimitLeavesDeadEntries | src/irc/threaded_server.cpp:139-156 | the first accept leaves a non-positive entry if and only if the limit is not positive |
| SnakePit.SnakePit.CalcActiveEvents | src/python/manager.cpp:112-128 | the flags are those of a visit to every module in some order, so an event is active (exclusive) if and only if an enabled (exclusive) module handles it |
| SnakePit.SnakePit.EnableModule | src/python/manager.cpp:82-95 | the module is enabled if known, all others are unchanged, the flags are computed anew and the cursor stays |
| SnakePit.SnakePit.DisableModule | src/python/manager.cpp:97-110 | the module is disabled if known, all others are unchanged, the flags are computed anew and the cursor stays |
| SnakePit.SnakePit.RefreshModules | src/python/manager.cpp:69-80 | adopts the listed modules, computes the flags anew and leaves the cursor |
| SnakePit.SnakePit.HasEventHandler | src/python/manager.cpp:163-166 | true if and only if an enabled module handles the event |
| SnakePit.SnakePit.SelectInterpreter | src/python/manager.cpp:130-147 | exclusive events go to interpreter 0 and leave the cursor, others take the next turn |
| SnakePit.SharedInTurn | src/python/manager.cpp:137-146 | however exclusive calls and configuration changes interleave, the j-th shared call goes to (start + j) mod n |
| SnakePit.FairDispatch | src/python/manager.cpp:142-146 | any n consecutive shared calls reach each interpreter exactly once |
| SnakePit.FoldDescribes | src/python/manager.cpp:112-128 | in any order of visits the computed flags say exactly which events enabled (exclusive) modules handle |
| SnakePit.OrderIsIrrelevant | src/python/manager.cpp:112-128 | flags are the computed ones of any order if and only if they are exact, so all orders give the same two words |
| SnakePit.SwitchingOn | src/python/manager.cpp:82-95 | enabling a module adds its events to the handled (exclusive) ones |
| SnakePit.SwitchingOff | src/python/manager.cpp:97-110 | disabling a module leaves exactly the events of the other modules |
| SnakePit.FlagsStayExact | src/python/manager.cpp:69-128 | over runs whose configuration changes compute the flags in any order, the flags are exact at every point |
| SnakePit.ExclusiveEventsArePinned | src/python/manager.cpp:138-140 | in a run, events some enabled exclusive module handles go to 0, all others to the cursor, and exclusive events are active |
| Registration.ClientConnection.TryFinalizeSetup | src/irc/client_connection.cpp:1268-1364 | the outcome of an attempt on every path |
| Registration.ClientConnection.HandlePASS | src/irc/client_connection.cpp:435-441 | keeps the first argument given; see PassIsTheLastGiven |
| Registration.ClientConnection.HandleNICK | src/irc/client_connection.cpp:443-495 | the new connection state on every path |
| Registration.ClientConnection.HandleUSER | src/irc/client_connection.cpp:497-526 | the new connection state on every path |
| Registration.ClientConnection.HandleCAP | src/irc/client_connection.cpp:69-183 | the new connection state on every path |
| Registration.ClientConnection.FinishAUTHENTICATE | src/irc/client_connection.cpp:1389-1420 | the account is adopted only if there was none |
| Registration.TasksOnlyShrink | src/irc/client_connection.cpp:176-177 | no command adds a setup task |
| Registration.EveryRunKeepsInv | src/irc/client_connection.cpp:1268-1364 | the invariant of reachable connections, in any changing world |
| Registration.WelcomedOnce | src/irc/client_connection.cpp:1310-1363 | at most one attempt, welcome and add_connection; welcomed if and only if ready; ready means no task and an account; setNick never throws |
| Registration.FailureIsFinal | src/irc/client_connection.cpp:1268-1292 | after a failed attempt no command leads to another or to readiness |
| Registration.NullAccountExactly | src/irc/client_connection.cpp:478-494 | NICK follows a null account if and only if the attempt failed, no account is set and the nick is valid and new |
| Registration.NullAccountOccurs | src/irc/client_connection.cpp:478-494 | the run NICK, USER, CAP END, NICK other, without the server's password, ends at a null account |
| Registration.StateOfRun | src/irc/client_connection.cpp:435-526 | after any run without a fault, through any changing world, tasks, password, user, nick, account, login, readiness and closing are what functions of its events alone say |
| Registration.PassIsTheLastGiven | src/irc/client_connection.cpp:435-441 | the password kept is the argument of the last PASS that had one, or empty |
| Registration.EachTaskByItsCommand | src/irc/client_connection.cpp:176-526 | in any such run NICK, USER and CAP are each outstanding if and only if no accepted NICK, accepted USER or CAP END occurred |
| Registration.ReadyExactly | src/irc/client_connection.cpp:1268-1364 | in any such run, ready if and only if some event did the last of the three tasks while the last PASS given matched and, without a login, the nick was free |
| Registration.AccountIsOfTheRun | src/irc/client_connection.cpp:1389-1420 | the account is the first one logged in to, or one with the nick given if the client is let in without, renamed by every later valid NICK |
| Registration.ClosedExactly | src/irc/client_connection.cpp:497-526 | closed if and only if a user name was too long, a login failed, or the last task was done without being let in |
| Registration.FaultsExactly | src/irc/client_connection.cpp:69-183 | which command faults after which run: CAP without arguments while outstanding, and a new nick from a refused client without account |
| Registration.OrderIsIrrelevant | src/irc/client_connection.cpp:435-526 | after PASS with the right password, and with the nick free, the state depends only on which of NICK, USER and CAP END occurred, so all orders reach the same ready state |
| Modes.Channel.SetMode | src/core/channel.cpp:286-346 | the new channel state for every mode, sign and argument; what it means for a line is in BansAfterLine, KeyAfterLine, LimitAfterLine and FlagsAfterLine |
| Modes.HandleChannelMode | src/irc/client_connection.cpp:295-397 | the loop applies the letters in order and answers with the announcement, 501 or nothing |
| Modes.ChannelLineIsADelta | src/irc/client_connection.cpp:355-396 | announced sign and letters turn the old flags into the new, each letter once, and exactly the changed modes are announced |
| Modes.InvalidLineIsSilent | src/irc/client_connection.cpp:389-390 | an example: +sz sets the secret flag and is answered 501 |
| Modes.UnknownLettersAreSkipped | src/irc/client_connection.cpp:358-362 | for every line, channel, arguments used and changes noted are those of the line without its unknown letters |
| Modes.LetterGetsItsArgument | src/irc/client_connection.cpp:366-379 | the letter at position n gets the argument whose place is the number of asking letters before it, or leaves the channel alone if there is none |
| Modes.BansAfterLine | src/core/channel.cpp:332-339 | after a line a non-empty mask is banned as the sign says if some b letter got it, and as before otherwise |
| Modes.KeyAfterLine | src/core/channel.cpp:303-312 | after a line the key is the argument of the last k letter that got one, or empty for a removal, and unchanged without such a letter |
| Modes.LimitAfterLine | src/core/channel.cpp:315-330 | after +l the limit is the number of the last l letter that got a valid one, after -l it is 0, and unchanged without such a letter |
| Modes.FlagsAfterLine | src/irc/client_connection.cpp:355-387 | a flag has the sign of the line if some letter with what it needs names it, and its old value otherwise |
| Modes.ReplyTellsTheFlags | src/irc/client_connection.cpp:389-396 | a client that knew the flags knows the new ones from the reply if and only if all letters are known and have arguments, or no letter changes a flag |
| Modes.ArgumentsInOrder | src/irc/client_connection.cpp:366-379 | b, k and l consume one argument each until they run out; the line is invalid if and only if a letter is unknown or arguments run out |
| Modes.EveryRunIsCoherent | src/core/channel.cpp:286-346 | over all MODE lines BAN is never set, no KEY means an empty key, no LIMIT means limit 0 |
| Modes.HandleUserMode | src/irc/client_connection.cpp:319-347 | the loop applies the letters and answers with the announcement or 501 |
| Modes.UserLineIsADelta | src/irc/client_connection.cpp:319-347 | the announcement is exactly what changed in the user modes |
| Modes.UserReplyTells | src/irc/client_connection.cpp:319-347 | 501 if and only if a letter is unknown or no mode changed; otherwise the announcement turns the old modes into the new |
| Modes.ModesAreBits | src/irc/modes.cpp:8-57 | every letter of both tables names a single bit |
| Modes.ChannelLetterBits | src/irc/modes.h:7-16 | the channel letters i m n q s t b k l name bits 0 to 8 in this order |
| Modes.UserLetterBits | src/irc/modes.h:20-35 | the user letters i x R b d r g p c Z o O w s q k name bits 0 to 15 in this order |
| Modes.NoOtherLetters | src/irc/modes.cpp:8-57 | no other letter is in either table |
| Modes.NewChannelModes | src/core/channel.cpp:8-12 | a new channel has modes n and t, no key, no limit and no bans |
| Modes.ChannelLettersDiffer | src/irc/modes.cpp:39-57 | different channel letters name different modes |
| AccountIndex.Ctx.AccountInsertCache | src/ctx.cpp:154-162 | adds one account and keeps both tables the exact indexes |
| AccountIndex.Ctx.AccountRemoveCache | src/ctx.cpp:124-135 | removes one account and keeps both tables the exact indexes |
| AccountIndex.Ctx.AccountUsernameExists | src/ctx.cpp:119-122 | true if and only if a named account of the roster has the name |
| AccountIndex.Ctx.GetByUid | src/core/account.cpp:260-263 | equals a scan of the roster by uid |
| AccountIndex.Ctx.GetByName | src/core/account.cpp:265-268 | equals a scan of the named accounts |
| AccountIndex.Ctx.CreateFromDb | src/core/account.cpp:64-81 | for a row whose id is new or that of the account of that name: returns the account of that name, adding it, with that nick and no connections, only if there is none |
| AccountIndex.Ctx.CreateAnonymous | src/irc/client_connection.cpp:1294-1299 | adds a fresh nameless account |
| AccountIndex.Ctx.OnConnectionDisconnected | src/core/account.cpp:235-250 | drops the connection; a nameless account leaves the roster |
| AccountIndex.Ctx.Merge | src/core/account.cpp:271-285 | a nameless account hands over all its connections in order and leaves the roster, if it is still there; a named one is untouched |

## Left out

- Sockets, Qt signals, threads, the event loop, WebSocket handshakes, HTTP routes and SQL: input and output.
- The values of the Blowfish tables: the theorems hold for all tables.
- Overflow of `atoi` beyond the int range in `bcrypt_get_rounds`, and reads beyond the NUL of a salt that is too short: undefined in C.
- The quality of the random seed, and wiping of buffers after use.
- UTF-8 decoding of tags, and their order in the QMap: tags are any list, and a later key wins.
- The PRIVMSG, JOIN, PART, WHO, NAMES, METADATA and history handlers, and trimming of a line before it is split.
- The nick registry and its lower-casing: a nick is taken or not as the world of a command says.
- Capability bits set by CAP REQ, and the replies of CAP, NICK and USER: only what registration depends on is kept.
- Registration.ClientConnection.FinishAUTHENTICATE: does not model the merge of accounts after an earlier login; that is AccountIndex.Ctx.Merge.
- Modes.EveryRunIsCoherent: covers MODE lines; a key written through the Python property is not one.
- Channel::setMode taking the channel lock a second time in setKey: each locked operation is one step.
- Admission.Worker.OnDisconnected: that it runs once per connection rests on the connection being destroyed with its list entry, which is not modelled.
- Interpreters' own enableModule and executeFunction calls.
- Password, creation date, host and channels of accounts.
- The Python-writable `name` and `uid` properties of `src/core/account.h:27-28` change an account without entering it in the tables again; `Indexed()` does not cover them.
