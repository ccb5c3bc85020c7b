// bcrypt hash strings on values: reading a salt, stretching the key, printing
// the hash, and what generating and validating passwords promise.
module BcryptHash {
  import opened Words
  import opened Residues
  import opened Feistel
  import opened KeySchedule
  import opened BlockModes
  import opened BcryptBase64

  const DOLLAR: byte := 0x24
  const COLON: byte := 0x3a
  const VERSION: byte := 0x32
  const MINOR_A: byte := 0x61
  const MINOR_B: byte := 0x62

  const MAXSALT: nat := 16
  const HASH_SIZE: nat := 60

  const TEXT: seq<byte> := Ascii("OrpheanBeholderScryDoubt")

  function Ascii(text: string): (b: seq<byte>)
    ensures |b| == |text|
  {
    seq(|text|, i requires 0 <= i < |text| => (text[i] as int % 256) as byte)
  }

  const DIGITS: seq<byte> := [48, 49, 50, 51, 52, 53, 54, 55, 56, 57]

  // ----- C library functions on strings

  function From(s: seq<byte>, k: nat): seq<byte> {
    if k <= |s| then s[k..] else []
  }

  function Strlen(s: seq<byte>): (n: nat)
    ensures n <= |s|
  {
    if s == [] || s[0] == 0 then 0 else 1 + Strlen(s[1..])
  }

  predicate IsSpace(c: byte) {
    c == 32 || 9 <= c <= 13
  }

  predicate IsDigit(c: byte) {
    48 <= c <= 57
  }

  function DigitValue(c: byte): nat {
    (c - 48) as nat
  }

  function DigitsValue(s: seq<byte>, acc: nat): nat {
    if s == [] || !IsDigit(s[0]) then acc else DigitsValue(s[1..], 10 * acc + DigitValue(s[0]))
  }

  function Atoi(s: seq<byte>): int {
    if s == [] then 0
    else if IsSpace(s[0]) then Atoi(s[1..])
    else if s[0] == 0x2d then 0 - DigitsValue(s[1..], 0)
    else if s[0] == 0x2b then DigitsValue(s[1..], 0)
    else DigitsValue(s, 0)
  }

  // ----- Reading a salt (or a hash, which begins with its salt)

  datatype Salt = Rejected | Salt(minor: byte, logr: nat, text: seq<byte>)

  // char is signed: bytes from 0x80 on compare below every ASCII character.
  predicate AboveVersion(c: byte) {
    VERSION < c < 0x80
  }

  function ReadSalt(s: seq<byte>): (r: Salt)
    ensures r.Salt? ==> (r.minor == 0 || r.minor == MINOR_A || r.minor == MINOR_B) && 4 <= r.logr <= 31
  {
    var m := At(s, 2);
    var p := if m == DOLLAR then 3 else 4;
    if AboveVersion(At(s, 1)) then Rejected
    else if m != DOLLAR && m != MINOR_A && m != MINOR_B then Rejected
    else if At(s, p + 2) != DOLLAR then Rejected
    else
      var n := Atoi(From(s, p));
      if n < 4 || n > 31 then Rejected
      else if Strlen(From(s, p + 3)) * 3 / 4 < MAXSALT then Rejected
      else Salt(if m == DOLLAR then 0 else m, n, From(s, p + 3))
  }

  // ----- The hash

  // `key_len` after the switch on the minor version, for a password of n bytes.
  function KeyLength(minor: byte, n: nat): (k: nat)
    ensures k <= n + 1
  {
    if minor <= MINOR_A then (n + if minor >= MINOR_A then 1 else 0) % 256
    else (if n > 72 then 72 else n) + 1
  }

  function Rekeyed(t: Tables, key: seq<byte>, keybytes: nat, csalt: seq<byte>, rounds: nat): Tables
    requires Readable(key, keybytes) && |csalt| == MAXSALT
  {
    if rounds == 0 then t
    else Expand0(Expand0(Rekeyed(t, key, keybytes, csalt, rounds - 1), key, keybytes), csalt, MAXSALT)
  }

  function Power2(n: nat): nat {
    if n == 0 then 1 else 2 * Power2(n - 1)
  }

  function Stretched(init: Tables, key: seq<byte>, keybytes: nat, csalt: seq<byte>, logr: nat): Tables
    requires Readable(key, keybytes) && |csalt| == MAXSALT
  {
    Rekeyed(Expand(init, csalt, MAXSALT, key, keybytes), key, keybytes, csalt, Power2(logr))
  }

  function TextWords(): (w: seq<word>)
    ensures |w| == 6
  {
    seq(6, i requires 0 <= i < 6 => StreamWord(TEXT, 24, 4 * i))
  }

  function Encrypted(t: Tables, times: nat): (w: seq<word>)
    ensures |w| == 6
  {
    if times == 0 then TextWords() else WordBlocks(Enciphering(t), Encrypted(t, times - 1), 3)
  }

  function BytesOfWords(w: seq<word>): (b: seq<byte>)
    ensures |b| == 4 * |w|
  {
    if w == [] then [] else BytesOfWords(w[..|w| - 1]) + BytesOfWord(w[|w| - 1])
  }

  // The 23 bytes of ciphertext that are printed; the 24th is dropped.
  function Digest(init: Tables, key: seq<byte>, keybytes: nat, csalt: seq<byte>, logr: nat): (d: seq<byte>)
    requires Readable(key, keybytes) && |csalt| == MAXSALT
    ensures |d| == 23
  {
    BytesOfWords(Encrypted(Stretched(init, key, keybytes, csalt, logr), 64))[..23]
  }

  // snprintf(.., 4, "%2.2u$", logr & 0x001F)
  function Cost(logr: nat): seq<byte> {
    var n := logr % 32;
    [DIGITS[n / 10], DIGITS[n % 10], DOLLAR]
  }

  function Header(minor: byte, logr: nat): seq<byte> {
    [DOLLAR, VERSION] + (if minor != 0 then [minor] else []) + [DOLLAR] + Cost(logr)
  }

  function HashText(minor: byte, logr: nat, csalt: seq<byte>, digest: seq<byte>): seq<byte> {
    Header(minor, logr) + Encode(csalt) + Encode(digest)
  }

  // The salt buffer after decoding; bytes that invalid text leaves undecoded keep
  // what the uninitialised buffer held.
  function SaltBytes(text: seq<byte>, junk: seq<byte>): (c: seq<byte>)
    requires |junk| == MAXSALT
    ensures |c| == MAXSALT
  {
    Decode(MAXSALT, text) + junk[|Decode(MAXSALT, text)|..]
  }

  // node_bcrypt: the C string left in `encrypted`. The tables `init` are the
  // constant initial state, `junk` the initial contents of csalt.
  function NodeBcrypt(init: Tables, password: seq<byte>, salt: seq<byte>, junk: seq<byte>): seq<byte>
    requires |junk| == MAXSALT
  {
    match ReadSalt(salt)
    case Rejected => [COLON]
    case Salt(minor, logr, text) =>
      var csalt := SaltBytes(text, junk);
      HashText(minor, logr, csalt,
        Digest(init, password + [0], KeyLength(minor, |password|), csalt, logr))
  }

  // std::string got(61, '\0') overwritten by the C string `r`, then resized to 60.
  function Resized(r: seq<byte>): (h: seq<byte>)
    ensures |h| == HASH_SIZE
  {
    (r + seq(HASH_SIZE, _ => 0))[..HASH_SIZE]
  }

  // bcrypt_gensalt takes the cost as u_int8_t.
  function ClampedCost(rounds: nat): (logr: nat)
    ensures 4 <= logr <= 31
  {
    var n := rounds % 256;
    if n < 4 then 4 else if n > 31 then 31 else n
  }

  function GenerateHash(init: Tables, password: seq<byte>, rounds: nat, seed: seq<byte>, junk: seq<byte>): seq<byte>
    requires |seed| == MAXSALT && |junk| == MAXSALT
  {
    Resized(NodeBcrypt(init, password, Header(MINOR_B, ClampedCost(rounds)) + Encode(seed), junk))
  }

  predicate ValidatePassword(init: Tables, password: seq<byte>, hash: seq<byte>, junk: seq<byte>)
    requires |junk| == MAXSALT
  {
    hash == Resized(NodeBcrypt(init, password, hash, junk))
  }

  function GetRounds(hash: seq<byte>): int {
    var p := if At(hash, 2) != 0 && At(hash, 2) != DOLLAR then 3 else 2;
    if At(hash, 0) != DOLLAR || At(hash, 1) == 0 || At(hash, p) != DOLLAR then 0
    else Atoi(From(hash, p + 1))
  }

  // ----- A hash is read back as its own salt

  lemma PrintedDigit(n: nat)
    requires n < 10
    ensures var c := DIGITS[n];
            IsDigit(c) && !IsSpace(c) && c != 0x2d && c != 0x2b && c != 0 && DigitValue(c) == n
  {
    if n < 5 {
      assert n == 0 || n == 1 || n == 2 || n == 3 || n == 4;
    } else {
      assert n == 5 || n == 6 || n == 7 || n == 8 || n == 9;
    }
  }

  lemma ReadDigit(n: nat, rest: seq<byte>, acc: nat)
    requires n < 10
    ensures DigitsValue([DIGITS[n]] + rest, acc) == DigitsValue(rest, 10 * acc + n)
  {
    hide DigitValue, IsDigit;
    PrintedDigit(n);
    assert ([DIGITS[n]] + rest)[1..] == rest;
  }

  lemma StopAtDollar(rest: seq<byte>, acc: nat)
    ensures DigitsValue([DOLLAR] + rest, acc) == acc
  {
  }

  lemma AtoiStart(n: nat, rest: seq<byte>)
    requires n < 10
    ensures Atoi([DIGITS[n]] + rest) == DigitsValue([DIGITS[n]] + rest, 0)
  {
    hide IsSpace, DigitsValue;
    PrintedDigit(n);
  }

  lemma TwoDigits(d0: nat, d1: nat, rest: seq<byte>)
    requires d0 < 10 && d1 < 10
    ensures Atoi([DIGITS[d0], DIGITS[d1], DOLLAR] + rest) == 10 * d0 + d1
  {
    hide Atoi, DigitsValue;
    var s2 := [DOLLAR] + rest;
    var s1 := [DIGITS[d1]] + s2;
    assert [DIGITS[d0], DIGITS[d1], DOLLAR] + rest == [DIGITS[d0]] + s1;
    AtoiStart(d0, s1);
    ReadDigit(d0, s1, 0);
    ReadDigit(d1, s2, d0);
    StopAtDollar(rest, 10 * d0 + d1);
  }

  lemma CostText(logr: nat)
    requires logr <= 31
    ensures Cost(logr) == [DIGITS[logr / 10], DIGITS[logr % 10], DOLLAR]
  {
    assert logr % 32 == logr;
  }

  // The cost field is read back as the number that was printed.
  lemma CostDigits(logr: nat, rest: seq<byte>)
    requires logr <= 31
    ensures Atoi(Cost(logr) + rest) == logr
  {
    hide Atoi, Cost;
    CostText(logr);
    TwoDigits(logr / 10, logr % 10, rest);
  }

  lemma {:induction false} StrlenOfText(s: seq<byte>)
    requires forall i :: 0 <= i < |s| ==> s[i] != 0
    ensures Strlen(s) == |s|
  {
    if s != [] {
      StrlenOfText(s[1..]);
    }
  }

  predicate KnownMinor(minor: byte) {
    minor == 0 || minor == MINOR_A || minor == MINOR_B
  }

  predicate NulFree(s: seq<byte>) {
    forall i :: 0 <= i < |s| ==> s[i] != 0
  }

  // The header is printed so that reading finds the same fields and text again.
  lemma ReadHeader(minor: byte, logr: nat, text: seq<byte>)
    requires KnownMinor(minor) && 4 <= logr <= 31
    requires NulFree(text) && |text| >= 22
    ensures ReadSalt(Header(minor, logr) + text) == Salt(minor, logr, text)
  {
    hide Atoi, Cost, Strlen;
    var s := Header(minor, logr) + text;
    CostText(logr);
    CostDigits(logr, text);
    StrlenOfText(text);
    var p := if minor == 0 then 3 else 4;
    assert From(s, p) == Cost(logr) + text;
    assert From(s, p + 3) == text;
    assert At(s, 1) == VERSION && At(s, 2) == if minor == 0 then DOLLAR else minor;
    assert At(s, p + 2) == DOLLAR;
  }

  // What becomes of a string that is shaped like a salt: the first byte is not looked at,
  // and a version above '2', a cost below 4 or too little text is refused.
  lemma SaltIsJudged(first: byte, version: byte, minor: byte, logr: nat, text: seq<byte>)
    requires KnownMinor(minor) && logr <= 31 && NulFree(text)
    ensures ReadSalt([first, version] + (if minor != 0 then [minor] else []) + [DOLLAR] + Cost(logr) + text)
         == if 0x32 < version < 0x80 || logr < 4 || |text| < 22 then Rejected else Salt(minor, logr, text)
  {
    hide Atoi, Cost, Strlen;
    var s := [first, version] + (if minor != 0 then [minor] else []) + [DOLLAR] + Cost(logr) + text;
    CostText(logr);
    CostDigits(logr, text);
    StrlenOfText(text);
    var p := if minor == 0 then 3 else 4;
    assert From(s, p) == Cost(logr) + text;
    assert From(s, p + 3) == text;
    assert At(s, 1) == version && At(s, 2) == if minor == 0 then DOLLAR else minor;
    assert At(s, p + 2) == DOLLAR;
  }

  // ... and so is any other minor version, or a cost that is not two characters wide.
  lemma OtherwiseRejected(s: seq<byte>)
    requires || (At(s, 2) != DOLLAR && At(s, 2) != MINOR_A && At(s, 2) != MINOR_B)
             || (At(s, 2) == DOLLAR && At(s, 5) != DOLLAR)
             || (At(s, 2) != DOLLAR && At(s, 6) != DOLLAR)
    ensures ReadSalt(s) == Rejected
  {
    hide Atoi, Strlen;
  }

  // A header is "$2", the minor version if there is one, and the cost between dollars.
  lemma HeaderIs(minor: byte, logr: nat)
    requires logr <= 31
    ensures var h := Header(minor, logr);
            && |h| == (if minor == 0 then 6 else 7)
            && h[0] as char == '$' && h[1] as char == '2' && (minor != 0 ==> h[2] == minor)
            && h[|h| - 4] as char == '$' && h[|h| - 1] as char == '$'
            && 10 * DigitValue(h[|h| - 3]) + DigitValue(h[|h| - 2]) == logr
  {
    CostText(logr);
    hide Cost;
    PrintedDigit(logr / 10);
    PrintedDigit(logr % 10);
  }

  // The salt that bcrypt_gensalt prints, and the hash that node_bcrypt prints, are
  // read back with the same minor version, cost and 16 salt bytes.
  lemma HashReparsesAsSalt(minor: byte, logr: nat, csalt: seq<byte>, tail: seq<byte>, junk: seq<byte>)
    requires KnownMinor(minor) && 4 <= logr <= 31
    requires |csalt| == MAXSALT == |junk| && NulFree(tail)
    ensures ReadSalt(Header(minor, logr) + Encode(csalt) + tail) == Salt(minor, logr, Encode(csalt) + tail)
    ensures SaltBytes(Encode(csalt) + tail, junk) == csalt
  {
    hide ReadSalt, Header, Encode, Decode;
    EncodedLength(csalt);
    ReadHeader(minor, logr, Encode(csalt) + tail);
    assert Header(minor, logr) + Encode(csalt) + tail == Header(minor, logr) + (Encode(csalt) + tail);
    DecodeEncode(csalt, tail);
  }

  // ----- Generating and validating

  // What node_bcrypt prints, used as a salt, prints itself again.
  lemma HashIsItsOwnSalt(init: Tables, password: seq<byte>, salt: seq<byte>, junk: seq<byte>, junk': seq<byte>)
    requires |junk| == MAXSALT == |junk'| && ReadSalt(salt).Salt?
    ensures var h := NodeBcrypt(init, password, salt, junk);
            NodeBcrypt(init, password, h, junk') == h
  {
    hide ReadSalt, Encode, Digest, SaltBytes;
    var Salt(minor, logr, text) := ReadSalt(salt);
    var csalt := SaltBytes(text, junk);
    var digest := Digest(init, password + [0], KeyLength(minor, |password|), csalt, logr);
    EncodedLength(digest);
    HashReparsesAsSalt(minor, logr, csalt, Encode(digest), junk');
  }

  lemma HashSize(init: Tables, password: seq<byte>, salt: seq<byte>, junk: seq<byte>)
    requires |junk| == MAXSALT && ReadSalt(salt).Salt?
    ensures |NodeBcrypt(init, password, salt, junk)| == if ReadSalt(salt).minor == 0 then 59 else 60
  {
    hide ReadSalt, Encode, Digest, SaltBytes;
    var Salt(minor, logr, text) := ReadSalt(salt);
    var csalt := SaltBytes(text, junk);
    EncodedLength(csalt);
    EncodedLength(Digest(init, password + [0], KeyLength(minor, |password|), csalt, logr));
  }

  // A hash validates the password it was computed from exactly when it carries a
  // minor version: the 59-character form is compared with a 60-byte buffer.
  lemma HashValidatesIffMinor(init: Tables, password: seq<byte>, salt: seq<byte>, junk: seq<byte>, junk': seq<byte>)
    requires |junk| == MAXSALT == |junk'| && ReadSalt(salt).Salt?
    ensures ValidatePassword(init, password, NodeBcrypt(init, password, salt, junk), junk')
       <==> ReadSalt(salt).minor != 0
  {
    hide ReadSalt, NodeBcrypt;
    var h := NodeBcrypt(init, password, salt, junk);
    HashSize(init, password, salt, junk);
    HashIsItsOwnSalt(init, password, salt, junk, junk');
    if |h| == HASH_SIZE {
      assert Resized(h) == h;
    }
  }

  // Every generated hash validates, for every password, seed and cost.
  lemma GeneratedHashValidates(
      init: Tables, password: seq<byte>, rounds: nat, seed: seq<byte>, junk: seq<byte>, junk': seq<byte>)
    requires |seed| == |junk| == |junk'| == MAXSALT
    ensures ValidatePassword(init, password, GenerateHash(init, password, rounds, seed, junk), junk')
  {
    hide ReadSalt, NodeBcrypt, ValidatePassword, Encode, Header;
    var salt := Header(MINOR_B, ClampedCost(rounds)) + Encode(seed);
    HashReparsesAsSalt(MINOR_B, ClampedCost(rounds), seed, [], junk);
    assert salt == salt + [] && Encode(seed) == Encode(seed) + [];
    HashSize(init, password, salt, junk);
    assert GenerateHash(init, password, rounds, seed, junk) == NodeBcrypt(init, password, salt, junk);
    HashValidatesIffMinor(init, password, salt, junk, junk');
  }

  // The salt text decodes to all 16 bytes, so that no uninitialised byte is read.
  predicate DecodesFully(salt: seq<byte>) {
    ReadSalt(salt).Salt? ==> |Decode(MAXSALT, ReadSalt(salt).text)| == MAXSALT
  }

  lemma JunkUnused(init: Tables, password: seq<byte>, salt: seq<byte>, junk: seq<byte>, junk': seq<byte>)
    requires |junk| == MAXSALT == |junk'| && DecodesFully(salt)
    ensures NodeBcrypt(init, password, salt, junk) == NodeBcrypt(init, password, salt, junk')
  {
    hide ReadSalt, Decode, Digest, HashText;
    if ReadSalt(salt).Salt? {
      var text := ReadSalt(salt).text;
      assert SaltBytes(text, junk) == Decode(MAXSALT, text) == SaltBytes(text, junk');
    }
  }

  lemma GeneratedSaltDecodes(logr: nat, seed: seq<byte>)
    requires 4 <= logr <= 31 && |seed| == MAXSALT
    ensures DecodesFully(Header(MINOR_B, logr) + Encode(seed))
  {
    hide ReadSalt, Encode, Decode, Header;
    HashReparsesAsSalt(MINOR_B, logr, seed, [], seed);
    DecodeEncode(seed, []);
    assert Header(MINOR_B, logr) + Encode(seed) + [] == Header(MINOR_B, logr) + Encode(seed);
    assert Encode(seed) + [] == Encode(seed);
  }

  // ----- The verdict

  // The 60 bytes that a password must reproduce: with an accepted header the fields that
  // were read and the digest of the candidate, a missing minor version made up for by a
  // NUL; with a rejected one the error text and NULs.
  function Expected(init: Tables, password: seq<byte>, hash: seq<byte>, junk: seq<byte>): seq<byte>
    requires |junk| == MAXSALT
  {
    match ReadSalt(hash)
    case Rejected => [COLON] + seq(59, _ => 0)
    case Salt(minor, logr, text) =>
      var csalt := SaltBytes(text, junk);
      var digest := Digest(init, password + [0], KeyLength(minor, |password|), csalt, logr);
      Header(minor, logr) + Encode(csalt) + Encode(digest) + if minor == 0 then [0] else []
  }

  lemma ResizedText(r: seq<byte>, pad: nat)
    requires |r| + pad == HASH_SIZE
    ensures Resized(r) == r + seq(pad, _ => 0)
  {
  }

  // For any string whatever in place of the stored hash.
  lemma VerdictExactly(init: Tables, password: seq<byte>, hash: seq<byte>, junk: seq<byte>)
    requires |junk| == MAXSALT
    ensures ValidatePassword(init, password, hash, junk) <==> hash == Expected(init, password, hash, junk)
  {
    hide ReadSalt, Digest, SaltBytes, Encode, Header, Resized;
    var r := NodeBcrypt(init, password, hash, junk);
    if ReadSalt(hash).Salt? {
      HashSize(init, password, hash, junk);
      ResizedText(r, HASH_SIZE - |r|);
    } else {
      ResizedText(r, 59);
    }
  }

  // The 23 bytes that a password comes to under the fields of a salt.
  function DigestOf(init: Tables, password: seq<byte>, minor: byte, logr: nat, csalt: seq<byte>): seq<byte>
    requires |csalt| == MAXSALT
  {
    Digest(init, password + [0], KeyLength(minor, |password|), csalt, logr)
  }

  // The stored hash of one password accepts another exactly if both have the same digest
  // under its salt.
  lemma AcceptsIffSameDigest(
      init: Tables, p: seq<byte>, q: seq<byte>, salt: seq<byte>, junk: seq<byte>, junk': seq<byte>)
    requires |junk| == MAXSALT == |junk'| && ReadSalt(salt).Salt? && ReadSalt(salt).minor != 0
    ensures var Salt(minor, logr, text) := ReadSalt(salt);
            var csalt := SaltBytes(text, junk);
            (ValidatePassword(init, q, NodeBcrypt(init, p, salt, junk), junk') <==>
              DigestOf(init, p, minor, logr, csalt) == DigestOf(init, q, minor, logr, csalt))
  {
    hide ReadSalt, Digest, SaltBytes, Encode, Header, ValidatePassword;
    var Salt(minor, logr, text) := ReadSalt(salt);
    var csalt := SaltBytes(text, junk);
    var digest := DigestOf(init, p, minor, logr, csalt);
    EncodedLength(digest);
    HashReparsesAsSalt(minor, logr, csalt, Encode(digest), junk');
    var h := NodeBcrypt(init, p, salt, junk);
    VerdictExactly(init, q, h, junk');
    SameHashIffSameDigest(init, p, q, salt, junk);
    assert Expected(init, q, h, junk') == NodeBcrypt(init, q, salt, junk) + [];
  }

  // A string whose header is rejected accepts nothing, with one exception that accepts
  // every password: the error text and 59 NULs.
  lemma RejectedHeaderAccepts(init: Tables, password: seq<byte>, hash: seq<byte>, junk: seq<byte>)
    requires |junk| == MAXSALT && ReadSalt(hash) == Rejected
    ensures ValidatePassword(init, password, hash, junk) <==> hash == [COLON] + seq(59, _ => 0)
    ensures NulFree(hash) ==> !ValidatePassword(init, password, hash, junk)
  {
    hide ReadSalt, ValidatePassword;
    VerdictExactly(init, password, hash, junk);
    assert ([COLON] + seq(59, _ => 0))[1] == 0;
  }

  lemma ErrorTextIsRejected()
    ensures ReadSalt([COLON] + seq(59, _ => 0)) == Rejected
  {
    hide Atoi, Strlen;
  }

  // ----- The cost of a generated hash

  // A request of 256 more is the same request.
  lemma CostWraps(init: Tables, password: seq<byte>, rounds: nat, seed: seq<byte>, junk: seq<byte>)
    requires |seed| == |junk| == MAXSALT
    ensures GenerateHash(init, password, rounds + 256, seed, junk) == GenerateHash(init, password, rounds, seed, junk)
  {
    hide NodeBcrypt, Header, Encode;
    assert (rounds + 256) % 256 == rounds % 256;
  }

  // The cost as requested where it is between 4 and 31, and otherwise the nearer of these.
  lemma RequestedCost(init: Tables, password: seq<byte>, rounds: nat, seed: seq<byte>, junk: seq<byte>)
    requires |seed| == |junk| == MAXSALT && rounds < 256
    ensures var got := GetRounds(GenerateHash(init, password, rounds, seed, junk));
            && 4 <= got <= 31 && (4 <= rounds <= 31 ==> got == rounds)
            && (rounds < 4 ==> got == 4) && (rounds > 31 ==> got == 31)
  {
    hide GetRounds, GenerateHash;
    GeneratedHashRounds(init, password, rounds, seed, junk);
  }

  // A generated hash shows its cost: the requested one as a u_int8_t, clamped.
  lemma GeneratedHashRounds(init: Tables, password: seq<byte>, rounds: nat, seed: seq<byte>, junk: seq<byte>)
    requires |seed| == |junk| == MAXSALT
    ensures GetRounds(GenerateHash(init, password, rounds, seed, junk)) == ClampedCost(rounds)
  {
    hide ReadSalt, Encode, Digest, Atoi, Cost, ClampedCost;
    var logr := ClampedCost(rounds);
    var salt := Header(MINOR_B, logr) + Encode(seed);
    HashReparsesAsSalt(MINOR_B, logr, seed, [], junk);
    assert salt == salt + [] && Encode(seed) == Encode(seed) + [];
    HashSize(init, password, salt, junk);
    var h := GenerateHash(init, password, rounds, seed, junk);
    assert h == NodeBcrypt(init, password, salt, junk);
    CostText(logr);
    assert From(h, 4) == Cost(logr) + h[7..];
    CostDigits(logr, h[7..]);
  }

  // ----- What a hash depends on

  lemma {:induction false} RekeyedSeesTheStream(
      t: Tables, k: seq<byte>, n: nat, k': seq<byte>, n': nat, csalt: seq<byte>, rounds: nat)
    requires Readable(k, n) && Readable(k', n') && |csalt| == MAXSALT
    requires SameStream(k, n, k', n', KEY_STREAM)
    ensures Rekeyed(t, k, n, csalt, rounds) == Rekeyed(t, k', n', csalt, rounds)
  {
    hide Expand0, SameStream;
    if rounds > 0 {
      RekeyedSeesTheStream(t, k, n, k', n', csalt, rounds - 1);
      SchedulesSeeOnlyTheStream(Rekeyed(t, k, n, csalt, rounds - 1), csalt, MAXSALT, k, n, k', n');
    }
  }

  lemma DigestSeesTheStream(init: Tables, k: seq<byte>, n: nat, k': seq<byte>, n': nat, csalt: seq<byte>, logr: nat)
    requires Readable(k, n) && Readable(k', n') && |csalt| == MAXSALT
    requires SameStream(k, n, k', n', KEY_STREAM)
    ensures Digest(init, k, n, csalt, logr) == Digest(init, k', n', csalt, logr)
  {
    hide Expand, Expand0, SameStream, Encrypted, Power2, BytesOfWords;
    SchedulesSeeOnlyTheStream(init, csalt, MAXSALT, k, n, k', n');
    RekeyedSeesTheStream(Expand(init, csalt, MAXSALT, k, n), k, n, k', n', csalt, Power2(logr));
  }

  // ----- Minor versions

  // Without a minor version the NUL is not part of the key: a password and its double
  // share every hash.
  lemma WithoutMinorDoublesAgree(init: Tables, p: seq<byte>, salt: seq<byte>, junk: seq<byte>)
    requires |junk| == MAXSALT && ReadSalt(salt).Salt? && ReadSalt(salt).minor == 0
    requires 0 < |p| && 2 * |p| < 256
    ensures NodeBcrypt(init, p, salt, junk) == NodeBcrypt(init, p + p, salt, junk)
  {
    hide ReadSalt, Digest, SameStream, SaltBytes, HashText;
    var Salt(minor, logr, text) := ReadSalt(salt);
    DoubledStream(p);
    DigestSeesTheStream(init, p + [0], |p|, p + p + [0], 2 * |p|, SaltBytes(text, junk), logr);
  }

  lemma DoubledStream(p: seq<byte>)
    requires p != []
    ensures SameStream(p + [0], |p|, p + p + [0], 2 * |p|, KEY_STREAM)
  {
    hide Repeat;
    RepeatTwice(p);
    forall i | 0 <= i < KEY_STREAM
      ensures StreamByte(p + [0], |p|, i) == StreamByte(p + p + [0], 2 * |p|, i)
    {
      RepeatedKeySameStream(p, 2, i);
    }
  }

  // Up to 254 bytes the minor versions a and b hash alike.
  lemma MinorsAgree(init: Tables, p: seq<byte>, csalt: seq<byte>, logr: nat)
    requires |csalt| == MAXSALT && |p| <= 254
    ensures Digest(init, p + [0], KeyLength(MINOR_A, |p|), csalt, logr)
         == Digest(init, p + [0], KeyLength(MINOR_B, |p|), csalt, logr)
  {
    hide Digest, SameStream;
    MinorsSameStream(p);
    DigestSeesTheStream(init, p + [0], KeyLength(MINOR_A, |p|), p + [0], KeyLength(MINOR_B, |p|), csalt, logr);
  }

  lemma MinorsSameStream(p: seq<byte>)
    requires |p| <= 254
    ensures SameStream(p + [0], KeyLength(MINOR_A, |p|), p + [0], KeyLength(MINOR_B, |p|), KEY_STREAM)
  {
    if |p| >= KEY_STREAM {
      forall i | 0 <= i < KEY_STREAM ensures i % (|p| + 1) == i && i % 73 == i {
        SmallResidue(i, |p| + 1);
      }
    }
  }

  // With minor a, the length of a password of 255 bytes, or of 256 more and so on, wraps to
  // 0, and only its first byte is left to tell it from another.
  lemma WrappedLengthForgets(init: Tables, p: seq<byte>, q: seq<byte>, salt: seq<byte>, junk: seq<byte>)
    requires |junk| == MAXSALT && ReadSalt(salt).Salt? && ReadSalt(salt).minor == MINOR_A
    requires |p| % 256 == 255 == |q| % 256 && p[0] == q[0]
    ensures NodeBcrypt(init, p, salt, junk) == NodeBcrypt(init, q, salt, junk)
  {
    hide ReadSalt, Digest, SaltBytes, HashText;
    var Salt(minor, logr, text) := ReadSalt(salt);
    WrapsToZero(|p|);
    WrapsToZero(|q|);
    DigestSeesTheStream(init, p + [0], 0, q + [0], 0, SaltBytes(text, junk), logr);
  }

  lemma WrapsToZero(n: nat)
    requires n % 256 == 255
    ensures KeyLength(MINOR_A, n) == 0
  {
  }

  // The first 72 bytes: all of a password that a minor-'b' hash can see.
  function Truncated(password: seq<byte>): seq<byte> {
    if |password| > KEY_STREAM then password[..KEY_STREAM] else password
  }

  ghost predicate SamePasswordStream(p: seq<byte>, q: seq<byte>) {
    SameStream(p + [0], KeyLength(MINOR_B, |p|), q + [0], KeyLength(MINOR_B, |q|), KEY_STREAM)
  }

  // Byte `i` of the key stream of a password.
  function KeyByte(p: seq<byte>, i: nat): byte {
    StreamByte(p + [0], KeyLength(MINOR_B, |p|), i)
  }

  lemma SameKeyBytes(p: seq<byte>, q: seq<byte>)
    ensures SamePasswordStream(p, q) <==> forall i: nat :: i < KEY_STREAM ==> KeyByte(p, i) == KeyByte(q, i)
  {
    hide StreamByte, KeyLength;
    if forall i: nat :: i < KEY_STREAM ==> KeyByte(p, i) == KeyByte(q, i) {
      forall i | 0 <= i < KEY_STREAM
        ensures StreamByte(p + [0], KeyLength(MINOR_B, |p|), i) == StreamByte(q + [0], KeyLength(MINOR_B, |q|), i)
      {
        assert KeyByte(p, i) == KeyByte(q, i);
      }
    }
  }

  // Where the password ends before byte 72, its NUL follows it in the stream.
  lemma PasswordStreamByte(p: seq<byte>, i: nat)
    requires i < KEY_STREAM && i <= |Truncated(p)|
    ensures KeyByte(p, i) == if i < |Truncated(p)| then p[i] else 0
  {
  }

  // The 72 bytes of its key stream repeat themselves after `period` bytes.
  ghost predicate HasPeriod(p: seq<byte>, period: nat) {
    forall i, j :: 0 <= i && j == i + period && j < KEY_STREAM ==> KeyByte(p, i) == KeyByte(p, j)
  }

  // A password that ends before byte 72 is read over and over with its NUL.
  lemma ShortPasswordRepeats(p: seq<byte>, i: nat)
    requires |p| < KEY_STREAM
    ensures KeyByte(p, i + (|p| + 1)) == KeyByte(p, i)
  {
    var n := |p| + 1;
    ModOfMultiplePlus(1, i, n);
    assert 1 * n + i == i + n;
  }

  lemma {:induction false} PeriodDetermines(p: seq<byte>, q: seq<byte>, i: nat)
    requires |Truncated(p)| < |Truncated(q)| && i < KEY_STREAM
    requires p == q[..|p|] && q[|p|] == 0 && HasPeriod(q, |p| + 1)
    ensures KeyByte(p, i) == KeyByte(q, i)
  {
    hide KeyByte;
    if i <= |p| {
      PasswordStreamByte(p, i);
      PasswordStreamByte(q, i);
    } else {
      var k := i - (|p| + 1);
      PeriodDetermines(p, q, k);
      ShortPasswordRepeats(p, k);
      assert KeyByte(q, k) == KeyByte(q, i);
    }
  }

  // Of two passwords of any bytes, one shorter within the first 72, the longer is keyed
  // like the shorter exactly if it continues it with a NUL and its stream has that period.
  lemma ShorterSharesStreamIff(p: seq<byte>, q: seq<byte>)
    requires |Truncated(p)| < |Truncated(q)|
    ensures SamePasswordStream(p, q) <==> p == q[..|p|] && q[|p|] == 0 && HasPeriod(q, |p| + 1)
  {
    hide KeyByte, SamePasswordStream;
    SameKeyBytes(p, q);
    if SamePasswordStream(p, q) {
      forall i | 0 <= i <= |p| ensures (p + [0])[i] == q[i] {
        PasswordStreamByte(p, i);
        PasswordStreamByte(q, i);
      }
      assert forall i :: 0 <= i < |p| ==> p[i] == (p + [0])[i];
      assert q[|p|] == (p + [0])[|p|] == 0;
      forall i, j | 0 <= i && j == i + (|p| + 1) && j < KEY_STREAM ensures KeyByte(q, i) == KeyByte(q, j) {
        ShortPasswordRepeats(p, i);
      }
    }
    if p == q[..|p|] && q[|p|] == 0 && HasPeriod(q, |p| + 1) {
      forall i | 0 <= i < KEY_STREAM ensures KeyByte(p, i) == KeyByte(q, i) {
        PeriodDetermines(p, q, i);
      }
    }
  }

  // Of two that are equally long within the first 72 bytes, exactly if those agree.
  lemma EqualLengthSharesStreamIff(p: seq<byte>, q: seq<byte>)
    requires |Truncated(p)| == |Truncated(q)|
    ensures SamePasswordStream(p, q) <==> Truncated(p) == Truncated(q)
  {
    hide KeyByte, SamePasswordStream;
    SameKeyBytes(p, q);
    var n := |Truncated(p)|;
    forall i: nat | i < n ensures KeyByte(p, i) == Truncated(p)[i] && KeyByte(q, i) == Truncated(q)[i] {
      PasswordStreamByte(p, i);
      PasswordStreamByte(q, i);
    }
    if n < KEY_STREAM && Truncated(p) == Truncated(q) {
      assert p == q;
    }
  }

  // NUL-free passwords key the cipher alike exactly when they agree up to byte 72.
  lemma StreamIsTheTruncation(p: seq<byte>, q: seq<byte>)
    requires NulFree(p) && NulFree(q)
    ensures SamePasswordStream(p, q) <==> Truncated(p) == Truncated(q)
  {
    hide SamePasswordStream, HasPeriod;
    if |Truncated(p)| < |Truncated(q)| {
      ShorterSharesStreamIff(p, q);
    } else if |Truncated(q)| < |Truncated(p)| {
      ShorterSharesStreamIff(q, p);
      SameStreamSymmetric(p, q);
    } else {
      EqualLengthSharesStreamIff(p, q);
    }
  }

  lemma SameStreamSymmetric(p: seq<byte>, q: seq<byte>)
    ensures SamePasswordStream(p, q) <==> SamePasswordStream(q, p)
  {
    hide KeyByte, SamePasswordStream;
    SameKeyBytes(p, q);
    SameKeyBytes(q, p);
  }

  // With a NUL inside it is false: p and p NUL p are the same key stream.
  lemma EmbeddedNulRepeats(p: seq<byte>)
    ensures SamePasswordStream(p, p + [0] + p)
  {
    hide KeyByte, SamePasswordStream;
    SameKeyBytes(p, p + [0] + p);
    forall i: nat | i < KEY_STREAM ensures KeyByte(p, i) == KeyByte(p + [0] + p, i) {
      if 2 * |p| + 1 <= KEY_STREAM {
        DoubledKeyByte(p, i);
      } else {
        LongDoubledKeyByte(p, i);
      }
    }
  }

  lemma LongDoubledKeyByte(p: seq<byte>, i: nat)
    requires 2 * |p| + 1 > KEY_STREAM > i
    ensures KeyByte(p, i) == KeyByte(p + [0] + p, i)
  {
    hide KeyByte;
    PasswordStreamByte(p + [0] + p, i);
    if i <= |p| {
      PasswordStreamByte(p, i);
    } else {
      ShortPasswordRepeats(p, i - (|p| + 1));
      PasswordStreamByte(p, i - (|p| + 1));
    }
  }

  lemma DoubledKeyByte(p: seq<byte>, i: nat)
    requires 2 * |p| + 1 <= KEY_STREAM
    ensures KeyByte(p, i) == KeyByte(p + [0] + p, i)
  {
    hide StreamByte, Repeat;
    var k := p + [0];
    RepeatTwice(k);
    assert p + [0] + p + [0] == Repeat(k, 2);
    RepeatedKeySameStream(k, 2, i);
  }

  lemma RepeatTwice(k: seq<byte>)
    ensures Repeat(k, 2) == k + k
  {
    assert Repeat(k, 1) == Repeat(k, 0) + k;
  }

  // Passwords with the same stream share every minor-'b' hash.
  lemma SameStreamSameHash(init: Tables, p: seq<byte>, q: seq<byte>, salt: seq<byte>, junk: seq<byte>)
    requires |junk| == MAXSALT && ReadSalt(salt).Salt? && ReadSalt(salt).minor == MINOR_B
    requires SamePasswordStream(p, q)
    ensures NodeBcrypt(init, p, salt, junk) == NodeBcrypt(init, q, salt, junk)
  {
    hide ReadSalt, Digest, SameStream, SaltBytes, HashText, KeyLength;
    var Salt(minor, logr, text) := ReadSalt(salt);
    var n, n' := KeyLength(MINOR_B, |p|), KeyLength(MINOR_B, |q|);
    DigestSeesTheStream(init, p + [0], n, q + [0], n', SaltBytes(text, junk), logr);
  }

  // Passwords of at least 72 bytes that agree on the first 72 share every hash.
  lemma LongPasswordsShareHashes(init: Tables, p: seq<byte>, q: seq<byte>, salt: seq<byte>, junk: seq<byte>)
    requires |junk| == MAXSALT && ReadSalt(salt).Salt? && ReadSalt(salt).minor == MINOR_B
    requires |p| >= KEY_STREAM && |q| >= KEY_STREAM && p[..KEY_STREAM] == q[..KEY_STREAM]
    ensures NodeBcrypt(init, p, salt, junk) == NodeBcrypt(init, q, salt, junk)
  {
    hide ReadSalt, NodeBcrypt;
    EqualLengthSharesStreamIff(p, q);
    assert p[..KEY_STREAM] == Truncated(p) && q[..KEY_STREAM] == Truncated(q);
    SameStreamSameHash(init, p, q, salt, junk);
  }

  // Under one salt, two passwords share a hash exactly when their 23-byte digests
  // agree: printing loses nothing.
  lemma SameHashIffSameDigest(init: Tables, p: seq<byte>, q: seq<byte>, salt: seq<byte>, junk: seq<byte>)
    requires |junk| == MAXSALT && ReadSalt(salt).Salt?
    ensures var Salt(minor, logr, text) := ReadSalt(salt);
            var csalt := SaltBytes(text, junk);
            (NodeBcrypt(init, p, salt, junk) == NodeBcrypt(init, q, salt, junk) <==>
              DigestOf(init, p, minor, logr, csalt) == DigestOf(init, q, minor, logr, csalt))
  {
    hide ReadSalt, Digest, SaltBytes, Encode, Header;
    var Salt(minor, logr, text) := ReadSalt(salt);
    var csalt := SaltBytes(text, junk);
    var dp, dq := DigestOf(init, p, minor, logr, csalt), DigestOf(init, q, minor, logr, csalt);
    var front := Header(minor, logr) + Encode(csalt);
    EncodedLength(dp);
    EncodedLength(dq);
    if front + Encode(dp) == front + Encode(dq) {
      assert (front + Encode(dp))[|front|..] == Encode(dp) && (front + Encode(dq))[|front|..] == Encode(dq);
      EncodeIsInjective(dp, dq);
    }
  }
}
