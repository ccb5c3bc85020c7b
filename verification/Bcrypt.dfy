// bcrypt.cpp as it runs: output buffers written in place, the Blowfish state
// overwritten round by round. Each method is proved against BcryptHash.
module Bcrypt {
  import opened Words
  import opened Feistel
  import opened KeySchedule
  import opened BlowfishState
  import opened BlockModes
  import opened BcryptBase64
  import opened BcryptHash

  lemma Power2Monotone(n: nat)
    ensures Power2(n) >= 1 && (n < 4 <==> Power2(n) < 16)
  {
    if n > 4 {
      Power2Monotone(n - 1);
    } else {
      assert Power2(2) == 4 && Power2(3) == 8 && Power2(4) == 16;
    }
  }

  // Blowfish_initstate, Blowfish_expandstate and the `rounds` re-keyings.
  method Stretch(c: BlowfishContext, init: Tables, key: seq<byte>, keybytes: nat, csalt: seq<byte>, logr: nat)
    requires c.Valid() && Readable(key, keybytes) && |csalt| == MAXSALT
    modifies c.S, c.P
    ensures c.Boxes() == Stretched(init, key, keybytes, csalt, logr)
  {
    hide Expand, Expand0, Power2;
    var rounds := Power2(logr);
    c.InitState(init);
    c.ExpandState(csalt, MAXSALT, key, keybytes);
    ghost var t := c.Boxes();
    for k := 0 to rounds
      invariant c.Boxes() == Rekeyed(t, key, keybytes, csalt, k)
    {
      c.Expand0State(key, keybytes);
      c.Expand0State(csalt, MAXSALT);
    }
  }

  lemma ShiftedOut(w: word)
    ensures (w & 0xff) as byte == ByteOf(w, 3)
    ensures ((w >> 8) & 0xff) as byte == ByteOf(w, 2)
    ensures (((w >> 8) >> 8) & 0xff) as byte == ByteOf(w, 1)
    ensures ((((w >> 8) >> 8) >> 8) & 0xff) as byte == ByteOf(w, 0)
  {
  }

  // One word of cdata, shifted out byte by byte from the low end.
  method ShiftOut(cdata: array<word>, ciphertext: array<byte>, i: nat)
    requires i < cdata.Length && 4 * i + 4 <= ciphertext.Length
    modifies cdata, ciphertext
    ensures forall q :: 0 <= q < cdata.Length && q != i ==> cdata[q] == old(cdata[q])
    ensures ciphertext[..4 * i] == old(ciphertext[..4 * i])
    ensures ciphertext[4 * i..4 * i + 4] == BytesOfWord(old(cdata[i]))
  {
    hide ByteOf;
    ShiftedOut(cdata[i]);
    ciphertext[4 * i + 3] := (cdata[i] & 0xff) as byte;
    cdata[i] := cdata[i] >> 8;
    ciphertext[4 * i + 2] := (cdata[i] & 0xff) as byte;
    cdata[i] := cdata[i] >> 8;
    ciphertext[4 * i + 1] := (cdata[i] & 0xff) as byte;
    cdata[i] := cdata[i] >> 8;
    ciphertext[4 * i + 0] := (cdata[i] & 0xff) as byte;
  }

  // The magic text through 64 encryptions, as bytes.
  method EncryptText(c: BlowfishContext) returns (ciphertext: array<byte>)
    requires c.Valid()
    ensures fresh(ciphertext) && ciphertext[..] == BytesOfWords(Encrypted(c.Boxes(), 64))
  {
    hide StreamWord, Cursor, BytesOfWord, WordBlocks;
    ghost var t := c.Boxes();
    ciphertext := new byte[24];
    var cdata := new word[6];
    var j: nat := 0;
    CursorStarts(24);
    for i := 0 to 6
      invariant Cursor(24, j, 4 * i) && c.Boxes() == t
      invariant forall q :: 0 <= q < i ==> cdata[q] == TextWords()[q]
    {
      cdata[i], j := Stream2Word(TEXT, 24, j, 4 * i);
    }
    assert cdata[..] == Encrypted(t, 0);
    for k := 0 to 64
      invariant cdata[..] == Encrypted(t, k) && c.Boxes() == t
    {
      BlfEnc(c, cdata, 3);
    }
    ghost var words := cdata[..];
    for i := 0 to 6
      invariant c.Boxes() == t
      invariant forall q :: i <= q < 6 ==> cdata[q] == words[q]
      invariant ciphertext[..4 * i] == BytesOfWords(words[..i])
    {
      ShiftOut(cdata, ciphertext, i);
      assert words[..i + 1][..i] == words[..i];
      assert ciphertext[..4 * i + 4] == ciphertext[..4 * i] + ciphertext[4 * i..4 * i + 4];
    }
    assert words[..6] == words && ciphertext[..24] == ciphertext[..];
  }

  // A C string in a buffer: the text, its NUL, and the rest as it was.
  ghost predicate Holds(now: seq<byte>, text: seq<byte>, was: seq<byte>) {
    |text| < |was| && now == text + [0] + was[|text| + 1..]
  }

  // "$2", the minor version if any, and the cost, with the NUL of snprintf.
  method PutHeader(buffer: array<byte>, minor: byte, logr: nat) returns (i: nat)
    requires buffer.Length >= 8 && logr <= 31
    modifies buffer
    ensures i == |Header(minor, logr)| && Holds(buffer[..], Header(minor, logr), old(buffer[..]))
  {
    CostText(logr);
    buffer[0] := DOLLAR;
    buffer[1] := VERSION;
    i := 2;
    if minor != 0 {
      buffer[i] := minor;
      i := i + 1;
    }
    buffer[i] := DOLLAR;
    i := i + 1;
    ghost var text := Header(minor, logr);
    buffer[i], buffer[i + 1], buffer[i + 2], buffer[i + 3] := DIGITS[logr / 10], DIGITS[logr % 10], DOLLAR, 0;
    i := i + 3;
    assert buffer[..i] == text;
  }

  // Appending an encoding where the string so far ends.
  method AppendBase64(buffer: array<byte>, at: nat, data: seq<byte>, ghost text: seq<byte>, ghost was: seq<byte>)
    returns (end: nat)
    requires Holds(buffer[..], text, was) && at == |text|
    requires at + |Encode(data)| < buffer.Length
    modifies buffer
    ensures Holds(buffer[..], text + Encode(data), was) && end == |text + Encode(data)|
  {
    hide Encode;
    end := EncodeBase64(buffer, at, data);
  }

  method NodeBcrypt(init: Tables, key: seq<byte>, salt: seq<byte>, encrypted: array<byte>)
    returns (ghost junk: seq<byte>)
    requires encrypted.Length > HASH_SIZE
    modifies encrypted
    ensures |junk| == MAXSALT
    ensures Holds(encrypted[..], BcryptHash.NodeBcrypt(init, key, salt, junk), old(encrypted[..]))
  {
    hide Digest, Atoi, Strlen, Encode, Header, SaltBytes;
    ghost var was := encrypted[..];
    var csalt := new byte[MAXSALT];
    junk := csalt[..];
    var p := 1;
    if AboveVersion(At(salt, p)) {
      encrypted[0], encrypted[1] := COLON, 0;
      return;
    }
    var minor: byte := 0;
    if At(salt, p + 1) != DOLLAR {
      if At(salt, p + 1) == MINOR_A || At(salt, p + 1) == MINOR_B {
        minor := At(salt, p + 1);
        p := p + 1;
      } else {
        encrypted[0], encrypted[1] := COLON, 0;
        return;
      }
    }
    p := p + 2;
    if At(salt, p + 2) != DOLLAR {
      encrypted[0], encrypted[1] := COLON, 0;
      return;
    }
    var n := Atoi(From(salt, p));
    if n > 31 || n < 0 {
      encrypted[0], encrypted[1] := COLON, 0;
      return;
    }
    var logr: nat := n;
    Power2Monotone(logr);
    if Power2(logr) < 16 {
      encrypted[0], encrypted[1] := COLON, 0;
      return;
    }
    p := p + 3;
    if Strlen(From(salt, p)) * 3 / 4 < MAXSALT {
      encrypted[0], encrypted[1] := COLON, 0;
      return;
    }
    assert ReadSalt(salt) == Salt(minor, logr, From(salt, p));
    DecodeBase64(csalt, MAXSALT, From(salt, p));
    assert csalt[..] == SaltBytes(From(salt, p), junk) by { SaltBytesAre(From(salt, p), junk); }
    Finish(init, key, minor, logr, csalt[..], encrypted);
  }

  lemma SaltBytesAre(text: seq<byte>, junk: seq<byte>)
    requires |junk| == MAXSALT
    ensures SaltBytes(text, junk) == Decode(MAXSALT, text) + junk[|Decode(MAXSALT, text)|..]
  {
  }

  // From the decoded salt on: stretch, encrypt and print.
  method Finish(init: Tables, key: seq<byte>, minor: byte, logr: nat, csalt: seq<byte>, encrypted: array<byte>)
    requires encrypted.Length > HASH_SIZE && |csalt| == MAXSALT && logr <= 31
    modifies encrypted
    ensures Holds(encrypted[..],
                  HashText(minor, logr, csalt, Digest(init, key + [0], KeyLength(minor, |key|), csalt, logr)),
                  old(encrypted[..]))
  {
    hide Encrypted, Stretched, BytesOfWords, Encode, KeyLength;
    ghost var was := encrypted[..];
    var state := new BlowfishContext();
    Stretch(state, init, key + [0], KeyLength(minor, |key|), csalt, logr);
    var ciphertext := EncryptText(state);
    ghost var digest := Digest(init, key + [0], KeyLength(minor, |key|), csalt, logr);
    assert ciphertext[..23] == digest;
    EncodedLength(csalt);
    EncodedLength(digest);
    CostText(logr);
    var i := PutHeader(encrypted, minor, logr);
    ghost var header := Header(minor, logr);
    i := AppendBase64(encrypted, i, csalt, header, was);
    i := AppendBase64(encrypted, i, ciphertext[..23], header + Encode(csalt), was);
  }

  // bcrypt_gensalt: encode_salt with the clamped cost; `minor` is never 0 here.
  method GenSalt(minor: byte, log_rounds: nat, seed: seq<byte>, gsalt: array<byte>) returns (end: nat)
    requires minor != 0 && |seed| == MAXSALT && gsalt.Length == 32
    modifies gsalt
    ensures Holds(gsalt[..], Header(minor, ClampedCost(log_rounds)) + Encode(seed), old(gsalt[..]))
    ensures end == |Header(minor, ClampedCost(log_rounds)) + Encode(seed)|
  {
    hide Encode;
    ghost var was := gsalt[..];
    var logr := log_rounds % 256;
    if logr < 4 {
      logr := 4;
    } else if logr > 31 {
      logr := 31;
    }
    CostText(logr);
    EncodedLength(seed);
    end := PutHeader(gsalt, minor, logr);
    end := AppendBase64(gsalt, end, seed, Header(minor, logr), was);
  }

  // The hash does not depend on uninitialised memory.
  method GenerateHash(init: Tables, password: seq<byte>, rounds: nat, seed: seq<byte>) returns (hash: seq<byte>)
    requires |seed| == MAXSALT
    ensures forall junk :: |junk| == MAXSALT ==> hash == BcryptHash.GenerateHash(init, password, rounds, seed, junk)
  {
    hide BcryptHash.NodeBcrypt, Header, Encode, DecodesFully;
    var salt := new byte[32];
    var n := GenSalt(MINOR_B, rounds, seed, salt);
    assert salt[..n] == Header(MINOR_B, ClampedCost(rounds)) + Encode(seed);
    var buffer := new byte[HASH_SIZE + 1](_ => 0);
    ghost var found := NodeBcrypt(init, password, salt[..n], buffer);
    hash := buffer[..HASH_SIZE];
    ResizedBuffer(buffer[..], BcryptHash.NodeBcrypt(init, password, salt[..n], found), seq(HASH_SIZE + 1, _ => 0));
    GeneratedSaltDecodes(ClampedCost(rounds), seed);
    forall junk | |junk| == MAXSALT
      ensures hash == BcryptHash.GenerateHash(init, password, rounds, seed, junk)
    {
      JunkUnused(init, password, salt[..n], found, junk);
    }
  }

  // Nor does the verdict, unless the stored text does not decode to 16 salt bytes.
  method ValidatePassword(init: Tables, password: seq<byte>, hash: seq<byte>) returns (ok: bool)
    ensures exists junk :: |junk| == MAXSALT && ok == BcryptHash.ValidatePassword(init, password, hash, junk)
    ensures DecodesFully(hash) ==>
              forall junk :: |junk| == MAXSALT ==> ok == BcryptHash.ValidatePassword(init, password, hash, junk)
  {
    hide BcryptHash.NodeBcrypt, DecodesFully;
    var got := new byte[HASH_SIZE + 1](_ => 0);
    ghost var found := NodeBcrypt(init, password, hash, got);
    ResizedBuffer(got[..], BcryptHash.NodeBcrypt(init, password, hash, found), seq(HASH_SIZE + 1, _ => 0));
    ok := hash == got[..HASH_SIZE];
    assert ok == BcryptHash.ValidatePassword(init, password, hash, found);
    if DecodesFully(hash) {
      forall junk | |junk| == MAXSALT
        ensures ok == BcryptHash.ValidatePassword(init, password, hash, junk)
      {
        JunkUnused(init, password, hash, found, junk);
      }
    }
  }

  lemma ResizedBuffer(now: seq<byte>, r: seq<byte>, was: seq<byte>)
    requires Holds(now, r, was) && was == seq(HASH_SIZE + 1, _ => 0)
    ensures now[..HASH_SIZE] == Resized(r)
  {
    forall i | 0 <= i < HASH_SIZE ensures now[i] == Resized(r)[i] {
      assert now[i] == if i < |r| then r[i] else 0;
    }
  }

  method GetRounds(hash: seq<byte>) returns (r: int)
    ensures r == BcryptHash.GetRounds(hash)
  {
    hide Atoi;
    var p := 1;
    if At(hash, 0) != DOLLAR {
      return 0;
    }
    p := p + 1;
    if At(hash, p - 1) == 0 {
      return 0;
    }
    if At(hash, p) != 0 && At(hash, p) != DOLLAR {
      p := p + 1;
    }
    p := p + 1;
    if At(hash, p - 1) != DOLLAR {
      return 0;
    }
    return Atoi(From(hash, p));
  }
}
