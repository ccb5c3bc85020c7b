// Fixed-width values of the bcrypt code: u_int8_t bytes, u_int32_t words, and
// the big-endian conversion that the block loops write out by hand.
module Words {
  type byte = bv8
  type word = bv32

  // One 64-bit Blowfish block: the two halves that travel as (*xl, *xr).
  datatype Block = Block(l: word, r: word)

  function WordOf(b0: byte, b1: byte, b2: byte, b3: byte): word {
    (b0 as word << 24) | (b1 as word << 16) | (b2 as word << 8) | (b3 as word)
  }

  // Appends a byte at the low end: (w << 8) | b.
  function Push(w: word, b: byte): word {
    (w << 8) | (b as word)
  }

  lemma FourPushes(b0: byte, b1: byte, b2: byte, b3: byte)
    ensures Push(Push(Push(Push(0, b0), b1), b2), b3) == WordOf(b0, b1, b2, b3)
  {
  }

  function Xor(a: word, b: word): word {
    a ^ b
  }

  // Byte `i` of a word, most significant first.
  function ByteOf(w: word, i: nat): byte
    requires i < 4
  {
    if i == 0 then ((w >> 24) & 0xff) as byte
    else if i == 1 then ((w >> 16) & 0xff) as byte
    else if i == 2 then ((w >> 8) & 0xff) as byte
    else (w & 0xff) as byte
  }

  function BytesOfWord(w: word): (b: seq<byte>)
    ensures |b| == 4
  {
    [ByteOf(w, 0), ByteOf(w, 1), ByteOf(w, 2), ByteOf(w, 3)]
  }

  lemma BytesAre(w: word)
    ensures BytesOfWord(w) == [ByteOf(w, 0), ByteOf(w, 1), ByteOf(w, 2), ByteOf(w, 3)]
  {
  }

  lemma WordOfBytesOfWord(w: word)
    ensures WordOf(ByteOf(w, 0), ByteOf(w, 1), ByteOf(w, 2), ByteOf(w, 3)) == w
  {
  }

  lemma BytesOfWordOf(b0: byte, b1: byte, b2: byte, b3: byte)
    ensures BytesOfWord(WordOf(b0, b1, b2, b3)) == [b0, b1, b2, b3]
  {
  }

  // The eight bytes at data[0..8] as a block, and back.
  function BlockOf(b: seq<byte>): Block
    requires |b| == 8
  {
    Block(WordOf(b[0], b[1], b[2], b[3]), WordOf(b[4], b[5], b[6], b[7]))
  }

  function BytesOf(x: Block): (b: seq<byte>)
    ensures |b| == 8
  {
    BytesOfWord(x.l) + BytesOfWord(x.r)
  }

  lemma BlockOfBytesOf(x: Block)
    ensures BlockOf(BytesOf(x)) == x
  {
    WordOfBytesOfWord(x.l);
    WordOfBytesOfWord(x.r);
  }

  lemma BytesOfBlockOf(b: seq<byte>)
    requires |b| == 8
    ensures BytesOf(BlockOf(b)) == b
  {
    BytesOfWordOf(b[0], b[1], b[2], b[3]);
    BytesOfWordOf(b[4], b[5], b[6], b[7]);
    assert BytesOf(BlockOf(b)) == [b[0], b[1], b[2], b[3]] + [b[4], b[5], b[6], b[7]];
  }

  lemma XorCancels(a: word, b: word)
    ensures Xor(Xor(a, b), b) == a
  {
  }

  lemma XorByteCancels(a: byte, b: byte)
    ensures (a ^ b) ^ b == a
  {
  }
}
