// The Blowfish cipher on values: 16 Feistel rounds over an S-box and 18
// subkeys. Deciphering is the same network with the subkeys in reverse order,
// which is what makes it the inverse for any round function at all.
module Feistel {
  import opened Words

  const BLF_N: nat := 16

  // S[4][256] flattened, as `c->S[0]` is used by the source.
  type SBox = s: seq<word> | |s| == 1024 witness seq(1024, _ => 0)
  // P[BLF_N + 2].
  type Subkeys = p: seq<word> | |p| == 18 witness seq(18, _ => 0)

  datatype Tables = Tables(s: SBox, p: Subkeys)

  function Octet(x: word, shift: bv6): (i: nat)
    requires shift <= 24
    ensures i < 256
  {
    ((x >> shift) & 0xff) as byte as nat
  }

  function Combine(a: word, b: word, c: word, d: word): word {
    ((a + b) ^ c) + d
  }

  // The round function F(s, x).
  function Mix(s: SBox): word -> word {
    x => Combine(s[Octet(x, 24)], s[0x100 + Octet(x, 16)], s[0x200 + Octet(x, 8)], s[0x300 + Octet(x, 0)])
  }

  // One round: the waiting half `r` absorbs f of the active half `l` and a
  // subkey, and becomes the active one.
  function Round(f: word -> word, k: word, y: Block): Block {
    Block(Xor(y.r, Xor(f(y.l), k)), y.l)
  }

  function After(f: word -> word, p: Subkeys, x: Block, n: nat): Block
    requires n <= BLF_N
  {
    if n == 0 then Block(Xor(x.l, p[0]), x.r) else Round(f, p[n], After(f, p, x, n - 1))
  }

  function Network(f: word -> word, p: Subkeys, x: Block): Block {
    var y := After(f, p, x, BLF_N);
    Block(Xor(y.r, p[BLF_N + 1]), y.l)
  }

  function Swap(y: Block): Block {
    Block(y.r, y.l)
  }

  function Reversed(p: Subkeys): Subkeys {
    seq(18, i requires 0 <= i < 18 => p[17 - i])
  }

  function Encipher(t: Tables, x: Block): Block {
    Network(Mix(t.s), t.p, x)
  }

  function Decipher(t: Tables, x: Block): Block {
    Network(Mix(t.s), Reversed(t.p), x)
  }

  // ----- The network as one sequence of halves

  // The halves in the order in which they become active: each is the one before the
  // last, plus the round function of the last and the next subkey.
  ghost predicate AreHalves(f: word -> word, p: Subkeys, x: Block, v: seq<word>) {
    && |v| == BLF_N + 2 && v[0] == x.r && v[1] == Xor(x.l, p[0])
    && forall n :: 1 <= n <= BLF_N ==> v[n + 1] == Xor(v[n - 1], Xor(f(v[n]), p[n]))
  }

  lemma {:induction false} HalvesUpTo(f: word -> word, p: Subkeys, x: Block, m: nat) returns (v: seq<word>)
    requires m <= BLF_N
    ensures |v| == m + 2 && v[0] == x.r && v[1] == Xor(x.l, p[0])
    ensures forall n :: 1 <= n <= m ==> v[n + 1] == Xor(v[n - 1], Xor(f(v[n]), p[n]))
    ensures After(f, p, x, m) == Block(v[m + 1], v[m])
  {
    hide Xor;
    if m == 0 {
      v := [x.r, Xor(x.l, p[0])];
    } else {
      v := HalvesUpTo(f, p, x, m - 1);
      v := v + [Xor(v[m - 1], Xor(f(v[m]), p[m]))];
    }
  }

  lemma NetworkIsARecurrence(f: word -> word, p: Subkeys, x: Block) returns (v: seq<word>)
    ensures AreHalves(f, p, x, v)
    ensures Network(f, p, x) == Block(Xor(v[BLF_N], p[BLF_N + 1]), v[BLF_N + 1])
  {
    hide Xor, After;
    v := HalvesUpTo(f, p, x, BLF_N);
  }

  // The round function on the four bytes of a word, the most significant first.
  lemma MixOfBytes(s: SBox, b0: byte, b1: byte, b2: byte, b3: byte)
    ensures Mix(s)(WordOf(b0, b1, b2, b3))
         == Combine(s[b0 as nat], s[0x100 + b1 as nat], s[0x200 + b2 as nat], s[0x300 + b3 as nat])
  {
    hide Octet, WordOf, Combine, ByteOf, BytesOfWord;
    var x := WordOf(b0, b1, b2, b3);
    OctetIsByte(x);
    BytesAre(x);
    BytesOfWordOf(b0, b1, b2, b3);
    SameFour(ByteOf(x, 0), ByteOf(x, 1), ByteOf(x, 2), ByteOf(x, 3), b0, b1, b2, b3);
  }

  lemma SameFour(a0: byte, a1: byte, a2: byte, a3: byte, b0: byte, b1: byte, b2: byte, b3: byte)
    requires [a0, a1, a2, a3] == [b0, b1, b2, b3]
    ensures a0 == b0 && a1 == b1 && a2 == b2 && a3 == b3
  {
    assert [a0, a1, a2, a3][0] == [b0, b1, b2, b3][0] && [a0, a1, a2, a3][1] == [b0, b1, b2, b3][1];
    assert [a0, a1, a2, a3][2] == [b0, b1, b2, b3][2] && [a0, a1, a2, a3][3] == [b0, b1, b2, b3][3];
  }

  lemma OctetIsByte(x: word)
    ensures Octet(x, 24) == ByteOf(x, 0) as nat && Octet(x, 16) == ByteOf(x, 1) as nat
    ensures Octet(x, 8) == ByteOf(x, 2) as nat && Octet(x, 0) == ByteOf(x, 3) as nat
  {
    assert x >> 0 == x;
  }

  // The first two entries are added, the third is xored in, the fourth added.
  lemma CombineParts(a: word, b: word, c: word, d: word)
    ensures Combine(a, b, 0, 0) == a + b && Combine(0, 0, c, d) == c + d && Combine(a, 0, c, 0) == Xor(a, c)
  {
  }

  lemma CombineChains(a: word, b: word, c: word, d: word)
    ensures Combine(a, b, c, d) == ((a + b) ^ c) + d
  {
  }

  // ----- Deciphering inverts enciphering

  // A round with the same subkey undoes a round once the halves are swapped.
  lemma RoundUnwinds(f: word -> word, k: word, y: Block)
    ensures Round(f, k, Swap(Round(f, k, y))) == Swap(y)
  {
    hide Xor;
    XorCancels(y.r, Xor(f(y.l), k));
  }

  // Running the rounds backwards on the enciphered block walks the states back.
  lemma {:induction false} RoundsUnwind(f: word -> word, p: Subkeys, x: Block, n: nat)
    requires n <= BLF_N
    ensures After(f, Reversed(p), Network(f, p, x), n) == Swap(After(f, p, x, BLF_N - n))
  {
    hide Xor;
    if n == 0 {
      XorCancels(After(f, p, x, BLF_N).r, p[BLF_N + 1]);
    } else {
      RoundsUnwind(f, p, x, n - 1);
      RoundUnwinds(f, p[BLF_N + 1 - n], After(f, p, x, BLF_N - n));
      assert Reversed(p)[n] == p[BLF_N + 1 - n];
    }
  }

  lemma NetworkInverse(f: word -> word, p: Subkeys, x: Block)
    ensures Network(f, Reversed(p), Network(f, p, x)) == x
  {
    hide Xor;
    RoundsUnwind(f, p, x, BLF_N);
    XorCancels(x.l, p[0]);
  }

  // Deciphering undoes enciphering, whatever the tables hold.
  lemma DecipherEncipher(t: Tables, x: Block)
    ensures Decipher(t, Encipher(t, x)) == x
  {
    NetworkInverse(Mix(t.s), t.p, x);
  }

  lemma EncipherDecipher(t: Tables, x: Block)
    ensures Encipher(t, Decipher(t, x)) == x
  {
    assert Reversed(Reversed(t.p)) == t.p;
    NetworkInverse(Mix(t.s), Reversed(t.p), x);
  }
}
