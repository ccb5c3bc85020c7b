// The two Blowfish key schedules on values, and what they do not depend on.
module KeySchedule {
  import opened Words
  import opened Feistel
  import opened Residues

  // How many blocks fill P (9) and then S (512).
  const BLOCKS: nat := 521
  // 18 subkeys of 4 bytes: all that a schedule ever reads of a key.
  const KEY_STREAM: nat := 72

  // Memory that stream2word may touch for a declared length of `n` bytes. With
  // n == 0 it still reads data[0].
  predicate Readable(data: seq<byte>, n: nat) {
    1 <= |data| && n <= |data|
  }

  // Byte `i` of the endless stream that repeated stream2word calls produce.
  function StreamByte(data: seq<byte>, n: nat, i: nat): byte
    requires Readable(data, n)
  {
    if n == 0 then data[0] else data[i % n]
  }

  function StreamWord(data: seq<byte>, n: nat, i: nat): word
    requires Readable(data, n)
  {
    WordOf(StreamByte(data, n, i), StreamByte(data, n, i + 1), StreamByte(data, n, i + 2), StreamByte(data, n, i + 3))
  }

  function XorKey(p: Subkeys, key: seq<byte>, n: nat): Subkeys
    requires Readable(key, n)
  {
    seq(18, i requires 0 <= i < 18 => Xor(p[i], StreamWord(key, n, 4 * i)))
  }

  // The m-th enciphered block overwrites two cells: first of P, then of S.
  function Store(t: Tables, m: nat, x: Block): Tables
    requires m < BLOCKS
  {
    if m < 9 then t.(p := t.p[2 * m := x.l][2 * m + 1 := x.r])
    else t.(s := t.s[2 * (m - 9) := x.l][2 * (m - 9) + 1 := x.r])
  }

  // The tables being overwritten and the block (datal, datar) carried along.
  datatype Filling = Filling(t: Tables, x: Block)

  // Each block is enciphered under the tables as overwritten so far.
  function Filled0(t: Tables, m: nat): Filling
    requires m <= BLOCKS
  {
    if m == 0 then Filling(t, Block(0, 0))
    else
      var f := Filled0(t, m - 1);
      var y := Encipher(f.t, f.x);
      Filling(Store(f.t, m - 1, y), y)
  }

  function Salted(x: Block, salt: seq<byte>, n: nat, m: nat): Block
    requires Readable(salt, n)
  {
    Block(Xor(x.l, StreamWord(salt, n, 8 * m)), Xor(x.r, StreamWord(salt, n, 8 * m + 4)))
  }

  function Filled(t: Tables, salt: seq<byte>, n: nat, m: nat): Filling
    requires m <= BLOCKS && Readable(salt, n)
  {
    if m == 0 then Filling(t, Block(0, 0))
    else
      var f := Filled(t, salt, n, m - 1);
      var y := Encipher(f.t, Salted(f.x, salt, n, m - 1));
      Filling(Store(f.t, m - 1, y), y)
  }

  function Expand0(t: Tables, key: seq<byte>, keybytes: nat): Tables
    requires Readable(key, keybytes)
  {
    Filled0(t.(p := XorKey(t.p, key, keybytes)), BLOCKS).t
  }

  function Expand(t: Tables, salt: seq<byte>, n: nat, key: seq<byte>, keybytes: nat): Tables
    requires Readable(salt, n) && Readable(key, keybytes)
  {
    Filled(t.(p := XorKey(t.p, key, keybytes)), salt, n, BLOCKS).t
  }

  // ----- The schedule cell by cell

  // P and then S, as the 1042 cells that the blocks of a schedule overwrite in order.
  function Cell(t: Tables, i: nat): word
    requires i < 2 * BLOCKS
  {
    if i < 18 then t.p[i] else t.s[i - 18]
  }

  // Blocks xs[1..] have overwritten the first 2 * m cells of `t`, left half first.
  function CellAfter(t: Tables, xs: seq<Block>, m: nat, i: nat): word
    requires m < |xs| && i < 2 * BLOCKS
  {
    if i >= 2 * m then Cell(t, i)
    else if i % 2 == 0 then xs[i / 2 + 1].l
    else xs[i / 2 + 1].r
  }

  function WithSalt(x: Block, a: word, b: word): Block {
    Block(Xor(x.l, a), Xor(x.r, b))
  }

  ghost predicate IsOverwritten(t: Tables, xs: seq<Block>, m: nat, u: Tables)
    requires m < |xs|
  {
    forall i :: 0 <= i < 2 * BLOCKS ==> Cell(u, i) == CellAfter(t, xs, m, i)
  }

  // The blocks of the salted schedule and the tables between them: the zero block, and
  // each further one the cipher, under the tables so far, of the last plus 8 salt bytes.
  ghost predicate IsFilling(t: Tables, salt: seq<byte>, n: nat, xs: seq<Block>, us: seq<Tables>)
    requires Readable(salt, n)
  {
    && |xs| == |us| >= 1 && xs[0] == Block(0, 0)
    && (forall m :: 0 <= m < |xs| ==> IsOverwritten(t, xs, m, us[m]))
    && (forall m :: 0 <= m < |xs| - 1 ==>
         xs[m + 1] == Encipher(us[m], WithSalt(xs[m], StreamWord(salt, n, 8 * m), StreamWord(salt, n, 8 * m + 4))))
  }

  lemma StoreOverwrites(t: Tables, xs: seq<Block>, m: nat, u: Tables, y: Block)
    requires |xs| == m + 1 && m < BLOCKS && IsOverwritten(t, xs, m, u)
    ensures IsOverwritten(t, xs + [y], m + 1, Store(u, m, y))
  {
    var v := Store(u, m, y);
    forall i | 0 <= i < 2 * BLOCKS ensures Cell(v, i) == CellAfter(t, xs + [y], m + 1, i) {
      assert Cell(v, i) == if i == 2 * m then y.l else if i == 2 * m + 1 then y.r else Cell(u, i);
      assert Cell(u, i) == CellAfter(t, xs, m, i);
    }
  }

  lemma OverwrittenMore(t: Tables, xs: seq<Block>, m: nat, u: Tables, y: Block)
    requires m < |xs| && IsOverwritten(t, xs, m, u)
    ensures IsOverwritten(t, xs + [y], m, u)
  {
    forall i | 0 <= i < 2 * BLOCKS ensures Cell(u, i) == CellAfter(t, xs + [y], m, i) {
      assert Cell(u, i) == CellAfter(t, xs, m, i);
    }
  }

  lemma {:induction false} FilledTrace(t: Tables, salt: seq<byte>, n: nat, m: nat)
    returns (xs: seq<Block>, us: seq<Tables>)
    requires m <= BLOCKS && Readable(salt, n)
    ensures IsFilling(t, salt, n, xs, us) && |xs| == |us| == m + 1
    ensures Filled(t, salt, n, m) == Filling(us[m], xs[m])
  {
    hide Encipher, Salted, Store, IsOverwritten, IsFilling;
    if m == 0 {
      xs, us := [Block(0, 0)], [t];
      FillingStarts(t, salt, n);
    } else {
      var x0, u0 := FilledTrace(t, salt, n, m - 1);
      var y := Encipher(u0[m - 1], Salted(x0[m - 1], salt, n, m - 1));
      FillingMore(t, salt, n, x0, u0, y);
      xs, us := x0 + [y], u0 + [Store(u0[m - 1], m - 1, y)];
    }
  }

  lemma FillingMore(t: Tables, salt: seq<byte>, n: nat, xs: seq<Block>, us: seq<Tables>, y: Block)
    requires Readable(salt, n) && IsFilling(t, salt, n, xs, us) && |xs| <= BLOCKS
    requires y == Encipher(us[|xs| - 1], Salted(xs[|xs| - 1], salt, n, |xs| - 1))
    ensures IsFilling(t, salt, n, xs + [y], us + [Store(us[|xs| - 1], |xs| - 1, y)])
  {
    hide Encipher, StreamWord, Store, IsOverwritten, Xor, WithSalt, Salted;
    var m := |xs| - 1;
    SaltedIs(xs[m], salt, n, m);
    StoreOverwrites(t, xs, m, us[m], y);
    forall k | 0 <= k <= m ensures IsOverwritten(t, xs + [y], k, us[k]) {
      OverwrittenMore(t, xs, k, us[k], y);
    }
  }

  lemma FillingStarts(t: Tables, salt: seq<byte>, n: nat)
    requires Readable(salt, n)
    ensures IsFilling(t, salt, n, [Block(0, 0)], [t])
  {
  }

  lemma SaltedIs(x: Block, salt: seq<byte>, n: nat, m: nat)
    requires Readable(salt, n)
    ensures Salted(x, salt, n, m) == WithSalt(x, StreamWord(salt, n, 8 * m), StreamWord(salt, n, 8 * m + 4))
  {
    hide StreamWord;
  }

  // The whole schedule: the key is added to P word by word, and the chain of blocks
  // then replaces all cells in order.
  lemma ExpandTrace(t: Tables, salt: seq<byte>, n: nat, key: seq<byte>, keybytes: nat)
    returns (keyed: Tables, xs: seq<Block>, us: seq<Tables>)
    requires Readable(salt, n) && Readable(key, keybytes)
    ensures keyed.s == t.s && forall i :: 0 <= i < 18 ==> keyed.p[i] == Xor(t.p[i], StreamWord(key, keybytes, 4 * i))
    ensures IsFilling(keyed, salt, n, xs, us) && |xs| == BLOCKS + 1
    ensures Expand(t, salt, n, key, keybytes) == us[BLOCKS]
    ensures forall m :: 0 <= m < BLOCKS ==>
      && Cell(us[BLOCKS], 2 * m) == xs[m + 1].l
      && Cell(us[BLOCKS], 2 * m + 1) == xs[m + 1].r
  {
    hide StreamWord, Filled, Xor;
    keyed := t.(p := XorKey(t.p, key, keybytes));
    xs, us := FilledTrace(keyed, salt, n, BLOCKS);
    assert IsOverwritten(keyed, xs, BLOCKS, us[BLOCKS]);
    forall m | 0 <= m < BLOCKS
      ensures Cell(us[BLOCKS], 2 * m) == xs[m + 1].l && Cell(us[BLOCKS], 2 * m + 1) == xs[m + 1].r
    {
      assert Cell(us[BLOCKS], 2 * m) == CellAfter(keyed, xs, BLOCKS, 2 * m);
      assert Cell(us[BLOCKS], 2 * m + 1) == CellAfter(keyed, xs, BLOCKS, 2 * m + 1);
    }
  }

  // ----- An all-zero salt is no salt

  lemma ZeroStream(salt: seq<byte>, n: nat, i: nat)
    requires Readable(salt, n) && forall i :: 0 <= i < |salt| ==> salt[i] == 0
    ensures StreamByte(salt, n, i) == 0
  {
  }

  lemma ZeroWord(x: word)
    ensures Xor(x, WordOf(0, 0, 0, 0)) == x
  {
  }

  lemma ZeroSalted(x: Block, salt: seq<byte>, n: nat, m: nat)
    requires Readable(salt, n) && forall i :: 0 <= i < |salt| ==> salt[i] == 0
    ensures Salted(x, salt, n, m) == x
  {
    forall i: nat ensures StreamByte(salt, n, i) == 0 {
      ZeroStream(salt, n, i);
    }
    ZeroWord(x.l);
    ZeroWord(x.r);
  }

  lemma {:induction false} ZeroSaltFilling(t: Tables, salt: seq<byte>, n: nat, m: nat)
    requires m <= BLOCKS && Readable(salt, n)
    requires forall i :: 0 <= i < |salt| ==> salt[i] == 0
    ensures Filled(t, salt, n, m) == Filled0(t, m)
  {
    hide Encipher, Salted, Store;
    if m > 0 {
      ZeroSaltFilling(t, salt, n, m - 1);
      ZeroSalted(Filled0(t, m - 1).x, salt, n, m - 1);
    }
  }

  lemma ZeroSaltIsNoSalt(t: Tables, salt: seq<byte>, n: nat, key: seq<byte>, keybytes: nat)
    requires Readable(salt, n) && Readable(key, keybytes)
    requires forall i :: 0 <= i < |salt| ==> salt[i] == 0
    ensures Expand(t, salt, n, key, keybytes) == Expand0(t, key, keybytes)
  {
    ZeroSaltFilling(t.(p := XorKey(t.p, key, keybytes)), salt, n, BLOCKS);
  }

  // ----- A schedule sees a key only as its first 72 stream bytes

  ghost predicate SameStream(k: seq<byte>, n: nat, k': seq<byte>, n': nat, bytes: nat)
    requires Readable(k, n) && Readable(k', n')
  {
    forall i :: 0 <= i < bytes ==> StreamByte(k, n, i) == StreamByte(k', n', i)
  }

  lemma XorIsInjective(a: word, b: word, c: word)
    requires Xor(a, b) == Xor(a, c)
    ensures b == c
  {
  }

  lemma WordOfIsInjective(a: word, b0: byte, b1: byte, b2: byte, b3: byte, c0: byte, c1: byte, c2: byte, c3: byte)
    requires Xor(a, WordOf(b0, b1, b2, b3)) == Xor(a, WordOf(c0, c1, c2, c3))
    ensures b0 == c0 && b1 == c1 && b2 == c2 && b3 == c3
  {
    hide WordOf, BytesOfWord, Xor;
    BytesOfWordOf(b0, b1, b2, b3);
    BytesOfWordOf(c0, c1, c2, c3);
    XorIsInjective(a, WordOf(b0, b1, b2, b3), WordOf(c0, c1, c2, c3));
    assert BytesOfWord(WordOf(b0, b1, b2, b3)) == BytesOfWord(WordOf(c0, c1, c2, c3));
  }

  lemma SubkeysGiveTheStream(p: Subkeys, k: seq<byte>, n: nat, k': seq<byte>, n': nat, w: nat)
    requires Readable(k, n) && Readable(k', n')
    requires w < 18 && XorKey(p, k, n)[w] == XorKey(p, k', n')[w]
    ensures forall i :: 4 * w <= i < 4 * w + 4 ==> StreamByte(k, n, i) == StreamByte(k', n', i)
  {
    hide WordOf, StreamByte, Xor;
    var i := 4 * w;
    WordOfIsInjective(p[w],
      StreamByte(k, n, i), StreamByte(k, n, i + 1), StreamByte(k, n, i + 2), StreamByte(k, n, i + 3),
      StreamByte(k', n', i), StreamByte(k', n', i + 1), StreamByte(k', n', i + 2), StreamByte(k', n', i + 3));
  }

  // Two keys leave the same subkeys exactly when their first 72 stream bytes agree.
  lemma XorKeyIsTheStream(p: Subkeys, k: seq<byte>, n: nat, k': seq<byte>, n': nat)
    requires Readable(k, n) && Readable(k', n')
    ensures XorKey(p, k, n) == XorKey(p, k', n') <==> SameStream(k, n, k', n', KEY_STREAM)
  {
    hide WordOf, StreamByte;
    if SameStream(k, n, k', n', KEY_STREAM) {
      assert forall i :: 0 <= i < 18 ==> StreamWord(k, n, 4 * i) == StreamWord(k', n', 4 * i);
    }
    if XorKey(p, k, n) == XorKey(p, k', n') {
      forall i | 0 <= i < KEY_STREAM
        ensures StreamByte(k, n, i) == StreamByte(k', n', i)
      {
        SubkeysGiveTheStream(p, k, n, k', n', i / 4);
      }
    }
  }

  lemma SchedulesSeeOnlyTheStream(t: Tables, salt: seq<byte>, m: nat, k: seq<byte>, n: nat, k': seq<byte>, n': nat)
    requires Readable(salt, m) && Readable(k, n) && Readable(k', n')
    requires SameStream(k, n, k', n', KEY_STREAM)
    ensures Expand0(t, k, n) == Expand0(t, k', n')
    ensures Expand(t, salt, m, k, n) == Expand(t, salt, m, k', n')
  {
    XorKeyIsTheStream(t.p, k, n, k', n');
  }

  // ----- Repeating a key changes nothing

  function Repeat(k: seq<byte>, times: nat): (r: seq<byte>)
    ensures |r| == times * |k|
  {
    if times == 0 then [] else Repeat(k, times - 1) + k
  }

  lemma {:induction false} RepeatAt(k: seq<byte>, times: nat, i: nat)
    requires |k| > 0 && i < |Repeat(k, times)|
    ensures Repeat(k, times)[i] == k[i % |k|]
  {
    var front := Repeat(k, times - 1);
    if i < |front| {
      RepeatAt(k, times - 1, i);
    } else {
      ModUnique(i, times - 1, i - |front|, |k|);
    }
  }

  lemma RepeatedKeySameStream(k: seq<byte>, times: nat, i: nat)
    requires |k| > 0 && times > 0
    ensures Readable(Repeat(k, times), |Repeat(k, times)|)
    ensures StreamByte(Repeat(k, times), |Repeat(k, times)|, i) == StreamByte(k, |k|, i)
  {
    var n := |Repeat(k, times)|;
    assert n > 0 by { assert Repeat(k, times) == Repeat(k, times - 1) + k; }
    RepeatAt(k, times, i % n);
    ModOfMod(i, times, |k|);
  }

  lemma RepeatedKeySameSchedule(t: Tables, salt: seq<byte>, m: nat, k: seq<byte>, times: nat)
    requires |k| > 0 && times > 0 && Readable(salt, m)
    ensures Readable(Repeat(k, times), |Repeat(k, times)|)
    ensures Expand0(t, Repeat(k, times), |Repeat(k, times)|) == Expand0(t, k, |k|)
    ensures Expand(t, salt, m, Repeat(k, times), |Repeat(k, times)|) == Expand(t, salt, m, k, |k|)
  {
    RepeatedKeySameStream(k, times, 0);
    forall i | 0 <= i < KEY_STREAM
      ensures StreamByte(Repeat(k, times), |Repeat(k, times)|, i) == StreamByte(k, |k|, i)
    {
      RepeatedKeySameStream(k, times, i);
    }
    SchedulesSeeOnlyTheStream(t, salt, m, Repeat(k, times), |Repeat(k, times)|, k, |k|);
  }
}
