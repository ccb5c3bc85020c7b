// struct blf_ctx and the functions that overwrite it in place, each proved
// against the cipher and the schedules on values.
module BlowfishState {
  import opened Words
  import opened Feistel
  import opened KeySchedule
  import opened Residues

  // The cursor `*current` of stream2word stands for stream position `pos`: it is
  // never reduced when a read ends, only lazily before the next byte.
  ghost predicate Cursor(n: nat, current: nat, pos: nat) {
    n == 0 || current == pos % n || (current == n && pos % n == 0)
  }

  // The word accumulated from the first `i` bytes at position `pos`.
  ghost function Pushed(data: seq<byte>, n: nat, pos: nat, i: nat): word
    requires Readable(data, n)
  {
    if i == 0 then 0 else Push(Pushed(data, n, pos, i - 1), StreamByte(data, n, pos + i - 1))
  }

  lemma PushedIsWord(data: seq<byte>, n: nat, pos: nat)
    requires Readable(data, n)
    ensures Pushed(data, n, pos, 4) == StreamWord(data, n, pos)
  {
    hide StreamByte, WordOf, Push;
    FourPushes(StreamByte(data, n, pos), StreamByte(data, n, pos + 1),
      StreamByte(data, n, pos + 2), StreamByte(data, n, pos + 3));
    assert Pushed(data, n, pos, 1) == Push(0, StreamByte(data, n, pos));
    assert Pushed(data, n, pos, 2) == Push(Pushed(data, n, pos, 1), StreamByte(data, n, pos + 1));
    assert Pushed(data, n, pos, 3) == Push(Pushed(data, n, pos, 2), StreamByte(data, n, pos + 2));
  }

  lemma CursorStarts(n: nat)
    ensures Cursor(n, 0, 0)
  {
  }

  // The byte under the cursor, wrapped if needed, is the stream's next byte, and
  // stepping over it keeps cursor and position in step.
  lemma CursorReads(data: seq<byte>, n: nat, current: nat, pos: nat)
    requires Readable(data, n) && Cursor(n, current, pos)
    ensures var j := if current >= n then 0 else current;
            j < |data| && data[j] == StreamByte(data, n, pos) && Cursor(n, j + 1, pos + 1)
  {
    if n > 0 {
      NextResidue(pos, n);
    }
  }

  method Stream2Word(data: seq<byte>, databytes: nat, current: nat, ghost pos: nat) returns (temp: word, next: nat)
    requires Readable(data, databytes)
    requires Cursor(databytes, current, pos)
    ensures temp == StreamWord(data, databytes, pos)
    ensures Cursor(databytes, next, pos + 4)
  {
    hide StreamByte, WordOf, Push, Cursor;
    temp := 0;
    var j: nat := current;
    for i := 0 to 4
      invariant Cursor(databytes, j, pos + i)
      invariant temp == Pushed(data, databytes, pos, i)
    {
      CursorReads(data, databytes, j, pos + i);
      if j >= databytes {
        j := 0;
      }
      temp := Push(temp, data[j]);
      j := j + 1;
    }
    PushedIsWord(data, databytes, pos);
    next := j;
  }

  class BlowfishContext {
    const S: array<word>
    const P: array<word>

    ghost predicate Valid() {
      S.Length == 1024 && P.Length == 18 && S != P
    }

    ghost function Boxes(): Tables
      requires Valid()
      reads S, P
    {
      Tables(S[..], P[..])
    }

    constructor ()
      ensures Valid() && fresh(S) && fresh(P)
    {
      S := new word[1024];
      P := new word[18];
    }

    // *c = initstate, for the constant tables `initstate`.
    method InitState(initstate: Tables)
      requires Valid()
      modifies S, P
      ensures Boxes() == initstate
    {
      forall i | 0 <= i < 1024 { S[i] := initstate.s[i]; }
      forall i | 0 <= i < 18 { P[i] := initstate.p[i]; }
    }

    function F(x: word): word
      requires S.Length == 1024
      reads S
    {
      Combine(S[Octet(x, 24)], S[0x100 + Octet(x, 16)], S[0x200 + Octet(x, 8)], S[0x300 + Octet(x, 0)])
    }

    lemma FIsMix(x: word)
      requires Valid()
      ensures F(x) == Mix(S[..])(x)
    {
      hide Octet, Combine;
    }

    // BLFRND(s, p, i, j, n): the new value of i.
    function BlfRnd(i: word, j: word, n: nat): (r: word)
      requires Valid() && n < 18
      reads S, P
    {
      Xor(i, Xor(F(j), P[n]))
    }

    lemma BlfRndIsRound(i: word, j: word, n: nat)
      requires Valid() && n < 18
      ensures Block(BlfRnd(i, j, n), j) == Round(Mix(S[..]), P[..][n], Block(j, i))
    {
      hide Mix, F, Xor;
      FIsMix(j);
    }

    method Encipher(xl: word, xr: word) returns (yl: word, yr: word)
      requires Valid()
      ensures Block(yl, yr) == Feistel.Encipher(Boxes(), Block(xl, xr))
    {
      hide Round, Mix, F, BlfRnd, Xor;
      ghost var f, p, x := Mix(Boxes().s), Boxes().p, Block(xl, xr);
      var l, r := xl, xr;
      l := Xor(l, P[0]);            assert After(f, p, x, 0) == Block(l, r);
      BlfRndIsRound(r, l, 1); r := BlfRnd(r, l, 1); assert After(f, p, x, 1) == Block(r, l);
      BlfRndIsRound(l, r, 2); l := BlfRnd(l, r, 2); assert After(f, p, x, 2) == Block(l, r);
      BlfRndIsRound(r, l, 3); r := BlfRnd(r, l, 3); assert After(f, p, x, 3) == Block(r, l);
      BlfRndIsRound(l, r, 4); l := BlfRnd(l, r, 4); assert After(f, p, x, 4) == Block(l, r);
      BlfRndIsRound(r, l, 5); r := BlfRnd(r, l, 5); assert After(f, p, x, 5) == Block(r, l);
      BlfRndIsRound(l, r, 6); l := BlfRnd(l, r, 6); assert After(f, p, x, 6) == Block(l, r);
      BlfRndIsRound(r, l, 7); r := BlfRnd(r, l, 7); assert After(f, p, x, 7) == Block(r, l);
      BlfRndIsRound(l, r, 8); l := BlfRnd(l, r, 8); assert After(f, p, x, 8) == Block(l, r);
      BlfRndIsRound(r, l, 9); r := BlfRnd(r, l, 9); assert After(f, p, x, 9) == Block(r, l);
      BlfRndIsRound(l, r, 10); l := BlfRnd(l, r, 10); assert After(f, p, x, 10) == Block(l, r);
      BlfRndIsRound(r, l, 11); r := BlfRnd(r, l, 11); assert After(f, p, x, 11) == Block(r, l);
      BlfRndIsRound(l, r, 12); l := BlfRnd(l, r, 12); assert After(f, p, x, 12) == Block(l, r);
      BlfRndIsRound(r, l, 13); r := BlfRnd(r, l, 13); assert After(f, p, x, 13) == Block(r, l);
      BlfRndIsRound(l, r, 14); l := BlfRnd(l, r, 14); assert After(f, p, x, 14) == Block(l, r);
      BlfRndIsRound(r, l, 15); r := BlfRnd(r, l, 15); assert After(f, p, x, 15) == Block(r, l);
      BlfRndIsRound(l, r, 16); l := BlfRnd(l, r, 16); assert After(f, p, x, 16) == Block(l, r);
      yl := Xor(r, P[17]);
      yr := l;
    }

    method Decipher(xl: word, xr: word) returns (yl: word, yr: word)
      requires Valid()
      ensures Block(yl, yr) == Feistel.Decipher(Boxes(), Block(xl, xr))
    {
      hide Round, Mix, F, BlfRnd, Xor;
      ghost var f, p, x := Mix(Boxes().s), Reversed(Boxes().p), Block(xl, xr);
      var l, r := xl, xr;
      l := Xor(l, P[17]);            assert After(f, p, x, 0) == Block(l, r);
      BlfRndIsRound(r, l, 16); r := BlfRnd(r, l, 16); assert After(f, p, x, 1) == Block(r, l);
      BlfRndIsRound(l, r, 15); l := BlfRnd(l, r, 15); assert After(f, p, x, 2) == Block(l, r);
      BlfRndIsRound(r, l, 14); r := BlfRnd(r, l, 14); assert After(f, p, x, 3) == Block(r, l);
      BlfRndIsRound(l, r, 13); l := BlfRnd(l, r, 13); assert After(f, p, x, 4) == Block(l, r);
      BlfRndIsRound(r, l, 12); r := BlfRnd(r, l, 12); assert After(f, p, x, 5) == Block(r, l);
      BlfRndIsRound(l, r, 11); l := BlfRnd(l, r, 11); assert After(f, p, x, 6) == Block(l, r);
      BlfRndIsRound(r, l, 10); r := BlfRnd(r, l, 10); assert After(f, p, x, 7) == Block(r, l);
      BlfRndIsRound(l, r, 9); l := BlfRnd(l, r, 9); assert After(f, p, x, 8) == Block(l, r);
      BlfRndIsRound(r, l, 8); r := BlfRnd(r, l, 8); assert After(f, p, x, 9) == Block(r, l);
      BlfRndIsRound(l, r, 7); l := BlfRnd(l, r, 7); assert After(f, p, x, 10) == Block(l, r);
      BlfRndIsRound(r, l, 6); r := BlfRnd(r, l, 6); assert After(f, p, x, 11) == Block(r, l);
      BlfRndIsRound(l, r, 5); l := BlfRnd(l, r, 5); assert After(f, p, x, 12) == Block(l, r);
      BlfRndIsRound(r, l, 4); r := BlfRnd(r, l, 4); assert After(f, p, x, 13) == Block(r, l);
      BlfRndIsRound(l, r, 3); l := BlfRnd(l, r, 3); assert After(f, p, x, 14) == Block(l, r);
      BlfRndIsRound(r, l, 2); r := BlfRnd(r, l, 2); assert After(f, p, x, 15) == Block(r, l);
      BlfRndIsRound(l, r, 1); l := BlfRnd(l, r, 1); assert After(f, p, x, 16) == Block(l, r);
      yl := Xor(r, P[0]);
      yr := l;
    }

    // The first loop of both schedules.
    method XorKeyIntoP(key: seq<byte>, keybytes: nat)
      requires Valid() && Readable(key, keybytes)
      modifies P
      ensures Boxes() == old(Boxes()).(p := XorKey(old(Boxes()).p, key, keybytes))
    {
      hide StreamWord, Xor, Cursor;
      var j: nat, temp: word := 0, 0;
      assert Cursor(keybytes, 0, 0) by { CursorStarts(keybytes); }
      for i := 0 to 18
        invariant Cursor(keybytes, j, 4 * i)
        invariant forall q :: 0 <= q < i ==> P[q] == XorKey(old(Boxes()).p, key, keybytes)[q]
        invariant forall q :: i <= q < 18 ==> P[q] == old(P[q])
        invariant S[..] == old(S[..])
      {
        temp, j := Stream2Word(key, keybytes, j, 4 * i);
        P[i] := Xor(P[i], temp);
      }
      assert P[..] == XorKey(old(Boxes()).p, key, keybytes);
    }

    // Two subkeys of P are replaced by an enciphered block.
    method PutP(i: nat, datal: word, datar: word)
      requires Valid() && i < 18 && i % 2 == 0
      modifies P
      ensures Boxes() == Store(old(Boxes()), i / 2, Block(datal, datar))
    {
      P[i] := datal;
      P[i + 1] := datar;
      assert P[..] == old(P[..])[i := datal][i + 1 := datar];
    }

    // Two entries of box `i` are replaced by an enciphered block.
    method PutS(i: nat, k: nat, datal: word, datar: word)
      requires Valid() && i < 4 && k < 256 && k % 2 == 0
      modifies S
      ensures Boxes() == Store(old(Boxes()), 9 + 128 * i + k / 2, Block(datal, datar))
    {
      S[256 * i + k] := datal;
      S[256 * i + k + 1] := datar;
      assert S[..] == old(S[..])[256 * i + k := datal][256 * i + k + 1 := datar];
    }

    method Expand0State(key: seq<byte>, keybytes: nat)
      requires Valid() && Readable(key, keybytes)
      modifies S, P
      ensures Boxes() == Expand0(old(Boxes()), key, keybytes)
    {
      hide Feistel.Encipher, XorKey, Store;
      XorKeyIntoP(key, keybytes);
      ghost var t := Boxes();
      var datal: word, datar: word := 0, 0;
      var i := 0;
      while i < 18
        invariant 0 <= i <= 18 && i % 2 == 0
        invariant Filling(Boxes(), Block(datal, datar)) == Filled0(t, i / 2)
      {
        datal, datar := Encipher(datal, datar);
        PutP(i, datal, datar);
        i := i + 2;
      }
      for i := 0 to 4
        invariant Filling(Boxes(), Block(datal, datar)) == Filled0(t, 9 + 128 * i)
      {
        var k := 0;
        while k < 256
          invariant 0 <= k <= 256 && k % 2 == 0
          invariant Filling(Boxes(), Block(datal, datar)) == Filled0(t, 9 + 128 * i + k / 2)
        {
          datal, datar := Encipher(datal, datar);
          PutS(i, k, datal, datar);
          k := k + 2;
        }
      }
    }

    // The next eight bytes of the salt are added to the block.
    method XorSalt(data: seq<byte>, databytes: nat, current: nat, ghost m: nat, datal: word, datar: word)
      returns (l: word, r: word, next: nat)
      requires Readable(data, databytes) && Cursor(databytes, current, 8 * m)
      ensures Block(l, r) == Salted(Block(datal, datar), data, databytes, m)
      ensures Cursor(databytes, next, 8 * (m + 1))
    {
      hide Xor, StreamWord, Cursor;
      var w, j := Stream2Word(data, databytes, current, 8 * m);
      l := Xor(datal, w);
      w, next := Stream2Word(data, databytes, j, 8 * m + 4);
      r := Xor(datar, w);
    }

    method ExpandState(data: seq<byte>, databytes: nat, key: seq<byte>, keybytes: nat)
      requires Valid() && Readable(data, databytes) && Readable(key, keybytes)
      modifies S, P
      ensures Boxes() == Expand(old(Boxes()), data, databytes, key, keybytes)
    {
      hide Feistel.Encipher, XorKey, Store, Salted, Cursor;
      XorKeyIntoP(key, keybytes);
      ghost var t := Boxes();
      var j: nat, datal: word, datar: word := 0, 0, 0;
      CursorStarts(databytes);
      var i := 0;
      while i < 18
        invariant 0 <= i <= 18 && i % 2 == 0
        invariant Cursor(databytes, j, 8 * (i / 2))
        invariant Filling(Boxes(), Block(datal, datar)) == Filled(t, data, databytes, i / 2)
      {
        datal, datar, j := XorSalt(data, databytes, j, i / 2, datal, datar);
        datal, datar := Encipher(datal, datar);
        PutP(i, datal, datar);
        i := i + 2;
      }
      for i := 0 to 4
        invariant Cursor(databytes, j, 8 * (9 + 128 * i))
        invariant Filling(Boxes(), Block(datal, datar)) == Filled(t, data, databytes, 9 + 128 * i)
      {
        var k := 0;
        while k < 256
          invariant 0 <= k <= 256 && k % 2 == 0
          invariant Cursor(databytes, j, 8 * (9 + 128 * i + k / 2))
          invariant Filling(Boxes(), Block(datal, datar)) == Filled(t, data, databytes, 9 + 128 * i + k / 2)
        {
          datal, datar, j := XorSalt(data, databytes, j, 9 + 128 * i + k / 2, datal, datar);
          datal, datar := Encipher(datal, datar);
          PutS(i, k, datal, datar);
          k := k + 2;
        }
      }
    }

    // blf_key, with the constant tables as a parameter.
    method Key(initstate: Tables, k: seq<byte>, len: nat)
      requires Valid() && Readable(k, len)
      modifies S, P
      ensures Boxes() == Expand0(initstate, k, len)
    {
      InitState(initstate);
      Expand0State(k, len);
    }
  }
}
