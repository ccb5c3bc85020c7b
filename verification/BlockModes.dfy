// Word blocks, ECB and CBC: the modes on values, for any block transformation,
// and the loops that run them in place.
module BlockModes {
  import opened Words
  import Feistel
  import opened BlowfishState

  function Enciphering(t: Feistel.Tables): Block -> Block {
    x => Feistel.Encipher(t, x)
  }

  function Deciphering(t: Feistel.Tables): Block -> Block {
    x => Feistel.Decipher(t, x)
  }

  ghost predicate Undoes(h: Block -> Block, g: Block -> Block) {
    forall x: Block :: h(g(x)) == x
  }

  lemma CipherUndoes(t: Feistel.Tables)
    ensures Undoes(Deciphering(t), Enciphering(t)) && Undoes(Enciphering(t), Deciphering(t))
  {
    hide Feistel.Encipher, Feistel.Decipher;
    forall x: Block
      ensures Deciphering(t)(Enciphering(t)(x)) == x && Enciphering(t)(Deciphering(t)(x)) == x
    {
      Feistel.DecipherEncipher(t, x);
      Feistel.EncipherDecipher(t, x);
    }
  }

  // ----- Blocks of two words

  // The first `n` blocks of `d` transformed, the rest kept.
  function WordBlocks(g: Block -> Block, d: seq<word>, n: nat): (r: seq<word>)
    requires 2 * n <= |d|
    ensures |r| == |d|
  {
    if n == 0 then d
    else
      var y := g(Block(d[2 * n - 2], d[2 * n - 1]));
      WordBlocks(g, d, n - 1)[2 * n - 2 := y.l][2 * n - 1 := y.r]
  }

  lemma {:induction false} WordBlockAt(g: Block -> Block, d: seq<word>, n: nat, k: nat)
    requires 2 * n <= |d| && k < |d|
    ensures k >= 2 * n ==> WordBlocks(g, d, n)[k] == d[k]
    ensures k < 2 * n && k % 2 == 0 ==> WordBlocks(g, d, n)[k] == g(Block(d[k], d[k + 1])).l
    ensures k < 2 * n && k % 2 == 1 ==> WordBlocks(g, d, n)[k] == g(Block(d[k - 1], d[k])).r
  {
    if n > 0 {
      WordBlockAt(g, d, n - 1, k);
    }
  }

  lemma WordRoundTripAt(h: Block -> Block, g: Block -> Block, d: seq<word>, n: nat, k: nat)
    requires Undoes(h, g) && 2 * n <= |d| && k < 2 * n
    ensures WordBlocks(h, WordBlocks(g, d, n), n)[k] == d[k]
  {
    hide WordBlocks;
    var b := k - k % 2;
    WordBlockAt(g, d, n, b);
    WordBlockAt(g, d, n, b + 1);
    WordBlockAt(h, WordBlocks(g, d, n), n, k);
    assert h(g(Block(d[b], d[b + 1]))) == Block(d[b], d[b + 1]);
  }

  lemma WordBlocksRoundTrip(h: Block -> Block, g: Block -> Block, d: seq<word>, n: nat)
    requires Undoes(h, g) && 2 * n <= |d|
    ensures WordBlocks(h, WordBlocks(g, d, n), n) == d
  {
    hide WordBlocks, Undoes;
    forall k | 0 <= k < |d|
      ensures WordBlocks(h, WordBlocks(g, d, n), n)[k] == d[k]
    {
      if k < 2 * n {
        WordRoundTripAt(h, g, d, n, k);
      } else {
        WordBlockAt(g, d, n, k);
        WordBlockAt(h, WordBlocks(g, d, n), n, k);
      }
    }
  }

  lemma BlfDecUndoesBlfEnc(t: Feistel.Tables, d: seq<word>, blocks: nat)
    requires 2 * blocks <= |d|
    ensures WordBlocks(Deciphering(t), WordBlocks(Enciphering(t), d, blocks), blocks) == d
    ensures WordBlocks(Enciphering(t), WordBlocks(Deciphering(t), d, blocks), blocks) == d
  {
    CipherUndoes(t);
    WordBlocksRoundTrip(Deciphering(t), Enciphering(t), d, blocks);
    WordBlocksRoundTrip(Enciphering(t), Deciphering(t), d, blocks);
  }

  method BlfEnc(c: BlowfishContext, data: array<word>, blocks: nat)
    requires c.Valid() && data != c.S && data != c.P && 2 * blocks <= data.Length
    modifies data
    ensures data[..] == WordBlocks(Enciphering(c.Boxes()), old(data[..]), blocks)
  {
    hide Feistel.Encipher;
    ghost var d, g := data[..], Enciphering(c.Boxes());
    for i := 0 to blocks
      invariant c.Boxes() == old(c.Boxes())
      invariant data[..] == WordBlocks(g, d, i)
    {
      WordBlockAt(g, d, i, 2 * i);
      WordBlockAt(g, d, i, 2 * i + 1);
      ghost var before := data[..];
      var l, r := c.Encipher(data[2 * i], data[2 * i + 1]);
      data[2 * i], data[2 * i + 1] := l, r;
      assert data[..] == before[2 * i := l][2 * i + 1 := r];
    }
  }

  method BlfDec(c: BlowfishContext, data: array<word>, blocks: nat)
    requires c.Valid() && data != c.S && data != c.P && 2 * blocks <= data.Length
    modifies data
    ensures data[..] == WordBlocks(Deciphering(c.Boxes()), old(data[..]), blocks)
  {
    hide Feistel.Decipher;
    ghost var d, g := data[..], Deciphering(c.Boxes());
    for i := 0 to blocks
      invariant c.Boxes() == old(c.Boxes())
      invariant data[..] == WordBlocks(g, d, i)
    {
      WordBlockAt(g, d, i, 2 * i);
      WordBlockAt(g, d, i, 2 * i + 1);
      ghost var before := data[..];
      var l, r := c.Decipher(data[2 * i], data[2 * i + 1]);
      data[2 * i], data[2 * i + 1] := l, r;
      assert data[..] == before[2 * i := l][2 * i + 1 := r];
    }
  }

  // ----- ECB over bytes

  // One 8-byte block through g, with the big-endian conversion on both sides.
  function ByteBlock(g: Block -> Block, b: seq<byte>): (r: seq<byte>)
    requires |b| == 8
    ensures |r| == 8
  {
    BytesOf(g(BlockOf(b)))
  }

  lemma ByteBlockRoundTrip(h: Block -> Block, g: Block -> Block, b: seq<byte>)
    requires Undoes(h, g) && |b| == 8
    ensures ByteBlock(h, ByteBlock(g, b)) == b
  {
    hide BytesOf, BlockOf;
    BlockOfBytesOf(g(BlockOf(b)));
    BytesOfBlockOf(b);
  }

  function Ecb(g: Block -> Block, b: seq<byte>): (r: seq<byte>)
    requires |b| % 8 == 0
    ensures |r| == |b|
  {
    if b == [] then []
    else
      var n := |b| - 8;
      Ecb(g, b[..n]) + ByteBlock(g, b[n..])
  }

  lemma {:induction false} EcbRoundTrip(h: Block -> Block, g: Block -> Block, b: seq<byte>)
    requires Undoes(h, g) && |b| % 8 == 0
    ensures Ecb(h, Ecb(g, b)) == b
  {
    hide ByteBlock;
    if b != [] {
      var n := |b| - 8;
      var e := Ecb(g, b);
      assert e[..n] == Ecb(g, b[..n]) && e[n..] == ByteBlock(g, b[n..]);
      EcbRoundTrip(h, g, b[..n]);
      ByteBlockRoundTrip(h, g, b[n..]);
    }
  }

  // Block by block: the same transformation of each, independent of the others.
  lemma {:induction false} EcbAt(g: Block -> Block, b: seq<byte>, k: nat)
    requires |b| % 8 == 0 && 8 * k + 8 <= |b|
    ensures Ecb(g, b)[8 * k..8 * k + 8] == ByteBlock(g, b[8 * k..8 * k + 8])
  {
    hide ByteBlock, Ecb;
    var n := |b| - 8;
    var e, front := Ecb(g, b), Ecb(g, b[..n]);
    EcbUnfold(g, b, n);
    if 8 * k < n {
      EcbAt(g, b[..n], k);
      assert b[..n][8 * k..8 * k + 8] == b[8 * k..8 * k + 8] && e[8 * k..8 * k + 8] == front[8 * k..8 * k + 8];
    } else {
      assert e[8 * k..8 * k + 8] == e[n..] && b[8 * k..8 * k + 8] == b[n..];
    }
  }

  lemma EcbUnfold(g: Block -> Block, b: seq<byte>, n: nat)
    requires |b| == n + 8 && n % 8 == 0
    ensures Ecb(g, b) == Ecb(g, b[..n]) + ByteBlock(g, b[n..])
  {
  }

  lemma EcbDecryptUndoesEncrypt(t: Feistel.Tables, b: seq<byte>)
    requires |b| % 8 == 0
    ensures Ecb(Deciphering(t), Ecb(Enciphering(t), b)) == b
    ensures Ecb(Enciphering(t), Ecb(Deciphering(t), b)) == b
  {
    CipherUndoes(t);
    EcbRoundTrip(Deciphering(t), Enciphering(t), b);
    EcbRoundTrip(Enciphering(t), Deciphering(t), b);
  }

  method LoadBlock(data: array<byte>, i: nat) returns (l: word, r: word)
    requires i + 8 <= data.Length
    ensures Block(l, r) == BlockOf(data[i..i + 8])
  {
    l := WordOf(data[i], data[i + 1], data[i + 2], data[i + 3]);
    r := WordOf(data[i + 4], data[i + 5], data[i + 6], data[i + 7]);
  }

  method StoreBlock(data: array<byte>, i: nat, l: word, r: word)
    requires i + 8 <= data.Length
    modifies data
    ensures data[..] == old(data[..i]) + BytesOf(Block(l, r)) + old(data[i + 8..])
  {
    hide ByteOf;
    data[i], data[i + 1], data[i + 2], data[i + 3] := ByteOf(l, 0), ByteOf(l, 1), ByteOf(l, 2), ByteOf(l, 3);
    data[i + 4], data[i + 5], data[i + 6], data[i + 7] := ByteOf(r, 0), ByteOf(r, 1), ByteOf(r, 2), ByteOf(r, 3);
  }

  // The block at data[i..i + 8] enciphered in place.
  method EncipherAt(c: BlowfishContext, data: array<byte>, i: nat)
    requires c.Valid() && i + 8 <= data.Length
    modifies data
    ensures data[..] == old(data[..i]) + ByteBlock(Enciphering(c.Boxes()), old(data[i..i + 8])) + old(data[i + 8..])
  {
    hide Feistel.Encipher, BytesOf, BlockOf;
    var l, r := LoadBlock(data, i);
    l, r := c.Encipher(l, r);
    StoreBlock(data, i, l, r);
  }

  method DecipherAt(c: BlowfishContext, data: array<byte>, i: nat)
    requires c.Valid() && i + 8 <= data.Length
    modifies data
    ensures data[..] == old(data[..i]) + ByteBlock(Deciphering(c.Boxes()), old(data[i..i + 8])) + old(data[i + 8..])
  {
    hide Feistel.Decipher, BytesOf, BlockOf;
    var l, r := LoadBlock(data, i);
    l, r := c.Decipher(l, r);
    StoreBlock(data, i, l, r);
  }

  // The state of the ECB loops: blocks before `i` transformed, the rest as found.
  ghost predicate EcbDone(g: Block -> Block, was: seq<byte>, now: seq<byte>, i: nat) {
    i % 8 == 0 && i <= |was| && now == Ecb(g, was[..i]) + was[i..]
  }

  lemma EcbStep(g: Block -> Block, was: seq<byte>, now: seq<byte>, i: nat)
    requires EcbDone(g, was, now, i) && i + 8 <= |was|
    ensures now[i..i + 8] == was[i..i + 8]
    ensures EcbDone(g, was, now[..i] + ByteBlock(g, was[i..i + 8]) + now[i + 8..], i + 8)
  {
    assert was[..i + 8][..i] == was[..i] && was[..i + 8][i..] == was[i..i + 8];
  }

  method EcbEncrypt(c: BlowfishContext, data: array<byte>, len: nat)
    requires c.Valid() && len % 8 == 0 && len <= data.Length
    modifies data
    ensures data[..len] == Ecb(Enciphering(c.Boxes()), old(data[..len]))
    ensures data[len..] == old(data[len..])
  {
    hide Enciphering, Ecb, ByteBlock, EcbDone;
    ghost var was, g := data[..], Enciphering(c.Boxes());
    var i := 0;
    EcbStart(g, was);
    while i < len
      invariant i % 8 == 0 && i <= len && c.Boxes() == old(c.Boxes())
      invariant EcbDone(g, was, data[..], i)
    {
      EcbStep(g, was, data[..], i);
      EncipherAt(c, data, i);
      i := i + 8;
    }
    EcbEnd(g, was, data[..], len);
  }

  method EcbDecrypt(c: BlowfishContext, data: array<byte>, len: nat)
    requires c.Valid() && len % 8 == 0 && len <= data.Length
    modifies data
    ensures data[..len] == Ecb(Deciphering(c.Boxes()), old(data[..len]))
    ensures data[len..] == old(data[len..])
  {
    hide Deciphering, Ecb, ByteBlock, EcbDone;
    ghost var was, g := data[..], Deciphering(c.Boxes());
    var i := 0;
    EcbStart(g, was);
    while i < len
      invariant i % 8 == 0 && i <= len && c.Boxes() == old(c.Boxes())
      invariant EcbDone(g, was, data[..], i)
    {
      EcbStep(g, was, data[..], i);
      DecipherAt(c, data, i);
      i := i + 8;
    }
    EcbEnd(g, was, data[..], len);
  }

  lemma EcbStart(g: Block -> Block, was: seq<byte>)
    ensures EcbDone(g, was, was, 0)
  {
    assert Ecb(g, was[..0]) == [];
  }

  lemma EcbEnd(g: Block -> Block, was: seq<byte>, now: seq<byte>, len: nat)
    requires EcbDone(g, was, now, len)
    ensures len % 8 == 0 && len <= |was| == |now|
    ensures now[..len] == Ecb(g, was[..len]) && now[len..] == was[len..]
  {
  }

  // ----- CBC over bytes

  function XorBytes(a: seq<byte>, b: seq<byte>): (r: seq<byte>)
    requires |a| == |b|
    ensures |r| == |a|
  {
    seq(|a|, j requires 0 <= j < |a| => a[j] ^ b[j])
  }

  lemma XorBytesCancels(a: seq<byte>, b: seq<byte>)
    requires |a| == |b|
    ensures XorBytes(XorBytes(a, b), b) == a
  {
    forall j | 0 <= j < |a| ensures XorBytes(XorBytes(a, b), b)[j] == a[j] {
      XorByteCancels(a[j], b[j]);
    }
  }

  // The block a CBC step chains on: the last ciphertext block, or the IV.
  function Chain(iv: seq<byte>, c: seq<byte>): (r: seq<byte>)
    requires |iv| == 8 && |c| % 8 == 0
    ensures |r| == 8
  {
    if c == [] then iv else c[|c| - 8..]
  }

  function CbcEncrypted(g: Block -> Block, iv: seq<byte>, b: seq<byte>): (c: seq<byte>)
    requires |iv| == 8 && |b| % 8 == 0
    ensures |c| == |b|
  {
    if b == [] then []
    else
      var n := |b| - 8;
      var c := CbcEncrypted(g, iv, b[..n]);
      c + ByteBlock(g, XorBytes(b[n..], Chain(iv, c)))
  }

  function CbcDecrypted(h: Block -> Block, iv: seq<byte>, c: seq<byte>): (b: seq<byte>)
    requires |iv| == 8 && |c| % 8 == 0
    ensures |b| == |c|
  {
    if c == [] then []
    else
      var n := |c| - 8;
      CbcDecrypted(h, iv, c[..n]) + XorBytes(ByteBlock(h, c[n..]), Chain(iv, c[..n]))
  }

  // Block by block: each ciphertext block is the encryption of the plaintext block plus
  // the ciphertext block before it, the first one plus the IV.
  lemma {:induction false} CbcEncryptedAt(g: Block -> Block, iv: seq<byte>, b: seq<byte>, k: nat)
    requires |iv| == 8 && |b| % 8 == 0 && 8 * k + 8 <= |b|
    ensures var c := CbcEncrypted(g, iv, b);
            (c[8 * k..8 * k + 8]
            == ByteBlock(g, XorBytes(b[8 * k..8 * k + 8], if k == 0 then iv else c[8 * k - 8..8 * k])))
  {
    hide ByteBlock, XorBytes, CbcEncrypted;
    var n := |b| - 8;
    var c, front := CbcEncrypted(g, iv, b), CbcEncrypted(g, iv, b[..n]);
    CbcEncUnfold(g, iv, b, n);
    assert c[..n] == front;
    if 8 * k < n {
      CbcEncryptedAt(g, iv, b[..n], k);
      assert b[..n][8 * k..8 * k + 8] == b[8 * k..8 * k + 8];
      assert c[8 * k..8 * k + 8] == front[8 * k..8 * k + 8];
      assert k > 0 ==> c[8 * k - 8..8 * k] == front[8 * k - 8..8 * k];
    } else {
      ChainIs(iv, front, n);
      assert front[..n] == front && c[n - (if n == 0 then 0 else 8)..n] == front[n - (if n == 0 then 0 else 8)..n];
      assert c[n..] == c[8 * k..8 * k + 8] && b[n..] == b[8 * k..8 * k + 8];
    }
  }

  lemma CbcEncUnfold(g: Block -> Block, iv: seq<byte>, b: seq<byte>, n: nat)
    requires |iv| == 8 && |b| == n + 8 && n % 8 == 0
    ensures CbcEncrypted(g, iv, b)
         == CbcEncrypted(g, iv, b[..n]) + ByteBlock(g, XorBytes(b[n..], Chain(iv, CbcEncrypted(g, iv, b[..n]))))
  {
  }

  lemma {:induction false} CbcDecryptedEncrypted(h: Block -> Block, g: Block -> Block, iv: seq<byte>, b: seq<byte>)
    requires Undoes(h, g) && |iv| == 8 && |b| % 8 == 0
    ensures CbcDecrypted(h, iv, CbcEncrypted(g, iv, b)) == b
  {
    hide ByteBlock, XorBytes;
    if b != [] {
      var n := |b| - 8;
      var c := CbcEncrypted(g, iv, b);
      var x := XorBytes(b[n..], Chain(iv, c[..n]));
      assert c[..n] == CbcEncrypted(g, iv, b[..n]) && c[n..] == ByteBlock(g, x);
      CbcDecryptedEncrypted(h, g, iv, b[..n]);
      ByteBlockRoundTrip(h, g, x);
      XorBytesCancels(b[n..], Chain(iv, c[..n]));
    }
  }

  lemma {:induction false} CbcEncryptedDecrypted(h: Block -> Block, g: Block -> Block, iv: seq<byte>, c: seq<byte>)
    requires Undoes(g, h) && |iv| == 8 && |c| % 8 == 0
    ensures CbcEncrypted(g, iv, CbcDecrypted(h, iv, c)) == c
  {
    hide ByteBlock, XorBytes;
    if c != [] {
      var n := |c| - 8;
      var b := CbcDecrypted(h, iv, c);
      assert b[..n] == CbcDecrypted(h, iv, c[..n]);
      assert b[n..] == XorBytes(ByteBlock(h, c[n..]), Chain(iv, c[..n]));
      CbcEncryptedDecrypted(h, g, iv, c[..n]);
      XorBytesCancels(ByteBlock(h, c[n..]), Chain(iv, c[..n]));
      ByteBlockRoundTrip(g, h, c[n..]);
    }
  }

  lemma CbcRoundTrip(t: Feistel.Tables, iv: seq<byte>, b: seq<byte>)
    requires |iv| == 8 && |b| % 8 == 0
    ensures CbcDecrypted(Deciphering(t), iv, CbcEncrypted(Enciphering(t), iv, b)) == b
    ensures CbcEncrypted(Enciphering(t), iv, CbcDecrypted(Deciphering(t), iv, b)) == b
  {
    CipherUndoes(t);
    CbcDecryptedEncrypted(Deciphering(t), Enciphering(t), iv, b);
    CbcEncryptedDecrypted(Deciphering(t), Enciphering(t), iv, b);
  }

  // Add the block of `iv` at `k` to the block of `data` at `i`.
  method XorInto(data: array<byte>, i: nat, iv: array<byte>, k: nat)
    requires i + 8 <= data.Length && k + 8 <= iv.Length
    requires data == iv ==> k + 8 <= i
    modifies data
    ensures data[..] == old(data[..i]) + XorBytes(old(data[i..i + 8]), old(iv[k..k + 8])) + old(data[i + 8..])
  {
    for j := 0 to 8
      invariant forall q :: i <= q < i + j ==> data[q] == old(data[q]) ^ old(iv[k + (q - i)])
      invariant forall q :: 0 <= q < data.Length && !(i <= q < i + j) ==> data[q] == old(data[q])
      invariant data != iv ==> iv[..] == old(iv[..])
    {
      data[i + j] := data[i + j] ^ iv[k + j];
    }
    XoredInto(old(data[..]), data[..], i, old(iv[..]), k);
  }

  lemma XoredInto(was: seq<byte>, now: seq<byte>, i: nat, iv: seq<byte>, k: nat)
    requires |now| == |was| && i + 8 <= |was| && k + 8 <= |iv|
    requires forall q :: i <= q < i + 8 ==> now[q] == was[q] ^ iv[k + (q - i)]
    requires forall q :: 0 <= q < |was| && !(i <= q < i + 8) ==> now[q] == was[q]
    ensures now == was[..i] + XorBytes(was[i..i + 8], iv[k..k + 8]) + was[i + 8..]
  {
    assert now[i..i + 8] == XorBytes(was[i..i + 8], iv[k..k + 8]);
    assert now == now[..i] + now[i..i + 8] + now[i + 8..];
  }

  // Two overwrites of the same eight bytes act as the second alone.
  lemma Overwritten(now: seq<byte>, mid: seq<byte>, later: seq<byte>, i: nat, x: seq<byte>, y: seq<byte>)
    requires |x| == |y| == 8 && i + 8 <= |now|
    requires mid == now[..i] + x + now[i + 8..]
    requires later == mid[..i] + y + mid[i + 8..]
    ensures later == now[..i] + y + now[i + 8..]
  {
  }

  lemma InMiddle(now: seq<byte>, mid: seq<byte>, i: nat, x: seq<byte>)
    requires |x| == 8 && i + 8 <= |now| && mid == now[..i] + x + now[i + 8..]
    ensures mid[i..i + 8] == x && |mid| == |now| && (i >= 8 ==> mid[i - 8..i] == now[i - 8..i])
  {
  }

  // Overwriting eight bytes inside the first `len` leaves the others alone.
  lemma InPrefix(now: seq<byte>, later: seq<byte>, i: nat, len: nat, x: seq<byte>)
    requires |x| == 8 && i + 8 <= len <= |now| && later == now[..i] + x + now[i + 8..]
    ensures later[..len] == now[..len][..i] + x + now[..len][i + 8..] && later[len..] == now[len..]
    ensures now[..len][i..i + 8] == now[i..i + 8] && (i >= 8 ==> now[..len][i - 8..i] == now[i - 8..i])
  {
  }

  ghost predicate CbcEncDone(g: Block -> Block, iv: seq<byte>, was: seq<byte>, now: seq<byte>, i: nat) {
    |iv| == 8 && i % 8 == 0 && i <= |was| && now == CbcEncrypted(g, iv, was[..i]) + was[i..]
  }

  lemma CbcEncStep(g: Block -> Block, iv: seq<byte>, was: seq<byte>, now: seq<byte>, i: nat)
    requires CbcEncDone(g, iv, was, now, i) && i + 8 <= |was|
    ensures var chain := if i == 0 then iv else now[i - 8..i];
            var x := XorBytes(now[i..i + 8], chain);
            CbcEncDone(g, iv, was, now[..i] + ByteBlock(g, x) + now[i + 8..], i + 8)
  {
    hide ByteBlock, XorBytes;
    assert was[..i + 8][..i] == was[..i] && was[..i + 8][i..] == was[i..i + 8] == now[i..i + 8];
    assert now[..i] == CbcEncrypted(g, iv, was[..i]);
    assert Chain(iv, now[..i]) == if i == 0 then iv else now[i - 8..i];
  }

  // Add the chain block at iv[k..k + 8] to the block at `i`, then encipher it.
  method XorAndEncipher(c: BlowfishContext, data: array<byte>, i: nat, iv: array<byte>, k: nat)
    requires c.Valid() && i + 8 <= data.Length && k + 8 <= iv.Length
    requires data == iv ==> k + 8 == i
    modifies data
    ensures data[..] == old(data[..i])
                      + ByteBlock(Enciphering(c.Boxes()), XorBytes(old(data[i..i + 8]), old(iv[k..k + 8])))
                      + old(data[i + 8..])
  {
    hide Enciphering, ByteBlock, XorBytes;
    ghost var now, x := data[..], XorBytes(data[i..i + 8], iv[k..k + 8]);
    XorInto(data, i, iv, k);
    ghost var mid := data[..];
    InMiddle(now, mid, i, x);
    EncipherAt(c, data, i);
    Overwritten(now, mid, data[..], i, x, ByteBlock(Enciphering(c.Boxes()), x));
  }

  // After the first block the chain block lies in the
  // buffer itself, just before the block being enciphered.
  method CbcEncrypt(c: BlowfishContext, iva: array<byte>, data: array<byte>, len: nat)
    requires c.Valid() && iva != data && iva.Length == 8 && len % 8 == 0 && len <= data.Length
    modifies data
    ensures data[..len] == CbcEncrypted(Enciphering(c.Boxes()), iva[..], old(data[..len]))
    ensures data[len..] == old(data[len..])
  {
    hide Enciphering, CbcEncrypted, CbcEncDone, ByteBlock, XorBytes;
    ghost var was, g, first := data[..], Enciphering(c.Boxes()), iva[..];
    var iv, ivAt := iva, 0;
    var i := 0;
    CbcEncStart(g, first, was);
    assert iva[0..8] == first;
    while i < len
      invariant i % 8 == 0 && i <= len && c.Boxes() == old(c.Boxes())
      invariant ivAt + 8 <= iv.Length && (iv == data ==> ivAt + 8 == i)
      invariant iv[ivAt..ivAt + 8] == if i == 0 then first else data[i - 8..i]
      invariant CbcEncDone(g, first, was, data[..], i)
    {
      CbcEncStep(g, first, was, data[..], i);
      XorAndEncipher(c, data, i, iv, ivAt);
      iv, ivAt := data, i;
      i := i + 8;
    }
    CbcEncEnd(g, first, was, data[..], len);
  }

  lemma CbcEncStart(g: Block -> Block, iv: seq<byte>, was: seq<byte>)
    requires |iv| == 8
    ensures CbcEncDone(g, iv, was, was, 0)
  {
    assert CbcEncrypted(g, iv, was[..0]) == [];
  }

  lemma CbcEncEnd(g: Block -> Block, iv: seq<byte>, was: seq<byte>, now: seq<byte>, len: nat)
    requires CbcEncDone(g, iv, was, now, len)
    ensures |iv| == 8 && len % 8 == 0 && len <= |was| == |now|
    ensures now[..len] == CbcEncrypted(g, iv, was[..len]) && now[len..] == was[len..]
  {
  }

  // Decipher the block at `i`, then add the chain block at iv[k..k + 8].
  method DecipherAndXor(c: BlowfishContext, data: array<byte>, i: nat, iv: array<byte>, k: nat)
    requires c.Valid() && i + 8 <= data.Length && k + 8 <= iv.Length
    requires data == iv ==> k + 8 == i
    modifies data
    ensures data[..] == old(data[..i])
                      + XorBytes(ByteBlock(Deciphering(c.Boxes()), old(data[i..i + 8])), old(iv[k..k + 8]))
                      + old(data[i + 8..])
  {
    hide Deciphering, ByteBlock, XorBytes;
    ghost var now, chain := data[..], iv[k..k + 8];
    ghost var d := ByteBlock(Deciphering(c.Boxes()), now[i..i + 8]);
    DecipherAt(c, data, i);
    ghost var mid := data[..];
    InMiddle(now, mid, i, d);
    XorInto(data, i, iv, k);
    Overwritten(now, mid, data[..], i, d, XorBytes(d, chain));
  }

  // The state of the backward loop: everything from `i` on is plaintext, everything
  // before is still ciphertext.
  ghost predicate CbcDecDone(h: Block -> Block, iv: seq<byte>, was: seq<byte>, now: seq<byte>, i: nat) {
    && |iv| == 8 && |was| % 8 == 0 && i % 8 == 0 && i <= |was| == |now|
    && now[..i] == was[..i]
    && CbcDecrypted(h, iv, was) == CbcDecrypted(h, iv, was[..i]) + now[i..]
  }

  lemma CbcDecStep(h: Block -> Block, iv: seq<byte>, was: seq<byte>, now: seq<byte>, i: nat)
    requires CbcDecDone(h, iv, was, now, i + 8)
    ensures var chain := if i == 0 then iv else now[i - 8..i];
            var x := XorBytes(ByteBlock(h, now[i..i + 8]), chain);
            CbcDecDone(h, iv, was, now[..i] + x + now[i + 8..], i)
  {
    hide ByteBlock, XorBytes, CbcDecrypted, Chain;
    var front := was[..i + 8];
    assert front[..i] == was[..i] == now[..i] && front[i..] == now[i..i + 8];
    ChainIs(iv, now, i);
    CbcDecUnfold(h, iv, front, i);
    var x := XorBytes(ByteBlock(h, now[i..i + 8]), if i == 0 then iv else now[i - 8..i]);
    Spliced(now, i, x);
    assert CbcDecrypted(h, iv, was) == CbcDecrypted(h, iv, was[..i]) + x + now[i + 8..];
  }

  // The plaintext of a ciphertext ends with that of its last block.
  lemma CbcDecUnfold(h: Block -> Block, iv: seq<byte>, c: seq<byte>, n: nat)
    requires |iv| == 8 && |c| == n + 8 && n % 8 == 0
    ensures CbcDecrypted(h, iv, c)
         == CbcDecrypted(h, iv, c[..n]) + XorBytes(ByteBlock(h, c[n..]), Chain(iv, c[..n]))
  {
  }

  lemma ChainIs(iv: seq<byte>, now: seq<byte>, i: nat)
    requires |iv| == 8 && i % 8 == 0 && i <= |now|
    ensures Chain(iv, now[..i]) == if i == 0 then iv else now[i - 8..i]
  {
  }

  lemma Spliced(now: seq<byte>, i: nat, x: seq<byte>)
    requires i + 8 <= |now| && |x| == 8
    ensures var next := now[..i] + x + now[i + 8..];
            |next| == |now| && next[..i] == now[..i] && next[i..] == x + now[i + 8..]
  {
  }

  method CbcDecrypt(c: BlowfishContext, iva: array<byte>, data: array<byte>, len: nat)
    requires c.Valid() && iva != data && iva.Length == 8 && len % 8 == 0 && 8 <= len <= data.Length
    modifies data
    ensures data[..len] == CbcDecrypted(Deciphering(c.Boxes()), iva[..], old(data[..len]))
    ensures data[len..] == old(data[len..])
  {
    hide Deciphering, CbcDecrypted, CbcDecDone, ByteBlock, XorBytes;
    ghost var was, h := data[..len], Deciphering(c.Boxes());
    var i := len - 8;
    CbcDecStart(h, iva[..], was);
    while i >= 8
      invariant i % 8 == 0 && 0 <= i <= len - 8 && c.Boxes() == old(c.Boxes())
      invariant data[len..] == old(data[len..]) && iva[..] == old(iva[..])
      invariant CbcDecDone(h, iva[..], was, data[..len], i + 8)
    {
      ghost var now := data[..];
      CbcDecStep(h, iva[..], was, now[..len], i);
      DecipherAndXor(c, data, i, data, i - 8);
      InPrefix(now, data[..], i, len, XorBytes(ByteBlock(h, now[i..i + 8]), now[i - 8..i]));
      i := i - 8;
    }
    ghost var now := data[..];
    CbcDecStep(h, iva[..], was, now[..len], 0);
    DecipherAndXor(c, data, 0, iva, 0);
    assert iva[0..8] == iva[..];
    InPrefix(now, data[..], 0, len, XorBytes(ByteBlock(h, now[0..8]), iva[..]));
    CbcDecEnd(h, iva[..], was, data[..len]);
  }

  lemma CbcDecStart(h: Block -> Block, iv: seq<byte>, was: seq<byte>)
    requires |iv| == 8 && |was| % 8 == 0
    ensures CbcDecDone(h, iv, was, was, |was|)
  {
    assert was[..|was|] == was;
  }

  lemma CbcDecEnd(h: Block -> Block, iv: seq<byte>, was: seq<byte>, now: seq<byte>)
    requires CbcDecDone(h, iv, was, now, 0)
    ensures now == CbcDecrypted(h, iv, was)
  {
    assert was[..0] == [];
  }
}
