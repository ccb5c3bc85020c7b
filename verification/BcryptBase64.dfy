// The base64 of bcrypt hashes: its own alphabet, no padding characters, and a
// decoder that stops at a byte count rather than at the end of its input.
module BcryptBase64 {
  import opened Words

  // Base64Code: "./", then A-Z, a-z and 0-9.
  function Code(v: byte): byte
    requires v < 64
  {
    if v < 2 then v + 46
    else if v < 28 then v + 63
    else if v < 54 then v + 69
    else v - 6
  }

  // CHAR64, the table index_64 with 255 for every byte outside the alphabet.
  function Char64(c: byte): byte {
    if c == 46 || c == 47 then c - 46
    else if 48 <= c <= 57 then c + 6
    else if 65 <= c <= 90 then c - 63
    else if 97 <= c <= 122 then c - 69
    else 255
  }

  // The alphabet in order.
  lemma CodeIsAlphabet(v: byte)
    requires v < 64
    ensures v == 0 ==> Code(v) as char == '.'
    ensures v == 1 ==> Code(v) as char == '/'
    ensures 2 <= v < 28 ==> Code(v) as int == 'A' as int + (v - 2) as int
    ensures 28 <= v < 54 ==> Code(v) as int == 'a' as int + (v - 28) as int
    ensures 54 <= v ==> Code(v) as int == '0' as int + (v - 54) as int
  {
  }

  lemma CodeChar64(v: byte)
    requires v < 64
    ensures Char64(Code(v)) == v && Code(v) != 0
  {
  }

  // The three bytes of a group as four 6-bit values, and back.
  function V1(a: byte): byte { a >> 2 }
  function V2(a: byte, b: byte): byte { ((a & 0x03) << 4) | ((b >> 4) & 0x0f) }
  function V3(b: byte, c: byte): byte { ((b & 0x0f) << 2) | ((c >> 6) & 0x03) }
  function V4(c: byte): byte { c & 0x3f }
  function B1(v1: byte, v2: byte): byte { (v1 << 2) | ((v2 & 0x30) >> 4) }
  function B2(v2: byte, v3: byte): byte { ((v2 & 0x0f) << 4) | ((v3 & 0x3c) >> 2) }
  function B3(v3: byte, v4: byte): byte { ((v3 & 0x03) << 6) | v4 }

  lemma Values(a: byte, b: byte, c: byte)
    ensures V1(a) < 64 && V2(a, b) < 64 && V3(b, c) < 64 && V4(c) < 64
  {
  }

  // The four values are the digits to the base 64 of the three bytes as one number.
  lemma GroupIsNumber(a: byte, b: byte, c: byte)
    ensures (V1(a) as word << 18) | (V2(a, b) as word << 12) | (V3(b, c) as word << 6) | (V4(c) as word)
         == (a as word << 16) | (b as word << 8) | (c as word)
  {
  }

  lemma GroupRoundTrip(a: byte, b: byte, c: byte)
    ensures B1(V1(a), V2(a, b)) == a && B2(V2(a, b), V3(b, c)) == b && B3(V3(b, c), V4(c)) == c
  {
  }

  function Encode(d: seq<byte>): seq<byte> {
    if d == [] then []
    else if |d| == 1 then
      Values(d[0], 0, 0);
      [Code(V1(d[0])), Code(V2(d[0], 0))]
    else if |d| == 2 then
      Values(d[0], d[1], 0);
      [Code(V1(d[0])), Code(V2(d[0], d[1])), Code(V3(d[1], 0))]
    else
      Values(d[0], d[1], d[2]);
      [Code(V1(d[0])), Code(V2(d[0], d[1])), Code(V3(d[1], d[2])), Code(V4(d[2]))] + Encode(d[3..])
  }

  // Character `i` of a C string: reading on past its end finds no alphabet byte.
  function At(s: seq<byte>, i: nat): byte {
    if i < |s| then s[i] else 0
  }

  function Decode(len: nat, s: seq<byte>): (d: seq<byte>)
    ensures |d| <= len
  {
    if len == 0 then []
    else
      var c1, c2, c3, c4 := Char64(At(s, 0)), Char64(At(s, 1)), Char64(At(s, 2)), Char64(At(s, 3));
      if c1 == 255 || c2 == 255 then []
      else if len == 1 || c3 == 255 then [B1(c1, c2)]
      else if len == 2 || c4 == 255 then [B1(c1, c2), B2(c2, c3)]
      else [B1(c1, c2), B2(c2, c3), B3(c3, c4)] + Decode(len - 3, if |s| < 4 then [] else s[4..])
  }

  // The encoded length is ceil(4 * len / 3), and no byte of it is NUL.
  lemma {:induction false} EncodedLength(d: seq<byte>)
    ensures |Encode(d)| == (4 * |d| + 2) / 3
    ensures forall i :: 0 <= i < |Encode(d)| ==> Encode(d)[i] != 0
  {
    hide Code, V1, V2, V3, V4;
    if d != [] {
      var a, b, c := d[0], At(d, 1), At(d, 2);
      Values(a, b, c);
      Values(a, 0, 0);
      Values(a, b, 0);
      CodeChar64(V1(a));
      CodeChar64(V2(a, b));
      CodeChar64(V3(b, c));
      CodeChar64(V4(c));
      if |d| > 2 {
        EncodedLength(d[3..]);
      }
    }
  }

  lemma Group(a: byte, b: byte, c: byte)
    ensures V1(a) < 64 && V2(a, b) < 64 && V3(b, c) < 64 && V4(c) < 64
    ensures var c1, c2 := Char64(Code(V1(a))), Char64(Code(V2(a, b)));
            var c3, c4 := Char64(Code(V3(b, c))), Char64(Code(V4(c)));
            && c1 != 255 && c2 != 255 && c3 != 255 && c4 != 255
            && B1(c1, c2) == a && B2(c2, c3) == b && B3(c3, c4) == c
  {
    hide Code, Char64, V1, V2, V3, V4, B1, B2, B3;
    Values(a, b, c);
    CodeChar64(V1(a));
    CodeChar64(V2(a, b));
    CodeChar64(V3(b, c));
    CodeChar64(V4(c));
    GroupRoundTrip(a, b, c);
    NotInvalid(V1(a), V2(a, b), V3(b, c), V4(c));
  }

  lemma NotInvalid(v1: byte, v2: byte, v3: byte, v4: byte)
    requires v1 < 64 && v2 < 64 && v3 < 64 && v4 < 64
    ensures v1 != 255 && v2 != 255 && v3 != 255 && v4 != 255
  {
  }

  // Decoding a known byte count undoes encoding, whatever text follows.
  lemma {:induction false} DecodeEncode(d: seq<byte>, rest: seq<byte>)
    ensures Decode(|d|, Encode(d) + rest) == d
  {
    hide Code, Char64, V1, V2, V3, V4, B1, B2, B3;
    var e := Encode(d) + rest;
    if |d| == 1 {
      Group(d[0], 0, 0);
      assert e[0] == Code(V1(d[0])) && e[1] == Code(V2(d[0], 0));
    } else if |d| == 2 {
      Group(d[0], d[1], 0);
      assert e[0] == Code(V1(d[0])) && e[1] == Code(V2(d[0], d[1])) && e[2] == Code(V3(d[1], 0));
    } else if |d| > 2 {
      Group(d[0], d[1], d[2]);
      assert e[0] == Code(V1(d[0])) && e[1] == Code(V2(d[0], d[1]));
      assert e[2] == Code(V3(d[1], d[2])) && e[3] == Code(V4(d[2]));
      assert e[4..] == Encode(d[3..]) + rest;
      DecodeEncode(d[3..], rest);
    }
  }

  lemma EncodeIsInjective(d: seq<byte>, d': seq<byte>)
    requires |d| == |d'| && Encode(d) == Encode(d')
    ensures d == d'
  {
    DecodeEncode(d, []);
    DecodeEncode(d', []);
  }

  // The buffer holds the first `n` characters of `e` from `at` on, and is
  // otherwise as it was.
  ghost predicate Written(was: seq<byte>, now: seq<byte>, at: nat, e: seq<byte>, n: nat) {
    && |now| == |was| && n <= |e| && at + n <= |was|
    && (forall q :: at <= q < at + n ==> now[q] == e[q - at])
    && (forall q :: 0 <= q < |was| && !(at <= q < at + n) ==> now[q] == was[q])
  }

  // Append one character and move on.
  method Put(buffer: array<byte>, bp: nat, c: byte, ghost was: seq<byte>, ghost at: nat, ghost e: seq<byte>)
    returns (next: nat)
    requires at <= bp < buffer.Length && Written(was, buffer[..], at, e, bp - at)
    requires bp - at < |e| && e[bp - at] == c
    modifies buffer
    ensures next == bp + 1 && Written(was, buffer[..], at, e, next - at)
  {
    buffer[bp] := c;
    next := bp + 1;
  }

  // Character `k` of `e` begins the encoding of what is left of `data` at `p`.
  ghost predicate EncodesRest(e: seq<byte>, k: nat, data: seq<byte>, p: nat) {
    k <= |e| && p <= |data| && e[k..] == Encode(data[p..])
  }

  // What the next turn of the loop must write.
  lemma EncodeTurn(e: seq<byte>, k: nat, data: seq<byte>, p: nat)
    requires EncodesRest(e, k, data, p) && p < |data|
    ensures V1(data[p]) < 64 && V2(data[p], At(data, p + 1)) < 64
    ensures k + 1 < |e| && e[k] == Code(V1(data[p])) && e[k + 1] == Code(V2(data[p], At(data, p + 1)))
    ensures p + 1 == |data| ==> |e| == k + 2
    ensures p + 1 < |data| ==> V3(data[p + 1], At(data, p + 2)) < 64
    ensures p + 1 < |data| ==> k + 2 < |e| && e[k + 2] == Code(V3(data[p + 1], At(data, p + 2)))
    ensures p + 2 == |data| ==> |e| == k + 3
    ensures p + 2 < |data| ==> V4(data[p + 2]) < 64 && k + 3 < |e| && e[k + 3] == Code(V4(data[p + 2]))
    ensures p + 2 < |data| ==> EncodesRest(e, k + 4, data, p + 3)
  {
    hide Code, V1, V2, V3, V4;
    var rest := data[p..];
    Values(data[p], At(data, p + 1), At(data, p + 2));
    var r := Encode(rest);
    assert forall i :: 0 <= i < |r| ==> r[i] == e[k + i];
    if |rest| > 2 {
      assert rest[3..] == data[p + 3..] && r[4..] == e[k + 4..];
    }
  }

  lemma EncodeStarts(data: seq<byte>)
    ensures EncodesRest(Encode(data), 0, data, 0)
  {
    assert data[0..] == data;
  }

  lemma EncodeEnds(e: seq<byte>, k: nat, data: seq<byte>)
    requires EncodesRest(e, k, data, |data|)
    ensures k == |e|
  {
  }

  // One turn of the loop: up to three bytes in, up to four characters out.
  method EncodeGroup(
      buffer: array<byte>, at: nat, bp: nat, data: seq<byte>, p: nat, ghost was: seq<byte>, ghost e: seq<byte>)
    returns (bp': nat, p': nat)
    requires p < |data| && at <= bp && at + |e| < buffer.Length
    requires EncodesRest(e, bp - at, data, p) && Written(was, buffer[..], at, e, bp - at)
    modifies buffer
    ensures p < p' <= |data| && at <= bp' <= at + |e| && Written(was, buffer[..], at, e, bp' - at)
    ensures if p' < |data| then EncodesRest(e, bp' - at, data, p') else bp' == at + |e|
  {
    hide Code, V1, V2, V3, V4, Written, Encode;
    EncodeTurn(e, bp - at, data, p);
    var c1 := data[p];
    p' := p + 1;
    bp' := Put(buffer, bp, Code(V1(c1)), was, at, e);
    if p' >= |data| {
      bp' := Put(buffer, bp', Code(V2(c1, 0)), was, at, e);
      return;
    }
    var c2 := data[p'];
    p' := p' + 1;
    bp' := Put(buffer, bp', Code(V2(c1, c2)), was, at, e);
    if p' >= |data| {
      bp' := Put(buffer, bp', Code(V3(c2, 0)), was, at, e);
      return;
    }
    var c3 := data[p'];
    p' := p' + 1;
    bp' := Put(buffer, bp', Code(V3(c2, c3)), was, at, e);
    bp' := Put(buffer, bp', Code(V4(c3)), was, at, e);
    if p' == |data| {
      EncodeEnds(e, bp' - at, data);
    }
  }

  // Writes the encoding of `data` at buffer + at, then a NUL.
  method EncodeBase64(buffer: array<byte>, at: nat, data: seq<byte>) returns (end: nat)
    requires at + |Encode(data)| < buffer.Length
    modifies buffer
    ensures end == at + |Encode(data)|
    ensures buffer[..] == old(buffer[..at]) + Encode(data) + [0] + old(buffer[end + 1..])
  {
    hide Written, Encode, EncodesRest;
    ghost var was, e := buffer[..], Encode(data);
    var bp: nat, p: nat := at, 0;
    WrittenNothing(was, at, e);
    EncodeStarts(data);
    if data == [] {
      EncodeEnds(e, 0, data);
    }
    while p < |data|
      invariant p <= |data| && at <= bp <= at + |e| && Written(was, buffer[..], at, e, bp - at)
      invariant if p < |data| then EncodesRest(e, bp - at, data, p) else bp == at + |e|
    {
      bp, p := EncodeGroup(buffer, at, bp, data, p, was, e);
    }
    WrittenAll(was, buffer[..], at, e);
    ghost var now := buffer[..];
    buffer[bp] := 0;
    Terminated(was, now, buffer[..], at, e);
    end := bp;
  }

  lemma Terminated(was: seq<byte>, now: seq<byte>, later: seq<byte>, at: nat, e: seq<byte>)
    requires at + |e| < |was| && now == was[..at] + e + was[at + |e|..] && later == now[at + |e| := 0]
    ensures later == was[..at] + e + [0] + was[at + |e| + 1..]
  {
  }

  lemma WrittenNothing(was: seq<byte>, at: nat, e: seq<byte>)
    requires at <= |was|
    ensures Written(was, was, at, e, 0)
  {
  }

  lemma WrittenAll(was: seq<byte>, now: seq<byte>, at: nat, e: seq<byte>)
    requires Written(was, now, at, e, |e|)
    ensures now == was[..at] + e + was[at + |e|..]
  {
  }

  // Byte `k` of `d` begins what decoding yields from character `p` on.
  ghost predicate DecodesRest(d: seq<byte>, len: nat, k: nat, s: seq<byte>, p: nat) {
    k <= |d| && k <= len && d[k..] == Decode(len - k, if p <= |s| then s[p..] else [])
  }

  lemma DecodeTurn(d: seq<byte>, len: nat, k: nat, s: seq<byte>, p: nat)
    requires DecodesRest(d, len, k, s, p) && k < len
    ensures var c1, c2, c3, c4 := Char64(At(s, p)), Char64(At(s, p + 1)), Char64(At(s, p + 2)), Char64(At(s, p + 3));
            && ((c1 == 255 || c2 == 255) ==> k == |d|)
            && (c1 != 255 && c2 != 255 ==>
              && k < |d| && d[k] == B1(c1, c2)
              && (k + 1 == len || c3 == 255 ==> |d| == k + 1)
              && (k + 1 < len && c3 != 255 ==>
                && k + 1 < |d| && d[k + 1] == B2(c2, c3)
                && (k + 2 == len || c4 == 255 ==> |d| == k + 2)
                && (k + 2 < len && c4 != 255 ==>
                  k + 2 < |d| && d[k + 2] == B3(c3, c4) && DecodesRest(d, len, k + 3, s, p + 4))))
  {
    hide Char64, B1, B2, B3;
    var rest := if p <= |s| then s[p..] else [];
    var r := Decode(len - k, rest);
    assert forall i :: 0 <= i < |r| ==> r[i] == d[k + i];
    assert At(rest, 0) == At(s, p) && At(rest, 1) == At(s, p + 1);
    assert At(rest, 2) == At(s, p + 2) && At(rest, 3) == At(s, p + 3);
    assert (if |rest| < 4 then [] else rest[4..]) == if p + 4 <= |s| then s[p + 4..] else [];
    if |r| > 2 {
      assert r[3..] == d[k + 3..];
    }
  }

  lemma DecodeStarts(len: nat, s: seq<byte>)
    ensures DecodesRest(Decode(len, s), len, 0, s, 0)
  {
    assert s[0..] == s;
  }

  // Decodes up to `len` bytes into `buffer`; on invalid data the rest of the
  // buffer keeps what it held.
  method DecodeBase64(buffer: array<byte>, len: nat, data: seq<byte>)
    requires len <= buffer.Length
    modifies buffer
    ensures buffer[..] == Decode(len, data) + old(buffer[|Decode(len, data)|..])
  {
    hide Char64, B1, B2, B3, Written, Decode, DecodesRest;
    ghost var was, d := buffer[..], Decode(len, data);
    var bp: nat, p: nat := 0, 0;
    WrittenNothing(was, 0, d);
    DecodeStarts(len, data);
    while bp < len
      invariant bp <= |d| <= len && DecodesRest(d, len, bp, data, p)
      invariant Written(was, buffer[..], 0, d, bp)
    {
      DecodeTurn(d, len, bp, data, p);
      var c1, c2 := Char64(At(data, p)), Char64(At(data, p + 1));
      if c1 == 255 || c2 == 255 {
        break;
      }
      bp := Put(buffer, bp, B1(c1, c2), was, 0, d);
      if bp >= len {
        break;
      }
      var c3 := Char64(At(data, p + 2));
      if c3 == 255 {
        break;
      }
      bp := Put(buffer, bp, B2(c2, c3), was, 0, d);
      if bp >= len {
        break;
      }
      var c4 := Char64(At(data, p + 3));
      if c4 == 255 {
        break;
      }
      bp := Put(buffer, bp, B3(c3, c4), was, 0, d);
      p := p + 4;
    }
    WrittenAll(was, buffer[..], 0, d);
  }
}
