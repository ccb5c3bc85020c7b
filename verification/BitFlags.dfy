// lib/bitflags.h: sets of enum values kept in the bits of a 32-bit integer.
module BitFlags {
  type Bits = bv32

  function Set(bits: Bits, e: Bits): Bits { bits | e }

  function Clear(bits: Bits, e: Bits): Bits { bits & !e }

  predicate Has(bits: Bits, e: Bits) { bits & e != 0 }

  predicate Empty(bits: Bits) { bits == 0 }

  // An enumerator of the source's enums: 1 << k for some k.
  predicate OneBit(e: Bits) { e != 0 && e & (e - 1) == 0 }

  lemma OneHotMeet(e: Bits, f: Bits)
    requires OneBit(e) && OneBit(f)
    ensures e & f != 0 <==> e == f
  {
  }

  lemma OrMeets(a: Bits, e: Bits, f: Bits)
    ensures (a | e) & f != 0 <==> a & f != 0 || e & f != 0
  {
  }

  lemma AndNotMeets(a: Bits, e: Bits, f: Bits)
    ensures e & f == 0 ==> (a & !e) & f == a & f
    ensures (a & !e) & e == 0
  {
  }

  // On single-bit enumerators the operations are those of a set.
  lemma SetHas(bits: Bits, e: Bits, f: Bits)
    requires OneBit(e) && OneBit(f)
    ensures Has(Set(bits, e), f) <==> e == f || Has(bits, f)
  {
    OneHotMeet(e, f);
    hide OneBit;
    OrMeets(bits, e, f);
  }

  lemma ClearHas(bits: Bits, e: Bits, f: Bits)
    requires OneBit(e) && OneBit(f)
    ensures Has(Clear(bits, e), f) <==> e != f && Has(bits, f)
  {
    OneHotMeet(e, f);
    hide OneBit;
    AndNotMeets(bits, e, f);
  }

  lemma NothingHas(f: Bits)
    ensures !Has(0, f)
  {
  }

  lemma SetPresent(bits: Bits, e: Bits)
    requires OneBit(e) && Has(bits, e)
    ensures Set(bits, e) == bits
  {
  }

  lemma ClearAbsent(bits: Bits, e: Bits)
    requires !Has(bits, e)
    ensures Clear(bits, e) == bits
  {
  }

  // Flags with the same enumerators are the same integer.
  lemma SameBits(a: Bits, b: Bits)
    requires forall e :: OneBit(e) ==> (Has(a, e) <==> Has(b, e))
    ensures a == b
  {
    hide OneBit, Has;
    if a != b {
      var e := LowestDifference(a, b);
    }
  }

  lemma LowestDifference(a: Bits, b: Bits) returns (e: Bits)
    requires a != b
    ensures OneBit(e) && Has(a, e) != Has(b, e)
  {
    var x := a ^ b;
    e := x & (!x + 1);
    LowestBit(x);
    hide OneBit;
    OneOfTwo(a, b, e);
  }

  lemma LowestBit(x: Bits)
    requires x != 0
    ensures OneBit(x & (!x + 1)) && (x & (!x + 1)) & x != 0
  {
  }

  lemma OneOfTwo(a: Bits, b: Bits, e: Bits)
    requires (a ^ b) & e != 0 && OneBit(e)
    ensures Has(a, e) != Has(b, e)
  {
  }
}
