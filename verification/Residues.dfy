// Facts about remainders with a symbolic modulus, for the cyclic key reader and the
// round-robin dispatchers.
module Residues {

  lemma MulMonotone(a: int, b: int, n: nat)
    ensures a <= b ==> a * n <= b * n
  {
  }

  lemma ModUnique(a: int, q: int, r: nat, n: nat)
    requires n > 0 && a == q * n + r && r < n
    ensures a % n == r
  {
    MulMonotone(q + 1, a / n, n);
    MulMonotone(a / n + 1, q, n);
    assert a == a / n * n + a % n;
  }

  lemma ModOfMultiplePlus(q: int, r: nat, n: nat)
    requires n > 0
    ensures (q * n + r) % n == r % n
  {
    assert q * n + r == (q + r / n) * n + r % n;
    ModUnique(q * n + r, q + r / n, r % n, n);
  }

  // Reducing modulo a multiple of n first does not change the residue modulo n.
  lemma ModOfMod(i: nat, times: nat, n: nat)
    requires n > 0 && times * n > 0
    ensures i % (times * n) % n == i % n
  {
    var m := times * n;
    var q := i / m;
    assert i == q * m + i % m;
    assert q * m == (q * times) * n;
    ModOfMultiplePlus(q * times, i % m, n);
  }

  lemma NextResidue(pos: nat, n: nat)
    requires n > 0
    ensures (pos + 1) % n == if pos % n + 1 == n then 0 else pos % n + 1
  {
    if pos % n + 1 == n {
      ModUnique(pos + 1, pos / n + 1, 0, n);
    } else {
      ModUnique(pos + 1, pos / n, pos % n + 1, n);
    }
  }

  lemma SmallResidue(r: nat, n: nat)
    requires r < n
    ensures r % n == r
  {
    ModUnique(r, 0, r, n);
  }

  // Within n consecutive numbers a residue occurs once.
  lemma ResidueIsUnique(a: nat, b: nat, n: nat)
    requires n > 0 && a <= b < a + n && a % n == b % n
    ensures a == b
  {
    assert a == a / n * n + a % n && b == b / n * n + b % n;
    MulMonotone(a / n + 1, b / n, n);
    MulMonotone(b / n, a / n, n);
    assert (a / n + 1) * n == a / n * n + n;
  }

  // ... and it does occur: the next number from `from` on with residue k.
  function NextWith(from: nat, n: nat, k: nat): (b: nat)
    requires k < n
    ensures from <= b < from + n && b % n == k
  {
    var m := from % n;
    var b := if k >= m then from + (k - m) else from + (k + n - m);
    assert from == from / n * n + m;
    assert b % n == k by {
      if k >= m {
        ModUnique(b, from / n, k, n);
      } else {
        ModUnique(b, from / n + 1, k, n);
      }
    }
    b
  }
}
