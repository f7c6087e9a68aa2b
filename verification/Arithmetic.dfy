/** Facts about remainders that the ring protocol and the codec rest on. */
module Arithmetic {
  lemma MulMono(a: nat, b: nat, c: nat)
    requires a <= b
    ensures a * c <= b * c
  {
  }

  lemma ModUnique(q: nat, r: nat, c: nat)
    requires r < c
    ensures (q * c + r) % c == r && (q * c + r) / c == q
  {
    var x := q * c + r;
    assert x == (x / c) * c + x % c;
    if x / c < q {
      MulMono(x / c + 1, q, c);
      assert false;
    }
    if x / c > q {
      MulMono(q + 1, x / c, c);
      assert false;
    }
  }

  // Two numbers with the same remainder are a multiple of the divisor apart.
  lemma SameSlot(a: nat, b: nat, c: nat)
    requires c > 0 && a % c == b % c && a < b
    ensures a + c <= b
  {
    var q, r := a / c, b / c;
    assert a == q * c + a % c && b == r * c + b % c;
    if r <= q {
      MulMono(r, q, c);
      assert false;
    }
    MulMono(q + 1, r, c);
  }

  lemma NextSlot(a: nat, c: nat)
    requires c > 0
    ensures (a + c) % c == a % c
  {
    assert a + c == (a / c + 1) * c + a % c;
    ModUnique(a / c + 1, a % c, c);
  }
}
