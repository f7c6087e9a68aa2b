/**
 The rounding of the capacity in the constructor of src/utils/circlebuffer.h, on 64-bit words: smearing
 the top bit of the request minus one to the right yields a run of ones, and one more is the least power
 of two that is large enough, or 0 when the word overflows.  Masking a ticket with the capacity minus
 one is then the remainder, which names a node exactly when the rounding did not overflow.
 */
module Rounding {
  import opened Arithmetic

  const WORD: nat := 0x1_0000_0000_0000_0000   // 2^64
  const HALF: nat := 0x8000_0000_0000_0000       // 2^63

  function Pow2(k: nat): (p: nat)
    ensures p > 0
  {
    if k == 0 then 1 else 2 * Pow2(k - 1)
  }

  function Shr(m: nat, k: nat): nat {
    if k == 0 then m else Shr(m / 2, k - 1)
  }

  function Or(a: nat, b: nat): nat
    decreases a + b
  {
    if a == 0 && b == 0 then 0
    else 2 * Or(a / 2, b / 2) + (if a % 2 == 1 || b % 2 == 1 then 1 else 0)
  }

  function And(a: nat, b: nat): nat {
    if a == 0 then 0 else 2 * And(a / 2, b / 2) + (if a % 2 == 1 && b % 2 == 1 then 1 else 0)
  }

  predicate Bit(m: nat, k: nat) { Shr(m, k) % 2 == 1 }

  ghost predicate IsPow2(n: nat) { exists k: nat :: n == Pow2(k) }

  // The least power of two that is at least n.
  ghost predicate LeastPow2(n: nat, c: nat) {
    IsPow2(c) && n <= c && forall d: nat :: IsPow2(d) && n <= d ==> c <= d
  }

  lemma {:induction false} Pow2Monotone(j: nat, k: nat)
    requires j <= k
    ensures Pow2(j) <= Pow2(k)
  {
    if j < k { Pow2Monotone(j, k - 1); }
  }

  lemma {:induction false} ShrShr(m: nat, i: nat, k: nat)
    ensures Shr(Shr(m, i), k) == Shr(m, i + k)
  {
    if i > 0 { ShrShr(m / 2, i - 1, k); }
  }

  lemma {:induction false} OrBit(a: nat, b: nat, k: nat)
    ensures Bit(Or(a, b), k) <==> Bit(a, k) || Bit(b, k)
    decreases k
  {
    if k > 0 { OrBit(a / 2, b / 2, k - 1); }
    OrHalf(a, b);
  }

  lemma OrHalf(a: nat, b: nat)
    ensures Or(a, b) / 2 == Or(a / 2, b / 2)
    ensures Or(a, b) % 2 == (if a % 2 == 1 || b % 2 == 1 then 1 else 0)
  {
  }

  lemma {:induction false} OrBelow(a: nat, b: nat, p: nat)
    requires a < Pow2(p) && b < Pow2(p)
    ensures Or(a, b) < Pow2(p)
  {
    if p > 0 { OrBelow(a / 2, b / 2, p - 1); }
  }

  lemma {:induction false} ShrBelow(m: nat, k: nat)
    ensures Shr(m, k) <= m
  {
    if k > 0 { ShrBelow(m / 2, k - 1); }
  }

  // A number below 2^p whose p low bits are all set.
  lemma {:induction false} AllOnes(m: nat, p: nat)
    requires m < Pow2(p) && forall k: nat :: k < p ==> Bit(m, k)
    ensures m == Pow2(p) - 1
  {
    if p > 0 {
      assert Bit(m, 0);
      forall k: nat | k < p - 1 ensures Bit(m / 2, k) { assert Bit(m, k + 1); }
      AllOnes(m / 2, p - 1);
    }
  }

  lemma {:induction false} TopBit(m: nat) returns (p: nat)
    ensures m < Pow2(p) && (p > 0 ==> Pow2(p - 1) <= m && Bit(m, p - 1))
  {
    if m == 0 {
      p := 0;
    } else {
      p := TopBit(m / 2);
      p := p + 1;
    }
  }

  // Bits p-1 down to p-w of m are set.
  ghost predicate TopOnes(m: nat, p: nat, w: nat) {
    m < Pow2(p) && forall k: nat :: k < p <= k + w ==> Bit(m, k)
  }

  lemma Smear(m: nat, p: nat, w: nat)
    requires TopOnes(m, p, w)
    ensures TopOnes(Or(m, Shr(m, w)), p, 2 * w)
  {
    var s := Shr(m, w);
    ShrBelow(m, w);
    OrBelow(m, s, p);
    forall k: nat | k < p <= k + 2 * w ensures Bit(Or(m, s), k) {
      OrBit(m, s, k);
      if k + w < p {
        ShrShr(m, w, k);
        assert Bit(m, k + w);
      }
    }
  }

  // The constructor's smearing loop, with size_t wrap-around written out.  The result is the least
  // power of two at least the request exactly when the request lies in 1..2^63; otherwise the
  // addition wraps to 0.
  method RoundUp(capacity: nat) returns (rounded: nat)
    requires capacity < WORD
    ensures 1 <= capacity <= HALF ==> LeastPow2(capacity, rounded)
    ensures !(1 <= capacity <= HALF) ==> rounded == 0
  {
    var mask: nat := if capacity == 0 then WORD - 1 else capacity - 1;
    ghost var start := mask;
    ghost var p := TopBit(mask);
    TopWidth(mask, p);
    var i := 1;
    while i <= 32
      invariant i in {1, 2, 4, 8, 16, 32, 64} && p <= 64
      invariant TopOnes(mask, p, i)
      decreases 64 - i
    {
      Smear(mask, p, i);
      mask := Or(mask, Shr(mask, i));
      i := 2 * i;
    }
    AllOnes(mask, p);
    rounded := (mask + 1) % WORD;
    RoundedIs(start, p);
  }

  lemma WordSizes()
    ensures Pow2(63) == HALF && Pow2(64) == WORD
  {
    assert Pow2(8) == 256;
    Pow2Sum(8, 8);
    Pow2Sum(16, 16);
    Pow2Sum(32, 32);
  }

  lemma {:induction false} Pow2Sum(j: nat, k: nat)
    ensures Pow2(j + k) == Pow2(j) * Pow2(k)
  {
    if j > 0 { Pow2Sum(j - 1, k); }
  }

  lemma TopWidth(m: nat, p: nat)
    requires m < WORD && (p > 0 ==> Pow2(p - 1) <= m)
    ensures p <= 64
  {
    WordSizes();
    if p > 64 { Pow2Monotone(64, p - 1); }
  }

  lemma RoundedIs(m: nat, p: nat)
    requires p <= 64 && m < Pow2(p) && (p > 0 ==> Pow2(p - 1) <= m)
    ensures p <= 63 ==> LeastPow2(m + 1, Pow2(p) % WORD)
    ensures p <= 63 <==> m + 1 <= HALF
    ensures p == 64 ==> Pow2(p) % WORD == 0
  {
    Wraps(p);
    WordSizes();
    if p <= 63 {
      Pow2Monotone(p, 63);
      forall d: nat | IsPow2(d) && m + 1 <= d ensures Pow2(p) <= d {
        LeastAbove(m, p, d);
      }
    }
  }

  lemma Wraps(p: nat)
    requires p <= 64
    ensures Pow2(p) % WORD == if p == 64 then 0 else Pow2(p)
  {
    WordSizes();
    if p < 64 {
      Pow2Monotone(p, 63);
    }
  }

  lemma LeastAbove(m: nat, p: nat, d: nat)
    requires IsPow2(d) && m < d && (p > 0 ==> Pow2(p - 1) <= m)
    ensures Pow2(p) <= d
  {
    var k: nat :| d == Pow2(k);
    if k < p { Pow2Monotone(k, p - 1); } else { Pow2Monotone(p, k); }
  }

  // Masking a ticket with capacity - 1 is the remainder the protocol model uses.
  lemma {:induction false} MaskIsRemainder(t: nat, p: nat)
    ensures And(t, Pow2(p) - 1) == t % Pow2(p)
    decreases p
  {
    if t == 0 {
      ModUnique(0, 0, Pow2(p));
    } else if p == 0 {
      AndZero(t);
    } else {
      MaskIsRemainder(t / 2, p - 1);
      ModDouble(t, Pow2(p - 1));
      assert (Pow2(p) - 1) / 2 == Pow2(p - 1) - 1;
    }
  }

  lemma ModDouble(t: nat, h: nat)
    requires h > 0
    ensures t % (2 * h) == 2 * ((t / 2) % h) + t % 2
  {
    var q, r := (t / 2) / h, (t / 2) % h;
    assert t / 2 == q * h + r;
    assert q * (2 * h) == 2 * (q * h);
    ModUnique(q, 2 * r + t % 2, 2 * h);
  }

  lemma {:induction false} AndZero(t: nat)
    ensures And(t, 0) == 0
  {
    if t > 0 { AndZero(t / 2); }
  }

  // The ticket, masked with the capacity minus 1, is the index of a node.
  predicate HasNode(t: nat, rounded: nat) { And(t, (rounded + WORD - 1) % WORD) < rounded }

  // Masking with capacity - 1 names a node for every ticket exactly when the request was in range; a
  // request for capacity 0 leaves a queue without nodes.
  lemma TicketsHaveNodesIff(capacity: nat, rounded: nat)
    requires capacity < WORD
    requires if 1 <= capacity <= HALF then LeastPow2(capacity, rounded) else rounded == 0
    ensures (forall t: nat :: t < WORD ==> HasNode(t, rounded)) <==> 1 <= capacity <= HALF
  {
    if 1 <= capacity <= HALF {
      WordSizes();
      assert IsPow2(HALF) && rounded <= HALF;
      var p: nat :| rounded == Pow2(p);
      assert (rounded + WORD - 1) % WORD == rounded - 1;
      forall t: nat | t < WORD ensures HasNode(t, rounded) {
        MaskIsRemainder(t, p);
      }
    } else {
      assert !HasNode(0, rounded);
    }
  }
}
