/** Facts about Euclidean remainders shared by the rotating index and the click
    counters. */
module Remainders {

  /** `d * t >= t` for a positive `d`. */
  lemma {:induction false} MultipleAtLeast(d: nat, t: nat)
    requires d >= 1
    ensures d * t >= t
  {
    if d > 1 {
      MultipleAtLeast(d - 1, t);
      assert d * t == (d - 1) * t + t;
    }
  }

  /** Quotient and remainder are unique: `x == q * t + r` with `r < t` fixes `x % t`. */
  lemma DivisionUnique(x: nat, t: nat, q: nat, r: nat)
    requires t > 0 && r < t && x == q * t + r
    ensures x % t == r
  {
    var q' := x / t;
    if q' > q {
      MultipleAtLeast(q' - q, t);
    } else if q' < q {
      MultipleAtLeast(q - q', t);
    }
  }

  /** `(x + 1) % t` is one more than `x % t`, or 0 when that reaches `t`. */
  lemma RemainderStep(x: nat, t: nat)
    requires t > 0
    ensures x % t + 1 < t ==> (x + 1) % t == x % t + 1
    ensures x % t + 1 == t ==> (x + 1) % t == 0
  {
    var q := x / t;
    assert x == q * t + x % t;
    if x % t + 1 < t {
      DivisionUnique(x + 1, t, q, x % t + 1);
    } else {
      assert x + 1 == (q + 1) * t;
      DivisionUnique(x + 1, t, q + 1, 0);
    }
  }
}
