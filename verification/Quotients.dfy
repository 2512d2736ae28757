/** Rounding up a quotient: facts about division by a variable. */
module Quotients {

  /** How many pieces of `per` cover `n`. */
  function Ceil(n: nat, per: nat): nat
    requires per > 0
  {
    if n == 0 then 0 else if n <= per then 1 else 1 + Ceil(n - per, per)
  }

  lemma {:induction false} CeilIsQuotient(n: nat, per: nat)
    requires per > 0
    ensures Ceil(n, per) == (n + per - 1) / per
  {
    if n > per {
      CeilIsQuotient(n - per, per);
      OneMore(n - 1, per);
    } else if n > 0 {
      OneMore(n - 1, per);
      SmallQuotient(n - 1, per);
    } else {
      SmallQuotient(per - 1, per);
    }
  }

  lemma {:induction false} CeilByRemainder(n: nat, per: nat)
    requires per > 0
    ensures Ceil(n, per) == n / per + if n % per == 0 then 0 else 1
  {
    if n > per {
      CeilByRemainder(n - per, per);
      OneMore(n - per, per);
      SameRemainder(n - per, per);
    } else if n == per {
      SmallQuotient(0, per);
      OneMore(0, per);
      SameRemainder(0, per);
    } else {
      SmallQuotient(n, per);
    }
  }

  lemma {:induction false} OneMore(a: nat, d: nat)
    requires d > 0
    ensures (a + d) / d == a / d + 1
  {
    QuotientUnique(a + d, d, a / d + 1, a % d);
  }

  lemma {:induction false} SameRemainder(a: nat, d: nat)
    requires d > 0
    ensures (a + d) % d == a % d
  {
    OneMore(a, d);
    assert (a + d) % d == a + d - (a / d + 1) * d;
  }

  lemma {:induction false} QuotientUnique(x: nat, d: nat, q: nat, r: nat)
    requires d > 0 && r < d && x == q * d + r
    ensures x / d == q
  {
    var k := x / d - q;
    assert k * d == r - x % d;
    Multiple(k, d);
  }

  lemma {:induction false} Multiple(k: int, d: int)
    requires d > 0
    ensures k >= 1 ==> k * d >= d
    ensures k <= -1 ==> k * d <= -d
  {
  }

  lemma {:induction false} SmallQuotient(a: nat, d: nat)
    requires a < d
    ensures a / d == 0 && a % d == a
  {
  }
}
