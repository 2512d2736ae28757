/** Counting and ordering in lists of numbered packets, chunks and buffers. */
module Lists {

  function One(yes: bool): nat {
    if yes then 1 else 0
  }

  /** How often `x` occurs. */
  function Times(s: seq<nat>, x: nat): nat {
    if s == [] then 0 else One(s[0] == x) + Times(s[1..], x)
  }

  lemma {:induction false} TimesAppend(a: seq<nat>, b: seq<nat>, x: nat)
    ensures Times(a + b, x) == Times(a, x) + Times(b, x)
  {
    if a == [] {
      assert a + b == b;
    } else {
      assert (a + b)[1..] == a[1..] + b;
      TimesAppend(a[1..], b, x);
    }
  }

  lemma {:induction false} TimesSnoc(s: seq<nat>, y: nat, x: nat)
    ensures Times(s + [y], x) == Times(s, x) + One(y == x)
  {
    TimesAppend(s, [y], x);
    assert [y][1..] == [];
  }

  ghost predicate Increasing(s: seq<nat>) {
    forall i, j :: 0 <= i < j < |s| ==> s[i] < s[j]
  }

  ghost predicate Below(s: seq<nat>, n: nat) {
    forall i :: 0 <= i < |s| ==> s[i] < n
  }

  /** Everything in `a` is smaller than everything in `b`. */
  ghost predicate Before(a: seq<nat>, b: seq<nat>) {
    forall i, j :: 0 <= i < |a| && 0 <= j < |b| ==> a[i] < b[j]
  }
}
