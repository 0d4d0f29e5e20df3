/** The loop of bddRR2star over an arbitrary step: apply the step to the last result until
    the result equals the previous one. */
module Fixpoint {
  import opened Results

  /** The k-th element of the sequence x, step(x), step(step(x)), ... */
  ghost function Iterate<T>(step: T -> T, x: T, k: nat): T
    decreases k
  {
    if k == 0 then x else Iterate(step, step(x), k - 1)
  }

  /** Element k of the sequence equals element k - 1. */
  ghost predicate Repeats<T>(step: T -> T, x: T, k: nat)
  {
    k > 0 && Iterate(step, x, k) == Iterate(step, x, k - 1)
  }

  /** At most `fuel` rounds of `prev = cur; cur = step(cur); if cur == prev: break`. The
      result is an element of the sequence that the step leaves unchanged; None when
      `fuel` rounds pass without two consecutive elements being equal. */
  ghost function Star<T>(step: T -> T, x: T, fuel: nat): (r: Option<T>)
    ensures r.Some? ==> step(r.value) == r.value
    ensures r.Some? ==> exists k :: 0 < k <= fuel && r.value == Iterate(step, x, k)
    decreases fuel
  {
    if fuel == 0 then None
    else
      var next := step(x);
      if next == x then
        assert Iterate(step, x, 1) == next;
        Some(next)
      else
        var r := Star(step, next, fuel - 1);
        assert r.Some? ==> exists k :: 0 < k <= fuel && r.value == Iterate(step, x, k) by {
          if r.Some? {
            var k :| 0 < k <= fuel - 1 && r.value == Iterate(step, next, k);
            assert Iterate(step, x, k + 1) == Iterate(step, next, k);
          }
        }
        r
  }

  /** Shifting the start by one step shifts the repeats by one. */
  lemma ShiftRepeats<T>(step: T -> T, x: T, k: nat)
    requires 1 < k
    ensures Repeats(step, x, k) <==> Repeats(step, step(x), k - 1)
  {
    assert Iterate(step, x, k) == Iterate(step, step(x), k - 1);
    assert Iterate(step, x, k - 1) == Iterate(step, step(x), k - 2);
  }

  /** The loop stops within `fuel` rounds iff two consecutive elements of the sequence are
      equal within its first `fuel` steps. */
  lemma {:induction false} StarConverges<T>(step: T -> T, x: T, fuel: nat)
    ensures Star(step, x, fuel).Some? <==> exists k :: 0 < k <= fuel && Repeats(step, x, k)
    decreases fuel
  {
    if fuel > 0 {
      var next := step(x);
      assert Iterate(step, x, 1) == next && Iterate(step, x, 0) == x;
      if next != x {
        StarConverges(step, next, fuel - 1);
        if exists k :: 0 < k <= fuel && Repeats(step, x, k) {
          var k :| 0 < k <= fuel && Repeats(step, x, k);
          ShiftRepeats(step, x, k);
          assert Repeats(step, next, k - 1);
        }
        if Star(step, x, fuel).Some? {
          var k :| 0 < k <= fuel - 1 && Repeats(step, next, k);
          ShiftRepeats(step, x, k + 1);
          assert Repeats(step, x, k + 1);
        }
      } else {
        assert Repeats(step, x, 1);
      }
    }
  }

  /** The loop returns the element at the first repeat of the sequence. */
  lemma {:induction false} StarIsFirstRepeat<T>(step: T -> T, x: T, fuel: nat, k: nat)
    requires 0 < k <= fuel && Repeats(step, x, k)
    requires forall j :: 0 < j < k ==> !Repeats(step, x, j)
    ensures Star(step, x, fuel) == Some(Iterate(step, x, k))
    decreases k
  {
    var next := step(x);
    assert Iterate(step, x, 1) == next && Iterate(step, x, 0) == x;
    if k > 1 {
      assert !Repeats(step, x, 1);
      forall j | 0 < j < k - 1
        ensures !Repeats(step, next, j)
      {
        ShiftRepeats(step, x, j + 1);
      }
      ShiftRepeats(step, x, k);
      assert Iterate(step, x, k) == Iterate(step, next, k - 1);
      StarIsFirstRepeat(step, next, fuel - 1, k - 1);
    }
  }

  /** More fuel does not change a result that was reached. */
  lemma {:induction false} StarFuel<T>(step: T -> T, x: T, fuel: nat, more: nat)
    requires fuel <= more && Star(step, x, fuel).Some?
    ensures Star(step, x, more) == Star(step, x, fuel)
    decreases fuel
  {
    var next := step(x);
    if next != x {
      StarFuel(step, next, fuel - 1, more - 1);
    }
  }

  /** When the step swaps two different values, the loop never stops on either of them. */
  lemma {:induction false} StarAlternates<T>(step: T -> T, a: T, b: T, fuel: nat)
    requires step(a) == b && step(b) == a && a != b
    ensures Star(step, a, fuel).None? && Star(step, b, fuel).None?
    decreases fuel
  {
    if fuel > 0 {
      StarAlternates(step, a, b, fuel - 1);
    }
  }
}
