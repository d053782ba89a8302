/** make_ticks, nested in high_school_style: the integer tick positions
    between two (already rounded) axis limits, leaving out the origin when
    the axis crosses it. */
module Ticks {

  /** Python's list(range(lo, hi)). */
  function Range(lo: int, hi: int): (r: seq<int>)
    decreases hi - lo
    ensures |r| == if lo < hi then hi - lo else 0
    ensures forall k :: 0 <= k < |r| ==> r[k] == lo + k
  {
    if lo >= hi then [] else [lo] + Range(lo + 1, hi)
  }

  /** sorted(lims) for a pair. */
  function Sorted(lims: (int, int)): (r: (int, int))
    ensures r.0 <= r.1
    ensures r == lims || r == (lims.1, lims.0)
  {
    if lims.0 <= lims.1 then lims else (lims.1, lims.0)
  }

  /** The axis strictly crosses zero: one limit below it, the other above. */
  predicate Straddles(lwr: int, upr: int)
  {
    lwr * upr < 0
  }

  /** The first tick is the lower limit and the last is the upper one. */
  function MakeTicks(lims: (int, int)): (r: seq<int>)
    ensures r != [] && r[0] == Sorted(lims).0 && r[|r| - 1] == Sorted(lims).1
  {
    var (lwr, upr) := Sorted(lims);
    StraddlesSign(lwr, upr);
    if Straddles(lwr, upr) then Range(lwr, 0) + Range(1, upr + 1) else Range(lwr, upr + 1)
  }

  ghost predicate StrictlyIncreasing(s: seq<int>)
  {
    forall k1, k2 :: 0 <= k1 < k2 < |s| ==> s[k1] < s[k2]
  }

  lemma StraddlesSign(lwr: int, upr: int)
    requires lwr <= upr
    ensures Straddles(lwr, upr) <==> lwr < 0 < upr
  {
    if lwr < 0 && 0 < upr {
      assert lwr * upr < 0 * upr;
    } else if lwr >= 0 {
      assert lwr * upr >= 0;
    } else {
      assert lwr * upr >= 0;
    }
  }

  /** The limits are sorted first, so the order they come in does not matter. */
  lemma MakeTicksSymmetric(a: int, b: int)
    ensures MakeTicks((a, b)) == MakeTicks((b, a))
  {
  }

  /** Tick k, in the case where the axis crosses zero: the integers from lwr
      upward, stepping over 0. */
  lemma MakeTicksStraddleAt(lims: (int, int), k: nat)
    requires Straddles(Sorted(lims).0, Sorted(lims).1)
    requires k < |MakeTicks(lims)|
    ensures MakeTicks(lims)[k] ==
              Sorted(lims).0 + k + (if Sorted(lims).0 + k >= 0 then 1 else 0)
  {
    var (lwr, upr) := Sorted(lims);
    StraddlesSign(lwr, upr);
    var left, right := Range(lwr, 0), Range(1, upr + 1);
    assert MakeTicks(lims) == left + right;
    if k >= |left| {
      assert MakeTicks(lims)[k] == right[k - |left|];
    }
  }

  /** What the ticks are: strictly increasing, never empty, and exactly the
      integers from the lower to the upper limit, without 0 when the axis
      crosses zero. */
  lemma MakeTicksSpec(lims: (int, int))
    ensures StrictlyIncreasing(MakeTicks(lims))
    ensures MakeTicks(lims) != []
    ensures var (lwr, upr) := Sorted(lims);
            forall x :: x in MakeTicks(lims) <==>
              lwr <= x <= upr && !(Straddles(lwr, upr) && x == 0)
    ensures var (lwr, upr) := Sorted(lims);
            |MakeTicks(lims)| == upr - lwr + 1 - (if Straddles(lwr, upr) then 1 else 0)
  {
    var (lwr, upr) := Sorted(lims);
    var r := MakeTicks(lims);
    StraddlesSign(lwr, upr);
    if Straddles(lwr, upr) {
      forall k | 0 <= k < |r| ensures r[k] == lwr + k + (if lwr + k >= 0 then 1 else 0) {
        MakeTicksStraddleAt(lims, k);
      }
      forall x | lwr <= x <= upr && x != 0 ensures x in r {
        var k := if x < 0 then x - lwr else x - lwr - 1;
        assert r[k] == x;
      }
    } else {
      assert r == Range(lwr, upr + 1);
      forall x | lwr <= x <= upr ensures x in r {
        assert r[x - lwr] == x;
      }
    }
  }

  /** A concrete case: limits given in reverse, (3.0, -2.0) after rounding. */
  lemma MakeTicksExample()
    ensures MakeTicks((3, -2)) == [-2, -1, 1, 2, 3]
    ensures MakeTicks((0, 2)) == [0, 1, 2]
  {
    MakeTicksSpec((3, -2));
    MakeTicksSpec((0, 2));
    assert Range(-2, 0) == [-2, -1];
    assert Range(1, 4) == [1, 2, 3];
    assert Range(0, 3) == [0, 1, 2];
  }
}
