/** The label bookkeeping of DLDA.fit: the sorted distinct labels, the number
    of training cases of each, and the prior of each label as the exact
    fraction count / N. */
module Classifier {
  import opened Results

  /** An exact fraction num / den, as len(cases) / len(train_ftrs) means it. */
  datatype Ratio = Ratio(num: nat, den: nat)

  ghost predicate StrictlyIncreasing(s: seq<int>)
  {
    forall i, j :: 0 <= i < j < |s| ==> s[i] < s[j]
  }

  /** `x` put into its place in an increasing sequence, unless it is there. */
  function Insert(x: int, s: seq<int>): (r: seq<int>)
    requires StrictlyIncreasing(s)
    ensures StrictlyIncreasing(r)
    ensures forall y :: y in r <==> y == x || y in s
  {
    if s == [] then [x]
    else if x < s[0] then [x] + s
    else if x == s[0] then s
    else
      var rest := Insert(x, s[1..]);
      var r := [s[0]] + rest;
      assert forall y :: y in rest ==> s[0] < y by {
        forall y | y in rest ensures s[0] < y {
          if y != x {
            var k :| 0 <= k < |s[1..]| && s[1..][k] == y;
            assert s[k + 1] == y;
          }
        }
      }
      forall i, j | 0 <= i < j < |r| ensures r[i] < r[j] {
        assert r[j] == rest[j - 1];
        if i == 0 {
          assert rest[j - 1] in rest;
        } else {
          assert r[i] == rest[i - 1];
        }
      }
      r
  }

  /** np.unique: the distinct labels in increasing order. */
  function Unique(s: seq<int>): (r: seq<int>)
    ensures StrictlyIncreasing(r)
    ensures forall y :: y in r <==> y in s
  {
    if s == [] then [] else Insert(s[0], Unique(s[1..]))
  }

  /** The number of True entries of train_tgts == tgt. */
  function Count(tgts: seq<int>, t: int): nat
  {
    if tgts == [] then 0 else (if tgts[0] == t then 1 else 0) + Count(tgts[1..], t)
  }

  /** train_ftrs[train_tgts == tgt]: the rows whose label is `t`, in order. */
  function Cases(ftrs: seq<seq<real>>, tgts: seq<int>, t: int): (r: seq<seq<real>>)
    requires |ftrs| == |tgts|
    ensures |r| == Count(tgts, t)
    ensures forall row :: row in r ==> row in ftrs
  {
    if ftrs == [] then []
    else
      var rest := Cases(ftrs[1..], tgts[1..], t);
      if tgts[0] == t then [ftrs[0]] + rest else rest
  }

  /** The positions from `i` on whose label is `t`, in increasing order: the
      True entries of the mask train_tgts == tgt. Each of them has label `t`. */
  function Positions(tgts: seq<int>, t: int, i: nat): (idx: seq<nat>)
    requires i <= |tgts|
    decreases |tgts| - i
    ensures forall k :: 0 <= k < |idx| ==> i <= idx[k] < |tgts| && tgts[idx[k]] == t
  {
    if i == |tgts| then []
    else (if tgts[i] == t then [i] else []) + Positions(tgts, t, i + 1)
  }

  /** The positions are listed in strictly increasing order. */
  lemma {:induction false} PositionsIncreasing(tgts: seq<int>, t: int, i: nat)
    requires i <= |tgts|
    decreases |tgts| - i
    ensures forall k1, k2 :: 0 <= k1 < k2 < |Positions(tgts, t, i)| ==>
              Positions(tgts, t, i)[k1] < Positions(tgts, t, i)[k2]
  {
    if i < |tgts| {
      PositionsIncreasing(tgts, t, i + 1);
      var p := Positions(tgts, t, i + 1);
      if tgts[i] == t {
        var q := [i] + p;
        assert Positions(tgts, t, i) == q;
        forall k1, k2 | 0 <= k1 < k2 < |q| ensures q[k1] < q[k2] {
          assert q[k2] == p[k2 - 1] && i + 1 <= p[k2 - 1];
          if k1 > 0 {
            assert q[k1] == p[k1 - 1] < p[k2 - 1];
          } else {
            assert q[k1] == i;
          }
        }
      } else {
        assert Positions(tgts, t, i) == p;
      }
    }
  }

  /** No position whose label is `t` is missed. */
  lemma {:induction false} PositionsComplete(tgts: seq<int>, t: int, i: nat)
    requires i <= |tgts|
    decreases |tgts| - i
    ensures forall j :: i <= j < |tgts| && tgts[j] == t ==> j in Positions(tgts, t, i)
  {
    if i < |tgts| {
      PositionsComplete(tgts, t, i + 1);
      var p := Positions(tgts, t, i + 1);
      assert Positions(tgts, t, i) == (if tgts[i] == t then [i] else []) + p;
    }
  }


  /** The priors fit leaves: each distinct label maps to count / n. */
  function Priors(tgts: seq<int>, n: nat): map<int, Ratio>
  {
    map u | u in Unique(tgts) :: Ratio(Count(tgts, u), n)
  }

  class Dlda {
    var uniqTgts: seq<int>
    var priors: map<int, Ratio>

    /** __init__ sets nothing: no labels and no priors yet. */
    constructor ()
      ensures uniqTgts == [] && priors == map[]
    {
      uniqTgts, priors := [], map[];
    }

    /** fit, without the variance and the means: the labels are set first;
        then for each label the cases are selected by a boolean mask, which
        raises IndexError at the first label when the mask and the rows
        differ in length. */
    method Fit(trainFtrs: seq<seq<real>>, trainTgts: seq<int>) returns (r: Outcome)
      modifies this
      ensures uniqTgts == Unique(trainTgts)
      ensures r == if trainTgts != [] && |trainFtrs| != |trainTgts|
                   then Fail(MaskLengthMismatch(|trainFtrs|, |trainTgts|)) else Pass
      ensures r.Pass? ==> priors == Priors(trainTgts, |trainFtrs|)
      ensures r.Fail? ==> priors == map[]
    {
      uniqTgts := Unique(trainTgts);
      priors := map[];
      for i := 0 to |uniqTgts|
        invariant uniqTgts == Unique(trainTgts)
        invariant i > 0 ==> |trainFtrs| == |trainTgts| > 0
        invariant priors.Keys == set u | u in uniqTgts[..i]
        invariant forall u :: u in priors ==> priors[u] == Ratio(Count(trainTgts, u), |trainFtrs|)
      {
        var tgt := uniqTgts[i];
        assert tgt in trainTgts;
        if |trainFtrs| != |trainTgts| {
          return Fail(MaskLengthMismatch(|trainFtrs|, |trainTgts|));
        }
        var cases := Cases(trainFtrs, trainTgts, tgt);
        priors := priors[tgt := Ratio(|cases|, |trainFtrs|)];
        assert uniqTgts[..i + 1] == uniqTgts[..i] + [tgt];
      }
      assert uniqTgts[..|uniqTgts|] == uniqTgts;
      if trainTgts != [] {
        assert |trainFtrs| == |trainTgts| || uniqTgts == [];
      }
      return Pass;
    }
  }

  /** The numerators of the priors of the labels listed, added up. */
  function SumPriors(us: seq<int>, p: map<int, Ratio>): nat
    requires forall k :: 0 <= k < |us| ==> us[k] in p
  {
    if us == [] then 0 else p[us[0]].num + SumPriors(us[1..], p)
  }

  function SumCounts(us: seq<int>, tgts: seq<int>): nat
  {
    if us == [] then 0 else Count(tgts, us[0]) + SumCounts(us[1..], tgts)
  }

  /** How often `t` occurs among the labels listed. */
  function Occurrences(us: seq<int>, t: int): nat
  {
    if us == [] then 0 else (if us[0] == t then 1 else 0) + Occurrences(us[1..], t)
  }

  /** The selected rows are exactly the rows at the positions whose label is
      `t`, in their original order. */
  lemma CasesSelect(ftrs: seq<seq<real>>, tgts: seq<int>, t: int)
    requires |ftrs| == |tgts|
    ensures |Cases(ftrs, tgts, t)| == |Positions(tgts, t, 0)|
    ensures forall k :: 0 <= k < |Cases(ftrs, tgts, t)| ==>
              Cases(ftrs, tgts, t)[k] == ftrs[Positions(tgts, t, 0)[k]]
  {
    CasesSelectFrom(ftrs, tgts, t, 0);
    assert ftrs[0..] == ftrs && tgts[0..] == tgts;
  }

  lemma {:induction false} CasesSelectFrom(ftrs: seq<seq<real>>, tgts: seq<int>, t: int, i: nat)
    requires |ftrs| == |tgts| && i <= |tgts|
    decreases |tgts| - i
    ensures |Cases(ftrs[i..], tgts[i..], t)| == |Positions(tgts, t, i)|
    ensures forall k :: 0 <= k < |Positions(tgts, t, i)| ==>
              Cases(ftrs[i..], tgts[i..], t)[k] == ftrs[Positions(tgts, t, i)[k]]
  {
    if i < |tgts| {
      CasesSelectFrom(ftrs, tgts, t, i + 1);
      assert ftrs[i..][1..] == ftrs[i + 1..] && tgts[i..][1..] == tgts[i + 1..];
      var rest := Cases(ftrs[i + 1..], tgts[i + 1..], t);
      var p := Positions(tgts, t, i + 1);
      if tgts[i] == t {
        assert Cases(ftrs[i..], tgts[i..], t) == [ftrs[i]] + rest;
        assert Positions(tgts, t, i) == [i] + p;
        forall k | 1 <= k < |Positions(tgts, t, i)|
          ensures Cases(ftrs[i..], tgts[i..], t)[k] == ftrs[Positions(tgts, t, i)[k]]
        {
          assert Cases(ftrs[i..], tgts[i..], t)[k] == rest[k - 1];
          assert Positions(tgts, t, i)[k] == p[k - 1];
        }
      } else {
        assert Cases(ftrs[i..], tgts[i..], t) == rest;
        assert Positions(tgts, t, i) == p;
      }
    }
  }

  /** The mask count is how often `t` occurs among the labels. */
  lemma {:induction false} CountMultiset(tgts: seq<int>, t: int)
    ensures Count(tgts, t) == multiset(tgts)[t]
  {
    if tgts != [] {
      CountMultiset(tgts[1..], t);
      assert tgts == [tgts[0]] + tgts[1..];
    }
  }

  /** Every label of fit's output has at least one case. */
  lemma {:induction false} CountPositive(tgts: seq<int>, t: int)
    ensures Count(tgts, t) > 0 <==> t in tgts
  {
    if tgts != [] {
      CountPositive(tgts[1..], t);
    }
  }

  lemma {:induction false} OccurrencesDistinct(us: seq<int>, t: int)
    requires StrictlyIncreasing(us)
    ensures Occurrences(us, t) == if t in us then 1 else 0
  {
    if us != [] {
      OccurrencesDistinct(us[1..], t);
      if us[0] == t {
        assert t !in us[1..];
      }
    }
  }

  lemma {:induction false} SumCountsCons(us: seq<int>, t: int, rest: seq<int>)
    ensures SumCounts(us, [t] + rest) == Occurrences(us, t) + SumCounts(us, rest)
  {
    if us != [] {
      assert ([t] + rest)[1..] == rest;
      SumCountsCons(us[1..], t, rest);
    }
  }

  /** Counting every label of a list that holds each label once accounts for
      every case. */
  lemma {:induction false} SumCountsAll(us: seq<int>, tgts: seq<int>)
    requires StrictlyIncreasing(us)
    requires forall t :: t in tgts ==> t in us
    ensures SumCounts(us, tgts) == |tgts|
  {
    if tgts == [] {
      SumCountsEmpty(us);
    } else {
      assert tgts == [tgts[0]] + tgts[1..];
      SumCountsCons(us, tgts[0], tgts[1..]);
      OccurrencesDistinct(us, tgts[0]);
      SumCountsAll(us, tgts[1..]);
    }
  }

  lemma {:induction false} SumCountsEmpty(us: seq<int>)
    ensures SumCounts(us, []) == 0
  {
    if us != [] {
      SumCountsEmpty(us[1..]);
    }
  }

  lemma {:induction false} SumPriorsCounts(us: seq<int>, tgts: seq<int>, n: nat)
    requires forall k :: 0 <= k < |us| ==> us[k] in Priors(tgts, n)
    ensures SumPriors(us, Priors(tgts, n)) == SumCounts(us, tgts)
  {
    if us != [] {
      SumPriorsCounts(us[1..], tgts, n);
    }
  }

  /** The priors of a fit on N labels (and N rows) add up to exactly 1: all
      have denominator N and their numerators add up to N. */
  lemma PriorsSumToOne(tgts: seq<int>)
    requires tgts != []
    ensures forall u :: u in Priors(tgts, |tgts|) ==> Priors(tgts, |tgts|)[u].den == |tgts|
    ensures SumPriors(Unique(tgts), Priors(tgts, |tgts|)) == |tgts|
  {
    var us := Unique(tgts);
    SumPriorsCounts(us, tgts, |tgts|);
    SumCountsAll(us, tgts);
  }

  /** The keys are exactly the labels seen, and each prior is a fraction in
      (0, 1]: every label has at least one case and at most all of them. */
  lemma PriorsInRange(tgts: seq<int>, n: nat)
    ensures Priors(tgts, n).Keys == set t | t in tgts
    ensures forall u :: u in Priors(tgts, n) ==>
              0 < Priors(tgts, n)[u].num <= |tgts| && Priors(tgts, n)[u].den == n
  {
    forall u | u in Unique(tgts) ensures 0 < Count(tgts, u) <= |tgts| {
      CountPositive(tgts, u);
      CountBound(tgts, u);
    }
  }

  lemma {:induction false} CountBound(tgts: seq<int>, t: int)
    ensures Count(tgts, t) <= |tgts|
  {
    if tgts != [] {
      CountBound(tgts[1..], t);
    }
  }

  /** Labels [0, 0, 1, 1]: two labels, two cases each, so priors 2 / 4. */
  lemma LabelsExample()
    ensures Unique([0, 0, 1, 1]) == [0, 1]
    ensures Count([0, 0, 1, 1], 0) == 2 && Count([0, 0, 1, 1], 1) == 2
  {
    var s := [0, 0, 1, 1];
    assert s[1..] == [0, 1, 1] && s[1..][1..] == [1, 1] && s[1..][1..][1..] == [1];
    assert s[1..][1..][1..][1..] == [];
    assert Unique([1]) == Insert(1, []) == [1];
    assert Unique([1, 1]) == Insert(1, [1]) == [1];
    assert Unique([0, 1, 1]) == Insert(0, [1]) == [0, 1];
    assert Unique(s) == Insert(0, [0, 1]) == [0, 1];
    assert Count([1], 0) == 0 && Count([1], 1) == 1;
    assert Count([1, 1], 0) == 0 && Count([1, 1], 1) == 2;
    assert Count([0, 1, 1], 0) == 1 && Count([0, 1, 1], 1) == 2;
  }
}
