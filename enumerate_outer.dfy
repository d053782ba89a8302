/** enumerate_outer: the outer index of a sequence of sequences, repeated
    once per element of the inner sequence it names. */
module EnumerateOuter {
  import opened Results
  import opened NpRepeat

  /** map(len, outer_seq) */
  function Lengths<T>(outer: seq<seq<T>>): (r: seq<nat>)
    ensures |r| == |outer|
    ensures forall i :: 0 <= i < |outer| ==> r[i] == |outer[i]|
  {
    seq(|outer|, i requires 0 <= i < |outer| => |outer[i]|)
  }

  /** The indices 0, 1, ..., n - 1 that enumerate attaches. */
  function Indices(n: nat): (r: seq<nat>)
    ensures |r| == n
    ensures forall i :: 0 <= i < n ==> r[i] == i
  {
    seq(n, i => i)
  }

  /** np.repeat(*zip(*enumerate(map(len, outer_seq)))). With no inner
      sequences at all, zip(*[]) is empty and np.repeat receives no argument. */
  function EnumerateOuter<T>(outer: seq<seq<T>>): (r: Result<seq<nat>>)
    ensures r.Err? <==> outer == []
    ensures r.Err? ==> r.error == NoArguments
    ensures r.Ok? ==> |r.value| == Sum(Lengths(outer))
  {
    if outer == [] then Err(NoArguments) else Ok(Repeat(Indices(|outer|), Lengths(outer)))
  }

  /** Where the copies of outer index i start: the inner lengths before it. */
  function Offset<T>(outer: seq<seq<T>>, i: nat): nat
    requires i <= |outer|
  {
    Sum(Lengths(outer)[..i])
  }

  ghost predicate Nondecreasing(s: seq<nat>)
  {
    forall k1, k2 :: 0 <= k1 < k2 < |s| ==> s[k1] <= s[k2]
  }

  ghost predicate Increasing(s: seq<nat>)
  {
    forall k1, k2 :: 0 <= k1 < k2 < |s| ==> s[k1] < s[k2]
  }

  /** Repeating an increasing sequence gives a nondecreasing one. */
  lemma {:induction false} RepeatIncreasing(xs: seq<nat>, counts: seq<nat>)
    requires |xs| == |counts| && Increasing(xs)
    ensures Nondecreasing(Repeat(xs, counts))
  {
    if xs != [] {
      var head := Replicate(xs[0], counts[0]);
      var tail := Repeat<nat>(xs[1..], counts[1..]);
      RepeatIncreasing(xs[1..], counts[1..]);
      forall k | 0 <= k < |tail| ensures xs[0] < tail[k] {
        RepeatMember(xs[1..], counts[1..], k);
      }
      assert Repeat(xs, counts) == head + tail;
    }
  }

  /** Every entry is an index of the outer sequence of a non-empty inner one. */
  lemma EnumerateOuterIndices<T>(outer: seq<seq<T>>)
    requires outer != []
    ensures forall k :: 0 <= k < |EnumerateOuter(outer).value| ==>
              EnumerateOuter(outer).value[k] < |outer| &&
              outer[EnumerateOuter(outer).value[k]] != []
  {
    var xs, cs := Indices(|outer|), Lengths(outer);
    forall k | 0 <= k < |Repeat<nat>(xs, cs)|
      ensures Repeat<nat>(xs, cs)[k] < |outer| && outer[Repeat<nat>(xs, cs)[k]] != []
    {
      RepeatMember(xs, cs, k);
    }
  }

  /** The index list is nondecreasing. */
  lemma EnumerateOuterSorted<T>(outer: seq<seq<T>>)
    requires outer != []
    ensures Nondecreasing(EnumerateOuter(outer).value)
  {
    RepeatIncreasing(Indices(|outer|), Lengths(outer));
  }

  /** Outer index i occurs exactly |outer[i]| times. */
  lemma EnumerateOuterCounts<T>(outer: seq<seq<T>>)
    requires outer != []
    ensures forall i :: 0 <= i < |outer| ==>
              multiset(EnumerateOuter(outer).value)[i] == |outer[i]|
  {
    var xs, cs := Indices(|outer|), Lengths(outer);
    assert Distinct(xs);
    forall i | 0 <= i < |outer| ensures multiset(Repeat<nat>(xs, cs))[i] == |outer[i]| {
      RepeatCount(xs, cs, i);
    }
  }

  /** Those copies form one block, right after the copies of the indices
      before it. */
  lemma EnumerateOuterBlocks<T>(outer: seq<seq<T>>)
    requires outer != []
    ensures forall i :: 0 <= i < |outer| ==>
              Offset(outer, i) + |outer[i]| <= |EnumerateOuter(outer).value| &&
              EnumerateOuter(outer).value[Offset(outer, i)..Offset(outer, i) + |outer[i]|]
                == Replicate(i, |outer[i]|)
  {
    var xs, cs := Indices(|outer|), Lengths(outer);
    forall i | 0 <= i < |outer|
      ensures Offset(outer, i) + |outer[i]| <= |Repeat<nat>(xs, cs)| &&
              Repeat<nat>(xs, cs)[Offset(outer, i)..Offset(outer, i) + |outer[i]|]
                == Replicate(i, |outer[i]|)
    {
      RepeatBlock(xs, cs, i);
    }
  }

  /** A concrete case: [[7, 7, 7], [], [8, 8]] gives [0, 0, 0, 2, 2]. */
  lemma EnumerateOuterExample()
    ensures EnumerateOuter([[7, 7, 7], [], [8, 8]]) == Ok([0, 0, 0, 2, 2])
  {
    var outer: seq<seq<int>> := [[7, 7, 7], [], [8, 8]];
    var xs, cs := Indices(3), Lengths(outer);
    assert xs == [0, 1, 2] && cs == [3, 0, 2];
    assert xs[1..][1..] == [2] && cs[1..][1..] == [2];
    assert Repeat<nat>(xs[1..][1..][1..], cs[1..][1..][1..]) == [];
    assert Repeat<nat>(xs[1..][1..], cs[1..][1..]) == [2, 2];
    assert Repeat<nat>(xs[1..], cs[1..]) == [2, 2];
    assert Repeat<nat>(xs, cs) == [0, 0, 0] + [2, 2] == [0, 0, 0, 2, 2];
    assert EnumerateOuter(outer) == Ok(Repeat<nat>(xs, cs));
  }
}
