/** np.repeat along axis 0, when the counts already match the rows: row i of
    `xs` is written `counts[i]` times, in order. Shared by enumerate_outer and
    reweight. */
module NpRepeat {
  import opened Results

  /** The sequence holding `n` copies of `x`. */
  function Replicate<T>(x: T, n: nat): (r: seq<T>)
    ensures |r| == n
    ensures forall k :: 0 <= k < n ==> r[k] == x
  {
    seq(n, _ => x)
  }

  function Sum(cs: seq<nat>): nat
  {
    if cs == [] then 0 else cs[0] + Sum(cs[1..])
  }

  /** np.repeat(xs, counts, axis=0) for |xs| == |counts|: as many rows as the
      counts add up to, each of them one of the input rows. */
  function Repeat<T>(xs: seq<T>, counts: seq<nat>): (r: seq<T>)
    requires |xs| == |counts|
    ensures |r| == Sum(counts)
    ensures forall k :: 0 <= k < |r| ==> r[k] in xs
  {
    if xs == [] then [] else Replicate(xs[0], counts[0]) + Repeat(xs[1..], counts[1..])
  }

  /** All entries of `xs` are pairwise distinct. */
  ghost predicate Distinct<T>(xs: seq<T>)
  {
    forall i, j :: 0 <= i < j < |xs| ==> xs[i] != xs[j]
  }

  lemma {:induction false} SumSnoc(cs: seq<nat>, c: nat)
    ensures Sum(cs + [c]) == Sum(cs) + c
  {
    if cs != [] {
      assert (cs + [c])[1..] == cs[1..] + [c];
      SumSnoc(cs[1..], c);
    } else {
      assert cs + [c] == [c];
    }
  }

  lemma {:induction false} SumPrefixBound(cs: seq<nat>, i: nat)
    requires i < |cs|
    ensures Sum(cs[..i]) + cs[i] <= Sum(cs)
  {
    if i == 0 {
      assert cs[..0] == [];
    } else {
      assert cs[1..][..i - 1] == cs[..i][1..];
      SumPrefixBound(cs[1..], i - 1);
    }
  }

  /** Row i fills the block of positions starting at the sum of the counts
      before it: order is kept and the copies of one row are contiguous. */
  lemma {:induction false} RepeatAt<T>(xs: seq<T>, counts: seq<nat>, i: nat, j: nat)
    requires |xs| == |counts| && i < |xs| && j < counts[i]
    ensures Sum(counts[..i]) + j < |Repeat(xs, counts)|
    ensures Repeat(xs, counts)[Sum(counts[..i]) + j] == xs[i]
  {
    SumPrefixBound(counts, i);
    if i == 0 {
      assert counts[..0] == [];
    } else {
      assert counts[1..][..i - 1] == counts[..i][1..];
      RepeatAt(xs[1..], counts[1..], i - 1, j);
    }
  }

  /** Every entry of the output is one of the input rows. */
  lemma {:induction false} RepeatMember<T>(xs: seq<T>, counts: seq<nat>, k: nat)
    requires |xs| == |counts| && k < |Repeat(xs, counts)|
    ensures exists i :: 0 <= i < |xs| && counts[i] > 0 && Repeat(xs, counts)[k] == xs[i]
  {
    if k < counts[0] {
      assert Repeat(xs, counts)[k] == xs[0];
    } else {
      RepeatMember(xs[1..], counts[1..], k - counts[0]);
      var i :| 0 <= i < |xs[1..]| && counts[1..][i] > 0
               && Repeat(xs[1..], counts[1..])[k - counts[0]] == xs[1..][i];
      assert Repeat(xs, counts)[k] == xs[i + 1];
    }
  }

  lemma {:induction false} ReplicateCount<T>(x: T, n: nat, y: T)
    ensures multiset(Replicate(x, n))[y] == if x == y then n else 0
  {
    if n > 0 {
      assert Replicate(x, n) == [x] + Replicate(x, n - 1);
      ReplicateCount(x, n - 1, y);
    } else {
      assert Replicate(x, n) == [];
    }
  }

  lemma {:induction false} RepeatCountAbsent<T>(xs: seq<T>, counts: seq<nat>, y: T)
    requires |xs| == |counts| && y !in xs
    ensures multiset(Repeat(xs, counts))[y] == 0
  {
    if xs != [] {
      ReplicateCount(xs[0], counts[0], y);
      RepeatCountAbsent(xs[1..], counts[1..], y);
    }
  }

  /** With distinct rows, row i occurs exactly `counts[i]` times. */
  lemma {:induction false} RepeatCount<T>(xs: seq<T>, counts: seq<nat>, i: nat)
    requires |xs| == |counts| && Distinct(xs) && i < |xs|
    ensures multiset(Repeat(xs, counts))[xs[i]] == counts[i]
  {
    ReplicateCount(xs[0], counts[0], xs[i]);
    if i == 0 {
      assert xs[0] !in xs[1..] by {
        forall k | 0 <= k < |xs[1..]| ensures xs[1..][k] != xs[0] {
          assert xs[1..][k] == xs[k + 1];
        }
      }
      RepeatCountAbsent(xs[1..], counts[1..], xs[0]);
    } else {
      assert xs[1..][i - 1] == xs[i];
      RepeatCount(xs[1..], counts[1..], i - 1);
    }
  }

  /** The copies of row i are the contiguous block that starts after the
      copies of the rows before it. */
  lemma RepeatBlock<T>(xs: seq<T>, counts: seq<nat>, i: nat)
    requires |xs| == |counts| && i < |xs|
    ensures Sum(counts[..i]) + counts[i] <= |Repeat(xs, counts)|
    ensures Repeat(xs, counts)[Sum(counts[..i])..Sum(counts[..i]) + counts[i]]
            == Replicate(xs[i], counts[i])
  {
    SumPrefixBound(counts, i);
    var lo := Sum(counts[..i]);
    var block := Repeat(xs, counts)[lo..lo + counts[i]];
    forall j | 0 <= j < counts[i] ensures block[j] == xs[i] {
      RepeatAt(xs, counts, i, j);
    }
  }

  /** The counts as naturals, once none is negative. */
  function AsNats(cs: seq<int>): (r: seq<nat>)
    requires forall i :: 0 <= i < |cs| ==> cs[i] >= 0
    ensures |r| == |cs| && forall i :: 0 <= i < |cs| ==> r[i] == cs[i]
  {
    seq(|cs|, i requires 0 <= i < |cs| => cs[i] as nat)
  }

  /** np.repeat(xs, counts, axis=0) with numpy's checks: a single count is
      broadcast to every row; otherwise there must be one count per row; and
      no count may be negative. */
  function RepeatChecked<T>(xs: seq<T>, counts: seq<int>): (r: Result<seq<T>>)
    ensures r.Err? <==> (|counts| == 1 && counts[0] < 0) ||
                        (|counts| != 1 && |counts| != |xs|) ||
                        (|counts| == |xs| && exists i :: 0 <= i < |counts| && counts[i] < 0)
    ensures r.Ok? ==> forall k :: 0 <= k < |r.value| ==> r.value[k] in xs
  {
    if |counts| == 1 then
      if counts[0] < 0 then Err(NegativeRepeatCount)
      else Ok(Repeat(xs, Replicate(counts[0] as nat, |xs|)))
    else if |counts| != |xs| then Err(RepeatShapeMismatch)
    else if exists i :: 0 <= i < |counts| && counts[i] < 0 then Err(NegativeRepeatCount)
    else Ok(Repeat(xs, AsNats(counts)))
  }
}
