/** np_cartesian_product: the table of all combinations of the input arrays,
    one row per combination, built by stacking the np.meshgrid of the arrays
    and reshaping it to rows. */
module CartesianProduct {
  import opened Results

  /** Each row with `x` put in front. */
  function Prepend<T>(x: T, rows: seq<seq<T>>): (r: seq<seq<T>>)
    ensures |r| == |rows|
    ensures forall k :: 0 <= k < |rows| ==> r[k] == [x] + rows[k]
  {
    seq(|rows|, k requires 0 <= k < |rows| => [x] + rows[k])
  }

  /** Every element of `xs` in turn, in front of every row: the element
      changes slowest. */
  function Extend<T>(xs: seq<T>, rows: seq<seq<T>>): seq<seq<T>>
  {
    if xs == [] then [] else Prepend(xs[0], rows) + Extend(xs[1..], rows)
  }

  /** All combinations in C order (the last array varies fastest): the rows of
      a grid of shape (n0, n1, ...) reshaped to (-1, ndim). */
  function RowMajor<T>(arrays: seq<seq<T>>): (r: seq<seq<T>>)
    ensures forall k :: 0 <= k < |r| ==> |r[k]| == |arrays|
  {
    if arrays == [] then [[]]
    else
      var rest := RowMajor(arrays[1..]);
      var r := Extend(arrays[0], rest);
      assert forall k :: 0 <= k < |r| ==> |r[k]| == |arrays| by {
        forall k | 0 <= k < |r| ensures |r[k]| == |arrays| {
          ExtendRow(arrays[0], rest, k);
        }
      }
      r
  }

  /** Exchange of the first two entries, which is what meshgrid's default
      'xy' indexing does to the axes of its grids. */
  function SwapFirstTwo<T>(s: seq<T>): (r: seq<T>)
    requires |s| >= 2
    ensures |r| == |s| && r[0] == s[1] && r[1] == s[0] && r[2..] == s[2..]
  {
    [s[1], s[0]] + s[2..]
  }

  /** np.stack(np.meshgrid(*arrays), axis=-1).reshape(-1, ndim). With two or
      more arrays the grids have shape (n1, n0, n2, ...): the rows run over
      the arrays in the order a1, a0, a2, ..., the last fastest. */
  function CartesianProduct<T>(arrays: seq<seq<T>>): (r: Result<seq<seq<T>>>)
    ensures r.Err? <==> arrays == []
    ensures r.Err? ==> r.error == NothingToStack
    ensures r.Ok? ==> forall k :: 0 <= k < |r.value| ==> |r.value[k]| == |arrays|
  {
    if arrays == [] then Err(NothingToStack)
    else if |arrays| == 1 then Ok(RowMajor(arrays))
    else
      var grid := RowMajor(SwapFirstTwo(arrays));
      Ok(seq(|grid|, k requires 0 <= k < |grid| => SwapFirstTwo(grid[k])))
  }

  /** The number of combinations: the product of the lengths. */
  function Combinations<T>(arrays: seq<seq<T>>): nat
  {
    if arrays == [] then 1 else |arrays[0]| * Combinations(arrays[1..])
  }

  /** A row that takes its j-th entry from the j-th array, for every j. */
  ghost predicate IsCombination<T>(r: seq<T>, arrays: seq<seq<T>>)
  {
    |r| == |arrays| && forall j :: 0 <= j < |r| ==> r[j] in arrays[j]
  }

  lemma MulStep(a: nat, n: nat)
    ensures (a + 1) * n == n + a * n
  {
  }

  lemma MulSwap(a: nat, b: nat, c: nat)
    ensures a * (b * c) == b * (a * c)
  {
    calc {
      a * (b * c);
      (a * b) * c;
      (b * a) * c;
      b * (a * c);
    }
  }

  lemma MulMonotone(a: nat, b: nat, n: nat)
    requires a <= b
    ensures a * n <= b * n
  {
    var d: nat := b - a;
    assert b * n == a * n + d * n;
  }

  lemma {:induction false} ExtendLength<T>(xs: seq<T>, rows: seq<seq<T>>)
    ensures |Extend(xs, rows)| == |xs| * |rows|
  {
    if xs != [] {
      ExtendLength(xs[1..], rows);
      MulStep(|xs| - 1, |rows|);
    }
  }

  /** Row i * |rows| + q of Extend is element i of `xs` in front of row q. */
  lemma {:induction false} ExtendAt<T>(xs: seq<T>, rows: seq<seq<T>>, i: nat, q: nat)
    requires i < |xs| && q < |rows|
    ensures i * |rows| + q < |Extend(xs, rows)|
    ensures Extend(xs, rows)[i * |rows| + q] == [xs[i]] + rows[q]
  {
    ExtendLength(xs, rows);
    MulStep(i, |rows|);
    MulMonotone(i + 1, |xs|, |rows|);
    if i > 0 {
      ExtendAt(xs[1..], rows, i - 1, q);
      MulStep(i - 1, |rows|);
      assert Extend(xs, rows)[i * |rows| + q] == Extend(xs[1..], rows)[(i - 1) * |rows| + q];
    }
  }

  /** Every row of Extend is an element of `xs` in front of one of the rows. */
  lemma {:induction false} ExtendRow<T>(xs: seq<T>, rows: seq<seq<T>>, k: nat)
    requires k < |Extend(xs, rows)|
    ensures |Extend(xs, rows)[k]| >= 1
    ensures Extend(xs, rows)[k][0] in xs && Extend(xs, rows)[k][1..] in rows
  {
    if k >= |rows| {
      ExtendRow(xs[1..], rows, k - |rows|);
      assert Extend(xs, rows)[k] == Extend(xs[1..], rows)[k - |rows|];
    } else {
      assert Extend(xs, rows)[k][1..] == rows[k];
    }
  }

  lemma ExtendMember<T>(xs: seq<T>, rows: seq<seq<T>>, r: seq<T>)
    ensures r in Extend(xs, rows) <==> |r| >= 1 && r[0] in xs && r[1..] in rows
  {
    var e := Extend(xs, rows);
    if r in e {
      var k :| 0 <= k < |e| && e[k] == r;
      ExtendRow(xs, rows, k);
    }
    if |r| >= 1 && r[0] in xs && r[1..] in rows {
      var i :| 0 <= i < |xs| && xs[i] == r[0];
      var q :| 0 <= q < |rows| && rows[q] == r[1..];
      ExtendAt(xs, rows, i, q);
      assert e[i * |rows| + q] == [r[0]] + r[1..] == r;
    }
  }

  lemma {:induction false} RowMajorLength<T>(arrays: seq<seq<T>>)
    ensures |RowMajor(arrays)| == Combinations(arrays)
  {
    if arrays != [] {
      RowMajorLength(arrays[1..]);
      ExtendLength(arrays[0], RowMajor(arrays[1..]));
    }
  }

  /** C order holds every combination, and nothing else. */
  lemma {:induction false} RowMajorMember<T>(arrays: seq<seq<T>>, r: seq<T>)
    ensures r in RowMajor(arrays) <==> IsCombination(r, arrays)
  {
    if arrays == [] {
      assert RowMajor(arrays) == [[]];
    } else {
      var rest := RowMajor(arrays[1..]);
      ExtendMember(arrays[0], rest, r);
      if |r| >= 1 {
        RowMajorMember(arrays[1..], r[1..]);
        if IsCombination(r[1..], arrays[1..]) && r[0] in arrays[0] {
          forall j | 0 <= j < |r| ensures r[j] in arrays[j] {
            if j > 0 {
              assert r[1..][j - 1] == r[j];
            }
          }
        }
        if IsCombination(r, arrays) {
          forall j | 0 <= j < |r[1..]| ensures r[1..][j] in arrays[1..][j] {
            assert r[1..][j] == r[j + 1];
          }
        }
      }
    }
  }

  /** Swapping the first two arrays does not change the number of
      combinations. */
  lemma SwapCombinations<T>(arrays: seq<seq<T>>)
    requires |arrays| >= 2
    ensures Combinations(SwapFirstTwo(arrays)) == Combinations(arrays)
  {
    var s := SwapFirstTwo(arrays);
    var n0, n1, p := |arrays[0]|, |arrays[1]|, Combinations(arrays[2..]);
    assert s[1..][1..] == arrays[2..] == arrays[1..][1..];
    assert Combinations(s) == n1 * (n0 * p);
    assert Combinations(arrays) == n0 * (n1 * p);
    MulSwap(n1, n0, p);
  }

  /** There is one row per combination: the product of the lengths. */
  lemma CartesianProductShape<T>(arrays: seq<seq<T>>)
    requires arrays != []
    ensures |CartesianProduct(arrays).value| == Combinations(arrays)
  {
    if |arrays| == 1 {
      RowMajorLength(arrays);
    } else if |arrays| >= 2 {
      RowMajorLength(SwapFirstTwo(arrays));
      SwapCombinations(arrays);
    }
  }

  /** Every row takes its j-th entry from the j-th array, and every such
      combination is a row. */
  lemma CartesianProductMember<T>(arrays: seq<seq<T>>, r: seq<T>)
    requires arrays != []
    ensures r in CartesianProduct(arrays).value <==> IsCombination(r, arrays)
  {
    if |arrays| == 1 {
      RowMajorMember(arrays, r);
    } else {
      var sa := SwapFirstTwo(arrays);
      var grid := RowMajor(sa);
      var rows := CartesianProduct(arrays).value;
      if r in rows {
        var k :| 0 <= k < |rows| && rows[k] == r;
        var q := grid[k];
        assert q in grid;
        RowMajorMember(sa, q);
        forall j | 0 <= j < |r| ensures r[j] in arrays[j] {
          if j >= 2 {
            assert r[j] == r[2..][j - 2] == q[2..][j - 2] == q[j];
            assert sa[j] == sa[2..][j - 2] == arrays[2..][j - 2] == arrays[j];
          }
        }
      }
      if IsCombination(r, arrays) {
        var q := SwapFirstTwo(r);
        forall j | 0 <= j < |q| ensures q[j] in sa[j] {
          if j >= 2 {
            assert q[j] == q[2..][j - 2] == r[2..][j - 2] == r[j];
            assert sa[j] == sa[2..][j - 2] == arrays[2..][j - 2] == arrays[j];
          }
        }
        RowMajorMember(sa, q);
        var k :| 0 <= k < |grid| && grid[k] == q;
        assert SwapFirstTwo(q) == r;
        assert rows[k] == r;
      }
    }
  }

  /** With one array, row k is its k-th element alone. */
  lemma CartesianProductSingle<T>(a0: seq<T>)
    ensures |CartesianProduct([a0]).value| == |a0|
    ensures forall k :: 0 <= k < |a0| ==> CartesianProduct([a0]).value[k] == [a0[k]]
  {
    assert [a0][1..] == [];
    var e := RowMajor([a0]);
    assert RowMajor<T>([]) == [[]];
    assert e == Extend(a0, [[]]);
    ExtendLength(a0, [[]]);
    forall k | 0 <= k < |a0| ensures e[k] == [a0[k]] {
      ExtendAt(a0, [[]], k, 0);
    }
  }

  /** k splits into the quotient and remainder by n0, within the grid. */
  lemma DivBound(k: nat, n0: nat, n1: nat)
    requires k < n0 * n1
    ensures n0 > 0 && k / n0 < n1 && k % n0 < n0 && k == (k / n0) * n0 + k % n0
  {
    MulZeroLeft(n0, n1);
    var i := k / n0;
    MulMonotoneIf(n1, i, n0);
    assert n1 * n0 == n0 * n1;
  }

  lemma MulZeroLeft(a: nat, b: nat)
    ensures a == 0 ==> a * b == 0
  {
  }

  lemma MulMonotoneIf(a: nat, b: nat, n: nat)
    ensures a <= b ==> a * n <= b * n
  {
    if a <= b {
      MulMonotone(a, b, n);
    }
  }

  lemma PairGrid<T>(a0: seq<T>, a1: seq<T>)
    ensures RowMajor([a1, a0]) == Extend(a1, RowMajor([a0]))
    ensures SwapFirstTwo([a0, a1]) == [a1, a0]
  {
    assert [a1, a0][1..] == [a0];
  }

  /** Row k of the C-ordered grid over (a1, a0). */
  lemma PairGridAt<T>(a0: seq<T>, a1: seq<T>, k: nat)
    requires k < |a0| * |a1|
    ensures k < |RowMajor([a1, a0])|
    ensures RowMajor([a1, a0])[k] == [a1[k / |a0|], a0[k % |a0|]]
  {
    DivBound(k, |a0|, |a1|);
    var i, q := k / |a0|, k % |a0|;
    CartesianProductSingle(a0);
    PairGrid(a0, a1);
    ExtendAt(a1, RowMajor([a0]), i, q);
  }

  lemma PairLength<T>(a0: seq<T>, a1: seq<T>)
    ensures SwapFirstTwo([a0, a1]) == [a1, a0]
    ensures |RowMajor([a1, a0])| == |a0| * |a1|
  {
    PairGrid(a0, a1);
    CartesianProductSingle(a0);
    ExtendLength(a1, RowMajor([a0]));
    assert |a1| * |a0| == |a0| * |a1|;
  }

  /** With two arrays the first varies fastest: row k is
      (a0[k mod n0], a1[k div n0]). */
  lemma CartesianProductPairAt<T>(a0: seq<T>, a1: seq<T>)
    ensures |CartesianProduct([a0, a1]).value| == |a0| * |a1|
    ensures forall k :: 0 <= k < |a0| * |a1| ==>
              CartesianProduct([a0, a1]).value[k] == [a0[k % |a0|], a1[k / |a0|]]
  {
    var grid := RowMajor([a1, a0]);
    PairLength(a0, a1);
    var rows := CartesianProduct([a0, a1]).value;
    assert rows == seq(|grid|, k requires 0 <= k < |grid| => SwapFirstTwo(grid[k]));
    forall k | 0 <= k < |a0| * |a1| ensures rows[k] == [a0[k % |a0|], a1[k / |a0|]] {
      PairGridAt(a0, a1, k);
      assert rows[k] == SwapFirstTwo(grid[k]);
    }
  }
}
