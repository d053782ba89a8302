/** reweight, from the integer counts on: the counts are reduced by their
    greatest common divisor (functools.reduce over math.gcd), and each example
    is repeated as often as its reduced count says. */
module Reweight {
  import opened Results
  import opened NpRepeat

  ghost predicate Divides(d: int, n: int)
  {
    exists k :: n == d * k
  }

  function Abs(x: int): nat
  {
    if x < 0 then -x else x
  }

  /** Euclid's algorithm on naturals: zero only when both arguments are. */
  function Gcd(a: nat, b: nat): (r: nat)
    decreases b
    ensures r == 0 <==> a == 0 && b == 0
  {
    if b == 0 then a else Gcd(b, a % b)
  }

  /** math.gcd(a, b): the gcd of the absolute values, never negative, and
      zero only for gcd(0, 0). */
  function PyGcd(a: int, b: int): (r: nat)
    ensures r == 0 <==> a == 0 && b == 0
  {
    Gcd(Abs(a), Abs(b))
  }

  /** functools.reduce(gcd, counts): a left fold with no initial value, so a
      single count comes back as it is, sign included. Over two or more counts
      it is math.gcd's value, never negative. It is zero exactly when every
      count is. */
  function ReduceGcd(cs: seq<int>): (r: int)
    requires |cs| >= 1
    ensures |cs| >= 2 ==> r >= 0
    ensures r == 0 <==> forall i :: 0 <= i < |cs| ==> cs[i] == 0
  {
    if |cs| == 1 then cs[0] else PyGcd(ReduceGcd(cs[..|cs| - 1]), cs[|cs| - 1])
  }

  /** numpy's `//` on int64: floor division, and 0 for a zero divisor. */
  function FloorDiv(a: int, b: int): (q: int)
    ensures b > 0 ==> b * q <= a < b * q + b
    ensures b < 0 ==> b * q + b < a <= b * q
    ensures b == 0 ==> q == 0
  {
    if b == 0 then 0 else if b > 0 then a / b else (-a) / (-b)
  }

  /** counts // our_gcd */
  function Reduced(counts: seq<int>): (r: seq<int>)
    requires |counts| >= 1
    ensures |r| == |counts|
  {
    var g := ReduceGcd(counts);
    seq(|counts|, i requires 0 <= i < |counts| => FloorDiv(counts[i], g))
  }

  /** reweight from line 262 on: the reduced counts go to np.repeat. No
      counts is the TypeError of a reduce without initial value, and every row
      of a result is one of the examples. */
  function Reweight<T>(examples: seq<T>, counts: seq<int>): (r: Result<seq<T>>)
    ensures counts == [] ==> r == Err(EmptyReduce)
    ensures r.Ok? ==> forall k :: 0 <= k < |r.value| ==> r.value[k] in examples
  {
    if counts == [] then Err(EmptyReduce) else RepeatChecked(examples, Reduced(counts))
  }

  // ---- arithmetic helpers ----

  lemma MulSign(a: int, b: int)
    ensures a > 0 && b > 0 ==> a * b > 0
    ensures a < 0 && b < 0 ==> a * b > 0
    ensures a > 0 && b < 0 ==> a * b < 0
    ensures a < 0 && b > 0 ==> a * b < 0
    ensures a >= 0 && b >= 0 ==> a * b >= 0
  {
  }

  lemma MulAtLeast(a: int, b: int)
    ensures a >= 0 && b >= 1 ==> a * b >= a
  {
    MulSign(a, b - 1);
    assert a * b == a * (b - 1) + a;
  }

  lemma MulZero(a: int, b: int)
    requires a * b == 0 && a != 0
    ensures b == 0
  {
    MulSign(a, b);
  }

  /** A nonnegative factor of 1 is 1. */
  lemma UnitFactor(h: int, t: int)
    requires h >= 0 && h * t == 1
    ensures h == 1
  {
    MulSign(h, t);
    MulAtLeast(t, h);
    assert t * h == h * t;
  }

  /** Exact division: (g * k) / g == k. */
  lemma DivExact(g: int, k: int)
    requires g > 0
    ensures (g * k) / g == k
  {
    var q, r := (g * k) / g, (g * k) % g;
    assert g * k == g * q + r && 0 <= r < g;
    assert g * (k - q) == r;
    MulAtLeast(g, k - q);
    MulSign(g, k - q);
  }

  lemma DividesLinear(d: int, x: int, y: int, c: int)
    requires Divides(d, x) && Divides(d, y)
    ensures Divides(d, x + c * y)
  {
    var kx :| x == d * kx;
    var ky :| y == d * ky;
    assert c * y == d * (c * ky) by {
      calc {
        c * y;
        c * (d * ky);
        (c * d) * ky;
        (d * c) * ky;
        d * (c * ky);
      }
    }
    assert x + c * y == d * (kx + c * ky);
  }

  lemma DividesAbs(d: int, x: int)
    ensures Divides(d, x) <==> Divides(d, Abs(x))
  {
    if Divides(d, x) {
      var k :| x == d * k;
      assert Abs(x) == d * (if x < 0 then -k else k);
    }
    if Divides(d, Abs(x)) {
      var k :| Abs(x) == d * k;
      assert x == d * (if x < 0 then -k else k);
    }
  }

  lemma DividesTrans(a: int, b: int, c: int)
    requires Divides(a, b) && Divides(b, c)
    ensures Divides(a, c)
  {
    var k1 :| b == a * k1;
    var k2 :| c == b * k2;
    assert c == a * (k1 * k2);
  }

  // ---- the gcd ----

  /** Euclid's result divides both arguments. */
  lemma {:induction false} GcdDivides(a: nat, b: nat)
    ensures Divides(Gcd(a, b), a) && Divides(Gcd(a, b), b)
    decreases b
  {
    var g := Gcd(a, b);
    if b == 0 {
      assert a == g * 1 && b == g * 0;
    } else {
      GcdDivides(b, a % b);
      assert a == a % b + (a / b) * b;
      DividesLinear(g, a % b, b, a / b);
    }
  }

  /** Every common divisor divides Euclid's result. */
  lemma {:induction false} GcdGreatest(a: nat, b: nat, d: int)
    requires Divides(d, a) && Divides(d, b)
    ensures Divides(d, Gcd(a, b))
    decreases b
  {
    if b != 0 {
      assert a % b == a + (-(a / b)) * b;
      DividesLinear(d, a, b, -(a / b));
      GcdGreatest(b, a % b, d);
    }
  }

  /** The fold divides every count. */
  lemma {:induction false} ReduceGcdDivides(cs: seq<int>)
    requires |cs| >= 1
    ensures forall i :: 0 <= i < |cs| ==> Divides(ReduceGcd(cs), cs[i])
  {
    var g := ReduceGcd(cs);
    if |cs| == 1 {
      assert cs[0] == g * 1;
    } else {
      var init, last := cs[..|cs| - 1], cs[|cs| - 1];
      var h := ReduceGcd(init);
      ReduceGcdDivides(init);
      GcdDivides(Abs(h), Abs(last));
      DividesAbs(g, h);
      DividesAbs(g, last);
      forall i | 0 <= i < |cs| ensures Divides(g, cs[i]) {
        if i < |cs| - 1 {
          assert cs[i] == init[i];
          DividesTrans(g, h, cs[i]);
        }
      }
    }
  }

  /** Every common divisor of the counts divides the fold. */
  lemma {:induction false} ReduceGcdGreatest(cs: seq<int>, d: int)
    requires |cs| >= 1
    requires forall i :: 0 <= i < |cs| ==> Divides(d, cs[i])
    ensures Divides(d, ReduceGcd(cs))
  {
    if |cs| > 1 {
      var init, last := cs[..|cs| - 1], cs[|cs| - 1];
      assert forall i :: 0 <= i < |init| ==> init[i] == cs[i];
      ReduceGcdGreatest(init, d);
      DividesAbs(d, ReduceGcd(init));
      DividesAbs(d, last);
      GcdGreatest(Abs(ReduceGcd(init)), Abs(last), d);
    }
  }

  // ---- what reweight promises ----

  /** The gcd step is exact: each reduced count times the gcd gives back the
      original count. */
  lemma ReducedExact(counts: seq<int>)
    requires |counts| >= 1
    ensures forall i :: 0 <= i < |counts| ==>
              ReduceGcd(counts) * Reduced(counts)[i] == counts[i]
  {
    var g, r := ReduceGcd(counts), Reduced(counts);
    ReduceGcdDivides(counts);
    forall i | 0 <= i < |counts| ensures g * r[i] == counts[i] {
      var k :| counts[i] == g * k;
      if g > 0 {
        DivExact(g, k);
      } else if g < 0 {
        assert counts[i] == (-g) * (-k);
        DivExact(-g, -k);
      }
    }
  }

  /** With a zero gcd every count was zero and reduces to zero. */
  lemma ReducedZero(counts: seq<int>)
    requires |counts| >= 1 && ReduceGcd(counts) == 0
    ensures forall i :: 0 <= i < |counts| ==> counts[i] == 0 && Reduced(counts)[i] == 0
  {
    ReduceGcdDivides(counts);
    forall i | 0 <= i < |counts| ensures counts[i] == 0 {
      var k :| counts[i] == 0 * k;
    }
  }

  lemma ProductDivides(g: int, h: int, x: int, c: int)
    requires c == g * x && Divides(h, x)
    ensures Divides(g * h, c)
  {
    var m :| x == h * m;
    assert c == (g * h) * m;
  }

  /** If g * h divides g and g is not zero, h * t == 1 for some t. */
  lemma CancelDivisor(g: int, h: int)
    requires g != 0 && Divides(g * h, g)
    ensures exists t :: h * t == 1
  {
    var t :| g == (g * h) * t;
    assert g * (h * t - 1) == 0;
    MulZero(g, h * t - 1);
  }

  /** When some count is nonzero, the reduced counts have gcd 1: nothing more
      can be trimmed. */
  lemma ReducedCoprime(counts: seq<int>)
    requires |counts| >= 1
    requires exists i :: 0 <= i < |counts| && counts[i] != 0
    ensures ReduceGcd(Reduced(counts)) == 1
  {
    var g, r := ReduceGcd(counts), Reduced(counts);
    if g == 0 {
      ReducedZero(counts);
      assert false;
    }
    if |r| == 1 {
      assert r[0] == FloorDiv(counts[0], counts[0]) == 1;
    } else {
      ReducedExact(counts);
      var h := ReduceGcd(r);
      ReduceGcdDivides(r);
      forall i | 0 <= i < |counts| ensures Divides(g * h, counts[i]) {
        ProductDivides(g, h, r[i], counts[i]);
      }
      ReduceGcdGreatest(counts, g * h);
      CancelDivisor(g, h);
      var t :| h * t == 1;
      UnitFactor(h, t);
    }
  }

  /** When reweight fails, and what it returns otherwise: example i repeated
      (reduced count i) times, in the original order, as many rows as the
      reduced counts add up to. A single count is broadcast to every example. */
  lemma ReweightSpec<T>(examples: seq<T>, counts: seq<int>)
    ensures counts == [] ==> Reweight(examples, counts) == Err(EmptyReduce)
    ensures |counts| >= 2 ==>
              (Reweight(examples, counts).Err? <==>
                 |counts| != |examples| ||
                 exists i :: 0 <= i < |counts| && counts[i] < 0)
    ensures |counts| >= 2 && |counts| == |examples| &&
            (forall i :: 0 <= i < |counts| ==> counts[i] >= 0) ==>
              forall i :: 0 <= i < |counts| ==> Reduced(counts)[i] >= 0
    ensures |counts| >= 2 && Reweight(examples, counts).Ok? ==>
              var reduced := AsNats(Reduced(counts));
              Reweight(examples, counts).value == Repeat(examples, reduced) &&
              |Reweight(examples, counts).value| == Sum(reduced)
  {
    if |counts| >= 2 {
      var g, r := ReduceGcd(counts), Reduced(counts);
      ReducedExact(counts);
      forall i | 0 <= i < |counts| ensures (r[i] < 0 <==> counts[i] < 0) {
        if g == 0 {
          ReducedZero(counts);
        } else if r[i] < 0 {
          MulSign(g, r[i]);
        } else {
          MulSign(g, r[i]);
        }
      }
    }
  }

  /** A single count (a single weight) never fails and keeps every example
      once, or drops them all when the count is zero. */
  lemma ReweightSingle<T>(examples: seq<T>, c: int)
    ensures Reweight(examples, [c]) == Ok(if c == 0 then [] else examples)
  {
    var r := Reduced([c]);
    assert r[0] == (if c == 0 then 0 else 1);
    RepeatOnce(examples, if c == 0 then 0 else 1);
  }

  lemma {:induction false} RepeatOnce<T>(xs: seq<T>, c: nat)
    requires c <= 1
    ensures Repeat(xs, Replicate(c, |xs|)) == if c == 0 then [] else xs
  {
    if xs != [] {
      assert Replicate(c, |xs|)[1..] == Replicate(c, |xs| - 1);
      RepeatOnce(xs[1..], c);
      if c == 1 {
        assert Replicate(xs[0], 1) == [xs[0]];
        assert [xs[0]] + xs[1..] == xs;
      }
    }
  }

  /** The examples [1, 10, 20] of the usage left in comments beside reweight,
      with counts 2, 4, 6: the gcd 2 trims them to 1, 2, 3. */
  lemma ReweightExample()
    ensures Reweight([1, 10, 20], [2, 4, 6]) == Ok([1, 10, 10, 20, 20, 20])
  {
    var counts := [2, 4, 6];
    assert counts[..2][..1] == [2] && counts[..2] == [2, 4];
    assert ReduceGcd([2]) == 2;
    assert Gcd(2, 4) == 2 by { assert Gcd(4, 2) == Gcd(2, 0) == 2; }
    assert ReduceGcd([2, 4]) == 2;
    assert Gcd(2, 6) == 2 by { assert Gcd(6, 2) == Gcd(2, 0) == 2; }
    assert ReduceGcd(counts) == 2;
    var r := Reduced(counts);
    assert r == [1, 2, 3];
    var xs: seq<int> := [1, 10, 20];
    var cs := AsNats(r);
    assert cs == [1, 2, 3];
    assert Repeat(xs[2..], cs[2..]) == [20, 20, 20] by {
      assert Repeat(xs[2..][1..], cs[2..][1..]) == [];
    }
    assert Repeat(xs[1..], cs[1..]) == [10, 10] + [20, 20, 20];
    assert Repeat(xs, cs) == [1] + [10, 10, 20, 20, 20] == [1, 10, 10, 20, 20, 20];
    assert forall i :: 0 <= i < |r| ==> r[i] >= 0;
    assert RepeatChecked(xs, r) == Ok(Repeat(xs, cs));
    assert Reweight(xs, counts) == RepeatChecked(xs, r);
  }
}
