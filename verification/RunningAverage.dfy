/** The motor's running average: a ring of ten slots, and an average that is
    carried into its own next sum. */
module RunningAverage {
  import opened Bytes

  const MEAN_SAMPLE_SIZE: nat := 10

  /** The ring has ten slots, but the last one is never stored to. */
  predicate Ring(speeds: seq<nat>) {
    |speeds| == MEAN_SAMPLE_SIZE && speeds[9] == 0
  }

  function Sum(speeds: seq<nat>): nat {
    if speeds == [] then 0 else Sum(speeds[..|speeds| - 1]) + speeds[|speeds| - 1]
  }

  /** The slot written is one below the counter modulo ten; when that is below
      the ring, the sample is not stored in it. */
  function Stored(speeds: seq<nat>, i: nat, rpm: nat): (s: seq<nat>)
    requires Ring(speeds)
    ensures Ring(s)
  {
    var k := i % MEAN_SAMPLE_SIZE;
    if k == 0 then speeds else speeds[k - 1 := rpm]
  }

  function NextAverage(average: real, speeds: seq<nat>): real {
    (average + Sum(speeds) as real) / 10.0
  }

  /** The 32-bit sample counter. */
  function NextIndex(i: nat): nat {
    (i + 1) % 0x1_0000_0000
  }

  datatype Filter = Filter(average: real, speeds: seq<nat>, i: nat)

  function Step(f: Filter, rpm: nat): Filter
    requires Ring(f.speeds)
  {
    var speeds := Stored(f.speeds, f.i, rpm);
    Filter(NextAverage(f.average, speeds), speeds, NextIndex(f.i))
  }

  function Run(f: Filter, rpms: seq<nat>): (g: Filter)
    requires Ring(f.speeds)
    ensures Ring(g.speeds)
    decreases rpms
  {
    if rpms == [] then f else Run(Step(f, rpms[0]), rpms[1..])
  }

  predicate AtMost(vs: seq<nat>, max: nat) {
    forall k :: 0 <= k < |vs| ==> vs[k] <= max
  }

  lemma {:induction false} SumBound(speeds: seq<nat>, max: nat)
    requires AtMost(speeds, max)
    ensures Sum(speeds) <= |speeds| * max
  {
    if speeds != [] {
      var n := |speeds| - 1;
      SumBound(speeds[..n], max);
      assert (n + 1) * max == n * max + max;
    }
  }

  predicate Bounded(f: Filter, max: nat) {
    Ring(f.speeds) && 0.0 <= f.average <= max as real && AtMost(f.speeds, max)
  }

  lemma {:induction false} StepBounded(f: Filter, rpm: nat, max: nat)
    requires Bounded(f, max) && rpm <= max
    ensures Bounded(Step(f, rpm), max)
  {
    var speeds := Stored(f.speeds, f.i, rpm);
    SumBound(speeds[..9], max);
    assert Sum(speeds) == Sum(speeds[..9]) + 0;
    assert (f.average + Sum(speeds) as real) <= max as real + 9.0 * max as real;
  }

  /** Samples between 0 and a maximum keep the average between 0 and that
      maximum, forever: only nine of the ten slots ever hold a sample. */
  lemma {:induction false} AverageStaysBounded(f: Filter, rpms: seq<nat>, max: nat)
    requires Bounded(f, max) && AtMost(rpms, max)
    ensures Bounded(Run(f, rpms), max)
    decreases rpms
  {
    if rpms != [] {
      StepBounded(f, rpms[0], max);
      AverageStaysBounded(Step(f, rpms[0]), rpms[1..], max);
    }
  }

  /** The window holds the constant r. */
  predicate Constant(speeds: seq<nat>, r: nat) {
    Ring(speeds) && forall j :: 0 <= j < 9 ==> speeds[j] == r
  }

  lemma {:induction false} SumConstant(speeds: seq<nat>, r: nat)
    requires forall j :: 0 <= j < |speeds| ==> speeds[j] == r
    ensures Sum(speeds) == |speeds| * r
  {
    if speeds != [] {
      var n := |speeds| - 1;
      SumConstant(speeds[..n], r);
      assert (n + 1) * r == n * r + r;
    }
  }

  /** x divided by ten n times */
  function Tenth(x: real, n: nat): real
    decreases n
  {
    if n == 0 then x else Tenth(x / 10.0, n - 1)
  }

  function Absolute(x: real): real {
    if x < 0.0 then -x else x
  }

  lemma {:induction false} TenthKeepsOrder(x: real, y: real, n: nat)
    requires Absolute(x) <= y
    ensures Absolute(Tenth(x, n)) <= Tenth(y, n)
    ensures y > 0.0 ==> Tenth(y, n) > 0.0
    decreases n
  {
    if n > 0 {
      TenthKeepsOrder(x / 10.0, y / 10.0, n - 1);
    }
  }

  function Error(f: Filter, r: nat): real {
    f.average - r as real
  }

  lemma {:induction false} StepConstant(f: Filter, r: nat)
    requires Constant(f.speeds, r)
    ensures var g := Step(f, r);
      Constant(g.speeds, r) && Error(g, r) == Error(f, r) / 10.0
  {
    var speeds := Stored(f.speeds, f.i, r);
    assert Constant(speeds, r);
    SumConstant(speeds[..9], r);
    assert Sum(speeds) == Sum(speeds[..9]) + 0;
  }

  predicate AllEqual(rpms: seq<nat>, r: nat) {
    forall k :: 0 <= k < |rpms| ==> rpms[k] == r
  }

  /** Once the window holds a constant, the error of the average shrinks by a
      factor of exactly ten per sample. */
  lemma {:induction false} ErrorShrinksTenfold(f: Filter, rpms: seq<nat>, r: nat)
    requires Constant(f.speeds, r) && AllEqual(rpms, r)
    ensures var g := Run(f, rpms);
      Constant(g.speeds, r) && Error(g, r) == Tenth(Error(f, r), |rpms|)
    decreases rpms
  {
    if rpms != [] {
      var f' := Step(f, r);
      StepConstant(f, r);
      ErrorShrinksTenfold(f', rpms[1..], r);
    }
  }

  lemma {:induction false} StoredConstant(f: Filter, r: nat, j: nat)
    requires Ring(f.speeds) && j < 9
    ensures f.speeds[j] == r || f.i % 10 == j + 1 ==> Step(f, r).speeds[j] == r
  {}

  /** A slot that holds r, or that one of the samples (the k-th) goes to. */
  lemma {:induction false} SlotFilled(f: Filter, rpms: seq<nat>, r: nat, j: nat, k: nat)
    requires Ring(f.speeds) && AllEqual(rpms, r) && j < 9
    requires f.i + |rpms| <= 0x1_0000_0000
    requires f.speeds[j] == r || (k < |rpms| && (f.i + k) % 10 == j + 1)
    ensures Run(f, rpms).speeds[j] == r
    decreases rpms
  {
    if rpms != [] {
      StoredConstant(f, r, j);
      SlotFilled(Step(f, rpms[0]), rpms[1..], r, j, if k == 0 then 0 else k - 1);
    }
  }

  lemma {:induction false} ResidueWithinTen(i: nat, j: nat) returns (k: nat)
    requires j < 9
    ensures k < 10 && (i + k) % 10 == j + 1
  {
    k := (j + 11 - i % 10) % 10;
  }

  /** Ten equal samples fill the window, whatever it held before, if the
      counter does not wrap among them. */
  lemma {:induction false} TenFill(f: Filter, rpms: seq<nat>, r: nat)
    requires Ring(f.speeds) && AllEqual(rpms, r) && |rpms| >= 10
    requires f.i + |rpms| <= 0x1_0000_0000
    ensures Constant(Run(f, rpms).speeds, r)
  {
    forall j | 0 <= j < 9
      ensures Run(f, rpms).speeds[j] == r
    {
      var k := ResidueWithinTen(f.i, j);
      SlotFilled(f, rpms, r, j, k);
    }
  }

  lemma {:induction false} RunIndex(f: Filter, rpms: seq<nat>)
    requires Ring(f.speeds) && f.i + |rpms| <= 0x1_0000_0000
    ensures Run(f, rpms).i == if rpms == [] then f.i else (f.i + |rpms|) % 0x1_0000_0000
    decreases rpms
  {
    if rpms != [] {
      RunIndex(Step(f, rpms[0]), rpms[1..]);
    }
  }

  /** How many equal samples fill the window: 2^32 is not a multiple of ten, so
      that ten may not be enough when the counter wraps among them. */
  function FillTime(i: nat): nat {
    if i + 10 <= 0x1_0000_0000 then 10 else 20
  }

  /** So many equal samples, or more, fill the window, whatever it and the
      counter held before. */
  lemma {:induction false} WindowFills(f: Filter, rpms: seq<nat>, r: nat)
    requires Ring(f.speeds) && f.i < 0x1_0000_0000
    requires AllEqual(rpms, r) && |rpms| >= FillTime(f.i)
    ensures Constant(Run(f, rpms).speeds, r)
  {
    var m := if f.i + 10 <= 0x1_0000_0000 then 0 else 0x1_0000_0000 - f.i;
    var a, b, c := rpms[..m], rpms[m..m + 10], rpms[m + 10..];
    assert rpms == a + (b + c);
    assert AllEqual(b, r) && AllEqual(c, r);
    RunAppend(f, a, b + c);
    RunIndex(f, a);
    var g := Run(f, a);
    RunAppend(g, b, c);
    TenFill(g, b, r);
    ErrorShrinksTenfold(Run(g, b), c, r);
  }

  function Tolerance(vref: real): real {
    vref * 3.0 / 100.0
  }

  /** A difference the monitor tolerates. Where `abs` is the one of integers
      (`whole`), the difference loses its fraction first. */
  predicate Close(d: real, vref: real, whole: bool) {
    (if whole then d.Floor as real else d) <= Tolerance(vref)
  }

  /** The tolerance test of the monitor. */
  predicate Within(average: real, vref: real, whole: bool) {
    Close(Absolute(average - vref), vref, whole)
  }

  /** Three percent: a hundred times the distance is at most three times the
      target; with integers the distance loses its fraction first. */
  lemma {:induction false} WithinIff(average: real, vref: real, whole: bool)
    ensures !whole ==> (Within(average, vref, whole) <==> -3.0 * vref <= 100.0 * (average - vref) <= 3.0 * vref)
    ensures whole ==>
      (Within(average, vref, whole) <==>
       100.0 * ((if average < vref then vref - average else average - vref).Floor as real) <= 3.0 * vref)
  {}

  /** For whole numbers both tests say the same. */
  lemma {:induction false} WholeWithinIff(s: nat, r: nat, whole: bool)
    ensures Within(s as real, r as real, whole) <==> 100 * (if s < r then r - s else s - r) <= 3 * r
  {
    var d := if s < r then r - s else s - r;
    assert Absolute(s as real - r as real) == d as real;
    assert (d as real).Floor == d;
  }

  lemma {:induction false} CloserIsClose(d: real, e: real, vref: real, whole: bool)
    requires d <= e && Close(e, vref, whole)
    ensures Close(d, vref, whole)
  {
    assert d.Floor <= e.Floor;
  }

  /** A number of samples that settles the average from anywhere between 0 and
      the maximum: divided by ten that often, the maximum is a difference in
      tolerance. */
  predicate Settles(k: nat, r: nat, max: nat, whole: bool) {
    Close(Tenth(max as real, k), r as real, whole)
  }

  /** Samples at the target speed bring the average into tolerance, from any
      start between 0 and a maximum, when there are enough of them. */
  lemma {:induction false} SettlesWithinTolerance(f: Filter, rpms: seq<nat>, r: nat, max: nat, whole: bool)
    requires Constant(f.speeds, r) && AllEqual(rpms, r) && Bounded(f, max) && r <= max
    requires Settles(|rpms|, r, max, whole)
    ensures var g := Run(f, rpms);
      Constant(g.speeds, r) && Within(g.average, r as real, whole)
  {
    ErrorShrinksTenfold(f, rpms, r);
    TenthKeepsOrder(Error(f, r), max as real, |rpms|);
    CloserIsClose(Absolute(Error(Run(f, rpms), r)), Tenth(max as real, |rpms|), r as real, whole);
  }

  /** Once in tolerance, equal samples keep the average there. */
  lemma {:induction false} StepStaysWithin(f: Filter, r: nat, whole: bool)
    requires Constant(f.speeds, r) && Within(f.average, r as real, whole)
    ensures Constant(Step(f, r).speeds, r) && Within(Step(f, r).average, r as real, whole)
  {
    StepConstant(f, r);
    CloserIsClose(Absolute(Error(Step(f, r), r)), Absolute(Error(f, r)), r as real, whole);
  }

  lemma {:induction false} RunAppend(f: Filter, a: seq<nat>, b: seq<nat>)
    requires Ring(f.speeds)
    ensures Run(f, a + b) == Run(Run(f, a), b)
    decreases a
  {
    if a == [] {
      Unit(b);
    } else {
      assert (a + b)[0] == a[0] && (a + b)[1..] == a[1..] + b;
      RunAppend(Step(f, a[0]), a[1..], b);
    }
  }

  lemma {:induction false} TenthVanishes(x: real, n: nat) returns (k: nat)
    requires 0.0 <= x <= n as real
    ensures Tenth(x, k) <= 0.01
    decreases n
  {
    if n == 0 {
      k := 0;
    } else if n == 1 {
      k := 2;
      assert Tenth(x, 2) == Tenth(x / 10.0, 1) == Tenth(x / 10.0 / 10.0, 0);
    } else {
      k := TenthVanishes(x / 10.0, n - 1);
      k := k + 1;
    }
  }

  /** Some number of samples settles the average from anywhere below the
      maximum, if and only if the speed is not zero, or fractions do not count,
      or there is nothing to settle. */
  lemma {:induction false} SomeCountSettles(r: nat, max: nat, whole: bool)
    ensures (exists k: nat :: Settles(k, r, max, whole)) <==> r >= 1 || whole || max == 0
  {
    if r >= 1 || whole || max == 0 {
      var k := TenthVanishes(max as real, max);
      if max == 0 {
        k := 0;
      }
      assert Settles(k, r, max, whole);
    } else {
      forall k: nat
        ensures !Settles(k, r, max, whole)
      {
        TenthKeepsOrder(max as real, max as real, k);
      }
    }
  }

  // ----- a speed near the target -----

  /** The average stays that near to a constant speed, and hence in tolerance
      of the target. */
  lemma {:induction false} NearStays(f: Filter, s: nat, r: nat, m: real, whole: bool)
    requires Constant(f.speeds, s) && Absolute(Error(f, s)) <= m
    requires 100.0 * (Absolute(s as real - r as real) + m) <= 3.0 * r as real
    ensures var g := Step(f, s);
      Constant(g.speeds, s) && Absolute(Error(g, s)) <= m && Within(g.average, r as real, whole)
  {
    var g := Step(f, s);
    StepConstant(f, s);
    assert Absolute(g.average - r as real) <= Absolute(s as real - r as real) + m;
    WithinIff(g.average, r as real, false);
    var d := Absolute(g.average - r as real);
    assert d.Floor as real <= d;
  }

  /** An average that has settled on a constant speed stays there. */
  lemma {:induction false} SettledStays(f: Filter, s: nat)
    requires Constant(f.speeds, s) && f.average == s as real
    ensures Constant(Step(f, s).speeds, s) && Step(f, s).average == s as real
  {
    StepConstant(f, s);
  }

  // ----- a target of zero, with fractions counting -----

  lemma {:induction false} ZeroSum(speeds: seq<nat>)
    requires Sum(speeds) == 0
    ensures forall j :: 0 <= j < |speeds| ==> speeds[j] == 0
  {
    if speeds != [] {
      ZeroSum(speeds[..|speeds| - 1]);
    }
  }

  /** An average that is not zero never becomes zero again. */
  lemma {:induction false} StepStaysPositive(f: Filter, rpm: nat)
    requires Ring(f.speeds) && f.average > 0.0
    ensures Step(f, rpm).average > 0.0 && !Within(Step(f, rpm).average, 0.0, false)
  {}
}
