/** `bench`: the rounds of one lock implementation, their times sorted, and
    the average, fastest and slowest round; and the six benchmarks that the
    program runs. Durations are whole nanoseconds. */
module Aggregator {
  import opened Base
  import opened Runner

  /** The three `RwLock` implementations under test. */
  datatype Variant = StdRwLock | ParkingLotRwLock | SpinRwLock

  /** `M::LABEL`. */
  function Label(v: Variant): string
  {
    match v
    case StdRwLock => "std::sync::RwLock"
    case ParkingLotRwLock => "parking_lot::RwLock"
    case SpinRwLock => "spin::RwLock"
  }

  lemma LabelsDistinct(v: Variant, w: Variant)
    ensures Label(v) == Label(w) ==> v == w
  {
  }

  /** What `bench` prints for one implementation. */
  datatype Report = Report(name: string, avg: nat, min: nat, max: nat)

  predicate Sorted(s: seq<nat>)
  {
    forall i, j :: 0 <= i <= j < |s| ==> s[i] <= s[j]
  }

  /** Exchanges two elements, which keeps the multiset of elements. */
  method Swap(a: array<nat>, i: nat, j: nat)
    requires i < a.Length && j < a.Length
    modifies a
    ensures a[..] == old(a[..])[i := old(a[j])][j := old(a[i])]
    ensures multiset(a[..]) == multiset(old(a[..]))
  {
    a[i], a[j] := a[j], a[i];
  }

  /** `times.sort()`: the times in ascending order, the same times as
      before. */
  method Sort(a: array<nat>)
    modifies a
    ensures Sorted(a[..])
    ensures multiset(a[..]) == multiset(old(a[..]))
  {
    for i := 0 to a.Length
      invariant forall p, q :: 0 <= p <= q < i ==> a[p] <= a[q]
      invariant multiset(a[..]) == multiset(old(a[..]))
    {
      var j := i;
      while j > 0 && a[j - 1] > a[j]
        invariant 0 <= j <= i
        invariant forall p, q :: 0 <= p <= q <= i && p != j && q != j ==> a[p] <= a[q]
        invariant forall q :: j < q <= i ==> a[j] <= a[q]
        invariant multiset(a[..]) == multiset(old(a[..]))
        decreases j
      {
        Swap(a, j - 1, j);
        j := j - 1;
      }
    }
  }

  lemma SumSingleton(x: int)
    ensures Sum([x]) == x
  {
  }

  /** Taking one element out of a sequence takes it out of the sum. */
  lemma SumRemove(p: seq<int>, x: int, q: seq<int>)
    ensures Sum(p + [x] + q) == Sum(p + q) + x
  {
    SumAppend(p + [x], q);
    SumAppend(p, [x]);
    SumAppend(p, q);
    SumSingleton(x);
  }

  /** Reordering does not change a sum. */
  lemma {:induction false} SumPermutation(a: seq<int>, b: seq<int>)
    requires multiset(a) == multiset(b)
    ensures Sum(a) == Sum(b)
    decreases |a|
  {
    if a == [] {
      assert |b| == |multiset(b)| == 0;
    } else {
      var n := |a| - 1;
      var x := a[n];
      assert a == a[..n] + [x];
      assert x in multiset(b);
      var i :| 0 <= i < |b| && b[i] == x;
      assert b == b[..i] + [x] + b[i + 1..];
      var rest := b[..i] + b[i + 1..];
      assert multiset(b) == multiset(b[..i]) + multiset{x} + multiset(b[i + 1..]);
      assert multiset(a) == multiset(a[..n]) + multiset{x};
      assert multiset(rest) == multiset(b[..i]) + multiset(b[i + 1..]);
      assert multiset(a[..n]) == multiset(a) - multiset{x};
      assert multiset(rest) == multiset(b) - multiset{x};
      SumPermutation(a[..n], rest);
      SumRemove(b[..i], x, b[i + 1..]);
    }
  }

  /** A sum of `|s|` numbers between `lo` and `hi` lies between `|s| * lo`
      and `|s| * hi`. */
  lemma {:induction false} SumBetween(s: seq<nat>, lo: nat, hi: nat)
    requires forall k :: 0 <= k < |s| ==> lo <= s[k] <= hi
    ensures |s| * lo <= Sum(s) <= |s| * hi
  {
    if s != [] {
      SumBetween(s[..|s| - 1], lo, hi);
      MulSucc(|s| - 1, lo);
      MulSucc(|s| - 1, hi);
    }
  }

  lemma MulMonotone(n: nat, x: int, y: int)
    requires x <= y
    ensures n * x <= n * y
  {
  }

  /** Truncating division by `n` keeps a number between `n * lo` and
      `n * hi` between `lo` and `hi`. */
  lemma DivBetween(t: nat, n: nat, lo: nat, hi: nat)
    requires n > 0 && n * lo <= t <= n * hi
    ensures lo <= t / n <= hi
  {
    var q := t / n;
    assert n * q <= t < n * q + n;
    if q < lo {
      MulMonotone(n, q + 1, lo);
    }
    if q > hi {
      MulMonotone(n, hi + 1, q);
    }
  }

  /** The average of the times, truncated, lies between their extremes. */
  lemma AverageBetween(s: seq<nat>, lo: nat, hi: nat)
    requires |s| > 0
    requires forall k :: 0 <= k < |s| ==> lo <= s[k] <= hi
    ensures lo <= Sum(s) / |s| <= hi
  {
    SumBetween(s, lo, hi);
    DivBetween(Sum(s), |s|, lo, hi);
  }

  /** The first and the last of the sorted times are the extremes of the
      measured ones, and the sum is that of the measured ones. */
  lemma SortedSummary(times: seq<nat>, clock: seq<nat>)
    requires Sorted(times) && multiset(times) == multiset(clock) && |times| > 0
    ensures |clock| == |times|
    ensures times[0] in clock && times[|times| - 1] in clock
    ensures forall k :: 0 <= k < |clock| ==> times[0] <= clock[k] <= times[|times| - 1]
    ensures Sum(times) == Sum(clock)
    ensures times[0] <= Sum(clock) / |clock| <= times[|times| - 1]
  {
    assert |clock| == |multiset(clock)| == |multiset(times)| == |times|;
    assert times[0] in multiset(clock) && times[|times| - 1] in multiset(clock);
    forall k | 0 <= k < |clock|
      ensures times[0] <= clock[k] <= times[|times| - 1]
    {
      assert clock[k] in multiset(times);
    }
    SumPermutation(times, clock);
    AverageBetween(clock, times[0], times[|times| - 1]);
  }

  /** `report` is what `bench` prints for implementation `v` when its rounds
      took `clock`: the label, the truncated average, and the fastest and the
      slowest round. */
  predicate Summarizes(report: Report, v: Variant, clock: seq<nat>)
  {
    && |clock| > 0
    && report.name == Label(v)
    && report.avg == Sum(clock) / |clock|
    && report.min in clock
    && report.max in clock
    && forall k :: 0 <= k < |clock| ==> report.min <= clock[k] <= report.max
  }

  /** `bench::<M>`: `n_rounds` runs whose clock readings are `clock`, then
      `avg = sum / n_rounds`, `min = times[0]` and `max = times.last()` of the
      sorted times. */
  method Bench(v: Variant, opts: Options, clock: seq<nat>) returns (r: Result<Report>)
    requires |clock| == opts.nRounds
    ensures r.Err? <==> opts.nRounds == 0 || WorkerPanics(opts)
    ensures r.Err? ==> r.error == if opts.nRounds == 0 then DurationDivideByZero else RemainderByZero
    ensures r.Ok? ==> Summarizes(r.value, v, clock)
    ensures r.Ok? ==> r.value.min <= r.value.avg <= r.value.max
  {
    var times := new nat[opts.nRounds];
    for k := 0 to opts.nRounds
      invariant times[..k] == clock[..k]
      invariant k > 0 ==> !WorkerPanics(opts)
    {
      var elapsed, total := RunBench(opts, clock[k]);
      if elapsed.Err? {
        return Err(elapsed.error);
      }
      times[k] := elapsed.value;
    }
    assert times[..] == clock;
    Sort(times);
    if opts.nRounds == 0 {
      return Err(DurationDivideByZero);
    }
    SortedSummary(times[..], clock);
    var avg := Sum(times[..]) / opts.nRounds;
    r := Ok(Report(Label(v), avg, times[0], times[times.Length - 1]));
  }

  /** The order in which `main` benchmarks the implementations: the three of
      them, then the three again. */
  const Schedule: seq<Variant> := [StdRwLock, ParkingLotRwLock, SpinRwLock, StdRwLock, ParkingLotRwLock, SpinRwLock]

  /** The six `bench` calls of `main`, the `i`-th with clock readings
      `clocks[i]`; the first panic ends the program. */
  method BenchAll(opts: Options, clocks: seq<seq<nat>>) returns (r: Result<seq<Report>>)
    requires |clocks| == |Schedule|
    requires forall i :: 0 <= i < |clocks| ==> |clocks[i]| == opts.nRounds
    ensures r.Err? <==> opts.nRounds == 0 || WorkerPanics(opts)
    ensures r.Ok? ==> |r.value| == |Schedule|
    ensures r.Ok? ==> forall i :: 0 <= i < |Schedule| ==> Summarizes(r.value[i], Schedule[i], clocks[i])
  {
    var reports: seq<Report> := [];
    for i := 0 to |Schedule|
      invariant |reports| == i
      invariant i > 0 ==> !(opts.nRounds == 0 || WorkerPanics(opts))
      invariant forall m :: 0 <= m < i ==> Summarizes(reports[m], Schedule[m], clocks[m])
    {
      var report := Bench(Schedule[i], opts, clocks[i]);
      if report.Err? {
        return Err(report.error);
      }
      ghost var before := reports;
      reports := reports + [report.value];
      assert forall m :: 0 <= m < i ==> reports[m] == before[m];
    }
    r := Ok(reports);
  }
}
