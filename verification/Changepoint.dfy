/** Two-sided CUSUM (ml/monitoring/changepoint.py): the recursion as code, and its
    declarative meaning over whole streams. Floats are modelled as reals; the baseline fit
    is a parameter. */
module Changepoint {
  import opened Wrappers

  // ---------------------------------------------------------------------------
  // The recursion over standardised values
  // ---------------------------------------------------------------------------

  datatype Params = Params(k: real, h: real)
  datatype Cusum = Cusum(pos: real, neg: real)

  function Max0(x: real): real { if x > 0.0 then x else 0.0 }

  function Accumulate(c: Cusum, z: real, p: Params): Cusum {
    Cusum(Max0(c.pos + z - p.k), Max0(c.neg - z - p.k))
  }

  predicate Exceeds(c: Cusum, p: Params) { c.pos > p.h || c.neg > p.h }

  /** The accumulators after a stream, reset to zero after each signal. */
  function After(zs: seq<real>, p: Params): Cusum
    decreases |zs|, 1
  {
    if zs == [] then Cusum(0.0, 0.0)
    else if Signals(zs, p) then Cusum(0.0, 0.0)
    else Accumulate(After(zs[..|zs| - 1], p), zs[|zs| - 1], p)
  }

  /** The last value of the stream raises a signal. */
  predicate Signals(zs: seq<real>, p: Params)
    decreases |zs|, 0
  {
    zs != [] && Exceeds(Accumulate(After(zs[..|zs| - 1], p), zs[|zs| - 1], p), p)
  }

  /** Where the values since the last signal start. */
  function ResetPoint(zs: seq<real>, p: Params): (r: nat)
    ensures r <= |zs|
  {
    if zs == [] then 0 else if Signals(zs, p) then |zs| else ResetPoint(zs[..|zs| - 1], p)
  }

  // ---------------------------------------------------------------------------
  // Meaning: suffix sums since the last signal
  // ---------------------------------------------------------------------------

  /** The sum of z - k over zs[i..j], and of -z - k. */
  function UpSum(zs: seq<real>, i: nat, j: nat, k: real): real
    requires i <= j <= |zs|
  {
    if i == j then 0.0 else UpSum(zs, i, j - 1, k) + (zs[j - 1] - k)
  }

  function DownSum(zs: seq<real>, i: nat, j: nat, k: real): real
    requires i <= j <= |zs|
  {
    if i == j then 0.0 else DownSum(zs, i, j - 1, k) + (-zs[j - 1] - k)
  }

  /** `m` is the largest of the suffix sums of zs[from..to], the empty one included. */
  ghost predicate IsMaxUp(m: real, zs: seq<real>, from: nat, to: nat, k: real)
    requires from <= to <= |zs|
  {
    (exists i :: from <= i <= to && m == UpSum(zs, i, to, k)) && forall i | from <= i <= to :: UpSum(zs, i, to, k) <= m
  }

  ghost predicate IsMaxDown(m: real, zs: seq<real>, from: nat, to: nat, k: real)
    requires from <= to <= |zs|
  {
    (exists i :: from <= i <= to && m == DownSum(zs, i, to, k)) && forall i | from <= i <= to :: DownSum(zs, i, to, k) <= m
  }

  lemma {:induction false} SumsOfPrefix(zs: seq<real>, i: nat, j: nat, n: nat, k: real)
    requires i <= j <= n <= |zs|
    ensures UpSum(zs[..n], i, j, k) == UpSum(zs, i, j, k) && DownSum(zs[..n], i, j, k) == DownSum(zs, i, j, k)
  {
    if i < j { SumsOfPrefix(zs, i, j - 1, n, k); }
  }

  /** One more value extends every suffix and adds the empty one. */
  lemma MaxStep(c: Cusum, zs: seq<real>, from: nat, p: Params)
    requires zs != [] && from < |zs|
    requires IsMaxUp(c.pos, zs, from, |zs| - 1, p.k) && IsMaxDown(c.neg, zs, from, |zs| - 1, p.k)
    ensures var a := Accumulate(c, zs[|zs| - 1], p);
      IsMaxUp(a.pos, zs, from, |zs|, p.k) && IsMaxDown(a.neg, zs, from, |zs|, p.k)
  {
    var n, a := |zs|, Accumulate(c, zs[|zs| - 1], p);
    var i :| from <= i <= n - 1 && c.pos == UpSum(zs, i, n - 1, p.k);
    var j :| from <= j <= n - 1 && c.neg == DownSum(zs, j, n - 1, p.k);
    assert a.pos == UpSum(zs, if c.pos + zs[n - 1] - p.k > 0.0 then i else n, n, p.k);
    assert a.neg == DownSum(zs, if c.neg - zs[n - 1] - p.k > 0.0 then j else n, n, p.k);
  }

  /** After any stream each accumulator is the maximum, over the suffixes since the last
      signal, of its drift-corrected sum. */
  lemma {:induction false} AccumulatorsAreMaxSuffixes(zs: seq<real>, p: Params)
    ensures IsMaxUp(After(zs, p).pos, zs, ResetPoint(zs, p), |zs|, p.k)
    ensures IsMaxDown(After(zs, p).neg, zs, ResetPoint(zs, p), |zs|, p.k)
    decreases |zs|, 1
  {
    if zs == [] || Signals(zs, p) {
      assert UpSum(zs, |zs|, |zs|, p.k) == 0.0 && DownSum(zs, |zs|, |zs|, p.k) == 0.0;
    } else {
      BeforeLast(zs, p);
      MaxStep(After(zs[..|zs| - 1], p), zs, ResetPoint(zs[..|zs| - 1], p), p);
    }
  }

  /** The accumulators before the last value, as maxima of sums of the whole stream. */
  lemma {:induction false} BeforeLast(zs: seq<real>, p: Params)
    requires zs != []
    ensures var n, from := |zs| - 1, ResetPoint(zs[..|zs| - 1], p);
      && IsMaxUp(After(zs[..n], p).pos, zs, from, n, p.k)
      && IsMaxDown(After(zs[..n], p).neg, zs, from, n, p.k)
    decreases |zs|, 0
  {
    var n := |zs| - 1;
    var init := zs[..n];
    AccumulatorsAreMaxSuffixes(init, p);
    hide UpSum, DownSum, After, ResetPoint;
    forall i | 0 <= i <= n
      ensures UpSum(init, i, n, p.k) == UpSum(zs, i, n, p.k) && DownSum(init, i, n, p.k) == DownSum(zs, i, n, p.k)
    {
      SumsOfPrefix(zs, i, n, n, p.k);
    }
  }

  /** A signal is raised exactly when some suffix since the previous one sums above h. */
  lemma SignalsExactly(zs: seq<real>, p: Params)
    requires zs != []
    ensures var from := ResetPoint(zs[..|zs| - 1], p);
      Signals(zs, p) <==>
        exists i :: from <= i <= |zs| && SumExceeds(zs, i, p)
  {
    var from := ResetPoint(zs[..|zs| - 1], p);
    BeforeLast(zs, p);
    MaxStep(After(zs[..|zs| - 1], p), zs, from, p);
    AfterStep(zs, p);
    MaxExceeds(Accumulate(After(zs[..|zs| - 1], p), zs[|zs| - 1], p), zs, from, p);
  }

  /** The stream's suffix from `i` has drifted above h, upwards or downwards. */
  predicate SumExceeds(zs: seq<real>, i: nat, p: Params)
    requires i <= |zs|
  {
    UpSum(zs, i, |zs|, p.k) > p.h || DownSum(zs, i, |zs|, p.k) > p.h
  }

  lemma MaxExceeds(a: Cusum, zs: seq<real>, from: nat, p: Params)
    requires from <= |zs| && IsMaxUp(a.pos, zs, from, |zs|, p.k) && IsMaxDown(a.neg, zs, from, |zs|, p.k)
    ensures Exceeds(a, p) <==>
      exists i :: from <= i <= |zs| && SumExceeds(zs, i, p)
  {
    hide UpSum, DownSum;
    if a.pos > p.h {
      var i :| from <= i <= |zs| && a.pos == UpSum(zs, i, |zs|, p.k);
      assert SumExceeds(zs, i, p);
    }
    if a.neg > p.h {
      var i :| from <= i <= |zs| && a.neg == DownSum(zs, i, |zs|, p.k);
      assert SumExceeds(zs, i, p);
    }
  }

  // ---------------------------------------------------------------------------
  // Detection guarantee
  // ---------------------------------------------------------------------------

  lemma {:induction false} ShiftSum(zs: seq<real>, i: nat, j: nat, delta: real, k: real)
    requires i <= j <= |zs| && forall t | i <= t < j :: zs[t] >= delta
    ensures UpSum(zs, i, j, k) >= (j - i) as real * (delta - k)
  {
    if i < j {
      ShiftSum(zs, i, j - 1, delta, k);
      assert (j - i) as real * (delta - k) == (j - 1 - i) as real * (delta - k) + (delta - k);
    }
  }

  lemma {:induction false} DropSum(zs: seq<real>, i: nat, j: nat, delta: real, k: real)
    requires i <= j <= |zs| && forall t | i <= t < j :: zs[t] <= -delta
    ensures DownSum(zs, i, j, k) >= (j - i) as real * (delta - k)
  {
    if i < j {
      DropSum(zs, i, j - 1, delta, k);
      assert (j - i) as real * (delta - k) == (j - 1 - i) as real * (delta - k) + (delta - k);
    }
  }

  /** The values of a stretch are all at least delta, or all at most -delta. */
  predicate Shifted(zs: seq<real>, from: nat, to: nat, delta: real)
    requires from <= to <= |zs|
  {
    (forall t | from <= t < to :: zs[t] >= delta) || (forall t | from <= t < to :: zs[t] <= -delta)
  }

  /** Without a signal in between, the reset point stays where it was. */
  lemma {:induction false} ResetStays(zs: seq<real>, i: nat, p: Params)
    requires i <= |zs| && forall t | i < t <= |zs| :: !Signals(zs[..t], p)
    ensures ResetPoint(zs, p) <= i
  {
    if i < |zs| {
      assert zs[..|zs|] == zs;
      var init := zs[..|zs| - 1];
      forall t | i < t <= |init| ensures !Signals(init[..t], p) { assert init[..t] == zs[..t]; }
      ResetStays(init, i, p);
    }
  }

  lemma ShiftExceeds(zs: seq<real>, start: nat, delta: real, p: Params)
    requires start < |zs| && Shifted(zs, start, |zs|, delta)
    requires (|zs| - start) as real * (delta - p.k) > p.h
    ensures SumExceeds(zs, start, p)
  {
    hide UpSum, DownSum;
    if forall t | start <= t < |zs| :: zs[t] >= delta {
      ShiftSum(zs, start, |zs|, delta, p.k);
    } else {
      DropSum(zs, start, |zs|, delta, p.k);
    }
  }

  /** A persistent shift is always caught, upwards or downwards: among n consecutive values
      of at least delta, or of at most -delta, with n * (delta - k) above h, one raises a
      signal. */
  lemma ShiftIsDetected(zs: seq<real>, start: nat, n: nat, delta: real, p: Params)
    requires n > 0 && start + n <= |zs| && Shifted(zs, start, start + n, delta)
    requires n as real * (delta - p.k) > p.h
    ensures exists t :: start < t <= start + n && Signals(zs[..t], p)
  {
    hide After, Signals, UpSum, DownSum, ResetPoint;
    var all := zs[..start + n];
    var init := all[..start + n - 1];
    assert |all| - start == n && forall t | start <= t < start + n :: all[t] == zs[t];
    if forall t | start < t <= |init| :: !Signals(zs[..t], p) {
      forall t | start < t <= |init| ensures !Signals(init[..t], p) { assert init[..t] == zs[..t]; }
      ResetStays(init, start, p);
      ShiftExceeds(all, start, delta, p);
      SignalsExactly(all, p);
      assert init == all[..|all| - 1];
    }
  }

  // ---------------------------------------------------------------------------
  // The detector
  // ---------------------------------------------------------------------------

  lemma AfterStep(zs: seq<real>, p: Params)
    requires zs != []
    ensures var a := Accumulate(After(zs[..|zs| - 1], p), zs[|zs| - 1], p);
      (Signals(zs, p) <==> Exceeds(a, p)) && After(zs, p) == if Exceeds(a, p) then Cusum(0.0, 0.0) else a
  {
  }

  type Fit = seq<real> -> (real, real)

  /** The baseline after some values: the one supplied, if it has a mean; else, once there are
      as many as the warm-up asks for, the fit of just those, for good. */
  ghost function Baseline(start: (Option<real>, Option<real>), warmup: nat, fit: Fit, seen: seq<real>): (Option<real>, Option<real>) {
    if start.0.Some? || seen == [] || |seen| < warmup then start
    else var b := fit(seen[..warmup]); (Some(b.0), Some(b.1))
  }

  /** The first value that is judged: with a mean supplied the first of all, otherwise the last
      of the warm-up. */
  ghost function First(start: (Option<real>, Option<real>), warmup: nat): nat {
    if start.0.Some? || warmup == 0 then 0 else warmup - 1
  }

  /** Every value from `first` on is standardised by the baseline, none before there is one. */
  ghost predicate Standardised(zs: seq<real>, vals: seq<real>, first: nat, mean: Option<real>, std: Option<real>) {
    if mean == None || std == None then zs == []
    else
      && std.value != 0.0 && |zs| + first == |vals|
      && forall j | 0 <= j < |zs| :: zs[j] == (vals[first + j] - mean.value) / std.value
  }

  function Standardise(value: real, mean: real, std: real): real
    requires std != 0.0
  {
    (value - mean) / std
  }

  lemma StandardisedStep(start: (Option<real>, Option<real>), warmup: nat, fit: Fit, vals: seq<real>, value: real, zs: seq<real>)
    requires (forall xs :: fit(xs).1 != 0.0) && (start.1.Some? ==> start.1.value != 0.0)
    requires var b := Baseline(start, warmup, fit, vals); Standardised(zs, vals, First(start, warmup), b.0, b.1)
    ensures var b := Baseline(start, warmup, fit, vals + [value]);
      && (b.1.Some? ==> b.1.value != 0.0)
      && Standardised(if b.0.Some? && b.1.Some? then zs + [Standardise(value, b.0.value, b.1.value)] else zs, vals + [value], First(start, warmup), b.0, b.1)
  {
    var b0, b := Baseline(start, warmup, fit, vals), Baseline(start, warmup, fit, vals + [value]);
    assert warmup <= |vals| ==> (vals + [value])[..warmup] == vals[..warmup];
    if b0.0.Some? && b0.1.Some? {
      assert b == b0;
    } else if b.0.Some? && b.1.Some? {
      assert zs == [] && |vals| == First(start, warmup);
    }
  }

  datatype Alert = Alert(index: int, value: real, up: bool)

  class CUSUMDetector {
    const warmup: nat
    const p: Params
    const fit: Fit                          // _fit_baseline: mean and (floored) deviation
    var vals: seq<real>
    var mean: Option<real>
    var std: Option<real>
    var sPos: real
    var sNeg: real
    var alerts: seq<Alert>
    ghost var zs: seq<real>                 // the standardised values so far
    ghost const start: (Option<real>, Option<real>)    // the baseline supplied

    ghost predicate Valid()
      reads this
    {
      && (forall xs :: fit(xs).1 != 0.0)
      && (std.Some? ==> std.value != 0.0) && (start.1.Some? ==> start.1.value != 0.0)
      && Cusum(sPos, sNeg) == After(zs, p)
      && (mean, std) == Baseline(start, warmup, fit, vals)
      && Standardised(zs, vals, First(start, warmup), mean, std)
    }

    constructor (warmup: nat, p: Params, fit: Fit, mean: Option<real>, std: Option<real>)
      requires (forall xs :: fit(xs).1 != 0.0) && (std.Some? ==> std.value != 0.0)
      ensures Valid() && zs == [] && vals == [] && alerts == []
      ensures this.warmup == warmup && this.p == p && this.fit == fit && start == (mean, std)
    {
      this.warmup, this.p, this.fit, this.mean, this.std := warmup, p, fit, mean, std;
      vals, sPos, sNeg, alerts, zs, start := [], 0.0, 0.0, [], [], (mean, std);
    }

    /** Records a value and, at the end of the warm-up, fits the baseline. */
    method Record(value: real)
      requires (mean, std) == Baseline(start, warmup, fit, vals)
      modifies this`vals, this`mean, this`std
      ensures vals == old(vals) + [value] && (mean, std) == Baseline(start, warmup, fit, vals)
    {
      ghost var seen := vals;
      vals := vals + [value];
      assert warmup <= |seen| ==> vals[..warmup] == seen[..warmup];
      if mean == None && |vals| >= warmup {
        var b := fit(vals[..warmup]);
        mean, std := Some(b.0), Some(b.1);
      }
    }

    method Observe(value: real, index: Option<int>) returns (r: Option<Alert>)
      requires Valid()
      modifies this
      ensures Valid() && vals == old(vals) + [value]
      ensures mean == None || std == None ==> r == None && zs == old(zs) && alerts == old(alerts)
      ensures mean.Some? && std.Some? ==>
        && zs == old(zs) + [Standardise(value, mean.value, std.value)]
        && (r.Some? <==> Signals(zs, p))
        && alerts == old(alerts) + (if r.Some? then [r.value] else [])
        && (r.Some? ==>
              && r.value.value == value
              && r.value.index == (if index.Some? then index.value else |old(vals)|)
              && (r.value.up <==> Accumulate(old(After(zs, p)), zs[|zs| - 1], p).pos > p.h))
    {
      hide After, Signals, Accumulate, Standardise, Baseline, Standardised, First;
      var idx := if index.Some? then index.value else |vals|;
      Record(value);
      StandardisedStep(start, warmup, fit, old(vals), value, zs);
      if mean == None || std == None {
        return None;
      }
      r := Judge(Standardise(value, mean.value, std.value), value, idx);
    }

    /** The accumulators take in a standardised value; a signal is recorded and resets them. */
    method Judge(z: real, value: real, idx: int) returns (r: Option<Alert>)
      requires Cusum(sPos, sNeg) == After(zs, p)
      modifies this`sPos, this`sNeg, this`alerts, this`zs
      ensures Cusum(sPos, sNeg) == After(zs, p) && zs == old(zs) + [z]
      ensures (r.Some? <==> Signals(zs, p)) && alerts == old(alerts) + (if r.Some? then [r.value] else [])
      ensures r.Some? ==> r.value.value == value && r.value.index == idx
      ensures r.Some? ==> (r.value.up <==> Accumulate(old(After(zs, p)), z, p).pos > p.h)
    {
      hide After, Signals;
      ghost var before := zs;
      zs := zs + [z];
      assert zs[..|zs| - 1] == before;
      AfterStep(zs, p);
      sPos := Max0(sPos + z - p.k);
      sNeg := Max0(sNeg - z - p.k);
      if sPos > p.h || sNeg > p.h {
        var alert := Alert(idx, value, sPos > p.h);
        alerts := alerts + [alert];
        sPos, sNeg := 0.0, 0.0;
        return Some(alert);
      }
      return None;
    }
  }
}
