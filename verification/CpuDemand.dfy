/** How much a job seems to want: what it used while it ran, and how many of its tasks kept waiting. */
module CpuDemand {
  import opened Bytes

  const DEMAND_WINDOW := 0.10
  const RUNNABLE_WINDOW := 0.04

  /** One sample of the runtime; `held` tells whether the job was paused before it. */
  datatype Sample = Sample(charged: real, elapsed: real, runnable: nat, now: real, held: bool)

  /**
   * The observation so far: processor time and time since the last average, that average, the least number of runnable
   * tasks since a time, and that number for the last full window.
   */
  datatype Window = Window(cpu: real, elapsed: real, observed: Option<real>, floor: nat, since: real, waiting: nat)

  const OPENING := Window(0.0, 0.0, None, 0, 0.0, 0)

  function Watched(w: Window, s: Sample): Window {
    if s.held then w.(floor := 0, since := s.now)
    else
      var cpu, elapsed, floor := w.cpu + s.charged, w.elapsed + s.elapsed, Min(w.floor, s.runnable);
      var full, due := elapsed >= DEMAND_WINDOW, s.now - w.since >= RUNNABLE_WINDOW;
      Window(if full then 0.0 else cpu, if full then 0.0 else elapsed, if full then Some(cpu / elapsed) else w.observed,
             if due then s.runnable else floor, if due then s.now else w.since, if due then floor else w.waiting)
  }

  /** A paused job makes no observation, and none is known before the first average. */
  function Demand(w: Window, held: bool): (demand: Option<real>)
    ensures demand.None? <==> held || w.observed.None?
    ensures demand.Some? ==>
              && w.observed.value <= demand.value && w.waiting as real <= demand.value
              && (demand.value == w.observed.value || demand.value == w.waiting as real)
  {
    if held || w.observed.None? then None else Some(MaxR(w.observed.value, w.waiting as real))
  }

  function After(samples: seq<Sample>): Window {
    if samples == [] then OPENING else Watched(After(samples[..|samples| - 1]), samples[|samples| - 1])
  }

  /* What the numbers mean. */

  /** From sample `i` to sample `j` the job ran, with at least `n` tasks runnable at each of them. */
  ghost predicate Steady(samples: seq<Sample>, i: nat, j: nat, n: nat) {
    i <= j < |samples| && forall k | i <= k <= j :: samples[k].runnable >= n && !samples[k].held
  }

  ghost predicate FloorHolds(samples: seq<Sample>, w: Window) {
    w.floor == 0 ||
    exists i: nat :: i < |samples| && samples[i].now == w.since && SteadyFrom(samples, i, w.floor)
  }

  /** From sample `i` on at least `n` tasks were runnable; the job may have been held before that sample. */
  ghost predicate SteadyFrom(samples: seq<Sample>, i: nat, n: nat) {
    i < |samples| && Steady(samples, i, |samples| - 1, n)
  }

  /** The tasks counted as waiting were runnable over a whole window of at least 40 milliseconds. */
  ghost predicate Sustained(samples: seq<Sample>, n: nat) {
    n == 0 ||
    exists i: nat, j: nat ::
      i <= j < |samples| && Steady(samples, i, j, n) && samples[j].now - samples[i].now >= 0.04
  }

  lemma SteadyLonger(samples: seq<Sample>, s: Sample, i: nat, j: nat, n: nat)
    requires Steady(samples, i, j, n)
    ensures Steady(samples + [s], i, j, n)
  {
    assert forall k | i <= k <= j :: (samples + [s])[k] == samples[k];
  }

  lemma SteadyNext(samples: seq<Sample>, s: Sample, i: nat, n: nat)
    requires SteadyFrom(samples, i, n) && !s.held
    ensures SteadyFrom(samples + [s], i, Min(n, s.runnable))
  {
    assert forall k | i <= k < |samples| :: (samples + [s])[k] == samples[k];
  }

  lemma SustainedLonger(samples: seq<Sample>, s: Sample, n: nat)
    requires Sustained(samples, n)
    ensures Sustained(samples + [s], n)
  {
    hide Steady;
    if n > 0 {
      var i: nat, j: nat :|
        i <= j < |samples| && Steady(samples, i, j, n) && samples[j].now - samples[i].now >= RUNNABLE_WINDOW;
      SteadyLonger(samples, s, i, j, n);
      assert (samples + [s])[i] == samples[i] && (samples + [s])[j] == samples[j];
    }
  }

  /** A brief wakeup is not sustained demand: over any run, waiting tasks are ones that were runnable for a window. */
  lemma {:induction false} WaitingIsSustained(samples: seq<Sample>)
    ensures Sustained(samples, After(samples).waiting) && FloorHolds(samples, After(samples))
  {
    if samples != [] {
      var before, s := samples[..|samples| - 1], samples[|samples| - 1];
      assert samples == before + [s];
      WaitingIsSustained(before);
      WatchedSustains(before, s, After(before));
    }
  }

  lemma WatchedSustains(samples: seq<Sample>, s: Sample, w: Window)
    requires Sustained(samples, w.waiting) && FloorHolds(samples, w)
    ensures Sustained(samples + [s], Watched(w, s).waiting) && FloorHolds(samples + [s], Watched(w, s))
  {
    hide Steady;
    SustainedLonger(samples, s, w.waiting);
    var more, w' := samples + [s], Watched(w, s);
    assert more[|samples|] == s;
    if !s.held {
      var floor := Min(w.floor, s.runnable);
      SteadyOne(samples, s);
      if w.floor > 0 {
        var i: nat :| i < |samples| && samples[i].now == w.since && SteadyFrom(samples, i, w.floor);
        SteadyNext(samples, s, i, w.floor);
        assert more[i] == samples[i];
        assert Steady(more, i, |samples|, floor);
      }
    }
  }

  lemma SteadyOne(samples: seq<Sample>, s: Sample)
    requires !s.held
    ensures SteadyFrom(samples + [s], |samples|, s.runnable)
  {
  }

  /** Processor time and time of the samples that found the job running. */
  function Used(samples: seq<Sample>): real {
    if samples == [] then 0.0
    else Used(samples[..|samples| - 1]) + if samples[|samples| - 1].held then 0.0 else samples[|samples| - 1].charged
  }

  function Ran(samples: seq<Sample>): real {
    if samples == [] then 0.0
    else Ran(samples[..|samples| - 1]) + if samples[|samples| - 1].held then 0.0 else samples[|samples| - 1].elapsed
  }

  /** `rate` is the average use over the samples from `i` to before `j`, for at least a tenth of a second of running. */
  ghost predicate Average(samples: seq<Sample>, i: nat, j: nat, rate: real) {
    i <= j <= |samples| && Ran(samples[i..j]) >= 0.10 && rate * Ran(samples[i..j]) == Used(samples[i..j])
  }

  ghost predicate Summed(samples: seq<Sample>, w: Window) {
    exists i: nat :: i <= |samples| && w.cpu == Used(samples[i..]) && w.elapsed == Ran(samples[i..])
  }

  ghost predicate Averaged(samples: seq<Sample>, w: Window) {
    w.observed.Some? ==> exists i: nat, j: nat :: Average(samples, i, j, w.observed.value)
  }

  lemma SumsNext(samples: seq<Sample>, s: Sample, i: nat)
    requires i <= |samples|
    ensures Used((samples + [s])[i..]) == Used(samples[i..]) + if s.held then 0.0 else s.charged
    ensures Ran((samples + [s])[i..]) == Ran(samples[i..]) + if s.held then 0.0 else s.elapsed
  {
    assert (samples + [s])[i..] == samples[i..] + [s];
    assert (samples[i..] + [s])[..|samples[i..]|] == samples[i..];
  }

  lemma AveragedLonger(samples: seq<Sample>, s: Sample, w: Window)
    requires Averaged(samples, w)
    ensures Averaged(samples + [s], w)
  {
    hide Used, Ran;
    if w.observed.Some? {
      var i: nat, j: nat :| Average(samples, i, j, w.observed.value);
      assert (samples + [s])[i..j] == samples[i..j];
      assert Average(samples + [s], i, j, w.observed.value);
    }
  }

  lemma Quotient(a: real, b: real)
    requires b > 0.0
    ensures a / b * b == a
  {
  }

  lemma WatchedAverages(samples: seq<Sample>, s: Sample, w: Window)
    requires Summed(samples, w) && Averaged(samples, w)
    ensures Summed(samples + [s], Watched(w, s)) && Averaged(samples + [s], Watched(w, s))
  {
    hide Used, Ran;
    var more, w' := samples + [s], Watched(w, s);
    AveragedLonger(samples, s, w);
    var i: nat :| i <= |samples| && w.cpu == Used(samples[i..]) && w.elapsed == Ran(samples[i..]);
    SumsNext(samples, s, i);
    if !s.held && w.elapsed + s.elapsed >= DEMAND_WINDOW {
      Quotient(w.cpu + s.charged, w.elapsed + s.elapsed);
      assert more[i..|more|] == more[i..];
      assert Average(more, i, |more|, w'.observed.value);
      NothingSummed(more);
    }
  }

  lemma NothingSummed(samples: seq<Sample>)
    ensures Used(samples[|samples|..]) == 0.0 && Ran(samples[|samples|..]) == 0.0
  {
  }

  /** Over any run, the observed rate is the job's average use while it ran, over at least a tenth of a second. */
  lemma {:induction false} ObservedIsAverage(samples: seq<Sample>)
    ensures Summed(samples, After(samples)) && Averaged(samples, After(samples))
  {
    if samples == [] {
      NothingSummed([]);
      assert samples[0..] == [];
    } else {
      var before, s := samples[..|samples| - 1], samples[|samples| - 1];
      assert samples == before + [s];
      ObservedIsAverage(before);
      WatchedAverages(before, s, After(before));
    }
  }

  /** Charges and times are not negative. */
  predicate Counting(samples: seq<Sample>) {
    forall s | s in samples :: 0.0 <= s.charged && 0.0 <= s.elapsed
  }

  lemma {:induction false} DemandIsPositive(samples: seq<Sample>)
    requires Counting(samples)
    ensures var w := After(samples);
            0.0 <= w.cpu && 0.0 <= w.elapsed && (w.observed.Some? ==> 0.0 <= w.observed.value)
  {
    if samples != [] {
      var before, s := samples[..|samples| - 1], samples[|samples| - 1];
      assert s in samples && forall o | o in before :: o in samples;
      DemandIsPositive(before);
    }
  }

  /* And nothing sustained is missed. */

  function AllWatched(w: Window, samples: seq<Sample>): Window
    decreases |samples|
  {
    if samples == [] then w else AllWatched(Watched(w, samples[0]), samples[1..])
  }

  lemma {:induction false} AfterBoth(samples: seq<Sample>, more: seq<Sample>)
    ensures After(samples + more) == AllWatched(After(samples), more)
    decreases |more|
  {
    if more == [] {
      assert samples + more == samples;
    } else {
      assert samples + more == (samples + [more[0]]) + more[1..];
      assert (samples + [more[0]])[..|samples|] == samples;
      AfterBoth(samples + [more[0]], more[1..]);
    }
  }

  /** The job runs at each of the samples, with at least `n` tasks runnable, and time does not run backwards. */
  ghost predicate Busy(more: seq<Sample>, n: nat) {
    && (forall k | 0 <= k < |more| :: !more[k].held && more[k].runnable >= n)
    && (forall k, l | 0 <= k < l < |more| :: more[k].now <= more[l].now)
  }

  lemma BusyLater(more: seq<Sample>, n: nat)
    requires Busy(more, n) && more != []
    ensures Busy(more[1..], n)
  {
    assert forall k | 0 <= k < |more| - 1 :: more[1..][k] == more[k + 1];
  }

  lemma {:induction false} StaysWaiting(w: Window, more: seq<Sample>, n: nat)
    requires Busy(more, n) && w.waiting >= n && w.floor >= n
    ensures AllWatched(w, more).waiting >= n
    decreases |more|
  {
    if more != [] {
      BusyLater(more, n);
      StaysWaiting(Watched(w, more[0]), more[1..], n);
    }
  }

  lemma {:induction false} SoonWaiting(w: Window, more: seq<Sample>, n: nat, b: nat)
    requires Busy(more, n) && w.floor >= n && b < |more| && more[b].now - w.since >= 0.04
    ensures AllWatched(w, more).waiting >= n
    decreases |more|
  {
    BusyLater(more, n);
    var next := Watched(w, more[0]);
    if more[0].now - w.since >= 0.04 {
      StaysWaiting(next, more[1..], n);
    } else {
      SoonWaiting(next, more[1..], n, b - 1);
    }
  }

  lemma {:induction false} LaterWaiting(w: Window, more: seq<Sample>, n: nat, a: nat, b: nat)
    requires Busy(more, n) && a < b < |more|
    requires more[a].now - w.since >= 0.04 && more[b].now - more[a].now >= 0.04
    ensures AllWatched(w, more).waiting >= n
    decreases |more|
  {
    BusyLater(more, n);
    var next := Watched(w, more[0]);
    if more[0].now - w.since >= 0.04 {
      assert more[0].now <= more[a].now;
      SoonWaiting(next, more[1..], n, b - 1);
    } else {
      LaterWaiting(next, more[1..], n, a - 1, b - 1);
    }
  }

  /**
   * Tasks that are runnable at every sample for two windows after a job ran last are counted: the first window may have
   * begun before them, the second lies within.
   */
  lemma SustainedIsWaiting(samples: seq<Sample>, more: seq<Sample>, n: nat, a: nat, b: nat)
    requires Busy(more, n) && a < b < |more|
    requires more[a].now - After(samples).since >= 0.04 && more[b].now - more[a].now >= 0.04
    ensures After(samples + more).waiting >= n
  {
    AfterBoth(samples, more);
    LaterWaiting(After(samples), more, n, a, b);
  }

  /** A rate is observed exactly once the job has run for a tenth of a second. */
  lemma {:induction false} ObservedExactly(samples: seq<Sample>)
    requires Counting(samples)
    ensures After(samples).observed.None? <==> Ran(samples) < 0.10
    ensures After(samples).observed.None? ==> After(samples).elapsed == Ran(samples)
    ensures 0.0 <= Ran(samples)
  {
    if samples != [] {
      var before, s := samples[..|samples| - 1], samples[|samples| - 1];
      assert s in samples && forall o | o in before :: o in samples;
      ObservedExactly(before);
    }
  }

  /** And after every further tenth of a second: no more than that is ever left out of the average. */
  lemma {:induction false} ElapsedIsShort(samples: seq<Sample>)
    ensures After(samples).elapsed < 0.10
  {
    if samples != [] {
      ElapsedIsShort(samples[..|samples| - 1]);
    }
  }
}
