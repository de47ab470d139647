/** The broker's account of each job: sampled consumption, saved credit, and the decision to pause. */
module CpuBroker {
  import opened Bytes
  import opened CpuShares
  import CD = CpuDemand
  import PP = PauseProtocol

  const BURST := 0.10
  const MAX_ELAPSED := 0.2
  const ACTIVE_WINDOW := 0.10
  const NOTICEABLE := 0.001

  function MinR(a: real, b: real): (m: real)
    ensures m <= a && m <= b && (m == a || m == b)
  {
    if b < a then b else a
  }

  /** The most credit a rate lets a job save: a burst, or the grain of the accounting. */
  function Saved(rate: real, grain: real): real {
    MaxR(rate * BURST, grain)
  }

  /** What happened to a job's credit: a sample charged it, or a decision point refilled it. */
  datatype Entry = Charged(delta: real) | Refilled(rate: real, elapsed: real, now: real)

  function Post(credit: real, e: Entry, grain: real): real {
    match e
    case Charged(delta) => credit - delta
    case Refilled(rate, elapsed, _) => MinR(Saved(rate, grain), credit + rate * elapsed)
  }

  function Credit(log: seq<Entry>, grain: real): real {
    if log == [] then 0.0 else Post(Credit(log[..|log| - 1], grain), log[|log| - 1], grain)
  }

  function Consumed(log: seq<Entry>): real {
    if log == [] then 0.0
    else Consumed(log[..|log| - 1]) + if log[|log| - 1].Charged? then log[|log| - 1].delta else 0.0
  }

  /**
   * Charges are not negative, rates respect the quota, and a decision point hands out no more time than has passed
   * since the one before it.
   */
  ghost predicate Lawful(log: seq<Entry>, quota: Option<real>) {
    && (forall i | 0 <= i < |log| && log[i].Charged? :: 0.0 <= log[i].delta)
    && (forall i | 0 <= i < |log| && log[i].Refilled? ::
          0.0 <= log[i].rate && 0.0 <= log[i].elapsed && (quota.Some? ==> log[i].rate <= quota.value))
    && (forall i, j | 0 <= i < j < |log| && log[i].Refilled? && log[j].Refilled? :: log[j].elapsed <= log[j].now - log[i].now)
  }

  lemma RateTime(rate: real, quota: real, elapsed: real, span: real)
    requires 0.0 <= rate <= quota && 0.0 <= elapsed <= span
    ensures rate * elapsed <= quota * span
  {
    MulOrdered(rate, quota, elapsed);
    assert quota * elapsed == elapsed * quota && quota * span == span * quota;
    MulOrdered(elapsed, span, quota);
  }

  lemma SavedGrows(rate: real, quota: real, grain: real)
    requires 0.0 <= rate <= quota
    ensures Saved(rate, grain) <= Saved(quota, grain)
  {
  }

  /** Credit never exceeds one burst of the quota. */
  lemma {:induction false} CreditIsBounded(log: seq<Entry>, quota: real, grain: real)
    requires Lawful(log, Some(quota)) && 0.0 <= quota && 0.0 <= grain
    ensures Credit(log, grain) <= MaxR(quota * 0.10, grain)
  {
    if log != [] {
      var front, last := log[..|log| - 1], log[|log| - 1];
      CreditIsBounded(front, quota, grain);
      if last.Refilled? {
        SavedGrows(last.rate, quota, grain);
      }
    }
  }

  /** The newest decision point of a log that comes after position `i`, or `i` itself. */
  ghost function LastTick(log: seq<Entry>, i: nat): nat
    requires i < |log| && log[i].Refilled?
    ensures i <= LastTick(log, i) < |log| && log[LastTick(log, i)].Refilled?
    ensures forall k | LastTick(log, i) < k < |log| :: log[k].Charged?
    decreases |log|
  {
    if log[|log| - 1].Refilled? then |log| - 1 else LastTick(log[..|log| - 1], i)
  }

  lemma LawfulFront(log: seq<Entry>, quota: Option<real>)
    requires Lawful(log, quota) && log != []
    ensures Lawful(log[..|log| - 1], quota)
  {
    var front := log[..|log| - 1];
    assert forall i | 0 <= i < |front| :: front[i] == log[i];
  }

  lemma LawfulPair(log: seq<Entry>, quota: Option<real>, i: nat, j: nat)
    requires Lawful(log, quota) && i < j < |log| && log[i].Refilled? && log[j].Refilled?
    ensures 0.0 <= log[j].rate && 0.0 <= log[j].elapsed <= log[j].now - log[i].now
    ensures quota.Some? ==> log[j].rate <= quota.value
  {
  }

  /** From a decision point on, credit and consumption together never outgrow the quota's time. */
  lemma {:induction false} CreditBalance(log: seq<Entry>, i: nat, quota: real, grain: real)
    requires Lawful(log, Some(quota)) && 0.0 <= quota && i < |log| && log[i].Refilled?
    ensures Credit(log, grain) + Consumed(log) - Consumed(log[..i + 1])
            <= Credit(log[..i + 1], grain) + quota * (log[LastTick(log, i)].now - log[i].now)
    decreases |log|
  {
    hide Lawful, Saved, Post;
    var front, last := log[..|log| - 1], log[|log| - 1];
    assert last.Charged? ==> Post(Credit(front, grain), last, grain) == Credit(front, grain) - last.delta by {
      Charges(Credit(front, grain), last, grain);
    }
    if i == |log| - 1 {
      assert log[..i + 1] == log;
    } else {
      LawfulFront(log, Some(quota));
      CreditBalance(front, i, quota, grain);
      assert front[..i + 1] == log[..i + 1] && front[i] == log[i];
      var k := LastTick(front, i);
      assert front[k] == log[k];
      if last.Refilled? {
        LawfulPair(log, Some(quota), k, |log| - 1);
        Refills(Credit(front, grain), last, quota, log[i].now, log[k].now, grain);
      } else {
        assert Credit(log, grain) + Consumed(log) == Credit(front, grain) + Consumed(front);
      }
    }
  }

  /** A refill gives at most the quota's time since the decision point before it. */
  lemma Refills(credit: real, e: Entry, quota: real, start: real, before: real, grain: real)
    requires e.Refilled? && 0.0 <= e.rate <= quota && 0.0 <= e.elapsed <= e.now - before
    ensures Post(credit, e, grain) + quota * (before - start) <= credit + quota * (e.now - start)
  {
    RateTime(e.rate, quota, e.elapsed, e.now - before);
    Spans(quota, start, before, e.now);
  }

  lemma Charges(credit: real, e: Entry, grain: real)
    ensures e.Charged? ==> Post(credit, e, grain) == credit - e.delta
  {
  }

  lemma Spans(quota: real, a: real, b: real, c: real)
    ensures quota * (b - a) + quota * (c - b) == quota * (c - a)
  {
  }

  /**
   * Between any two decision points a job with a quota consumes at most the quota's time and one burst, less the
   * credit it ends with. Debt is never erased: what was overdrawn before the window is missing in it.
   */
  lemma QuotaHolds(log: seq<Entry>, i: nat, j: nat, quota: real, grain: real)
    requires Lawful(log, Some(quota)) && 0.0 <= quota && 0.0 <= grain
    requires i < j < |log| && log[i].Refilled? && log[j].Refilled?
    ensures Consumed(log[..j + 1]) - Consumed(log[..i + 1])
            <= quota * (log[j].now - log[i].now) + Credit(log[..i + 1], grain) - Credit(log[..j + 1], grain)
    ensures Credit(log[..i + 1], grain) <= MaxR(quota * 0.10, grain)
    ensures Credit(log[..j + 1], grain) >= 0.0 ==>
              Consumed(log[..j + 1]) - Consumed(log[..i + 1])
              <= quota * (log[j].now - log[i].now) + MaxR(quota * 0.10, grain)
  {
    hide Credit, Consumed, Saved;
    var upto := log[..j + 1];
    assert forall k | 0 <= k < |upto| :: upto[k] == log[k];
    assert Lawful(upto, Some(quota));
    assert Lawful(log[..i + 1], Some(quota)) by {
      assert forall k | 0 <= k < i + 1 :: log[..i + 1][k] == log[k];
    }
    hide Lawful;
    CreditBalance(upto, i, quota, grain);
    assert LastTick(upto, i) == j;
    assert upto[..i + 1] == log[..i + 1];
    CreditIsBounded(log[..i + 1], quota, grain);
  }

  /** What the refills of a log grant before any is cut off. */
  function Granted(log: seq<Entry>): real {
    if log == [] then 0.0
    else Granted(log[..|log| - 1]) + if log[|log| - 1].Refilled? then log[|log| - 1].rate * log[|log| - 1].elapsed else 0.0
  }

  /** No refill was cut off at the most that may be saved. */
  predicate Uncut(log: seq<Entry>, grain: real) {
    log == [] || (
      var front, last := log[..|log| - 1], log[|log| - 1];
      && Uncut(front, grain)
      && (last.Refilled? ==> Credit(front, grain) + last.rate * last.elapsed <= MaxR(last.rate * 0.10, grain)))
  }

  /**
   * Credit is conserved: what was granted is consumed or still there, and none of it is lost if and only if no refill
   * was cut off. In particular nothing is ever added to forgive a debt.
   */
  lemma {:induction false} CreditIsConserved(log: seq<Entry>, grain: real)
    ensures Credit(log, grain) + Consumed(log) <= Granted(log)
    ensures Credit(log, grain) + Consumed(log) == Granted(log) <==> Uncut(log, grain)
  {
    if log != [] {
      var front, last := log[..|log| - 1], log[|log| - 1];
      CreditIsConserved(front, grain);
      var granted := if last.Refilled? then last.rate * last.elapsed else 0.0;
      assert Granted(log) == Granted(front) + granted;
    }
  }

  /* Sampling. */

  /** The time that sampling the counter counts. */
  function Counted(readings: seq<real>): real {
    if |readings| < 2 then 0.0
    else
      var last, before := readings[|readings| - 1], readings[|readings| - 2];
      Counted(readings[..|readings| - 1]) + MaxR(0.0, last - before)
  }

  /** No reading lies below the one before it. */
  predicate Rising(readings: seq<real>) {
    |readings| < 2
    || (Rising(readings[..|readings| - 1]) && readings[|readings| - 2] <= readings[|readings| - 1])
  }

  /** Sampling counts exactly the time between the first and the last reading if, and only if, the counter never falls. */
  lemma {:induction false} CountedExactly(readings: seq<real>)
    requires readings != []
    ensures Counted(readings) >= readings[|readings| - 1] - readings[0]
    ensures Counted(readings) == readings[|readings| - 1] - readings[0] <==> Rising(readings)
  {
    if |readings| >= 2 {
      CountedExactly(readings[..|readings| - 1]);
    }
  }

  lemma CountedGrows(readings: seq<real>, cpu: real)
    ensures Counted(readings + [cpu]) ==
            Counted(readings) + Gain(if readings == [] then None else Some(readings[|readings| - 1]), cpu)
  {
    assert (readings + [cpu])[..|readings|] == readings;
  }

  /** What a sample charges: nothing for the first one, and never a negative amount. */
  function Gain(previous: Option<real>, cpu: real): real {
    if previous.Some? then MaxR(0.0, cpu - previous.value) else 0.0
  }

  lemma GainPositive(previous: Option<real>, cpu: real)
    ensures 0.0 <= Gain(previous, cpu)
  {
  }

  /** The time since the last sample; the first one has none. */
  function Since(last: real, now: real): real {
    if last != 0.0 then MaxR(0.0, now - last) else 0.0
  }

  /** The time a sample covers: none for the first one, and none if the clock runs backwards. */
  lemma SinceIs(last: real, now: real)
    ensures Since(last, now) == if last == 0.0 || now < last then 0.0 else now - last
    ensures 0.0 <= Since(last, now)
  {
  }

  lemma SamplesGrow(samples: seq<CD.Sample>, s: CD.Sample)
    requires CD.Counting(samples) && 0.0 <= s.charged && 0.0 <= s.elapsed
    ensures CD.After(samples + [s]) == CD.Watched(CD.After(samples), s) && CD.Counting(samples + [s])
  {
    assert (samples + [s])[..|samples|] == samples;
  }

  class Job {
    const weight: real
    const quota: Option<real>
    const grain: real
    var credit: real
    var total: real
    var previous: Option<real>
    var helpersCpu: real
    var lastSample: real
    var activeUntil: real
    var demand: Option<real>
    var window: CD.Window
    var rate: real
    var ready: bool
    var paused: bool
    var desiredPause: bool
    var degraded: bool
    ghost var log: seq<Entry>
    ghost var readings: seq<real>
    ghost var samples: seq<CD.Sample>

    ghost predicate Valid()
      reads this
    {
      && 0.0 < weight && 0.0 <= grain && (quota.Some? ==> 0.0 <= quota.value) && (demand.Some? ==> 0.0 <= demand.value)
      && Lawful(log, quota)
      && credit == Credit(log, grain) && total == Consumed(log) == Counted(readings)
      && (previous.None? <==> readings == []) && (previous.Some? ==> readings[|readings| - 1] == previous.value)
      && window == CD.After(samples) && CD.Counting(samples)
    }

    /** No decision point of this job lies after the time. */
    ghost predicate TickedBy(now: real)
      reads this
    {
      forall i | 0 <= i < |log| && log[i].Refilled? :: log[i].now <= now
    }

    constructor (weight: real, quota: Option<real>, grain: real, now: real)
      requires 0.0 < weight && 0.0 <= grain && (quota.Some? ==> 0.0 <= quota.value)
      ensures Valid() && this.weight == weight && this.quota == quota && this.grain == grain
      ensures log == [] && readings == [] && samples == [] && !paused && !desiredPause && !degraded && TickedBy(now)
    {
      this.weight, this.quota, this.grain := weight, quota, grain;
      credit, total, previous, helpersCpu, lastSample := 0.0, 0.0, None, 0.0, 0.0;
      activeUntil, demand, window, rate := now + 0.2, None, CD.OPENING, 0.0;
      ready, paused, desiredPause, degraded := false, false, false, false;
      log, readings, samples := [], [], [];
    }

    /** A sample of the runtime: the processor time it used, its runnable tasks, and whether it is paused. */
    method UpdateSample(cpuTime: real, runnable: int, isPaused: bool, now: real)
      requires Valid()
      modifies this`previous, this`total, this`credit, this`lastSample, this`demand, this`window, this`activeUntil,
               this`paused, this`log, this`readings, this`samples
      ensures Valid()
      ensures readings == old(readings) + [cpuTime + helpersCpu]
      ensures log == old(log) + [Charged(Gain(old(previous), cpuTime + helpersCpu))]
      ensures samples == old(samples) + [CD.Sample(Gain(old(previous), cpuTime + helpersCpu), Since(old(lastSample), now),
                                                   if runnable < 0 then 0 else runnable, now, old(paused))]
      ensures paused == isPaused && lastSample == now && demand == CD.Demand(window, old(paused))
      ensures activeUntil == if Gain(old(previous), cpuTime + helpersCpu) > 0.001 || runnable > 0
                             then now + 0.10 else old(activeUntil)
    {
      hide Credit, Consumed, Lawful, Counted, MaxR, CD.After, CD.Counting, CD.Watched, CD.Demand, Gain, Since, MinR;
      var cpu := cpuTime + helpersCpu;
      CountedGrows(readings, cpu);
      var delta, elapsed, waiting := Gain(previous, cpu), Since(lastSample, now), if runnable < 0 then 0 else runnable;
      GainPositive(previous, cpu);
      SinceIs(lastSample, now);
      previous := Some(cpu);
      readings := readings + [cpu];
      Charge(delta);
      lastSample := now;
      Observe(delta, elapsed, waiting, now);
      activeUntil := if delta > NOTICEABLE || runnable > 0 then now + ACTIVE_WINDOW else activeUntil;
      paused := isPaused;
    }

    /** Counts consumed time against the credit. */
    method Charge(delta: real)
      requires Lawful(log, quota) && credit == Credit(log, grain) && total == Consumed(log) && 0.0 <= delta
      modifies this`total, this`credit, this`log
      ensures Lawful(log, quota) && credit == Credit(log, grain) && total == Consumed(log)
      ensures log == old(log) + [Charged(delta)] && total == old(total) + delta
    {
      hide Credit, Consumed, Lawful;
      LogGrows(log, quota, Charged(delta), grain);
      total := total + delta;
      credit := credit - delta;
      log := log + [Charged(delta)];
    }

    /** What a sample does to the demand window: nothing is observed while the job is paused. */
    method Observe(delta: real, elapsed: real, runnable: nat, now: real)
      requires window == CD.After(samples) && CD.Counting(samples) && 0.0 <= delta && 0.0 <= elapsed
      modifies this`demand, this`window, this`samples
      ensures samples == old(samples) + [CD.Sample(delta, elapsed, runnable, now, paused)]
      ensures window == CD.After(samples) && CD.Counting(samples)
      ensures demand == CD.Demand(window, paused) && (demand.Some? ==> 0.0 <= demand.value)
    {
      hide CD.After, CD.Counting;
      ghost var s := CD.Sample(delta, elapsed, runnable, now, paused);
      SamplesGrow(samples, s);
      var w := window;
      if paused {
        demand := None;
        w := w.(floor := 0, since := now);
      } else {
        w := w.(cpu := w.cpu + delta, elapsed := w.elapsed + elapsed);
        w := w.(floor := if runnable < w.floor then runnable else w.floor);
        if now - w.since >= CD.RUNNABLE_WINDOW {
          w := w.(waiting := w.floor, floor := runnable, since := now);
        }
        if w.elapsed >= CD.DEMAND_WINDOW {
          w := w.(observed := Some(w.cpu / w.elapsed), cpu := 0.0, elapsed := 0.0);
        }
        demand := if w.observed.None? then None else Some(MaxR(w.observed.value, w.waiting as real));
      }
      window := w;
      samples := samples + [s];
      CD.DemandIsPositive(samples);
    }

    /** Adds the rate's time to the credit, up to a burst. */
    method Refill(rate': real, elapsed: real, ghost now: real)
      requires Valid() && 0.0 <= rate' && 0.0 <= elapsed && (quota.Some? ==> rate' <= quota.value)
      requires forall i | 0 <= i < |log| && log[i].Refilled? :: elapsed <= now - log[i].now
      modifies this`credit, this`log
      ensures Valid() && log == old(log) + [Refilled(rate', elapsed, now)]
      ensures credit == Post(old(credit), Refilled(rate', elapsed, now), grain)
    {
      hide Credit, Consumed, Lawful, Counted;
      LogGrows(log, quota, Refilled(rate', elapsed, now), grain);
      credit := MinR(MaxR(rate' * BURST, grain), credit + rate' * elapsed);
      log := log + [Refilled(rate', elapsed, now)];
    }
  }

  /** The shares at which idle jobs save credit add up to all processors. */
  function Shares(jobs: seq<Job>, cpus: nat, totalWeight: real): real
    requires totalWeight != 0.0
    reads jobs`degraded
  {
    if jobs == [] then 0.0
    else
      var last := jobs[|jobs| - 1];
      Shares(jobs[..|jobs| - 1], cpus, totalWeight) + if last.degraded then 0.0 else cpus as real * last.weight / totalWeight
  }

  lemma {:induction false} SharesAddUp(jobs: seq<Job>, cpus: nat, totalWeight: real)
    requires totalWeight != 0.0
    ensures Shares(jobs, cpus, totalWeight) == cpus as real * Eligible(jobs) / totalWeight
  {
    if jobs != [] {
      var front, last := jobs[..|jobs| - 1], jobs[|jobs| - 1];
      SharesAddUp(front, cpus, totalWeight);
      Fractions(cpus as real, Eligible(front), last.weight, totalWeight);
    }
  }

  lemma Fractions(c: real, a: real, b: real, total: real)
    requires total != 0.0
    ensures c * a / total + c * b / total == c * (a + b) / total
  {
    assert c * (a + b) == c * a + c * b;
  }

  lemma IdleShareIsRate(job: Job, cpus: nat, totalWeight: real)
    requires 0.0 < job.weight <= totalWeight && (job.quota.Some? ==> 0.0 <= job.quota.value)
    ensures var rate := Below(job.quota, cpus as real * job.weight / totalWeight);
            0.0 <= rate && (job.quota.Some? ==> rate <= job.quota.value)
  {
    MulOrdered(0.0, cpus as real, job.weight);
  }

  predicate DistinctJobs(jobs: seq<Job>) {
    forall i, j | 0 <= i < j < |jobs| :: jobs[i] != jobs[j]
  }

  /** Registered weights, quotas and demands by position, as the allocation reads them. */
  ghost predicate Describes(jobs: seq<Job>, weight: Rates, quota: Caps, demand: Caps)
    reads jobs`demand
  {
    forall i | 0 <= i < |jobs| ::
      && i in weight && i in quota && i in demand
      && weight[i] == jobs[i].weight && quota[i] == jobs[i].quota && demand[i] == jobs[i].demand
  }

  lemma NothingDescribed()
    ensures Describes([], map[], map[], map[]) && Sane([], map[], map[], map[])
  {
  }

  lemma OneDescribed(jobs: seq<Job>, job: Job, active: seq<nat>, weight: Rates, quota: Caps, demand: Caps)
    requires job.Valid() && Describes(jobs, weight, quota, demand) && Sane(active, weight, quota, demand)
    requires forall k | k in active :: k < |jobs|
    ensures var i, w, q, d := |jobs|, weight[|jobs| := job.weight], quota[|jobs| := job.quota], demand[|jobs| := job.demand];
            && Describes(jobs + [job], w, q, d) && Sane(active, w, q, d) && Sane(active + [i], w, q, d)
  {
    var all := jobs + [job];
    assert forall i | 0 <= i < |jobs| :: all[i] == jobs[i];
    var w, q, d := weight[|jobs| := job.weight], quota[|jobs| := job.quota], demand[|jobs| := job.demand];
    SaneNext(active, |jobs|, w, q, d);
  }

  lemma SaneNext(active: seq<nat>, i: nat, weight: Rates, quota: Caps, demand: Caps)
    requires Sane(active, weight, quota, demand) && (forall k | k in active :: k != i)
    requires i in weight && i in quota && i in demand && 0.0 < weight[i]
    requires (quota[i].Some? ==> 0.0 <= quota[i].value) && (demand[i].Some? ==> 0.0 <= demand[i].value)
    ensures Sane(active + [i], weight, quota, demand)
  {
    var all := active + [i];
    assert forall k | 0 <= k < |active| :: all[k] == active[k] && active[k] in active;
    forall j | j in all ensures j in active || j == i {
    }
    assert Distinct(all);
  }

  /** The weight of all jobs that still take part. */
  function Eligible(jobs: seq<Job>): real
    reads jobs`degraded
  {
    if jobs == [] then 0.0
    else Eligible(jobs[..|jobs| - 1]) + if jobs[|jobs| - 1].degraded then 0.0 else jobs[|jobs| - 1].weight
  }

  lemma EligibleNext(jobs: seq<Job>, job: Job)
    ensures Eligible(jobs + [job]) == Eligible(jobs) + if job.degraded then 0.0 else job.weight
  {
    assert (jobs + [job])[..|jobs|] == jobs;
  }

  lemma NoneEligible()
    ensures Eligible([]) == 0.0
  {
  }

  lemma QuotaDescribed(jobs: seq<Job>, i: nat, weight: Rates, quota: Caps, demand: Caps)
    requires i < |jobs| && Describes(jobs, weight, quota, demand)
    ensures i in quota && quota[i] == jobs[i].quota
  {
  }

  /** The jobs of a broker as objects. */
  ghost function Objects(jobs: seq<Job>): set<Job> {
    set j | j in jobs
  }

  class Broker {
    const cpus: nat
    var previous: real

    constructor (cpus: nat, now: real)
      ensures this.cpus == cpus && previous == now
    {
      this.cpus, previous := cpus, now;
    }

    ghost predicate Ready(jobs: seq<Job>)
      reads this, jobs
    {
      DistinctJobs(jobs) && forall i | 0 <= i < |jobs| :: jobs[i].Valid() && jobs[i].TickedBy(previous)
    }

    method Describe(jobs: seq<Job>, suspended: set<nat>, now: real)
      returns (active: seq<nat>, weight: Rates, quota: Caps, demand: Caps, totalWeight: real)
      requires forall i | 0 <= i < |jobs| :: jobs[i].Valid()
      ensures Describes(jobs, weight, quota, demand) && Sane(active, weight, quota, demand)
      ensures forall i: nat :: i in active <==>
                && i < |jobs| && !jobs[i].degraded && i !in suspended && jobs[i].ready
                && (jobs[i].paused || now < jobs[i].activeUntil)
      ensures forall i | 0 <= i < |jobs| && !jobs[i].degraded :: 0.0 < jobs[i].weight <= totalWeight
      ensures totalWeight == Eligible(jobs)
    {
      hide Lawful, Credit, Consumed, Counted, Sane, Describes, Eligible;
      active, weight, quota, demand, totalWeight := [], map[], map[], map[], 0.0;
      NothingDescribed();
      assert jobs[..0] == [];
      NoneEligible();
      for i := 0 to |jobs|
        invariant Describes(jobs[..i], weight, quota, demand) && Sane(active, weight, quota, demand)
        invariant forall k: nat :: k in active <==>
                  && k < i && !jobs[k].degraded && k !in suspended && jobs[k].ready
                  && (jobs[k].paused || now < jobs[k].activeUntil)
        invariant totalWeight == Eligible(jobs[..i])
        invariant 0.0 <= totalWeight && forall k | 0 <= k < i && !jobs[k].degraded :: jobs[k].weight <= totalWeight
      {
        var job := jobs[i];
        assert jobs[..i + 1] == jobs[..i] + [job];
        EligibleNext(jobs[..i], job);
        OneDescribed(jobs[..i], job, active, weight, quota, demand);
        weight, quota, demand := weight[i := job.weight], quota[i := job.quota], demand[i := job.demand];
        if !job.degraded {
          totalWeight := totalWeight + job.weight;
        }
        if !job.degraded && job.ready && i !in suspended && (job.paused || job.activeUntil > now) {
          active := active + [i];
        }
      }
      assert jobs[..|jobs|] == jobs;
    }

    /**
     * What a decision point makes of one job. A job that failed is to be let go. One that is suspended, does not run
     * or was not active lately saves credit at its share of all processors, within its quota, and is to be let go. Any
     * other is refilled at its allocated rate and is to be paused exactly if it is in debt.
     */
    twostate predicate Decided(job: Job, i: nat, suspended: set<nat>, rates: Rates, totalWeight: real, elapsed: real,
                               now: real)
      requires totalWeight != 0.0 || job.degraded
      reads job
    {
      if job.degraded then !job.desiredPause && job.log == old(job.log) && job.rate == old(job.rate)
      else if i in suspended || !job.ready || (!job.paused && job.activeUntil <= now) then
        && job.log == old(job.log)
                      + [Refilled(Below(job.quota, cpus as real * job.weight / totalWeight), elapsed, now)]
        && job.rate == 0.0 && !job.desiredPause
      else
        && i in rates && job.log == old(job.log) + [Refilled(rates[i], elapsed, now)]
        && job.rate == rates[i] && job.desiredPause == (job.credit < 0.0)
    }

    /** The decision is the one that the hand-off to lifecycle clients is proved for. */
    ghost predicate FollowsProtocol(job: Job, i: nat, suspended: set<nat>, now: real)
      reads job
    {
      forall s: PP.State | s.suspended == (i in suspended) ::
        var inDebt := job.ready && (job.paused || now < job.activeUntil) && job.credit < 0.0;
        job.desiredPause == PP.Next(s, PP.Decide(inDebt, s.scanning)).desired
    }

    method DecideOne(job: Job, i: nat, active: seq<nat>, ghost suspended: set<nat>, rates: Rates, totalWeight: real,
                     elapsed: real, ghost now: real)
      requires job.Valid() && 0.0 <= elapsed
      requires forall k | 0 <= k < |job.log| && job.log[k].Refilled? :: elapsed <= now - job.log[k].now
      requires !job.degraded ==> job.weight <= totalWeight
      requires totalWeight != 0.0 || job.degraded
      requires i in active <==> !job.degraded && i !in suspended && job.ready && (job.paused || now < job.activeUntil)
      requires i in active ==> i in rates && 0.0 <= rates[i] && (job.quota.Some? ==> rates[i] <= job.quota.value)
      modifies job`credit, job`log, job`rate, job`desiredPause
      ensures job.Valid() && Decided(job, i, suspended, rates, totalWeight, elapsed, now)
      ensures !job.degraded ==> FollowsProtocol(job, i, suspended, now)
    {
      hide Lawful, Credit, Consumed, Counted, Post;
      if job.degraded {
        job.desiredPause := false;
      } else if i !in active {
        IdleShareIsRate(job, cpus, totalWeight);
        var share := cpus as real * job.weight / totalWeight;
        job.Refill(if job.quota.Some? then MinR(share, job.quota.value) else share, elapsed, now);
        job.rate := 0.0;
        job.desiredPause := false;
      } else {
        job.rate := rates[i];
        job.Refill(job.rate, elapsed, now);
        job.desiredPause := job.credit < 0.0;
      }
    }

    method DecideAll(jobs: seq<Job>, active: seq<nat>, ghost suspended: set<nat>, rates: Rates, totalWeight: real,
                     elapsed: real, ghost now: real)
      requires Ready(jobs) && 0.0 <= elapsed <= now - previous
      requires forall i | 0 <= i < |jobs| && !jobs[i].degraded :: 0.0 < jobs[i].weight <= totalWeight
      requires forall i: nat :: i in active <==>
                && i < |jobs| && !jobs[i].degraded && i !in suspended && jobs[i].ready
                && (jobs[i].paused || now < jobs[i].activeUntil)
      requires forall i: nat | i in active :: i in rates
                 && 0.0 <= rates[i] && (jobs[i].quota.Some? ==> rates[i] <= jobs[i].quota.value)
      modifies Objects(jobs)`credit, Objects(jobs)`log, Objects(jobs)`rate, Objects(jobs)`desiredPause
      ensures forall i | 0 <= i < |jobs| && !jobs[i].degraded :: totalWeight != 0.0
      ensures forall i | 0 <= i < |jobs| :: jobs[i].Valid() && jobs[i].TickedBy(now)
                                            && Decided(jobs[i], i, suspended, rates, totalWeight, elapsed, now)
                                            && (!jobs[i].degraded ==> FollowsProtocol(jobs[i], i, suspended, now))
    {
      hide Lawful, Credit, Consumed, Counted, Post, Job.Valid;
      for i := 0 to |jobs|
        invariant forall k | 0 <= k < i ::
                    jobs[k].Valid() && jobs[k].TickedBy(now)
                    && Decided(jobs[k], k, suspended, rates, totalWeight, elapsed, now)
                    && (!jobs[k].degraded ==> FollowsProtocol(jobs[k], k, suspended, now))
        invariant forall k | i <= k < |jobs| :: unchanged(jobs[k])
      {
        DecideOne(jobs[i], i, active, suspended, rates, totalWeight, elapsed, now);
      }
    }

    /**
     * One decision point. Every job that still takes part is refilled: the active ones at the allocated rate, the
     * others at their idle rate; only an active job in debt is to be paused. A suspended job is never active.
     */
    method Tick(jobs: seq<Job>, suspended: set<nat>, now: real)
      returns (ghost active: seq<nat>, ghost rates: Rates, ghost totalWeight: real, ghost elapsed: real,
               ghost weight: Rates, ghost quota: Caps, ghost demand: Caps)
      requires Ready(jobs) && previous <= now
      modifies this`previous, Objects(jobs)`credit, Objects(jobs)`log, Objects(jobs)`rate, Objects(jobs)`desiredPause
      ensures Ready(jobs) && previous == now
      ensures elapsed == if now - old(previous) < 0.2 then now - old(previous) else 0.2
      ensures totalWeight == Eligible(jobs) && forall i | 0 <= i < |jobs| && !jobs[i].degraded :: totalWeight != 0.0
      ensures forall i | 0 <= i < |jobs| :: Decided(jobs[i], i, suspended, rates, totalWeight, elapsed, now)
      ensures forall i | 0 <= i < |jobs| && !jobs[i].degraded :: FollowsProtocol(jobs[i], i, suspended, now)
      ensures forall i: nat :: i in active <==>
                && i < |jobs| && !jobs[i].degraded && i !in suspended && jobs[i].ready
                && (jobs[i].paused || now < jobs[i].activeUntil)
      ensures Describes(jobs, weight, quota, demand) && Sane(active, weight, quota, demand)
      ensures Allocated(active, cpus as real, weight, quota, demand, rates)
    {
      hide Lawful, Credit, Consumed, Counted, Post, Sane, Allocated, Job.Valid, Total, Describes, Eligible, Below,
           FollowsProtocol;
      var spent := MinR(now - previous, MAX_ELAPSED);
      var ids, w, q, d, total := Describe(jobs, suspended, now);
      var given := AllocateRates(ids, cpus as real, w, q, d);
      AllocationIsComplete(ids, cpus as real, w, q, d, given);
      forall i: nat | i in ids ensures i in q && q[i] == jobs[i].quota {
        QuotaDescribed(jobs, i, w, q, d);
      }
      active, rates, totalWeight, elapsed, weight, quota, demand := ids, given, total, spent, w, q, d;
      DecideAll(jobs, ids, suspended, given, total, spent, now);
      previous := now;
    }
  }

  lemma LogGrows(log: seq<Entry>, quota: Option<real>, e: Entry, grain: real)
    requires Lawful(log, quota)
    requires match e
             case Charged(delta) => 0.0 <= delta
             case Refilled(rate, elapsed, now) =>
               && 0.0 <= rate && 0.0 <= elapsed && (quota.Some? ==> rate <= quota.value)
               && forall i | 0 <= i < |log| && log[i].Refilled? :: elapsed <= now - log[i].now
    ensures Lawful(log + [e], quota)
    ensures Credit(log + [e], grain) == Post(Credit(log, grain), e, grain)
    ensures Consumed(log + [e]) == Consumed(log) + if e.Charged? then e.delta else 0.0
  {
    assert (log + [e])[..|log|] == log;
  }
}
