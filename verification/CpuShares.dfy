/** Weighted water-filling: how the broker divides its processors among the active jobs. */
module CpuShares {
  import opened Bytes

  type Id = nat
  type Rates = map<Id, real>
  type Caps = map<Id, Option<real>>

  predicate Distinct(jobs: seq<Id>) {
    forall i, j | 0 <= i < j < |jobs| :: jobs[i] != jobs[j]
  }

  function Total(jobs: seq<Id>, f: Rates): real
    requires forall j | j in jobs :: j in f
  {
    if jobs == [] then 0.0 else f[jobs[0]] + Total(jobs[1..], f)
  }

  /** What a pass is given: positive weights, no rate above its cap, and something or nothing to give away. */
  predicate Fillable(jobs: seq<Id>, weight: Rates, caps: Caps, base: Rates, capacity: real) {
    && Distinct(jobs) && 0.0 <= capacity
    && forall j | j in jobs :: j in weight && j in caps && j in base && 0.0 < weight[j]
                               && (caps[j].Some? ==> base[j] <= caps[j].value)
  }

  /** A rate, cut off at its cap if it has one. */
  function Below(cap: Option<real>, rate: real): (r: real)
    ensures r <= rate && (cap.Some? ==> r <= cap.value) && (r == rate || cap == Some(r))
  {
    if cap.Some? && cap.value < rate then cap.value else rate
  }

  /** Every job is raised by the level times its weight, up to its cap. */
  predicate AtLevel(jobs: seq<Id>, weight: Rates, caps: Caps, base: Rates, rates: Rates, level: real) {
    && 0.0 <= level
    && forall j | j in jobs :: j in weight && j in caps && j in base && j in rates
                               && rates[j] == Below(caps[j], base[j] + level * weight[j])
  }

  /** Either the capacity is used up, or every job is at its cap. */
  predicate Spent(jobs: seq<Id>, caps: Caps, base: Rates, capacity: real, rates: Rates)
    requires forall j | j in jobs :: j in base && j in rates && j in caps
  {
    || Total(jobs, rates) == Total(jobs, base) + capacity
    || ((forall j | j in jobs :: caps[j] == Some(rates[j])) && Total(jobs, rates) <= Total(jobs, base) + capacity)
  }

  /** A pass has distributed the capacity at a common level. */
  ghost predicate Filled(jobs: seq<Id>, weight: Rates, caps: Caps, base: Rates, capacity: real, rates: Rates) {
    && (exists level :: AtLevel(jobs, weight, caps, base, rates, level))
    && (forall j | j in jobs :: j in base && j in rates && j in caps)
    && Spent(jobs, caps, base, capacity, rates)
  }

  /* Sums. */

  lemma {:induction false} TotalSplit(jobs: seq<Id>, i: nat, f: Rates)
    requires i < |jobs| && forall j | j in jobs :: j in f
    ensures forall j | j in jobs[..i] + jobs[i + 1..] :: j in jobs
    ensures Total(jobs, f) == Total(jobs[..i] + jobs[i + 1..], f) + f[jobs[i]]
  {
    var rest := jobs[..i] + jobs[i + 1..];
    if i == 0 {
      assert rest == jobs[1..];
    } else {
      TotalSplit(jobs[1..], i - 1, f);
      assert rest[1..] == jobs[1..][..i - 1] + jobs[1..][i..];
      assert rest[0] == jobs[0];
    }
  }

  lemma {:induction false} TotalAgrees(jobs: seq<Id>, f: Rates, g: Rates)
    requires forall j | j in jobs :: j in f && j in g && f[j] == g[j]
    ensures Total(jobs, f) == Total(jobs, g)
  {
    if jobs != [] {
      TotalAgrees(jobs[1..], f, g);
    }
  }

  lemma {:induction false} TotalOrdered(jobs: seq<Id>, f: Rates, g: Rates)
    requires forall j | j in jobs :: j in f && j in g && f[j] <= g[j]
    ensures Total(jobs, f) <= Total(jobs, g)
    ensures Total(jobs, f) == Total(jobs, g) ==> forall j | j in jobs :: f[j] == g[j]
  {
    if jobs != [] {
      TotalOrdered(jobs[1..], f, g);
    }
  }

  lemma RestWithout(jobs: seq<Id>, i: nat)
    requires Distinct(jobs) && i < |jobs|
    ensures Distinct(jobs[..i] + jobs[i + 1..])
    ensures forall j :: j in jobs[..i] + jobs[i + 1..] <==> j in jobs && j != jobs[i]
  {
    var rest := jobs[..i] + jobs[i + 1..];
    forall j | j in jobs && j != jobs[i] ensures j in rest {
      var k :| 0 <= k < |jobs| && jobs[k] == j;
      assert rest[if k < i then k else k - 1] == j;
    }
  }

  /** The same jobs in whatever order. */
  predicate SameJobs(a: seq<Id>, b: seq<Id>) {
    |a| == |b| && Distinct(a) && Distinct(b) && (forall j | j in a :: j in b) && (forall j | j in b :: j in a)
  }

  lemma SameWithout(a: seq<Id>, b: seq<Id>, i: nat)
    requires SameJobs(a, b) && a != [] && i < |b| && b[i] == a[0]
    ensures SameJobs(a[1..], b[..i] + b[i + 1..])
  {
    RestWithout(a, 0);
    RestWithout(b, i);
    assert a[..0] + a[1..] == a[1..];
    var rest := b[..i] + b[i + 1..];
    forall j | j in a[1..] ensures j in rest {
      assert j in a && j != a[0];
    }
    forall j | j in rest ensures j in a[1..] {
      assert j in b && j != b[i];
    }
  }

  lemma {:induction false} TotalReordered(a: seq<Id>, b: seq<Id>, f: Rates)
    requires SameJobs(a, b) && forall j | j in a :: j in f
    ensures Total(a, f) == Total(b, f)
  {
    if a != [] {
      assert a[0] in a;
      var i :| 0 <= i < |b| && b[i] == a[0];
      TotalSplit(b, i, f);
      SameWithout(a, b, i);
      TotalReordered(a[1..], b[..i] + b[i + 1..], f);
    }
  }

  lemma MulOrdered(x: real, y: real, w: real)
    requires x <= y && 0.0 <= w
    ensures x * w <= y * w
  {
  }

  lemma MulStrict(x: real, y: real, w: real)
    requires x < y && 0.0 < w
    ensures x * w < y * w
  {
  }

  /* The level never falls. */

  /**
   * Between rounds: the jobs in `remaining` are as they were, all others are at their caps, which lie below the
   * level; what is left to give is at least that level for all of `remaining`.
   */
  ghost predicate Filling(jobs: seq<Id>, weight: Rates, caps: Caps, base: Rates, capacity: real,
                          remaining: seq<Id>, left: real, rates: Rates, level: real)
    requires Fillable(jobs, weight, caps, base, capacity)
  {
    && Distinct(remaining) && (forall j | j in remaining :: j in jobs) && rates.Keys == base.Keys
    && (forall j | j in remaining :: rates[j] == base[j])
    && (forall j | j in jobs && j !in remaining ::
          caps[j] == Some(rates[j]) && rates[j] <= base[j] + level * weight[j])
    && 0.0 <= level && level * Total(remaining, weight) <= left
    && Total(jobs, rates) + left == Total(jobs, base) + capacity
  }

  /** Taking out a job whose room is below its share leaves the others no less than before. */
  lemma CapOne(jobs: seq<Id>, weight: Rates, caps: Caps, base: Rates, capacity: real,
               remaining: seq<Id>, left: real, rates: Rates, level: real, i: nat)
    requires Fillable(jobs, weight, caps, base, capacity)
    requires Filling(jobs, weight, caps, base, capacity, remaining, left, rates, level)
    requires i < |remaining|
    requires caps[remaining[i]].Some? && caps[remaining[i]].value - rates[remaining[i]] < level * weight[remaining[i]]
    ensures
      var job := remaining[i];
      Filling(jobs, weight, caps, base, capacity, remaining[..i] + remaining[i + 1..],
              left - (caps[job].value - rates[job]), rates[job := caps[job].value], level)
  {
    hide Total, Distinct;
    var job, rest := remaining[i], remaining[..i] + remaining[i + 1..];
    var rates' := rates[job := caps[job].value];
    RestWithout(remaining, i);
    TotalSplit(remaining, i, weight);
    Distributes(level, Total(rest, weight), weight[job]);
    TotalRaised(jobs, rates, rates', job, caps[job].value - rates[job]);
  }

  lemma Distributes(level: real, a: real, b: real)
    ensures level * (a + b) == level * a + level * b
  {
  }

  lemma {:induction false} TotalPositive(jobs: seq<Id>, weight: Rates)
    requires forall j | j in jobs :: j in weight && 0.0 < weight[j]
    ensures jobs == [] || 0.0 < Total(jobs, weight)
    ensures 0.0 <= Total(jobs, weight)
  {
    if jobs != [] {
      TotalPositive(jobs[1..], weight);
    }
  }

  /* The loops of a pass. */

  function Without(jobs: seq<Id>, job: Id): seq<Id> {
    if jobs == [] then [] else if jobs[0] == job then jobs[1..] else [jobs[0]] + Without(jobs[1..], job)
  }

  lemma {:induction false} WithoutIsSlice(jobs: seq<Id>, job: Id) returns (i: nat)
    requires job in jobs
    ensures i < |jobs| && jobs[i] == job && Without(jobs, job) == jobs[..i] + jobs[i + 1..]
  {
    if jobs[0] == job {
      i := 0;
    } else {
      i := WithoutIsSlice(jobs[1..], job);
      i := i + 1;
    }
  }

  /** A job whose room lies below its share of what is left. */
  predicate Tight(j: Id, weight: Rates, caps: Caps, rates: Rates, left: real, weights: real)
    requires j in weight && j in caps && j in rates && weights != 0.0
  {
    caps[j].Some? && caps[j].value - rates[j] < left * weight[j] / weights
  }

  function TightOnes(jobs: seq<Id>, weight: Rates, caps: Caps, rates: Rates, left: real, weights: real): seq<Id>
    requires (forall j | j in jobs :: j in weight && j in caps && j in rates) && weights != 0.0
  {
    if jobs == [] then []
    else
      (if Tight(jobs[0], weight, caps, rates, left, weights) then [jobs[0]] else [])
      + TightOnes(jobs[1..], weight, caps, rates, left, weights)
  }

  lemma {:induction false} TightOnesAre(jobs: seq<Id>, weight: Rates, caps: Caps, rates: Rates, left: real, weights: real)
    requires (forall j | j in jobs :: j in weight && j in caps && j in rates) && weights != 0.0 && Distinct(jobs)
    ensures var tight := TightOnes(jobs, weight, caps, rates, left, weights);
            Distinct(tight) && forall j :: j in tight <==> j in jobs && Tight(j, weight, caps, rates, left, weights)
  {
    if jobs != [] {
      TightOnesAre(jobs[1..], weight, caps, rates, left, weights);
    }
  }

  lemma Quotient(left: real, weight: real, weights: real, level: real)
    requires weights != 0.0 && level == left / weights
    ensures left * weight / weights == level * weight
  {
  }

  lemma TightBelow(j: Id, weight: Rates, caps: Caps, rates: Rates, left: real, weights: real, level: real)
    requires j in weight && j in caps && j in rates && weights != 0.0 && level == left / weights
    ensures Tight(j, weight, caps, rates, left, weights)
            <==> caps[j].Some? && caps[j].value - rates[j] < level * weight[j]
  {
    Quotient(left, weight[j], weights, level);
  }

  /** What the first jobs have been given at a level. */
  ghost predicate Given(jobs: seq<Id>, i: nat, weight: Rates, level: real, given: real)
    requires i <= |jobs| && forall j | j in jobs :: j in weight
  {
    given == level * Total(jobs[..i], weight)
  }

  lemma GivenNext(jobs: seq<Id>, i: nat, weight: Rates, level: real, given: real, share: real)
    requires i < |jobs| && (forall j | j in jobs :: j in weight) && Given(jobs, i, weight, level, given)
    requires share == level * weight[jobs[i]]
    ensures Given(jobs, i + 1, weight, level, given + share)
  {
    assert jobs[..i + 1] == jobs[..i] + [jobs[i]];
    TotalAppend(jobs[..i], jobs[i], weight);
  }

  lemma GivenAll(jobs: seq<Id>, weight: Rates, level: real, given: real)
    requires (forall j | j in jobs :: j in weight) && Given(jobs, |jobs|, weight, level, given)
    ensures given == level * Total(jobs, weight)
  {
    assert jobs[..|jobs|] == jobs;
  }

  lemma NextLevel(left: real, weights: real, level: real) returns (next: real)
    requires 0.0 < weights && level * weights <= left
    ensures next == left / weights && next * weights == left && level <= next
  {
    next := left / weights;
    if next < level {
      MulStrict(next, level, weights);
    }
  }

  /** What is left per weight is at least the level so far. */
  lemma LevelRises(jobs: seq<Id>, weight: Rates, caps: Caps, base: Rates, capacity: real,
                   remaining: seq<Id>, left: real, rates: Rates, level: real)
    returns (next: real)
    requires Fillable(jobs, weight, caps, base, capacity) && remaining != []
    requires Filling(jobs, weight, caps, base, capacity, remaining, left, rates, level)
    ensures 0.0 < Total(remaining, weight) && next == left / Total(remaining, weight) && level <= next
    ensures Filling(jobs, weight, caps, base, capacity, remaining, left, rates, next)
  {
    hide Total, Distinct;
    TotalPositive(remaining, weight);
    next := NextLevel(left, Total(remaining, weight), level);
    forall j | j in jobs && j !in remaining ensures rates[j] <= base[j] + next * weight[j] {
      MulOrdered(level, next, weight[j]);
    }
  }

  method Cap(jobs: seq<Id>, weight: Rates, caps: Caps, ghost base: Rates, ghost capacity: real,
             remaining: seq<Id>, left: real, rates: Rates, ghost level: real, tight: seq<Id>)
    returns (remaining': seq<Id>, left': real, rates': Rates)
    requires Fillable(jobs, weight, caps, base, capacity)
    requires Filling(jobs, weight, caps, base, capacity, remaining, left, rates, level)
    requires Distinct(tight) && forall j | j in tight ::
               j in remaining && caps[j].Some? && caps[j].value - rates[j] < level * weight[j]
    ensures Filling(jobs, weight, caps, base, capacity, remaining', left', rates', level)
    ensures |remaining'| == |remaining| - |tight|
    ensures forall j | j in base && j !in jobs :: rates'[j] == rates[j]
  {
    hide Total;
    remaining', left', rates' := remaining, left, rates;
    for i := 0 to |tight|
      invariant Filling(jobs, weight, caps, base, capacity, remaining', left', rates', level)
      invariant |remaining'| == |remaining| - i
      invariant forall k | i <= k < |tight| :: tight[k] in remaining'
      invariant forall j | j in base && j !in jobs :: rates'[j] == rates[j]
    {
      var job := tight[i];
      ghost var at := WithoutIsSlice(remaining', job);
      CapOne(jobs, weight, caps, base, capacity, remaining', left', rates', level, at);
      RestWithout(remaining', at);
      left' := left' - (caps[job].value - rates'[job]);
      rates' := rates'[job := caps[job].value];
      remaining' := Without(remaining', job);
    }
  }

  lemma {:induction false} TotalRaised(jobs: seq<Id>, f: Rates, g: Rates, job: Id, d: real)
    requires Distinct(jobs) && job in jobs && forall j | j in jobs :: j in f && j in g
    requires g[job] == f[job] + d && forall j | j in jobs && j != job :: f[j] == g[j]
    ensures Total(jobs, g) == Total(jobs, f) + d
  {
    if jobs[0] == job {
      TotalAgrees(jobs[1..], f, g);
    } else {
      TotalRaised(jobs[1..], f, g, job, d);
    }
  }

  lemma {:induction false} TotalAppend(jobs: seq<Id>, job: Id, f: Rates)
    requires job in f && forall j | j in jobs :: j in f
    ensures Total(jobs + [job], f) == Total(jobs, f) + f[job]
  {
    if jobs == [] {
      assert jobs + [job] == [job];
    } else {
      assert (jobs + [job])[1..] == jobs[1..] + [job];
      TotalAppend(jobs[1..], job, f);
    }
  }

  lemma TotalNone(f: Rates)
    ensures Total([], f) == 0.0
  {
  }

  lemma ShareOf(remaining: seq<Id>, weight: Rates, level: real, base: Rates, rates: Rates, j: Id)
    requires j in remaining && forall o | o in remaining :: o in weight && o in base
    requires Sharing(remaining, |remaining|, weight, level, base, rates)
    ensures rates[j] == base[j] + level * weight[j]
  {
    var k :| 0 <= k < |remaining| && remaining[k] == j;
    assert rates[remaining[k]] == base[remaining[k]] + level * weight[remaining[k]];
  }

  lemma ShareFills(jobs: seq<Id>, weight: Rates, caps: Caps, base: Rates, capacity: real,
                   remaining: seq<Id>, left: real, was: Rates, rates: Rates, level: real)
    requires Fillable(jobs, weight, caps, base, capacity)
    requires Filling(jobs, weight, caps, base, capacity, remaining, left, was, level)
    requires Sharing(remaining, |remaining|, weight, level, was, rates)
    requires Total(jobs, rates) == Total(jobs, was) + left
    requires forall j | j in remaining :: caps[j].Some? ==> level * weight[j] <= caps[j].value - was[j]
    ensures Filled(jobs, weight, caps, base, capacity, rates)
    ensures rates.Keys == base.Keys && forall j | j in base && j !in jobs :: rates[j] == was[j]
  {
    hide Total, Distinct;
    forall j | j in jobs ensures rates[j] == Below(caps[j], base[j] + level * weight[j]) {
      if j in remaining {
        ShareOf(remaining, weight, level, was, rates, j);
      } else {
        assert rates[j] == was[j];
      }
    }
    assert AtLevel(jobs, weight, caps, base, rates, level);
  }

  /** The first `i` jobs have their share at the level, the others are as before. */
  ghost predicate Sharing(remaining: seq<Id>, i: nat, weight: Rates, level: real, base: Rates, rates: Rates)
    requires i <= |remaining| && forall j | j in remaining :: j in weight && j in base
  {
    && rates.Keys == base.Keys
    && (forall k | 0 <= k < i :: rates[remaining[k]] == base[remaining[k]] + level * weight[remaining[k]])
    && (forall k | i <= k < |remaining| :: rates[remaining[k]] == base[remaining[k]])
    && (forall j | j in base && j !in remaining :: rates[j] == base[j])
  }

  lemma SharingNext(remaining: seq<Id>, i: nat, weight: Rates, level: real, base: Rates, rates: Rates, share: real)
    requires Distinct(remaining) && i < |remaining| && forall j | j in remaining :: j in weight && j in base
    requires Sharing(remaining, i, weight, level, base, rates) && share == level * weight[remaining[i]]
    ensures remaining[i] in rates
    ensures Sharing(remaining, i + 1, weight, level, base, rates[remaining[i] := rates[remaining[i]] + share])
  {
    var job := remaining[i];
    var next := rates[job := rates[job] + share];
    forall k | 0 <= k < i + 1 ensures next[remaining[k]] == base[remaining[k]] + level * weight[remaining[k]] {
      if k == i {
        assert rates[job] == base[job];
      }
    }
  }

  lemma NothingGiven(remaining: seq<Id>, weight: Rates, level: real, was: Rates) returns (given: real)
    requires forall j | j in remaining :: j in weight && j in was
    ensures Given(remaining, 0, weight, level, given) && given == 0.0 && Sharing(remaining, 0, weight, level, was, was)
  {
    TotalNone(weight);
    given := 0.0;
  }

  lemma KeysKept(remaining: seq<Id>, i: nat, weight: Rates, level: real, base: Rates, rates: Rates, job: Id, share: real)
    requires i < |remaining| && job == remaining[i] && forall j | j in remaining :: j in weight && j in base
    requires Sharing(remaining, i, weight, level, base, rates)
    ensures rates.Keys == base.Keys && rates[job := rates[job] + share].Keys == base.Keys
  {
  }

  /** The last round: everyone left gets the share. `was` are the rates it starts from. */
  method Share(jobs: seq<Id>, weight: Rates, remaining: seq<Id>, left: real, was: Rates, weights: real,
               ghost level: real)
    returns (rates: Rates)
    requires Distinct(jobs) && Distinct(remaining) && forall j | j in remaining :: j in jobs
    requires forall j | j in jobs :: j in weight && j in was
    requires 0.0 < weights == Total(remaining, weight) && level == left / weights
    ensures Sharing(remaining, |remaining|, weight, level, was, rates)
    ensures Total(jobs, rates) == Total(jobs, was) + left
  {
    hide Total, Given, Sharing, Distinct;
    ghost var given := NothingGiven(remaining, weight, level, was);
    rates := was;
    for i := 0 to |remaining|
      invariant Sharing(remaining, i, weight, level, was, rates)
      invariant Given(remaining, i, weight, level, given) && rates.Keys == was.Keys
      invariant Total(jobs, rates) == Total(jobs, was) + given
    {
      var job := remaining[i];
      ghost var before := rates;
      Quotient(left, weight[job], weights, level);
      var share := left * weight[job] / weights;
      SharingNext(remaining, i, weight, level, was, rates, share);
      KeysKept(remaining, i, weight, level, was, rates, job, share);
      rates := rates[job := rates[job] + share];
      TotalRaised(jobs, before, rates, job, share);
      GivenNext(remaining, i, weight, level, given, share);
      given := given + share;
    }
    GivenAll(remaining, weight, level, given);
    LevelTimes(left, weights, level);
  }

  lemma LevelTimes(left: real, weights: real, level: real)
    requires 0.0 < weights && level == left / weights
    ensures level * weights == left
  {
  }

  /** One pass: caps the jobs that need less than their share, and gives the others what that leaves. */
  method FillRates(active: seq<Id>, capacity: real, weight: Rates, caps: Caps, base: Rates) returns (rates: Rates)
    requires Fillable(active, weight, caps, base, capacity)
    ensures Filled(active, weight, caps, base, capacity, rates)
    ensures rates.Keys == base.Keys && forall j | j in base && j !in active :: rates[j] == base[j]
  {
    hide Total, Filled, Spent, AtLevel, TightOnes;
    rates := base;
    var left, remaining := capacity, active;
    ghost var level := 0.0;
    TotalPositive(active, weight);
    while remaining != []
      invariant Filling(active, weight, caps, base, capacity, remaining, left, rates, level)
      invariant forall j | j in base && j !in active :: rates[j] == base[j]
      decreases |remaining|
    {
      level := LevelRises(active, weight, caps, base, capacity, remaining, left, rates, level);
      var weights := Total(remaining, weight);
      var tight := TightOnes(remaining, weight, caps, rates, left, weights);
      TightOnesAre(remaining, weight, caps, rates, left, weights);
      forall j | j in remaining
        ensures Tight(j, weight, caps, rates, left, weights)
                <==> caps[j].Some? && caps[j].value - rates[j] < level * weight[j]
      {
        TightBelow(j, weight, caps, rates, left, weights, level);
      }
      if tight == [] {
        forall j | j in remaining && caps[j].Some? ensures level * weight[j] <= caps[j].value - rates[j] {
          assert j !in tight;
          assert !Tight(j, weight, caps, rates, left, weights);
        }
        ghost var was := rates;
        rates := Share(active, weight, remaining, left, rates, weights, level);
        ShareFills(active, weight, caps, base, capacity, remaining, left, was, rates, level);
        return;
      }
      forall j | j in tight ensures j in remaining && caps[j].Some? && caps[j].value - rates[j] < level * weight[j] {
        assert Tight(j, weight, caps, rates, left, weights);
      }
      remaining, left, rates := Cap(active, weight, caps, base, capacity, remaining, left, rates, level, tight);
    }
    AllCapped(active, weight, caps, base, capacity, left, rates, level);
  }

  lemma AllCapped(jobs: seq<Id>, weight: Rates, caps: Caps, base: Rates, capacity: real,
                  left: real, rates: Rates, level: real)
    requires Fillable(jobs, weight, caps, base, capacity)
    requires Filling(jobs, weight, caps, base, capacity, [], left, rates, level)
    ensures Filled(jobs, weight, caps, base, capacity, rates)
  {
    TotalNone(weight);
    hide Total;
    assert AtLevel(jobs, weight, caps, base, rates, level);
  }

  /* Two passes. */

  function Least(a: Option<real>, b: Option<real>): Option<real> {
    if a.None? then b else if b.None? then a else Some(if b.value < a.value then b.value else a.value)
  }

  /** The jobs' registered weights and quotas, and their observed demand. */
  predicate Sane(active: seq<Id>, weight: Rates, quota: Caps, demand: Caps) {
    Distinct(active) &&
    forall j | j in active ::
      && j in weight && j in quota && j in demand && 0.0 < weight[j]
      && (quota[j].Some? ==> 0.0 <= quota[j].value) && (demand[j].Some? ==> 0.0 <= demand[j].value)
  }

  function Zeros(jobs: seq<Id>): Rates {
    map j | j in jobs :: 0.0
  }

  function Wanted(jobs: seq<Id>, quota: Caps, demand: Caps): Caps
    requires forall j | j in jobs :: j in quota && j in demand
  {
    map j | j in jobs :: Least(demand[j], quota[j])
  }

  /** First by demand and quota, then the rest by quota alone. */
  ghost predicate TwoPasses(active: seq<Id>, capacity: real, weight: Rates, quota: Caps, demand: Caps,
                            first: Rates, rates: Rates)
    requires Sane(active, weight, quota, demand)
  {
    && Filled(active, weight, Wanted(active, quota, demand), Zeros(active), capacity, first)
    && first.Keys == rates.Keys == Zeros(active).Keys
    && if Total(active, first) < capacity then Filled(active, weight, quota, first, capacity - Total(active, first), rates)
       else rates == first
  }

  ghost predicate Allocated(active: seq<Id>, capacity: real, weight: Rates, quota: Caps, demand: Caps, rates: Rates)
    requires Sane(active, weight, quota, demand)
  {
    exists first :: TwoPasses(active, capacity, weight, quota, demand, first, rates)
  }

  lemma {:induction false} TotalZero(jobs: seq<Id>, f: Rates)
    requires forall j | j in jobs :: j in f && f[j] == 0.0
    ensures Total(jobs, f) == 0.0
  {
    if jobs != [] {
      TotalZero(jobs[1..], f);
    }
  }

  lemma FilledWithin(jobs: seq<Id>, weight: Rates, caps: Caps, base: Rates, capacity: real, rates: Rates)
    requires Fillable(jobs, weight, caps, base, capacity) && Filled(jobs, weight, caps, base, capacity, rates)
    ensures forall j | j in jobs :: base[j] <= rates[j] && (caps[j].Some? ==> rates[j] <= caps[j].value)
    ensures Total(jobs, base) <= Total(jobs, rates) <= Total(jobs, base) + capacity
  {
    var level :| AtLevel(jobs, weight, caps, base, rates, level);
    forall j | j in jobs ensures base[j] <= rates[j] {
      MulOrdered(0.0, level, weight[j]);
    }
    TotalOrdered(jobs, base, rates);
  }

  method AllocateRates(active: seq<Id>, capacity: real, weight: Rates, quota: Caps, demand: Caps) returns (rates: Rates)
    requires Sane(active, weight, quota, demand) && 0.0 <= capacity
    ensures Allocated(active, capacity, weight, quota, demand, rates)
  {
    hide Filled;
    var caps := Wanted(active, quota, demand);
    rates := FillRates(active, capacity, weight, caps, Zeros(active));
    ghost var first := rates;
    FilledWithin(active, weight, caps, Zeros(active), capacity, first);
    var spare := if capacity - Total(active, rates) > 0.0 then capacity - Total(active, rates) else 0.0;
    if spare != 0.0 {
      rates := FillRates(active, spare, weight, quota, rates);
    }
    assert TwoPasses(active, capacity, weight, quota, demand, first, rates);
  }

  /* What the allocation means. */

  /** Rates between the base and the caps that do not exceed the capacity. */
  ghost predicate Feasible(jobs: seq<Id>, caps: Caps, base: Rates, capacity: real, rates: Rates) {
    && (forall j | j in jobs :: j in caps && j in base && j in rates && base[j] <= rates[j]
                                && (caps[j].Some? ==> rates[j] <= caps[j].value))
    && Total(jobs, rates) <= Total(jobs, base) + capacity
  }

  lemma {:induction false} SomeoneLoses(jobs: seq<Id>, f: Rates, g: Rates, j: Id) returns (k: Id)
    requires Distinct(jobs) && j in jobs && forall o | o in jobs :: o in f && o in g
    requires f[j] < g[j] && Total(jobs, g) <= Total(jobs, f)
    ensures k in jobs && g[k] < f[k]
  {
    if o :| o in jobs && g[o] < f[o] {
      k := o;
    } else {
      TotalOrdered(jobs, f, g);
      k := j;
    }
  }

  /**
   * A pass is weighted max-min fair: giving any job more takes from a job that has gained no more for its weight.
   */
  lemma FilledIsFair(jobs: seq<Id>, weight: Rates, caps: Caps, base: Rates, capacity: real, rates: Rates,
                     other: Rates, j: Id)
    returns (k: Id)
    requires Fillable(jobs, weight, caps, base, capacity) && Filled(jobs, weight, caps, base, capacity, rates)
    requires Feasible(jobs, caps, base, capacity, other)
    requires j in jobs && rates[j] < other[j]
    ensures k in jobs && other[k] < rates[k]
    ensures (rates[k] - base[k]) * weight[j] <= (rates[j] - base[j]) * weight[k]
  {
    hide Total, Distinct;
    FilledFully(jobs, weight, caps, base, capacity, rates, j, other[j]);
    k := SomeoneLoses(jobs, rates, other, j);
    GainsCompare(jobs, weight, caps, base, rates, j, k, other[j]);
  }

  lemma FilledFully(jobs: seq<Id>, weight: Rates, caps: Caps, base: Rates, capacity: real, rates: Rates,
                    j: Id, more: real)
    requires Fillable(jobs, weight, caps, base, capacity) && Filled(jobs, weight, caps, base, capacity, rates)
    requires j in jobs && rates[j] < more && (caps[j].Some? ==> more <= caps[j].value)
    ensures Total(jobs, rates) == Total(jobs, base) + capacity
  {
    hide Total, Distinct, AtLevel;
  }

  lemma GainsCompare(jobs: seq<Id>, weight: Rates, caps: Caps, base: Rates, rates: Rates, j: Id, k: Id, more: real)
    requires exists level :: AtLevel(jobs, weight, caps, base, rates, level)
    requires j in jobs && k in jobs && 0.0 < weight[j]
    requires rates[j] < more && (caps[j].Some? ==> more <= caps[j].value)
    ensures (rates[k] - base[k]) * weight[j] <= (rates[j] - base[j]) * weight[k]
  {
    var level :| AtLevel(jobs, weight, caps, base, rates, level);
    hide AtLevel;
    ShareAtLevel(j, jobs, weight, caps, base, rates, level);
    ShareAtLevel(k, jobs, weight, caps, base, rates, level);
    Product(rates[k] - base[k], level, weight[k], weight[j]);
  }

  lemma Product(gain: real, level: real, v: real, w: real)
    requires gain <= level * v && 0.0 < w
    ensures gain * w <= level * w * v
  {
    MulOrdered(gain, level * v, w);
  }

  /** The outcome of a pass is determined, so it depends neither on the order of the jobs nor on that of the rounds. */
  lemma FilledOnce(jobs: seq<Id>, jobs': seq<Id>, weight: Rates, caps: Caps, base: Rates, capacity: real,
                   rates: Rates, rates': Rates)
    requires SameJobs(jobs, jobs') && Fillable(jobs, weight, caps, base, capacity)
    requires Filled(jobs, weight, caps, base, capacity, rates) && Filled(jobs', weight, caps, base, capacity, rates')
    ensures forall j | j in jobs :: rates[j] == rates'[j]
  {
    var a :| AtLevel(jobs, weight, caps, base, rates, a);
    var b :| AtLevel(jobs', weight, caps, base, rates', b);
    TotalReordered(jobs, jobs', rates);
    TotalReordered(jobs, jobs', rates');
    TotalReordered(jobs, jobs', base);
    hide Total, Distinct;
    if a <= b {
      LevelsOrder(jobs, weight, caps, base, capacity, rates, rates', a, b);
    } else {
      LevelsOrder(jobs, weight, caps, base, capacity, rates', rates, b, a);
    }
  }

  lemma HigherLevel(cap: Option<real>, base: real, a: real, b: real, w: real)
    requires a <= b && 0.0 < w
    ensures Below(cap, base + a * w) <= Below(cap, base + b * w)
  {
    MulOrdered(a, b, w);
  }

  lemma LevelsOrder(jobs: seq<Id>, weight: Rates, caps: Caps, base: Rates, capacity: real, low: Rates, high: Rates,
                    a: real, b: real)
    requires Fillable(jobs, weight, caps, base, capacity) && a <= b
    requires AtLevel(jobs, weight, caps, base, low, a) && AtLevel(jobs, weight, caps, base, high, b)
    requires Spent(jobs, caps, base, capacity, low) && Spent(jobs, caps, base, capacity, high)
    ensures forall j | j in jobs :: low[j] == high[j]
  {
    hide Total, Distinct;
    forall j | j in jobs ensures low[j] <= high[j] {
      HigherLevel(caps[j], base[j], a, b, weight[j]);
    }
    TotalOrdered(jobs, low, high);
  }

  lemma FilledSpent(jobs: seq<Id>, weight: Rates, caps: Caps, base: Rates, capacity: real, rates: Rates)
    requires Filled(jobs, weight, caps, base, capacity, rates)
    ensures forall j | j in jobs :: j in base && j in rates && j in caps
    ensures Spent(jobs, caps, base, capacity, rates)
  {
  }

  /** No rate exceeds its job's quota, and what is given away is all there is to give. */
  lemma AllocationIsComplete(active: seq<Id>, capacity: real, weight: Rates, quota: Caps, demand: Caps, rates: Rates)
    requires Sane(active, weight, quota, demand) && 0.0 <= capacity
    requires Allocated(active, capacity, weight, quota, demand, rates)
    ensures forall j | j in active :: j in rates && 0.0 <= rates[j] && (quota[j].Some? ==> rates[j] <= quota[j].value)
    ensures Total(active, rates) <= capacity
    ensures Total(active, rates) == capacity || forall j | j in active :: quota[j] == Some(rates[j])
    ensures (exists j :: j in active && quota[j].None?) ==> Total(active, rates) == capacity
  {
    hide TwoPasses, Total;
    var first :| TwoPasses(active, capacity, weight, quota, demand, first, rates);
    PassesComplete(active, capacity, weight, quota, demand, first, rates);
  }

  lemma PassesComplete(active: seq<Id>, capacity: real, weight: Rates, quota: Caps, demand: Caps,
                       first: Rates, rates: Rates)
    requires Sane(active, weight, quota, demand) && 0.0 <= capacity
    requires TwoPasses(active, capacity, weight, quota, demand, first, rates)
    ensures forall j | j in active :: j in rates && 0.0 <= rates[j] && (quota[j].Some? ==> rates[j] <= quota[j].value)
    ensures Total(active, rates) <= capacity
    ensures Total(active, rates) == capacity || forall j | j in active :: quota[j] == Some(rates[j])
  {
    hide Total, Filled, Distinct;
    var wanted, zeros := Wanted(active, quota, demand), Zeros(active);
    FilledWithin(active, weight, wanted, zeros, capacity, first);
    TotalZero(active, zeros);
    if Total(active, first) < capacity {
      FilledWithin(active, weight, quota, first, capacity - Total(active, first), rates);
      FilledSpent(active, weight, quota, first, capacity - Total(active, first), rates);
    }
  }

  /** Two runs of the allocation over the same jobs in any order agree on every rate. */
  lemma AllocationIsUnique(active: seq<Id>, active': seq<Id>, capacity: real, weight: Rates, quota: Caps, demand: Caps,
                           rates: Rates, rates': Rates)
    requires SameJobs(active, active') && 0.0 <= capacity
    requires Sane(active, weight, quota, demand) && Sane(active', weight, quota, demand)
    requires Allocated(active, capacity, weight, quota, demand, rates)
    requires Allocated(active', capacity, weight, quota, demand, rates')
    ensures rates == rates'
  {
    hide TwoPasses;
    var first :| TwoPasses(active, capacity, weight, quota, demand, first, rates);
    var first' :| TwoPasses(active', capacity, weight, quota, demand, first', rates');
    PassesUnique(active, active', capacity, weight, quota, demand, first, rates, first', rates');
  }

  lemma PassesUnique(active: seq<Id>, active': seq<Id>, capacity: real, weight: Rates, quota: Caps, demand: Caps,
                     first: Rates, rates: Rates, first': Rates, rates': Rates)
    requires SameJobs(active, active') && 0.0 <= capacity
    requires Sane(active, weight, quota, demand) && Sane(active', weight, quota, demand)
    requires TwoPasses(active, capacity, weight, quota, demand, first, rates)
    requires TwoPasses(active', capacity, weight, quota, demand, first', rates')
    ensures rates == rates'
  {
    hide Total, Filled, Distinct;
    var wanted, zeros := Wanted(active, quota, demand), Zeros(active);
    assert wanted == Wanted(active', quota, demand) && zeros == Zeros(active');
    FilledOnce(active, active', weight, wanted, zeros, capacity, first, first');
    assert first == first';
    TotalReordered(active, active', first);
    FilledWithin(active, weight, wanted, zeros, capacity, first);
    if Total(active, first) < capacity {
      FilledOnce(active, active', weight, quota, first, capacity - Total(active, first), rates, rates');
    }
  }

  /** The two levels: a job's rate is its first share up to demand and quota, plus its second share up to its quota. */
  lemma AllocationHasLevels(active: seq<Id>, capacity: real, weight: Rates, quota: Caps, demand: Caps, rates: Rates)
    returns (first: real, second: real)
    requires Sane(active, weight, quota, demand) && 0.0 <= capacity
    requires Allocated(active, capacity, weight, quota, demand, rates)
    ensures 0.0 <= first && 0.0 <= second
    ensures forall j | j in active ::
              j in rates && rates[j] ==
              Below(quota[j], Below(quota[j], Below(demand[j], first * weight[j])) + second * weight[j])
  {
    hide Total, Distinct, Filled, Below, AtLevel;
    var wanted, zeros := Wanted(active, quota, demand), Zeros(active);
    var once :| TwoPasses(active, capacity, weight, quota, demand, once, rates);
    first := LevelOf(active, weight, wanted, zeros, capacity, once);
    FilledWithin(active, weight, wanted, zeros, capacity, once);
    second := 0.0;
    if Total(active, once) < capacity {
      second := LevelOf(active, weight, quota, once, capacity - Total(active, once), rates);
    }
    forall j | j in active
      ensures rates[j] == Below(quota[j], Below(quota[j], Below(demand[j], first * weight[j])) + second * weight[j])
    {
      BelowBoth(demand[j], quota[j], first * weight[j]);
      ShareAtLevel(j, active, weight, wanted, zeros, once, first);
      if Total(active, once) < capacity {
        ShareAtLevel(j, active, weight, quota, once, rates, second);
      } else {
        Unraised(quota[j], once[j], weight[j]);
      }
    }
  }

  lemma BelowBoth(demand: Option<real>, quota: Option<real>, rate: real)
    ensures Below(Least(demand, quota), rate) == Below(quota, Below(demand, rate))
  {
  }

  lemma ShareAtLevel(j: Id, jobs: seq<Id>, weight: Rates, caps: Caps, base: Rates, rates: Rates, level: real)
    requires j in jobs && AtLevel(jobs, weight, caps, base, rates, level)
    ensures j in weight && j in caps && j in base && j in rates
    ensures rates[j] == Below(caps[j], base[j] + level * weight[j])
    ensures base[j] == 0.0 ==> rates[j] == Below(caps[j], level * weight[j])
  {
  }

  lemma Unraised(cap: Option<real>, rate: real, w: real)
    requires cap.Some? ==> rate <= cap.value
    ensures Below(cap, rate + 0.0 * w) == rate
  {
  }

  lemma LevelOf(jobs: seq<Id>, weight: Rates, caps: Caps, base: Rates, capacity: real, rates: Rates) returns (level: real)
    requires Filled(jobs, weight, caps, base, capacity, rates)
    ensures AtLevel(jobs, weight, caps, base, rates, level)
  {
    level :| AtLevel(jobs, weight, caps, base, rates, level);
  }
}
