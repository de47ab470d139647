/** What the history of observed DNS traffic admits: the caches as a function of it, and what every entry rests on. */
module Admission {
  import opened Bytes
  import opened Ordered
  import opened Cname
  import opened DnsMessage

  const MAX_QUERIES := 4096
  const MAX_ADDRESSES := 8192
  const QUERY_LIFETIME := 30.0
  const SEED_LIFETIME := 60

  datatype Key = Key(port: nat, identity: nat, name: bytes, kind: nat)

  datatype Caches = Caches(queries: Dict<Key, real>, answers: Dict<bytes, real>)

  /** A DNS message that passed the sandbox boundary, or an address that resolving an exact rule gave. */
  datatype Event =
    | Observed(data: bytes, port: nat, response: bool, now: real)
    | Seeded(rule: bytes, address: bytes, now: real)

  function Or0(deadline: Option<real>): real {
    if deadline.Some? then deadline.value else 0.0
  }

  /** A longer lifetime is never cut short by a later, shorter one. */
  function Remember(answers: Dict<bytes, real>, address: bytes, ttl: nat, now: real): Dict<bytes, real> {
    Newest(Renew(answers, address, MaxR(Or0(Find(answers, address)), now + Min(ttl, DAY) as real)), MAX_ADDRESSES)
  }

  function RememberOne(answers: Dict<bytes, real>, r: Answer, aliases: Aliases, now: real): Dict<bytes, real> {
    if r.Address? && r.owner in aliases then Remember(answers, r.address, Min(r.ttl, aliases[r.owner]), now) else answers
  }

  function Remembered(answers: Dict<bytes, real>, records: seq<Answer>, aliases: Aliases, now: real): Dict<bytes, real>
    decreases |records|
  {
    if records == [] then answers
    else Remembered(RememberOne(answers, records[0], aliases, now), records[1..], aliases, now)
  }

  function KeyOf(port: nat, q: Query): Key {
    Key(port, q.identity, q.name, q.kind)
  }

  ghost function Observe(c: Caches, rules: Rules, data: bytes, port: nat, response: bool, now: real): Caches {
    match Asked(data, response, rules)
    case None => c
    case Some(q) =>
      var key := KeyOf(port, q);
      if !response then
        c.(queries := Newest(Renew(c.queries, key, now + QUERY_LIFETIME), MAX_QUERIES))
      else
        var answered := c.(queries := Remove(c.queries, key));
        if Or0(Find(c.queries, key)) < now || q.truncated then answered
        else
          match Answers(data, q.next, q.count)
          case None => answered
          case Some(records) =>
            answered.(answers := Remembered(c.answers, records, Closure(records, q.name), now))
  }

  ghost function Step(c: Caches, rules: Rules, e: Event): Caches {
    match e
    case Observed(data, port, response, now) => Observe(c, rules, data, port, response, now)
    case Seeded(_, address, now) => c.(answers := Remember(c.answers, address, SEED_LIFETIME, now))
  }

  ghost function Replay(rules: Rules, events: seq<Event>): Caches {
    if events == [] then Caches([], [])
    else Step(Replay(rules, events[..|events| - 1]), rules, events[|events| - 1])
  }

  /** The clock is positive, and only exact rules are ever resolved in advance. */
  ghost predicate Plausible(rules: Rules, events: seq<Event>) {
    && (forall e | e in events :: 0.0 < e.now)
    && (forall e | e in events && e.Seeded? :: e.rule in rules && !Wildcard(e.rule))
  }

  /* Reading the history. */

  ghost predicate Asks(rules: Rules, e: Event, key: Key) {
    e.Observed? && !e.response && Asked(e.data, false, rules).Some?
    && KeyOf(e.port, Asked(e.data, false, rules).value) == key
  }

  ghost predicate Answering(rules: Rules, e: Event, key: Key) {
    e.Observed? && e.response && Asked(e.data, true, rules).Some?
    && KeyOf(e.port, Asked(e.data, true, rules).value) == key
  }

  /** Query `j` is still open after the first `n` events: nothing has answered or repeated it. */
  ghost predicate Open(rules: Rules, events: seq<Event>, j: nat, n: nat, key: Key) {
    && j < n <= |events|
    && Asks(rules, events[j], key)
    && forall k | j < k < n :: !Answering(rules, events[k], key) && !Asks(rules, events[k], key)
  }

  /** Event `i` is an answer to the open, unexpired query `j`. */
  ghost predicate Uses(rules: Rules, events: seq<Event>, j: nat, i: nat, key: Key) {
    && i < |events| && Answering(rules, events[i], key)
    && Open(rules, events, j, i, key)
    && events[i].now <= events[j].now + 30.0
  }

  /** A chain of CNAME records of the response leads from its question to an A record for the address. */
  ghost predicate Vouches(records: seq<Answer>, name: bytes, path: seq<Answer>, r: Answer, address: bytes) {
    r in records && r.Address? && r.address == address && Chain(records, name, path, r.owner)
  }

  ghost predicate Covers(path: seq<Answer>, r: Answer, lifetime: int) {
    lifetime <= r.ttl && lifetime <= DAY && forall c | c in path :: lifetime <= c.ttl
  }

  /** Event `i` admits the address until the deadline. */
  ghost predicate Grants(rules: Rules, events: seq<Event>, i: nat, address: bytes, deadline: real) {
    i < |events| &&
    match events[i]
    case Seeded(rule, a, now) =>
      a == address && deadline == now + 60.0
    case Observed(data, port, response, now) =>
      && Asked(data, true, rules).Some?
      && var q := Asked(data, true, rules).value;
      && (exists j: nat :: Uses(rules, events, j, i, KeyOf(port, q)))
      && !q.truncated
      && Answers(data, q.next, q.count).Some?
      && exists path, r ::
           && Vouches(Answers(data, q.next, q.count).value, q.name, path, r, address)
           && deadline == now + Min(r.ttl, Lifetime(path)) as real
  }

  lemma {:induction false} LifetimeCovers(path: seq<Answer>, r: Answer)
    ensures Covers(path, r, Min(r.ttl, Lifetime(path)))
    decreases |path|
  {
    if path != [] {
      var last, front := path[|path| - 1], path[..|path| - 1];
      LifetimeCovers(front, r);
      assert path == front + [last];
    }
  }

  /* The invariant of the caches. */

  ghost predicate QueriesOpen(rules: Rules, events: seq<Event>, queries: Dict<Key, real>) {
    forall e | e in queries ::
      exists j: nat :: Open(rules, events, j, |events|, e.0) && e.1 == events[j].now + QUERY_LIFETIME
  }

  ghost predicate AnswersGranted(rules: Rules, events: seq<Event>, answers: Dict<bytes, real>) {
    forall e | e in answers :: exists i: nat :: Grants(rules, events, i, e.0, e.1)
  }

  ghost predicate Sound(rules: Rules, events: seq<Event>, c: Caches) {
    && Unique(c.queries) && Unique(c.answers)
    && |c.queries| <= 4096 && |c.answers| <= 8192
    && QueriesOpen(rules, events, c.queries)
    && AnswersGranted(rules, events, c.answers)
  }

  lemma NewestKeeps<K, V>(d: Dict<K, V>, n: nat)
    requires Unique(d)
    ensures Unique(Newest(d, n)) && |Newest(d, n)| <= n
    ensures forall e | e in Newest(d, n) :: e in d
  {
  }

  /** A grant rests on the events up to it, so later events do not touch it. */
  lemma GrantLasts(rules: Rules, events: seq<Event>, more: seq<Event>, i: nat, address: bytes, deadline: real)
    requires events <= more && Grants(rules, events, i, address, deadline)
    ensures Grants(rules, more, i, address, deadline)
  {
    hide Answering, Asks, Vouches;
    if events[i].Observed? {
      var q := Asked(events[i].data, true, rules).value;
      var key := KeyOf(events[i].port, q);
      var j :| Uses(rules, events, j, i, key);
      assert Uses(rules, more, j, i, key);
    }
  }

  lemma RememberSound(rules: Rules, events: seq<Event>, answers: Dict<bytes, real>, address: bytes, ttl: nat, now: real,
                      i: nat)
    requires Unique(answers) && |answers| <= MAX_ADDRESSES && AnswersGranted(rules, events, answers)
    requires 0.0 < now && Grants(rules, events, i, address, now + Min(ttl, DAY) as real)
    ensures
      var after := Remember(answers, address, ttl, now);
      Unique(after) && |after| <= MAX_ADDRESSES && AnswersGranted(rules, events, after)
  {
    hide Grants;
    var deadline := MaxR(Or0(Find(answers, address)), now + Min(ttl, DAY) as real);
    var renewed := Renew(answers, address, deadline);
    RenewKeepsUnique(answers, address, deadline);
    NewestKeeps(renewed, MAX_ADDRESSES);
    FindIsIn(answers, address);
    forall e | e in Newest(renewed, MAX_ADDRESSES) ensures exists k: nat :: Grants(rules, events, k, e.0, e.1) {
      InRenew(answers, address, deadline, e);
    }
  }

  lemma {:induction false} RememberedSound(rules: Rules, events: seq<Event>, answers: Dict<bytes, real>,
                                           all: seq<Answer>, some: seq<Answer>, q: Query, i: nat)
    requires Unique(answers) && |answers| <= MAX_ADDRESSES && AnswersGranted(rules, events, answers)
    requires i < |events| && events[i].Observed? && 0.0 < events[i].now && Asked(events[i].data, true, rules) == Some(q)
    requires exists j: nat :: Uses(rules, events, j, i, KeyOf(events[i].port, q))
    requires !q.truncated && Answers(events[i].data, q.next, q.count) == Some(all)
    requires forall r | r in some :: r in all
    ensures
      var after := Remembered(answers, some, Closure(all, q.name), events[i].now);
      Unique(after) && |after| <= MAX_ADDRESSES && AnswersGranted(rules, events, after)
    decreases |some|
  {
    hide Remember, AnswersGranted, Unique, Uses, Asked, Answers, Closure;
    if some != [] {
      var r, aliases, now := some[0], Closure(all, q.name), events[i].now;
      if r.Address? && r.owner in aliases {
        ClosureIsReachable(all, q.name, r.owner);
        var path :| Chain(all, q.name, path, r.owner) && aliases[r.owner] == Lifetime(path);
        var ttl := Min(r.ttl, aliases[r.owner]);
        LifetimeCovers(path, r);
        assert Vouches(all, q.name, path, r, r.address);
        assert Grants(rules, events, i, r.address, now + Min(ttl, DAY) as real);
        RememberSound(rules, events, answers, r.address, ttl, now, i);
      }
      RememberedSound(rules, events, RememberOne(answers, r, aliases, now), all, some[1..], q, i);
    }
  }

  lemma OpenLasts(rules: Rules, events: seq<Event>, e: Event, j: nat, key: Key)
    requires Open(rules, events, j, |events|, key) && !Answering(rules, e, key) && !Asks(rules, e, key)
    ensures Open(rules, events + [e], j, |events| + 1, key)
  {
    hide Answering, Asks;
  }

  lemma AskSound(rules: Rules, events: seq<Event>, c: Caches, e: Event)
    requires Sound(rules, events, c) && e.Observed? && !e.response
    ensures Sound(rules, events + [e], Step(c, rules, e))
  {
    hide Grants, Asked, Unique;
    var more := events + [e];
    forall a | a in c.answers ensures exists i: nat :: Grants(rules, more, i, a.0, a.1) {
      var i: nat :| Grants(rules, events, i, a.0, a.1);
      GrantLasts(rules, events, more, i, a.0, a.1);
    }
    var asked := Asked(e.data, false, rules);
    if asked.Some? {
      var key, deadline := KeyOf(e.port, asked.value), e.now + QUERY_LIFETIME;
      RenewKeepsUnique(c.queries, key, deadline);
      NewestKeeps(Renew(c.queries, key, deadline), MAX_QUERIES);
      forall o | o in Newest(Renew(c.queries, key, deadline), MAX_QUERIES)
        ensures exists j: nat :: Open(rules, more, j, |more|, o.0) && o.1 == more[j].now + QUERY_LIFETIME
      {
        InRenew(c.queries, key, deadline, o);
        if o == (key, deadline) {
          assert Open(rules, more, |events|, |more|, key);
        } else {
          var j: nat :| Open(rules, events, j, |events|, o.0) && o.1 == events[j].now + QUERY_LIFETIME;
          OpenLasts(rules, events, e, j, o.0);
        }
      }
    } else {
      QueriesLast(rules, events, c.queries, e);
    }
  }

  lemma QueriesLast(rules: Rules, events: seq<Event>, queries: Dict<Key, real>, e: Event)
    requires QueriesOpen(rules, events, queries)
    requires forall o | o in queries :: !Answering(rules, e, o.0) && !Asks(rules, e, o.0)
    ensures QueriesOpen(rules, events + [e], queries)
  {
    hide Answering, Asks;
    forall o | o in queries
      ensures exists j: nat :: Open(rules, events + [e], j, |events + [e]|, o.0)
                               && o.1 == (events + [e])[j].now + QUERY_LIFETIME
    {
      var j: nat :| Open(rules, events, j, |events|, o.0) && o.1 == events[j].now + QUERY_LIFETIME;
      OpenLasts(rules, events, e, j, o.0);
    }
  }

  lemma AnswersLast(rules: Rules, events: seq<Event>, answers: Dict<bytes, real>, e: Event)
    requires AnswersGranted(rules, events, answers)
    ensures AnswersGranted(rules, events + [e], answers)
  {
    hide Grants;
    forall a | a in answers ensures exists i: nat :: Grants(rules, events + [e], i, a.0, a.1) {
      var i: nat :| Grants(rules, events, i, a.0, a.1);
      GrantLasts(rules, events, events + [e], i, a.0, a.1);
    }
  }

  /** A response takes its query away, whatever else comes of it. */
  lemma TakenSound(rules: Rules, events: seq<Event>, c: Caches, e: Event, q: Query)
    requires Sound(rules, events, c) && e.Observed? && e.response && Asked(e.data, true, rules) == Some(q)
    ensures Sound(rules, events + [e], c.(queries := Remove(c.queries, KeyOf(e.port, q))))
  {
    hide Grants, Asked, Open, AnswersGranted, Unique;
    var key := KeyOf(e.port, q);
    RemoveKeepsUnique(c.queries, key);
    forall o | o in Remove(c.queries, key) ensures o in c.queries && o.0 != key {
      InRemove(c.queries, key, o);
    }
    QueriesStay(rules, events, c.queries, Remove(c.queries, key));
    QueriesLast(rules, events, Remove(c.queries, key), e);
    AnswersLast(rules, events, c.answers, e);
  }

  lemma QueriesStay(rules: Rules, events: seq<Event>, queries: Dict<Key, real>, some: Dict<Key, real>)
    requires QueriesOpen(rules, events, queries) && forall o | o in some :: o in queries
    ensures QueriesOpen(rules, events, some)
  {
  }

  /** A response is only believed when the cache shows its query, which by soundness is open and recent enough. */
  lemma BelievedUses(rules: Rules, events: seq<Event>, c: Caches, e: Event, q: Query)
    requires Sound(rules, events, c) && e.Observed? && e.response && Asked(e.data, true, rules) == Some(q)
    requires 0.0 < e.now <= Or0(Find(c.queries, KeyOf(e.port, q)))
    ensures exists j: nat :: Uses(rules, events + [e], j, |events|, KeyOf(e.port, q))
  {
    hide Grants, Asked, AnswersGranted, Unique;
    var key, more := KeyOf(e.port, q), events + [e];
    FindIsIn(c.queries, key);
    var deadline := Find(c.queries, key).value;
    var j: nat :| Open(rules, events, j, |events|, key) && deadline == events[j].now + QUERY_LIFETIME;
    assert more[j] == events[j] && more[|events|] == e;
    assert forall k | j < k < |events| :: more[k] == events[k];
    assert Open(rules, more, j, |events|, key);
    assert Answering(rules, e, key);
    assert Uses(rules, more, j, |events|, key);
  }

  lemma AnswerSound(rules: Rules, events: seq<Event>, c: Caches, e: Event)
    requires Sound(rules, events, c) && e.Observed? && e.response && 0.0 < e.now
    ensures Sound(rules, events + [e], Step(c, rules, e))
  {
    hide Asked, Uses, Answers, Closure, Remembered, AnswersGranted, QueriesOpen, Unique, Asks, Answering;
    var more, asked := events + [e], Asked(e.data, true, rules);
    if asked.None? {
      forall o | o in c.queries ensures !Answering(rules, e, o.0) && !Asks(rules, e, o.0) {
        Unrelated(rules, e, o.0);
      }
      QueriesLast(rules, events, c.queries, e);
      AnswersLast(rules, events, c.answers, e);
      return;
    }
    var q := asked.value;
    TakenSound(rules, events, c, e, q);
    if e.now <= Or0(Find(c.queries, KeyOf(e.port, q))) && !q.truncated {
      var answers := Answers(e.data, q.next, q.count);
      if answers.Some? {
        BelievedUses(rules, events, c, e, q);
        RememberedSound(rules, more, c.answers, answers.value, answers.value, q, |events|);
      }
    }
  }

  lemma Unrelated(rules: Rules, e: Event, key: Key)
    requires e.Observed? && e.response && Asked(e.data, true, rules).None?
    ensures !Answering(rules, e, key) && !Asks(rules, e, key)
  {
  }

  lemma SeedSound(rules: Rules, events: seq<Event>, c: Caches, e: Event)
    requires Sound(rules, events, c) && e.Seeded? && 0.0 < e.now
    ensures Sound(rules, events + [e], Step(c, rules, e))
  {
    hide AnswersGranted, QueriesOpen, Unique, Remember, Open;
    QueriesLast(rules, events, c.queries, e);
    AnswersLast(rules, events, c.answers, e);
    assert Grants(rules, events + [e], |events|, e.address, e.now + Min(SEED_LIFETIME, DAY) as real);
    RememberSound(rules, events + [e], c.answers, e.address, SEED_LIFETIME, e.now, |events|);
  }

  lemma {:induction false} ReplaySound(rules: Rules, events: seq<Event>)
    requires Plausible(rules, events)
    ensures Sound(rules, events, Replay(rules, events))
    decreases |events|
  {
    hide Sound, Step;
    if events == [] {
      SoundAtFirst(rules);
    } else {
      var before, e := events[..|events| - 1], events[|events| - 1];
      assert events == before + [e];
      ReplaySound(rules, before);
      var c := Replay(rules, before);
      if e.Seeded? {
        SeedSound(rules, before, c, e);
      } else if e.response {
        AnswerSound(rules, before, c, e);
      } else {
        AskSound(rules, before, c, e);
      }
    }
  }

  lemma SoundAtFirst(rules: Rules)
    ensures Sound(rules, [], Caches([], []))
  {
  }

  /** `answers.get(address, 0) > now`. */
  ghost predicate Admitted(rules: Rules, events: seq<Event>, address: bytes, now: real) {
    Or0(Find(Replay(rules, events).answers, address)) > now
  }

  /**
   * Event `i` of the history justifies the address: it was resolved for an exact rule less than 60 seconds ago, or a
   * response that used an open query leads by CNAME records to an A record for it, and no lifetime on that way has
   * run out.
   */
  ghost predicate Justified(rules: Rules, events: seq<Event>, address: bytes, now: real, i: nat, path: seq<Answer>, r: Answer) {
    i < |events| &&
    match events[i]
    case Seeded(rule, a, at) =>
      a == address && rule in rules && !Wildcard(rule) && now < at + 60.0
    case Observed(data, port, response, at) =>
      Asked(data, true, rules).Some? &&
      var q := Asked(data, true, rules).value;
      && Matches(q.name, rules) && !q.truncated
      && (exists j: nat :: Uses(rules, events, j, i, KeyOf(port, q)))
      && Answers(data, q.next, q.count).Some?
      && Vouches(Answers(data, q.next, q.count).value, q.name, path, r, address)
      && now < at + r.ttl as real && now < at + DAY as real
      && forall c | c in path :: now < at + c.ttl as real
  }

  /** Whatever is admitted is justified by the history. */
  lemma AdmissionIsJustified(rules: Rules, events: seq<Event>, address: bytes, now: real)
    returns (i: nat, path: seq<Answer>, r: Answer)
    requires Plausible(rules, events) && 0.0 < now && Admitted(rules, events, address, now)
    ensures Justified(rules, events, address, now, i, path, r)
  {
    ReplaySound(rules, events);
    path, r := [], Address([], 0, []);
    var deadline := GrantOf(rules, events, Replay(rules, events).answers, address);
    i :| Grants(rules, events, i, address, deadline);
    if events[i].Observed? {
      var Observed(data, port, _, at) := events[i];
      var q := Asked(data, true, rules).value;
      var records := Answers(data, q.next, q.count).value;
      path, r :| Vouches(records, q.name, path, r, address)
                 && deadline == at + Min(r.ttl, Lifetime(path)) as real;
      LifetimeCovers(path, r);
    }
  }

  lemma GrantOf(rules: Rules, events: seq<Event>, answers: Dict<bytes, real>, address: bytes) returns (deadline: real)
    requires AnswersGranted(rules, events, answers) && 0.0 < Or0(Find(answers, address))
    ensures deadline == Or0(Find(answers, address)) && exists i: nat :: Grants(rules, events, i, address, deadline)
  {
    FindIsIn(answers, address);
    deadline := Find(answers, address).value;
    assert (address, deadline) in answers;
  }

  /* Queries are conserved: each is answered at most once. */

  ghost predicate Believed(rules: Rules, before: seq<Event>, e: Event) {
    && e.Observed? && e.response && Asked(e.data, true, rules).Some?
    && e.now <= Or0(Find(Replay(rules, before).queries, KeyOf(e.port, Asked(e.data, true, rules).value)))
  }

  ghost function KeyAt(rules: Rules, e: Event): Key
    requires e.Observed? && e.response && Asked(e.data, true, rules).Some?
  {
    KeyOf(e.port, Asked(e.data, true, rules).value)
  }

  lemma UsesLonger(rules: Rules, events: seq<Event>, n: nat, j: nat, i: nat, key: Key)
    requires n <= |events| && Uses(rules, events[..n], j, i, key)
    ensures Uses(rules, events, j, i, key)
  {
    hide Answering, Asks;
    assert forall k | 0 <= k < n :: events[..n][k] == events[k];
  }

  /** Whatever the cache lets through as an answer answers an open, unexpired question of the history. */
  lemma UsedAt(rules: Rules, events: seq<Event>, i: nat) returns (j: nat)
    requires Plausible(rules, events) && i < |events| && Believed(rules, events[..i], events[i])
    ensures Uses(rules, events, j, i, KeyAt(rules, events[i]))
  {
    hide Uses, Replay, Sound, Asked;
    var before, e := events[..i], events[i];
    assert e in events && forall o | o in before :: o in events;
    ReplaySound(rules, before);
    BelievedUses(rules, before, Replay(rules, before), e, Asked(e.data, true, rules).value);
    assert before + [e] == events[..i + 1];
    j :| Uses(rules, events[..i + 1], j, i, KeyAt(rules, e));
    UsesLonger(rules, events, i + 1, j, i, KeyAt(rules, e));
  }

  /** Over any history, no two responses the cache lets through rest on one question. */
  lemma BelievedApart(rules: Rules, events: seq<Event>, i: nat, i': nat) returns (j: nat, j': nat)
    requires Plausible(rules, events) && i < i' < |events|
    requires Believed(rules, events[..i], events[i]) && Believed(rules, events[..i'], events[i'])
    ensures Uses(rules, events, j, i, KeyAt(rules, events[i])) && Uses(rules, events, j', i', KeyAt(rules, events[i']))
    ensures j != j'
  {
    hide Believed, Asked;
    j := UsedAt(rules, events, i);
    j' := UsedAt(rules, events, i');
  }

  /* And an answer to an open question is let through unless too many others were asked in the meantime. */

  /** The entry is among the newest `m`. */
  ghost predicate Among(d: Dict<Key, real>, k: Key, v: real, m: nat) {
    exists i | 0 <= i < |d| :: d[i] == (k, v) && |d| - i <= m
  }

  lemma AmongNewer(d: Dict<Key, real>, k: Key, v: real, m: nat, other: Key, w: real, n: nat)
    requires Among(d, k, v, m) && m < n && other != k
    ensures Among(Newest(Renew(d, other, w), n), k, v, m + 1)
  {
    hide Remove, Newest;
    var i :| 0 <= i < |d| && d[i] == (k, v) && |d| - i <= m;
    var i' := RemoveKeepsRank(d, other, i);
    AmongAppended(Remove(d, other), k, v, i', other, w, n);
    AmongLoosens(Newest(Renew(d, other, w), n), k, v, |Remove(d, other)| - i' + 1, m + 1);
  }

  lemma AmongAppended(d: Dict<Key, real>, k: Key, v: real, i: nat, other: Key, w: real, n: nat)
    requires i < |d| && d[i] == (k, v) && |d| - i < n
    ensures Among(Newest(d + [(other, w)], n), k, v, |d| - i + 1)
  {
    var after := Newest(d + [(other, w)], n);
    var cut := |d| + 1 - |after|;
    assert after[i - cut] == (d + [(other, w)])[i];
  }

  lemma AmongLoosens(d: Dict<Key, real>, k: Key, v: real, m: nat, m': nat)
    requires Among(d, k, v, m) && m <= m'
    ensures Among(d, k, v, m')
  {
  }

  lemma AmongRemains(d: Dict<Key, real>, k: Key, v: real, m: nat, other: Key)
    requires Among(d, k, v, m) && other != k
    ensures Among(Remove(d, other), k, v, m)
  {
    var i :| 0 <= i < |d| && d[i] == (k, v) && |d| - i <= m;
    var i' := RemoveKeepsRank(d, other, i);
  }

  lemma AmongNewest(d: Dict<Key, real>, k: Key, v: real, n: nat)
    requires 0 < n
    ensures Among(Newest(Renew(d, k, v), n), k, v, 1)
  {
    var after := Newest(Renew(d, k, v), n);
    assert after[|after| - 1] == (k, v);
  }

  lemma AmongFound(d: Dict<Key, real>, k: Key, v: real, m: nat)
    requires Unique(d) && Among(d, k, v, m)
    ensures Find(d, k) == Some(v)
  {
    var i :| 0 <= i < |d| && d[i] == (k, v) && |d| - i <= m;
    InIsFind(d, d[i]);
  }

  ghost predicate Question(rules: Rules, e: Event) {
    e.Observed? && !e.response && Asked(e.data, false, rules).Some?
  }

  /** How many questions were asked after event `j` and before event `n`. */
  ghost function Since(rules: Rules, events: seq<Event>, j: nat, n: nat): nat
    requires j < n <= |events|
  {
    if n == j + 1 then 0 else Since(rules, events, j, n - 1) + if Question(rules, events[n - 1]) then 1 else 0
  }

  /** What another event does to the place of a question in the cache. */
  lemma StepKeepsQuestion(rules: Rules, c: Caches, e: Event, key: Key, v: real, m: nat)
    requires Among(c.queries, key, v, m) && !Asks(rules, e, key) && !Answering(rules, e, key)
    requires Question(rules, e) ==> m < MAX_QUERIES
    ensures Among(Step(c, rules, e).queries, key, v, if Question(rules, e) then m + 1 else m)
  {
    hide Asked, Answers, Remembered, Remember, Among, Newest, Renew, Remove;
    if e.Observed? && Asked(e.data, e.response, rules).Some? {
      var other := KeyOf(e.port, Asked(e.data, e.response, rules).value);
      if e.response {
        AmongRemains(c.queries, key, v, m, other);
      } else {
        AmongNewer(c.queries, key, v, m, other, e.now + QUERY_LIFETIME, MAX_QUERIES);
      }
    }
  }

  lemma AskedIsNewest(rules: Rules, c: Caches, e: Event, key: Key)
    requires Asks(rules, e, key)
    ensures Among(Step(c, rules, e).queries, key, e.now + QUERY_LIFETIME, 1)
  {
    hide Asked, Among, Newest, Renew;
    AmongNewest(c.queries, key, e.now + QUERY_LIFETIME, MAX_QUERIES);
  }

  lemma {:induction false} OpenIsCached(rules: Rules, events: seq<Event>, j: nat, n: nat, key: Key)
    requires Open(rules, events, j, n, key) && Since(rules, events, j, n) < MAX_QUERIES
    ensures Among(Replay(rules, events[..n]).queries, key, events[j].now + QUERY_LIFETIME, 1 + Since(rules, events, j, n))
    decreases n
  {
    hide Among, Step, Asks, Answering, Question;
    var e := events[n - 1];
    assert events[..n] == events[..n - 1] + [e];
    assert events[..n][..n - 1] == events[..n - 1];
    var c := Replay(rules, events[..n - 1]);
    if n == j + 1 {
      AskedIsNewest(rules, c, e, key);
    } else {
      OpenIsCached(rules, events, j, n - 1, key);
      StepKeepsQuestion(rules, c, e, key, events[j].now + QUERY_LIFETIME, 1 + Since(rules, events, j, n - 1));
    }
  }

  /** A response to an open, unexpired question is let through, if fewer than 4096 others were asked since. */
  lemma UseIsBelieved(rules: Rules, events: seq<Event>, j: nat, i: nat, key: Key)
    requires Plausible(rules, events) && Uses(rules, events, j, i, key) && Since(rules, events, j, i) < 4096
    ensures Believed(rules, events[..i], events[i])
  {
    hide Replay, Asked, Sound, Among, Open;
    OpenIsBefore(rules, events, j, i, key);
    var before := events[..i];
    assert forall o | o in before :: o in events;
    ReplaySound(rules, before);
    OpenIsCached(rules, events, j, i, key);
    QueriesUnique(rules, before);
    AmongFound(Replay(rules, before).queries, key, events[j].now + QUERY_LIFETIME, 1 + Since(rules, events, j, i));
  }

  lemma OpenIsBefore(rules: Rules, events: seq<Event>, j: nat, n: nat, key: Key)
    requires Open(rules, events, j, n, key)
    ensures j < n <= |events|
  {
  }

  lemma QueriesUnique(rules: Rules, events: seq<Event>)
    requires Sound(rules, events, Replay(rules, events))
    ensures Unique(Replay(rules, events).queries)
  {
  }

  ghost function Beliefs(rules: Rules, events: seq<Event>): nat {
    if events == [] then 0
    else
      var before, e := events[..|events| - 1], events[|events| - 1];
      Beliefs(rules, before) + if Believed(rules, before, e) then 1 else 0
  }

  ghost function Questions(rules: Rules, events: seq<Event>): nat {
    if events == [] then 0
    else
      var before, e := events[..|events| - 1], events[|events| - 1];
      Questions(rules, before) + if e.Observed? && !e.response && Asked(e.data, false, rules).Some? then 1 else 0
  }

  lemma {:induction false} QueriesConserved(rules: Rules, events: seq<Event>)
    requires Plausible(rules, events)
    ensures Beliefs(rules, events) + |Replay(rules, events).queries| <= Questions(rules, events)
    decreases |events|
  {
    hide Asked, Answers, Remembered, Remember;
    if events != [] {
      var before, e := events[..|events| - 1], events[|events| - 1];
      assert forall o | o in before :: o in events;
      assert e in events;
      QueriesConserved(rules, before);
      var c := Replay(rules, before);
      if e.Observed? && Asked(e.data, e.response, rules).Some? {
        RemoveShortens(c.queries, KeyOf(e.port, Asked(e.data, e.response, rules).value));
      }
    }
  }

  /* A believed response admits every address it leads to. */

  /** The entry for the address is among the newest `m` and lasts at least until the deadline. */
  ghost predicate Recent(answers: Dict<bytes, real>, address: bytes, deadline: real, m: nat) {
    exists i | 0 <= i < |answers| ::
      answers[i].0 == address && deadline <= answers[i].1 && |answers| - i <= m
  }

  lemma RememberIsRecent(answers: Dict<bytes, real>, address: bytes, ttl: nat, now: real)
    ensures Recent(Remember(answers, address, ttl, now), address, now + Min(ttl, DAY) as real, 1)
  {
    var after := Remember(answers, address, ttl, now);
    assert after[|after| - 1].0 == address;
  }

  lemma RememberKeepsRecent(answers: Dict<bytes, real>, other: bytes, ttl: nat, now: real, address: bytes,
                            deadline: real, m: nat)
    requires Unique(answers) && Recent(answers, address, deadline, m) && m < MAX_ADDRESSES
    ensures Recent(Remember(answers, other, ttl, now), address, deadline, m + 1)
  {
    var i :| 0 <= i < |answers| && answers[i].0 == address && deadline <= answers[i].1 && |answers| - i <= m;
    var after := Remember(answers, other, ttl, now);
    if other == address {
      InIsFind(answers, answers[i]);
      assert after[|after| - 1].0 == address && deadline <= after[|after| - 1].1;
    } else {
      var i' := RemoveKeepsRank(answers, other, i);
      var kept := Remove(answers, other);
      var cut := |kept| + 1 - |after|;
      assert i' >= cut && after[i' - cut] == kept[i'];
    }
  }

  lemma {:induction false} RememberedIsRecent(answers: Dict<bytes, real>, some: seq<Answer>, aliases: Aliases, now: real,
                                              address: bytes, deadline: real, m: nat)
    requires Unique(answers) && m + |some| <= MAX_ADDRESSES
    requires
      || Recent(answers, address, deadline, m)
      || exists r | r in some :: r.Address? && r.address == address && r.owner in aliases
                                 && deadline == now + Min(Min(r.ttl, aliases[r.owner]), DAY) as real
    ensures Recent(Remembered(answers, some, aliases, now), address, deadline, m + |some|)
    decreases |some|
  {
    hide Recent, Remember, Unique;
    if some != [] {
      var r, next := some[0], RememberOne(answers, some[0], aliases, now);
      RememberUnique(answers, r, aliases, now);
      if Recent(answers, address, deadline, m) {
        if r.Address? && r.owner in aliases {
          RememberKeepsRecent(answers, r.address, Min(r.ttl, aliases[r.owner]), now, address, deadline, m);
        } else {
          RecentLoosens(answers, address, deadline, m, m + 1);
        }
      } else if r.Address? && r.address == address && r.owner in aliases
                && deadline == now + Min(Min(r.ttl, aliases[r.owner]), DAY) as real {
        RememberIsRecent(answers, address, Min(r.ttl, aliases[r.owner]), now);
        RecentLoosens(next, address, deadline, 1, m + 1);
      }
      RememberedIsRecent(next, some[1..], aliases, now, address, deadline, m + 1);
    } else {
      assert Recent(answers, address, deadline, m + |some|);
    }
  }

  lemma RecentLoosens(answers: Dict<bytes, real>, address: bytes, deadline: real, m: nat, m': nat)
    requires Recent(answers, address, deadline, m) && m <= m'
    ensures Recent(answers, address, deadline, m')
  {
  }

  lemma RememberUnique(answers: Dict<bytes, real>, r: Answer, aliases: Aliases, now: real)
    requires Unique(answers)
    ensures Unique(RememberOne(answers, r, aliases, now))
  {
    if r.Address? && r.owner in aliases {
      var ttl := Min(r.ttl, aliases[r.owner]);
      var deadline := MaxR(Or0(Find(answers, r.address)), now + Min(ttl, DAY) as real);
      RenewKeepsUnique(answers, r.address, deadline);
      NewestKeeps(Renew(answers, r.address, deadline), MAX_ADDRESSES);
    }
  }

  /**
   * The other direction: once a believed response has been read, every address it vouches for is admitted, and stays
   * so as long as the lifetimes on its way allow. The bound on the cache never evicts part of the same response.
   */
  lemma BelievedAdmits(rules: Rules, before: seq<Event>, e: Event, path: seq<Answer>, r: Answer, address: bytes)
    requires Plausible(rules, before + [e]) && Believed(rules, before, e)
    requires
      var q := Asked(e.data, true, rules).value;
      && !q.truncated && Answers(e.data, q.next, q.count).Some?
      && Vouches(Answers(e.data, q.next, q.count).value, q.name, path, r, address)
    ensures
      var q := Asked(e.data, true, rules).value;
      var aliases := Closure(Answers(e.data, q.next, q.count).value, q.name);
      && r.owner in aliases
      && forall now :: e.now <= now < e.now + Min(Min(r.ttl, aliases[r.owner]), DAY) as real
                       ==> Admitted(rules, before + [e], address, now)
    ensures
      var q := Asked(e.data, true, rules).value;
      var records := Answers(e.data, q.next, q.count).value;
      Recent(Replay(rules, before + [e]).answers, address,
             e.now + Min(Min(r.ttl, Closure(records, q.name)[r.owner]), DAY) as real, |records|)
  {
    hide Asked, Answers, Closure, Remembered, Recent;
    var q := Asked(e.data, true, rules).value;
    var records, events := Answers(e.data, q.next, q.count).value, before + [e];
    var aliases, c := Closure(records, q.name), Replay(rules, before);
    ClosureIsReachable(records, q.name, r.owner);
    assert events[..|events| - 1] == before && forall o | o in before :: o in events;
    ReplaySound(rules, before);
    assert Unique(c.answers);
    AskedCount(e.data, rules);
    AnswersCount(e.data, q.next, q.count);
    var deadline := e.now + Min(Min(r.ttl, aliases[r.owner]), DAY) as real;
    RememberedIsRecent(c.answers, records, aliases, e.now, address, deadline, 0);
    var after := Remembered(c.answers, records, aliases, e.now);
    assert Replay(rules, events).answers == after;
    ReplaySound(rules, events);
    RecentFound(after, address, deadline, |records|);
  }

  lemma AskedCount(data: bytes, rules: Rules)
    ensures Asked(data, true, rules).Some? ==> Asked(data, true, rules).value.count <= MAX_ANSWERS
  {
  }

  lemma RecentFound(answers: Dict<bytes, real>, address: bytes, deadline: real, m: nat)
    requires Unique(answers) && Recent(answers, address, deadline, m)
    ensures deadline <= Or0(Find(answers, address))
  {
    var i :| 0 <= i < |answers| && answers[i].0 == address && deadline <= answers[i].1 && |answers| - i <= m;
    InIsFind(answers, answers[i]);
  }

  /** How many addresses an event can make newer than the others: one, or as many as the response has records. */
  ghost function Adds(rules: Rules, e: Event): nat {
    if e.Seeded? then 1
    else if !e.response || Asked(e.data, true, rules).None? then 0
    else
      var q := Asked(e.data, true, rules).value;
      match Answers(e.data, q.next, q.count)
      case None => 0
      case Some(records) => |records|
  }

  ghost function AllAdd(rules: Rules, events: seq<Event>): nat {
    if events == [] then 0 else AllAdd(rules, events[..|events| - 1]) + Adds(rules, events[|events| - 1])
  }

  lemma StepKeepsRecent(rules: Rules, c: Caches, e: Event, address: bytes, deadline: real, m: nat)
    requires Unique(c.answers) && Recent(c.answers, address, deadline, m) && m + Adds(rules, e) <= MAX_ADDRESSES
    ensures Recent(Step(c, rules, e).answers, address, deadline, m + Adds(rules, e))
  {
    hide Asked, Answers, Recent, Remembered, Closure, Remember, Unique;
    if e.Seeded? {
      RememberKeepsRecent(c.answers, e.address, SEED_LIFETIME, e.now, address, deadline, m);
    } else {
      RecentLoosens(c.answers, address, deadline, m, m + Adds(rules, e));
      if e.response && Asked(e.data, true, rules).Some? {
        var q := Asked(e.data, true, rules).value;
        var records := Answers(e.data, q.next, q.count);
        if records.Some? {
          RememberedIsRecent(c.answers, records.value, Closure(records.value, q.name), e.now, address, deadline, m);
        }
      }
    }
  }

  lemma {:induction false} StaysRecent(rules: Rules, before: seq<Event>, more: seq<Event>, address: bytes, deadline: real, m: nat)
    requires Plausible(rules, before + more) && Recent(Replay(rules, before).answers, address, deadline, m)
    requires m + AllAdd(rules, more) <= MAX_ADDRESSES
    ensures Recent(Replay(rules, before + more).answers, address, deadline, m + AllAdd(rules, more))
    decreases |more|
  {
    hide Recent, Step, Adds;
    if more == [] {
      assert before + more == before;
    } else {
      var front, e := more[..|more| - 1], more[|more| - 1];
      var events := before + front;
      assert before + more == events + [e] && (events + [e])[..|events|] == events;
      assert forall o | o in events :: o in before + more;
      StaysRecent(rules, before, front, address, deadline, m);
      ReplaySound(rules, events);
      StepKeepsRecent(rules, Replay(rules, events), e, address, deadline, m + AllAdd(rules, front));
    }
  }

  /**
   * An address that is admitted stays so until its lifetimes run out, whatever is heard meanwhile, as long as fewer than
   * 8192 addresses come with it and after it.
   */
  lemma StaysAdmitted(rules: Rules, before: seq<Event>, more: seq<Event>, address: bytes, deadline: real, now: real, m: nat)
    requires Plausible(rules, before + more) && 0.0 < now < deadline
    requires Recent(Replay(rules, before).answers, address, deadline, m) && m + AllAdd(rules, more) <= 8192
    ensures Admitted(rules, before + more, address, now)
  {
    hide Recent, AllAdd;
    StaysRecent(rules, before, more, address, deadline, m);
    ReplaySound(rules, before + more);
    RecentFound(Replay(rules, before + more).answers, address, deadline, m + AllAdd(rules, more));
  }
}
