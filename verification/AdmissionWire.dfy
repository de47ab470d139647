/** Admission, from the messages as their senders wrote them. */
module AdmissionWire {
  import opened Bytes
  import opened Ordered
  import opened DnsName
  import opened Cname
  import opened DnsMessage
  import opened DnsRecords
  import opened Admission

  /** A whole message: its header, its question and the records of its answer section. */
  ghost predicate Response(message: bytes, h: Header, q: Question, rs: seq<Resource>) {
    Asking(message, h, q) && |rs| == h.answers && AllStand(message, End(12, q.name) + 4, rs)
  }

  /** CNAME records lead from a name to another one. */
  ghost predicate Leads(rs: seq<Resource>, name: bytes, chain: seq<Resource>, end: bytes)
    decreases |chain|
  {
    if chain == [] then end == name
    else
      var last := chain[|chain| - 1];
      last.IsAlias() && last in rs && TextOf(last.target) == end && Leads(rs, name, chain[..|chain| - 1], TextOf(last.owner))
  }

  lemma {:induction false} SaidIsThere(rs: seq<Resource>, r: Resource)
    requires r in rs
    ensures forall s | s in Said(r) :: s in AllSaid(rs)
  {
    hide Said;
    if rs[0] != r {
      SaidIsThere(rs[1..], r);
    }
  }

  lemma {:induction false} SaidBySome(rs: seq<Resource>, s: Answer) returns (r: Resource)
    requires s in AllSaid(rs)
    ensures r in rs && s in Said(r)
  {
    hide Said;
    if s in Said(rs[0]) {
      r := rs[0];
    } else {
      r := SaidBySome(rs[1..], s);
    }
  }

  lemma AliasSaid(r: Resource, s: Answer)
    requires s in Said(r) && s.Alias?
    ensures r.IsAlias() && s == Alias(TextOf(r.owner), r.ttl, TextOf(r.target))
  {
  }

  lemma {:induction false} LeadsByChain(rs: seq<Resource>, name: bytes, chain: seq<Resource>, end: bytes)
    returns (path: seq<Answer>)
    requires Leads(rs, name, chain, end)
    ensures Chain(AllSaid(rs), name, path, end)
    decreases |chain|
  {
    if chain == [] {
      path := [];
    } else {
      var last := chain[|chain| - 1];
      var front := LeadsByChain(rs, name, chain[..|chain| - 1], TextOf(last.owner));
      var alias := Alias(TextOf(last.owner), last.ttl, TextOf(last.target));
      SaidIsThere(rs, last);
      assert Said(last) == [alias];
      path := front + [alias];
      assert path[..|path| - 1] == front;
    }
  }

  lemma {:induction false} ChainLeads(rs: seq<Resource>, name: bytes, path: seq<Answer>, end: bytes) returns (chain: seq<Resource>)
    requires Chain(AllSaid(rs), name, path, end)
    ensures Leads(rs, name, chain, end) && |chain| == |path|
    ensures forall i | 0 <= i < |chain| :: chain[i].ttl == path[i].ttl
    decreases |path|
  {
    hide Said, TextOf, AllSaid;
    if path == [] {
      chain := [];
    } else {
      var last, n := path[|path| - 1], |path| - 1;
      var front := ChainLeads(rs, name, path[..n], last.owner);
      var r := SaidBySome(rs, last);
      AliasSaid(r, last);
      chain := front + [r];
      assert chain[..|chain| - 1] == front;
    }
  }

  /** Every lifetime among the records that a chain can use is a lower bound for it. */
  lemma {:induction false} ChainLasts(rs: seq<Resource>, name: bytes, path: seq<Answer>, end: bytes, least: nat)
    requires Chain(AllSaid(rs), name, path, end) && least <= 86400
    requires forall r | r in rs && r.IsAlias() :: least <= r.ttl
    ensures least <= Lifetime(path)
    decreases |path|
  {
    if path != [] {
      var last := path[|path| - 1];
      var r := SaidBySome(rs, last);
      ChainLasts(rs, name, path[..|path| - 1], last.owner, least);
    }
  }

  lemma ResponseIsRead(rules: Rules, message: bytes, h: Header, q: Question, rs: seq<Resource>)
    requires Response(message, h, q, rs) && Asked(message, true, rules).Some?
    ensures var asked := Asked(message, true, rules).value;
            && asked.name == TextOf(q.name) && asked.kind == q.kind && asked.identity == h.identity
            && asked.truncated == h.truncated && Answers(message, asked.next, asked.count) == Some(AllSaid(rs))
  {
    hide Asking, Asked, AllStand, Answers;
    AskedExactly(message, h, q, true, rules);
    RecordsAreRead(message, End(12, q.name) + 4, rs);
  }

  lemma {:induction false} SaidAtMost(rs: seq<Resource>)
    ensures |AllSaid(rs)| <= |rs|
  {
    hide TextOf;
    if rs != [] {
      SaidAtMost(rs[1..]);
    }
  }

  lemma RecentSooner(answers: Dict<bytes, real>, address: bytes, deadline: real, sooner: real, m: nat, m': nat)
    requires Recent(answers, address, deadline, m) && sooner <= deadline && m <= m'
    ensures Recent(answers, address, sooner, m')
  {
  }

  lemma AnswerIsRecent(rules: Rules, before: seq<Event>, e: Event, h: Header, q: Question, rs: seq<Resource>,
                       chain: seq<Resource>, a: Resource, least: nat)
    requires Plausible(rules, before + [e]) && Believed(rules, before, e)
    requires Response(e.data, h, q, rs) && !h.truncated
    requires Leads(rs, TextOf(q.name), chain, TextOf(a.owner)) && a in rs && a.IsAddress()
    requires least <= 86400 && least <= a.ttl && forall r | r in rs && r.IsAlias() :: least <= r.ttl
    ensures Recent(Replay(rules, before + [e]).answers, a.data, e.now + least as real, |rs|)
  {
    hide Asked, Response, AllStand, Answers, Closure, Admitted, Plausible, Recent, Replay, Chain, Leads, TextOf;
    ResponseIsRead(rules, e.data, h, q, rs);
    var path := LeadsByChain(rs, TextOf(q.name), chain, TextOf(a.owner));
    var r := Address(TextOf(a.owner), a.ttl, a.data);
    SaidIsThere(rs, a);
    assert Said(a) == [r];
    BelievedAdmits(rules, before, e, path, r, a.data);
    ClosureIsReachable(AllSaid(rs), TextOf(q.name), r.owner);
    var shortest :| Chain(AllSaid(rs), TextOf(q.name), shortest, r.owner)
                    && Lifetime(shortest) == Closure(AllSaid(rs), TextOf(q.name))[r.owner];
    ChainLasts(rs, TextOf(q.name), shortest, r.owner, least);
    SaidAtMost(rs);
    RecentSooner(Replay(rules, before + [e]).answers, a.data, e.now + Min(Min(r.ttl, Lifetime(shortest)), DAY) as real,
                 e.now + least as real, |AllSaid(rs)|, |rs|);
  }

  /**
   * A believed response admits every address that its CNAME records lead to from its question, at once and for as long
   * as every lifetime on the way allows, a day at most, whatever is heard meanwhile: only when 8192 addresses come with
   * it and after it can the oldest of them be forgotten.
   */
  lemma WrittenAnswerAdmits(rules: Rules, before: seq<Event>, e: Event, h: Header, q: Question, rs: seq<Resource>,
                            chain: seq<Resource>, a: Resource, least: nat, more: seq<Event>)
    requires Plausible(rules, before + [e] + more) && Believed(rules, before, e) && |rs| + AllAdd(rules, more) <= 8192
    requires Response(e.data, h, q, rs) && !h.truncated
    requires Leads(rs, TextOf(q.name), chain, TextOf(a.owner)) && a in rs && a.IsAddress()
    requires least <= 86400 && least <= a.ttl && forall r | r in rs && r.IsAlias() :: least <= r.ttl
    ensures forall now | e.now <= now < e.now + least as real :: Admitted(rules, before + [e] + more, a.data, now)
  {
    hide Asked, Response, AllStand, Answers, Closure, Admitted, Recent, AllAdd, Believed, Leads, Replay;
    assert forall o | o in before + [e] :: o in before + [e] + more;
    assert (before + [e])[|before|] == e;
    AnswerIsRecent(rules, before, e, h, q, rs, chain, a, least);
    forall now | e.now <= now < e.now + least as real ensures Admitted(rules, before + [e] + more, a.data, now) {
      StaysAdmitted(rules, before + [e], more, a.data, e.now + least as real, now, |rs|);
    }
  }

  /** Whatever is read as a response is one, written in full. */
  lemma ResponseOf(rules: Rules, message: bytes) returns (h: Header, q: Question, rs: seq<Resource>)
    requires Asked(message, true, rules).Some?
    requires Answers(message, Asked(message, true, rules).value.next, Asked(message, true, rules).value.count).Some?
    ensures Response(message, h, q, rs) && exists rule | rule in rules :: Matched(rule, TextOf(q.name))
  {
    hide Asking, Asked, AllStand, Answers, Matched;
    h, q := AskedIsWritten(message, true, rules);
    AskedExactly(message, h, q, true, rules);
    rs := RecordsOf(message, End(12, q.name) + 4, h.answers);
  }

  /** Event `j` asks what a response with this header and question answers, from the same port. */
  ghost predicate Posed(e: Event, port: nat, identity: nat, name: bytes, kind: nat, h: Header, q: Question) {
    && e.Observed? && !e.response && e.port == port && Asking(e.data, h, q)
    && h.identity == identity && TextOf(q.name) == name && q.kind == kind
  }

  lemma QuestionOf(rules: Rules, e: Event, key: Key) returns (h: Header, q: Question)
    requires Asks(rules, e, key)
    ensures Posed(e, key.port, key.identity, key.name, key.kind, h, q)
  {
    hide Asking, Asked;
    h, q := AskedIsWritten(e.data, false, rules);
    AskedExactly(e.data, h, q, false, rules);
  }

  /** The address was resolved in advance for a rule that is no wildcard, less than 60 seconds ago. */
  ghost predicate ByLookup(rules: Rules, e: Event, address: bytes, now: real) {
    e.Seeded? && e.address == address && e.rule in rules && !Wildcard(e.rule) && now < e.now + 60.0
  }

  /** A response, written as it is, leads from a covered name to the address, and no lifetime on the way has run out. */
  ghost predicate ByResponse(rules: Rules, e: Event, address: bytes, now: real, h: Header, q: Question, rs: seq<Resource>,
                             chain: seq<Resource>, a: Resource) {
    && e.Observed? && e.response && Response(e.data, h, q, rs) && !h.truncated
    && (exists rule | rule in rules :: Matched(rule, TextOf(q.name)))
    && Leads(rs, TextOf(q.name), chain, TextOf(a.owner))
    && a in rs && a.IsAddress() && a.data == address
    && now < e.now + a.ttl as real && now < e.now + 86400.0
    && forall i | 0 <= i < |chain| :: now < e.now + chain[i].ttl as real
  }

  lemma ResponseJustifies(rules: Rules, events: seq<Event>, address: bytes, now: real, i: nat, path: seq<Answer>, r: Answer)
    returns (h: Header, q: Question, rs: seq<Resource>, chain: seq<Resource>, a: Resource)
    requires Justified(rules, events, address, now, i, path, r) && events[i].Observed? && events[i].response
    ensures ByResponse(rules, events[i], address, now, h, q, rs, chain, a)
    ensures Asked(events[i].data, true, rules).Some?
    ensures KeyOf(events[i].port, Asked(events[i].data, true, rules).value)
            == Key(events[i].port, h.identity, TextOf(q.name), q.kind)
  {
    hide Asked, Asking, AllStand, Answers, Chain, Leads, Matched, Uses, Matches, Response;
    h, q, rs := ResponseOf(rules, events[i].data);
    ResponseIsRead(rules, events[i].data, h, q, rs);
    chain := ChainLeads(rs, TextOf(q.name), path, r.owner);
    a := SaidBySome(rs, r);
    assert forall k | 0 <= k < |path| :: path[k] in path;
  }

  lemma UseOf(rules: Rules, events: seq<Event>, address: bytes, now: real, i: nat, path: seq<Answer>, r: Answer)
    returns (j: nat)
    requires Justified(rules, events, address, now, i, path, r) && events[i].Observed?
    ensures Asked(events[i].data, true, rules).Some?
    ensures var key := KeyOf(events[i].port, Asked(events[i].data, true, rules).value);
            j < i && events[i].response && Asks(rules, events[j], key) && events[i].now <= events[j].now + 30.0
  {
    hide Asked, Answers, Vouches;
    j :| Uses(rules, events, j, i, KeyOf(events[i].port, Asked(events[i].data, true, rules).value));
  }

  /**
   * Whatever is admitted was resolved in advance, or a response admits it whose port, identifier, name and type are
   * those of a question asked at most 30 seconds before it.
   */
  lemma AdmittedIsWritten(rules: Rules, events: seq<Event>, address: bytes, now: real)
    returns (i: nat, h: Header, q: Question, rs: seq<Resource>, chain: seq<Resource>, a: Resource, j: nat, h': Header, q': Question)
    requires Plausible(rules, events) && 0.0 < now && Admitted(rules, events, address, now)
    ensures i < |events|
    ensures || ByLookup(rules, events[i], address, now)
            || (&& ByResponse(rules, events[i], address, now, h, q, rs, chain, a)
                && j < i && Posed(events[j], events[i].port, h.identity, TextOf(q.name), q.kind, h', q')
                && events[i].now <= events[j].now + 30.0)
  {
    hide Asked, Asking, AllStand, Answers, Admitted, Plausible, Chain, Leads, Matched, ByResponse, Asks, KeyOf, Posed;
    var path, r;
    h, q, rs, chain, a, j, h', q' := *, *, *, *, *, *, *, *;
    i, path, r := AdmissionIsJustified(rules, events, address, now);
    if events[i].Observed? {
      hide Justified;
      j := UseOf(rules, events, address, now, i, path, r);
      h, q, rs, chain, a := ResponseJustifies(rules, events, address, now, i, path, r);
      h', q' := QuestionOf(rules, events[j], Key(events[i].port, h.identity, TextOf(q.name), q.kind));
    }
  }
}
