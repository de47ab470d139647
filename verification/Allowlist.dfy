/** The allowlist itself: DNS traffic in, address decisions out. */
module Allowlist {
  import opened Bytes
  import opened Ordered
  import opened TcpStream
  import opened DnsMessage
  import opened Admission

  const MAX_STREAMS := 512
  const STREAM_LIFETIME := 60.0
  const FIN := 1
  const SYN := 2
  const RST := 4

  /** A configured network: the addresses from `low` to `high`. */
  datatype Network = Network(low: nat, high: nat)

  type StreamKey = (nat, bool)
  type Streams = Dict<StreamKey, Record>

  predicate Inside(address: bytes, networks: seq<Network>)
    requires |address| == 4
  {
    exists n | n in networks :: n.low <= Long(address, 0) <= n.high
  }

  /** A TCP segment with its port on the guest's side and its direction. */
  datatype Packet = Packet(payload: bytes, port: nat, response: bool, now: real)
  {
    /** What the packet parser guarantees of a TCP payload. */
    predicate Parsed() { |payload| >= 20 }

    function Key(): StreamKey { (port, response) }

    predicate Has(flag: nat)
      requires Parsed() && 0 < flag
    {
      Bit(payload[13], flag)
    }

    function Sequence(): nat
      requires Parsed()
    {
      (Long(payload, 4) + if Has(SYN) then 1 else 0) % WRAP
    }

    function Data(): bytes
      requires Parsed()
    {
      var header := payload[12] as int / 16 * 4;
      if header > |payload| then [] else payload[header..]
    }

    /** The record the packet meets, a new one after a SYN, a gap or the fixed lifetime. */
    function Meets(streams: Streams): Record
      requires Parsed()
    {
      var found := Find(streams, Key());
      if Has(SYN) || found.None? || found.value.expires < now
      then Record(Sequence(), [], [], now + STREAM_LIFETIME) else found.value
    }
  }

  /** The streams after a packet, and the messages it completes. */
  function TcpStep(streams: Streams, p: Packet): (Streams, seq<bytes>)
    requires p.Parsed()
  {
    if p.Has(RST) then (Remove(streams, p.Key()), [])
    else
      var kept := Newest(Renew(streams, p.Key(), p.Meets(streams)), MAX_STREAMS);
      match Accepted(p.Meets(streams), p.Sequence(), p.Data())
      case None => (Remove(kept, p.Key()), [])
      case Some((r, messages)) =>
        (if p.Has(FIN) then Remove(kept, p.Key()) else Put(kept, p.Key(), r), messages)
  }

  function Observations(messages: seq<bytes>, p: Packet): seq<Event> {
    if messages == [] then []
    else [Observed(messages[0], p.port, p.response, p.now)] + Observations(messages[1..], p)
  }

  /** Every stream that is kept is bounded and has no segment that is due. */
  ghost predicate Tidy(streams: Streams) {
    && Unique(streams) && |streams| <= MAX_STREAMS
    && forall e | e in streams :: NoneReady(e.1) && Size(e.1.pending) + |e.1.buffer| <= LIMIT
  }

  lemma TcpStepTidy(streams: Streams, p: Packet)
    requires p.Parsed() && Tidy(streams)
    ensures Tidy(TcpStep(streams, p).0)
  {
    hide Accepted, NoneReady, Size, Unique;
    var key := p.Key();
    if p.Has(RST) {
      TidyRemoved(streams, key);
      return;
    }
    var r := p.Meets(streams);
    FindIsIn(streams, key);
    NewRecordTidy(p);
    var renewed := Renew(streams, key, r);
    RenewKeepsUnique(streams, key, r);
    NewestKeeps(renewed, MAX_STREAMS);
    forall e | e in renewed ensures NoneReady(e.1) && Size(e.1.pending) + |e.1.buffer| <= LIMIT {
      InRenew(streams, key, r, e);
    }
    var kept := Newest(renewed, MAX_STREAMS);
    TidyRemoved(kept, key);
    var accepted := Accepted(r, p.Sequence(), p.Data());
    if accepted.Some? {
      AcceptBounds(r, p.Sequence(), p.Data());
      FindNewest(renewed, MAX_STREAMS, key);
      FindPut(kept, key, accepted.value.0, key);
      PutKeepsUnique(kept, key, accepted.value.0);
      forall e | e in Put(kept, key, accepted.value.0)
        ensures NoneReady(e.1) && Size(e.1.pending) + |e.1.buffer| <= LIMIT
      {
        InPut(kept, key, accepted.value.0, e);
      }
    }
  }

  lemma NewRecordTidy(p: Packet)
    requires p.Parsed()
    ensures var r := Record(p.Sequence(), [], [], p.now + STREAM_LIFETIME);
            NoneReady(r) && Size(r.pending) + |r.buffer| <= LIMIT
  {
  }

  lemma TidyRemoved(streams: Streams, key: StreamKey)
    requires Tidy(streams)
    ensures Tidy(Remove(streams, key))
  {
    hide NoneReady, Size, Unique;
    RemoveKeepsUnique(streams, key);
    forall e | e in Remove(streams, key) ensures e in streams {
      InRemove(streams, key, e);
    }
  }

  /** Packets of other streams can evict a stream but never change it. */
  lemma Undisturbed(streams: Streams, p: Packet, key: StreamKey)
    requires p.Parsed() && Unique(streams) && p.Key() != key
    ensures Find(TcpStep(streams, p).0, key) in {None, Find(streams, key)}
  {
    hide Accepted, Unique;
    var other, r := p.Key(), p.Meets(streams);
    var renewed := Renew(streams, other, r);
    FindRemove(streams, other, key);
    RenewKeepsUnique(streams, other, r);
    FindRenew(streams, other, r, key);
    FindNewest(renewed, MAX_STREAMS, key);
    var kept := Newest(renewed, MAX_STREAMS);
    FindRemove(kept, other, key);
    var accepted := Accepted(r, p.Sequence(), p.Data());
    if accepted.Some? {
      FindPut(kept, other, accepted.value.0, key);
    }
  }

  /** Another stream is evicted only as the oldest of 512, by a stream that was not there. */
  lemma EvictsOnlyOldest(streams: Streams, p: Packet, key: StreamKey)
    requires p.Parsed() && Tidy(streams) && p.Key() != key
    requires Find(streams, key).Some? && Find(TcpStep(streams, p).0, key).None?
    ensures |streams| == 512 && streams[0].0 == key && Find(streams, p.Key()).None?
  {
    hide Accepted, NoneReady, Size;
    var other, r := p.Key(), p.Meets(streams);
    var renewed := Renew(streams, other, r);
    var kept := Newest(renewed, MAX_STREAMS);
    FindRemove(streams, other, key);
    RenewKeepsUnique(streams, other, r);
    FindRenew(streams, other, r, key);
    FindRemove(kept, other, key);
    var accepted := Accepted(r, p.Sequence(), p.Data());
    if accepted.Some? {
      FindPut(kept, other, accepted.value.0, key);
    }
    assert Find(kept, key).None?;
    RemoveShortens(streams, other);
    if |renewed| > MAX_STREAMS {
      FindIsIn(streams, other);
      FirstDropped(renewed, key);
      assert Remove(streams, other) == streams by {
        RemoveNothing(streams, other);
      }
    }
  }

  /** Dropping only the first entry loses only its key. */
  lemma FirstDropped(d: Streams, key: StreamKey)
    requires d != [] && Find(d, key).Some? && Find(d[1..], key).None?
    ensures d[0].0 == key
  {
  }

  lemma {:induction false} RemoveNothing(d: Streams, key: StreamKey)
    ensures |Remove(d, key)| == |d| ==> Remove(d, key) == d && Find(d, key).None?
  {
    RemoveShortens(d, key);
    if d != [] {
      RemoveNothing(d[1..], key);
      RemoveShortens(d[1..], key);
    }
  }

  /** The stream of a packet that leaves it there becomes the newest. */
  lemma BecomesNewest(streams: Streams, p: Packet)
    requires p.Parsed() && Tidy(streams) && Find(TcpStep(streams, p).0, p.Key()).Some?
    ensures var next := TcpStep(streams, p).0; next != [] && next[|next| - 1].0 == p.Key()
  {
    hide Accepted, NoneReady, Size;
    var key, r := p.Key(), p.Meets(streams);
    var kept := Newest(Renew(streams, key, r), MAX_STREAMS);
    FindRemove(kept, key, key);
    var accepted := Accepted(r, p.Sequence(), p.Data());
    assert kept[|kept| - 1].0 == key;
    if accepted.Some? && !p.Has(FIN) && !p.Has(RST) {
      PutAtPlace(kept, key, accepted.value.0);
      assert TcpStep(streams, p).0 == Put(kept, key, accepted.value.0);
    } else {
      FindRemove(streams, key, key);
    }
  }

  lemma {:induction false} PutAtPlace(d: Streams, key: StreamKey, r: Record)
    requires d != [] && d[|d| - 1].0 == key
    ensures |Put(d, key, r)| == |d| && Put(d, key, r)[|d| - 1].0 == key
  {
    if d[0].0 != key {
      assert d[1..][|d| - 2].0 == key;
      PutAtPlace(d[1..], key, r);
    }
  }

  /** A packet of an established stream does to its record what reassembly says, and gives out what that completes. */
  lemma Continues(streams: Streams, p: Packet)
    requires p.Parsed() && Unique(streams) && !p.Has(RST) && !p.Has(SYN)
    requires Find(streams, p.Key()).Some? && p.now <= Find(streams, p.Key()).value.expires
    ensures
      match Accepted(Find(streams, p.Key()).value, p.Sequence(), p.Data())
      case None => Find(TcpStep(streams, p).0, p.Key()) == None && TcpStep(streams, p).1 == []
      case Some((r, messages)) =>
        Find(TcpStep(streams, p).0, p.Key()) == (if p.Has(FIN) then None else Some(r)) && TcpStep(streams, p).1 == messages
  {
    hide Accepted, Unique;
    var key, r := p.Key(), Find(streams, p.Key()).value;
    var kept := Newest(Renew(streams, key, r), MAX_STREAMS);
    FindRemove(kept, key, key);
    var accepted := Accepted(r, p.Sequence(), p.Data());
    if accepted.Some? {
      FindPut(kept, key, accepted.value.0, key);
    }
  }

  /* One stream among all others, over its whole lifetime. */

  /** The stream is there throughout: not reset, reopened, expired, overflown, finished or evicted. */
  ghost predicate Alive(streams: Streams, packets: seq<Packet>, key: StreamKey)
    decreases |packets|
  {
    Find(streams, key).Some? && (packets == [] || (
      && packets[0].Parsed()
      && (packets[0].Key() == key ==> !packets[0].Has(RST) && !packets[0].Has(SYN)
                                      && packets[0].now <= Find(streams, key).value.expires)
      && Alive(TcpStep(streams, packets[0]).0, packets[1..], key)))
  }

  ghost function Own(packets: seq<Packet>, key: StreamKey): seq<Segment> {
    if packets == [] then []
    else if packets[0].Key() == key && packets[0].Parsed() then
      [Segment(packets[0].Sequence(), packets[0].Data())] + Own(packets[1..], key)
    else Own(packets[1..], key)
  }

  ghost function After(streams: Streams, packets: seq<Packet>): Streams
    decreases |packets|
  {
    if packets == [] || !packets[0].Parsed() then streams else After(TcpStep(streams, packets[0]).0, packets[1..])
  }

  ghost function Given(streams: Streams, packets: seq<Packet>, key: StreamKey): seq<bytes>
    decreases |packets|
  {
    if packets == [] || !packets[0].Parsed() then []
    else
      (if packets[0].Key() == key then TcpStep(streams, packets[0]).1 else [])
      + Given(TcpStep(streams, packets[0]).0, packets[1..], key)
  }

  /** However its packets interleave with those of other streams, a stream's record is its own reassembly run. */
  lemma {:induction false} LifetimeIsRun(streams: Streams, packets: seq<Packet>, key: StreamKey)
    requires Tidy(streams) && Alive(streams, packets, key)
    ensures
      var run := Run(Find(streams, key).value, Own(packets, key));
      run.Some? && Find(After(streams, packets), key) == Some(run.value.0) && Given(streams, packets, key) == run.value.1
    decreases |packets|
  {
    hide Accepted, TcpStep, Tidy;
    if packets != [] {
      var p, next := packets[0], TcpStep(streams, packets[0]).0;
      TcpStepTidy(streams, p);
      TidyUnique(streams);
      assert Alive(next, packets[1..], key);
      LifetimeIsRun(next, packets[1..], key);
      if p.Key() == key {
        Continues(streams, p);
      } else {
        Undisturbed(streams, p, key);
        assert [] + Given(next, packets[1..], key) == Given(next, packets[1..], key);
      }
    }
  }

  /** The packet meets a new record: a SYN, or the stream is unknown or expired. */
  predicate Starts(streams: Streams, p: Packet)
    requires p.Parsed()
  {
    !p.Has(RST) && (p.Has(SYN) || Find(streams, p.Key()).None? || Find(streams, p.Key()).value.expires < p.now)
  }

  /**
   * From the packet that opens a record at the start of the sender's octets on, whatever other streams do, the stream
   * gives out a prefix of the messages its sender framed, unchanged and in order.
   */
  lemma StreamGives(streams: Streams, opening: Packet, packets: seq<Packet>, sent: seq<bytes>)
    requires Tidy(streams) && opening.Parsed() && Starts(streams, opening)
    requires Alive(TcpStep(streams, opening).0, packets, opening.Key())
    requires forall m | m in sent :: |m| < 65536
    requires Genuine(Record(opening.Sequence(), [], [], opening.now + STREAM_LIFETIME),
                     [Segment(opening.Sequence(), opening.Data())] + Own(packets, opening.Key()),
                     Framed(sent), opening.Sequence(), 0)
    ensures TcpStep(streams, opening).1 + Given(TcpStep(streams, opening).0, packets, opening.Key()) <= sent
  {
    hide Accepted, TcpStep, Tidy, Genuine, Given, Alive, After, Own, Framed, Run;
    OpenedRun(streams, opening, packets);
    GivesSendersMessages(sent, [Segment(opening.Sequence(), opening.Data())] + Own(packets, opening.Key()),
                         opening.Sequence(), opening.now + STREAM_LIFETIME);
  }

  /**
   * The same up to and including the packet that ends the stream, whether by FIN or by overflow: what it completes
   * continues the sender's messages.
   */
  lemma EndGives(streams: Streams, opening: Packet, packets: seq<Packet>, last: Packet, sent: seq<bytes>)
    requires Tidy(streams) && opening.Parsed() && Starts(streams, opening)
    requires Alive(TcpStep(streams, opening).0, packets, opening.Key())
    requires last.Parsed() && last.Key() == opening.Key() && !last.Has(RST) && !last.Has(SYN)
    requires Find(After(TcpStep(streams, opening).0, packets), last.Key()).Some? ==>
               last.now <= Find(After(TcpStep(streams, opening).0, packets), last.Key()).value.expires
    requires forall m | m in sent :: |m| < 65536
    requires Genuine(Record(opening.Sequence(), [], [], opening.now + STREAM_LIFETIME),
                     [Segment(opening.Sequence(), opening.Data())] + Own(packets, opening.Key())
                     + [Segment(last.Sequence(), last.Data())],
                     Framed(sent), opening.Sequence(), 0)
    ensures var next := TcpStep(streams, opening).0;
            TcpStep(streams, opening).1 + Given(next, packets, opening.Key()) + TcpStep(After(next, packets), last).1 <= sent
  {
    hide Accepted, TcpStep, Tidy, Genuine, Given, Alive, After, Own, Framed, Run;
    var next, key := TcpStep(streams, opening).0, opening.Key();
    var r := Record(opening.Sequence(), [], [], opening.now + STREAM_LIFETIME);
    var first, own := Segment(opening.Sequence(), opening.Data()), Own(packets, key);
    var end, s := After(next, packets), Segment(last.Sequence(), last.Data());
    GenuineBefore(r, [first] + own, s, Framed(sent), opening.Sequence(), 0);
    StreamGives(streams, opening, packets, sent);
    OpenedRun(streams, opening, packets);
    TcpStepTidy(streams, opening);
    RunTidy(next, packets);
    TidyUnique(end);
    Continues(end, last);
    RunAppends(r, [first] + own, s);
    var given := TcpStep(streams, opening).1 + Given(next, packets, key);
    if Accepted(Find(end, key).value, s.sequence, s.data).Some? {
      GivesSendersMessages(sent, [first] + own + [s], opening.Sequence(), r.expires);
    } else {
      assert given + [] == given;
    }
  }

  /** The stream's record and messages so far are the run of its own segments from the opening packet on. */
  lemma OpenedRun(streams: Streams, opening: Packet, packets: seq<Packet>)
    requires Tidy(streams) && opening.Parsed() && Starts(streams, opening)
    requires Alive(TcpStep(streams, opening).0, packets, opening.Key())
    ensures var next, key := TcpStep(streams, opening).0, opening.Key();
            && Find(After(next, packets), key).Some?
            && Run(Record(opening.Sequence(), [], [], opening.now + STREAM_LIFETIME),
                   [Segment(opening.Sequence(), opening.Data())] + Own(packets, key))
               == Some((Find(After(next, packets), key).value, TcpStep(streams, opening).1 + Given(next, packets, key)))
  {
    hide Accepted, TcpStep, Tidy, Given, Alive, After, Own;
    var next, key := TcpStep(streams, opening).0, opening.Key();
    var first, own := Segment(opening.Sequence(), opening.Data()), Own(packets, key);
    TcpStepTidy(streams, opening);
    AliveIsThere(next, packets, key);
    Opens(streams, opening);
    LifetimeIsRun(next, packets, key);
    assert ([first] + own)[1..] == own;
  }

  lemma {:induction false} RunTidy(streams: Streams, packets: seq<Packet>)
    requires Tidy(streams)
    ensures Tidy(After(streams, packets))
    decreases |packets|
  {
    hide Tidy, TcpStep;
    if packets != [] && packets[0].Parsed() {
      TcpStepTidy(streams, packets[0]);
      RunTidy(TcpStep(streams, packets[0]).0, packets[1..]);
    }
  }

  lemma AliveIsThere(streams: Streams, packets: seq<Packet>, key: StreamKey)
    requires Alive(streams, packets, key)
    ensures Find(streams, key).Some?
  {
  }

  /** The packet opens a new record, if it does not end it at once. */
  lemma Opens(streams: Streams, p: Packet)
    requires p.Parsed() && Starts(streams, p) && Tidy(streams)
    requires Find(TcpStep(streams, p).0, p.Key()).Some?
    ensures Accepted(Record(p.Sequence(), [], [], p.now + STREAM_LIFETIME), p.Sequence(), p.Data())
            == Some((Find(TcpStep(streams, p).0, p.Key()).value, TcpStep(streams, p).1))
  {
    hide Accepted, Unique;
    var key, r := p.Key(), Record(p.Sequence(), [], [], p.now + STREAM_LIFETIME);
    var kept := Newest(Renew(streams, key, r), MAX_STREAMS);
    FindRemove(kept, key, key);
    var accepted := Accepted(r, p.Sequence(), p.Data());
    if accepted.Some? {
      FindPut(kept, key, accepted.value.0, key);
    }
  }

  /** A stream that ends with its first packet gives out a prefix of the sender's messages, too. */
  lemma FirstGives(streams: Streams, p: Packet, sent: seq<bytes>)
    requires p.Parsed() && Starts(streams, p) && forall m | m in sent :: |m| < 65536
    requires Genuine(Record(p.Sequence(), [], [], p.now + STREAM_LIFETIME), [Segment(p.Sequence(), p.Data())],
                     Framed(sent), p.Sequence(), 0)
    ensures TcpStep(streams, p).1 <= sent
  {
    hide Accepted, Genuine, Framed, Newest, Renew, Remove, Put;
    var r, first := Record(p.Sequence(), [], [], p.now + STREAM_LIFETIME), Segment(p.Sequence(), p.Data());
    assert p.Meets(streams) == r;
    if Accepted(r, first.sequence, first.data).Some? {
      RunAppends(r, [], first);
      RunNothing();
      assert [] + [first] == [first];
      var messages := Accepted(r, first.sequence, first.data).value.1;
      assert [] + messages == messages;
      GivesSendersMessages(sent, [first], p.Sequence(), r.expires);
    }
  }

  lemma TidyUnique(streams: Streams)
    requires Tidy(streams)
    ensures Unique(streams)
  {
  }

  /** What resolving a rule gives: addresses, each with the time at which it is remembered. */
  type Found = seq<(bytes, real)>

  function SeedsOf(rule: bytes, found: Found): seq<Event> {
    if found == [] then [] else [Seeded(rule, found[0].0, found[0].1)] + SeedsOf(rule, found[1..])
  }

  /** The clock is positive. */
  predicate Positive(found: Found) {
    forall f | f in found :: 0.0 < f.1
  }

  /** The lookups of the exact rules among `names`, in their order. */
  function Seeds(names: Rules, resolved: map<bytes, Found>): seq<Event> {
    if names == [] then []
    else
      (if !Wildcard(names[0]) && names[0] in resolved then SeedsOf(names[0], resolved[names[0]]) else [])
      + Seeds(names[1..], resolved)
  }

  lemma {:induction false} SeedsOfAreSeeded(rule: bytes, found: Found)
    ensures forall e | e in SeedsOf(rule, found) :: e.Seeded?
  {
    if found != [] {
      SeedsOfAreSeeded(rule, found[1..]);
    }
  }

  lemma {:induction false} SeedsAreSeeded(names: Rules, resolved: map<bytes, Found>)
    ensures forall e | e in Seeds(names, resolved) :: e.Seeded?
  {
    if names != [] {
      SeedsAreSeeded(names[1..], resolved);
      if names[0] in resolved {
        SeedsOfAreSeeded(names[0], resolved[names[0]]);
      }
    }
  }

  lemma SeedsStep(names: Rules, i: nat, resolved: map<bytes, Found>)
    requires i < |names|
    ensures Seeds(names[i..], resolved) ==
            (if !Wildcard(names[i]) && names[i] in resolved then SeedsOf(names[i], resolved[names[i]]) else [])
            + Seeds(names[i + 1..], resolved)
  {
    assert names[i..][1..] == names[i + 1..];
  }

  lemma NothingSeeded(resolved: map<bytes, Found>)
    ensures Seeds([], resolved) == []
  {
  }

  class Allowlist {
    const networks: seq<Network>
    const names: Rules
    var queries: Dict<Key, real>
    var answers: Dict<bytes, real>
    var streams: Streams
    ghost var events: seq<Event>

    ghost predicate Valid()
      reads this
    {
      && Plausible(names, events)
      && Caches(queries, answers) == Replay(names, events)
      && Tidy(streams)
    }

    constructor (networks: seq<Network>, names: Rules)
      ensures Valid() && this.networks == networks && this.names == names
      ensures events == [] && streams == []
    {
      this.networks, this.names := networks, names;
      queries, answers, streams, events := [], [], [], [];
    }

    method Allows(address: bytes, now: real) returns (allowed: bool)
      requires Valid() && |address| == 4
      ensures allowed <==> Inside(address, networks) || Admitted(names, events, address, now)
    {
      if Inside(address, networks) {
        return true;
      }
      return Or0(Find(answers, address)) > now;
    }

    method RememberAddress(address: bytes, ttl: nat, now: real)
      modifies this`answers
      ensures answers == Remember(old(answers), address, ttl, now)
    {
      var previous := Find(answers, address);
      var deadline := MaxR(Or0(previous), now + Min(ttl, Cname.DAY) as real);
      answers := KeepNewest(Renew(answers, address, deadline), MAX_ADDRESSES);
    }

    /** Seeds every address that resolving an exact rule gives, as far as the rule can be resolved. */
    method Resolve(resolved: map<bytes, Found>)
      requires Valid() && forall name | name in resolved :: Positive(resolved[name])
      modifies this
      ensures Valid() && streams == old(streams)
      ensures events == old(events) + Seeds(names, resolved)
    {
      hide Valid, Seeds, SeedsOf, Wildcard, Positive;
      NothingSeeded(resolved);
      assert names[0..] == names;
      for i := 0 to |names|
        invariant Valid() && streams == old(streams)
        invariant events + Seeds(names[i..], resolved) == old(events) + Seeds(names, resolved)
      {
        var name := names[i];
        SeedsStep(names, i, resolved);
        if !Wildcard(name) && name in resolved {
          SeedAll(name, resolved[name]);
        }
      }
      assert names[|names|..] == [];
    }

    /** The addresses of one rule, remembered under one lock. */
    method SeedAll(rule: bytes, found: Found)
      requires Valid() && Positive(found) && rule in names && !Wildcard(rule)
      modifies this
      ensures Valid() && streams == old(streams)
      ensures events == old(events) + SeedsOf(rule, found)
    {
      hide Valid, Wildcard;
      for j := 0 to |found|
        invariant Valid() && streams == old(streams)
        invariant events + SeedsOf(rule, found[j..]) == old(events) + SeedsOf(rule, found)
      {
        assert found[j..][1..] == found[j + 1..];
        Seed(rule, found[j].0, found[j].1);
      }
    }

    method Seed(rule: bytes, address: bytes, now: real)
      requires Valid() && 0.0 < now && rule in names && !Wildcard(rule)
      modifies this
      ensures Valid() && streams == old(streams)
      ensures events == old(events) + [Seeded(rule, address, now)]
    {
      hide Remember, Replay, Tidy;
      ReplayExtends(names, events, Seeded(rule, address, now));
      RememberAddress(address, SEED_LIFETIME, now);
      events := events + [Seeded(rule, address, now)];
    }

    method Observe(data: bytes, port: nat, response: bool, now: real)
      requires Valid() && 0.0 < now
      modifies this
      ensures Valid() && streams == old(streams)
      ensures events == old(events) + [Observed(data, port, response, now)]
    {
      hide Asked, Answers, Remember, Remembered, Cname.Closure, Tidy, Replay, Plausible;
      ghost var before := Caches(queries, answers);
      ghost var e := Observed(data, port, response, now);
      ReplayExtends(names, events, e);
      events := events + [e];
      var asked := Ask(data, response, names);
      if asked.None? {
        return;
      }
      var q := asked.value;
      var key := KeyOf(port, q);
      if !response {
        queries := KeepNewest(Renew(queries, key, now + QUERY_LIFETIME), MAX_QUERIES);
        return;
      }
      var deadline := Or0(Find(queries, key));
      queries := Remove(queries, key);
      if deadline < now || q.truncated {
        return;
      }
      var records := ReadAnswers(data, q.next, q.count);
      if records.None? {
        return;
      }
      var aliases := Cname.Close(records.value, q.name);
      ghost var taken := queries;
      for i := 0 to |records.value|
        invariant queries == taken && streams == old(streams) && events == old(events) + [e]
        invariant Remembered(answers, records.value[i..], aliases, now) ==
                  Remembered(before.answers, records.value, aliases, now)
      {
        RememberedStep(answers, records.value, i, aliases, now);
        match records.value[i]
        case Address(owner, ttl, target) =>
          if owner in aliases {
            RememberAddress(target, Min(ttl, aliases[owner]), now);
          }
        case Alias(_, _, _) =>
      }
      assert records.value[|records.value|..] == [];
      RememberedNone(answers, aliases, now);
    }

    /** Reassembles bounded DNS-over-TCP messages and observes each one that a packet completes. */
    method ObserveTcp(p: Packet)
      requires Valid() && p.Parsed() && 0.0 < p.now
      modifies this
      ensures Valid() && streams == TcpStep(old(streams), p).0
      ensures events == old(events) + Observations(TcpStep(old(streams), p).1, p)
    {
      hide TcpStep, Tidy, Replay, Plausible;
      TcpStepTidy(streams, p);
      var messages;
      streams, messages := Reassemble(streams, p);
      ObserveAll(messages, p);
    }

    method ObserveAll(messages: seq<bytes>, p: Packet)
      requires Valid() && 0.0 < p.now
      modifies this
      ensures Valid() && streams == old(streams)
      ensures events == old(events) + Observations(messages, p)
    {
      hide Valid, Replay, Plausible, Tidy;
      for i := 0 to |messages|
        invariant Valid() && streams == old(streams)
        invariant events + Observations(messages[i..], p) == old(events) + Observations(messages, p)
      {
        assert messages[i..][1..] == messages[i + 1..];
        Observe(messages[i], p.port, p.response, p.now);
      }
    }
  }

  method Reassemble(streams: Streams, p: Packet) returns (after: Streams, messages: seq<bytes>)
    requires p.Parsed()
    ensures (after, messages) == TcpStep(streams, p)
  {
    hide Accepted, Drained, Split, Size, Put, Renew, Remove, Newest;
    after, messages := streams, [];
    var sequence: nat, data, key := Long(p.payload, 4), p.Data(), p.Key();
    if p.Has(RST) {
      after := Remove(after, key);
      return;
    }
    var found, state := Find(after, key), Record(0, [], [], 0.0);
    if p.Has(SYN) || found.None? || found.value.expires < p.now {
      state := Record((sequence + if p.Has(SYN) then 1 else 0) % WRAP, [], [], p.now + STREAM_LIFETIME);
    } else {
      state := found.value;
    }
    assert state == p.Meets(streams);
    AcceptedUnfolds(state, p.Sequence(), data);
    after := KeepNewest(Renew(after, key, state), MAX_STREAMS);
    if p.Has(SYN) {
      sequence := (sequence + 1) % WRAP;
    }
    if data != [] {
      state := state.(pending := Put(state.pending, sequence, data));
    }
    if Size(state.pending) + |state.buffer| > LIMIT {
      after := Remove(after, key);
      return;
    }
    state := Drain(state);
    var complete, rest := TakeMessages(state.buffer);
    state := state.(buffer := rest);
    after := if p.Has(FIN) then Remove(after, key) else Put(after, key, state);
    messages := complete;
  }

  lemma ReplayExtends(rules: Rules, events: seq<Event>, e: Event)
    ensures Replay(rules, events + [e]) == Step(Replay(rules, events), rules, e)
    ensures Plausible(rules, events) && 0.0 < e.now && (e.Seeded? ==> e.rule in rules && !Wildcard(e.rule))
            ==> Plausible(rules, events + [e])
  {
    assert (events + [e])[..|events|] == events;
  }

  lemma RememberedStep(answers: Dict<bytes, real>, records: seq<Cname.Answer>, i: nat, aliases: Cname.Aliases, now: real)
    requires i < |records|
    ensures Remembered(answers, records[i..], aliases, now) ==
            Remembered(RememberOne(answers, records[i], aliases, now), records[i + 1..], aliases, now)
  {
    assert records[i..][1..] == records[i + 1..];
  }

  lemma RememberedNone(answers: Dict<bytes, real>, aliases: Cname.Aliases, now: real)
    ensures Remembered(answers, [], aliases, now) == answers
  {
  }

  lemma AcceptedUnfolds(r: Record, sequence: nat, data: bytes)
    ensures
      var pending := if data == [] then r.pending else Put(r.pending, sequence, data);
      Accepted(r, sequence, data) ==
      if Size(pending) + |r.buffer| > LIMIT then None
      else
        var drained := Drained(r.(pending := pending));
        Some((drained.(buffer := Split(drained.buffer).1), Split(drained.buffer).0))
  {
  }
}
