/** DNS over TCP as its senders write it: the allowlist's streams, fed with whole segments. */
module DnsOverTcp {
  import opened Bytes
  import opened Ordered
  import opened Packets
  import opened TcpStream
  import opened Allowlist

  /** A segment, with its port on the guest's side, its direction and its time. */
  datatype Arrival = Arrival(t: Tcp, port: nat, response: bool, now: real)

  function Written(a: Arrival): Packet
    requires a.t.Legal()
  {
    Packet(a.t.Octets(), a.port, a.response, a.now)
  }

  function AllWritten(arrivals: seq<Arrival>): seq<Packet>
    requires forall a | a in arrivals :: a.t.Legal()
  {
    if arrivals == [] then [] else [Written(arrivals[0])] + AllWritten(arrivals[1..])
  }

  /** The sequence number of a segment's first octet of data: a SYN takes one before it. */
  function First(t: Tcp): nat {
    (t.sequence + if t.syn then 1 else 0) % 0x1_0000_0000
  }

  /** What the allowlist makes of a segment: its flags, its first octet and its data behind any options. */
  lemma SegmentReads(a: Arrival)
    requires a.t.Legal()
    ensures var p := Written(a);
            && p.Parsed() && p.Key() == (a.port, a.response)
            && p.Has(FIN) == a.t.fin && p.Has(SYN) == a.t.syn && p.Has(RST) == a.t.rst
            && p.Sequence() == First(a.t) && p.Data() == a.t.data
  {
    hide Bit, Tcp.Octets;
    TcpReads(a.t);
  }

  /** Only octets without a whole TCP header are no segment. */
  lemma EveryPayloadIsWritten(payload: bytes, port: nat, response: bool, now: real) returns (a: Arrival)
    requires HoldsTcp(payload)
    ensures a.t.Legal() && Written(a) == Packet(payload, port, response, now)
  {
    var t: Tcp :| t.Legal() && t.Octets() == payload;
    a := Arrival(t, port, response, now);
  }

  /** The segments of one stream among all that arrive. */
  function Sendings(arrivals: seq<Arrival>, port: nat, response: bool): seq<Segment> {
    if arrivals == [] then []
    else
      var a := arrivals[0];
      (if a.port == port && a.response == response then [Segment(First(a.t), a.t.data)] else [])
      + Sendings(arrivals[1..], port, response)
  }

  /** The stream is there throughout: not reset, reopened, expired, overflown, finished or evicted. */
  ghost predicate Lives(streams: Streams, arrivals: seq<Arrival>, port: nat, response: bool)
    requires forall a | a in arrivals :: a.t.Legal()
    decreases |arrivals|
  {
    Find(streams, (port, response)).Some? && (arrivals == [] || (
      var a := arrivals[0];
      SegmentReads(a);
      && (a.port == port && a.response == response ==>
            !a.t.rst && !a.t.syn && a.now <= Find(streams, (port, response)).value.expires)
      && Lives(TcpStep(streams, Written(a)).0, arrivals[1..], port, response)))
  }

  lemma {:induction false} LivesIsAlive(streams: Streams, arrivals: seq<Arrival>, port: nat, response: bool)
    requires (forall a | a in arrivals :: a.t.Legal()) && Lives(streams, arrivals, port, response)
    ensures Alive(streams, AllWritten(arrivals), (port, response))
    ensures Own(AllWritten(arrivals), (port, response)) == Sendings(arrivals, port, response)
    decreases |arrivals|
  {
    hide TcpStep, Tcp.Octets;
    if arrivals != [] {
      SegmentReads(arrivals[0]);
      LivesIsAlive(TcpStep(streams, Written(arrivals[0])).0, arrivals[1..], port, response);
      assert AllWritten(arrivals)[1..] == AllWritten(arrivals[1..]);
    }
  }

  /** The segment meets a new record: a SYN, or the stream is unknown or expired. */
  predicate Begins(streams: Streams, a: Arrival) {
    var found := Find(streams, (a.port, a.response));
    !a.t.rst && (a.t.syn || found.None? || found.value.expires < a.now)
  }

  /** What the stream gives out, from the segment that opens it on. */
  ghost function Heard(streams: Streams, opening: Arrival, arrivals: seq<Arrival>): seq<bytes>
    requires opening.t.Legal() && forall a | a in arrivals :: a.t.Legal()
  {
    SegmentReads(opening);
    var next := TcpStep(streams, Written(opening));
    next.1 + Given(next.0, AllWritten(arrivals), (opening.port, opening.response))
  }

  function Opening(a: Arrival): Record {
    Record(First(a.t), [], [], a.now + 60.0)
  }

  function Lifetime(opening: Arrival, arrivals: seq<Arrival>): seq<Segment> {
    [Segment(First(opening.t), opening.t.data)] + Sendings(arrivals, opening.port, opening.response)
  }

  ghost predicate Stays(streams: Streams, opening: Arrival, arrivals: seq<Arrival>) {
    && opening.t.Legal() && (forall a | a in arrivals :: a.t.Legal())
    && Tidy(streams) && Begins(streams, opening)
    && (SegmentReads(opening);
        Lives(TcpStep(streams, Written(opening)).0, arrivals, opening.port, opening.response))
  }

  /**
   * However segments of other streams interleave, what a stream gives out and the record it leaves are those of its own
   * segments: their sequence numbers and data as the sender wrote them, behind any options.
   */
  lemma LifetimeIsOwn(streams: Streams, opening: Arrival, arrivals: seq<Arrival>) returns (r: Record)
    requires Stays(streams, opening, arrivals)
    ensures Run(Opening(opening), Lifetime(opening, arrivals)) == Some((r, Heard(streams, opening, arrivals)))
  {
    hide TcpStep, Tcp.Octets, Tidy, Lives, Run, Given, Alive, After, Accepted;
    SegmentReads(opening);
    var p := Written(opening);
    var next := TcpStep(streams, p).0;
    LivesIsAlive(next, arrivals, opening.port, opening.response);
    OpenedRun(streams, p, AllWritten(arrivals));
    r := Find(After(next, AllWritten(arrivals)), p.Key()).value;
  }

  /**
   * From the segment that opens its record at the start of the sender's octets on, a stream gives out a prefix of the
   * messages its sender framed, whatever other streams do, in whatever order, with whatever overlaps and repetitions its
   * segments come, and across any wrap of the sequence numbers.
   */
  lemma StreamGivesMessages(streams: Streams, opening: Arrival, arrivals: seq<Arrival>, sent: seq<bytes>)
    requires Stays(streams, opening, arrivals) && forall m | m in sent :: |m| < 65536
    requires Genuine(Opening(opening), Lifetime(opening, arrivals), Framed(sent), First(opening.t), 0)
    ensures Heard(streams, opening, arrivals) <= sent
  {
    hide Stays, Genuine, Framed, Heard, Run;
    var r := LifetimeIsOwn(streams, opening, arrivals);
    GivesSendersMessages(sent, Lifetime(opening, arrivals), First(opening.t), opening.now + 60.0);
  }

  /** A sender whose segments come in order is heard in full, however it cuts its octets. */
  lemma InOrderIsHeard(streams: Streams, opening: Arrival, arrivals: seq<Arrival>, sent: seq<bytes>, chunks: seq<bytes>)
    requires Stays(streams, opening, arrivals) && forall m | m in sent :: |m| < 65536
    requires Concatenated(chunks) == Framed(sent) && forall c | c in chunks :: |c| < 65536
    requires Lifetime(opening, arrivals) == InOrder(First(opening.t), chunks)
    ensures Heard(streams, opening, arrivals) == sent
  {
    hide Stays, Framed, Heard, Run, Concatenated, InOrder;
    var r := LifetimeIsOwn(streams, opening, arrivals);
    InOrderGivesAll(sent, chunks, First(opening.t), opening.now + 60.0);
  }

  /**
   * Nothing that arrived is held back: what is given out and what is kept of the next message are the sender's octets up
   * to one that has not arrived, or that a shorter segment displaced while it waited.
   */
  lemma StreamGivesAllThatArrived(streams: Streams, opening: Arrival, arrivals: seq<Arrival>, sent: seq<bytes>)
    returns (kept: bytes, end: nat)
    requires Stays(streams, opening, arrivals) && forall m | m in sent :: |m| < 65536
    requires Genuine(Opening(opening), Lifetime(opening, arrivals), Framed(sent), First(opening.t), 0)
    ensures Heard(streams, opening, arrivals) <= sent && end <= |Framed(sent)| && Short(kept)
    ensures Framed(Heard(streams, opening, arrivals)) + kept == Framed(sent)[..end]
    ensures forall p | 0 <= p < end :: Arrives(Opening(opening), Lifetime(opening, arrivals), 0, p)
    ensures Arrives(Opening(opening), Lifetime(opening, arrivals), 0, end) <==>
              Dropped(Opening(opening), Lifetime(opening, arrivals), 0, end)
  {
    hide Stays, Genuine, Framed, Heard, Run, Arrives, Dropped, Short;
    var r := LifetimeIsOwn(streams, opening, arrivals);
    GivesAllThatArrived(sent, Lifetime(opening, arrivals), First(opening.t), opening.now + 60.0);
    kept, end := r.buffer, Travelled(Opening(opening), Lifetime(opening, arrivals));
  }

  /** The segment that ends the stream, whether by FIN or by overflow, continues the sender's messages. */
  lemma EndGivesMessages(streams: Streams, opening: Arrival, arrivals: seq<Arrival>, last: Arrival, sent: seq<bytes>)
    requires Stays(streams, opening, arrivals) && forall m | m in sent :: |m| < 65536
    requires last.t.Legal() && last.port == opening.port && last.response == opening.response
    requires !last.t.rst && !last.t.syn
    requires (SegmentReads(opening);
              var found := Find(After(TcpStep(streams, Written(opening)).0, AllWritten(arrivals)), (last.port, last.response));
              found.Some? ==> last.now <= found.value.expires)
    requires Genuine(Opening(opening), Lifetime(opening, arrivals) + [Segment(First(last.t), last.t.data)], Framed(sent),
                     First(opening.t), 0)
    ensures (SegmentReads(opening);
             SegmentReads(last);
             var end := After(TcpStep(streams, Written(opening)).0, AllWritten(arrivals));
             Heard(streams, opening, arrivals) + TcpStep(end, Written(last)).1 <= sent)
  {
    hide TcpStep, Tcp.Octets, Tidy, Lives, Genuine, Framed, Given, Alive, After, Find;
    SegmentReads(opening);
    SegmentReads(last);
    LivesIsAlive(TcpStep(streams, Written(opening)).0, arrivals, opening.port, opening.response);
    EndGives(streams, Written(opening), AllWritten(arrivals), Written(last), sent);
  }

  /** A segment that opens and ends a stream at once, as SYN with FIN does, gives out a prefix of the messages, too. */
  lemma FirstGivesMessages(streams: Streams, a: Arrival, sent: seq<bytes>)
    requires a.t.Legal() && Begins(streams, a) && forall m | m in sent :: |m| < 65536
    requires Genuine(Opening(a), [Segment(First(a.t), a.t.data)], Framed(sent), First(a.t), 0)
    ensures (SegmentReads(a); TcpStep(streams, Written(a)).1 <= sent)
  {
    hide TcpStep, Tcp.Octets, Genuine, Framed, Find;
    SegmentReads(a);
    FirstGives(streams, Written(a), sent);
  }

  /**
   * A record opened in the middle of a stream, after the one before it expired or was evicted, gives out the split of
   * the octets from there on, up to some position.
   */
  lemma StreamGivesSplit(streams: Streams, opening: Arrival, arrivals: seq<Arrival>, stream: bytes, isn: nat, start: nat)
    returns (pos: nat)
    requires Stays(streams, opening, arrivals) && start <= |stream| && First(opening.t) == (isn + start) % WRAP
    requires Genuine(Opening(opening), Lifetime(opening, arrivals), stream, isn, start)
    ensures start <= pos <= |stream| && Heard(streams, opening, arrivals) == Split(stream[start..pos]).0
  {
    hide Stays, Genuine, Heard, Run, Split, Placed, Size, NoneReady;
    var r := LifetimeIsOwn(streams, opening, arrivals);
    StartedAt(Opening(opening), stream, isn, start);
    pos := Reassembles(Opening(opening), Lifetime(opening, arrivals), stream, isn, start, start, []);
    var messages := Run(Opening(opening), Lifetime(opening, arrivals)).value.1;
    assert [] + messages == messages;
  }
}
