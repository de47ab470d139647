/** Bounded reassembly of one direction of a DNS-over-TCP connection, section 4.2.2 of RFC 1035. */
module TcpStream {
  import opened Bytes
  import opened Ordered

  const WRAP := 0x1_0000_0000
  const HALF := 0x8000_0000
  const LIMIT := 131072

  type Pending = Dict<nat, bytes>

  /** What is kept of a stream: the next sequence number, the octets before it not yet framed, and those after it. */
  datatype Record = Record(next: nat, buffer: bytes, pending: Pending, expires: real)

  /** How far a sequence number lies ahead of `next`, read as a signed 32-bit difference. */
  function Delta(sequence: nat, next: nat): int {
    (sequence - next + HALF) % WRAP - HALF
  }

  function Size(pending: Pending): nat {
    if pending == [] then 0 else |pending[0].1| + Size(pending[1..])
  }

  /** The first stored segment that starts at or before `next`. */
  function Ready(pending: Pending, next: nat): Option<(nat, bytes)> {
    if pending == [] then None
    else if Delta(pending[0].0, next) <= 0 then Some(pending[0])
    else Ready(pending[1..], next)
  }

  /** The octets of a segment that were not consumed before. */
  function Fresh(part: bytes, delta: int): bytes {
    if delta >= 0 then part else if -delta > |part| then [] else part[-delta..]
  }

  lemma {:induction false} ReadyIsStored(pending: Pending, next: nat)
    ensures Ready(pending, next).Some? ==>
              Ready(pending, next).value in pending && Delta(Ready(pending, next).value.0, next) <= 0
    ensures Ready(pending, next).None? ==> forall e | e in pending :: Delta(e.0, next) > 0
  {
    if pending != [] {
      ReadyIsStored(pending[1..], next);
    }
  }

  lemma {:induction false} RemoveFrees(pending: Pending, e: (nat, bytes))
    requires e in pending
    ensures Size(Remove(pending, e.0)) + |e.1| <= Size(pending)
    ensures |Remove(pending, e.0)| < |pending|
  {
    if pending[0] == e {
      RemoveShrinks(pending[1..], e.0);
    } else {
      assert e in pending[1..];
      RemoveFrees(pending[1..], e);
      assert ([pending[0]] + Remove(pending[1..], e.0))[1..] == Remove(pending[1..], e.0);
    }
  }

  lemma {:induction false} RemoveShrinks(pending: Pending, k: nat)
    ensures Size(Remove(pending, k)) <= Size(pending)
    ensures |Remove(pending, k)| <= |pending|
  {
    if pending != [] {
      RemoveShrinks(pending[1..], k);
      assert ([pending[0]] + Remove(pending[1..], k))[1..] == Remove(pending[1..], k);
    }
  }

  /** The record after every segment that has become contiguous has moved to the buffer. */
  function Drained(r: Record): Record
    decreases |r.pending|
  {
    var ready := Ready(r.pending, r.next);
    if ready.None? then r
    else
      ReadyIsStored(r.pending, r.next);
      RemoveFrees(r.pending, ready.value);
      Drained(Advanced(r, ready.value))
  }

  function Advanced(r: Record, e: (nat, bytes)): Record {
    var part := Fresh(e.1, Delta(e.0, r.next));
    Record((r.next + |part|) % WRAP, r.buffer + part, Remove(r.pending, e.0), r.expires)
  }

  /** These octets do not begin with a whole message. */
  predicate Short(data: bytes) {
    |data| < 2 || |data| < 2 + Word(data, 0)
  }

  /** The complete messages at the start of some octets, and the octets after them. */
  function Split(data: bytes): (seq<bytes>, bytes) {
    if Short(data) then ([], data)
    else
      var end := 2 + Word(data, 0);
      var (messages, rest) := Split(data[end..]);
      ([data[2..end]] + messages, rest)
  }

  /** The sender's side: each message after its length in two octets. */
  function Framed(messages: seq<bytes>): bytes
    requires forall m | m in messages :: |m| < 65536
  {
    if messages == [] then [] else Packed(|messages[0]|) + messages[0] + Framed(messages[1..])
  }

  method FindReady(pending: Pending, next: nat) returns (ready: Option<(nat, bytes)>)
    ensures ready == Ready(pending, next)
  {
    for i := 0 to |pending|
      invariant Ready(pending, next) == Ready(pending[i..], next)
    {
      if Delta(pending[i].0, next) <= 0 {
        return Some(pending[i]);
      }
    }
    return None;
  }

  method Drain(r: Record) returns (r': Record)
    ensures r' == Drained(r)
  {
    r' := r;
    while r'.pending != []
      invariant Drained(r') == Drained(r)
      decreases |r'.pending|
    {
      ReadyIsStored(r'.pending, r'.next);
      var ready := FindReady(r'.pending, r'.next);
      if ready.None? {
        break;
      }
      RemoveFrees(r'.pending, ready.value);
      var (offset, part) := ready.value;
      var delta := Delta(offset, r'.next);
      part := if delta >= 0 then part else if -delta > |part| then [] else part[-delta..];
      r' := Record((r'.next + |part|) % WRAP, r'.buffer + part, Remove(r'.pending, offset), r'.expires);
    }
  }

  /** The framing loop: takes every complete message off the front of the buffer. */
  method TakeMessages(buffer: bytes) returns (messages: seq<bytes>, rest: bytes)
    ensures (messages, rest) == Split(buffer)
  {
    messages, rest := [], buffer;
    while |rest| >= 2
      invariant messages + Split(rest).0 == Split(buffer).0 && Split(rest).1 == Split(buffer).1
      decreases |rest|
    {
      var size := Word(rest, 0);
      if |rest| < size + 2 {
        break;
      }
      ghost var later := Split(rest[2 + size..]).0;
      assert messages + ([rest[2..2 + size]] + later) == messages + [rest[2..2 + size]] + later;
      messages := messages + [rest[2..2 + size]];
      rest := rest[2 + size..];
    }
    assert messages + [] == messages;
  }

  /** One segment for an established record: the record and messages it yields, or nothing when the record overflows. */
  function Accepted(r: Record, sequence: nat, data: bytes): Option<(Record, seq<bytes>)> {
    var pending := if data == [] then r.pending else Put(r.pending, sequence, data);
    if Size(pending) + |r.buffer| > LIMIT then None
    else
      var drained := Drained(r.(pending := pending));
      var (messages, rest) := Split(drained.buffer);
      Some((drained.(buffer := rest), messages))
  }

  /* Framing is undone by splitting, piece by piece. */

  lemma SplitFirst(m: bytes, rest: bytes)
    requires |m| < 65536
    ensures Split(Packed(|m|) + m + rest) == ([m] + Split(rest).0, Split(rest).1)
  {
    var data, end := Packed(|m|) + m + rest, 2 + |m|;
    assert Word(data, 0) == |m|;
    assert data[2..end] == m && data[end..] == rest;
  }

  lemma FramedNone()
    ensures Framed([]) == [] && Split([]) == ([], [])
  {
  }

  lemma FramedCons(m: bytes, messages: seq<bytes>)
    requires |m| < 65536 && forall o | o in messages :: |o| < 65536
    ensures Framed([m] + messages) == Packed(|m|) + m + Framed(messages)
  {
    assert ([m] + messages)[1..] == messages;
  }

  lemma {:induction false} SplitOfFramed(messages: seq<bytes>, tail: bytes)
    requires forall m | m in messages :: |m| < 65536
    ensures Split(Framed(messages) + tail) == (messages + Split(tail).0, Split(tail).1)
  {
    hide Split, Framed, Packed;
    var more := Split(tail).0;
    if messages == [] {
      FramedNone();
      assert [] + tail == tail && [] + more == more;
    } else {
      var m, rest := messages[0], messages[1..];
      assert messages == [m] + rest;
      FramedCons(m, rest);
      var framed := Framed(rest);
      assert Packed(|m|) + m + framed + tail == Packed(|m|) + m + (framed + tail);
      SplitFirst(m, framed + tail);
      SplitOfFramed(rest, tail);
      assert [m] + rest + more == [m] + (rest + more);
    }
  }

  /** Some octets either begin with a whole message or hold none. */
  lemma SplitUnfolds(data: bytes)
    ensures Split(data) ==
            if Short(data) then ([], data)
            else ([data[2..2 + Word(data, 0)]] + Split(data[2 + Word(data, 0)..]).0, Split(data[2 + Word(data, 0)..]).1)
    ensures !Short(data) ==>
              Word(data, 0) < 65536 &&
              data == Packed(Word(data, 0)) + data[2..2 + Word(data, 0)] + data[2 + Word(data, 0)..]
  {
  }

  lemma {:induction false} SplitIsFraming(data: bytes)
    ensures forall m | m in Split(data).0 :: |m| < 65536
    ensures data == Framed(Split(data).0) + Split(data).1
    ensures Short(Split(data).1)
  {
    SplitUnfolds(data);
    hide Split, Framed, Packed;
    if Short(data) {
      FramedNone();
      assert [] + data == data;
    } else {
      hide Short;
      var end := 2 + Word(data, 0);
      var m, messages, rest := data[2..end], Split(data[end..]).0, Split(data[end..]).1;
      SplitIsFraming(data[end..]);
      FramedCons(m, messages);
      var framed := Framed(messages);
      assert Packed(|m|) + m + framed + rest == Packed(|m|) + m + (framed + rest);
    }
  }

  lemma SplitExtends(data: bytes, more: bytes)
    ensures Split(data + more) ==
            (Split(data).0 + Split(Split(data).1 + more).0, Split(Split(data).1 + more).1)
  {
    SplitIsFraming(data);
    var (messages, rest) := Split(data);
    assert data + more == Framed(messages) + (rest + more);
    SplitOfFramed(messages, rest + more);
  }

  /* Soundness against the stream the sender wrote, under any order, overlap, repetition and wrap. */

  /** `part` is what the stream holds from octet `at` on. */
  predicate Sent(stream: bytes, at: int, part: bytes) {
    0 <= at && at + |part| <= |stream| && stream[at..at + |part|] == part
  }

  /** Every stored segment is a piece of the stream and starts at most `slack` octets before `pos`. */
  ghost predicate Placed(r: Record, stream: bytes, pos: nat, slack: nat) {
    forall e | e in r.pending :: 0 <= slack + Delta(e.0, r.next) && Sent(stream, pos + Delta(e.0, r.next), e.1)
  }

  ghost predicate NoneReady(r: Record) {
    forall e | e in r.pending :: Delta(e.0, r.next) > 0
  }

  lemma DeltaMoves(sequence: nat, next: nat, n: nat)
    requires Delta(sequence, next) - n >= -HALF
    ensures Delta(sequence, (next + n) % WRAP) == Delta(sequence, next) - n
  {
  }

  lemma FreshContinues(stream: bytes, pos: nat, part: bytes, delta: int)
    requires pos <= |stream| && delta <= 0 && Sent(stream, pos + delta, part)
    ensures |Fresh(part, delta)| <= |part| && Sent(stream, pos, Fresh(part, delta))
  {
    if 0 < -delta <= |part| {
      assert part[-delta..] == stream[pos..pos + delta + |part|];
    }
  }

  /** From `r` to `d` the buffer has taken the `n` octets of the stream after `pos`. */
  ghost predicate Moved(r: Record, d: Record, stream: bytes, pos: nat, n: int) {
    && 0 <= n && pos + n <= |stream|
    && d.buffer == r.buffer + stream[pos..pos + n]
    && d.next == (r.next + n) % WRAP
    && d.expires == r.expires
    && Size(d.pending) + |d.buffer| <= Size(r.pending) + |r.buffer|
  }

  lemma Joined(stream: bytes, a: nat, b: nat, c: nat)
    requires a <= b <= c <= |stream|
    ensures stream[a..b] + stream[b..c] == stream[a..c]
  {
  }

  lemma WrapsOnce(next: nat, n: nat, m: nat)
    ensures ((next + n) % WRAP + m) % WRAP == (next + n + m) % WRAP
  {
  }

  lemma MovedTwice(r: Record, r': Record, d: Record, stream: bytes, pos: nat, n: int, m: int)
    requires Moved(r, r', stream, pos, n) && Moved(r', d, stream, pos + n, m)
    ensures Moved(r, d, stream, pos, n + m)
  {
    hide Size;
    Joined(stream, pos, pos + n, pos + n + m);
    WrapsOnce(r.next, n, m);
    var first, second := stream[pos..pos + n], stream[pos + n..pos + n + m];
    assert r.buffer + first + second == r.buffer + (first + second);
  }

  /** Moving one ready segment to the buffer, while the others start at most `slack` octets back. */
  lemma AdvanceSound(r: Record, e: (nat, bytes), stream: bytes, pos: nat, slack: nat)
    requires pos <= |stream| && e in r.pending && Delta(e.0, r.next) <= 0
    requires Sent(stream, pos + Delta(e.0, r.next), e.1)
    requires forall o | o in r.pending && o.0 != e.0 ::
               0 <= slack + Delta(o.0, r.next) && Sent(stream, pos + Delta(o.0, r.next), o.1)
    requires slack + Size(r.pending) <= LIMIT
    ensures
      var r' := Advanced(r, e);
      var n := |r'.buffer| - |r.buffer|;
      Moved(r, r', stream, pos, n) && Placed(r', stream, pos + n, slack + n) && slack + n + Size(r'.pending) <= LIMIT
  {
    FreshContinues(stream, pos, e.1, Delta(e.0, r.next));
    RemoveFrees(r.pending, e);
    var r' := Advanced(r, e);
    var n := |r'.buffer| - |r.buffer|;
    forall o | o in r'.pending
      ensures 0 <= slack + n + Delta(o.0, r'.next) && Sent(stream, pos + n + Delta(o.0, r'.next), o.1)
    {
      InRemove(r.pending, e.0, o);
      DeltaMoves(o.0, r.next, n);
    }
  }

  lemma {:induction false} DrainSound(r: Record, stream: bytes, pos: nat, slack: nat)
    requires pos <= |stream| && r.next < WRAP && Placed(r, stream, pos, slack) && slack + Size(r.pending) <= LIMIT
    ensures
      var d := Drained(r);
      var n := |d.buffer| - |r.buffer|;
      Moved(r, d, stream, pos, n) && Placed(d, stream, pos + n, LIMIT) && NoneReady(d)
    decreases |r.pending|
  {
    hide Delta, Sent, Ready, Advanced, Size;
    ReadyIsStored(r.pending, r.next);
    var ready := Ready(r.pending, r.next);
    if ready.Some? {
      RemoveFrees(r.pending, ready.value);
      AdvanceSound(r, ready.value, stream, pos, slack);
      var r' := Advanced(r, ready.value);
      var n, m := |r'.buffer| - |r.buffer|, |Drained(r').buffer| - |r'.buffer|;
      AdvancedShrinks(r, ready.value);
      DrainSound(r', stream, pos + n, slack + n);
      MovedTwice(r, r', Drained(r), stream, pos, n, m);
    }
  }

  lemma AdvancedShrinks(r: Record, e: (nat, bytes))
    requires e in r.pending
    ensures |Advanced(r, e).pending| < |r.pending|
  {
    RemoveFrees(r.pending, e);
  }

  /**
   * The record has consumed exactly the octets of the stream from `start` to `pos`: its sequence number says so, and
   * the messages given out so far and its buffer are the split of those octets.
   */
  ghost predicate Follows(r: Record, stream: bytes, isn: nat, start: nat, pos: nat, emitted: seq<bytes>) {
    && start <= pos <= |stream|
    && r.next == (isn + pos) % WRAP
    && Split(stream[start..pos]) == (emitted, r.buffer)
    && Placed(r, stream, pos, LIMIT) && NoneReady(r)
    && Size(r.pending) + |r.buffer| <= LIMIT
  }

  datatype Segment = Segment(sequence: nat, data: bytes)

  /** A segment cut from the stream at `at`, within 2^31 of the position it meets. */
  predicate Cut(s: Segment, stream: bytes, isn: nat, pos: nat, at: nat) {
    s.sequence == (isn + at) % WRAP && pos - HALF <= at < pos + HALF && Sent(stream, at, s.data)
  }

  /** How many octets of the stream a segment lets the record consume. */
  function Progress(r: Record, s: Segment): int {
    |Drained(r.(pending := if s.data == [] then r.pending else Put(r.pending, s.sequence, s.data))).buffer| - |r.buffer|
  }

  /** The wrapped difference of two sequence numbers is the distance of their offsets, up to 2^31. */
  lemma DeltaIsDistance(sequence: nat, next: nat, isn: nat, pos: nat, at: nat)
    requires sequence == (isn + at) % WRAP && next == (isn + pos) % WRAP && pos - HALF <= at < pos + HALF
    ensures Delta(sequence, next) == at - pos
  {
  }

  lemma StoredSound(r: Record, s: Segment, stream: bytes, isn: nat, start: nat, pos: nat, emitted: seq<bytes>, at: nat)
    requires Follows(r, stream, isn, start, pos, emitted)
    requires Cut(s, stream, isn, pos, at) && s.data != []
    ensures
      var stored := r.(pending := Put(r.pending, s.sequence, s.data));
      && Delta(s.sequence, r.next) == at - pos
      && forall e | e in stored.pending ::
           && Sent(stream, pos + Delta(e.0, r.next), e.1)
           && (e == (s.sequence, s.data) || Delta(e.0, r.next) > 0)
  {
    hide Delta, Short;
    DeltaIsDistance(s.sequence, r.next, isn, pos, at);
    forall e | e in Put(r.pending, s.sequence, s.data)
      ensures Sent(stream, pos + Delta(e.0, r.next), e.1)
      ensures e == (s.sequence, s.data) || Delta(e.0, r.next) > 0
    {
      InPut(r.pending, s.sequence, s.data, e);
    }
  }

  /** Draining after a segment arrives is sound even when that segment lies almost 2^31 back. */
  lemma StoredDrains(r: Record, s: Segment, stream: bytes, isn: nat, start: nat, pos: nat, emitted: seq<bytes>, at: nat)
    requires Follows(r, stream, isn, start, pos, emitted)
    requires Cut(s, stream, isn, pos, at) && s.data != []
    requires Size(Put(r.pending, s.sequence, s.data)) + |r.buffer| <= LIMIT
    ensures
      var stored := r.(pending := Put(r.pending, s.sequence, s.data));
      var d := Drained(stored);
      var n := |d.buffer| - |r.buffer|;
      Moved(stored, d, stream, pos, n) && Placed(d, stream, pos + n, LIMIT) && NoneReady(d)
  {
    hide Delta, Sent, Ready, Advanced, Size, Put, Split, Cut;
    var stored := r.(pending := Put(r.pending, s.sequence, s.data));
    StoredSound(r, s, stream, isn, start, pos, emitted, at);
    ReadyIsStored(stored.pending, r.next);
    var ready := Ready(stored.pending, r.next);
    if ready.Some? {
      RemoveFrees(stored.pending, ready.value);
      AdvanceSound(stored, ready.value, stream, pos, 0);
      var r' := Advanced(stored, ready.value);
      var n, m := |r'.buffer| - |r.buffer|, |Drained(r').buffer| - |r'.buffer|;
      DrainSound(r', stream, pos + n, n);
      MovedTwice(stored, r', Drained(stored), stream, pos, n, m);
    } else {
      DrainSound(stored, stream, pos, 0);
    }
  }

  lemma AcceptSound(r: Record, s: Segment, stream: bytes, isn: nat, start: nat, pos: nat, emitted: seq<bytes>, at: nat)
    requires Follows(r, stream, isn, start, pos, emitted)
    requires s.data == [] || Cut(s, stream, isn, pos, at)
    requires Accepted(r, s.sequence, s.data).Some?
    ensures
      var (r', messages) := Accepted(r, s.sequence, s.data).value;
      && 0 <= Progress(r, s)
      && Follows(r', stream, isn, start, pos + Progress(r, s), emitted + messages)
      && r'.expires == r.expires
  {
    hide Delta, Sent, Drained, Size, Put, Split, Cut, Placed, NoneReady;
    var n := Progress(r, s);
    var stored := r.(pending := if s.data == [] then r.pending else Put(r.pending, s.sequence, s.data));
    if s.data == [] {
      assert stored == r;
      PlacedNearer(r, stream, start, pos, emitted, isn);
      DrainSound(r, stream, pos, 0);
    } else {
      StoredDrains(r, s, stream, isn, start, pos, emitted, at);
    }
    MovedFollows(r, stored, Drained(stored), stream, isn, start, pos, emitted, n);
  }

  /** Nothing that is not due lies behind. */
  lemma PlacedNearer(r: Record, stream: bytes, start: nat, pos: nat, emitted: seq<bytes>, isn: nat)
    requires Follows(r, stream, isn, start, pos, emitted)
    ensures Placed(r, stream, pos, 0)
  {
    hide Delta, Sent, Split;
  }

  /** Splitting what the buffer took keeps the record in step with the stream. */
  lemma MovedFollows(r: Record, stored: Record, d: Record, stream: bytes, isn: nat, start: nat, pos: nat,
                     emitted: seq<bytes>, n: nat)
    requires start <= pos <= |stream| && r.next == (isn + pos) % WRAP && Split(stream[start..pos]) == (emitted, r.buffer)
    requires stored.next == r.next && stored.buffer == r.buffer && Size(stored.pending) + |r.buffer| <= LIMIT
    requires Moved(stored, d, stream, pos, n) && Placed(d, stream, pos + n, LIMIT) && NoneReady(d)
    ensures Follows(d.(buffer := Split(d.buffer).1), stream, isn, start, pos + n, emitted + Split(d.buffer).0)
  {
    hide Delta, Sent, Size, Split;
    Joined(stream, start, pos, pos + n);
    SplitExtends(stream[start..pos], stream[pos..pos + n]);
    SplitKeeps(d.buffer);
  }

  lemma SplitKeeps(data: bytes)
    ensures |Split(data).1| <= |data|
  {
    SplitIsFraming(data);
  }

  lemma {:induction false} DrainBounds(r: Record)
    ensures NoneReady(Drained(r)) && Size(Drained(r).pending) + |Drained(r).buffer| <= Size(r.pending) + |r.buffer|
    decreases |r.pending|
  {
    hide Delta, Ready, Size;
    ReadyIsStored(r.pending, r.next);
    var ready := Ready(r.pending, r.next);
    if ready.Some? {
      RemoveFrees(r.pending, ready.value);
      DrainBounds(Advanced(r, ready.value));
    }
  }

  /** Whatever a peer sends, a record that is kept holds at most 131072 octets and no segment that is due. */
  lemma AcceptBounds(r: Record, sequence: nat, data: bytes)
    requires Accepted(r, sequence, data).Some?
    ensures
      var (r', messages) := Accepted(r, sequence, data).value;
      && NoneReady(r') && Size(r'.pending) + |r'.buffer| <= LIMIT
  {
    hide Delta, Drained, Size, Put, Split;
    var pending := if data == [] then r.pending else Put(r.pending, sequence, data);
    DrainBounds(r.(pending := pending));
    SplitIsFraming(Drained(r.(pending := pending)).buffer);
  }

  /** All segments of one record's lifetime, in the order they arrive. */
  function Run(r: Record, segments: seq<Segment>): Option<(Record, seq<bytes>)>
    decreases |segments|
  {
    if segments == [] then Some((r, []))
    else
      match Accepted(r, segments[0].sequence, segments[0].data)
      case None => None
      case Some((r', messages)) =>
        match Run(r', segments[1..])
        case None => None
        case Some((r'', more)) => Some((r'', messages + more))
  }

  /** Each segment is cut from the stream, within 2^31 of the position the record has when the segment arrives. */
  ghost predicate Genuine(r: Record, segments: seq<Segment>, stream: bytes, isn: nat, pos: int)
    decreases |segments|
  {
    segments == [] || (
      && 0 <= pos
      && (segments[0].data == [] || exists at: nat :: Cut(segments[0], stream, isn, pos, at))
      && var next := Accepted(r, segments[0].sequence, segments[0].data);
         next.Some? ==> Genuine(next.value.0, segments[1..], stream, isn, pos + Progress(r, segments[0])))
  }

  /** Over a whole lifetime the record consumes a prefix of the stream and gives out exactly that prefix's messages. */
  lemma {:induction false} Reassembles(r: Record, segments: seq<Segment>, stream: bytes, isn: nat, start: nat, pos: nat,
                                       emitted: seq<bytes>)
    returns (pos': nat)
    requires Follows(r, stream, isn, start, pos, emitted) && Genuine(r, segments, stream, isn, pos)
    requires Run(r, segments).Some?
    ensures pos <= pos' && pos' == pos + Travelled(r, segments)
    ensures Follows(Run(r, segments).value.0, stream, isn, start, pos', emitted + Run(r, segments).value.1)
    decreases |segments|
  {
    hide Accepted, Follows, Progress, Cut;
    if segments == [] {
      assert emitted + [] == emitted;
      return pos;
    }
    var s := segments[0];
    var at: nat := 0;
    if s.data != [] {
      at :| Cut(s, stream, isn, pos, at);
    }
    AcceptSound(r, s, stream, isn, start, pos, emitted, at);
    var (r', messages) := Accepted(r, s.sequence, s.data).value;
    pos' := Reassembles(r', segments[1..], stream, isn, start, pos + Progress(r, s), emitted + messages);
    var more := Run(r', segments[1..]).value.1;
    assert emitted + messages + more == emitted + (messages + more);
  }

  /** What a record that follows the sender's octets from their start has given out and holds. */
  lemma FollowsSender(r: Record, sent: seq<bytes>, isn: nat, pos: nat, messages: seq<bytes>)
    requires forall m | m in sent :: |m| < 65536
    requires Follows(r, Framed(sent), isn, 0, pos, messages)
    ensures messages <= sent && forall m | m in messages :: |m| < 65536
    ensures Framed(messages) + r.buffer <= Framed(sent) && pos == |Framed(messages) + r.buffer|
    ensures r.next == (isn + |Framed(messages) + r.buffer|) % WRAP
    ensures Short(r.buffer) && NoneReady(r) && Size(r.pending) + |r.buffer| <= LIMIT
  {
    hide Split, Framed, Size, Placed, NoneReady;
    var stream := Framed(sent);
    var front, rest := stream[0..pos], stream[pos..];
    SplitIsFraming(front);
    SplitOfFramed(sent, []);
    FramedNone();
    assert stream + [] == stream && sent + [] == sent;
    assert front + rest == stream;
    SplitExtends(front, rest);
  }

  /**
   * A record opened at the start of what the sender framed gives out a prefix of the sender's messages, unchanged and
   * in order. With them it holds a prefix of the sender's octets: its sequence number is their length modulo 2^32, and
   * what it keeps back is less than a whole message.
   */
  lemma GivesSendersMessages(sent: seq<bytes>, segments: seq<Segment>, isn: nat, expires: real)
    requires forall m | m in sent :: |m| < 65536
    requires Genuine(Record(isn % WRAP, [], [], expires), segments, Framed(sent), isn, 0)
    requires Run(Record(isn % WRAP, [], [], expires), segments).Some?
    ensures
      var (r, messages) := Run(Record(isn % WRAP, [], [], expires), segments).value;
      && messages <= sent
      && Framed(messages) + r.buffer <= Framed(sent)
      && r.next == (isn + |Framed(messages) + r.buffer|) % WRAP
      && Short(r.buffer) && NoneReady(r) && Size(r.pending) + |r.buffer| <= LIMIT
  {
    hide Run, Genuine, Split, Framed, Short, NoneReady, Size, Follows;
    var r, stream := Record(isn % WRAP, [], [], expires), Framed(sent);
    Started(isn, expires, stream);
    var pos := Reassembles(r, segments, stream, isn, 0, 0, []);
    var (r', messages) := Run(r, segments).value;
    assert [] + messages == messages;
    FollowsSender(r', sent, isn, pos, messages);
  }

  lemma StartedAt(r: Record, stream: bytes, isn: nat, start: nat)
    requires r.next == (isn + start) % WRAP && r.buffer == [] && r.pending == [] && start <= |stream|
    ensures Follows(r, stream, isn, start, start, [])
  {
    assert stream[start..start] == [];
  }

  lemma Started(isn: nat, expires: real, stream: bytes)
    ensures Follows(Record(isn % WRAP, [], [], expires), stream, isn, 0, 0, [])
  {
    assert stream[0..0] == [];
  }

  /** One more segment at the end of a lifetime. */
  lemma {:induction false} RunAppends(r: Record, segments: seq<Segment>, s: Segment)
    ensures Run(r, segments + [s]) ==
            match Run(r, segments)
            case None => None
            case Some((r', messages)) =>
              match Accepted(r', s.sequence, s.data)
              case None => None
              case Some((r'', more)) => Some((r'', messages + more))
    decreases |segments|
  {
    hide Accepted;
    if segments == [] {
      assert [] + [s] == [s] && [s][1..] == [];
      RunNothing();
      var next := Accepted(r, s.sequence, s.data);
      if next.Some? {
        assert next.value.1 + [] == next.value.1 == [] + next.value.1;
      }
    } else {
      assert (segments + [s])[1..] == segments[1..] + [s];
      var next := Accepted(r, segments[0].sequence, segments[0].data);
      if next.Some? {
        RunAppends(next.value.0, segments[1..], s);
        RunRegrouped(next.value.0, segments[1..], s, next.value.1);
      }
    }
  }

  lemma RunNothing()
    ensures forall r :: Run(r, []) == Some((r, []))
  {
  }

  lemma RunRegrouped(r: Record, segments: seq<Segment>, s: Segment, first: seq<bytes>)
    ensures Run(r, segments).Some? && Accepted(Run(r, segments).value.0, s.sequence, s.data).Some? ==>
              var messages, more := Run(r, segments).value.1, Accepted(Run(r, segments).value.0, s.sequence, s.data).value.1;
              first + (messages + more) == first + messages + more
  {
  }

  lemma {:induction false} GenuineBefore(r: Record, segments: seq<Segment>, s: Segment, stream: bytes, isn: nat, pos: int)
    requires Genuine(r, segments + [s], stream, isn, pos)
    ensures Genuine(r, segments, stream, isn, pos)
    decreases |segments|
  {
    hide Accepted, Progress, Cut;
    if segments != [] {
      assert (segments + [s])[1..] == segments[1..] + [s] && (segments + [s])[0] == segments[0];
      var next := Accepted(r, segments[0].sequence, segments[0].data);
      if next.Some? {
        GenuineBefore(next.value.0, segments[1..], s, stream, isn, pos + Progress(r, segments[0]));
      }
    }
  }

  /* Completeness: what arrived is left out exactly when a shorter segment took the place of a longer one. */

  /** Octet `p` of the stream lies inside a stored segment. */
  ghost predicate Held(r: Record, pos: nat, p: int) {
    exists e :: e in r.pending && Spans(e, r.next, pos, p)
  }

  predicate Spans(e: (nat, bytes), next: nat, pos: nat, p: int) {
    pos + Delta(e.0, next) <= p < pos + Delta(e.0, next) + |e.1|
  }

  /** Octet `p` has been consumed or is stored. */
  ghost predicate Reached(r: Record, pos: nat, p: int) {
    p < pos || Held(r, pos, p)
  }

  /** Moving a ready segment to the buffer changes nothing about what has been reached. */
  lemma AdvanceReaches(r: Record, e: (nat, bytes), pos: nat, slack: nat, p: int)
    requires Unique(r.pending) && e in r.pending && Delta(e.0, r.next) <= 0
    requires forall o | o in r.pending && o.0 != e.0 :: 0 <= slack + Delta(o.0, r.next)
    requires slack + Size(r.pending) <= LIMIT
    ensures var n := |Advanced(r, e).buffer| - |r.buffer|;
            0 <= n && (Reached(Advanced(r, e), pos + n, p) <==> Reached(r, pos, p))
  {
    hide Delta, Size;
    var r' := Advanced(r, e);
    var n := |r'.buffer| - |r.buffer|;
    RemoveFrees(r.pending, e);
    forall o | o in r.pending && o.0 != e.0 ensures Spans(o, r'.next, pos + n, p) <==> Spans(o, r.next, pos, p) {
      DeltaStays(o.0, r.next, n, slack);
    }
    forall o ensures o in r'.pending <==> o in r.pending && o.0 != e.0 {
      InRemove(r.pending, e.0, o);
    }
    forall o | o in r.pending && o.0 == e.0 ensures o == e {
      InIsFind(r.pending, o);
      InIsFind(r.pending, e);
    }
    if pos <= p < pos + n {
      assert Spans(e, r.next, pos, p);
    }
  }

  lemma DeltaStays(sequence: nat, next: nat, n: nat, slack: nat)
    requires 0 <= slack + Delta(sequence, next) && slack + n <= LIMIT
    ensures Delta(sequence, (next + n) % WRAP) == Delta(sequence, next) - n
  {
    DeltaMoves(sequence, next, n);
  }

  lemma {:induction false} DrainReaches(r: Record, pos: nat, slack: nat, p: int)
    requires Unique(r.pending) && r.next < WRAP && slack + Size(r.pending) <= LIMIT
    requires forall o | o in r.pending :: 0 <= slack + Delta(o.0, r.next)
    ensures var n := |Drained(r).buffer| - |r.buffer|;
            0 <= n && (Reached(Drained(r), pos + n, p) <==> Reached(r, pos, p))
    ensures Unique(Drained(r).pending) && NoneReady(Drained(r))
    decreases |r.pending|
  {
    hide Delta, Size, Reached, Advanced, Ready;
    ReadyIsStored(r.pending, r.next);
    var ready := Ready(r.pending, r.next);
    if ready.Some? {
      var r' := Advanced(r, ready.value);
      var n := |r'.buffer| - |r.buffer|;
      AdvanceReaches(r, ready.value, pos, slack, p);
      AdvancedShrinks(r, ready.value);
      AdvancedFits(r, ready.value, slack);
      DrainReaches(r', pos + n, slack + n, p);
    } else {
      assert Drained(r) == r;
    }
  }

  lemma AdvancedFits(r: Record, e: (nat, bytes), slack: nat)
    requires Unique(r.pending) && r.next < WRAP && slack + Size(r.pending) <= LIMIT
    requires e in r.pending && Delta(e.0, r.next) <= 0
    requires forall o | o in r.pending && o.0 != e.0 :: 0 <= slack + Delta(o.0, r.next)
    ensures var r' := Advanced(r, e);
            var n := |r'.buffer| - |r.buffer|;
            && 0 <= n && Unique(r'.pending) && r'.next < WRAP && slack + n + Size(r'.pending) <= LIMIT
            && forall o | o in r'.pending :: 0 <= slack + n + Delta(o.0, r'.next)
  {
    hide Delta, Size;
    var r' := Advanced(r, e);
    var n := |r'.buffer| - |r.buffer|;
    RemoveFrees(r.pending, e);
    RemoveKeepsUnique(r.pending, e.0);
    forall o | o in r'.pending ensures 0 <= slack + n + Delta(o.0, r'.next) {
      InRemove(r.pending, e.0, o);
      DeltaStays(o.0, r.next, n, slack);
    }
  }

  /** Octet `p` waits only in the segment whose place a new one takes, which lacks it. */
  ghost predicate Displaces(r: Record, s: Segment, pos: nat, p: int) {
    && s.data != [] && pos <= p && Held(r, pos, p) && !Spans((s.sequence, s.data), r.next, pos, p)
    && forall o | o in r.pending && Spans(o, r.next, pos, p) :: o.0 == s.sequence
  }

  lemma PutReaches(r: Record, s: Segment, pos: nat, p: int)
    requires Unique(r.pending) && s.data != []
    ensures var stored := r.(pending := Put(r.pending, s.sequence, s.data));
            && Unique(stored.pending)
            && (Reached(stored, pos, p) <==>
                  (Reached(r, pos, p) && !Displaces(r, s, pos, p)) || Spans((s.sequence, s.data), r.next, pos, p))
  {
    hide Spans;
    var stored := r.(pending := Put(r.pending, s.sequence, s.data));
    var new' := (s.sequence, s.data);
    PutKeepsUnique(r.pending, s.sequence, s.data);
    forall o ensures o in stored.pending <==> o == new' || (o in r.pending && o.0 != s.sequence) {
      PutHolds(r.pending, s.sequence, s.data, o);
    }
  }

  /** What a dictionary holds after an assignment. */
  lemma PutHolds(pending: Pending, sequence: nat, data: bytes, o: (nat, bytes))
    requires Unique(pending)
    ensures o in Put(pending, sequence, data) <==> o == (sequence, data) || (o in pending && o.0 != sequence)
  {
    var stored := Put(pending, sequence, data);
    PutKeepsUnique(pending, sequence, data);
    InPut(pending, sequence, data, o);
    FindPut(pending, sequence, data, o.0);
    FindIsIn(stored, o.0);
    if o in pending {
      InIsFind(pending, o);
    }
    if o in stored {
      InIsFind(stored, o);
    }
  }

  /** The octets a segment brings, seen from the record it meets. */
  predicate Brings(r: Record, s: Segment, pos: nat, p: int) {
    s.data != [] && Spans((s.sequence, s.data), r.next, pos, p)
  }

  /** A record between segments: nothing waits that is due, and it is within its bound. */
  ghost predicate Settled(r: Record) {
    Unique(r.pending) && NoneReady(r) && r.next < WRAP && Size(r.pending) + |r.buffer| <= LIMIT
  }

  lemma AcceptReaches(r: Record, s: Segment, pos: nat, p: int)
    requires Settled(r) && Accepted(r, s.sequence, s.data).Some?
    ensures Settled(Accepted(r, s.sequence, s.data).value.0) && 0 <= Progress(r, s)
    ensures Reached(Accepted(r, s.sequence, s.data).value.0, pos + Progress(r, s), p) <==>
              (Reached(r, pos, p) && !Displaces(r, s, pos, p)) || Brings(r, s, pos, p)
  {
    hide Delta, Size, Drained, Split, Put, Spans;
    var stored := r.(pending := if s.data == [] then r.pending else Put(r.pending, s.sequence, s.data));
    if s.data != [] {
      PutReaches(r, s, pos, p);
      StoredReaches(stored, r, s, pos, p);
    } else {
      DrainReaches(stored, pos, 0, p);
    }
    AcceptBounds(r, s.sequence, s.data);
    DrainedNext(stored);
    var accepted := Accepted(r, s.sequence, s.data).value.0;
    assert accepted.pending == Drained(stored).pending && accepted.next == Drained(stored).next;
  }

  lemma {:induction false} DrainedNext(r: Record)
    requires r.next < WRAP
    ensures Drained(r).next < WRAP
    decreases |r.pending|
  {
    hide Delta, Ready;
    ReadyIsStored(r.pending, r.next);
    var ready := Ready(r.pending, r.next);
    if ready.Some? {
      AdvancedShrinks(r, ready.value);
      DrainedNext(Advanced(r, ready.value));
    }
  }

  /** Draining right after a segment was stored, which alone may lie far back. */
  lemma StoredReaches(stored: Record, r: Record, s: Segment, pos: nat, p: int)
    requires Settled(r) && stored == r.(pending := Put(r.pending, s.sequence, s.data)) && Unique(stored.pending)
    requires Size(stored.pending) + |r.buffer| <= LIMIT
    ensures var n := |Drained(stored).buffer| - |stored.buffer|;
            && 0 <= n && (Reached(Drained(stored), pos + n, p) <==> Reached(stored, pos, p))
            && Unique(Drained(stored).pending) && NoneReady(Drained(stored))
  {
    hide Delta, Size, Reached, Advanced, Ready, Put;
    ReadyIsStored(stored.pending, r.next);
    forall o | o in stored.pending ensures o == (s.sequence, s.data) || Delta(o.0, r.next) > 0 {
      InPut(r.pending, s.sequence, s.data, o);
    }
    var ready := Ready(stored.pending, r.next);
    if ready.Some? {
      var r' := Advanced(stored, ready.value);
      var n := |r'.buffer| - |stored.buffer|;
      AdvanceReaches(stored, ready.value, pos, 0, p);
      AdvancedFits(stored, ready.value, 0);
      AdvancedShrinks(stored, ready.value);
      DrainReaches(r', pos + n, n, p);
    } else {
      DrainReaches(stored, pos, 0, p);
    }
  }

  /** Octet `p` arrives in one of the segments. */
  ghost predicate Arrives(r: Record, segments: seq<Segment>, pos: int, p: int)
    decreases |segments|
  {
    segments != [] && 0 <= pos && (
      || Brings(r, segments[0], pos, p)
      || var next := Accepted(r, segments[0].sequence, segments[0].data);
         next.Some? && Arrives(next.value.0, segments[1..], pos + Progress(r, segments[0]), p))
  }

  /** How far a record gets in a run. */
  ghost function Travelled(r: Record, segments: seq<Segment>): int
    decreases |segments|
  {
    if segments == [] then 0
    else
      match Accepted(r, segments[0].sequence, segments[0].data)
      case None => 0
      case Some((r', _)) => Progress(r, segments[0]) + Travelled(r', segments[1..])
  }

  /** Octet `p` is displaced by one of the segments while it waits. */
  ghost predicate Dropped(r: Record, segments: seq<Segment>, pos: int, p: int)
    decreases |segments|
  {
    segments != [] && 0 <= pos && (
      || Displaces(r, segments[0], pos, p)
      || var next := Accepted(r, segments[0].sequence, segments[0].data);
         next.Some? && Dropped(next.value.0, segments[1..], pos + Progress(r, segments[0]), p))
  }

  /** What is consumed or stored after a run has arrived, and what has arrived is so or was dropped on the way. */
  lemma {:induction false} RunReaches(r: Record, segments: seq<Segment>, pos: nat, p: int)
    requires Settled(r) && Run(r, segments).Some?
    ensures 0 <= Travelled(r, segments) && Settled(Run(r, segments).value.0)
    ensures var reached := Reached(Run(r, segments).value.0, pos + Travelled(r, segments), p);
            var arrived := Reached(r, pos, p) || Arrives(r, segments, pos, p);
            (arrived <==> reached || Dropped(r, segments, pos, p))
    decreases |segments|
  {
    hide Accepted, Reached, Settled, Progress, Brings, Displaces;
    if segments != [] {
      var s := segments[0];
      AcceptReaches(r, s, pos, p);
      DisplacedIsReached(r, s, pos, p);
      RunReaches(Accepted(r, s.sequence, s.data).value.0, segments[1..], pos + Progress(r, s), p);
    }
  }

  lemma DisplacedIsReached(r: Record, s: Segment, pos: nat, p: int)
    ensures Displaces(r, s, pos, p) ==> Reached(r, pos, p)
  {
  }

  /**
   * Completeness: every octet a new record got past has arrived, and the one it stopped at has arrived if and only if a
   * segment displaced it while it waited. Otherwise nothing that could be given out is held back.
   */
  lemma ReachesFirstGap(r: Record, segments: seq<Segment>, pos: nat)
    requires r.pending == [] && r.next < WRAP && |r.buffer| <= LIMIT && Run(r, segments).Some?
    ensures 0 <= Travelled(r, segments)
    ensures forall p | pos <= p < pos + Travelled(r, segments) :: Arrives(r, segments, pos, p)
    ensures var end := pos + Travelled(r, segments);
            Arrives(r, segments, pos, end) <==> Dropped(r, segments, pos, end)
  {
    hide Accepted, Progress, Brings, Run, Dropped, Arrives;
    var end := pos + Travelled(r, segments);
    RunReaches(r, segments, pos, end);
    NotPastEnd(Run(r, segments).value.0, end);
    forall p | pos <= p < end ensures Arrives(r, segments, pos, p) {
      RunReaches(r, segments, pos, p);
    }
  }

  lemma NotPastEnd(r: Record, pos: int)
    requires NoneReady(r) && 0 <= pos
    ensures !Reached(r, pos, pos)
  {
    hide Delta;
  }

  /**
   * From the start of what the sender framed, messages given out and octets held back make up the sender's octets up to
   * one that no segment brought, or one that a segment displaced while it waited.
   */
  lemma GivesAllThatArrived(sent: seq<bytes>, segments: seq<Segment>, isn: nat, expires: real)
    requires forall m | m in sent :: |m| < 65536
    requires Genuine(Record(isn % WRAP, [], [], expires), segments, Framed(sent), isn, 0)
    requires Run(Record(isn % WRAP, [], [], expires), segments).Some?
    ensures
      var r := Record(isn % WRAP, [], [], expires);
      var (r', messages) := Run(r, segments).value;
      var end := Travelled(r, segments);
      && messages <= sent && 0 <= end <= |Framed(sent)| && Framed(messages) + r'.buffer == Framed(sent)[..end]
      && Short(r'.buffer) && (forall p | 0 <= p < end :: Arrives(r, segments, 0, p))
      && (Arrives(r, segments, 0, end) <==> Dropped(r, segments, 0, end))
  {
    hide Run, Genuine, Dropped, Split, Framed, Short, Arrives, Travelled;
    var r, stream := Record(isn % WRAP, [], [], expires), Framed(sent);
    Started(isn, expires, stream);
    var pos := Reassembles(r, segments, stream, isn, 0, 0, []);
    var (r', messages) := Run(r, segments).value;
    assert [] + messages == messages;
    FollowsSender(r', sent, isn, pos, messages);
    ReachesFirstGap(r, segments, 0);
  }

  /** The segment does not take the place of a longer one that waits with its sequence number. */
  predicate Fits(r: Record, s: Segment) {
    s.data != [] && Find(r.pending, s.sequence).Some? ==> |Find(r.pending, s.sequence).value| <= |s.data|
  }

  /** No segment of a run takes the place of a longer one. */
  ghost predicate Growing(r: Record, segments: seq<Segment>)
    decreases |segments|
  {
    segments == [] || (
      && Fits(r, segments[0])
      && var next := Accepted(r, segments[0].sequence, segments[0].data);
         next.Some? ==> Growing(next.value.0, segments[1..]))
  }

  lemma FitsDisplacesNothing(r: Record, s: Segment, pos: nat, p: int)
    requires Settled(r) && Fits(r, s)
    ensures !Displaces(r, s, pos, p)
  {
    hide Delta, Size, NoneReady;
    forall o | o in r.pending && o.0 == s.sequence ensures Find(r.pending, s.sequence) == Some(o.1) {
      InIsFind(r.pending, o);
    }
  }

  /** A sender whose retransmissions never shrink a waiting segment loses nothing. */
  lemma {:induction false} GrowingDropsNothing(r: Record, segments: seq<Segment>, pos: nat, p: int)
    requires Settled(r) && Growing(r, segments)
    ensures !Dropped(r, segments, pos, p)
    decreases |segments|
  {
    hide Accepted, Settled, Progress, Displaces, Fits;
    if segments != [] {
      var s := segments[0];
      FitsDisplacesNothing(r, s, pos, p);
      if Accepted(r, s.sequence, s.data).Some? {
        AcceptReaches(r, s, pos, p);
        GrowingDropsNothing(Accepted(r, s.sequence, s.data).value.0, segments[1..], pos + Progress(r, s), p);
      }
    }
  }

  /** Octets that arrived can be lost: a shorter segment takes the place of a longer one that waits. */
  lemma ShorterLoses(expires: real)
    ensures exists r: Record, segments: seq<Segment> ::
              && r == Record(0, [], [], expires) && Run(r, segments).Some?
              && Arrives(r, segments, 0, Travelled(r, segments))
  {
    hide Accepted, Progress, Put, Drained, Run, Arrives, Travelled, Delta, Brings;
    var r := Record(0, [], [], expires);
    var long, short, first := Segment(5, [1, 2, 3]), Segment(5, [1]), Segment(0, [9, 9, 9, 9, 9]);
    var waiting, shorter := Record(0, [], [(5, long.data)], expires), Record(0, [], [(5, short.data)], expires);
    Waits(r, long, waiting);
    Waits(waiting, short, shorter);
    ArrivesLast(shorter, first);
    var done := Accepted(shorter, first.sequence, first.data).value.0;
    Further(done, []);
    OneFurther(shorter, first, done, []);
    OneFurther(waiting, short, shorter, [first] + []);
    OneFurther(r, long, waiting, [short] + ([first] + []));
    BringsAll(r, long);
    var segments := [long] + ([short] + ([first] + []));
    assert Travelled(r, segments) == 6 && Run(r, segments).Some?;
  }

  lemma Further(r: Record, none: seq<Segment>)
    requires none == []
    ensures Travelled(r, none) == 0 && Run(r, none).Some?
  {
  }

  lemma OneFurther(r: Record, s: Segment, next: Record, rest: seq<Segment>)
    requires Accepted(r, s.sequence, s.data).Some? && Accepted(r, s.sequence, s.data).value.0 == next
    ensures Travelled(r, [s] + rest) == Progress(r, s) + Travelled(next, rest)
    ensures Run(r, [s] + rest).Some? <==> Run(next, rest).Some?
    ensures Brings(r, s, 0, 6) ==> Arrives(r, [s] + rest, 0, 6)
  {
    hide Accepted, Progress, Brings;
    assert ([s] + rest)[1..] == rest;
  }

  lemma BringsAll(r: Record, long: Segment)
    requires r.next == 0 && long == Segment(5, [1, 2, 3])
    ensures Brings(r, long, 0, 6)
  {
  }

  lemma Waits(r: Record, s: Segment, after: Record)
    requires r.next == 0 && r.buffer == [] && s.sequence == 5 && 0 < |s.data| <= 3
    requires |r.pending| <= 1 && (r.pending != [] ==> r.pending[0].0 == 5)
    requires after == r.(pending := [(5, s.data)])
    ensures Accepted(r, s.sequence, s.data).Some? && Accepted(r, s.sequence, s.data).value.0 == after && Progress(r, s) == 0
  {
    assert Put(r.pending, 5, s.data) == [(5, s.data)];
    assert Ready(after.pending, 0) == None by {
      assert after.pending[1..] == [];
      assert Delta(5, 0) == 5;
    }
    assert Drained(after) == after;
    assert after.pending[1..] == [] && Size(after.pending) == |s.data|;
  }

  lemma Two(e: (nat, bytes), f: (nat, bytes))
    requires e.0 != f.0
    ensures Remove([e, f], f.0) == [e] && Remove([e], e.0) == []
    ensures Size([e, f]) == |e.1| + |f.1|
    ensures Put([e], f.0, f.1) == [e, f]
  {
    var both, one, last: Pending := [e, f], [e], [f];
    assert both[1..] == last && last[1..] == [] && one[1..] == [];
    assert Remove(last, f.0) == [] && Remove(both, f.0) == [e] + Remove(last, f.0);
    assert Put(one[1..], f.0, f.1) == last && Put(one, f.0, f.1) == [e] + last;
    assert Size(last) == |f.1| && Size(both) == |e.1| + Size(last);
  }

  lemma ReadySecond(e: (nat, bytes), f: (nat, bytes), next: nat)
    ensures Delta(e.0, next) > 0 && Delta(f.0, next) <= 0 ==> Ready([e, f], next) == Some(f)
    ensures Delta(e.0, next) <= 0 ==> Ready([e], next) == Some(e)
  {
    hide Delta;
    assert [e, f][1..] == [f];
  }

  lemma ArrivesLast(r: Record, s: Segment)
    requires r.next == 0 && r.buffer == [] && r.pending == [(5, [1])] && s == Segment(0, [9, 9, 9, 9, 9])
    ensures Accepted(r, s.sequence, s.data).Some? && Progress(r, s) == 6
  {
    var e, f: (nat, bytes) := (5, [1]), (0, s.data);
    Two(e, f);
    ReadySecond(e, f, 0);
    ReadySecond(e, f, 5);
    assert Delta(0, 0) == 0 && Delta(5, 0) == 5 && Delta(5, 5) == 0;
    hide Delta, Remove, Put, Ready, Size;
    var stored := r.(pending := [e, f]);
    var once := Advanced(stored, f);
    assert once == Record(5, s.data, [e], r.expires);
    var done := Advanced(once, e);
    assert done.pending == [] && |done.buffer| == 6;
    DrainedSteps(stored, f);
    DrainedSteps(once, e);
    DrainedStops(done);
  }

  lemma DrainedSteps(r: Record, e: (nat, bytes))
    requires Ready(r.pending, r.next) == Some(e)
    ensures Drained(r) == Drained(Advanced(r, e))
  {
    hide Ready, Advanced;
    ReadyIsStored(r.pending, r.next);
    AdvancedShrinks(r, e);
  }

  lemma DrainedStops(r: Record)
    requires r.pending == []
    ensures Drained(r) == r
  {
  }

  /* A sender that keeps its order. */

  function Concatenated(chunks: seq<bytes>): bytes {
    if chunks == [] then [] else chunks[0] + Concatenated(chunks[1..])
  }

  function InOrder(next: nat, chunks: seq<bytes>): seq<Segment>
    decreases |chunks|
  {
    if chunks == [] then []
    else [Segment(next, chunks[0])] + InOrder((next + |chunks[0]|) % WRAP, chunks[1..])
  }

  /** The segment that is due goes through to the framing at once, and can never overflow the record. */
  lemma AcceptedInOrder(r: Record, data: bytes)
    requires r.next < WRAP && r.pending == [] && Short(r.buffer) && |data| < 65536
    ensures var (messages, rest) := Split(r.buffer + data);
            Accepted(r, r.next, data) == Some((Record((r.next + |data|) % WRAP, rest, [], r.expires), messages))
  {
    hide Split, Drained, Put, Size, Ready, Short, Delta, Remove;
    ShortSize(r.buffer);
    if data == [] {
      DrainedStops(r);
      NothingPending();
      assert r.buffer + data == r.buffer;
    } else {
      OnePending((r.next, data));
      DrainedInOrder(r, data);
    }
  }

  lemma DrainedInOrder(r: Record, data: bytes)
    requires r.next < WRAP && r.pending == []
    ensures Drained(r.(pending := [(r.next, data)])) == Record((r.next + |data|) % WRAP, r.buffer + data, [], r.expires)
  {
    hide Drained, Delta, Remove, Ready, Put, Size;
    var e := (r.next, data);
    OnePending(e);
    DrainedSteps(r.(pending := [e]), e);
    DrainedStops(Advanced(r.(pending := [e]), e));
  }

  lemma NothingPending()
    ensures Size([]) == 0
  {
  }

  /** A segment that is stored alone and due. */
  lemma OnePending(e: (nat, bytes))
    requires e.0 < WRAP
    ensures Put([], e.0, e.1) == [e] && Remove([e], e.0) == [] && Size([e]) == |e.1|
    ensures Delta(e.0, e.0) == 0 && Ready([e], e.0) == Some(e)
  {
    assert [e][1..] == [];
  }

  lemma ShortSize(data: bytes)
    requires Short(data)
    ensures |data| <= 65536
  {
  }

  lemma {:induction false} RunInOrder(r: Record, chunks: seq<bytes>)
    requires r.next < WRAP && r.pending == [] && Short(r.buffer) && forall c | c in chunks :: |c| < 65536
    ensures var (messages, rest) := Split(r.buffer + Concatenated(chunks));
            var run := Run(r, InOrder(r.next, chunks));
            run.Some? && run.value.1 == messages && run.value.0.buffer == rest && run.value.0.pending == []
    decreases |chunks|
  {
    hide Accepted, Split, Short;
    if chunks == [] {
      assert r.buffer + [] == r.buffer;
      SplitUnfolds(r.buffer);
    } else {
      var data, more := chunks[0], Concatenated(chunks[1..]);
      AcceptedInOrder(r, data);
      SplitIsFraming(r.buffer + data);
      SplitExtends(r.buffer + data, more);
      assert r.buffer + data + more == r.buffer + (data + more);
      var next := Accepted(r, r.next, data).value.0;
      RunInOrder(next, chunks[1..]);
      assert InOrder(r.next, chunks)[1..] == InOrder(next.next, chunks[1..]);
    }
  }

  /** However the sender cuts its octets, in order they give all its messages. */
  lemma InOrderGivesAll(sent: seq<bytes>, chunks: seq<bytes>, isn: nat, expires: real)
    requires forall m | m in sent :: |m| < 65536
    requires Concatenated(chunks) == Framed(sent) && forall c | c in chunks :: |c| < 65536
    ensures var run := Run(Record(isn % WRAP, [], [], expires), InOrder(isn % WRAP, chunks));
            run.Some? && run.value.1 == sent && run.value.0.buffer == []
  {
    hide Run, Split, Framed;
    RunInOrder(Record(isn % WRAP, [], [], expires), chunks);
    SplitOfFramed(sent, []);
    FramedNone();
    assert [] + Framed(sent) == Framed(sent) == Framed(sent) + [] && sent + [] == sent;
  }

  /** A record is given up exactly when its octets would exceed its bound. */
  lemma GivenUpExactly(r: Record, sequence: nat, data: bytes)
    ensures Accepted(r, sequence, data).None? <==>
              |r.buffer| + Size(if data == [] then r.pending else Put(r.pending, sequence, data)) > 131072
  {
  }
}
