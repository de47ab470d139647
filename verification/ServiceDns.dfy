/** Answers for service names on the guest's ordinary DNS address. */
module ServiceDns {
  import opened Bytes
  import opened Checksum
  import opened Router
  import opened DnsName
  import opened Cname
  import opened DnsMessage

  const MAX_FRAME := 9014

  /** Service names and their four-octet addresses. */
  type Table = map<bytes, bytes>

  predicate Addresses(names: Table) {
    forall n | n in names :: |names[n]| == 4
  }

  /** `struct.pack` fails when a length does not fit its field. */
  datatype Reply = NoReply | LengthError | Sent(frame: bytes)

  /** A DNS query to the guest's resolver in one whole UDP datagram. */
  predicate IsQuery(frame: bytes) {
    && |frame| >= 54 && frame[12..14] == [8, 0] && frame[14] == 0x45
    && frame[23] == UDP && frame[26..30] == GUEST && frame[30..34] == DNS
    && Word(frame, 20) % 0x4000 == 0 && Word(frame, 36) == 53
    && Word(frame, 38) >= 20 && 34 + Word(frame, 38) <= |frame| && Word(frame, 16) == 20 + Word(frame, 38)
    && var query := frame[42..34 + Word(frame, 38)];
       query[2] < 128 && query[4..6] == [0, 1]
  }

  /** The DNS message of a query. */
  function QueryOf(frame: bytes): (query: bytes)
    requires IsQuery(frame)
    ensures |query| >= 12
  {
    frame[42..34 + Word(frame, 38)]
  }

  /** The labels of an uncompressed name and the offset after its root octet. */
  function Question(query: bytes, end: nat): Option<(seq<bytes>, nat)>
    decreases |query| - end
  {
    if end >= |query| || query[end] == 0 then Some(([], end + 1))
    else
      var next := end + 1 + query[end] as int;
      if query[end] > 63 || next >= |query| || !Ascii(query[end + 1..next]) then None
      else
        match Question(query, next)
        case None => None
        case Some((labels, after)) => Some(([Lower(query[end + 1..next])] + labels, after))
  }

  lemma {:induction false} QuestionEnds(query: bytes, end: nat)
    requires Question(query, end).Some?
    ensures end < Question(query, end).value.1
    decreases |query| - end
  {
    if end < |query| && query[end] != 0 {
      QuestionEnds(query, end + 1 + query[end] as int);
    }
  }

  function AnswerRecord(address: bytes): bytes {
    [192, 12, 0, 1, 0, 1, 0, 0, 0, 0, 0, 4] + address
  }

  /** Only a question for an Internet address is answered with one. */
  function AnswerFor(query: bytes, end: nat, address: bytes): bytes
    requires end + 4 <= |query|
  {
    if Word(query, end) == A && Word(query, end + 2) == INTERNET then AnswerRecord(address) else []
  }

  function Message(query: bytes, end: nat, answer: bytes): bytes
    requires 12 <= end && end + 4 <= |query|
  {
    query[..2] + [0x81, 0x80, 0, 1] + Packed(if answer == [] then 0 else 1) + [0, 0, 0, 0] + query[12..end + 4] + answer
  }

  function Datagram(frame: bytes, dns: bytes): bytes
    requires |frame| >= 38 && 8 + |dns| < 65536
  {
    frame[36..38] + frame[34..36] + Packed(8 + |dns|) + [0, 0] + dns
  }

  function HeaderFields(frame: bytes, size: nat): bytes
    requires |frame| >= 34 && size < 65536
  {
    Splice(Splice(Splice(frame[14..34], 2, Packed(size)), 12, frame[30..34] + GUEST), 10, [0, 0])
  }

  function Header(frame: bytes, size: nat): bytes
    requires |frame| >= 34 && size < 65536
  {
    FoldIsResidue(Sum(HeaderFields(frame, size)));
    Splice(HeaderFields(frame, size), 10, Packed(65535 - Fold(Sum(HeaderFields(frame, size)))))
  }

  function Replied(frame: bytes, names: Table): Reply
    requires Addresses(names)
  {
    if !IsQuery(frame) then NoReply
    else
      var query := QueryOf(frame);
      match Question(query, 12)
      case None => NoReply
      case Some((labels, end)) =>
        QuestionEnds(query, 12);
        if end + 4 > |query| || Join(labels) !in names then NoReply
        else
          var dns := Message(query, end, AnswerFor(query, end, names[Join(labels)]));
          if 28 + |dns| >= 65536 then LengthError
          else
            Sent(frame[6..12] + frame[..6] + [8, 0] + Header(frame, 28 + |dns|) + Datagram(frame, dns))
  }

  method MakeHeader(frame: bytes, size: nat) returns (header: bytes)
    requires |frame| >= 34 && size < 65536
    ensures header == Header(frame, size)
  {
    hide Sum, Fold, Splice;
    var ip := new byte[20](i requires 0 <= i < 20 => frame[14 + i]);
    assert ip[..] == frame[14..34];
    Write(ip, 2, Packed(size));
    Write(ip, 12, frame[30..34] + GUEST);
    Write(ip, 10, [0, 0]);
    var value := Compute(ip[..]);
    Write(ip, 10, Packed(value));
    return ip[..];
  }

  method Answer(frame: bytes, names: Table) returns (r: Reply)
    requires Addresses(names)
    ensures r == Replied(frame, names)
  {
    hide Join, Question, Message, Header, Datagram, AnswerRecord;
    if |frame| < 54 || frame[12..14] != [8, 0] || frame[14] != 0x45 || frame[23] != UDP || frame[26..30] != GUEST
       || frame[30..34] != DNS || Word(frame, 20) % 0x4000 != 0 || Word(frame, 36) != 53 {
      return NoReply;
    }
    var length := Word(frame, 38);
    if length < 20 || 34 + length > |frame| || Word(frame, 16) != 20 + length {
      return NoReply;
    }
    var query := frame[42..34 + length];
    if |query| < 12 || query[2] >= 128 || query[4..6] != [0, 1] {
      return NoReply;
    }
    assert IsQuery(frame);
    hide IsQuery;
    var found := ReadQuestion(query);
    if found.None? {
      return NoReply;
    }
    var (labels, end) := found.value;
    QuestionEnds(query, 12);
    if end + 4 > |query| {
      return NoReply;
    }
    var name := Join(labels);
    if name !in names {
      return NoReply;
    }
    var kind, class' := Word(query, end), Word(query, end + 2);
    var answer := if kind == A && class' == INTERNET then AnswerRecord(names[name]) else [];
    var dns := Message(query, end, answer);
    if 28 + |dns| >= 65536 {
      return LengthError;
    }
    var udp := Datagram(frame, dns);
    var ip := MakeHeader(frame, 28 + |dns|);
    return Sent(frame[6..12] + frame[..6] + [8, 0] + ip + udp);
  }

  lemma QuestionStep(query: bytes, end: nat)
    ensures Question(query, end) ==
            if end >= |query| || query[end] == 0 then Some(([], end + 1))
            else
              var next := end + 1 + query[end] as int;
              if query[end] > 63 || next >= |query| || !Ascii(query[end + 1..next]) then None
              else Onto([Lower(query[end + 1..next])], Question(query, next))
  {
    hide Lower, Ascii;
  }

  method ReadQuestion(query: bytes) returns (r: Option<(seq<bytes>, nat)>)
    ensures r == Question(query, 12)
  {
    hide Lower, Ascii, Question;
    var labels: seq<bytes>, end: nat := [], 12;
    ghost var whole := Question(query, 12);
    assert whole.Some? ==> labels + whole.value.0 == whole.value.0;
    while end < |query| && query[end] != 0
      invariant whole == Onto(labels, Question(query, end))
      decreases |query| - end
    {
      var size := query[end] as int;
      QuestionStep(query, end);
      if size > 63 || end + 1 + size >= |query| || !Ascii(query[end + 1..end + 1 + size]) {
        return None;
      }
      var text := Lower(query[end + 1..end + 1 + size]);
      OntoNext(labels, text, Question(query, end + 1 + size));
      labels := labels + [text];
      end := end + size + 1;
    }
    QuestionStep(query, end);
    assert labels + [] == labels;
    return Some((labels, end + 1));
  }

  /* The reply read by the parser of the admission rules. */

  /** A question that ends inside the query is a name on the wire without pointers. */
  lemma {:induction false} QuestionWritten(query: bytes, end: nat, data: bytes) returns (w: Wire)
    requires Question(query, end).Some? && Question(query, end).value.1 <= |query|
    requires var after := Question(query, end).value.1;
             after <= |data| && forall i | end <= i < after :: data[i] == query[i]
    ensures Written(data, end, w) && Labels(w) == Question(query, end).value.0
    ensures Nodes(w) == |Labels(w)| + 1 && End(end, w) == Question(query, end).value.1
    decreases |query| - end
  {
    hide Lower, Ascii;
    QuestionEnds(query, end);
    if query[end] == 0 {
      w := Root;
    } else {
      var next := end + 1 + query[end] as int;
      var text := query[end + 1..next];
      QuestionEnds(query, next);
      assert data[end + 1..next] == text;
      var rest := QuestionWritten(query, next, data);
      w := Label(text, rest);
    }
  }

  lemma MessageParts(query: bytes, end: nat, answer: bytes)
    requires 12 <= end && end + 4 <= |query|
    ensures
      var dns := Message(query, end, answer);
      && |dns| == end + 4 + |answer|
      && dns[..2] == query[..2] && Word(dns, 2) == 0x8180 && Word(dns, 4) == 1 && Word(dns, 8) == 0 && Word(dns, 10) == 0
      && Word(dns, 6) == (if answer == [] then 0 else 1)
      && (forall i | 12 <= i < end + 4 :: dns[i] == query[i])
      && dns[end + 4..] == answer
  {
  }

  lemma MessageWords(query: bytes, end: nat, answer: bytes)
    requires 12 <= end && end + 4 <= |query| && |answer| >= 2
    ensures
      var dns := Message(query, end, answer);
      && |dns| == end + 4 + |answer| && dns[end + 4] == answer[0] && dns[end + 5] == answer[1]
      && Word(dns, 0) == Word(query, 0) && Word(dns, end) == Word(query, end) && Word(dns, end + 2) == Word(query, end + 2)
  {
    hide Message;
    MessageParts(query, end, answer);
    var dns := Message(query, end, answer);
    assert dns[end + 4] == dns[end + 4..][0] && dns[end + 5] == dns[end + 4..][1];
    assert dns[0] == dns[..2][0] == query[..2][0] && dns[1] == dns[..2][1] == query[..2][1];
  }

  lemma RecordReads(dns: bytes, at: nat, name: bytes, address: bytes, short: bool)
    requires |address| == 4 && at <= |dns| && dns[at..] == AnswerRecord(address)
    requires Decoded(dns, at) == if short then Some(Name(name, at + 2)) else None
    ensures Answers(dns, at, 1) == if short then Some([Address(name, 0, address)]) else None
  {
    hide Decoded;
    var tail := dns[at..];
    assert |dns| == at + 16;
    assert forall i | 0 <= i < 16 :: dns[at + i] == tail[i];
    assert dns[at + 12..at + 16] == address;
    if short {
      var first := [Address(name, 0, address)];
      assert AnswerAt(dns, at) == Some((first, at + 16));
      assert Answers(dns, at + 16, 0) == Some([]);
      assert first + [] == first;
    }
  }

  lemma QuestionReads(dns: bytes, name: bytes, end: nat, short: bool, rules: Rules)
    requires 12 <= end && end + 4 <= |dns| && Decoded(dns, 12) == if short then Some(Name(name, end)) else None
    requires Word(dns, 2) == 0x8180 && Word(dns, 4) == 1 && Word(dns, 6) == 1
    requires Word(dns, end) == A && Word(dns, end + 2) == INTERNET
    ensures Asked(dns, true, rules) ==
            if short && Matches(name, rules) then Some(Query(Word(dns, 0), false, 1, name, A, end + 4)) else None
  {
    hide Decoded, Matches;
  }

  /** Both places that hold the name lead to it: the question, and the pointer that owns the answer. */
  lemma NamesRead(query: bytes, dns: bytes, end: nat, labels: seq<bytes>)
    requires Question(query, 12) == Some((labels, end)) && end <= |query| && end + 2 <= |dns|
    requires forall i | 12 <= i < end :: dns[i] == query[i]
    ensures Decoded(dns, 12) == if |labels| <= 127 then Some(Name(Join(labels), end)) else None
    ensures forall at: nat | at + 2 <= |dns| && dns[at] == 192 && dns[at + 1] == 12 ::
              Decoded(dns, at) == if |labels| <= 126 then Some(Name(Join(labels), at + 2)) else None
  {
    hide Join, Decoded, Question;
    var w := QuestionWritten(query, 12, dns);
    DecodedInverts(dns, 12, w);
    forall at: nat | at + 2 <= |dns| && dns[at] == 192 && dns[at + 1] == 12
      ensures Decoded(dns, at) == if |labels| <= 126 then Some(Name(Join(labels), at + 2)) else None
    {
      assert Written(dns, at, Jump(12, w));
      DecodedInverts(dns, at, Jump(12, w));
    }
  }

  /** A message with an answer reads back as its question and its answer. */
  lemma MessageIsReadable(query: bytes, names: Table)
    requires Addresses(names) && |query| >= 12 && Question(query, 12).Some?
    requires
      var (labels, end) := Question(query, 12).value;
      end + 4 <= |query| && Join(labels) in names && Word(query, end) == A && Word(query, end + 2) == INTERNET
    ensures 12 < Question(query, 12).value.1
    ensures
      var (labels, end) := Question(query, 12).value;
      var name := Join(labels);
      var dns := Message(query, end, AnswerRecord(names[name]));
      && Decoded(dns, 12) == (if |labels| <= 127 then Some(Name(name, end)) else None)
      && Decoded(dns, end + 4) == (if |labels| <= 126 then Some(Name(name, end + 6)) else None)
      && Answers(dns, end + 4, 1) == (if |labels| <= 126 then Some([Address(name, 0, names[name])]) else None)
      && forall rules :: Asked(dns, true, rules) ==
           if |labels| <= 127 && Matches(name, rules) then Some(Query(Word(query, 0), false, 1, name, A, end + 4)) else None
  {
    hide Word, Join, Decoded, Matches, Message, Question, Asked, Answers, AnswerRecord;
    QuestionEnds(query, 12);
    var (labels, end) := Question(query, 12).value;
    var record := AnswerRecord(names[Join(labels)]);
    RecordStarts(names[Join(labels)]);
    MessageParts(query, end, record);
    MessageWords(query, end, record);
    ReadsBack(query, Message(query, end, record), end, labels, names[Join(labels)]);
  }

  lemma RecordStarts(address: bytes)
    ensures var record := AnswerRecord(address);
            record != [] && |record| >= 2 && record[0] == 192 && record[1] == 12
  {
  }

  /** A message that repeats the question and answers it reads back as that question and that answer. */
  lemma ReadsBack(query: bytes, dns: bytes, end: nat, labels: seq<bytes>, address: bytes)
    requires Question(query, 12) == Some((labels, end)) && 12 < end && end + 4 <= |query| && |address| == 4
    requires end + 6 <= |dns| && dns[end + 4] == 192 && dns[end + 5] == 12 && dns[end + 4..] == AnswerRecord(address)
    requires forall i | 12 <= i < end :: dns[i] == query[i]
    requires Word(dns, 0) == Word(query, 0) && Word(dns, 2) == 0x8180 && Word(dns, 4) == 1 && Word(dns, 6) == 1
    requires Word(dns, end) == A && Word(dns, end + 2) == INTERNET
    ensures
      var name := Join(labels);
      && Decoded(dns, 12) == (if |labels| <= 127 then Some(Name(name, end)) else None)
      && Decoded(dns, end + 4) == (if |labels| <= 126 then Some(Name(name, end + 6)) else None)
      && Answers(dns, end + 4, 1) == (if |labels| <= 126 then Some([Address(name, 0, address)]) else None)
      && forall rules :: Asked(dns, true, rules) ==
           if |labels| <= 127 && Matches(name, rules) then Some(Query(Word(query, 0), false, 1, name, A, end + 4)) else None
  {
    hide Join, Decoded, Matches, Question, Asked, Answers, AnswerRecord;
    var name := Join(labels);
    NamesRead(query, dns, end, labels);
    RecordReads(dns, end + 4, name, address, |labels| <= 126);
    forall rules ensures Asked(dns, true, rules) ==
      if |labels| <= 127 && Matches(name, rules) then Some(Query(Word(query, 0), false, 1, name, A, end + 4)) else None
    {
      QuestionReads(dns, name, end, |labels| <= 127, rules);
    }
  }

  /* The frame around it. */

  lemma HeaderAt(frame: bytes, size: nat, i: nat)
    requires |frame| >= 34 && size < 65536 && i < 20
    ensures |HeaderFields(frame, size)| == |Header(frame, size)| == 20
    ensures HeaderFields(frame, size)[i] ==
            if 2 <= i < 4 then Packed(size)[i - 2] else if 10 <= i < 12 then 0
            else if 12 <= i then (frame[30..34] + GUEST)[i - 12] else frame[14 + i]
    ensures !(10 <= i < 12) ==> Header(frame, size)[i] == HeaderFields(frame, size)[i]
  {
    hide Sum, Fold, Splice;
    var h1 := Splice(frame[14..34], 2, Packed(size));
    SpliceAt(frame[14..34], 2, Packed(size), i);
    var h2 := Splice(h1, 12, frame[30..34] + GUEST);
    SpliceAt(h1, 12, frame[30..34] + GUEST, i);
    SpliceAt(h2, 10, [0, 0], i);
    var fields := HeaderFields(frame, size);
    FoldIsResidue(Sum(fields));
    SpliceAt(fields, 10, Packed(65535 - Fold(Sum(fields))), i);
  }

  lemma HeaderParts(frame: bytes, size: nat)
    requires |frame| >= 34 && frame[14] == 0x45 && size < 65536
    ensures
      var ip := Header(frame, size);
      && |ip| == 20 && Verifies(ip) && Word(ip, 2) == size && ip[9] == frame[23]
      && ip[12..16] == frame[30..34] && ip[16..20] == GUEST
  {
    hide Sum, Fold, Verifies, Splice, HeaderFields;
    var fields, ip := HeaderFields(frame, size), Header(frame, size);
    forall i | 0 <= i < 20
      ensures |fields| == |ip| == 20
      ensures fields[i] == if 2 <= i < 4 then Packed(size)[i - 2] else if 10 <= i < 12 then 0
                           else if 12 <= i then (frame[30..34] + GUEST)[i - 12] else frame[14 + i]
      ensures !(10 <= i < 12) ==> ip[i] == fields[i]
    {
      HeaderAt(frame, size, i);
    }
    HeaderAt(frame, size, 0);
    FoldIsResidue(Sum(fields));
    SumPositive(fields);
    ChecksumVerifies(fields, 10);
  }

  lemma FrameParts(frame: bytes, ip: bytes, dns: bytes)
    requires |frame| >= 38 && |ip| == 20 && 8 + |dns| < 65536 && |dns| >= 12
    ensures
      var out := frame[6..12] + frame[..6] + [8, 0] + ip + Datagram(frame, dns);
      && |out| == 42 + |dns|
      && out[..6] == frame[6..12] && out[6..12] == frame[..6] && out[12..14] == [8, 0]
      && out[14..34] == ip && (forall i | 0 <= i < 20 :: out[14 + i] == ip[i])
      && out[34..36] == frame[36..38] && out[36..38] == frame[34..36]
      && Word(out, 38) == 8 + |dns| && Word(out, 40) == 0 && out[42..] == dns
  {
    var udp := Datagram(frame, dns);
    var out := frame[6..12] + frame[..6] + [8, 0] + ip + udp;
    assert forall i | 34 <= i < |out| :: out[i] == udp[i - 34];
    assert udp[8..] == dns;
  }

  /** The frame that is sent carries the message for the question it answers. */
  lemma SentIs(frame: bytes, names: Table) returns (dns: bytes)
    requires Addresses(names) && Replied(frame, names).Sent?
    ensures IsQuery(frame) && 28 + |dns| < 65536
    ensures Replied(frame, names).frame == frame[6..12] + frame[..6] + [8, 0] + Header(frame, 28 + |dns|) + Datagram(frame, dns)
    ensures |dns| >= 16 && dns[..2] == frame[42..44] && Word(dns, 2) == 0x8180
    ensures Word(dns, 4) == 1 && Word(dns, 6) <= 1 && Word(dns, 8) == 0 && Word(dns, 10) == 0
    ensures Question(QueryOf(frame), 12).Some?
    ensures var query := QueryOf(frame);
            var (labels, end) := Question(query, 12).value;
            && 12 < end && end + 4 <= |query| && Join(labels) in names
            && dns == Message(query, end, AnswerFor(query, end, names[Join(labels)]))
  {
    hide Header, Join, Message, Question, Datagram, AnswerFor;
    var query := QueryOf(frame);
    QuestionEnds(query, 12);
    var (labels, end) := Question(query, 12).value;
    var answer := AnswerFor(query, end, names[Join(labels)]);
    dns := Message(query, end, answer);
    MessageParts(query, end, answer);
    assert query[..2] == frame[42..44];
  }

  lemma FrameReads(out: bytes, ip: bytes, dns: bytes)
    requires |out| == 42 + |dns| && |ip| == 20 && |dns| >= 12
    requires out[14..34] == ip && out[42..] == dns
    ensures Word(out, 16) == Word(ip, 2) && out[23] == ip[9]
    ensures out[26..30] == ip[12..16] && out[30..34] == ip[16..20]
    ensures out[42..44] == dns[..2] && forall i | 0 <= i < |dns| - 1 :: Word(out, 42 + i) == Word(dns, i)
  {
    assert forall i | 0 <= i < 20 :: out[14 + i] == out[14..34][i];
    assert forall i | 0 <= i < |dns| :: out[42 + i] == out[42..][i];
  }

  /**
   * Every reply is a self-consistent frame: MAC addresses, IP addresses and ports are swapped, both lengths match the
   * octets, the header checksum verifies, and the message repeats the query's identifier and question.
   */
  lemma ReplyIsConsistent(frame: bytes, names: Table)
    requires Addresses(names) && Replied(frame, names).Sent?
    ensures
      var out := Replied(frame, names).frame;
      && |out| >= 58
      && out[..6] == frame[6..12] && out[6..12] == frame[..6] && out[12..14] == [8, 0]
      && Word(out, 16) == |out| - 14 && Word(out, 38) == |out| - 34
      && Verifies(out[14..34]) && out[23] == UDP
      && out[26..30] == frame[30..34] && out[30..34] == frame[26..30]
      && out[34..36] == frame[36..38] && out[36..38] == frame[34..36] && Word(out, 40) == 0
      && out[42..44] == frame[42..44] && Word(out, 44) == 0x8180
      && Word(out, 46) == 1 && Word(out, 48) <= 1 && Word(out, 50) == 0 && Word(out, 52) == 0
  {
    var dns := SentIs(frame, names);
    hide Header, Datagram, Verifies, Replied;
    var ip := Header(frame, 28 + |dns|);
    HeaderParts(frame, 28 + |dns|);
    FrameParts(frame, ip, dns);
    FrameReads(Replied(frame, names).frame, ip, dns);
  }

  /** Octets 42 onward of the frame are its message. */
  lemma SentMessage(frame: bytes, names: Table) returns (dns: bytes)
    requires Addresses(names) && Replied(frame, names).Sent?
    ensures IsQuery(frame) && Question(QueryOf(frame), 12).Some?
    ensures |Replied(frame, names).frame| >= 58 && dns == Replied(frame, names).frame[42..]
    ensures var query := QueryOf(frame);
            var (labels, end) := Question(query, 12).value;
            && 12 < end && end + 4 <= |query| && Join(labels) in names
            && dns == Message(query, end, AnswerFor(query, end, names[Join(labels)]))
  {
    dns := SentIs(frame, names);
    hide Header, Datagram, Verifies, Replied, IsQuery, Message, Question, Join, AnswerFor;
    QueryStarts(frame);
    HeaderParts(frame, 28 + |dns|);
    FrameParts(frame, Header(frame, 28 + |dns|), dns);
  }

  lemma QueryStarts(frame: bytes)
    requires IsQuery(frame)
    ensures |frame| >= 54 && frame[14] == 0x45
  {
  }

  /**
   * The parser of the admission rules reads every reply: its question decodes to the name that was looked up, if it
   * has at most 127 labels; the answer to a question for an address decodes to an A record with that owner and the
   * table's address, if the name has at most 126; any other question gets no answer.
   */
  lemma ReplyIsReadable(frame: bytes, names: Table)
    requires Addresses(names) && Replied(frame, names).Sent?
    ensures IsQuery(frame) && Question(QueryOf(frame), 12).Some? && |Replied(frame, names).frame| >= 58
    ensures
      var query, dns := QueryOf(frame), Replied(frame, names).frame[42..];
      var (labels, end) := Question(query, 12).value;
      var name := Join(labels);
      && 12 < end && end + 4 <= |query| && name in names && end + 4 <= |dns|
      && Decoded(dns, 12) == (if |labels| <= 127 then Some(Name(name, end)) else None)
      && (if Word(query, end) == A && Word(query, end + 2) == INTERNET then
            && Decoded(dns, end + 4) == (if |labels| <= 126 then Some(Name(name, end + 6)) else None)
            && Answers(dns, end + 4, 1) == (if |labels| <= 126 then Some([Address(name, 0, names[name])]) else None)
            && forall rules :: Asked(dns, true, rules) ==
                 if |labels| <= 127 && Matches(name, rules) then Some(Query(Word(query, 0), false, 1, name, A, end + 4))
                 else None
          else Word(dns, 6) == 0 && |dns| == end + 4)
  {
    var dns := SentMessage(frame, names);
    hide Word, Join, Decoded, Matches, Message, Question, Asked, Answers, AnswerRecord, Replied, QueryOf, IsQuery;
    var query := QueryOf(frame);
    var (labels, end) := Question(query, 12).value;
    if Word(query, end) == A && Word(query, end + 2) == INTERNET {
      RecordStarts(names[Join(labels)]);
      MessageParts(query, end, AnswerRecord(names[Join(labels)]));
      MessageIsReadable(query, names);
    } else {
      MessageParts(query, end, []);
      NamesRead(query, dns, end, labels);
    }
  }

  /** A reply exists whenever the frame asks for a name in the table; its length always fits for frames of the link. */
  lemma LengthsFit(frame: bytes, names: Table)
    requires Addresses(names) && |frame| <= MAX_FRAME
    ensures !Replied(frame, names).LengthError?
  {
    hide Join, Ascii, Lower, Message, Header, Datagram;
    if IsQuery(frame) {
      var query := QueryOf(frame);
      var question := Question(query, 12);
      if question.Some? {
        QuestionEnds(query, 12);
        var end := question.value.1;
        if end + 4 <= |query| && Join(question.value.0) in names {
          var answer := AnswerFor(query, end, names[Join(question.value.0)]);
          MessageParts(query, end, answer);
        }
      }
    }
  }

  /* The limit of the parser, met by a reply that is sent. */

  predicate Plain(label': bytes) {
    1 <= |label'| <= 63 && Ascii(label') && Lower(label') == label'
  }

  /** A name on the wire, without pointers. */
  function Encoded(labels: seq<bytes>): bytes
    requires forall l | l in labels :: Plain(l)
  {
    if labels == [] then [0]
    else
      assert Plain(labels[0]);
      var size: byte := |labels[0]|;
      [size] + labels[0] + Encoded(labels[1..])
  }

  lemma NoneEncoded()
    ensures Encoded([]) == [0]
  {
  }

  lemma EncodedParts(labels: seq<bytes>)
    requires (forall l | l in labels :: Plain(l)) && labels != []
    ensures 1 <= |labels[0]| <= 63 && |Encoded(labels)| == 1 + |labels[0]| + |Encoded(labels[1..])|
    ensures Encoded(labels)[0] == |labels[0]| && Encoded(labels)[1..1 + |labels[0]|] == labels[0]
    ensures Encoded(labels)[1 + |labels[0]|..] == Encoded(labels[1..])
  {
    hide Ascii, Lower;
    assert Plain(labels[0]);
  }

  lemma {:induction false} QuestionOfEncoded(labels: seq<bytes>, query: bytes, end: nat)
    requires forall l | l in labels :: Plain(l)
    requires end + |Encoded(labels)| <= |query| && query[end..end + |Encoded(labels)|] == Encoded(labels)
    ensures Question(query, end) == Some((labels, end + |Encoded(labels)|))
  {
    hide Lower, Ascii;
    var data := Encoded(labels);
    assert forall i | 0 <= i < |data| :: query[end + i] == data[i];
    hide Encoded;
    if labels == [] {
      NoneEncoded();
    } else {
      var text, rest := labels[0], Encoded(labels[1..]);
      var next := end + 1 + |text|;
      assert Plain(text);
      EncodedParts(labels);
      assert query[end + 1..next] == data[1..1 + |text|];
      assert query[next..next + |rest|] == data[1 + |text|..];
      QuestionOfEncoded(labels[1..], query, next);
      assert [text] + labels[1..] == labels;
    }
  }

  /** Every label takes two octets or more, so a name of 255 octets has at most 127 labels. */
  lemma {:induction false} EncodedSize(labels: seq<bytes>)
    requires forall l | l in labels :: Plain(l)
    ensures |Encoded(labels)| >= 2 * |labels| + 1
    ensures (forall l | l in labels :: |l| == 1) ==> |Encoded(labels)| == 2 * |labels| + 1
  {
    if labels != [] {
      assert Plain(labels[0]);
      EncodedSize(labels[1..]);
    }
  }

  function AskingMessage(labels: seq<bytes>): bytes
    requires forall l | l in labels :: Plain(l)
  {
    [0, 0, 1, 0, 0, 1, 0, 0, 0, 0, 0, 0] + Encoded(labels) + [0, 1, 0, 1]
  }

  /** The headers of a query from the guest, without options and without checksums. */
  function AskingHeaders(size: nat): bytes
    requires size < 1000
  {
    [0, 0, 0, 0, 0, 0, 0, 0, 0, 0, 0, 0, 8, 0, 0x45, 0] + Packed(28 + size) + [0, 0, 0, 0, 64, 17, 0, 0] + GUEST + DNS
    + [0, 0, 0, 53] + Packed(8 + size) + [0, 0]
  }

  /** The guest's query for the Internet address of a name. */
  function Asking(labels: seq<bytes>): bytes
    requires (forall l | l in labels :: Plain(l)) && |Encoded(labels)| <= 255
  {
    AskingHeaders(|AskingMessage(labels)|) + AskingMessage(labels)
  }

  lemma HeadersAsk(size: nat)
    requires size < 1000
    ensures
      var h := AskingHeaders(size);
      && |h| == 42 && h[12..14] == [8, 0] && h[14] == 0x45 && h[23] == UDP && h[26..30] == GUEST && h[30..34] == DNS
      && Word(h, 16) == 28 + size && Word(h, 20) == 0 && Word(h, 36) == 53 && Word(h, 38) == 8 + size
  {
  }

  lemma MessageAsks(labels: seq<bytes>)
    requires forall l | l in labels :: Plain(l)
    ensures var query := AskingMessage(labels);
            |query| == 16 + |Encoded(labels)| && query[2] < 128 && query[4..6] == [0, 1]
  {
    hide Encoded;
  }

  lemma AskingIsQuery(labels: seq<bytes>)
    requires (forall l | l in labels :: Plain(l)) && |Encoded(labels)| <= 255
    ensures IsQuery(Asking(labels)) && QueryOf(Asking(labels)) == AskingMessage(labels)
  {
    hide Encoded, Plain, AskingHeaders, AskingMessage;
    var query := AskingMessage(labels);
    MessageAsks(labels);
    var h, frame := AskingHeaders(|query|), Asking(labels);
    HeadersAsk(|query|);
    assert frame[12..14] == h[12..14] && frame[26..30] == h[26..30] && frame[30..34] == h[30..34];
    assert frame[42..42 + |query|] == query;
  }

  /**
   * Every name that section 2.3.4 of RFC 1035 allows, 255 octets on the wire, is answered when the table has it; and
   * the parser of the admission rules reads the answer if and only if the name has fewer than 127 labels.
   */
  lemma LegalNameIsAnswered(labels: seq<bytes>, address: bytes)
    requires (forall l | l in labels :: Plain(l)) && |Encoded(labels)| <= 255 && |address| == 4
    ensures |labels| <= 127
    ensures
      var reply, end := Replied(Asking(labels), map[Join(labels) := address]), 12 + |Encoded(labels)|;
      && reply.Sent? && |reply.frame| == end + 62
      && Answers(reply.frame[42..], end + 4, 1)
         == if |labels| < 127 then Some([Address(Join(labels), 0, address)]) else None
  {
    hide Encoded, Replied, Answers, Plain, Join, Question, IsQuery, Asking, AskingMessage, QueryOf, Decoded, Word;
    var frame, query, names, end := Asking(labels), AskingMessage(labels), map[Join(labels) := address], 12 + |Encoded(labels)|;
    EncodedSize(labels);
    AskingIsQuery(labels);
    AskingAsks(labels);
    AskingIsSent(frame, names);
    ReplyIsReadable(frame, names);
  }

  lemma AskingAsks(labels: seq<bytes>)
    requires (forall l | l in labels :: Plain(l)) && |Encoded(labels)| <= 255
    ensures
      var query, end := AskingMessage(labels), 12 + |Encoded(labels)|;
      Question(query, 12) == Some((labels, end)) && end + 4 == |query| && Word(query, end) == A && Word(query, end + 2) == INTERNET
  {
    hide Encoded, Question, Plain;
    var query, end := AskingMessage(labels), 12 + |Encoded(labels)|;
    assert query[12..end] == Encoded(labels);
    QuestionOfEncoded(labels, query, 12);
  }

  /** A short question for an address in the table is answered. */
  lemma AskingIsSent(frame: bytes, names: Table)
    requires Addresses(names) && IsQuery(frame) && |QueryOf(frame)| < 1000 && Question(QueryOf(frame), 12).Some?
    requires
      var query := QueryOf(frame);
      var (labels, end) := Question(query, 12).value;
      12 <= end && end + 4 <= |query| && Join(labels) in names && Word(query, end) == A && Word(query, end + 2) == INTERNET
    ensures Replied(frame, names).Sent? && |Replied(frame, names).frame| == 62 + Question(QueryOf(frame), 12).value.1
  {
    var query := QueryOf(frame);
    var (labels, end) := Question(query, 12).value;
    var record := AnswerRecord(names[Join(labels)]);
    QueryStarts(frame);
    hide Header, Datagram, IsQuery, Message, Question, Join, QueryOf, Word;
    MessageParts(query, end, record);
    var dns := Message(query, end, record);
    HeaderParts(frame, 28 + |dns|);
    FrameParts(frame, Header(frame, 28 + |dns|), dns);
  }

  /** A legal name of 127 labels exists: its answer is sent and cannot be read. */
  lemma LongestNameIsUnreadable(address: bytes) returns (labels: seq<bytes>)
    requires |address| == 4
    ensures (forall l | l in labels :: Plain(l)) && |Encoded(labels)| == 255 && |labels| == 127
    ensures Replied(Asking(labels), map[Join(labels) := address]).Sent?
    ensures Answers(Replied(Asking(labels), map[Join(labels) := address]).frame[42..], 271, 1).None?
  {
    hide Encoded, Replied, Answers, Join;
    labels := seq(127, _ => [97]);
    assert Plain([97]);
    EncodedSize(labels);
    LegalNameIsAnswered(labels, address);
  }
}
