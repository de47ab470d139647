/** Lookups of service names as the guest writes them. */
module ServiceWire {
  import opened Bytes
  import opened Packets
  import opened DnsName
  import opened Cname
  import opened DnsMessage
  import opened DnsRecords
  import opened Router
  import SD = ServiceDns

  /** A name that is spelled out where it stands. */
  predicate Straight(w: Wire) {
    match w
    case Root => true
    case Label(_, rest) => Straight(rest)
    case Jump(_, _) => false
  }

  /** The label loop reads every name that is spelled out. */
  lemma {:induction false} StraightIsRead(query: bytes, at: nat, w: Wire)
    requires Written(query, at, w) && Straight(w)
    ensures SD.Question(query, at) == Some((Labels(w), End(at, w)))
    decreases w
  {
    hide Lower, Ascii;
    if w.Label? {
      var next := at + 1 + |w.text|;
      WrittenInside(query, next, w.rest);
      StraightIsRead(query, next, w.rest);
    }
  }

  lemma WrittenInside(query: bytes, at: nat, w: Wire)
    requires Written(query, at, w)
    ensures at < |query|
  {
  }

  /** A whole UDP datagram from the guest to its resolver, with at least a header in it. */
  ghost predicate ToService(ip: Ip, u: Udp) {
    && ip.Legal() && u.Legal() && ip.options == [] && !ip.moreFragments && ip.offset == 0
    && ip.protocol == 17 && ip.source == [10, 0, 2, 15] && ip.destination == [10, 0, 2, 3]
    && ip.payload == u.Octets() && u.destination == 53
  }

  /** The datagram asks one question and is no response. */
  predicate AsksOne(message: bytes) {
    |message| >= 12 && message[2] < 128 && message[4..6] == [0, 1]
  }

  lemma DatagramReads(ip: Ip, u: Udp)
    requires ToService(ip, u) && |u.data| >= 12
    ensures var frame := ip.Octets();
            && |frame| >= 54 && Word(frame, 36) == 53 && Word(frame, 38) == 8 + |u.data|
            && 34 + Word(frame, 38) <= |frame| && frame[42..34 + Word(frame, 38)] == u.data
            && Word(frame, 16) == 20 + Word(frame, 38)
  {
    hide Ip.Octets, Udp.Octets, Ip.Fragment, Word;
    UdpReads(u, []);
    assert u.Octets() + [] == ip.payload;
    IpReads(ip);
    PayloadReads(ip);
  }

  lemma DatagramIsQuery(ip: Ip, u: Udp)
    requires ToService(ip, u) && AsksOne(u.data)
    ensures SD.IsQuery(ip.Octets()) && SD.QueryOf(ip.Octets()) == u.data
  {
    hide Ip.Octets, Udp.Octets, Ip.Fragment;
    IpReads(ip);
    FragmentIsWhole(ip);
    DatagramReads(ip, u);
  }

  /** Exactly which packets are looked at: a whole datagram with one question that is no response. */
  lemma QueryExactly(ip: Ip)
    requires ip.Legal()
    ensures SD.IsQuery(ip.Octets()) <==> exists u :: ToService(ip, u) && AsksOne(u.data)
  {
    hide SD.IsQuery, ToService, AsksOne, Ip.Octets;
    if SD.IsQuery(ip.Octets()) {
      var u := QueryUdp(ip);
    }
    if u :| ToService(ip, u) && AsksOne(u.data) {
      DatagramIsQuery(ip, u);
    }
  }

  lemma PayloadReads(ip: Ip)
    requires ip.Legal() && ip.options == [] && |ip.payload| >= 8
    ensures |ip.Octets()| >= 34 + |ip.payload|
    ensures Word(ip.Octets(), 36) == Word(ip.payload, 2) && Word(ip.Octets(), 38) == Word(ip.payload, 4)
    ensures ip.Octets()[42..34 + |ip.payload|] == ip.payload[8..]
  {
    hide Ip.Octets;
    IpReads(ip);
    var frame := ip.Octets();
    var part := frame[34..14 + ip.Size()];
    assert forall i | 0 <= i < |part| :: frame[34 + i] == part[i];
  }

  lemma QueryUdp(ip: Ip) returns (u: Udp)
    requires ip.Legal() && SD.IsQuery(ip.Octets())
    ensures ToService(ip, u) && AsksOne(u.data)
  {
    hide Ip.Octets, Udp.Octets, Ip.Fragment;
    IpReads(ip);
    FragmentIsWhole(ip);
    var frame := ip.Octets();
    assert |ip.payload| == Word(frame, 38);
    PayloadReads(ip);
    var rest;
    u, rest := UdpOf(ip.payload);
    UdpReads(u, rest);
    assert rest == [] && u.Octets() + rest == u.Octets();
  }

  lemma AsksOneExactly(message: bytes, h: Header, q: Question)
    requires Asking(message, h, q)
    ensures AsksOne(message) <==> !h.response && h.questions == 1
  {
    hide Written, Header.Octets, Header.Flags;
    HeaderReads(message, h);
    FlagsRead(h);
    assert message[4..6] == [message[4], message[5]];
  }

  lemma SameDatagram(ip: Ip, u: Udp, v: Udp)
    requires ToService(ip, u) && ToService(ip, v) && |u.data| >= 12 && |v.data| >= 12
    ensures u.data == v.data
  {
    hide Ip.Octets, Udp.Octets, ToService;
    DatagramReads(ip, u);
    DatagramReads(ip, v);
  }

  /**
   * A datagram of the guest to its resolver is answered exactly if it asks one question, for a name in the table. The
   * answer to a question for an Internet address is the table's address, for the parser of the admission rules, too,
   * up to 126 labels.
   */
  lemma AnsweredExactly(ip: Ip, u: Udp, h: Header, q: Question, names: SD.Table)
    requires ToService(ip, u) && Asking(u.data, h, q) && Straight(q.name) && SD.Addresses(names)
    requires |ip.Octets()| <= 9014
    ensures SD.Replied(ip.Octets(), names).Sent? <==> !h.response && h.questions == 1 && TextOf(q.name) in names
    ensures SD.Replied(ip.Octets(), names) in {SD.NoReply} || SD.Replied(ip.Octets(), names).Sent?
    ensures SD.Replied(ip.Octets(), names).Sent? && q.kind == 1 && q.class' == 1 ==>
              var reply := SD.Replied(ip.Octets(), names).frame;
              && |reply| >= 42
              && Answers(reply[42..], End(12, q.name) + 4, 1)
                 == if |Labels(q.name)| < 127 then Some([Address(TextOf(q.name), 0, names[TextOf(q.name)])]) else None
  {
    hide Ip.Octets, Udp.Octets, AsksOne, SD.Message, SD.Header, SD.Datagram, Answers, Decoded, Written, Join;
    var frame := ip.Octets();
    AsksOneExactly(u.data, h, q);
    AskingIsLong(u.data, h, q);
    SD.LengthsFit(frame, names);
    if SD.IsQuery(frame) {
      var v := QueryUdp(ip);
      AsksOneIsLong(v.data);
      SameDatagram(ip, u, v);
    }
    if AsksOne(u.data) {
      DatagramIsQuery(ip, u);
      StraightIsRead(u.data, 12, q.name);
      hide SD.IsQuery, SD.QueryOf, SD.Question;
      SD.QuestionEnds(u.data, 12);
      if SD.Replied(frame, names).Sent? {
        SD.ReplyIsReadable(frame, names);
      }
    }
  }

  /** Whatever is answered is such a datagram. */
  lemma OnlyQueriesAnswered(frame: bytes, names: SD.Table) returns (ip: Ip, u: Udp)
    requires SD.Addresses(names) && SD.Replied(frame, names) != SD.NoReply
    ensures ToService(ip, u) && AsksOne(u.data) && ip.Octets() == frame
  {
    hide Ip.Octets, Udp.Octets, SD.Message, SD.Header, SD.Datagram, SD.Question, Join;
    assert SD.IsQuery(frame);
    ip := IpOf(frame);
    u := QueryUdp(ip);
  }

  lemma AsksOneIsLong(message: bytes)
    requires AsksOne(message)
    ensures |message| >= 12
  {
  }

  lemma AskingIsLong(message: bytes, h: Header, q: Question)
    requires Asking(message, h, q)
    ensures End(12, q.name) + 4 <= |message| && |message| >= 12
    ensures Word(message, End(12, q.name)) == q.kind && Word(message, End(12, q.name) + 2) == q.class'
  {
    WordsRead(message, End(12, q.name), q.kind, q.class');
  }
}
