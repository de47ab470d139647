/** Packets as their senders write them: IPv4 on Ethernet, TCP and UDP, field by field. */
module Packets {
  import opened Bytes

  function Flag(set': bool, value: nat): nat {
    if set' then value else 0
  }

  /** An IPv4 packet in an Ethernet frame, section 3.1 of RFC 791. Padding may follow it. */
  datatype Ip = Ip(macs: bytes, service: byte, identification: nat, reserved: bool, dontFragment: bool,
                   moreFragments: bool, offset: nat, ttl: byte, protocol: byte, checksum: nat, source: bytes,
                   destination: bytes, options: bytes, payload: bytes, padding: bytes)
  {
    predicate Legal() {
      && |macs| == 12 && identification < 65536 && offset < 8192 && checksum < 65536
      && |source| == 4 && |destination| == 4
      && |options| <= 40 && |options| % 4 == 0 && Size() < 65536
    }

    function Size(): nat { 20 + |options| + |payload| }

    function Fragment(): nat {
      Flag(reserved, 0x8000) + Flag(dontFragment, 0x4000) + Flag(moreFragments, 0x2000) + offset
    }

    function Front(): bytes
      requires Legal()
    {
      macs + [8, 0, 0x45 + |options| / 4, service] + Packed(Size()) + Packed(identification) + Packed(Fragment())
      + [ttl, protocol] + Packed(checksum) + source + destination
    }

    function Octets(): bytes
      requires Legal()
    {
      Front() + options + payload + padding
    }
  }

  /** A TCP segment, section 3.1 of RFC 9293. */
  datatype Tcp = Tcp(source: nat, destination: nat, sequence: nat, acknowledgment: nat, reserved: nat, cwr: bool,
                     ece: bool, urg: bool, ack: bool, psh: bool, rst: bool, syn: bool, fin: bool, window: nat,
                     checksum: nat, urgent: nat, options: bytes, data: bytes)
  {
    predicate Legal() {
      && source < 65536 && destination < 65536 && sequence < 0x1_0000_0000 && acknowledgment < 0x1_0000_0000
      && reserved < 16 && window < 65536 && checksum < 65536 && urgent < 65536
      && |options| <= 40 && |options| % 4 == 0
    }

    function Flags(): byte {
      Flag(cwr, 128) + Flag(ece, 64) + Flag(urg, 32) + Flag(ack, 16) + Flag(psh, 8) + Flag(rst, 4) + Flag(syn, 2)
      + Flag(fin, 1)
    }

    function Front(): bytes
      requires Legal()
    {
      Packed(source) + Packed(destination) + PackedLong(sequence) + PackedLong(acknowledgment)
      + [16 * (5 + |options| / 4) + reserved, Flags()] + Packed(window) + Packed(checksum) + Packed(urgent)
    }

    function Octets(): bytes
      requires Legal()
    {
      Front() + options + data
    }
  }

  /** A UDP datagram, RFC 768. */
  datatype Udp = Udp(source: nat, destination: nat, checksum: nat, data: bytes)
  {
    predicate Legal() { source < 65536 && destination < 65536 && checksum < 65536 && 8 + |data| < 65536 }

    function Octets(): bytes
      requires Legal()
    {
      Packed(source) + Packed(destination) + Packed(8 + |data|) + Packed(checksum) + data
    }
  }

  /** An address resolution packet in an Ethernet frame, RFC 826, with six and four octets for the addresses. */
  datatype Arp = Arp(macs: bytes, hardware: nat, protocol: nat, hardwareSize: byte, protocolSize: byte, operation: nat,
                     senderMac: bytes, sender: bytes, targetMac: bytes, target: bytes, padding: bytes)
  {
    predicate Legal() {
      && |macs| == 12 && hardware < 65536 && protocol < 65536 && operation < 65536
      && |senderMac| == |targetMac| == 6 && |sender| == |target| == 4
    }

    function Octets(): bytes
      requires Legal()
    {
      macs + [8, 6] + Packed(hardware) + Packed(protocol) + [hardwareSize, protocolSize] + Packed(operation)
      + senderMac + sender + targetMac + target + padding
    }
  }

  /* Reading the fields back. */

  lemma FragmentIsWhole(ip: Ip)
    requires ip.Legal()
    ensures ip.Fragment() % 0x4000 == 0 <==> !ip.moreFragments && ip.offset == 0
  {
  }

  lemma OffsetIsZero(ip: Ip)
    requires ip.Legal()
    ensures ip.Fragment() % 0x2000 == 0 <==> ip.offset == 0
  {
  }

  lemma FrontReads(ip: Ip)
    requires ip.Legal()
    ensures
      var front := ip.Front();
      && |front| == 34 && front[..12] == ip.macs && front[12..14] == [8, 0] && front[14] == 0x45 + |ip.options| / 4
      && front[15] == ip.service && Word(front, 16) == ip.Size() && Word(front, 18) == ip.identification
      && Word(front, 20) == ip.Fragment() && front[22] == ip.ttl && front[23] == ip.protocol
      && Word(front, 24) == ip.checksum && front[26..30] == ip.source && front[30..34] == ip.destination
  {
  }

  /** What a reader finds at the offsets of the header. */
  lemma IpReads(ip: Ip)
    requires ip.Legal()
    ensures
      var frame, start := ip.Octets(), 34 + |ip.options|;
      && |frame| == start + |ip.payload| + |ip.padding|
      && frame[..12] == ip.macs && frame[12..14] == [8, 0] && frame[14] == 0x45 + |ip.options| / 4
      && Word(frame, 16) == ip.Size() && Word(frame, 20) == ip.Fragment() && frame[23] == ip.protocol
      && frame[26..30] == ip.source && frame[30..34] == ip.destination
      && frame[34..start] == ip.options && frame[start..14 + ip.Size()] == ip.payload
      && frame[14 + ip.Size()..] == ip.padding
  {
    FrontReads(ip);
    var front, frame := ip.Front(), ip.Octets();
    hide Ip.Front;
    assert forall i | 0 <= i < 34 :: frame[i] == front[i];
    assert frame[..12] == front[..12] && frame[12..14] == front[12..14];
    assert frame[26..30] == front[26..30] && frame[30..34] == front[30..34];
  }

  ghost predicate HoldsIp(frame: bytes) {
    exists ip: Ip :: ip.Legal() && ip.Octets() == frame
  }

  lemma FlagsOfFragment(word: nat) returns (reserved: bool, dontFragment: bool, moreFragments: bool)
    requires word < 65536
    ensures Flag(reserved, 0x8000) + Flag(dontFragment, 0x4000) + Flag(moreFragments, 0x2000) + word % 8192 == word
  {
    reserved, dontFragment, moreFragments := word / 0x8000 == 1, word / 0x4000 % 2 == 1, word / 0x2000 % 2 == 1;
  }

  /** Exactly which frames hold an IPv4 packet. */
  lemma IpExactly(frame: bytes)
    ensures
      HoldsIp(frame) <==>
        && |frame| >= 34 && frame[12..14] == [8, 0] && 0x45 <= frame[14] <= 0x4F
        && 4 * (frame[14] as int - 0x40) <= Word(frame, 16) && 14 + Word(frame, 16) <= |frame|
  {
    if ip: Ip :| ip.Legal() && ip.Octets() == frame {
      IpReads(ip);
    }
    if && |frame| >= 34 && frame[12..14] == [8, 0] && 0x45 <= frame[14] <= 0x4F
       && 4 * (frame[14] as int - 0x40) <= Word(frame, 16) && 14 + Word(frame, 16) <= |frame| {
      var ip := IpOf(frame);
    }
  }

  lemma IpFrontOf(ip: Ip, frame: bytes)
    requires ip.Legal() && |frame| >= 34 && ip.macs == frame[..12] && frame[12..14] == [8, 0]
    requires frame[14] as int == 0x45 + |ip.options| / 4 && frame[15] == ip.service
    requires Packed(ip.Size()) == frame[16..18] && Packed(ip.identification) == frame[18..20]
    requires Packed(ip.Fragment()) == frame[20..22] && frame[22] == ip.ttl && frame[23] == ip.protocol
    requires Packed(ip.checksum) == frame[24..26] && ip.source == frame[26..30] && ip.destination == frame[30..34]
    ensures ip.Front() == frame[..34]
  {
    hide Packed, Ip.Fragment;
  }

  lemma IpOf(frame: bytes) returns (ip: Ip)
    requires |frame| >= 34 && frame[12..14] == [8, 0] && 0x45 <= frame[14] <= 0x4F
    requires 4 * (frame[14] as int - 0x40) <= Word(frame, 16) && 14 + Word(frame, 16) <= |frame|
    ensures ip.Legal() && ip.Octets() == frame
  {
    var start, end := 14 + 4 * (frame[14] as int - 0x40), 14 + Word(frame, 16);
    PackedWord(frame, 16);
    PackedWord(frame, 18);
    PackedWord(frame, 20);
    PackedWord(frame, 24);
    var reserved, dontFragment, moreFragments := FlagsOfFragment(Word(frame, 20));
    ip := Ip(frame[..12], frame[15], Word(frame, 18), reserved, dontFragment, moreFragments, Word(frame, 20) % 8192,
             frame[22], frame[23], Word(frame, 24), frame[26..30], frame[30..34], frame[34..start], frame[start..end],
             frame[end..]);
    assert ip.Fragment() == Word(frame, 20);
    hide Word, Packed, Flag, Ip.Fragment;
    assert frame[14..16] == [frame[14], frame[15]] && frame[22..24] == [frame[22], frame[23]];
    IpFrontOf(ip, frame);
    assert frame == frame[..34] + frame[34..start] + frame[start..end] + frame[end..];
  }

  lemma TcpFrontReads(t: Tcp)
    requires t.Legal()
    ensures
      var front := t.Front();
      && |front| == 20 && Word(front, 0) == t.source && Word(front, 2) == t.destination && Long(front, 4) == t.sequence
      && Long(front, 8) == t.acknowledgment && front[12] == 16 * (5 + |t.options| / 4) + t.reserved
      && front[13] == t.Flags() && Word(front, 14) == t.window && Word(front, 16) == t.checksum
      && Word(front, 18) == t.urgent
  {
  }

  /** What a reader finds at the offsets of a TCP header, and behind it whatever options there are. */
  lemma TcpReads(t: Tcp)
    requires t.Legal()
    ensures
      var octets, start := t.Octets(), 20 + |t.options|;
      && |octets| == start + |t.data|
      && Word(octets, 0) == t.source && Word(octets, 2) == t.destination && Long(octets, 4) == t.sequence
      && octets[12] as int / 16 * 4 == start
      && Bit(octets[13], 1) == t.fin && Bit(octets[13], 2) == t.syn && Bit(octets[13], 4) == t.rst
      && Bit(octets[13], 16) == t.ack
      && Word(octets, 16) == t.checksum
      && octets[start..] == t.data
  {
    TcpFrontReads(t);
    TcpFlagsRead(t);
    hide Tcp.Front, Tcp.Flags, Bit;
    var front, octets := t.Front(), t.Octets();
    assert forall i | 0 <= i < 20 :: octets[i] == front[i];
  }

  lemma TcpFlagsRead(t: Tcp)
    ensures Bit(t.Flags(), 1) == t.fin && Bit(t.Flags(), 2) == t.syn && Bit(t.Flags(), 4) == t.rst
    ensures Bit(t.Flags(), 16) == t.ack
  {
    hide Tcp.Flags, Flag, Bit;
    var top, low := FlagsAre(t);
    Lowest(2 * top + Flag(t.ack, 1), t.psh, t.rst, t.syn, t.fin);
    Fifth(top, t.ack, low);
  }

  lemma FlagsAre(t: Tcp) returns (top: nat, low: nat)
    ensures low == Flag(t.psh, 8) + Flag(t.rst, 4) + Flag(t.syn, 2) + Flag(t.fin, 1) < 16
    ensures t.Flags() as int == 32 * top + 16 * Flag(t.ack, 1) + low
  {
    top := 4 * Flag(t.cwr, 1) + 2 * Flag(t.ece, 1) + Flag(t.urg, 1);
    low := Flag(t.psh, 8) + Flag(t.rst, 4) + Flag(t.syn, 2) + Flag(t.fin, 1);
  }

  lemma Lowest(high: nat, psh: bool, rst: bool, syn: bool, fin: bool)
    ensures var flags := 16 * high + Flag(psh, 8) + Flag(rst, 4) + Flag(syn, 2) + Flag(fin, 1);
            Bit(flags, 1) == fin && Bit(flags, 2) == syn && Bit(flags, 4) == rst
  {
    var flags := 16 * high + Flag(psh, 8) + Flag(rst, 4) + Flag(syn, 2) + Flag(fin, 1);
    var half := 8 * high + Flag(psh, 4) + Flag(rst, 2) + Flag(syn, 1);
    var quarter := 4 * high + Flag(psh, 2) + Flag(rst, 1);
    Quotient(flags, 2, half, Flag(fin, 1));
    Quotient(half, 2, quarter, Flag(syn, 1));
    Quotient(quarter, 2, 2 * high + Flag(psh, 1), Flag(rst, 1));
    Quotient(flags, 4, quarter, Flag(syn, 2) + Flag(fin, 1));
  }

  lemma Fifth(top: nat, ack: bool, low: nat)
    requires low < 16
    ensures Bit(32 * top + 16 * Flag(ack, 1) + low, 16) == ack
  {
    Quotient(32 * top + 16 * Flag(ack, 1) + low, 16, 2 * top + Flag(ack, 1), low);
    Quotient(2 * top + Flag(ack, 1), 2, top, Flag(ack, 1));
  }

  ghost predicate HoldsTcp(payload: bytes) {
    exists t: Tcp :: t.Legal() && t.Octets() == payload
  }

  /** Exactly which octets are a TCP segment. */
  lemma TcpExactly(payload: bytes)
    ensures HoldsTcp(payload) <==>
              |payload| >= 20 && payload[12] as int / 16 >= 5 && payload[12] as int / 16 * 4 <= |payload|
  {
    if t: Tcp :| t.Legal() && t.Octets() == payload {
      TcpReads(t);
    }
    if |payload| >= 20 && payload[12] as int / 16 >= 5 && payload[12] as int / 16 * 4 <= |payload| {
      var t := TcpOf(payload);
    }
  }

  lemma FourFlags(n: nat) returns (a: bool, b: bool, c: bool, d: bool)
    requires n < 16
    ensures Flag(a, 8) + Flag(b, 4) + Flag(c, 2) + Flag(d, 1) == n
  {
    a, b, c, d := n / 8 == 1, n / 4 % 2 == 1, n / 2 % 2 == 1, n % 2 == 1;
  }

  lemma FlagsOf(octet: byte)
    returns (cwr: bool, ece: bool, urg: bool, ack: bool, psh: bool, rst: bool, syn: bool, fin: bool)
    ensures Flag(cwr, 128) + Flag(ece, 64) + Flag(urg, 32) + Flag(ack, 16) + Flag(psh, 8) + Flag(rst, 4) + Flag(syn, 2)
            + Flag(fin, 1) == octet as int
  {
    cwr, ece, urg, ack := FourFlags(octet as int / 16);
    psh, rst, syn, fin := FourFlags(octet as int % 16);
  }

  lemma TcpFrontOf(t: Tcp, payload: bytes)
    requires t.Legal() && |payload| >= 20
    requires Packed(t.source) == payload[0..2] && Packed(t.destination) == payload[2..4]
    requires PackedLong(t.sequence) == payload[4..8] && PackedLong(t.acknowledgment) == payload[8..12]
    requires 16 * (5 + |t.options| / 4) + t.reserved == payload[12] as int && t.Flags() == payload[13]
    requires Packed(t.window) == payload[14..16] && Packed(t.checksum) == payload[16..18]
    requires Packed(t.urgent) == payload[18..20]
    ensures t.Front() == payload[..20]
  {
    hide Packed, PackedLong, Tcp.Flags;
  }

  lemma TcpOf(payload: bytes) returns (t: Tcp)
    requires |payload| >= 20 && payload[12] as int / 16 >= 5 && payload[12] as int / 16 * 4 <= |payload|
    ensures t.Legal() && t.Octets() == payload
  {
    var start := payload[12] as int / 16 * 4;
    PackedWord(payload, 0);
    PackedWord(payload, 2);
    LongPacked(payload, 4);
    LongPacked(payload, 8);
    PackedWord(payload, 14);
    PackedWord(payload, 16);
    PackedWord(payload, 18);
    var cwr, ece, urg, ack, psh, rst, syn, fin := FlagsOf(payload[13]);
    t := Tcp(Word(payload, 0), Word(payload, 2), Long(payload, 4), Long(payload, 8), payload[12] as int % 16,
             cwr, ece, urg, ack, psh, rst, syn, fin, Word(payload, 14), Word(payload, 16), Word(payload, 18),
             payload[20..start], payload[start..]);
    assert t.Flags() == payload[13];
    hide Word, Long, Packed, PackedLong, Flag, Tcp.Flags;
    assert payload[12..14] == [payload[12], payload[13]];
    TcpFrontOf(t, payload);
    assert payload == payload[..20] + payload[20..start] + payload[start..];
  }

  /** What a reader finds in a UDP datagram, and whatever follows it. */
  lemma UdpReads(u: Udp, rest: bytes)
    requires u.Legal()
    ensures
      var octets := u.Octets() + rest;
      && |octets| == 8 + |u.data| + |rest| && Word(octets, 0) == u.source && Word(octets, 2) == u.destination
      && Word(octets, 4) == 8 + |u.data| && Word(octets, 6) == u.checksum && octets[8..8 + |u.data|] == u.data
      && octets[8..] == u.data + rest
  {
  }

  /** The octets begin with a UDP datagram. */
  ghost predicate HoldsUdp(payload: bytes) {
    exists u: Udp, rest: bytes :: u.Legal() && u.Octets() + rest == payload
  }

  /** Exactly which octets begin with a UDP datagram. */
  lemma UdpExactly(payload: bytes)
    ensures HoldsUdp(payload) <==> |payload| >= 8 && 8 <= Word(payload, 4) <= |payload|
  {
    if u: Udp, rest: bytes :| u.Legal() && u.Octets() + rest == payload {
      UdpReads(u, rest);
    }
    if |payload| >= 8 && 8 <= Word(payload, 4) <= |payload| {
      var u, rest := UdpOf(payload);
    }
  }

  lemma UdpOf(payload: bytes) returns (u: Udp, rest: bytes)
    requires |payload| >= 8 && 8 <= Word(payload, 4) <= |payload|
    ensures u.Legal() && u.Octets() + rest == payload
  {
    var size := Word(payload, 4);
    PackedWord(payload, 0);
    PackedWord(payload, 2);
    PackedWord(payload, 4);
    PackedWord(payload, 6);
    u, rest := Udp(Word(payload, 0), Word(payload, 2), Word(payload, 6), payload[8..size]), payload[size..];
    hide Word, Packed;
  }

  lemma ArpReads(a: Arp)
    requires a.Legal()
    ensures
      var frame := a.Octets();
      && |frame| == 42 + |a.padding| && frame[12..14] == [8, 6] && frame[14..16] == Packed(a.hardware)
      && frame[16..18] == Packed(a.protocol) && frame[18] == a.hardwareSize && frame[19] == a.protocolSize
      && frame[20..22] == Packed(a.operation) && frame[28..32] == a.sender && frame[38..42] == a.target
  {
    hide Packed;
    var frame := a.Octets();
    assert frame[12] == 8 && frame[13] == 6 && frame[18] == a.hardwareSize && frame[19] == a.protocolSize;
    assert frame[14] == Packed(a.hardware)[0] && frame[15] == Packed(a.hardware)[1];
    assert frame[20] == Packed(a.operation)[0] && frame[21] == Packed(a.operation)[1];
  }

  lemma ArpOf(frame: bytes) returns (a: Arp)
    requires |frame| >= 42 && frame[12..14] == [8, 6]
    ensures a.Legal() && a.Octets() == frame
  {
    PackedWord(frame, 14);
    PackedWord(frame, 16);
    PackedWord(frame, 20);
    a := Arp(frame[..12], Word(frame, 14), Word(frame, 16), frame[18], frame[19], Word(frame, 20), frame[22..28],
             frame[28..32], frame[32..38], frame[38..42], frame[42..]);
    hide Word, Packed;
    assert frame[18..20] == [frame[18], frame[19]];
  }
}
