/** The policy's decision on frames as their senders write them, field by field. */
module EgressWire {
  import opened Bytes
  import opened Ordered
  import opened Packets
  import opened Egress

  /** The transport headers a packet must hold in full. */
  ghost predicate Complete(protocol: byte, payload: bytes) {
    || (protocol == 6 && HoldsTcp(payload))
    || (protocol == 17 && HoldsUdp(payload))
    || (protocol == 1 && |payload| >= 8)
  }

  /** No options, no fragment, a complete transport header. */
  ghost predicate Plain(ip: Ip) {
    ip.options == [] && !ip.moreFragments && ip.offset == 0 && Complete(ip.protocol, ip.payload)
  }

  function Carried(ip: Ip): Packet {
    Packet(ip.source, ip.destination, ip.protocol, ip.payload)
  }

  /** The parser reads exactly the plain packets, whatever their identification, lifetime, checksum and padding. */
  lemma ParsesExactly(ip: Ip)
    requires ip.Legal()
    ensures Ipv4(ip.Octets()) == if Plain(ip) then Some(Carried(ip)) else None
  {
    hide HoldsTcp, HoldsUdp, Ip.Octets, Ip.Fragment;
    IpReads(ip);
    FragmentIsWhole(ip);
    TcpExactly(ip.payload);
    UdpExactly(ip.payload);
  }

  /** Whatever the parser reads is a packet; anything else, a header that is cut short for one, is nothing to it. */
  lemma ParsesPackets(frame: bytes) returns (ip: Ip)
    requires Ipv4(frame).Some?
    ensures ip.Legal() && ip.Octets() == frame && Plain(ip) && Ipv4(frame) == Some(Carried(ip))
  {
    ip := IpOf(frame);
    ParsesExactly(ip);
  }

  /* Flows. */

  ghost predicate Segment(ip: Ip, t: Tcp) {
    ip.protocol == 6 && t.Legal() && t.Octets() == ip.payload
  }

  ghost predicate UserDatagram(ip: Ip, u: Udp, rest: bytes) {
    ip.protocol == 17 && u.Legal() && u.Octets() + rest == ip.payload
  }

  /** What the policy reads off a segment. */
  lemma SegmentReads(ip: Ip, t: Tcp)
    requires Segment(ip, t)
    ensures |ip.payload| >= 20 && Word(ip.payload, 0) == t.source && Word(ip.payload, 2) == t.destination
    ensures BareSyn(ip.payload) <==> t.syn && !t.ack
  {
    hide Tcp.Octets, Bit;
    TcpReads(t);
  }

  lemma PortsRead(ip: Ip)
    requires Complete(ip.protocol, ip.payload)
    ensures |ip.payload| >= (if ip.protocol == 6 then 20 else 8)
    ensures forall t | Segment(ip, t) :: Word(ip.payload, 0) == t.source && Word(ip.payload, 2) == t.destination
    ensures forall u, rest | UserDatagram(ip, u, rest) :: Word(ip.payload, 0) == u.source && Word(ip.payload, 2) == u.destination
    ensures ip.protocol == 6 ==> exists t :: Segment(ip, t)
    ensures ip.protocol == 17 ==> exists u, rest :: UserDatagram(ip, u, rest)
  {
    hide Tcp.Octets, Udp.Octets;
    TcpExactly(ip.payload);
    UdpExactly(ip.payload);
    forall t | Segment(ip, t) ensures Word(ip.payload, 0) == t.source && Word(ip.payload, 2) == t.destination {
      TcpReads(t);
    }
    forall u, rest | UserDatagram(ip, u, rest)
      ensures Word(ip.payload, 0) == u.source && Word(ip.payload, 2) == u.destination
    {
      UdpReads(u, rest);
    }
    if ip.protocol == 6 {
      var t: Tcp :| t.Legal() && t.Octets() == ip.payload;
      assert Segment(ip, t);
    } else if ip.protocol == 17 {
      var u: Udp, rest: bytes :| u.Legal() && u.Octets() + rest == ip.payload;
      assert UserDatagram(ip, u, rest);
    }
  }

  ghost predicate Unfragmented(ip: Ip) {
    ip.options == [] && !ip.moreFragments && ip.offset == 0
  }

  /** A flow is opened by a SYN without ACK from the gateway to a forwarded port of the guest, and kept by what answers. */
  lemma FlowsExactly(site: Site, e: Passage, ip: Ip, t: Tcp, flow: Flow)
    requires ip.Legal() && e.frame == ip.Octets() && Segment(ip, t)
    ensures Opens(site, e, flow) <==>
              && e.inbound && Unfragmented(ip) && ip.source == site.gateway && ip.destination == site.guest
              && flow == (t.destination, t.source) && t.destination in site.ports && t.syn && !t.ack
    ensures Replies(site, e, flow) <==>
              && !e.inbound && Unfragmented(ip) && ip.source == site.guest && ip.destination == site.gateway
              && flow == (t.source, t.destination) && !(t.syn && !t.ack)
  {
    hide Ipv4, Ip.Octets, BareSyn, Tcp.Octets;
    ParsesExactly(ip);
    SegmentReads(ip, t);
  }

  /** Other packets neither open a flow nor keep one. */
  lemma OnlySegmentsFlow(site: Site, e: Passage, ip: Ip, flow: Flow)
    requires ip.Legal() && e.frame == ip.Octets() && ip.protocol != 6
    ensures !Opens(site, e, flow) && !Replies(site, e, flow)
  {
    hide Ip.Octets;
    ParsesExactly(ip);
  }

  /* What the guest may send. */

  ghost predicate AsksResolver(site: Site, ip: Ip) {
    && ip.destination == site.dns
    && ((exists t :: Segment(ip, t) && t.destination == 53) || (exists u, rest :: UserDatagram(ip, u, rest) && u.destination == 53))
  }

  /** An address of the world outside this host, no special one, and of ICMP only an echo request. */
  ghost predicate Abroad(site: Site, ip: Ip)
    requires |ip.payload| >= 8
  {
    var kind := site.kinds(ip.destination);
    && ip.destination !in site.hosts && ip.destination != site.gateway && ip.destination != site.dns
    && ip.destination != site.guest
    && !kind.isLoopback && !kind.isLinkLocal && !kind.isMulticast && !kind.isUnspecified && !kind.isReserved
    && (ip.protocol == 1 ==> ip.payload[..2] == [8, 0])
  }

  /** What each mode opens besides forwarded flows. */
  ghost predicate Opened(site: Site, policy: Policy, ip: Ip, admits: bool)
    requires ip.Legal() && |ip.payload| >= 8
  {
    match policy.mode
    case Offline => false
    case Proxy => exists t :: Segment(ip, t) && (ip.destination, t.destination) in policy.proxies
    case AllowList => AsksResolver(site, ip) || (admits && Abroad(site, ip))
    case Internet =>
      || AsksResolver(site, ip)
      || (Abroad(site, ip)
          && (site.kinds(ip.destination).isGlobal
              || exists n | n in policy.allowed :: n.low <= Long(ip.destination, 0) <= n.high))
  }

  lemma AsksExactly(site: Site, ip: Ip)
    requires ip.Legal() && Plain(ip) && |ip.payload| >= 8
    ensures AsksResolver(site, ip) <==> ToResolver(site, Carried(ip))
    ensures ip.protocol != 6 ==> forall t :: !Segment(ip, t)
  {
    hide Complete;
    PortsRead(ip);
    hide Word, Udp.Octets, Tcp.Octets;
    if ip.protocol == 6 {
      var t :| Segment(ip, t);
      assert t.destination == Word(ip.payload, 2);
    } else if ip.protocol == 17 {
      var u, rest :| UserDatagram(ip, u, rest);
      assert u.destination == Word(ip.payload, 2);
    }
  }

  /** A segment to the gateway, no bare SYN, on a flow of the table. */
  ghost predicate RepliesOn(site: Site, live: Flows, ip: Ip) {
    exists t :: Segment(ip, t) && ip.destination == site.gateway && !(t.syn && !t.ack)
                && Find(live, (t.source, t.destination)).Some?
  }

  lemma OpenedIsPermitted(site: Site, policy: Policy, ip: Ip, admits: bool)
    requires ip.Legal() && Plain(ip)
    ensures |ip.payload| >= 8
    ensures Permitted(site, policy, Carried(ip), admits) <==> Opened(site, policy, ip, admits)
  {
    hide Segment, UserDatagram, Complete, AsksResolver, ToResolver, Word;
    PortsRead(ip);
    AsksExactly(site, ip);
    if policy.mode == Proxy && ip.protocol == 6 && (ip.destination, Word(ip.payload, 2)) in policy.proxies {
      var t :| Segment(ip, t);
      assert t.destination == Word(ip.payload, 2);
    }
  }

  /**
   * A packet of any sender passes outward exactly if the guest sent it, it is plain, and it is a reply on a live flow
   * or the mode opens its way, whatever the order of the checks.
   */
  lemma EgressIsBounded(site: Site, policy: Policy, flows: Flows, e: Passage, ip: Ip)
    requires !e.inbound && ip.Legal() && e.frame == ip.Octets()
    ensures Plain(ip) ==> |ip.payload| >= 8
    ensures Decide(site, policy, flows, e).allow <==>
              && Plain(ip) && ip.source == site.guest
              && (Opened(site, policy, ip, e.admits) || RepliesOn(site, Popped(flows, e.now), ip))
  {
    hide Popped, Find, Opened, Ipv4, Segment, Plain, Ip.Octets, Replies;
    NotArpEither(ip);
    ParsesExactly(ip);
    if Plain(ip) && ip.source == site.guest {
      OpenedIsPermitted(site, policy, ip, e.admits);
      GuestIsBounded(site, policy, flows, e);
      RepliesRead(site, e, ip, Popped(flows, e.now));
    }
  }

  lemma NotArpEither(ip: Ip)
    requires ip.Legal()
    ensures |ip.Octets()| >= 34 && ip.Octets()[12..14] != [8, 6]
  {
    IpReads(ip);
    hide Ip.Octets;
    assert ip.Octets()[12..14][1] == 0;
  }

  lemma RepliesRead(site: Site, e: Passage, ip: Ip, live: Flows)
    requires !e.inbound && ip.Legal() && e.frame == ip.Octets() && Plain(ip) && ip.source == site.guest
    ensures
      (exists flow :: Replies(site, e, flow) && Find(live, flow).Some?) <==> RepliesOn(site, live, ip)
  {
    hide Find, Replies, Ip.Octets, Complete, Segment;
    PortsRead(ip);
    if ip.protocol == 6 {
      var t :| Segment(ip, t);
      forall t, flow | Segment(ip, t)
        ensures Replies(site, e, flow) <==>
                  ip.destination == site.gateway && flow == (t.source, t.destination) && !(t.syn && !t.ack)
      {
        FlowsExactly(site, e, ip, t, flow);
      }
      if RepliesOn(site, live, ip) {
        var s :| Segment(ip, s) && ip.destination == site.gateway && !(s.syn && !s.ack)
                 && Find(live, (s.source, s.destination)).Some?;
        assert Replies(site, e, (s.source, s.destination));
      }
    } else {
      forall flow ensures !Replies(site, e, flow) {
        OnlySegmentsFlow(site, e, ip, flow);
      }
      SegmentIsTcp(ip);
    }
  }

  lemma SegmentIsTcp(ip: Ip)
    ensures forall t | Segment(ip, t) :: ip.protocol == 6
  {
  }

  /** Of all that is no IPv4 packet, the guest may send exactly the requests and replies for its own link. */
  lemma ArpExactly(site: Site, policy: Policy, flows: Flows, e: Passage, a: Arp)
    requires !e.inbound && a.Legal() && e.frame == a.Octets()
    ensures Decide(site, policy, flows, e).allow <==>
              && a.hardware == 1 && a.protocol == 0x800 && a.hardwareSize == 6 && a.protocolSize == 4
              && a.operation in {1, 2}
              && (a.sender == site.guest || a.sender == [0, 0, 0, 0])
              && a.target in {site.gateway, site.dns, site.guest}
  {
    ArpReads(a);
    hide Arp.Octets, Popped;
    var frame := e.frame;
    var arp := frame[14..42];
    assert arp[..2] == frame[14..16] && arp[2..4] == frame[16..18] && arp[4] == frame[18] && arp[5] == frame[19];
    assert arp[6..8] == frame[20..22] && arp[14..18] == frame[28..32] && arp[24..28] == frame[38..42];
    SixOctets(arp, a.hardware, a.protocol);
    PackedApart(a.operation);
  }

  lemma SixOctets(arp: bytes, hardware: nat, protocol: nat)
    requires |arp| >= 6 && hardware < 65536 && protocol < 65536
    requires arp[..2] == Packed(hardware) && arp[2..4] == Packed(protocol)
    ensures arp[..6] == [0, 1, 8, 0, 6, 4] <==> hardware == 1 && protocol == 0x800 && arp[4] == 6 && arp[5] == 4
  {
    var six := arp[..6];
    assert six[0] == arp[..2][0] && six[1] == arp[..2][1] && six[2] == arp[2..4][0] && six[3] == arp[2..4][1];
    assert six == [six[0], six[1], six[2], six[3], six[4], six[5]];
  }

  lemma PackedApart(n: nat)
    requires n < 65536
    ensures (Packed(n) == [0, 1] <==> n == 1) && (Packed(n) == [0, 2] <==> n == 2)
  {
  }

  lemma NothingElsePasses(site: Site, policy: Policy, flows: Flows, e: Passage)
    requires !e.inbound && !HoldsIp(e.frame) && forall a: Arp | a.Legal() :: a.Octets() != e.frame
    ensures !Decide(site, policy, flows, e).allow
  {
    hide Arp.Octets, Popped, ArpAllowed;
    if |e.frame| >= 42 && e.frame[12..14] == [8, 6] {
      var a := ArpOf(e.frame);
    } else if Ipv4(e.frame).Some? {
      var ip := ParsesPackets(e.frame);
    }
  }

  /**
   * In every mode and across all changes of the rules: a packet to the gateway that passes comes from the guest and is
   * a TCP segment, not a bare SYN, on a flow that a SYN from the host to a forwarded port opened and that frames of
   * that flow have kept going since without a gap above 3600 seconds.
   */
  lemma GatewayTrafficIsForwarded(site: Site, passages: seq<Passage>, e: Passage, ip: Ip) returns (t: Tcp, steps: seq<nat>)
    requires site.Legal() && e.policy.Legal(site)
    requires !site.KindOf(site.gateway).isGlobal && site.gateway != site.dns
    requires Timely(passages + [e])
    requires !e.inbound && ip.Legal() && e.frame == ip.Octets() && ip.destination == site.gateway
    requires Decide(site, e.policy, FlowsAfter(site, passages), e).allow
    ensures ip.source == site.guest && Unfragmented(ip) && Segment(ip, t) && !(t.syn && !t.ack)
    ensures Kept(site, passages, steps, (t.source, t.destination))
    ensures e.now <= passages[steps[|steps| - 1]].now + 3600.0
  {
    hide Ipv4, Decide, Kept, Timely, FlowsAfter, Ip.Octets, Segment, Complete, BareSyn;
    EgressIsBounded(site, e.policy, FlowsAfter(site, passages), e, ip);
    ParsesExactly(ip);
    steps := RepliesAreForwarded(site, passages, e);
    PortsRead(ip);
    t :| Segment(ip, t);
    SegmentReads(ip, t);
    KeptInside(site, passages, steps, (t.source, t.destination));
  }

  /* What may reach the guest. */

  /** The host's side of a forwarded connection. */
  ghost predicate ToForwardedPort(site: Site, ip: Ip, t: Tcp) {
    Segment(ip, t) && ip.source == site.gateway && ip.destination == site.guest && t.destination in site.ports
  }

  ghost predicate FromResolver(site: Site, ip: Ip) {
    && ip.source == site.dns
    && ((exists t :: Segment(ip, t) && t.source == 53) || (exists u, rest :: UserDatagram(ip, u, rest) && u.source == 53))
  }

  /** A segment for a forwarded port passes in every mode, unless it asks for one flow too many. */
  lemma ForwardedInbound(site: Site, policy: Policy, flows: Flows, e: Passage, ip: Ip, t: Tcp)
    requires e.inbound && ip.Legal() && e.frame == ip.Octets() && Unfragmented(ip) && ToForwardedPort(site, ip, t)
    ensures Decide(site, policy, flows, e).allow <==>
              (t.syn && !t.ack ==>
                 Find(Popped(flows, e.now), (t.destination, t.source)).Some? || |Popped(flows, e.now)| < 8192)
  {
    hide Ip.Octets, Tcp.Octets, Popped, Find, BareSyn, Ipv4;
    SegmentReads(ip, t);
    TcpExactly(ip.payload);
    ParsesExactly(ip);
  }

  /**
   * Every other plain packet is refused offline; under an allowlist it passes if it comes from the resolver's port or
   * the allowlist admits its source; in the other modes it passes.
   */
  lemma InboundIsBounded(site: Site, policy: Policy, flows: Flows, e: Passage, ip: Ip)
    requires e.inbound && ip.Legal() && e.frame == ip.Octets() && Plain(ip)
    requires forall t :: !ToForwardedPort(site, ip, t)
    ensures Decide(site, policy, flows, e).allow <==>
              match policy.mode
              case Offline => false
              case AllowList => FromResolver(site, ip) || e.admits
              case Proxy => true
              case Internet => true
  {
    hide Ip.Octets, Popped, Find, BareSyn, Ipv4, Segment, UserDatagram, Complete;
    ParsesExactly(ip);
    PortsRead(ip);
    SegmentIsTcp(ip);
    DatagramIsUdp(ip);
    if ip.protocol == 6 {
      var t :| Segment(ip, t);
      assert !ToForwardedPort(site, ip, t);
    } else if ip.protocol == 17 {
      var u, rest :| UserDatagram(ip, u, rest);
    }
  }

  lemma DatagramIsUdp(ip: Ip)
    ensures forall u, rest | UserDatagram(ip, u, rest) :: ip.protocol == 17
  {
  }

  /* What the allowlist hears. */

  /** A query the guest sends to the resolver is heard with the guest's port, its octets after the UDP header. */
  lemma QueryIsHeard(site: Site, policy: Policy, flows: Flows, e: Passage, ip: Ip, u: Udp, rest: bytes)
    requires ip.Legal() && e.frame == ip.Octets() && Unfragmented(ip) && UserDatagram(ip, u, rest)
    requires policy.mode == AllowList
    ensures !e.inbound && ip.source == site.guest && ip.destination == site.dns && u.destination == 53 ==>
              Decide(site, policy, flows, e).notice == Datagram(u.data + rest, u.source, false)
    ensures e.inbound && ip.source == site.dns && u.source == 53 ==>
              Decide(site, policy, flows, e).notice == Datagram(u.data + rest, u.destination, true)
  {
    hide Ip.Octets, Udp.Octets, Popped, Find, BareSyn, Ipv4;
    UdpReads(u, rest);
    ParsesExactly(ip);
    NotArpEither(ip);
  }

  /** The same over TCP, where the whole segment is heard. */
  lemma SegmentIsHeard(site: Site, policy: Policy, flows: Flows, e: Passage, ip: Ip, t: Tcp)
    requires ip.Legal() && e.frame == ip.Octets() && Unfragmented(ip) && Segment(ip, t)
    requires policy.mode == AllowList && site.gateway != site.dns
    ensures !e.inbound && ip.source == site.guest && ip.destination == site.dns && t.destination == 53 ==>
              Decide(site, policy, flows, e).notice == Stream(t.Octets(), t.source, false)
    ensures e.inbound && ip.source == site.dns && t.source == 53 ==>
              Decide(site, policy, flows, e).notice == Stream(t.Octets(), t.destination, true)
  {
    hide Ip.Octets, Tcp.Octets, Popped, Find, BareSyn, Ipv4;
    SegmentReads(ip, t);
    TcpExactly(ip.payload);
    ParsesExactly(ip);
    NotArpEither(ip);
  }
}
