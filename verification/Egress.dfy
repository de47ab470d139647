/** The egress policy of a sandbox's Ethernet link: its decision on every frame, and the forwarded flows behind it. */
module Egress {
  import opened Bytes
  import opened Ordered
  import AL = Allowlist

  const MAX_FLOWS := 8192
  const FLOW_LIFETIME := 3600.0
  const ICMP := 1
  const DNS_PORT := 53

  datatype Mode = Internet | Offline | Proxy | AllowList

  /** What `ipaddress` says of an address. */
  datatype Kind = Kind(isGlobal: bool, isLoopback: bool, isLinkLocal: bool, isMulticast: bool,
                       isUnspecified: bool, isReserved: bool)

  /** The settings that last as long as the link: addresses, forwarded ports and the address registry. */
  datatype Site = Site(guest: bytes, gateway: bytes, dns: bytes, hosts: set<bytes>, ports: set<nat>,
                       kinds: bytes -> Kind)
  {
    predicate Legal() { |guest| == 4 && |gateway| == 4 && |dns| == 4 }

    function KindOf(address: bytes): Kind { kinds(address) }

    predicate Local(address: bytes) {
      || address in hosts || address in {gateway, dns, guest}
      || KindOf(address).isLoopback || KindOf(address).isLinkLocal
    }
  }

  /** The egress rules, which an update replaces. */
  datatype Policy = Policy(mode: Mode, allowed: seq<AL.Network>, proxies: set<(bytes, nat)>)
  {
    predicate Legal(site: Site) {
      && (forall e | e in proxies :: |e.0| == 4 && site.KindOf(e.0).isGlobal && 1 <= e.1 <= 65535)
      && (mode == Proxy ==> proxies != {} && allowed == [])
    }
  }

  datatype Packet = Packet(src: bytes, dst: bytes, proto: nat, payload: bytes)

  /** An unfragmented IPv4 packet without options, whose transport header is complete. */
  function Ipv4(frame: bytes): (p: Option<Packet>)
    ensures p.Some? ==>
              && |p.value.src| == 4 && |p.value.dst| == 4 && p.value.proto in {TCP, UDP, ICMP}
              && |p.value.payload| >= (if p.value.proto == TCP then 20 else 8)
  {
    if |frame| < 34 || frame[12..14] != [8, 0] || frame[14] != 0x45 then None
    else
      var size, fragment := Word(frame, 16), Word(frame, 20);
      if size < 20 || |frame| < 14 + size || fragment % 0x4000 != 0 then None
      else
        var proto, payload := frame[23] as int, frame[34..14 + size];
        if proto == TCP then
          if |payload| < 20 || payload[12] as int / 16 < 5 || payload[12] as int / 16 * 4 > |payload| then None
          else Some(Packet(frame[26..30], frame[30..34], proto, payload))
        else if proto == UDP then
          if |payload| < 8 || !(8 <= Word(payload, 4) <= |payload|) then None
          else Some(Packet(frame[26..30], frame[30..34], proto, payload))
        else if proto == ICMP then
          if |payload| < 8 then None else Some(Packet(frame[26..30], frame[30..34], proto, payload))
        else None
  }

  /** A SYN without ACK asks for a new connection. */
  predicate BareSyn(payload: bytes)
    requires |payload| >= 20
  {
    Bit(payload[13], 2) && !Bit(payload[13], 16)
  }

  /** The guest's port and the gateway's port of a forwarded connection. */
  type Flow = (nat, nat)
  type Flows = Dict<Flow, real>

  datatype Reason = Forward | FlowLimit | OfflineMode | Dns | Listed | Inbound | Arp | Unsupported | SourceSpoof
                  | ForwardReply | ProxyEndpoint | Host | NonPublic | Special | IcmpType | Egress

  /** Traffic that the allowlist gets to see. */
  datatype Notice = Nothing | Datagram(data: bytes, port: nat, response: bool) | Stream(payload: bytes, port: nat, response: bool)

  datatype Verdict = Verdict(allow: bool, reason: Reason, flows: Flows, notice: Notice)

  function Touched(flows: Flows, flow: Flow, now: real): Flows {
    Renew(flows, flow, now + FLOW_LIFETIME)
  }

  /** A frame from the host's side. `admits` is the allowlist's word on the source address. */
  function DecideInbound(site: Site, policy: Policy, flows: Flows, frame: bytes, now: real, admits: bool): Verdict {
    match Ipv4(frame)
    case None => Verdict(true, Inbound, flows, Nothing)
    case Some(Packet(src, dst, proto, payload)) =>
      var forwarded := src == site.gateway && dst == site.guest && proto == TCP && Word(payload, 2) in site.ports;
      if forwarded && BareSyn(payload) then
        var flow := (Word(payload, 2), Word(payload, 0));
        if Find(flows, flow).None? && |flows| >= MAX_FLOWS then Verdict(false, FlowLimit, flows, Nothing)
        else Verdict(true, Forward, Touched(flows, flow, now), Nothing)
      else if forwarded then Verdict(true, Forward, flows, Nothing)
      else if policy.mode == Offline then Verdict(false, OfflineMode, flows, Nothing)
      else if policy.mode == AllowList then
        if src == site.dns && proto in {TCP, UDP} && Word(payload, 0) == DNS_PORT then
          Verdict(true, Dns, flows, if proto == UDP then Datagram(payload[8..], Word(payload, 2), true)
                                    else Stream(payload, Word(payload, 2), true))
        else Verdict(admits, Listed, flows, Nothing)
      else Verdict(true, Inbound, flows, Nothing)
  }

  predicate ArpAllowed(site: Site, arp: bytes)
    requires |arp| == 28
  {
    && arp[..6] == [0, 1, 8, 0, 6, 4]
    && (arp[6..8] == [0, 1] || arp[6..8] == [0, 2])
    && (arp[14..18] == site.guest || arp[14..18] == [0, 0, 0, 0])
    && arp[24..28] in {site.gateway, site.dns, site.guest}
  }

  /** A frame from the guest. `admits` is the allowlist's word on the destination address. */
  function DecideOutbound(site: Site, policy: Policy, flows: Flows, frame: bytes, now: real, admits: bool): Verdict {
    if |frame| >= 42 && frame[12..14] == [8, 6] then Verdict(ArpAllowed(site, frame[14..42]), Arp, flows, Nothing)
    else
      match Ipv4(frame)
      case None => Verdict(false, Unsupported, flows, Nothing)
      case Some(p) =>
        if p.src != site.guest then Verdict(false, SourceSpoof, flows, Nothing)
        else DecideGuest(site, policy, flows, p, now, admits)
  }

  function DecideGuest(site: Site, policy: Policy, flows: Flows, p: Packet, now: real, admits: bool): Verdict
    requires |p.payload| >= (if p.proto == TCP then 20 else 8)
  {
    var Packet(_, dst, proto, payload) := p;
    if proto == TCP && dst == site.gateway && Find(flows, (Word(payload, 0), Word(payload, 2))).Some?
       && !BareSyn(payload) then
      Verdict(true, ForwardReply, Touched(flows, (Word(payload, 0), Word(payload, 2)), now), Nothing)
    else if proto in {TCP, UDP} && policy.mode in {Internet, AllowList} && dst == site.dns && Word(payload, 2) == DNS_PORT then
      Verdict(true, Dns, flows, if policy.mode != AllowList then Nothing
                                else if proto == UDP then Datagram(payload[8..], Word(payload, 0), false)
                                else Stream(payload, Word(payload, 0), false))
    else if policy.mode == Offline then Verdict(false, OfflineMode, flows, Nothing)
    else if policy.mode == Proxy then
      Verdict(proto == TCP && (dst, Word(payload, 2)) in policy.proxies, ProxyEndpoint, flows, Nothing)
    else if site.Local(dst) then Verdict(false, Host, flows, Nothing)
    else if policy.mode == AllowList && !admits then Verdict(false, Listed, flows, Nothing)
    else if policy.mode != AllowList && !site.KindOf(dst).isGlobal && !(|dst| == 4 && AL.Inside(dst, policy.allowed)) then
      Verdict(false, NonPublic, flows, Nothing)
    else if site.KindOf(dst).isMulticast || site.KindOf(dst).isUnspecified || site.KindOf(dst).isReserved then
      Verdict(false, Special, flows, Nothing)
    else if proto == ICMP && payload[..2] != [8, 0] then Verdict(false, IcmpType, flows, Nothing)
    else Verdict(true, Egress, flows, Nothing)
  }

  /** Dropping expired flows from the head only. */
  function Popped(flows: Flows, now: real): Flows {
    if flows != [] && flows[0].1 < now then Popped(flows[1..], now) else flows
  }

  function Decide(site: Site, policy: Policy, flows: Flows, e: Passage): Verdict {
    var live := Popped(flows, e.now);
    if e.inbound then DecideInbound(site, policy, live, e.frame, e.now, e.admits)
    else DecideOutbound(site, policy, live, e.frame, e.now, e.admits)
  }

  /** A frame met the policy then in force, and the allowlist admitted its far address or did not. */
  datatype Passage = Passage(policy: Policy, frame: bytes, inbound: bool, now: real, admits: bool)

  function FlowsAfter(site: Site, passages: seq<Passage>): Flows {
    if passages == [] then []
    else
      var before, e := passages[..|passages| - 1], passages[|passages| - 1];
      Decide(site, e.policy, FlowsAfter(site, before), e).flows
  }

  predicate Timely(passages: seq<Passage>) {
    forall i, j | 0 <= i < j < |passages| :: passages[i].now <= passages[j].now
  }

  /* Head-only expiry is full expiry. */

  predicate Sorted(flows: Flows) {
    forall i, j | 0 <= i < j < |flows| :: flows[i].1 <= flows[j].1
  }

  function Live(flows: Flows, now: real): Flows {
    if flows == [] then [] else (if flows[0].1 < now then [] else [flows[0]]) + Live(flows[1..], now)
  }

  lemma {:induction false} LiveKeepsAll(flows: Flows, now: real)
    requires forall e | e in flows :: e.1 >= now
    ensures Live(flows, now) == flows
  {
    if flows != [] {
      LiveKeepsAll(flows[1..], now);
    }
  }

  lemma {:induction false} PoppedIsLive(flows: Flows, now: real)
    requires Sorted(flows)
    ensures Popped(flows, now) == Live(flows, now)
  {
    if flows != [] {
      if flows[0].1 < now {
        PoppedIsLive(flows[1..], now);
        assert [] + Live(flows[1..], now) == Live(flows[1..], now);
      } else {
        LiveKeepsAll(flows, now);
      }
    }
  }

  ghost predicate Orderly(flows: Flows, now: real) {
    && Unique(flows) && Sorted(flows) && |flows| <= 8192
    && forall e | e in flows :: e.1 <= now + 3600.0
  }

  lemma {:induction false} PoppedOrderly(flows: Flows, now: real)
    requires Orderly(flows, now)
    ensures Orderly(Popped(flows, now), now)
    ensures forall e | e in Popped(flows, now) :: e in flows && now <= e.1
  {
    if flows != [] && flows[0].1 < now {
      PoppedOrderly(flows[1..], now);
    }
  }

  lemma {:induction false} RemoveSorted(flows: Flows, flow: Flow)
    requires Sorted(flows)
    ensures Sorted(Remove(flows, flow))
  {
    if flows != [] {
      RemoveSorted(flows[1..], flow);
      forall e | e in Remove(flows[1..], flow) ensures flows[0].1 <= e.1 {
        InRemove(flows[1..], flow, e);
      }
    }
  }

  lemma TouchedOrderly(flows: Flows, flow: Flow, now: real)
    requires Orderly(flows, now) && (Find(flows, flow).Some? || |flows| < MAX_FLOWS)
    ensures Orderly(Touched(flows, flow, now), now)
  {
    RemoveShortens(flows, flow);
    RemoveSorted(flows, flow);
    RenewKeepsUnique(flows, flow, now + FLOW_LIFETIME);
    forall e | e in Touched(flows, flow, now) ensures e.1 <= now + FLOW_LIFETIME {
      InRenew(flows, flow, now + FLOW_LIFETIME, e);
    }
    forall e | e in Remove(flows, flow) ensures e.1 <= now + FLOW_LIFETIME {
      InRemove(flows, flow, e);
    }
  }

  lemma DecideOrderly(site: Site, flows: Flows, e: Passage)
    requires Orderly(flows, e.now)
    ensures Orderly(Decide(site, e.policy, flows, e).flows, e.now)
  {
    hide Ipv4, Orderly, Touched, BareSyn, ArpAllowed;
    var live := Popped(flows, e.now);
    PoppedOrderly(flows, e.now);
    var verdict := Decide(site, e.policy, flows, e);
    if verdict.flows != live {
      var payload := Ipv4(e.frame).value.payload;
      if e.inbound {
        TouchedOrderly(live, (Word(payload, 2), Word(payload, 0)), e.now);
      } else {
        TouchedOrderly(live, (Word(payload, 0), Word(payload, 2)), e.now);
      }
    }
  }

  lemma OrderlyLater(flows: Flows, now: real, later: real)
    requires Orderly(flows, now) && now <= later
    ensures Orderly(flows, later)
  {
  }

  /** Over every run the table stays in order of its deadlines, so the head is always the next flow to expire. */
  lemma {:induction false} FlowsStayOrderly(site: Site, passages: seq<Passage>, now: real)
    requires Timely(passages) && forall e | e in passages :: e.now <= now
    ensures Orderly(FlowsAfter(site, passages), now)
    ensures Popped(FlowsAfter(site, passages), now) == Live(FlowsAfter(site, passages), now)
    decreases |passages|
  {
    hide Decide, Popped, Live;
    if passages != [] {
      var before, e := passages[..|passages| - 1], passages[|passages| - 1];
      FlowsStayOrderly(site, before, e.now);
      DecideOrderly(site, FlowsAfter(site, before), e);
      OrderlyLater(FlowsAfter(site, passages), e.now, now);
    }
    PoppedIsLive(FlowsAfter(site, passages), now);
  }

  /* Nothing reaches the gateway but replies on flows the host opened. */

  ghost predicate Opens(site: Site, e: Passage, flow: Flow) {
    e.inbound && Ipv4(e.frame).Some? &&
    var p := Ipv4(e.frame).value;
    && p.src == site.gateway && p.dst == site.guest && p.proto == TCP
    && flow == (Word(p.payload, 2), Word(p.payload, 0))
    && flow.0 in site.ports && BareSyn(p.payload)
  }

  ghost predicate Replies(site: Site, e: Passage, flow: Flow) {
    !e.inbound && Ipv4(e.frame).Some? &&
    var p := Ipv4(e.frame).value;
    && p.src == site.guest && p.dst == site.gateway && p.proto == TCP
    && flow == (Word(p.payload, 0), Word(p.payload, 2)) && !BareSyn(p.payload)
  }

  /** The frame at `k` was let through. */
  ghost predicate Passed(site: Site, passages: seq<Passage>, k: nat) {
    k < |passages| && Decide(site, passages[k].policy, FlowsAfter(site, passages[..k]), passages[k]).allow
  }

  /** The frames at `steps` passed, opened the flow and kept it going, with no gap above 3600 seconds. */
  ghost predicate Kept(site: Site, passages: seq<Passage>, steps: seq<nat>, flow: Flow) {
    && |steps| > 0
    && (forall k | 0 <= k < |steps| :: steps[k] < |passages| && Passed(site, passages, steps[k]))
    && Opens(site, passages[steps[0]], flow)
    && (forall k | 0 < k < |steps| ::
          && steps[k - 1] < steps[k]
          && (Opens(site, passages[steps[k]], flow) || Replies(site, passages[steps[k]], flow))
          && passages[steps[k]].now <= passages[steps[k - 1]].now + 3600.0)
  }

  ghost predicate Grounded(site: Site, passages: seq<Passage>, flow: Flow, deadline: real) {
    exists steps: seq<nat> :: Kept(site, passages, steps, flow) && deadline == passages[steps[|steps| - 1]].now + 3600.0
  }

  lemma PassedLonger(site: Site, passages: seq<Passage>, e: Passage, k: nat)
    requires k < |passages|
    ensures Passed(site, passages + [e], k) == Passed(site, passages, k)
  {
    hide Decide, FlowsAfter;
    assert (passages + [e])[..k] == passages[..k];
  }

  lemma PassedLast(site: Site, passages: seq<Passage>, e: Passage)
    ensures Passed(site, passages + [e], |passages|) == Decide(site, e.policy, FlowsAfter(site, passages), e).allow
  {
    hide Decide, FlowsAfter;
    assert (passages + [e])[..|passages|] == passages;
  }

  lemma GroundedLonger(site: Site, passages: seq<Passage>, e: Passage, flow: Flow, deadline: real)
    requires Grounded(site, passages, flow, deadline)
    ensures Grounded(site, passages + [e], flow, deadline)
  {
    hide Opens, Replies, Passed;
    var steps: seq<nat> :| Kept(site, passages, steps, flow) && deadline == passages[steps[|steps| - 1]].now + FLOW_LIFETIME;
    forall k | 0 <= k < |steps| ensures Passed(site, passages + [e], steps[k]) {
      PassedLonger(site, passages, e, steps[k]);
    }
    assert Kept(site, passages + [e], steps, flow);
  }

  lemma GroundedOpened(site: Site, passages: seq<Passage>, e: Passage, flow: Flow)
    requires Opens(site, e, flow) && Decide(site, e.policy, FlowsAfter(site, passages), e).allow
    ensures Grounded(site, passages + [e], flow, e.now + FLOW_LIFETIME)
  {
    hide Opens, Replies, Passed, Decide, FlowsAfter;
    PassedLast(site, passages, e);
    assert Kept(site, passages + [e], [|passages|], flow);
  }

  lemma GroundedReplied(site: Site, passages: seq<Passage>, e: Passage, flow: Flow, deadline: real)
    requires Grounded(site, passages, flow, deadline) && e.now <= deadline && Replies(site, e, flow)
    requires Decide(site, e.policy, FlowsAfter(site, passages), e).allow
    ensures Grounded(site, passages + [e], flow, e.now + FLOW_LIFETIME)
  {
    hide Opens, Replies, Passed, Decide, FlowsAfter;
    var more := passages + [e];
    var steps: seq<nat> :| Kept(site, passages, steps, flow) && deadline == passages[steps[|steps| - 1]].now + FLOW_LIFETIME;
    var longer: seq<nat> := steps + [|passages|];
    forall k | 0 <= k < |steps| ensures more[longer[k]] == passages[steps[k]] && Passed(site, more, longer[k]) {
      PassedLonger(site, passages, e, steps[k]);
    }
    PassedLast(site, passages, e);
    assert Kept(site, more, longer, flow);
  }

  ghost predicate AllGrounded(site: Site, passages: seq<Passage>, flows: Flows) {
    forall f | f in flows :: Grounded(site, passages, f.0, f.1)
  }

  lemma StepGrounded(site: Site, passages: seq<Passage>, e: Passage)
    requires AllGrounded(site, passages, FlowsAfter(site, passages)) && Orderly(FlowsAfter(site, passages), e.now)
    ensures AllGrounded(site, passages + [e], Decide(site, e.policy, FlowsAfter(site, passages), e).flows)
  {
    hide Grounded, BareSyn, ArpAllowed, Orderly, FlowsAfter;
    var flows := FlowsAfter(site, passages);
    var live, after := Popped(flows, e.now), Decide(site, e.policy, flows, e).flows;
    PoppedOrderly(flows, e.now);
    forall f | f in after ensures Grounded(site, passages + [e], f.0, f.1) {
      if f in live {
        GroundedLonger(site, passages, e, f.0, f.1);
      } else {
        var payload := Ipv4(e.frame).value.payload;
        var flow := if e.inbound then (Word(payload, 2), Word(payload, 0)) else (Word(payload, 0), Word(payload, 2));
        InRenew(live, flow, e.now + FLOW_LIFETIME, f);
        if e.inbound {
          GroundedOpened(site, passages, e, flow);
        } else {
          FindIsIn(live, flow);
          GroundedReplied(site, passages, e, flow, Find(live, flow).value);
        }
      }
    }
  }

  lemma {:induction false} FlowsGrounded(site: Site, passages: seq<Passage>, now: real)
    requires Timely(passages) && forall e | e in passages :: e.now <= now
    ensures AllGrounded(site, passages, FlowsAfter(site, passages))
    decreases |passages|
  {
    hide Decide, Grounded, Orderly;
    if passages != [] {
      var before, e := passages[..|passages| - 1], passages[|passages| - 1];
      assert passages == before + [e];
      FlowsGrounded(site, before, e.now);
      FlowsStayOrderly(site, before, e.now);
      StepGrounded(site, before, e);
    }
  }

  /** A packet of the guest for the gateway only passes as a reply on a live flow. */
  lemma GatewayVerdict(site: Site, policy: Policy, flows: Flows, e: Passage)
    requires site.Legal() && policy.Legal(site)
    requires !site.KindOf(site.gateway).isGlobal && site.gateway != site.dns
    requires !e.inbound && !(|e.frame| >= 42 && e.frame[12..14] == [8, 6])
    requires Ipv4(e.frame).Some? && Ipv4(e.frame).value.dst == site.gateway
    requires Decide(site, policy, flows, e).allow
    ensures
      var payload := Ipv4(e.frame).value.payload;
      var flow := (Word(payload, 0), Word(payload, 2));
      Replies(site, e, flow) && Find(Popped(flows, e.now), flow).Some?
  {
    hide BareSyn, ArpAllowed;
  }

  /**
   * In every mode and across all changes of the rules: a guest packet for the gateway that passes is a TCP packet,
   * not a bare SYN, on a flow that a SYN from the host to a forwarded port opened and that frames of that flow have
   * kept going since without a gap above 3600 seconds.
   */
  lemma RepliesAreForwarded(site: Site, passages: seq<Passage>, e: Passage)
    returns (steps: seq<nat>)
    requires site.Legal() && e.policy.Legal(site)
    requires !site.KindOf(site.gateway).isGlobal && site.gateway != site.dns
    requires Timely(passages + [e])
    requires !e.inbound && Ipv4(e.frame).Some? && Ipv4(e.frame).value.dst == site.gateway
    requires Decide(site, e.policy, FlowsAfter(site, passages), e).allow
    ensures
      var p := Ipv4(e.frame).value;
      && p.proto == TCP && !BareSyn(p.payload)
      && Kept(site, passages, steps, (Word(p.payload, 0), Word(p.payload, 2)))
      && e.now <= passages[steps[|steps| - 1]].now + 3600.0
  {
    hide Opens, BareSyn, ArpAllowed, Decide, Ipv4, Kept, Timely;
    var payload := Ipv4(e.frame).value.payload;
    NotArp(e.frame);
    GatewayVerdict(site, e.policy, FlowsAfter(site, passages), e);
    TimelyBefore(passages, e);
    steps := LiveFlowIsKept(site, passages, (Word(payload, 0), Word(payload, 2)), e.now);
  }

  lemma NotArp(frame: bytes)
    requires Ipv4(frame).Some?
    ensures |frame| >= 34 && frame[12..14] != [8, 6]
  {
    assert frame[12..14] == [8, 0];
    assert frame[12..14][1] == 0;
  }

  lemma TimelyBefore(passages: seq<Passage>, e: Passage)
    requires Timely(passages + [e])
    ensures Timely(passages) && forall o | o in passages :: o.now <= e.now
  {
    var all := passages + [e];
    assert forall i | 0 <= i < |passages| :: all[i] == passages[i];
    assert all[|passages|] == e;
  }

  /** A flow that has not expired has been kept going up to now. */
  lemma LiveFlowIsKept(site: Site, passages: seq<Passage>, flow: Flow, now: real) returns (steps: seq<nat>)
    requires Timely(passages) && forall o | o in passages :: o.now <= now
    requires Find(Popped(FlowsAfter(site, passages), now), flow).Some?
    ensures Kept(site, passages, steps, flow) && now <= passages[steps[|steps| - 1]].now + 3600.0
  {
    hide Opens, Replies, FlowsAfter, Timely;
    var flows := FlowsAfter(site, passages);
    FlowsStayOrderly(site, passages, now);
    FlowsGrounded(site, passages, now);
    PoppedOrderly(flows, now);
    FindIsIn(Popped(flows, now), flow);
    var deadline := Find(Popped(flows, now), flow).value;
    assert (flow, deadline) in flows;
    steps :| Kept(site, passages, steps, flow) && deadline == passages[steps[|steps| - 1]].now + FLOW_LIFETIME;
  }

  /* And a flow that is kept going is never interrupted. */

  lemma {:induction false} PoppedFinds(flows: Flows, now: real, flow: Flow)
    requires Find(flows, flow).Some? && now <= Find(flows, flow).value
    ensures Find(Popped(flows, now), flow) == Find(flows, flow)
  {
    if flows != [] && flows[0].1 < now {
      PoppedFinds(flows[1..], now, flow);
    }
  }

  /** No frame takes a live flow out of the table or brings its deadline forward. */
  lemma DecideKeepsFlow(site: Site, flows: Flows, e: Passage, flow: Flow)
    requires Find(Popped(flows, e.now), flow).Some?
    ensures var after := Find(Decide(site, e.policy, flows, e).flows, flow);
            after.Some? && (after.value == Find(Popped(flows, e.now), flow).value || after.value == e.now + FLOW_LIFETIME)
  {
    hide Ipv4, BareSyn, ArpAllowed, Find, Popped, Renew;
    var live, after := Popped(flows, e.now), Decide(site, e.policy, flows, e).flows;
    if after != live {
      var payload := Ipv4(e.frame).value.payload;
      var touched := if e.inbound then (Word(payload, 2), Word(payload, 0)) else (Word(payload, 0), Word(payload, 2));
      FindRenew(live, touched, e.now + FLOW_LIFETIME, flow);
    }
  }

  /** A frame that passes and opens a flow, or one that answers on a live flow, gives it a whole new lifetime. */
  lemma DecideTouches(site: Site, flows: Flows, e: Passage, flow: Flow)
    requires
      || (Opens(site, e, flow) && Decide(site, e.policy, flows, e).allow)
      || (Replies(site, e, flow) && Find(Popped(flows, e.now), flow).Some?)
    ensures Find(Decide(site, e.policy, flows, e).flows, flow) == Some(e.now + FLOW_LIFETIME)
    ensures Decide(site, e.policy, flows, e).allow
  {
    hide BareSyn, ArpAllowed, Find, Popped, Renew;
    NotArp(e.frame);
    FindRenew(Popped(flows, e.now), flow, e.now + FLOW_LIFETIME, flow);
  }

  lemma KeptBefore(site: Site, passages: seq<Passage>, e: Passage, steps: seq<nat>, n: nat, flow: Flow)
    requires Kept(site, passages + [e], steps, flow) && 0 < n <= |steps| && steps[n - 1] < |passages|
    requires forall k | 0 <= k < n :: steps[k] <= steps[n - 1]
    ensures Kept(site, passages, steps[..n], flow)
  {
    hide Opens, Replies, Passed;
    var some := steps[..n];
    forall k | 0 <= k < n
      ensures some[k] < |passages| && (passages + [e])[some[k]] == passages[some[k]] && Passed(site, passages, some[k])
    {
      assert some[k] == steps[k];
      PassedLonger(site, passages, e, steps[k]);
    }
  }

  lemma {:induction false} StepsRise(site: Site, passages: seq<Passage>, steps: seq<nat>, flow: Flow, i: nat, j: nat)
    requires Kept(site, passages, steps, flow) && i <= j < |steps|
    ensures steps[i] <= steps[j]
    decreases j
  {
    hide Opens, Replies, Passed;
    if i < j {
      StepsRise(site, passages, steps, flow, i, j - 1);
    }
  }

  /** What the newest frame of a run has to do with a flow that has been kept going. */
  lemma KeptUnfolds(site: Site, passages: seq<Passage>, e: Passage, steps: seq<nat>, flow: Flow)
    requires Kept(site, passages + [e], steps, flow)
    ensures |steps| > 0
    ensures var n, m := |passages|, |steps| - 1;
            && steps[m] <= n
            && (steps[m] < n ==> Kept(site, passages, steps, flow))
            && (steps[m] == n ==>
                  && Passed(site, passages + [e], n)
                  && (Opens(site, e, flow)
                      || (&& Replies(site, e, flow) && m > 0 && steps[m - 1] < n && Kept(site, passages, steps[..m], flow)
                          && e.now <= passages[steps[m - 1]].now + FLOW_LIFETIME)))
  {
    hide Opens, Replies, Passed;
    var all, m := passages + [e], |steps| - 1;
    forall k | 0 <= k <= m ensures steps[k] <= steps[m] && (k < m ==> steps[k] <= steps[m - 1]) {
      StepsRise(site, all, steps, flow, k, m);
      if k < m {
        StepsRise(site, all, steps, flow, k, m - 1);
      }
    }
    if steps[m] < |passages| {
      KeptBefore(site, passages, e, steps, m + 1, flow);
      assert steps[..m + 1] == steps;
    } else if m > 0 {
      KeptBefore(site, passages, e, steps, m, flow);
    }
  }

  /** A flow that frames have kept going is in the table, with no less than the lifetime since the last of them. */
  lemma {:induction false} KeptIsLive(site: Site, passages: seq<Passage>, steps: seq<nat>, flow: Flow, now: real)
    requires Timely(passages) && Kept(site, passages, steps, flow) && forall o | o in passages :: o.now <= now
    requires now <= passages[steps[|steps| - 1]].now + 3600.0
    ensures Find(FlowsAfter(site, passages), flow).Some?
    ensures passages[steps[|steps| - 1]].now + 3600.0 <= Find(FlowsAfter(site, passages), flow).value
    decreases |passages|
  {
    hide Decide, Opens, Replies, Passed, Timely, Find, Popped, Kept;
    KeptInside(site, passages, steps, flow);
    var n, m := |passages| - 1, |steps| - 1;
    var before, e := passages[..n], passages[n];
    assert passages == before + [e];
    TimelyBefore(before, e);
    KeptUnfolds(site, before, e, steps, flow);
    var flows := FlowsAfter(site, before);
    if steps[m] < n {
      KeptIsLive(site, before, steps, flow, now);
      assert before[steps[m]] in before;
      PoppedFinds(flows, e.now, flow);
      DecideKeepsFlow(site, flows, e, flow);
    } else {
      PassedLast(site, before, e);
      if !Opens(site, e, flow) {
        KeptIsLive(site, before, steps[..m], flow, e.now);
        PoppedFinds(flows, e.now, flow);
      }
      DecideTouches(site, flows, e, flow);
    }
  }

  /**
   * Frames of a flow that has been kept going always pass, from both sides, in every mode and across all changes of
   * the rules: an update never interrupts a forwarded connection.
   */
  lemma KeptFlowsPass(site: Site, passages: seq<Passage>, e: Passage, steps: seq<nat>, flow: Flow)
    requires Timely(passages + [e]) && Kept(site, passages, steps, flow)
    requires e.now <= passages[steps[|steps| - 1]].now + 3600.0
    requires Opens(site, e, flow) || Replies(site, e, flow)
    ensures Decide(site, e.policy, FlowsAfter(site, passages), e).allow
    ensures Find(Decide(site, e.policy, FlowsAfter(site, passages), e).flows, flow) == Some(e.now + 3600.0)
  {
    hide Decide, Opens, Replies, Kept, Find, Popped, Timely, FlowsAfter;
    var flows := FlowsAfter(site, passages);
    TimelyBefore(passages, e);
    KeptIsLive(site, passages, steps, flow, e.now);
    KeptInside(site, passages, steps, flow);
    PoppedFinds(flows, e.now, flow);
    if Opens(site, e, flow) {
      LiveFlowReopens(site, flows, e, flow);
    }
    DecideTouches(site, flows, e, flow);
  }

  lemma KeptInside(site: Site, passages: seq<Passage>, steps: seq<nat>, flow: Flow)
    requires Kept(site, passages, steps, flow)
    ensures |steps| > 0 && steps[|steps| - 1] < |passages|
  {
  }

  /** The limit on flows never refuses a SYN for a flow that is there. */
  lemma LiveFlowReopens(site: Site, flows: Flows, e: Passage, flow: Flow)
    requires Opens(site, e, flow) && Find(Popped(flows, e.now), flow).Some?
    ensures Decide(site, e.policy, flows, e).allow
  {
    hide BareSyn, Find, Popped;
  }

  ghost predicate KeptUpTo(site: Site, passages: seq<Passage>, steps: seq<nat>, flow: Flow, now: real) {
    Kept(site, passages, steps, flow) && now <= passages[steps[|steps| - 1]].now + 3600.0
  }

  /** A guest's reply passes exactly when its flow was opened by the host and has been kept going since. */
  lemma RepliesPassExactly(site: Site, passages: seq<Passage>, e: Passage, flow: Flow)
    requires site.Legal() && e.policy.Legal(site) && !site.KindOf(site.gateway).isGlobal && site.gateway != site.dns
    requires Timely(passages + [e]) && Replies(site, e, flow)
    ensures Decide(site, e.policy, FlowsAfter(site, passages), e).allow <==>
              exists steps: seq<nat> :: KeptUpTo(site, passages, steps, flow, e.now)
  {
    hide Decide, Kept, Timely, FlowsAfter, BareSyn;
    if Decide(site, e.policy, FlowsAfter(site, passages), e).allow {
      var steps := RepliesAreForwarded(site, passages, e);
      KeptInside(site, passages, steps, flow);
      assert KeptUpTo(site, passages, steps, flow, e.now);
    } else if steps: seq<nat> :| KeptUpTo(site, passages, steps, flow, e.now) {
      KeptFlowsPass(site, passages, e, steps, flow);
    }
  }

  /** An address outside this host, no special one, and of ICMP only an echo request. */
  predicate Outward(site: Site, p: Packet)
    requires |p.payload| >= 8
  {
    && !site.Local(p.dst)
    && !site.KindOf(p.dst).isMulticast && !site.KindOf(p.dst).isUnspecified && !site.KindOf(p.dst).isReserved
    && (p.proto == ICMP ==> p.payload[..2] == [8, 0])
  }

  predicate ToResolver(site: Site, p: Packet)
    requires |p.payload| >= 8
  {
    p.dst == site.dns && p.proto in {TCP, UDP} && Word(p.payload, 2) == DNS_PORT
  }

  /** What each mode opens besides forwarded flows. */
  predicate Permitted(site: Site, policy: Policy, p: Packet, admits: bool)
    requires |p.payload| >= 8 && |p.dst| == 4
  {
    match policy.mode
    case Offline => false
    case Proxy => p.proto == TCP && (p.dst, Word(p.payload, 2)) in policy.proxies
    case AllowList => ToResolver(site, p) || (admits && Outward(site, p))
    case Internet =>
      || ToResolver(site, p)
      || (Outward(site, p) && (site.KindOf(p.dst).isGlobal || AL.Inside(p.dst, policy.allowed)))
  }

  /** A packet of the guest passes exactly as a reply on a live flow or because the mode permits it. */
  lemma GuestIsBounded(site: Site, policy: Policy, flows: Flows, e: Passage)
    requires !e.inbound && Ipv4(e.frame).Some?
    ensures
      var p := Ipv4(e.frame).value;
      && (Decide(site, policy, flows, e).allow <==>
            && p.src == site.guest
            && (|| Permitted(site, policy, p, e.admits)
                || exists flow :: Replies(site, e, flow) && Find(Popped(flows, e.now), flow).Some?))
      && (Decide(site, policy, flows, e).allow && !Permitted(site, policy, p, e.admits) ==>
            Decide(site, policy, flows, e).reason == ForwardReply)
  {
    hide BareSyn, ArpAllowed, Find, Popped;
    NotArp(e.frame);
    var p := Ipv4(e.frame).value;
    if p.proto == TCP && p.src == site.guest && p.dst == site.gateway && !BareSyn(p.payload) {
      assert Replies(site, e, (Word(p.payload, 0), Word(p.payload, 2)));
    }
  }
}
