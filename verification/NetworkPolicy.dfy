/** The policy object on a sandbox's link: it keeps the flow table and feeds the allowlist while it decides. */
module NetworkPolicy {
  import opened Bytes
  import opened Ordered
  import opened Egress
  import AL = Allowlist
  import AD = Admission
  import T = Traffic

  datatype Config = Config(site: Site, mode: Mode, networks: seq<AL.Network>, names: seq<bytes>,
                           allowed: seq<AL.Network>, endpoints: seq<(bytes, nat)>)
  {
    predicate EndpointOk(e: (bytes, nat)) {
      |e.0| == 4 && site.KindOf(e.0).isGlobal && 1 <= e.1 <= 65535 && e.0 !in site.hosts
    }

    /** The constructor raises no error. */
    ghost predicate Accepted() {
      && (forall e | e in endpoints ::
            |e.0| == 4 && site.kinds(e.0).isGlobal && 1 <= e.1 <= 65535 && e.0 !in site.hosts)
      && (mode == Proxy ==> endpoints != [] && allowed == [])
    }
  }

  function Counted(counts: map<(bool, Reason), nat>, v: Verdict): map<(bool, Reason), nat> {
    var key := (v.allow, v.reason);
    counts[key := 1 + if key in counts then counts[key] else 0]
  }

  /** Exactly the counter of the decision and its reason goes up, by one. */
  lemma CountedExactly(counts: map<(bool, Reason), nat>, v: Verdict, key: (bool, Reason))
    ensures var before, after := if key in counts then counts[key] else 0,
                                 if key in Counted(counts, v) then Counted(counts, v)[key] else 0;
            after == before + if key == (v.allow, v.reason) then 1 else 0
  {
  }

  class NetworkPolicy {
    const site: Site
    var mode: Mode
    var allowed: seq<AL.Network>
    var proxies: set<(bytes, nat)>
    var allowlist: AL.Allowlist
    var flows: Flows
    var counts: map<(bool, Reason), nat>
    ghost var passages: seq<Passage>
    ghost var updated: nat
    ghost var marks: seq<nat>

    function InForce(): Policy
      reads this
    {
      Policy(mode, allowed, proxies)
    }

    ghost predicate Valid()
      reads this, allowlist
    {
      && site.Legal() && InForce().Legal(site)
      && allowlist.Valid()
      && Timely(passages) && (forall e | e in passages :: e.policy.Legal(site))
      && flows == FlowsAfter(site, passages)
      && Heeded()
    }

    /** The allowlist has heard the frames since the last update, which the rules in force decided. */
    ghost predicate Heeded()
      reads this, allowlist
    {
      && T.Followed(site, passages, updated, allowlist.networks, allowlist.names, allowlist.streams, allowlist.events, marks)
      && forall k | updated <= k < |passages| :: passages[k].policy == InForce()
    }

    /** The clock does not run backwards. */
    ghost predicate Reached(now: real)
      reads this
    {
      0.0 < now && forall e | e in passages :: e.now <= now
    }

    constructor Make(config: Config, proxies: set<(bytes, nat)>)
      requires config.site.Legal() && Policy(config.mode, config.allowed, proxies).Legal(config.site)
      ensures Valid() && fresh(allowlist) && site == config.site && flows == [] && passages == []
      ensures InForce() == Policy(config.mode, config.allowed, proxies)
      ensures allowlist.networks == config.networks && allowlist.names == config.names && allowlist.events == []
      ensures allowlist.streams == []
    {
      site, mode, allowed, this.proxies := config.site, config.mode, config.allowed, proxies;
      allowlist := new AL.Allowlist(config.networks, config.names);
      flows, counts, passages, updated, marks := [], map[], [], 0, [];
      new;
      T.NothingFollowed(site, passages, allowlist.networks, allowlist.names);
    }

    static method Build(config: Config) returns (r: Option<NetworkPolicy>)
      requires config.site.Legal()
      ensures r.Some? <==> config.Accepted()
      ensures r.Some? ==>
                && fresh(r.value) && fresh(r.value.allowlist) && r.value.Valid() && r.value.site == config.site
                && r.value.InForce() == Policy(config.mode, config.allowed, set e | e in config.endpoints)
                && r.value.allowlist.networks == config.networks && r.value.allowlist.names == config.names
                && r.value.allowlist.events == [] && r.value.allowlist.streams == [] && r.value.flows == [] && r.value.passages == []
    {
      var proxies: set<(bytes, nat)> := {};
      for i := 0 to |config.endpoints|
        invariant forall k | 0 <= k < i :: config.EndpointOk(config.endpoints[k])
        invariant proxies == set e | e in config.endpoints[..i]
      {
        if !config.EndpointOk(config.endpoints[i]) {
          assert config.endpoints[i] in config.endpoints;
          return None;
        }
        proxies := proxies + {config.endpoints[i]};
        assert config.endpoints[..i + 1] == config.endpoints[..i] + [config.endpoints[i]];
      }
      assert config.endpoints[..|config.endpoints|] == config.endpoints;
      assert proxies == {} <==> config.endpoints == [] by {
        if config.endpoints != [] {
          assert config.endpoints[0] in proxies;
        }
      }
      if config.mode == Proxy && (proxies == {} || config.allowed != []) {
        return None;
      }
      var policy := new NetworkPolicy.Make(config, proxies);
      return Some(policy);
    }

    /** Replaces the egress rules and the allowlist; the forwarded flows and the addresses of the link stay. */
    method Update(config: Config) returns (ok: bool)
      requires Valid() && config.site.Legal() && config.site.kinds == site.kinds
      modifies this`mode, this`allowed, this`proxies, this`allowlist, this`updated, this`marks
      ensures Valid() && ok == config.Accepted()
      ensures ok ==> InForce() == Policy(config.mode, config.allowed, set e | e in config.endpoints)
      ensures ok ==> fresh(allowlist) && allowlist.names == config.names && allowlist.networks == config.networks
                     && allowlist.events == [] && updated == |passages|
      ensures !ok ==> InForce() == old(InForce()) && allowlist == old(allowlist)
    {
      hide FlowsAfter, Timely, T.Followed;
      var replacement := Build(config);
      if replacement.None? {
        return false;
      }
      mode, allowed, proxies := replacement.value.mode, replacement.value.allowed, replacement.value.proxies;
      allowlist := replacement.value.allowlist;
      updated, marks := |passages|, [];
      T.NothingFollowed(site, passages, allowlist.networks, allowlist.names);
      return true;
    }

    /** The allowlist's word on the far address of a packet, before the frame is processed. */
    ghost predicate Admits(frame: bytes, inbound: bool, now: real)
      reads this, allowlist
    {
      T.Admits(allowlist.networks, allowlist.names, allowlist.events, frame, inbound, now)
    }

    twostate predicate Noticed(notice: Notice, now: real)
      reads this, allowlist
    {
      allowlist == old(allowlist) &&
      match notice
      case Nothing => allowlist.events == old(allowlist.events) && allowlist.streams == old(allowlist.streams)
      case Datagram(data, port, response) =>
        && allowlist.events == old(allowlist.events) + [AD.Observed(data, port, response, now)]
        && allowlist.streams == old(allowlist.streams)
      case Stream(payload, port, response) =>
        var p := AL.Packet(payload, port, response, now);
        && p.Parsed()
        && allowlist.streams == AL.TcpStep(old(allowlist.streams), p).0
        && allowlist.events == old(allowlist.events) + AL.Observations(AL.TcpStep(old(allowlist.streams), p).1, p)
    }

    method Expire(now: real)
      modifies this`flows
      ensures flows == Popped(old(flows), now)
    {
      while flows != [] && flows[0].1 < now
        invariant Popped(flows, now) == Popped(old(flows), now)
      {
        flows := flows[1..];
      }
    }

    method AllowInbound(frame: bytes, now: real) returns (v: Verdict)
      requires allowlist.Valid() && 0.0 < now
      modifies this`flows, allowlist
      ensures allowlist.Valid()
      ensures v == DecideInbound(site, InForce(), old(flows), frame, now, old(Admits(frame, true, now)))
      ensures flows == v.flows && Noticed(v.notice, now)
    {
      hide AD.Admitted, BareSyn, AL.TcpStep, Renew, Find;
      var packet := Ipv4(frame);
      if packet.Some? {
        var Packet(src, dst, proto, payload) := packet.value;
        if src == site.gateway && dst == site.guest && proto == TCP {
          var sport, dport := Word(payload, 0), Word(payload, 2);
          if dport in site.ports && BareSyn(payload) {
            var key := (dport, sport);
            if Find(flows, key).None? && |flows| >= MAX_FLOWS {
              return Verdict(false, FlowLimit, flows, Nothing);
            }
            flows := Renew(flows, key, now + FLOW_LIFETIME);
          }
          if dport in site.ports {
            return Verdict(true, Forward, flows, Nothing);
          }
        }
        if mode == Offline {
          return Verdict(false, OfflineMode, flows, Nothing);
        }
        if mode == AllowList {
          if src == site.dns && proto in {TCP, UDP} && Word(payload, 0) == DNS_PORT {
            if proto == UDP {
              allowlist.Observe(payload[8..], Word(payload, 2), true, now);
              return Verdict(true, Dns, flows, Datagram(payload[8..], Word(payload, 2), true));
            }
            allowlist.ObserveTcp(AL.Packet(payload, Word(payload, 2), true, now));
            return Verdict(true, Dns, flows, Stream(payload, Word(payload, 2), true));
          }
          var admits := allowlist.Allows(src, now);
          return Verdict(admits, Listed, flows, Nothing);
        }
      }
      return Verdict(true, Inbound, flows, Nothing);
    }

    method AllowGuest(p: Packet, now: real, ghost admits: bool) returns (v: Verdict)
      requires allowlist.Valid() && 0.0 < now && |p.dst| == 4 && p.proto in {TCP, UDP, ICMP}
      requires |p.payload| >= (if p.proto == TCP then 20 else 8)
      requires admits == (AL.Inside(p.dst, allowlist.networks)
                          || AD.Admitted(allowlist.names, allowlist.events, p.dst, now))
      modifies this`flows, allowlist
      ensures allowlist.Valid()
      ensures v == DecideGuest(site, InForce(), old(flows), p, now, admits)
      ensures flows == v.flows && Noticed(v.notice, now)
    {
      hide AD.Admitted, BareSyn, AL.TcpStep, Renew, Find;
      var Packet(_, dst, proto, payload) := p;
      if proto in {TCP, UDP} {
        var sport, dport := Word(payload, 0), Word(payload, 2);
        if proto == TCP && dst == site.gateway {
          var key := (sport, dport);
          if Find(flows, key).Some? && !BareSyn(payload) {
            flows := Renew(flows, key, now + FLOW_LIFETIME);
            return Verdict(true, ForwardReply, flows, Nothing);
          }
        }
        if mode in {Internet, AllowList} && dst == site.dns && dport == DNS_PORT {
          if mode == AllowList && proto == UDP {
            allowlist.Observe(payload[8..], sport, false, now);
            return Verdict(true, Dns, flows, Datagram(payload[8..], sport, false));
          } else if mode == AllowList {
            allowlist.ObserveTcp(AL.Packet(payload, sport, false, now));
            return Verdict(true, Dns, flows, Stream(payload, sport, false));
          }
          return Verdict(true, Dns, flows, Nothing);
        }
      }
      if mode == Offline {
        return Verdict(false, OfflineMode, flows, Nothing);
      }
      if mode == Proxy {
        return Verdict(proto == TCP && (dst, Word(payload, 2)) in proxies, ProxyEndpoint, flows, Nothing);
      }
      if site.Local(dst) {
        return Verdict(false, Host, flows, Nothing);
      }
      if mode == AllowList {
        var listed := allowlist.Allows(dst, now);
        if !listed {
          return Verdict(false, Listed, flows, Nothing);
        }
      }
      var kind := site.KindOf(dst);
      if mode != AllowList && !kind.isGlobal && !AL.Inside(dst, allowed) {
        return Verdict(false, NonPublic, flows, Nothing);
      }
      if kind.isMulticast || kind.isUnspecified || kind.isReserved {
        return Verdict(false, Special, flows, Nothing);
      }
      if proto == ICMP && payload[..2] != [8, 0] {
        return Verdict(false, IcmpType, flows, Nothing);
      }
      return Verdict(true, Reason.Egress, flows, Nothing);
    }

    method AllowOutbound(frame: bytes, now: real) returns (v: Verdict)
      requires allowlist.Valid() && 0.0 < now
      modifies this`flows, allowlist
      ensures allowlist.Valid()
      ensures v == DecideOutbound(site, InForce(), old(flows), frame, now, old(Admits(frame, false, now)))
      ensures flows == v.flows && Noticed(v.notice, now)
    {
      hide AD.Admitted, DecideGuest;
      if |frame| >= 42 && frame[12..14] == [8, 6] {
        return Verdict(ArpAllowed(site, frame[14..42]), Arp, flows, Nothing);
      }
      var packet := Ipv4(frame);
      if packet.None? {
        return Verdict(false, Unsupported, flows, Nothing);
      }
      if packet.value.src != site.guest {
        return Verdict(false, SourceSpoof, flows, Nothing);
      }
      v := AllowGuest(packet.value, now, Admits(frame, false, now));
    }

    /** Resolving the allowlist's exact rules in advance leaves what it has heard as it is. */
    method Resolve(resolved: map<bytes, AL.Found>)
      requires Valid() && forall name | name in resolved :: AL.Positive(resolved[name])
      modifies allowlist
      ensures Valid() && allowlist.events == old(allowlist.events) + AL.Seeds(allowlist.names, resolved)
    {
      hide T.Followed;
      allowlist.Resolve(resolved);
      ghost var seeds := AL.Seeds(allowlist.names, resolved);
      AL.SeedsAreSeeded(allowlist.names, resolved);
      T.FollowedSeeded(site, passages, updated, allowlist.networks, allowlist.names, allowlist.streams,
                       old(allowlist.events), marks, seeds);
    }

    /** The decision alone, with the flow table rid of every expired flow. */
    method Judge(frame: bytes, inbound: bool, now: real) returns (v: Verdict)
      requires allowlist.Valid() && 0.0 < now
      modifies this`flows, allowlist
      ensures allowlist.Valid()
      ensures v == Decide(site, InForce(), old(flows),
                          Passage(InForce(), frame, inbound, now, old(Admits(frame, inbound, now))))
      ensures flows == v.flows && Noticed(v.notice, now)
      ensures T.Hear((old(allowlist.streams), old(allowlist.events)), v.notice, now) == (allowlist.streams, allowlist.events)
    {
      hide AD.Admitted, DecideInbound, DecideOutbound, AL.TcpStep, AL.Observations, AL.Inside, Ipv4, Popped, T.Admits;
      Expire(now);
      if inbound {
        v := AllowInbound(frame, now);
      } else {
        v := AllowOutbound(frame, now);
      }
    }

    /**
     * Decides on a frame as the policy in force says, with the flow table rid of every expired flow and the
     * allowlist's answer on the far address at that moment.
     */
    method Allow(frame: bytes, inbound: bool, now: real) returns (decision: bool)
      requires Valid() && Reached(now)
      modifies this`flows, this`counts, this`passages, this`marks, allowlist
      ensures Valid() && Reached(now)
      ensures
        var e := Passage(old(InForce()), frame, inbound, now, old(Admits(frame, inbound, now)));
        var v := Decide(site, e.policy, old(flows), e);
        && passages == old(passages) + [e]
        && decision == v.allow && flows == v.flows && counts == Counted(old(counts), v)
        && Noticed(v.notice, now)
    {
      hide Decide, AL.TcpStep, AL.Observations, FlowsAfter, Timely, Counted, T.Followed, T.Admits, T.Hear;
      ghost var e := Passage(InForce(), frame, inbound, now, Admits(frame, inbound, now));
      PassagesGrow(site, passages, e);
      var v := Judge(frame, inbound, now);
      counts := Counted(counts, v);
      T.FollowedNext(site, passages, updated, allowlist.networks, allowlist.names, old(allowlist.streams),
                     old(allowlist.events), marks, e, allowlist.streams, allowlist.events);
      passages, marks := passages + [e], marks + [|old(allowlist.events)|];
      decision := v.allow;
    }
  }

  lemma PassagesGrow(site: Site, passages: seq<Passage>, e: Passage)
    requires Timely(passages) && forall o | o in passages :: o.now <= e.now
    ensures Timely(passages + [e])
    ensures FlowsAfter(site, passages + [e]) == Decide(site, e.policy, FlowsAfter(site, passages), e).flows
  {
    hide Decide;
    assert (passages + [e])[..|passages|] == passages;
    forall i, j | 0 <= i < j < |passages + [e]| ensures (passages + [e])[i].now <= (passages + [e])[j].now {
      if j == |passages| {
        assert passages[i] in passages;
      }
    }
  }
}
