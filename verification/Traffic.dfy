/** What an allowlist has heard: exactly the DNS traffic that its policy let through since it came into force. */
module Traffic {
  import opened Bytes
  import opened Packets
  import opened Egress
  import opened EgressWire
  import AL = Allowlist
  import AD = Admission
  import Cname
  import DnsMessage

  /** An allowlist's streams, and the DNS messages it has observed. */
  type Hearing = (AL.Streams, seq<AD.Event>)

  function Hear(h: Hearing, notice: Notice, now: real): Hearing {
    match notice
    case Nothing => h
    case Datagram(data, port, response) => (h.0, h.1 + [AD.Observed(data, port, response, now)])
    case Stream(payload, port, response) =>
      var p := AL.Packet(payload, port, response, now);
      if !p.Parsed() then h
      else (AL.TcpStep(h.0, p).0, h.1 + AL.Observations(AL.TcpStep(h.0, p).1, p))
  }

  function VerdictAt(site: Site, passages: seq<Passage>, k: nat): Verdict
    requires k < |passages|
  {
    Decide(site, passages[k].policy, FlowsAfter(site, passages[..k]), passages[k])
  }

  /** What the frames from `start` on have let an allowlist hear. */
  function Heard(site: Site, passages: seq<Passage>, start: nat): Hearing
    requires start <= |passages|
    decreases |passages|
  {
    if |passages| == start then ([], [])
    else
      var n := |passages| - 1;
      Hear(Heard(site, passages[..n], start), VerdictAt(site, passages, n).notice, passages[n].now)
  }

  /** The observed messages of a history, without the addresses that were resolved in advance. */
  function Messages(events: seq<AD.Event>): seq<AD.Event> {
    if events == [] then []
    else Messages(events[..|events| - 1]) + if events[|events| - 1].Observed? then [events[|events| - 1]] else []
  }

  /** The allowlist's word on the far address of a frame. */
  ghost predicate Admits(networks: seq<AL.Network>, names: seq<bytes>, events: seq<AD.Event>, frame: bytes, inbound: bool,
                         now: real)
  {
    Ipv4(frame).Some? &&
    var far := if inbound then Ipv4(frame).value.src else Ipv4(frame).value.dst;
    AL.Inside(far, networks) || AD.Admitted(names, events, far, now)
  }

  /** Frame `k` was decided when the history was at its mark, and by what the events up to there admit. */
  ghost predicate DecidedBy(site: Site, passages: seq<Passage>, start: nat, networks: seq<AL.Network>, names: seq<bytes>,
                            events: seq<AD.Event>, marks: seq<nat>, k: nat)
    requires start <= k < |passages| && k - start < |marks|
  {
    var mark := marks[k - start];
    && mark <= |events|
    && Messages(events[..mark]) == Heard(site, passages[..k], start).1
    && passages[k].admits ==
       Admits(networks, names, events[..mark], passages[k].frame, passages[k].inbound, passages[k].now)
  }

  /** The history of an allowlist is that of the frames from `start` on; `marks` tell how they interleave. */
  ghost predicate Followed(site: Site, passages: seq<Passage>, start: nat, networks: seq<AL.Network>, names: seq<bytes>,
                           streams: AL.Streams, events: seq<AD.Event>, marks: seq<nat>)
  {
    && start <= |passages| && |marks| == |passages| - start
    && (streams, Messages(events)) == Heard(site, passages, start)
    && forall k: nat | start <= k < |passages| :: DecidedBy(site, passages, start, networks, names, events, marks, k)
  }

  lemma {:induction false} MessagesAppend(events: seq<AD.Event>, more: seq<AD.Event>)
    ensures Messages(events + more) == Messages(events) + Messages(more)
    decreases |more|
  {
    if more == [] {
      assert events + more == events && Messages(events) + [] == Messages(events);
    } else {
      var n := |more| - 1;
      var last := if more[n].Observed? then [more[n]] else [];
      assert (events + more)[..|events + more| - 1] == events + more[..n];
      MessagesAppend(events, more[..n]);
      assert Messages(events) + Messages(more[..n]) + last == Messages(events) + (Messages(more[..n]) + last);
    }
  }

  lemma {:induction false} AllMessages(events: seq<AD.Event>)
    requires forall e | e in events :: e.Observed?
    ensures Messages(events) == events
  {
    if events != [] {
      AllMessages(events[..|events| - 1]);
      assert events == events[..|events| - 1] + [events[|events| - 1]];
    }
  }

  lemma {:induction false} NoMessages(events: seq<AD.Event>)
    requires forall e | e in events :: e.Seeded?
    ensures Messages(events) == []
  {
    if events != [] {
      NoMessages(events[..|events| - 1]);
      assert events[|events| - 1] in events;
    }
  }

  lemma {:induction false} ObservationsAreMessages(messages: seq<bytes>, p: AL.Packet)
    ensures forall e | e in AL.Observations(messages, p) :: e.Observed?
  {
    if messages != [] {
      ObservationsAreMessages(messages[1..], p);
    }
  }

  /** The events a frame adds are observed messages. */
  lemma HearAdds(h: Hearing, notice: Notice, now: real) returns (added: seq<AD.Event>)
    ensures Hear(h, notice, now).1 == h.1 + added && Messages(added) == added
    ensures forall before: Hearing | before.0 == h.0 :: Hear(before, notice, now) == (Hear(h, notice, now).0, before.1 + added)
  {
    hide AL.TcpStep, AL.Observations;
    match notice {
      case Nothing =>
        added := [];
        assert h.1 + [] == h.1;
        assert forall before: seq<AD.Event> :: before + [] == before;
      case Datagram(data, port, response) =>
        added := [AD.Observed(data, port, response, now)];
      case Stream(payload, port, response) =>
        var p := AL.Packet(payload, port, response, now);
        if p.Parsed() {
          added := AL.Observations(AL.TcpStep(h.0, p).1, p);
          ObservationsAreMessages(AL.TcpStep(h.0, p).1, p);
        } else {
          added := [];
          assert forall before: seq<AD.Event> :: before + [] == before;
        }
    }
    AllMessages(added);
  }

  lemma DecidedByLonger(site: Site, passages: seq<Passage>, e: Passage, start: nat, networks: seq<AL.Network>,
                        names: seq<bytes>, events: seq<AD.Event>, more: seq<AD.Event>, marks: seq<nat>, last: nat, k: nat)
    requires start <= k < |passages| && k - start < |marks|
    requires DecidedBy(site, passages, start, networks, names, events, marks, k)
    ensures DecidedBy(site, passages + [e], start, networks, names, events + more, marks + [last], k)
  {
    hide Heard, Messages, Admits;
    var mark := marks[k - start];
    assert (marks + [last])[k - start] == mark && (passages + [e])[k] == passages[k];
    assert (passages + [e])[..k] == passages[..k] && (events + more)[..mark] == events[..mark];
  }

  /** One more frame: what it lets the allowlist hear goes to the end of the history. */
  lemma FollowedNext(site: Site, passages: seq<Passage>, start: nat, networks: seq<AL.Network>, names: seq<bytes>,
                     streams: AL.Streams, events: seq<AD.Event>, marks: seq<nat>, e: Passage, streams': AL.Streams,
                     events': seq<AD.Event>)
    requires Followed(site, passages, start, networks, names, streams, events, marks)
    requires e.admits == Admits(networks, names, events, e.frame, e.inbound, e.now)
    requires (streams', events') ==
             Hear((streams, events), Decide(site, e.policy, FlowsAfter(site, passages), e).notice, e.now)
    ensures Followed(site, passages + [e], start, networks, names, streams', events', marks + [|events|])
  {
    hide Admits, Decide, Messages, DecidedBy, Hear;
    var all, n := passages + [e], |passages|;
    var notice := Decide(site, e.policy, FlowsAfter(site, passages), e).notice;
    assert VerdictAt(site, all, n).notice == notice by {
      assert all[..n] == passages;
    }
    assert all[..n] == passages && all[n] == e;
    var added := HearAdds((streams, events), notice, e.now);
    assert Hear((streams, Messages(events)), notice, e.now) == (streams', Messages(events) + added);
    MessagesAppend(events, added);
    forall k: nat | start <= k < |all|
      ensures DecidedBy(site, all, start, networks, names, events', marks + [|events|], k)
    {
      if k < n {
        DecidedByLonger(site, passages, e, start, networks, names, events, added, marks, |events|, k);
      } else {
        DecidedLast(site, passages, e, start, networks, names, events, added, marks);
      }
    }
  }

  lemma DecidedLast(site: Site, passages: seq<Passage>, e: Passage, start: nat, networks: seq<AL.Network>,
                    names: seq<bytes>, events: seq<AD.Event>, added: seq<AD.Event>, marks: seq<nat>)
    requires start <= |passages| && |marks| == |passages| - start && Messages(events) == Heard(site, passages, start).1
    requires e.admits == Admits(networks, names, events, e.frame, e.inbound, e.now)
    ensures DecidedBy(site, passages + [e], start, networks, names, events + added, marks + [|events|], |passages|)
  {
    hide Heard, Messages, Admits;
    assert (passages + [e])[..|passages|] == passages && (events + added)[..|events|] == events;
  }

  /** An address that is resolved in advance leaves the observed messages as they are. */
  lemma FollowedSeeded(site: Site, passages: seq<Passage>, start: nat, networks: seq<AL.Network>, names: seq<bytes>,
                       streams: AL.Streams, events: seq<AD.Event>, marks: seq<nat>, seeds: seq<AD.Event>)
    requires Followed(site, passages, start, networks, names, streams, events, marks)
    requires forall e | e in seeds :: e.Seeded?
    ensures Followed(site, passages, start, networks, names, streams, events + seeds, marks)
  {
    hide Heard, Messages, Admits;
    NoMessages(seeds);
    MessagesAppend(events, seeds);
    assert Messages(events) + [] == Messages(events);
    forall k: nat | start <= k < |passages|
      ensures DecidedBy(site, passages, start, networks, names, events + seeds, marks, k)
    {
      assert DecidedBy(site, passages, start, networks, names, events, marks, k);
      assert (events + seeds)[..marks[k - start]] == events[..marks[k - start]];
    }
  }

  /* Where a message came from. */

  /** Frame `q` was let through as DNS traffic with the resolver, and carried or completed the message. */
  ghost predicate Brought(site: Site, passages: seq<Passage>, start: nat, q: nat, e: AD.Event)
    requires start <= q < |passages|
  {
    var v := VerdictAt(site, passages, q);
    && v.allow && v.reason == Dns && e in Hear((Heard(site, passages[..q], start).0, []), v.notice, passages[q].now).1
  }

  lemma NoticeIsDns(site: Site, policy: Policy, flows: Flows, e: Passage)
    ensures var v := Decide(site, policy, flows, e);
            v.notice != Nothing ==> v.allow && v.reason == Dns && policy.mode == AllowList
  {
    hide Ipv4, BareSyn, ArpAllowed;
  }

  lemma {:induction false} HeardWasBrought(site: Site, passages: seq<Passage>, start: nat, e: AD.Event) returns (q: nat)
    requires start <= |passages| && e in Heard(site, passages, start).1
    ensures start <= q < |passages| && Brought(site, passages, start, q, e)
    decreases |passages|
  {
    hide Hear, Decide;
    var n := |passages| - 1;
    var before := passages[..n];
    var h, v := Heard(site, before, start), VerdictAt(site, passages, n);
    var added := HearAdds((h.0, []), v.notice, passages[n].now);
    assert Hear(h, v.notice, passages[n].now) == (Hear((h.0, []), v.notice, passages[n].now).0, h.1 + added);
    assert [] + added == added;
    if e in h.1 {
      q := HeardWasBrought(site, before, start, e);
      assert before[..q] == passages[..q] && before[q] == passages[q];
    } else {
      q := n;
      NoticeIsDns(site, passages[n].policy, FlowsAfter(site, before), passages[n]);
      HearNothing((h.0, []), passages[n].now);
    }
  }

  lemma HearNothing(h: Hearing, now: real)
    ensures Hear(h, Nothing, now) == h
  {
  }

  lemma {:induction false} MessageIsThere(events: seq<AD.Event>, i: nat)
    requires i < |events| && events[i].Observed?
    ensures events[i] in Messages(events)
  {
    if i < |events| - 1 {
      MessageIsThere(events[..|events| - 1], i);
    }
  }

  /**
   * Over every run of frames since an allowlist came into force: a packet of the guest that passes is plain and carries
   * the guest's address. It replies on a live flow, or asks the resolver, or goes abroad to an address that a configured
   * network holds, that was resolved in advance, or that a response justifies which an earlier frame of this very run
   * brought.
   */
  lemma EgressIsJustified(site: Site, passages: seq<Passage>, start: nat, networks: seq<AL.Network>, names: seq<bytes>,
                          streams: AL.Streams, events: seq<AD.Event>, marks: seq<nat>, k: nat, ip: Ip)
    returns (i: nat, path: seq<Cname.Answer>, r: Cname.Answer, q: nat)
    requires Followed(site, passages, start, networks, names, streams, events, marks) && AD.Plausible(names, events)
    requires start <= k < |passages| && 0.0 < passages[k].now
    requires passages[k].policy.mode == AllowList && !passages[k].inbound
    requires ip.Legal() && passages[k].frame == ip.Octets()
    requires VerdictAt(site, passages, k).allow
    ensures Plain(ip) && ip.source == site.guest && |ip.payload| >= 8
    ensures
      || RepliesOn(site, Popped(FlowsAfter(site, passages[..k]), passages[k].now), ip)
      || AsksResolver(site, ip)
      || (Abroad(site, ip) && exists n | n in networks :: n.low <= Long(ip.destination, 0) <= n.high)
      || (&& Abroad(site, ip) && AD.Justified(names, events, ip.destination, passages[k].now, i, path, r)
          && (events[i].Seeded? || (start <= q < k && Brought(site, passages[..k], start, q, events[i]))))
  {
    hide Heard, Decide, AD.Admitted, AD.Justified, AD.Plausible, Ipv4, Abroad, AsksResolver, Messages, Brought, Ip.Octets,
         Plain, RepliesOn;
    i, path, r, q := 0, [], Cname.Address([], 0, []), 0;
    EgressIsBounded(site, passages[k].policy, FlowsAfter(site, passages[..k]), passages[k], ip);
    ParsesExactly(ip);
    assert DecidedBy(site, passages, start, networks, names, events, marks, k);
    var before, far := events[..marks[k - start]], ip.destination;
    PlausibleBefore(names, events, marks[k - start]);
    if AD.Admitted(names, before, far, passages[k].now) {
      i, path, r := AD.AdmissionIsJustified(names, before, far, passages[k].now);
      JustifiedLonger(names, events, marks[k - start], far, passages[k].now, i, path, r);
      if events[i].Observed? {
        MessageIsThere(before, i);
        q := HeardWasBrought(site, passages[..k], start, events[i]);
      }
    }
  }

  lemma PlausibleBefore(names: seq<bytes>, events: seq<AD.Event>, n: nat)
    requires AD.Plausible(names, events) && n <= |events|
    ensures AD.Plausible(names, events[..n])
  {
    assert forall e | e in events[..n] :: e in events;
  }

  lemma JustifiedLonger(names: seq<bytes>, events: seq<AD.Event>, n: nat, address: bytes, now: real, i: nat,
                        path: seq<Cname.Answer>, r: Cname.Answer)
    requires n <= |events| && AD.Justified(names, events[..n], address, now, i, path, r)
    ensures i < n && AD.Justified(names, events, address, now, i, path, r)
  {
    hide AD.Uses, AD.Vouches;
    assert events[..n][i] == events[i];
    if events[i].Observed? {
      var key := AD.KeyOf(events[i].port, DnsMessage.Asked(events[i].data, true, names).value);
      var j: nat :| AD.Uses(names, events[..n], j, i, key);
      AD.UsesLonger(names, events, n, j, i, key);
    }
  }

  lemma NothingFollowed(site: Site, passages: seq<Passage>, networks: seq<AL.Network>, names: seq<bytes>)
    ensures Followed(site, passages, |passages|, networks, names, [], [], [])
  {
  }
}
