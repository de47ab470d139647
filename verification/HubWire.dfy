/** What the hub does with a datagram, from the packet its sender wrote. */
module HubWire {
  import opened Bytes
  import opened Packets
  import opened DnsName
  import opened Cname
  import opened DnsMessage
  import opened DnsRecords
  import opened Router
  import opened RouterWire
  import opened ServiceWire
  import opened Hub
  import SD = ServiceDns

  /* Who sent it. */

  /**
   * A remembered sender stands for the socket it is remembered for; any other for its own, if that is registered, and
   * else for the socket its name resolves to, if it has a name and that one is registered.
   */
  lemma SenderExactly(t: Tables, origin: Path, resolved: Path, p: Path)
    requires Consistent(t)
    ensures Sender(t, origin, resolved) == Some(p) <==>
              && p in t.members
              && (if origin in t.origins then p == t.origins[origin]
                  else p == origin || (origin !in t.members && origin != "" && p == resolved))
  {
    hide Mirrored, Named, Exclusive;
  }

  /** What is remembered changes nothing for a sender: it is the same the next time, whatever its name resolves to. */
  lemma SenderIsRemembered(t: Tables, origin: Path, resolved: Path, other: Path)
    requires Consistent(t) && Sender(t, origin, resolved).Some?
    ensures Sender(Learned(t, origin, resolved), origin, other) == Sender(t, origin, resolved)
  {
    hide Mirrored, Named, Exclusive;
  }

  /* Where it goes. */

  /** The member a packet is for: in the sender's group, with the packet's destination, on a network they share. */
  ghost predicate Reaches(t: Tables, from: Path, to: Path, destination: bytes) {
    && from in t.members && to in t.members
    && t.members[to].identity == t.members[from].identity && t.members[to].address == destination
    && exists n :: n in t.members[from].networks && n in t.members[to].networks
  }

  /** Translation carries the packet: it names the guest as its source and holds the checksum it should. */
  predicate Carries(ip: Ip) {
    && ip.source == [10, 0, 2, 15]
    && (ip.offset == 0 && ip.protocol == 6 ==> |ip.payload| >= 18)
    && (ip.offset == 0 && ip.protocol == 17 ==> |ip.payload| >= 8)
  }

  lemma RouteReaches(t: Tables, from: Path, to: Path, destination: bytes)
    requires Consistent(t) && from in t.members
    ensures t.members[from].identity in t.groups
    ensures var routes := t.groups[t.members[from].identity];
            Reaches(t, from, to, destination) <==>
            destination in routes && Share(t.members[from].networks, routes[destination].networks) && routes[destination].path == to
  {
    hide Named, Exclusive, Resolved;
    assert MemberOk(t, from) && MemberOk(t, to);
    var g := t.members[from].identity;
    if destination in t.groups[g] {
      assert RouteOk(t, g, destination);
    }
  }

  /**
   * A packet is delivered exactly to the member it reaches, if translation carries it: from the sender's address in the
   * group, to the guest address of the receiver, with everything else as it was but for checksums.
   */
  lemma DeliveredExactly(t: Tables, from: Path, ip: Ip) returns (to: Path, out: Ip)
    requires Consistent(t) && from in t.members && ip.Legal() && ip.macs[..6] != [0, 83, 87, 68, 78, 83]
    ensures Handled(t, from, ip.Octets()).Deliver? <==>
              Carries(ip) && exists q :: Reaches(t, from, q, ip.destination)
    ensures Handled(t, from, ip.Octets()).Deliver? ==>
              && Reaches(t, from, to, ip.destination)
              && out.Legal() && Handled(t, from, ip.Octets()) == Deliver(to, out.Octets())
              && out == ip.(macs := [2, 0, 0, 0, 0, 21, 2, 0, 0, 0, 0, 2], checksum := out.checksum,
                            source := t.members[from].address, destination := [10, 0, 2, 15], payload := out.payload,
                            padding := [])
              && OnlyChecksum(ip, out.payload)
  {
    hide Named, Exclusive, Resolved, Mirrored, Consistent, Ip.Octets, Routed, Reaches, OnlyChecksum, Share;
    IpReads(ip);
    var frame, m := ip.Octets(), t.members[from];
    assert frame[..6] == ip.macs[..6] by {
      assert frame[..6] == frame[..12][..6];
    }
    to, out := "", *;
    forall q ensures
      m.identity in t.groups &&
      (Reaches(t, from, q, ip.destination) <==>
        ip.destination in t.groups[m.identity] && Share(m.networks, t.groups[m.identity][ip.destination].networks)
        && t.groups[m.identity][ip.destination].path == q)
    {
      RouteReaches(t, from, q, ip.destination);
    }
    RoutedExactly(ip, m.address, GUEST);
    if Carries(ip) && exists q :: Reaches(t, from, q, ip.destination) {
      var q :| Reaches(t, from, q, ip.destination);
    }
    if Handled(t, from, frame).Deliver? {
      to := t.groups[m.identity][ip.destination].path;
      assert Reaches(t, from, to, ip.destination);
      out := RoutedIs(ip, m.address, GUEST);
    }
  }

  /* What it is told. */

  /** A member of the sender's group, on a network they share, has the address and the alias. */
  ghost predicate Holds(t: Tables, from: Path, name: bytes, a: Address) {
    exists p :: Reaches(t, from, p, a) && p in t.aliases && name in t.aliases[p]
  }

  /** The least address among those who hold the name. */
  ghost predicate Told(t: Tables, from: Path, name: bytes, a: Address) {
    Holds(t, from, name, a) && forall b: Address | Holds(t, from, name, b) :: Long(a, 0) <= Long(b, 0)
  }

  lemma HoldsExactly(t: Tables, from: Path, name: bytes, a: Address)
    requires Consistent(t) && from in t.members
    ensures t.members[from].identity in t.names
    ensures var names, networks := t.names[t.members[from].identity], t.members[from].networks;
            Holds(t, from, name, a) <==> name in names && a in names[name] && Share(networks, names[name][a])
  {
    hide Exclusive, Resolved;
    FromIsNamed(t, from);
    var g := t.members[from].identity;
    if p :| Reaches(t, from, p, a) && p in t.aliases && name in t.aliases[p] {
      RouteReaches(t, from, p, a);
      assert AliasOk(t, p, name) && HolderOk(t, g, name, a);
    }
    if name in t.names[g] && a in t.names[g][name] && Share(t.members[from].networks, t.names[g][name][a]) {
      assert HolderOk(t, g, name, a);
      RouteReaches(t, from, t.groups[g][a].path, a);
    }
  }

  /** The table a member sees holds exactly the names someone it reaches has, each with the least address. */
  lemma VisibleExactly(t: Tables, from: Path, name: bytes)
    requires Consistent(t) && from in t.members
    ensures t.members[from].identity in t.names
    ensures var table := Visible(t, t.members[from]);
            && SD.Addresses(table)
            && (name in table <==> exists a :: Holds(t, from, name, a))
            && (name in table ==> Told(t, from, name, table[name]))
  {
    hide Consistent, Holds, Least, IsLeast;
    FromIsNamed(t, from);
    var m := t.members[from];
    forall a: Address
      ensures Holds(t, from, name, a) <==>
                name in t.names[m.identity] && a in Matching(t.names[m.identity][name], m.networks)
    {
      HoldsExactly(t, from, name, a);
    }
    if name in Visible(t, m) {
      var some := Matching(t.names[m.identity][name], m.networks);
      LeastIs(some);
      assert Holds(t, from, name, Least(some));
    }
    if a: Address :| Holds(t, from, name, a) {
      assert a in Matching(t.names[m.identity][name], m.networks);
    }
  }

  lemma LeastIs(some: set<Address>)
    requires some != {}
    ensures Least(some) in some && forall b | b in some :: Long(Least(some), 0) <= Long(b, 0)
  {
  }

  lemma LookupHandled(t: Tables, from: Path, query: bytes)
    requires Consistent(t) && from in t.members && |query| >= 28
    ensures t.members[from].identity in t.names && SD.Addresses(Visible(t, t.members[from]))
    ensures Handled(t, from, [0, 83, 87, 68, 78, 83] + query) ==
            match SD.Replied(query, Visible(t, t.members[from]))
            case Sent(reply) => Deliver(from, reply)
            case _ => Deliver(from, [0, 83, 87, 68, 78, 83] + query)
  {
    hide Consistent, Visible, SD.Replied, Forward;
    FromIsNamed(t, from);
    VisibleExactly(t, from, []);
    var frame := [0, 83, 87, 68, 78, 83] + query;
    assert frame[..6] == DNS_FORWARD && frame[6..] == query;
  }

  /** A lookup of a name that nobody has whom the member reaches goes back to it unchanged. */
  lemma LookupIsReturned(t: Tables, from: Path, ip: Ip, u: Udp, h: Header, q: Question)
    requires Consistent(t) && from in t.members && ToService(ip, u) && |ip.Octets()| <= 9014
    requires Asking(u.data, h, q) && Straight(q.name) && forall a :: !Holds(t, from, TextOf(q.name), a)
    ensures var frame := [0, 83, 87, 68, 78, 83] + ip.Octets();
            |frame| >= 34 && Handled(t, from, frame) == Deliver(from, frame)
  {
    hide Consistent, Holds, Ip.Octets, Udp.Octets, Asking, Visible, Answers, SD.Replied, Straight, TextOf, Handled;
    IpReads(ip);
    LookupHandled(t, from, ip.Octets());
    VisibleExactly(t, from, TextOf(q.name));
    AnsweredExactly(ip, u, h, q, Visible(t, t.members[from]));
  }

  /**
   * A lookup that the member's relay passes on is answered to the same member, if someone it reaches has the name: with
   * the least address of those, which the parser of the admission rules reads up to 126 labels.
   */
  lemma LookupIsAnswered(t: Tables, from: Path, ip: Ip, u: Udp, h: Header, q: Question, a: Address)
    requires Consistent(t) && from in t.members && ToService(ip, u) && |ip.Octets()| <= 9014
    requires Asking(u.data, h, q) && Straight(q.name) && !h.response && h.questions == 1
    requires Told(t, from, TextOf(q.name), a)
    ensures var frame := [0, 83, 87, 68, 78, 83] + ip.Octets();
            && |frame| >= 34
            && var d := Handled(t, from, frame);
               && d.Deliver? && d.to == from && |d.frame| >= 42
               && (q.kind == 1 && q.class' == 1 ==>
                     Answers(d.frame[42..], End(12, q.name) + 4, 1)
                     == if |Labels(q.name)| < 127 then Some([Cname.Answer.Address(TextOf(q.name), 0, a)]) else None)
  {
    hide Consistent, Holds, Ip.Octets, Udp.Octets, Asking, Visible, Answers, SD.Replied, Straight, TextOf, Handled;
    IpReads(ip);
    LookupHandled(t, from, ip.Octets());
    var table := Visible(t, t.members[from]);
    VisibleExactly(t, from, TextOf(q.name));
    assert TextOf(q.name) in table;
    LongInjective(a, table[TextOf(q.name)]);
    AnsweredExactly(ip, u, h, q, table);
    var d := Handled(t, from, [0, 83, 87, 68, 78, 83] + ip.Octets());
    assert d.Deliver? && d.to == from;
    assert |d.frame| >= 42 by {
      SD.ReplyIsConsistent(ip.Octets(), table);
    }
    assert q.kind == 1 && q.class' == 1 ==> d.frame == SD.Replied(ip.Octets(), table).frame;
  }
}
