/** The worker's router between sandboxes of a service group, and the five maps it routes by. */
module Hub {
  import opened Bytes
  import opened Router
  import SD = ServiceDns

  type Path = string
  type Identity = string
  type Network = string

  /** A packed IPv4 address. */
  type Address = a: bytes | |a| == 4 witness [0, 0, 0, 0]

  /** A member as its registration describes it; `path` is its resolved socket. */
  datatype Entry = Entry(address: Address, path: Path, networks: set<Network>, aliases: seq<bytes>)

  datatype Member = Member(identity: Identity, address: Address, networks: set<Network>)
  datatype Route = Route(path: Path, networks: set<Network>)
  type Routes = map<Address, Route>
  /** Who holds an alias, by address, with the named networks it holds it on. */
  type Holders = map<Address, set<Network>>

  datatype Tables = Tables(members: map<Path, Member>, groups: map<Identity, Routes>,
                           names: map<Identity, map<bytes, Holders>>, aliases: map<Path, seq<bytes>>,
                           origins: map<Path, Path>)

  ghost predicate MemberOk(t: Tables, p: Path) {
    p in t.members ==>
      var m := t.members[p];
      && m.identity in t.groups && m.address in t.groups[m.identity]
      && t.groups[m.identity][m.address] == Route(p, m.networks)
  }

  ghost predicate RouteOk(t: Tables, g: Identity, a: Address) {
    g in t.groups && a in t.groups[g] ==>
      var r := t.groups[g][a];
      r.path in t.members && t.members[r.path] == Member(g, a, r.networks)
  }

  /** A group's routes and the members by socket say the same. */
  ghost predicate Mirrored(t: Tables) {
    (forall p :: MemberOk(t, p)) && (forall g, a :: RouteOk(t, g, a))
  }

  ghost predicate HolderOk(t: Tables, g: Identity, x: bytes, a: Address) {
    g in t.names && x in t.names[g] && a in t.names[g][x] ==>
      && g in t.groups && a in t.groups[g]
      && t.groups[g][a].path in t.aliases && x in t.aliases[t.groups[g][a].path]
      && t.names[g][x][a] == t.groups[g][a].networks
  }

  ghost predicate AliasOk(t: Tables, p: Path, x: bytes) {
    p in t.aliases && x in t.aliases[p] ==>
      && p in t.members
      && var m := t.members[p];
         m.identity in t.names && x in t.names[m.identity] && m.address in t.names[m.identity][x]
  }

  ghost predicate HeldOk(t: Tables, g: Identity, x: bytes) {
    g in t.names && x in t.names[g] ==> t.names[g][x] != map[]
  }

  /** A group's names and its members' aliases say the same, and no name is without a holder. */
  ghost predicate Named(t: Tables) {
    && t.names.Keys == t.groups.Keys
    && t.aliases.Keys <= t.members.Keys
    && (forall g, x :: HeldOk(t, g, x))
    && (forall g, x, a :: HolderOk(t, g, x, a))
    && (forall p, x :: AliasOk(t, p, x))
  }

  ghost predicate Apart(t: Tables, g: Identity, x: bytes, a: Address, b: Address) {
    g in t.names && x in t.names[g] && a in t.names[g][x] && b in t.names[g][x] && a != b ==>
      t.names[g][x][a] !! t.names[g][x][b]
  }

  /** Two holders of one alias never share a named network. */
  ghost predicate Exclusive(t: Tables) {
    forall g, x, a, b :: Apart(t, g, x, a, b)
  }

  /** Each remembered sender address stands for one registered socket, and no two for the same one. */
  ghost predicate Resolved(t: Tables) {
    && (forall o | o in t.origins :: t.origins[o] in t.members)
    && (forall o, o' | o in t.origins && o' in t.origins && t.origins[o] == t.origins[o'] :: o == o')
  }

  ghost predicate Consistent(t: Tables) {
    Mirrored(t) && Named(t) && Exclusive(t) && Resolved(t)
  }

  /* What the operations do to the tables. */

  predicate Distinct(entries: seq<Entry>) {
    forall i, j | 0 <= i < j < |entries| :: entries[i].path != entries[j].path && entries[i].address != entries[j].address
  }

  /** Why a registration is accepted. */
  predicate Registrable(t: Tables, identity: Identity, entries: seq<Entry>) {
    identity !in t.groups && Distinct(entries) && forall e | e in entries :: e.path !in t.members
  }

  function RoutesOf(entries: seq<Entry>): Routes {
    if entries == [] then map[]
    else
      var e := entries[|entries| - 1];
      RoutesOf(entries[..|entries| - 1])[e.address := Route(e.path, e.networks)]
  }

  function WithMembers(members: map<Path, Member>, identity: Identity, entries: seq<Entry>): map<Path, Member> {
    if entries == [] then members
    else
      var e := entries[|entries| - 1];
      WithMembers(members, identity, entries[..|entries| - 1])[e.path := Member(identity, e.address, e.networks)]
  }

  /** The alias of the new member is free on each of its networks. */
  predicate Free(names: map<bytes, Holders>, networks: set<Network>, x: bytes) {
    x in names ==> forall a | a in names[x] :: networks !! names[x][a]
  }

  /** An alias is free exactly if nobody who has it shares a network with the newcomer. */
  lemma FreeExactly(names: map<bytes, Holders>, networks: set<Network>, x: bytes)
    ensures Free(names, networks, x) <==>
              forall a, n | x in names && a in names[x] && n in names[x][a] :: n !in networks
  {
  }

  predicate Addable(t: Tables, identity: Identity, e: Entry) {
    && identity in t.groups && identity in t.names
    && e.path !in t.members && e.address !in t.groups[identity]
    && forall x | x in e.aliases :: Free(t.names[identity], e.networks, x)
  }

  function HoldersOf(names: map<bytes, Holders>, x: bytes): Holders {
    if x in names then names[x] else map[]
  }

  function WithName(names: map<bytes, Holders>, x: bytes, address: Address, networks: set<Network>): map<bytes, Holders> {
    var holders: Holders := HoldersOf(names, x)[address := networks];
    names[x := holders]
  }

  function WithNames(names: map<bytes, Holders>, some: seq<bytes>, address: Address, networks: set<Network>): map<bytes, Holders> {
    if some == [] then names
    else WithName(WithNames(names, some[..|some| - 1], address, networks), some[|some| - 1], address, networks)
  }

  function WithoutName(names: map<bytes, Holders>, x: bytes, address: Address): map<bytes, Holders>
    requires x in names
  {
    if names[x] - {address} == map[] then names - {x} else names[x := names[x] - {address}]
  }

  /** The holders of a name with some of its aliases' entries for one address gone. */
  function WithoutNames(names: map<bytes, Holders>, some: seq<bytes>, address: Address): map<bytes, Holders> {
    map x | x in names && !(x in some && names[x] - {address} == map[]) ::
      if x in some then names[x] - {address} else names[x]
  }

  /** No alias is listed twice by a member that alone holds it. */
  ghost predicate Removable(t: Tables, identity: Identity, address: Address) {
    identity in t.groups && address in t.groups[identity] && t.groups[identity][address].path in t.aliases ==>
      var listed := t.aliases[t.groups[identity][address].path];
      forall i, j | 0 <= i < j < |listed| && listed[i] == listed[j] ::
        identity in t.names && listed[i] in t.names[identity] && t.names[identity][listed[i]] - {address} != map[]
  }

  function Added(t: Tables, identity: Identity, e: Entry): Tables
    requires identity in t.groups && identity in t.names
  {
    var routes: Routes := t.groups[identity][e.address := Route(e.path, e.networks)];
    t.(groups := t.groups[identity := routes],
       members := t.members[e.path := Member(identity, e.address, e.networks)],
       aliases := t.aliases[e.path := e.aliases],
       names := t.names[identity := WithNames(t.names[identity], e.aliases, e.address, e.networks)])
  }

  function Registered(t: Tables, identity: Identity, entries: seq<Entry>): Tables {
    t.(groups := t.groups[identity := RoutesOf(entries)],
       names := t.names[identity := map[]],
       members := WithMembers(t.members, identity, entries))
  }

  function Removed(t: Tables, identity: Identity, address: Address): Tables {
    if identity !in t.groups || address !in t.groups[identity] then t
    else
      var path := t.groups[identity][address].path;
      var listed := if path in t.aliases then t.aliases[path] else [];
      Tables(t.members - {path},
             t.groups[identity := t.groups[identity] - {address}],
             if identity in t.names then t.names[identity := WithoutNames(t.names[identity], listed, address)] else t.names,
             t.aliases - {path},
             map o | o in t.origins && t.origins[o] != path :: t.origins[o])
  }

  /** What a removal leaves when it stops at an alias that is no longer there: the earlier ones are taken out. */
  function HalfRemoved(t: Tables, identity: Identity, address: Address, listed: seq<bytes>): Tables
    requires identity in t.groups && address in t.groups[identity] && identity in t.names
  {
    var path := t.groups[identity][address].path;
    t.(members := t.members - {path}, groups := t.groups[identity := t.groups[identity] - {address}],
       names := t.names[identity := WithoutNames(t.names[identity], listed, address)], aliases := t.aliases - {path})
  }

  function Paths(routes: Routes): set<Path> {
    set a | a in routes :: routes[a].path
  }

  function Unregistered(t: Tables, identity: Identity): Tables {
    var gone := if identity in t.groups then Paths(t.groups[identity]) else {};
    Tables(t.members - gone, t.groups - {identity}, t.names - {identity}, t.aliases - gone, map[])
  }

  lemma {:induction false} WithNamesHolds(names: map<bytes, Holders>, some: seq<bytes>, address: Address,
                                          networks: set<Network>, x: bytes)
    ensures var after := WithNames(names, some, address, networks);
            && (x in after <==> x in names || x in some)
            && (x in after ==> after[x] == if x in some then HoldersOf(names, x)[address := networks]
                                           else names[x])
  {
    if some != [] {
      WithNamesHolds(names, some[..|some| - 1], address, networks, x);
      assert some == some[..|some| - 1] + [some[|some| - 1]];
    }
  }

  lemma AddedMirrored(t: Tables, identity: Identity, e: Entry)
    requires Consistent(t) && Addable(t, identity, e)
    ensures Mirrored(Added(t, identity, e))
  {
    hide WithNames, Free, Named, Exclusive;
    var u := Added(t, identity, e);
    forall p ensures MemberOk(u, p) {
      assert MemberOk(t, p);
    }
    forall g, a ensures RouteOk(u, g, a) {
      assert RouteOk(t, g, a);
    }
  }

  lemma AddedHeld(t: Tables, identity: Identity, e: Entry)
    requires Consistent(t) && Addable(t, identity, e)
    ensures var u := Added(t, identity, e);
            (forall g, x :: HeldOk(u, g, x)) && (forall g, x, a :: HolderOk(u, g, x, a))
  {
    hide WithNames, Free, Exclusive;
    var u := Added(t, identity, e);
    forall g, x ensures HeldOk(u, g, x) {
      assert HeldOk(t, g, x);
      WithNamesHolds(t.names[identity], e.aliases, e.address, e.networks, x);
      if g == identity && x in e.aliases {
        assert e.address in u.names[g][x];
      }
    }
    forall g, x, a ensures HolderOk(u, g, x, a) {
      assert HolderOk(t, g, x, a) && RouteOk(t, g, a);
      WithNamesHolds(t.names[identity], e.aliases, e.address, e.networks, x);
    }
  }

  lemma AddedAliases(t: Tables, identity: Identity, e: Entry)
    requires Consistent(t) && Addable(t, identity, e)
    ensures forall p, x :: AliasOk(Added(t, identity, e), p, x)
  {
    hide WithNames, Free, Exclusive, Mirrored;
    var u := Added(t, identity, e);
    forall p, x ensures AliasOk(u, p, x) {
      assert AliasOk(t, p, x);
      WithNamesHolds(t.names[identity], e.aliases, e.address, e.networks, x);
    }
  }

  lemma AddedExclusive(t: Tables, identity: Identity, e: Entry)
    requires Consistent(t) && Addable(t, identity, e)
    ensures Exclusive(Added(t, identity, e))
  {
    hide WithNames, Named, Mirrored;
    var u := Added(t, identity, e);
    forall g, x, a, b ensures Apart(u, g, x, a, b) {
      assert Apart(t, g, x, a, b);
      WithNamesHolds(t.names[identity], e.aliases, e.address, e.networks, x);
      if g == identity && x in e.aliases {
        assert Free(t.names[identity], e.networks, x);
      }
    }
  }

  lemma AddedConsistent(t: Tables, identity: Identity, e: Entry)
    requires Consistent(t) && Addable(t, identity, e)
    ensures Consistent(Added(t, identity, e))
  {
    AddedMirrored(t, identity, e);
    AddedHeld(t, identity, e);
    AddedAliases(t, identity, e);
    AddedExclusive(t, identity, e);
    hide WithNames, Free, Exclusive, Mirrored, MemberOk, RouteOk, HeldOk, HolderOk, AliasOk;
  }

  /** The members of a registration are its entries and nothing else. */
  lemma {:induction false} MemberAdded(members: map<Path, Member>, identity: Identity, entries: seq<Entry>, p: Path)
    returns (e: Option<Entry>)
    requires Distinct(entries)
    ensures e.Some? ==> e.value in entries && e.value.path == p && p in WithMembers(members, identity, entries)
                        && WithMembers(members, identity, entries)[p] == Member(identity, e.value.address, e.value.networks)
    ensures e.None? ==> (forall o | o in entries :: o.path != p)
                        && (p in WithMembers(members, identity, entries) <==> p in members)
                        && (p in members ==> WithMembers(members, identity, entries)[p] == members[p])
  {
    e := None;
    if entries != [] {
      var front, last := entries[..|entries| - 1], entries[|entries| - 1];
      assert entries == front + [last];
      e := MemberAdded(members, identity, front, p);
      if last.path == p {
        e := Some(last);
      }
    }
  }

  lemma {:induction false} RouteAdded(entries: seq<Entry>, a: Address) returns (e: Option<Entry>)
    requires Distinct(entries)
    ensures e.Some? ==> e.value in entries && e.value.address == a && a in RoutesOf(entries)
                        && RoutesOf(entries)[a] == Route(e.value.path, e.value.networks)
    ensures e.None? ==> (forall o | o in entries :: o.address != a) && a !in RoutesOf(entries)
  {
    e := None;
    if entries != [] {
      var front, last := entries[..|entries| - 1], entries[|entries| - 1];
      assert entries == front + [last];
      e := RouteAdded(front, a);
      if last.address == a {
        e := Some(last);
      }
    }
  }

  /** Distinct entries that agree in their path or their address are the same. */
  lemma SameEntry(entries: seq<Entry>, e: Entry, o: Entry)
    requires Distinct(entries) && e in entries && o in entries && (e.path == o.path || e.address == o.address)
    ensures e == o
  {
  }

  lemma RegisteredMirrored(t: Tables, identity: Identity, entries: seq<Entry>)
    requires Consistent(t) && Registrable(t, identity, entries)
    ensures Mirrored(Registered(t, identity, entries))
  {
    hide RoutesOf, WithMembers, Named, Exclusive, Distinct;
    var u := Registered(t, identity, entries);
    forall p ensures MemberOk(u, p) {
      assert MemberOk(t, p);
      var e := MemberAdded(t.members, identity, entries, p);
      if e.Some? {
        var o := RouteAdded(entries, e.value.address);
        SameEntry(entries, e.value, o.value);
      }
    }
    forall g, a ensures RouteOk(u, g, a) {
      assert RouteOk(t, g, a);
      if g == identity {
        var e := RouteAdded(entries, a);
        if e.Some? {
          var o := MemberAdded(t.members, identity, entries, e.value.path);
          SameEntry(entries, e.value, o.value);
        }
      } else if g in t.groups && a in t.groups[g] {
        var o := MemberAdded(t.members, identity, entries, t.groups[g][a].path);
      }
    }
  }

  lemma RegisteredConsistent(t: Tables, identity: Identity, entries: seq<Entry>)
    requires Consistent(t) && Registrable(t, identity, entries)
    ensures Consistent(Registered(t, identity, entries))
  {
    hide RoutesOf, WithMembers, Distinct, MemberOk, RouteOk;
    var u := Registered(t, identity, entries);
    RegisteredMirrored(t, identity, entries);
    forall p | p in t.members ensures p in u.members && u.members[p] == t.members[p] {
      var e := MemberAdded(t.members, identity, entries, p);
    }
    forall g, x ensures HeldOk(u, g, x) {
      assert HeldOk(t, g, x);
    }
    forall g, x, a ensures HolderOk(u, g, x, a) {
      assert HolderOk(t, g, x, a);
    }
    forall p, x ensures AliasOk(u, p, x) {
      assert AliasOk(t, p, x);
    }
    forall g, x, a, b ensures Apart(u, g, x, a, b) {
      assert Apart(t, g, x, a, b);
    }
  }

  lemma UnregisteredConsistent(t: Tables, identity: Identity)
    requires Consistent(t)
    ensures Consistent(Unregistered(t, identity))
  {
    var u := Unregistered(t, identity);
    forall p
      ensures p in t.members ==> (p in u.members <==> t.members[p].identity != identity)
    {
      assert MemberOk(t, p);
      if identity in t.groups && p in Paths(t.groups[identity]) {
        var a :| a in t.groups[identity] && t.groups[identity][a].path == p;
        assert RouteOk(t, identity, a);
      }
    }
    forall p ensures MemberOk(u, p) {
      assert MemberOk(t, p);
    }
    forall g, a ensures RouteOk(u, g, a) {
      assert RouteOk(t, g, a);
    }
    forall g, x ensures HeldOk(u, g, x) {
      assert HeldOk(t, g, x);
    }
    forall g, x, a ensures HolderOk(u, g, x, a) {
      assert HolderOk(t, g, x, a) && RouteOk(t, g, a);
    }
    forall p, x ensures AliasOk(u, p, x) {
      assert AliasOk(t, p, x) && MemberOk(t, p);
    }
    forall g, x, a, b ensures Apart(u, g, x, a, b) {
      assert Apart(t, g, x, a, b);
    }
  }

  lemma RemovedConsistent(t: Tables, identity: Identity, address: Address)
    requires Consistent(t)
    ensures Consistent(Removed(t, identity, address))
  {
    var u := Removed(t, identity, address);
    if identity in t.groups && address in t.groups[identity] {
      var path := t.groups[identity][address].path;
      assert RouteOk(t, identity, address);
      forall p ensures MemberOk(u, p) {
        assert MemberOk(t, p);
      }
      forall g, a ensures RouteOk(u, g, a) {
        assert RouteOk(t, g, a);
      }
      RemovedNames(t, identity, address);
      forall p, x ensures AliasOk(u, p, x) {
        assert AliasOk(t, p, x) && MemberOk(t, p);
        if p in u.aliases && x in u.aliases[p] && t.members[p].identity == identity {
          assert t.members[p].address in t.names[identity][x] - {address};
        }
      }
    }
  }

  lemma RemovedNames(t: Tables, identity: Identity, address: Address)
    requires Consistent(t) && identity in t.groups && address in t.groups[identity]
    ensures var u := Removed(t, identity, address);
            && (forall g, x :: HeldOk(u, g, x)) && (forall g, x, a :: HolderOk(u, g, x, a)) && Exclusive(u)
  {
    var u, path := Removed(t, identity, address), t.groups[identity][address].path;
    assert RouteOk(t, identity, address);
    forall g, x ensures HeldOk(u, g, x) {
      assert HeldOk(t, g, x);
    }
    forall g, x, a ensures HolderOk(u, g, x, a) {
      assert HolderOk(t, g, x, a) && RouteOk(t, g, a);
    }
    forall g, x, a, b ensures Apart(u, g, x, a, b) {
      assert Apart(t, g, x, a, b);
    }
  }

  /* Forwarding and lookup. */

  datatype Delivery = Dropped | Deliver(to: Path, frame: bytes)

  predicate Share(a: set<Network>, b: set<Network>): (shared: bool)
    ensures shared <==> exists n :: n in a && n in b
  {
    SomeShared(a, b);
    a * b != {}
  }

  lemma SomeShared(a: set<Network>, b: set<Network>)
    ensures a * b != {} <==> exists n :: n in a && n in b
  {
    if n :| n in a && n in b {
      assert n in a * b;
    }
  }

  /** Where a registered sender's frame goes, and as what. */
  function Forward(t: Tables, from: Path, frame: bytes): (d: Delivery)
    requires |frame| >= 34
    ensures d.Deliver? ==> |d.frame| >= 34
  {
    if from !in t.members || t.members[from].identity !in t.groups then Dropped
    else
      var m, to := t.members[from], frame[30..34];
      var routes := t.groups[m.identity];
      if to !in routes || !Share(m.networks, routes[to].networks) then Dropped
      else
        match Routed(frame, m.address, GUEST)
        case None => Dropped
        case Some(out) =>
          RoutedSource(frame, m.address);
          Deliver(routes[to].path, out)
  }

  lemma LongInjective(a: Address, b: Address)
    requires Long(a, 0) == Long(b, 0)
    ensures a == b
  {
    assert Word(a, 0) == Word(b, 0) && Word(a, 2) == Word(b, 2);
    assert a[0] == b[0] && a[1] == b[1] && a[2] == b[2] && a[3] == b[3];
  }

  ghost predicate IsLeast(a: Address, some: set<Address>) {
    a in some && forall b | b in some :: Long(a, 0) <= Long(b, 0)
  }

  lemma {:induction false} LeastExists(some: set<Address>) returns (a: Address)
    requires some != {}
    ensures IsLeast(a, some)
    decreases |some|
  {
    var b :| b in some;
    if some == {b} {
      a := b;
    } else {
      var rest := some - {b};
      assert some == rest + {b};
      var c := LeastExists(rest);
      a := if Long(c, 0) < Long(b, 0) then c else b;
    }
  }

  lemma LeastKnown(some: set<Address>)
    requires some != {}
    ensures exists a :: IsLeast(a, some)
  {
    var a := LeastExists(some);
  }

  ghost function Least(some: set<Address>): (a: Address)
    requires some != {}
    ensures IsLeast(a, some)
  {
    LeastKnown(some);
    var a :| IsLeast(a, some);
    a
  }

  function Matching(holders: Holders, networks: set<Network>): set<Address> {
    set a | a in holders && Share(networks, holders[a])
  }

  /** What a member can look up: the least address among the holders that share one of its networks. */
  ghost function Visible(t: Tables, m: Member): SD.Table
    requires m.identity in t.names
  {
    map x | x in t.names[m.identity] && Matching(t.names[m.identity][x], m.networks) != {} ::
      Least(Matching(t.names[m.identity][x], m.networks))
  }

  /** Every address a member is told is one its frames are forwarded to. */
  lemma VisibleIsReachable(t: Tables, p: Path, x: bytes)
    requires Consistent(t) && p in t.members && t.members[p].identity in t.names && x in Visible(t, t.members[p])
    ensures
      var m, a := t.members[p], Visible(t, t.members[p])[x];
      && m.identity in t.groups && a in t.groups[m.identity]
      && Share(m.networks, t.groups[m.identity][a].networks)
      && forall frame | |frame| >= 34 && frame[30..34] == a && Routed(frame, m.address, GUEST).Some? ::
           Forward(t, p, frame) ==
           Deliver(t.groups[m.identity][a].path, Routed(frame, m.address, GUEST).value)
  {
    hide Named, Exclusive, Routed;
    var m := t.members[p];
    var a := Visible(t, m)[x];
    assert HolderOk(t, m.identity, x, a) by {
      assert Named(t);
      NamedAt(t, m.identity, x, a);
    }
  }

  lemma NamedAt(t: Tables, g: Identity, x: bytes, a: Address)
    requires Named(t)
    ensures HolderOk(t, g, x, a)
  {
  }

  /**
   * Delivery is symmetric: a reply to the translated source of a delivered frame goes back to the socket the frame
   * came from, and arrives from the very address that was dialled.
   */
  lemma DeliveryIsSymmetric(t: Tables, from: Path, frame: bytes, reply: bytes)
    requires Consistent(t) && |frame| >= 34 && |reply| >= 34
    requires Forward(t, from, frame).Deliver?
    requires reply[30..34] == Forward(t, from, frame).frame[26..30] && Routed(reply, frame[30..34], GUEST).Some?
    ensures
      var back := Forward(t, Forward(t, from, frame).to, reply);
      back.Deliver? && back.to == from && back.frame[26..30] == frame[30..34]
  {
    hide Routed, Named, Exclusive;
    var m, dialled := t.members[from], frame[30..34];
    var to := Forward(t, from, frame).to;
    assert MemberOk(t, from) && RouteOk(t, m.identity, dialled);
    RoutedSource(frame, m.address);
    var n := t.members[to];
    assert n == Member(m.identity, dialled, t.groups[m.identity][dialled].networks);
    assert m.networks * n.networks == n.networks * m.networks;
    RoutedSource(reply, n.address);
  }

  lemma RoutedSource(frame: bytes, source: Address)
    requires Routed(frame, source, GUEST).Some?
    ensures |Routed(frame, source, GUEST).value| >= 34
    ensures Routed(frame, source, GUEST).value[26..30] == source && Routed(frame, source, GUEST).value[30..34] == GUEST
  {
    hide Translated, Routed;
    assert Routable(frame) by {
      RoutedRoutable(frame, source);
    }
    TranslatedKeeps(frame, source, GUEST);
    RoutedPayload(frame, source, GUEST);
    var out, start := Routed(frame, source, GUEST).value, 14 + HeaderSize(frame);
    assert out[26..34] == out[..start][26..34] == source + GUEST;
    assert out[26..30] == out[26..34][..4] && out[30..34] == out[26..34][4..];
  }

  lemma RoutedRoutable(frame: bytes, source: Address)
    requires Routed(frame, source, GUEST).Some?
    ensures Routable(frame)
  {
  }

  /** Frames only travel inside a group, and only between members that share a named network. */
  lemma DeliveryIsIsolated(t: Tables, from: Path, frame: bytes)
    requires Consistent(t) && |frame| >= 34 && Forward(t, from, frame).Deliver?
    ensures
      var to := Forward(t, from, frame).to;
      && from in t.members && to in t.members
      && t.members[to].identity == t.members[from].identity
      && Share(t.members[from].networks, t.members[to].networks)
      && t.members[to].address == frame[30..34]
  {
    hide Routed, Named, Exclusive;
    assert RouteOk(t, t.members[from].identity, frame[30..34]);
  }

  const DNS_FORWARD: bytes := [0, 83, 87, 68, 78, 83]

  /** The registered socket a datagram came from, by what is remembered of its sender address or by resolving it. */
  function Sender(t: Tables, origin: Path, resolved: Path): Option<Path> {
    var path := if origin in t.origins then t.origins[origin] else origin;
    if path in t.members then Some(path)
    else if origin != "" && origin !in t.origins && resolved in t.members then Some(resolved)
    else None
  }

  /** A sender address that had to be resolved is remembered, in the place of any other for the same socket. */
  function Learned(t: Tables, origin: Path, resolved: Path): Tables {
    var path := if origin in t.origins then t.origins[origin] else origin;
    if path !in t.members && origin != "" && origin !in t.origins && resolved in t.members then
      t.(origins := (map o | o in t.origins && t.origins[o] != resolved :: t.origins[o])[origin := resolved])
    else t
  }

  /** A forwarded lookup is answered or sent back to its sender; every other frame is routed. */
  ghost function Handled(t: Tables, from: Path, frame: bytes): Delivery
    requires Consistent(t) && from in t.members && |frame| >= 34
  {
    if frame[..6] == DNS_FORWARD then
      FromIsNamed(t, from);
      match SD.Replied(frame[6..], Visible(t, t.members[from]))
      case Sent(reply) => Deliver(from, reply)
      case _ => Deliver(from, frame)
    else Forward(t, from, frame)
  }

  lemma FromIsNamed(t: Tables, from: Path)
    requires Consistent(t) && from in t.members
    ensures t.members[from].identity in t.names && t.members[from].identity in t.groups
    ensures t.members[from].address in t.groups[t.members[from].identity]
    ensures t.groups[t.members[from].identity][t.members[from].address].path == from
  {
    assert MemberOk(t, from);
  }

  lemma LearnedConsistent(t: Tables, origin: Path, resolved: Path)
    requires Consistent(t)
    ensures Consistent(Learned(t, origin, resolved))
  {
    hide Exclusive, Mirrored, Named;
    SameButOrigins(t, Learned(t, origin, resolved));
  }

  lemma SameButOrigins(t: Tables, u: Tables)
    requires u == t.(origins := u.origins)
    requires Mirrored(t) && Named(t) && Exclusive(t)
    ensures Mirrored(u) && Named(u) && Exclusive(u)
  {
    forall p ensures MemberOk(u, p) { assert MemberOk(t, p); }
    forall g, a ensures RouteOk(u, g, a) { assert RouteOk(t, g, a); }
    forall g, x ensures HeldOk(u, g, x) { assert HeldOk(t, g, x); }
    forall g, x, a ensures HolderOk(u, g, x, a) { assert HolderOk(t, g, x, a); }
    forall p, x ensures AliasOk(u, p, x) { assert AliasOk(t, p, x); }
    forall g, x, a, b ensures Apart(u, g, x, a, b) { assert Apart(t, g, x, a, b); }
  }

  class Hub {
    var members: map<Path, Member>
    var groups: map<Identity, Routes>
    var names: map<Identity, map<bytes, Holders>>
    var aliases: map<Path, seq<bytes>>
    var origins: map<Path, Path>

    function View(): Tables
      reads this
    {
      Tables(members, groups, names, aliases, origins)
    }

    ghost predicate Valid()
      reads this
    {
      Consistent(View())
    }

    constructor ()
      ensures Valid() && View() == Tables(map[], map[], map[], map[], map[])
    {
      members, groups, names, aliases, origins := map[], map[], map[], map[], map[];
    }

    /** Registers a whole group, or refuses and changes nothing. */
    method Register(identity: Identity, entries: seq<Entry>) returns (ok: bool)
      requires Valid()
      modifies this
      ensures Valid()
      ensures ok <==> Registrable(old(View()), identity, entries)
      ensures View() == if ok then Registered(old(View()), identity, entries) else old(View())
    {
      hide Consistent, RoutesOf, WithMembers;
      if identity in groups {
        return false;
      }
      var routes: Routes, paths: set<Path> := map[], {};
      NothingAdded(members, identity);
      for i := 0 to |entries|
        invariant View() == old(View()) && Valid()
        invariant Distinct(entries[..i]) && forall e | e in entries[..i] :: e.path !in members
        invariant routes == RoutesOf(entries[..i]) && paths == set e | e in entries[..i] :: e.path
        invariant forall a :: a in routes <==> exists e :: e in entries[..i] && e.address == a
      {
        var e := entries[i];
        assert entries[..i + 1][..i] == entries[..i];
        if e.path in members || e.path in paths || e.address in routes {
          Unregistrable(View(), identity, entries, i);
          return false;
        }
        routes := routes[e.address := Route(e.path, e.networks)];
        paths := paths + {e.path};
        RoutesStep(entries[..i + 1]);
        assert entries[..i + 1] == entries[..i] + [e];
      }
      assert entries[..|entries|] == entries;
      RegisteredConsistent(View(), identity, entries);
      groups := groups[identity := routes];
      names := names[identity := map[]];
      members := Enter(members, identity, entries);
      return true;
    }

    static method Enter(members: map<Path, Member>, identity: Identity, entries: seq<Entry>)
      returns (all: map<Path, Member>)
      ensures all == WithMembers(members, identity, entries)
    {
      hide WithMembers;
      all := members;
      NothingAdded(members, identity);
      for i := 0 to |entries|
        invariant all == WithMembers(members, identity, entries[..i])
      {
        assert entries[..i + 1][..i] == entries[..i];
        MembersStep(members, identity, entries[..i + 1]);
        all := all[entries[i].path := Member(identity, entries[i].address, entries[i].networks)];
      }
      assert entries[..|entries|] == entries;
    }

    /** Publishes one member, or refuses and changes nothing. */
    method Add(identity: Identity, e: Entry) returns (ok: bool)
      requires Valid()
      modifies this
      ensures Valid()
      ensures ok <==> Addable(old(View()), identity, e)
      ensures View() == if ok then Added(old(View()), identity, e) else old(View())
    {
      if identity !in groups || identity !in names || e.path in members || e.address in groups[identity] {
        return false;
      }
      hide Consistent, WithNames;
      for i := 0 to |e.aliases|
        invariant View() == old(View()) && Valid()
        invariant forall k | 0 <= k < i :: Free(names[identity], e.networks, e.aliases[k])
      {
        if !Free(names[identity], e.networks, e.aliases[i]) {
          return false;
        }
      }
      AddedConsistent(View(), identity, e);
      var routes: Routes := groups[identity][e.address := Route(e.path, e.networks)];
      groups := groups[identity := routes];
      members := members[e.path := Member(identity, e.address, e.networks)];
      aliases := aliases[e.path := e.aliases];
      var held := List(names[identity], e.aliases, e.address, e.networks);
      names := names[identity := held];
      return true;
    }

    static method List(names: map<bytes, Holders>, some: seq<bytes>, address: Address, networks: set<Network>)
      returns (held: map<bytes, Holders>)
      ensures held == WithNames(names, some, address, networks)
    {
      hide WithNames;
      held := names;
      NamesNone(names, address, networks);
      for i := 0 to |some|
        invariant held == WithNames(names, some[..i], address, networks)
      {
        assert some[..i + 1][..i] == some[..i];
        NamesStep(names, some[..i + 1], address, networks);
        held := WithName(held, some[i], address, networks);
      }
      assert some[..|some|] == some;
    }

    /** Takes an address out of the holders of its aliases, unless an alias is no longer there. */
    static method Unlist(names: map<bytes, Holders>, listed: seq<bytes>, address: Address)
      returns (ok: bool, held: map<bytes, Holders>, ghost done: nat)
      requires forall x | x in listed :: x in names && address in names[x]
      ensures done <= |listed| && held == WithoutNames(names, listed[..done], address)
      ensures ok <==> done == |listed|
      ensures !ok ==> listed[done] !in held
      ensures ok <==> forall k, j | 0 <= k < j < |listed| && listed[k] == listed[j] :: names[listed[k]] - {address} != map[]
    {
      ok, held, done := true, names, |listed|;
      for i := 0 to |listed|
        invariant held == WithoutNames(names, listed[..i], address)
        invariant forall k, j | 0 <= k < j < i && listed[k] == listed[j] :: names[listed[k]] - {address} != map[]
      {
        var x := listed[i];
        assert listed[..i + 1] == listed[..i] + [x];
        if x !in held {
          var k :| 0 <= k < i && listed[..i][k] == x;
          assert listed[k] == listed[i];
          return false, held, i;
        }
        forall k | 0 <= k < i && listed[k] == x ensures names[x] - {address} != map[] {
          assert listed[..i][k] == x;
        }
        WithoutStep(names, listed[..i], x, address);
        held := WithoutName(held, x, address);
      }
      assert listed[..|listed|] == listed;
    }

    /**
     * Takes one member out of every map. A member that lists an alias twice and holds it alone makes this fail
     * half-way, because its second entry is then no longer there to be removed.
     */
    method Remove(identity: Identity, address: Address) returns (ok: bool, ghost done: nat)
      requires Valid()
      modifies this
      ensures ok <==> Removable(old(View()), identity, address)
      ensures ok ==> Valid() && View() == Removed(old(View()), identity, address)
      ensures !ok ==>
                && old(identity in groups && address in groups[identity] && identity in names)
                && old(groups[identity][address].path in aliases)
                && var listed := old(aliases[groups[identity][address].path]);
                   && done < |listed| && identity in names && listed[done] !in names[identity]
                   && View() == HalfRemoved(old(View()), identity, address, listed[..done])
    {
      done := 0;
      if identity !in groups || address !in groups[identity] {
        return true, 0;
      }
      RemovedConsistent(View(), identity, address);
      AliasesHeld(View(), identity, address);
      hide Consistent, WithoutNames;
      var path := groups[identity][address].path;
      groups := groups[identity := groups[identity] - {address}];
      members := members - {path};
      var listed := if path in aliases then aliases[path] else [];
      aliases := aliases - {path};
      var held;
      assert listed[..|listed|] == listed;
      ok, held, done := Unlist(names[identity], listed, address);
      names := names[identity := held];
      if ok {
        origins := map o | o in origins && origins[o] != path :: origins[o];
      }
    }

    static method Drop<V>(m: map<Path, V>, gone: set<Path>) returns (left: map<Path, V>)
      ensures left == m - gone
    {
      left := m;
      var rest := gone;
      while rest != {}
        invariant rest <= gone && left == m - (gone - rest)
        decreases rest
      {
        var path :| path in rest;
        assert gone - (rest - {path}) == (gone - rest) + {path};
        left := left - {path};
        rest := rest - {path};
      }
      assert gone - rest == gone;
    }

    method Unregister(identity: Identity)
      requires Valid()
      modifies this
      ensures Valid() && View() == Unregistered(old(View()), identity)
    {
      UnregisteredConsistent(View(), identity);
      hide Consistent, Paths;
      var gone := if identity in groups then Paths(groups[identity]) else {};
      groups := groups - {identity};
      members := Drop(members, gone);
      aliases := Drop(aliases, gone);
      names := names - {identity};
      origins := map[];
    }

    method Lookup(holders: Holders, networks: set<Network>) returns (least: Option<Address>)
      ensures least.None? <==> Matching(holders, networks) == {}
      ensures least.Some? ==> least.value == Least(Matching(holders, networks))
    {
      least := None;
      var rest := holders.Keys;
      ghost var seen: set<Address> := {};
      while rest != {}
        invariant seen + rest == holders.Keys
        invariant least.None? ==> forall b | b in seen :: !Share(networks, holders[b])
        invariant least.Some? ==> least.value in seen && Share(networks, holders[least.value])
        invariant least.Some? ==> forall b | b in seen && Share(networks, holders[b]) :: Long(least.value, 0) <= Long(b, 0)
        decreases rest
      {
        var a :| a in rest;
        rest := rest - {a};
        seen := seen + {a};
        if Share(networks, holders[a]) && (least.None? || Long(a, 0) < Long(least.value, 0)) {
          least := Some(a);
        }
      }
      if least.Some? {
        assert IsLeast(least.value, Matching(holders, networks));
        LongInjective(least.value, Least(Matching(holders, networks)));
      }
    }

    /** The names a member sees, each with its least address on one of the member's networks. */
    method VisibleNames(m: Member) returns (table: SD.Table)
      requires m.identity in names
      ensures table == Visible(View(), m) && SD.Addresses(table)
    {
      hide Matching, Least;
      var held := names[m.identity];
      table := map[];
      var rest := held.Keys;
      while rest != {}
        invariant rest <= held.Keys
        invariant forall x | x in table :: x in held && x !in rest && Matching(held[x], m.networks) != {}
        invariant forall x | x in held && x !in rest && Matching(held[x], m.networks) != {} ::
                    x in table && table[x] == Least(Matching(held[x], m.networks))
        decreases rest
      {
        var x :| x in rest;
        var least := Lookup(held[x], m.networks);
        if least.Some? {
          table := table[x := least.value];
        }
        rest := rest - {x};
      }
      assert table == Visible(View(), m);
    }

    /** One datagram: a sender that is not registered is ignored, and its name is only resolved when it is unknown. */
    method Receive(frame: bytes, origin: Path, resolved: Path) returns (d: Delivery)
      requires Valid() && |frame| <= SD.MAX_FRAME + |DNS_FORWARD|
      modifies this`origins
      ensures Valid()
      ensures View() == if |frame| < 34 then old(View()) else Learned(old(View()), origin, resolved)
      ensures
        var from := Sender(old(View()), origin, resolved);
        d == if |frame| < 34 || from.None? then Dropped else Handled(View(), from.value, frame)
    {
      if |frame| < 34 {
        return Dropped;
      }
      LearnedConsistent(View(), origin, resolved);
      hide Consistent, Visible, SD.Replied, Routed;
      var path := if origin in origins then origins[origin] else origin;
      if path !in members && origin != "" && origin !in origins {
        path := resolved;
        if path in members {
          origins := (map o | o in origins && origins[o] != path :: origins[o])[origin := path];
        }
      }
      if path !in members {
        return Dropped;
      }
      var m := members[path];
      FromIsNamed(View(), path);
      if frame[..6] == DNS_FORWARD {
        var visible := VisibleNames(m);
        SD.LengthsFit(frame[6..], visible);
        var reply := SD.Answer(frame[6..], visible);
        var endpoint := groups[m.identity][m.address].path;
        return Deliver(endpoint, if reply.Sent? then reply.frame else frame);
      }
      var to := frame[30..34];
      if to !in groups[m.identity] || !Share(m.networks, groups[m.identity][to].networks) {
        return Dropped;
      }
      var translated := Router.Route(frame, m.address, GUEST);
      if translated.None? {
        return Dropped;
      }
      return Deliver(groups[m.identity][to].path, translated.value);
    }
  }

  lemma RoutesStep(entries: seq<Entry>)
    requires entries != []
    ensures var e := entries[|entries| - 1];
            RoutesOf(entries) == RoutesOf(entries[..|entries| - 1])[e.address := Route(e.path, e.networks)]
  {
  }

  lemma MembersStep(members: map<Path, Member>, identity: Identity, entries: seq<Entry>)
    requires entries != []
    ensures var e := entries[|entries| - 1];
            WithMembers(members, identity, entries) ==
            WithMembers(members, identity, entries[..|entries| - 1])[e.path := Member(identity, e.address, e.networks)]
  {
  }

  lemma NothingAdded(members: map<Path, Member>, identity: Identity)
    ensures RoutesOf([]) == map[] && WithMembers(members, identity, []) == members
  {
  }

  lemma NamesStep(names: map<bytes, Holders>, some: seq<bytes>, address: Address, networks: set<Network>)
    requires some != []
    ensures WithNames(names, some, address, networks) ==
            WithName(WithNames(names, some[..|some| - 1], address, networks), some[|some| - 1], address, networks)
  {
  }

  lemma NamesNone(names: map<bytes, Holders>, address: Address, networks: set<Network>)
    ensures WithNames(names, [], address, networks) == names
  {
  }

  lemma WithoutStep(names: map<bytes, Holders>, some: seq<bytes>, x: bytes, address: Address)
    requires x in WithoutNames(names, some, address)
    ensures WithoutNames(names, some + [x], address) == WithoutName(WithoutNames(names, some, address), x, address)
  {
    var before, after := WithoutNames(names, some, address), WithoutNames(names, some + [x], address);
    assert forall o :: o in some + [x] <==> o in some || o == x;
    assert before[x] - {address} == names[x] - {address};
    forall o
      ensures o in after <==> o in WithoutName(before, x, address)
      ensures o in after ==> after[o] == WithoutName(before, x, address)[o]
    {
    }
  }

  lemma AliasesHeld(t: Tables, identity: Identity, address: Address)
    requires Consistent(t) && identity in t.groups && address in t.groups[identity]
    ensures identity in t.names
    ensures var path := t.groups[identity][address].path;
            path in t.aliases ==> forall x | x in t.aliases[path] :: x in t.names[identity] && address in t.names[identity][x]
  {
    var path := t.groups[identity][address].path;
    assert RouteOk(t, identity, address);
    forall x | path in t.aliases && x in t.aliases[path] ensures x in t.names[identity] && address in t.names[identity][x] {
      assert AliasOk(t, path, x);
    }
  }

  lemma Unregistrable(t: Tables, identity: Identity, entries: seq<Entry>, i: nat)
    requires i < |entries|
    requires
      || entries[i].path in t.members
      || exists e | e in entries[..i] :: e.path == entries[i].path || e.address == entries[i].address
    ensures !Registrable(t, identity, entries)
  {
    if entries[i].path in t.members {
      assert entries[i] in entries;
    } else {
      var e :| e in entries[..i] && (e.path == entries[i].path || e.address == entries[i].address);
      var k :| 0 <= k < i && entries[..i][k] == e;
      assert entries[k] == e;
    }
  }

  /** Listing an alias twice can make leaving fail: the concrete case of one member that alone holds it. */
  lemma RemoveCanFail()
    ensures exists t: Tables, identity, address ::
              Consistent(t) && identity in t.groups && address in t.groups[identity] && !Removable(t, identity, address)
  {
    var t0 := Tables(map[], map["g" := map[]], map["g" := map[]], map[], map[]);
    var e := Entry([10, 231, 0, 2], "/m.sock", {"default"}, [[97], [97]]);
    assert Consistent(t0);
    AddedConsistent(t0, "g", e);
    var t := Added(t0, "g", e);
    WithNamesHolds(map[], e.aliases, e.address, e.networks, [97]);
    assert t.names["g"][[97]] == map[e.address := e.networks];
    assert t.aliases["/m.sock"][0] == t.aliases["/m.sock"][1];
    assert !Removable(t, "g", e.address);
  }
}
