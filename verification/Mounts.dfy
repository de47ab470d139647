/** Which mounts a cold snapshot lists, and why leaving out the others loses nothing. */
module Mounts {
  import opened Bytes
  import opened Ordered

  /** An absolute path as its components; the root directory has none. */
  type Path = seq<string>
  type Id = string

  datatype Mount = Mount(id: Id, parent: Id, device: string, root: Path, destination: Path, readonly: bool, kind: string)

  type Table = Dict<Id, Mount>

  datatype Configured = Configured(destination: Path, kind: string, options: seq<string>)

  /** The launch spec: its persistent mounts, and the destinations of external mounts that are to be bound again. */
  datatype Spec = Spec(mounts: seq<Configured>, rebound: set<Path>, rejects: bool)

  datatype Saved = Saved(destination: Path, options: seq<string>, file: nat)

  const VOLATILE: seq<Path> := [["dev"], ["proc"], ["sys"], ["run"], ["tmp"]]
  const DOCKER: Path := ["var", "lib", "docker"]
  const TMPFS := "tmpfs"
  const OVERLAY := "overlay"

  predicate Volatile(p: Path) {
    exists v | v in VOLATILE :: v <= p
  }

  /** The directory a mount shows at a point below its destination. */
  function Backing(m: Mount, p: Path): Path
    requires m.destination <= p
  {
    m.root + p[|m.destination|..]
  }

  /** A second view of what the parent mount shows at the same place. */
  predicate SelfBind(m: Mount, mounts: Table) {
    var parent := Find(mounts, m.parent);
    && parent.Some?
    && m.device == parent.value.device && m.kind == parent.value.kind
    && parent.value.destination <= m.destination
    && m.root == parent.value.root + m.destination[|parent.value.destination|..]
  }

  function Lookup(mounts: seq<Configured>, destination: Path): Option<Configured> {
    if mounts == [] then None
    else if mounts[|mounts| - 1].destination == destination then Some(mounts[|mounts| - 1])
    else Lookup(mounts[..|mounts| - 1], destination)
  }

  datatype Verdict = Skip | List | Reject

  /** A mount that needs no listing of its own: it is a root, volatile, bound again, or rebuilt by Docker. */
  predicate Rebuilt(m: Mount, spec: Spec) {
    || m.destination == [] || Volatile(m.destination) || m.destination in spec.rebound
    || (m.kind == OVERLAY && m.root == [] && DOCKER <= m.destination && m.destination != DOCKER)
  }

  function Judge(m: Mount, mounts: Table, spec: Spec): Verdict {
    if m.destination == [] || Volatile(m.destination) then Skip
    else if m.readonly then Skip
    else if m.destination in spec.rebound then Skip
    else if SelfBind(m, mounts) then Skip
    else if m.kind == OVERLAY && m.root == [] && DOCKER <= m.destination && m.destination != DOCKER then Skip
    else
      var configured := Lookup(spec.mounts, m.destination);
      if configured.None? || configured.value.kind != TMPFS || m.kind != TMPFS || m.root != [] then Reject else List
  }

  function Destinations(saved: seq<Saved>): set<Path> {
    set s | s in saved :: s.destination
  }

  /** What the mounts in `some` add to the list, in the order of the table. */
  function Listing(some: seq<(Id, Mount)>, mounts: Table, spec: Spec): Option<seq<Saved>> {
    if some == [] then Some([])
    else
      var m := some[|some| - 1].1;
      match Listing(some[..|some| - 1], mounts, spec)
      case None => None
      case Some(saved) =>
        match Judge(m, mounts, spec)
        case Skip => Some(saved)
        case Reject => None
        case List =>
          if m.destination in Destinations(saved) then None
          else Some(saved + [Saved(m.destination, Lookup(spec.mounts, m.destination).value.options, |saved|)])
  }

  function Expected(spec: Spec): set<Path> {
    set c | c in spec.mounts && c.kind == TMPFS && !Volatile(c.destination) :: c.destination
  }

  function Inventoried(mounts: Table, spec: Spec): Option<seq<Saved>> {
    if spec.rejects then None
    else
      match Listing(mounts, mounts, spec)
      case None => None
      case Some(saved) => if Expected(spec) == Destinations(saved) then Some(saved) else None
  }

  /** The table by mount identifier: a repeated identifier keeps its place and takes the later line. */
  function TableOf(lines: seq<Mount>): Table {
    if lines == [] then []
    else Put(TableOf(lines[..|lines| - 1]), lines[|lines| - 1].id, lines[|lines| - 1])
  }

  function Latest(lines: seq<Mount>, id: Id): Option<Mount> {
    if lines == [] then None
    else if lines[|lines| - 1].id == id then Some(lines[|lines| - 1])
    else Latest(lines[..|lines| - 1], id)
  }

  lemma {:induction false} TableHoldsLatest(lines: seq<Mount>, id: Id)
    ensures Unique(TableOf(lines)) && Find(TableOf(lines), id) == Latest(lines, id)
  {
    if lines != [] {
      var before, last := TableOf(lines[..|lines| - 1]), lines[|lines| - 1];
      TableHoldsLatest(lines[..|lines| - 1], id);
      PutKeepsUnique(before, last.id, last);
      FindPut(before, last.id, last, id);
    }
  }

  method MountTable(lines: seq<Mount>) returns (mounts: Table)
    ensures mounts == TableOf(lines)
  {
    mounts := [];
    for i := 0 to |lines|
      invariant mounts == TableOf(lines[..i])
    {
      assert lines[..i + 1][..i] == lines[..i];
      mounts := Put(mounts, lines[i].id, lines[i]);
    }
    assert lines[..|lines|] == lines;
  }

  lemma {:induction false} ListingStops(some: seq<(Id, Mount)>, i: nat, mounts: Table, spec: Spec)
    requires i <= |some| && Listing(some[..i], mounts, spec).None?
    ensures Listing(some, mounts, spec).None?
  {
    if i < |some| {
      assert some[..|some| - 1][..i] == some[..i];
      ListingStops(some[..|some| - 1], i, mounts, spec);
    } else {
      assert some[..i] == some;
    }
  }

  method Inventory(mounts: Table, spec: Spec) returns (r: Option<seq<Saved>>)
    ensures r == Inventoried(mounts, spec)
  {
    hide Judge, Lookup;
    if spec.rejects {
      return None;
    }
    var result: seq<Saved>, seen: set<Path> := [], {};
    for i := 0 to |mounts|
      invariant Some(result) == Listing(mounts[..i], mounts, spec)
      invariant seen == Destinations(result)
    {
      var m := mounts[i].1;
      assert mounts[..i + 1][..i] == mounts[..i];
      var verdict := Judge(m, mounts, spec);
      if verdict == List {
        if m.destination in seen {
          ListingStops(mounts, i + 1, mounts, spec);
          return None;
        }
        ListedIsConfigured(m, mounts, spec);
        var configured := Lookup(spec.mounts, m.destination);
        seen := seen + {m.destination};
        result := result + [Saved(m.destination, configured.value.options, |result|)];
      } else if verdict == Reject {
        ListingStops(mounts, i + 1, mounts, spec);
        return None;
      }
    }
    assert mounts[..|mounts|] == mounts;
    if Expected(spec) != Destinations(result) {
      return None;
    }
    return Some(result);
  }

  lemma ListedIsConfigured(m: Mount, mounts: Table, spec: Spec)
    requires Judge(m, mounts, spec) == List
    ensures Lookup(spec.mounts, m.destination).Some?
  {
  }

  /* What an accepted inventory covers. */

  ghost predicate Listed(m: Mount, saved: seq<Saved>) {
    m.kind == TMPFS && m.root == [] && exists s :: s in saved && s.destination == m.destination
  }

  lemma {:induction false} ListingCovers(some: seq<(Id, Mount)>, mounts: Table, spec: Spec, e: (Id, Mount))
    requires Listing(some, mounts, spec).Some? && e in some && !e.1.readonly
    ensures Rebuilt(e.1, spec) || SelfBind(e.1, mounts) || Listed(e.1, Listing(some, mounts, spec).value)
  {
    hide Volatile, SelfBind, Lookup;
    var front, last := some[..|some| - 1], some[|some| - 1];
    var before, after := Listing(front, mounts, spec).value, Listing(some, mounts, spec).value;
    if e == last {
      if Judge(last.1, mounts, spec) == List {
        var s := after[|after| - 1];
        assert s in after && s.destination == e.1.destination;
      }
    } else {
      assert some == front + [last];
      ListingCovers(front, mounts, spec, e);
      if Listed(e.1, before) {
        var s :| s in before && s.destination == e.1.destination;
        assert s in after;
      }
    }
  }

  /** Listed destinations are distinct and numbered by their place. */
  lemma {:induction false} ListingDistinct(some: seq<(Id, Mount)>, mounts: Table, spec: Spec)
    requires Listing(some, mounts, spec).Some?
    ensures
      var saved := Listing(some, mounts, spec).value;
      && (forall i | 0 <= i < |saved| :: saved[i].file == i)
      && (forall i, j | 0 <= i < j < |saved| :: saved[i].destination != saved[j].destination)
  {
    hide Judge, Lookup;
    if some != [] {
      var front := some[..|some| - 1];
      ListingDistinct(front, mounts, spec);
      var before := Listing(front, mounts, spec).value;
      forall i | 0 <= i < |before| ensures before[i].destination in Destinations(before) {
        assert before[i] in before;
      }
    }
  }

  function Kept(some: seq<(Id, Mount)>, mounts: Table, spec: Spec): set<Path> {
    set e | e in some && Judge(e.1, mounts, spec) == List :: e.1.destination
  }

  /** No mount is refused, and no two that must be listed are stacked on one destination. */
  ghost predicate Listable(some: seq<(Id, Mount)>, mounts: Table, spec: Spec) {
    && (forall e | e in some :: Judge(e.1, mounts, spec) != Reject)
    && (forall i, j | 0 <= i < j < |some| ::
          Judge(some[i].1, mounts, spec) == List && Judge(some[j].1, mounts, spec) == List ==>
            some[i].1.destination != some[j].1.destination)
  }

  lemma KeptStep(front: seq<(Id, Mount)>, last: (Id, Mount), mounts: Table, spec: Spec)
    ensures Kept(front + [last], mounts, spec) ==
            Kept(front, mounts, spec) + if Judge(last.1, mounts, spec) == List then {last.1.destination} else {}
  {
    hide Judge;
    var some := front + [last];
    forall e | e in front || e == last ensures e in some {
      if e == last {
        assert some[|front|] == e;
      } else {
        var i :| 0 <= i < |front| && front[i] == e;
        assert some[i] == e;
      }
    }
  }

  lemma KeptAt(some: seq<(Id, Mount)>, mounts: Table, spec: Spec, destination: Path) returns (i: nat)
    requires destination in Kept(some, mounts, spec)
    ensures i < |some| && Judge(some[i].1, mounts, spec) == List && some[i].1.destination == destination
  {
    var e :| e in some && Judge(e.1, mounts, spec) == List && e.1.destination == destination;
    i :| 0 <= i < |some| && some[i] == e;
  }

  lemma DestinationsStep(saved: seq<Saved>, s: Saved)
    ensures Destinations(saved + [s]) == Destinations(saved) + {s.destination}
  {
    forall o | o in saved || o == s ensures o in saved + [s] {
      if o == s {
        assert (saved + [s])[|saved|] == s;
      }
    }
  }

  lemma ListableStep(front: seq<(Id, Mount)>, last: (Id, Mount), mounts: Table, spec: Spec)
    ensures Listable(front + [last], mounts, spec) <==>
              && Listable(front, mounts, spec) && Judge(last.1, mounts, spec) != Reject
              && (Judge(last.1, mounts, spec) == List ==> last.1.destination !in Kept(front, mounts, spec))
  {
    hide Judge;
    var some, n := front + [last], |front|;
    assert some[n] == last && forall i | 0 <= i < n :: some[i] == front[i];
    if Listable(some, mounts, spec) {
      assert last in some;
      assert Listable(front, mounts, spec) by {
        forall e | e in front ensures e in some {
          var i :| 0 <= i < n && front[i] == e;
          assert some[i] == e;
        }
      }
      if last.1.destination in Kept(front, mounts, spec) {
        var i := KeptAt(front, mounts, spec, last.1.destination);
        assert some[i].1 == front[i].1 && some[n].1 == last.1;
      }
    } else if Listable(front, mounts, spec) && Judge(last.1, mounts, spec) != Reject {
      var i, j :| 0 <= i < j <= n && Judge(some[i].1, mounts, spec) == List && Judge(some[j].1, mounts, spec) == List
        && some[i].1.destination == some[j].1.destination;
      assert j == n && front[i] in front;
    }
  }

  lemma {:induction false} ListingAccepts(some: seq<(Id, Mount)>, mounts: Table, spec: Spec)
    ensures Listing(some, mounts, spec).Some? <==> Listable(some, mounts, spec)
    ensures Listing(some, mounts, spec).Some? ==>
              Destinations(Listing(some, mounts, spec).value) == Kept(some, mounts, spec)
  {
    hide Judge, Lookup, Listable, Kept;
    if some == [] {
      NoneListable(mounts, spec);
    } else {
      var n := |some| - 1;
      var front, last := some[..n], some[n];
      ListingAccepts(front, mounts, spec);
      assert some == front + [last];
      KeptStep(front, last, mounts, spec);
      ListableStep(front, last, mounts, spec);
      if Listing(some, mounts, spec).Some? && Judge(last.1, mounts, spec) == List {
        var saved := Listing(front, mounts, spec).value;
        DestinationsStep(saved, Listing(some, mounts, spec).value[|saved|]);
      }
    }
  }

  lemma NoneListable(mounts: Table, spec: Spec)
    ensures Listable([], mounts, spec) && Kept([], mounts, spec) == {}
  {
  }

  /** The inventory succeeds exactly when every mount is listable and the mounts it must list are the expected ones. */
  lemma AcceptsExactly(mounts: Table, spec: Spec)
    ensures Inventoried(mounts, spec).Some? <==>
              !spec.rejects && Listable(mounts, mounts, spec) && Kept(mounts, mounts, spec) == Expected(spec)
  {
    hide Listing, Listable, Kept;
    ListingAccepts(mounts, mounts, spec);
  }

  /* Where a writable mount's files are. */

  /** A mount table as it is read: one entry for each identifier. */
  ghost predicate Keyed(mounts: Table) {
    Unique(mounts) && forall e | e in mounts :: e.0 == e.1.id
  }

  lemma {:induction false} TableIsKeyed(lines: seq<Mount>)
    ensures Keyed(TableOf(lines))
  {
    if lines != [] {
      var before, last := TableOf(lines[..|lines| - 1]), lines[|lines| - 1];
      TableIsKeyed(lines[..|lines| - 1]);
      PutKeepsUnique(before, last.id, last);
      forall e | e in Put(before, last.id, last) ensures e.0 == e.1.id {
        InPut(before, last.id, last, e);
      }
    }
  }

  /** Mounts of the table each of which is a self-bind of the next. */
  ghost predicate Linked(mounts: Table, chain: seq<Mount>) {
    && chain != []
    && (forall i | 0 <= i < |chain| :: (chain[i].id, chain[i]) in mounts)
    && (forall i | 0 <= i < |chain| - 1 :: SelfBind(chain[i], mounts) && Find(mounts, chain[i].parent) == Some(chain[i + 1]))
  }

  /** The mount is a self-bind of itself, by way of the others on the cycle. */
  ghost predicate Cycle(mounts: Table, cycle: seq<Mount>, end: Mount) {
    && Linked(mounts, cycle) && cycle[|cycle| - 1] == end
    && SelfBind(end, mounts) && Find(mounts, end.parent) == Some(cycle[0])
  }

  ghost predicate Circular(mounts: Table, end: Mount) {
    exists cycle :: Cycle(mounts, cycle, end)
  }

  /** A chain of self-binds from `m` to a mount that is none, or that is one of itself. */
  ghost predicate Joined(mounts: Table, chain: seq<Mount>, m: Mount) {
    && Linked(mounts, chain) && chain[0] == m
    && (SelfBind(chain[|chain| - 1], mounts) ==> Circular(mounts, chain[|chain| - 1]))
  }

  function Mounted(mounts: Table): set<Mount> {
    set e | e in mounts :: e.1
  }

  function Members(chain: seq<Mount>): set<Mount> {
    set c | c in chain
  }

  lemma LinkedFurther(mounts: Table, chain: seq<Mount>, next: Mount)
    requires Linked(mounts, chain) && (next.id, next) in mounts
    requires SelfBind(chain[|chain| - 1], mounts) && Find(mounts, chain[|chain| - 1].parent) == Some(next)
    ensures Linked(mounts, chain + [next])
  {
    hide SelfBind, Find;
    var longer := chain + [next];
    assert forall i | 0 <= i < |chain| :: longer[i] == chain[i];
  }

  lemma LinkedFrom(mounts: Table, chain: seq<Mount>, k: nat)
    requires Linked(mounts, chain) && k < |chain|
    ensures Linked(mounts, chain[k..])
  {
    hide SelfBind, Find;
    var rest := chain[k..];
    assert forall i | 0 <= i < |rest| :: rest[i] == chain[k + i];
  }

  lemma FewerLeft(mounts: Table, chain: seq<Mount>, next: Mount)
    requires (next.id, next) in mounts && next !in chain
    ensures Mounted(mounts) - Members(chain + [next]) < Mounted(mounts) - Members(chain)
  {
    assert (next.id, next).1 in Mounted(mounts);
    assert next == (chain + [next])[|chain|];
    assert Members(chain + [next]) == Members(chain) + {next};
  }

  /** Following parents from the end of a chain comes to a mount that is no self-bind, or back to the chain. */
  lemma {:induction false} ChainEnds(mounts: Table, chain: seq<Mount>) returns (longer: seq<Mount>)
    requires Keyed(mounts) && Linked(mounts, chain)
    ensures Joined(mounts, longer, chain[0])
    decreases Mounted(mounts) - Members(chain)
  {
    hide SelfBind, Find;
    var end := chain[|chain| - 1];
    longer := chain;
    hide Linked;
    if SelfBind(end, mounts) {
      var next := ParentOf(mounts, end);
      if next in chain {
        var k :| 0 <= k < |chain| && chain[k] == next;
        LinkedFrom(mounts, chain, k);
        assert Cycle(mounts, chain[k..], end);
      } else {
        LinkedFurther(mounts, chain, next);
        FewerLeft(mounts, chain, next);
        longer := ChainEnds(mounts, chain + [next]);
      }
    }
  }

  lemma ParentOf(mounts: Table, m: Mount) returns (parent: Mount)
    requires Keyed(mounts) && SelfBind(m, mounts)
    ensures Find(mounts, m.parent) == Some(parent) && (parent.id, parent) in mounts
  {
    parent := Find(mounts, m.parent).value;
    FindIsIn(mounts, m.parent);
    assert (m.parent, parent) in mounts;
  }

  /** At a point `p` below `m`, `end` shows the same directory of the same device. */
  ghost predicate ShowsTheSame(end: Mount, m: Mount, p: Path) {
    m.destination <= p ==>
      end.device == m.device && end.kind == m.kind && end.destination <= p && Backing(end, p) == Backing(m, p)
  }

  /** The last mount of a chain of self-binds shows, below the first, what the first shows. */
  lemma {:induction false} ChainShowsTheSame(mounts: Table, chain: seq<Mount>, p: Path)
    requires Linked(mounts, chain)
    ensures ShowsTheSame(chain[|chain| - 1], chain[0], p)
    decreases |chain|
  {
    var m := chain[0];
    if |chain| > 1 && m.destination <= p {
      var parent, rest := chain[1], chain[1..];
      assert SelfBind(chain[0], mounts);
      LinkedFrom(mounts, chain, 1);
      assert Backing(parent, p) == Backing(m, p) by {
        assert p[|parent.destination|..] == m.destination[|parent.destination|..] + p[|m.destination|..];
      }
      ChainShowsTheSame(mounts, rest, p);
    }
  }

  /**
   * Every writable mount shows, at every point below it, the same directory of the same device as a mount that is no
   * self-bind, or one of itself; and an accepted inventory lists that mount, or it is rebuilt, or it is read-only.
   */
  lemma NothingIsLost(mounts: Table, spec: Spec, m: Mount)
    returns (chain: seq<Mount>, end: Mount)
    requires Keyed(mounts) && (m.id, m) in mounts && !m.readonly
    requires Inventoried(mounts, spec).Some?
    ensures Joined(mounts, chain, m) && end == chain[|chain| - 1]
    ensures forall p: Path :: ShowsTheSame(end, m, p)
    ensures Rebuilt(end, spec) || Listed(end, Inventoried(mounts, spec).value) || end.readonly || Circular(mounts, end)
  {
    hide SelfBind, Rebuilt, ShowsTheSame, Listing, Find, Listed;
    chain := ChainEnds(mounts, [m]);
    end := chain[|chain| - 1];
    forall p: Path ensures ShowsTheSame(end, m, p) {
      ChainShowsTheSame(mounts, chain, p);
    }
    if !end.readonly {
      ListingCovers(mounts, mounts, spec, (end.id, end));
    }
  }

  /**
   * Mounts form a tree: `rank` falls from every mount to its parent, except that the root of the tree may name itself
   * as its parent.
   */
  ghost predicate Tree(mounts: Table, rank: map<Id, nat>) {
    forall e | e in mounts ::
      && e.0 in rank
      && (Find(mounts, e.1.parent).Some? ==>
            || (e.1.parent == e.0 && e.1.destination == [])
            || (e.1.parent in rank && rank[e.1.parent] < rank[e.0]))
  }

  lemma {:induction false} RankFalls(mounts: Table, rank: map<Id, nat>, chain: seq<Mount>)
    requires Keyed(mounts) && Tree(mounts, rank) && Linked(mounts, chain)
    ensures chain[0].id in rank && chain[|chain| - 1].id in rank
    ensures rank[chain[|chain| - 1].id] <= rank[chain[0].id]
    decreases |chain|
  {
    hide SelfBind, Find;
    assert (chain[0].id, chain[0]) in mounts;
    if |chain| > 1 {
      LinkedFrom(mounts, chain, 1);
      RankFalls(mounts, rank, chain[1..]);
      ParentStep(mounts, rank, chain[0], chain[1]);
    }
  }

  lemma ParentStep(mounts: Table, rank: map<Id, nat>, m: Mount, parent: Mount)
    requires Keyed(mounts) && Tree(mounts, rank) && (m.id, m) in mounts && Find(mounts, m.parent) == Some(parent)
    ensures parent.id == m.parent && parent.id in rank && m.id in rank
    ensures m.parent != m.id ==> rank[parent.id] < rank[m.id]
    ensures m.parent == m.id ==> parent == m && m.destination == []
  {
    hide SelfBind;
    FindIsIn(mounts, m.parent);
    assert (m.parent, parent) in mounts;
    InIsFind(mounts, (m.id, m));
  }

  /** In a tree only the root can be a self-bind of itself. */
  lemma CircularIsRoot(mounts: Table, rank: map<Id, nat>, end: Mount)
    requires Keyed(mounts) && Tree(mounts, rank) && Circular(mounts, end)
    ensures end.destination == []
  {
    hide SelfBind, Find, Tree;
    var cycle :| Cycle(mounts, cycle, end);
    RankFalls(mounts, rank, cycle);
    ParentStep(mounts, rank, end, cycle[0]);
  }

  /** What the inventory would list: writable, no self-bind, and not rebuilt. */
  predicate ToList(m: Mount, mounts: Table, spec: Spec) {
    !m.readonly && !SelfBind(m, mounts) && !Rebuilt(m, spec)
  }

  lemma JudgedExactly(m: Mount, mounts: Table, spec: Spec)
    ensures Judge(m, mounts, spec) == Skip <==> !ToList(m, mounts, spec)
    ensures Judge(m, mounts, spec) == List ==> m.kind == TMPFS && m.root == []
  {
    hide SelfBind, Lookup, Volatile;
  }

  ghost predicate Accepts(mounts: Table, spec: Spec) {
    Inventoried(mounts, spec).Some?
  }

  /** A mount is listed exactly when it could be and it, or one stacked on the same destination, was to be listed. */
  lemma ListedExactly(mounts: Table, spec: Spec, m: Mount)
    requires Accepts(mounts, spec)
    ensures Listed(m, Inventoried(mounts, spec).value) <==>
              && m.kind == TMPFS && m.root == []
              && exists o :: o in mounts && o.1.destination == m.destination && ToList(o.1, mounts, spec)
  {
    hide Judge, Listing, ToList, Expected;
    var saved := Inventoried(mounts, spec).value;
    ListingAccepts(mounts, mounts, spec);
    assert Listable(mounts, mounts, spec);
    forall o | o in mounts ensures Judge(o.1, mounts, spec) == List <==> ToList(o.1, mounts, spec) {
      JudgedExactly(o.1, mounts, spec);
    }
    assert m.destination in Destinations(saved) <==> m.destination in Kept(mounts, mounts, spec);
    if o :| o in mounts && o.1.destination == m.destination && ToList(o.1, mounts, spec) {
      assert o.1.destination in Kept(mounts, mounts, spec);
    }
  }

  /** No two mounts share a destination. */
  ghost predicate Unstacked(mounts: Table) {
    forall e, o | e in mounts && o in mounts && e.1.destination == o.1.destination :: e == o
  }

  /**
   * Exactly when files are lost: in an accepted table without stacks, the files of a mount are listed or rebuilt if and
   * only if it is rebuilt, or it is writable and no self-bind. Where a mount that is not to be listed is listed all the
   * same, another one stacked on its destination was.
   */
  lemma LostExactly(mounts: Table, spec: Spec, e: (Id, Mount))
    requires Accepts(mounts, spec) && e in mounts
    ensures var saved := Inventoried(mounts, spec).value;
            && (ToList(e.1, mounts, spec) ==> Listed(e.1, saved))
            && (Listed(e.1, saved) && !ToList(e.1, mounts, spec) ==>
                  exists o :: o in mounts && o != e && o.1.destination == e.1.destination && ToList(o.1, mounts, spec))
            && (Unstacked(mounts) ==>
                  (Rebuilt(e.1, spec) || Listed(e.1, saved) <==>
                     Rebuilt(e.1, spec) || (!e.1.readonly && !SelfBind(e.1, mounts))))
  {
    hide Judge, Listing, SelfBind, Rebuilt, Listed, Listable, Expected, Kept;
    var saved := Inventoried(mounts, spec).value;
    ListedExactly(mounts, spec, e.1);
    ListingAccepts(mounts, mounts, spec);
    NotRejected(mounts, spec, e);
    JudgedExactly(e.1, mounts, spec);
    if Listed(e.1, saved) && !ToList(e.1, mounts, spec) {
      var o :| o in mounts && o.1.destination == e.1.destination && ToList(o.1, mounts, spec);
      assert o != e;
    }
  }

  lemma NotRejected(mounts: Table, spec: Spec, e: (Id, Mount))
    requires Listable(mounts, mounts, spec) && e in mounts
    ensures Judge(e.1, mounts, spec) != Reject
  {
    hide Judge;
  }

  /**
   * The same for where a writable mount's files really are, in a tree of mounts without stacks: they are saved or
   * rebuilt if and only if the mount at the end of the chain is not read-only, or is rebuilt.
   */
  lemma SavedExactly(mounts: Table, spec: Spec, rank: map<Id, nat>, m: Mount)
    returns (chain: seq<Mount>, end: Mount)
    requires Keyed(mounts) && Tree(mounts, rank) && (m.id, m) in mounts && !m.readonly && Accepts(mounts, spec)
    ensures Joined(mounts, chain, m) && end == chain[|chain| - 1]
    ensures forall p: Path :: ShowsTheSame(end, m, p)
    ensures var saved := Inventoried(mounts, spec).value;
            && (!end.readonly || Rebuilt(end, spec) ==> Rebuilt(end, spec) || Listed(end, saved))
            && (Unstacked(mounts) ==>
                  (Rebuilt(end, spec) || Listed(end, saved) <==> !end.readonly || Rebuilt(end, spec)))
  {
    hide SelfBind, ShowsTheSame, Listing, Find, Listed, Tree, Unstacked, Circular;
    chain, end := NothingIsLost(mounts, spec, m);
    LostExactly(mounts, spec, (end.id, end));
    if Circular(mounts, end) {
      CircularIsRoot(mounts, rank, end);
    }
  }

  /** The list is exactly the persistent tmpfs mounts of the launch spec outside the volatile directories. */
  lemma ListIsExact(mounts: Table, spec: Spec)
    requires Inventoried(mounts, spec).Some?
    ensures
      var saved := Inventoried(mounts, spec).value;
      && Destinations(saved) == Expected(spec)
      && (forall i, j | 0 <= i < j < |saved| :: saved[i].destination != saved[j].destination)
      && (forall i | 0 <= i < |saved| :: saved[i].file == i)
  {
    ListingDistinct(mounts, mounts, spec);
  }

  const BASE := Mount("1", "0", "8:1", [], ["data"], true, "ext4")
  const VIEW := Mount("2", "1", "8:1", ["work"], ["data", "work"], false, "ext4")

  lemma ViewIsOrdinary(mounts: Table, spec: Spec)
    requires Find(mounts, "1") == Some(BASE) && spec.rebound == {}
    ensures SelfBind(VIEW, mounts) && !Rebuilt(VIEW, spec) && Judge(VIEW, mounts, spec) == Skip
    ensures Judge(BASE, mounts, spec) == Skip
  {
    assert VIEW.destination[|BASE.destination|..] == ["work"] && BASE.destination <= VIEW.destination;
    assert SelfBind(VIEW, mounts);
    forall v | v in VOLATILE ensures !(v <= VIEW.destination) {
      assert |v| == 1 && v[0] != "data";
    }
    assert !(DOCKER <= VIEW.destination) by {
      assert DOCKER[0] != VIEW.destination[0];
    }
  }

  /** A table of the kind that loses files: a writable view of a read-only mount is accepted, and nothing is listed. */
  lemma ReadOnlyBackingIsAccepted(mounts: Table, spec: Spec)
    requires mounts == [("1", BASE), ("2", VIEW)] && spec == Spec([], {}, false)
    ensures !VIEW.readonly && !Rebuilt(VIEW, spec)
    ensures Inventoried(mounts, spec) == Some([])
  {
    assert Find(mounts, "1") == Some(BASE);
    ViewIsOrdinary(mounts, spec);
    hide Judge, Rebuilt, Find;
    var one := [("1", BASE)];
    assert mounts[..1] == one && one[..0] == [];
    assert Listing([], mounts, spec) == Some([]);
    assert Listing(one, mounts, spec) == Some([]);
    assert Listing(mounts, mounts, spec) == Some([]);
    assert Expected(spec) == {} && Destinations([]) == {};
  }

  /* What the words mean. */

  /** The directories that are made anew when the filesystem boots. */
  lemma VolatileExactly(p: Path)
    ensures Volatile(p) <==> p != [] && p[0] in {"dev", "proc", "sys", "run", "tmp"}
  {
    if p != [] && p[0] in {"dev", "proc", "sys", "run", "tmp"} {
      assert [p[0]] <= p;
      assert [p[0]] in VOLATILE;
    }
  }

  /** A mount is a self-bind exactly if it and its parent go on from the same directory in the same way. */
  lemma SelfBindExactly(m: Mount, mounts: Table)
    ensures SelfBind(m, mounts) <==>
              exists parent, rest: Path ::
                && Find(mounts, m.parent) == Some(parent) && m.device == parent.device && m.kind == parent.kind
                && m.destination == parent.destination + rest && m.root == parent.root + rest
  {
    hide Find;
    if SelfBind(m, mounts) {
      var parent := Find(mounts, m.parent).value;
      var rest := m.destination[|parent.destination|..];
      assert m.destination == parent.destination + rest && m.root == parent.root + rest;
    }
    if parent, rest: Path :|
      && Find(mounts, m.parent) == Some(parent) && m.device == parent.device && m.kind == parent.kind
      && m.destination == parent.destination + rest && m.root == parent.root + rest
    {
      assert m.destination[|parent.destination|..] == rest;
    }
  }

  /** Entry `i` configures the destination, and no later one does. */
  predicate LastFor(mounts: seq<Configured>, destination: Path, c: Configured, i: int) {
    && 0 <= i < |mounts| && mounts[i] == c && c.destination == destination
    && forall j | i < j < |mounts| :: mounts[j].destination != destination
  }

  /** The launch spec's last word on a destination. */
  ghost predicate Configures(spec: Spec, destination: Path, c: Configured) {
    exists i :: LastFor(spec.mounts, destination, c, i)
  }

  lemma LastForFront(mounts: seq<Configured>, destination: Path, c: Configured, i: int)
    requires mounts != [] && mounts[|mounts| - 1].destination != destination
    ensures LastFor(mounts, destination, c, i) <==> LastFor(mounts[..|mounts| - 1], destination, c, i)
  {
    var front := mounts[..|mounts| - 1];
    assert forall j | 0 <= j < |front| :: front[j] == mounts[j];
    if LastFor(mounts, destination, c, i) {
      assert mounts[i] == c;
    }
    if LastFor(front, destination, c, i) {
      assert front[i] == mounts[i];
    }
  }

  lemma {:induction false} LookupExactly(mounts: seq<Configured>, destination: Path, c: Configured)
    ensures Lookup(mounts, destination) == Some(c) <==> exists i :: LastFor(mounts, destination, c, i)
  {
    if mounts != [] {
      var n := |mounts| - 1;
      LookupExactly(mounts[..n], destination, c);
      if mounts[n].destination == destination {
        assert LastFor(mounts, destination, mounts[n], n);
      } else {
        forall i ensures LastFor(mounts, destination, c, i) <==> LastFor(mounts[..n], destination, c, i) {
          LastForFront(mounts, destination, c, i);
        }
      }
    }
  }

  /** The spec asks for a tmpfs there, and the whole of a tmpfs is mounted. */
  ghost predicate Configurable(m: Mount, spec: Spec) {
    m.kind == "tmpfs" && m.root == [] && exists c :: Configures(spec, m.destination, c) && c.kind == "tmpfs"
  }

  lemma ListExactly(m: Mount, mounts: Table, spec: Spec)
    ensures Judge(m, mounts, spec) == List <==> ToList(m, mounts, spec) && Configurable(m, spec)
    ensures Judge(m, mounts, spec) == Reject <==> ToList(m, mounts, spec) && !Configurable(m, spec)
  {
    hide SelfBind, Volatile, Lookup;
    JudgedExactly(m, mounts, spec);
    forall c ensures Configures(spec, m.destination, c) <==> Lookup(spec.mounts, m.destination) == Some(c) {
      LookupExactly(spec.mounts, m.destination, c);
    }
  }

  /** Each listed mount has the options of the spec's last word on its destination, which is a tmpfs. */
  lemma {:induction false} SavedAsConfigured(some: seq<(Id, Mount)>, mounts: Table, spec: Spec)
    requires Listing(some, mounts, spec).Some?
    ensures forall s | s in Listing(some, mounts, spec).value ::
              exists c :: Configures(spec, s.destination, c) && c.kind == "tmpfs" && s.options == c.options
  {
    hide Judge, Lookup, Configures;
    if some != [] {
      var front, last := some[..|some| - 1], some[|some| - 1].1;
      SavedAsConfigured(front, mounts, spec);
      if Judge(last, mounts, spec) == List {
        ListExactly(last, mounts, spec);
        LastWord(last.destination, spec);
      }
    }
  }

  lemma LastWord(destination: Path, spec: Spec)
    ensures forall c :: Configures(spec, destination, c) <==> Lookup(spec.mounts, destination) == Some(c)
  {
    hide Lookup;
    forall c ensures Configures(spec, destination, c) <==> Lookup(spec.mounts, destination) == Some(c) {
      LookupExactly(spec.mounts, destination, c);
    }
  }

  /** Some mount with this destination is to be listed. */
  ghost predicate ListsAt(mounts: Table, spec: Spec, p: Path) {
    exists e :: e in mounts && ToList(e.1, mounts, spec) && e.1.destination == p
  }

  /** The spec has a tmpfs there, and boot does not make it anew. */
  ghost predicate PersistsAt(spec: Spec, p: Path) {
    !Volatile(p) && exists c :: c in spec.mounts && c.kind == "tmpfs" && c.destination == p
  }

  /**
   * The inventory succeeds exactly when no external mount forbids it, every mount to list is a tmpfs of the spec, no two
   * of them share a destination, and they are all the tmpfs mounts of the spec outside the volatile directories.
   */
  lemma SucceedsExactly(mounts: Table, spec: Spec)
    ensures Inventoried(mounts, spec).Some? <==>
              && !spec.rejects
              && (forall e | e in mounts && ToList(e.1, mounts, spec) :: Configurable(e.1, spec))
              && (forall i, j | 0 <= i < j < |mounts| && ToList(mounts[i].1, mounts, spec) && ToList(mounts[j].1, mounts, spec) ::
                    mounts[i].1.destination != mounts[j].1.destination)
              && (forall p :: ListsAt(mounts, spec, p) <==> PersistsAt(spec, p))
  {
    hide Judge, Configurable, ToList, Volatile, Inventoried;
    AcceptsExactly(mounts, spec);
    forall e | e in mounts
      ensures Judge(e.1, mounts, spec) == List <==> ToList(e.1, mounts, spec) && Configurable(e.1, spec)
      ensures Judge(e.1, mounts, spec) == Reject <==> ToList(e.1, mounts, spec) && !Configurable(e.1, spec)
    {
      ListExactly(e.1, mounts, spec);
    }
    assert forall i | 0 <= i < |mounts| :: mounts[i] in mounts;
    if forall e | e in mounts && ToList(e.1, mounts, spec) :: Configurable(e.1, spec) {
      ListedPaths(mounts, spec);
    }
  }

  lemma ListedPaths(mounts: Table, spec: Spec)
    requires forall e | e in mounts :: Judge(e.1, mounts, spec) == List <==> ToList(e.1, mounts, spec)
    ensures Kept(mounts, mounts, spec) == Expected(spec) <==> forall p :: ListsAt(mounts, spec, p) <==> PersistsAt(spec, p)
  {
    hide Judge, ToList, Volatile;
    forall p: Path
      ensures p in Kept(mounts, mounts, spec) <==> ListsAt(mounts, spec, p)
      ensures p in Expected(spec) <==> PersistsAt(spec, p)
    {
    }
    hide ListsAt, PersistsAt;
    if forall p :: ListsAt(mounts, spec, p) <==> PersistsAt(spec, p) {
      assert Kept(mounts, mounts, spec) == Expected(spec);
    }
  }
}
