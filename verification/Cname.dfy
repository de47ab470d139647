/** The names and addresses that one DNS response vouches for. */
module Cname {
  import opened Bytes

  const DAY := 86400

  /** The CNAME and A records of a response; other records are skipped while it is read. */
  datatype Answer =
    | Alias(owner: bytes, ttl: nat, target: bytes)
    | Address(owner: bytes, ttl: nat, address: bytes)

  type Aliases = map<bytes, nat>

  /** `path` is a chain of CNAME records of the response from `name` to `end`. */
  ghost predicate Chain(records: seq<Answer>, name: bytes, path: seq<Answer>, end: bytes)
    decreases |path|
  {
    if path == [] then end == name
    else
      var last := path[|path| - 1];
      last.Alias? && last in records && last.target == end
      && Chain(records, name, path[..|path| - 1], last.owner)
  }

  ghost predicate Reachable(records: seq<Answer>, name: bytes, x: bytes) {
    exists path :: Chain(records, name, path, x)
  }

  function Lifetime(path: seq<Answer>): nat {
    if path == [] then DAY else Min(path[|path| - 1].ttl, Lifetime(path[..|path| - 1]))
  }

  function Follow(r: Answer, aliases: Aliases): Aliases {
    if r.Alias? && r.owner in aliases && r.target !in aliases
    then aliases[r.target := Min(r.ttl, aliases[r.owner])] else aliases
  }

  /** One pass over the records in their order, which later records of the same pass already profit from. */
  function Pass(records: seq<Answer>, aliases: Aliases): Aliases {
    if records == [] then aliases else Pass(records[1..], Follow(records[0], aliases))
  }

  function Rounds(records: seq<Answer>, aliases: Aliases, n: nat): Aliases
    decreases n
  {
    if n == 0 || Pass(records, aliases) == aliases then aliases
    else Rounds(records, Pass(records, aliases), n - 1)
  }

  function Closure(records: seq<Answer>, name: bytes): Aliases {
    Rounds(records, map[name := DAY], |records|)
  }

  method Close(records: seq<Answer>, name: bytes) returns (aliases: Aliases)
    ensures aliases == Closure(records, name)
  {
    aliases := map[name := DAY];
    for round := 0 to |records|
      invariant Rounds(records, aliases, |records| - round) == Closure(records, name)
    {
      var changed := false;
      ghost var before := aliases;
      for i := 0 to |records|
        invariant before.Keys <= aliases.Keys && (changed <==> before != aliases)
        invariant changed ==> before.Keys != aliases.Keys
        invariant Pass(records[i..], aliases) == Pass(records, before)
      {
        assert records[i..][1..] == records[i + 1..];
        match records[i]
        case Alias(owner, ttl, target) =>
          if owner in aliases && target !in aliases {
            aliases := aliases[target := Min(ttl, aliases[owner])];
            changed := true;
          }
        case Address(_, _, _) =>
      }
      if !changed {
        break;
      }
    }
  }

  /* Every alias has a chain whose smallest time to live it carries. */

  ghost predicate Witnessed(records: seq<Answer>, name: bytes, aliases: Aliases) {
    forall x | x in aliases :: exists path :: Chain(records, name, path, x) && aliases[x] == Lifetime(path)
  }

  lemma FollowWitnessed(records: seq<Answer>, name: bytes, r: Answer, aliases: Aliases)
    requires Witnessed(records, name, aliases) && r in records
    ensures Witnessed(records, name, Follow(r, aliases))
  {
    if r.Alias? && r.owner in aliases && r.target !in aliases {
      var path :| Chain(records, name, path, r.owner) && aliases[r.owner] == Lifetime(path);
      var longer := path + [r];
      assert longer[..|longer| - 1] == path;
      assert Chain(records, name, longer, r.target) && Min(r.ttl, aliases[r.owner]) == Lifetime(longer);
    }
  }

  lemma {:induction false} PassWitnessed(records: seq<Answer>, name: bytes, some: seq<Answer>, aliases: Aliases)
    requires Witnessed(records, name, aliases) && forall r | r in some :: r in records
    ensures Witnessed(records, name, Pass(some, aliases))
  {
    hide Witnessed, Follow;
    if some != [] {
      FollowWitnessed(records, name, some[0], aliases);
      PassWitnessed(records, name, some[1..], Follow(some[0], aliases));
    }
  }

  lemma {:induction false} RoundsWitnessed(records: seq<Answer>, name: bytes, aliases: Aliases, n: nat)
    requires Witnessed(records, name, aliases)
    ensures Witnessed(records, name, Rounds(records, aliases, n))
    decreases n
  {
    hide Witnessed, Pass;
    PassWitnessed(records, name, records, aliases);
    if n > 0 && Pass(records, aliases) != aliases {
      RoundsWitnessed(records, name, Pass(records, aliases), n - 1);
    }
  }

  /* As many rounds as there are records always reach the fixpoint. */

  ghost predicate Closed(records: seq<Answer>, aliases: Aliases) {
    forall r | r in records && r.Alias? && r.owner in aliases :: r.target in aliases
  }

  function Targets(records: seq<Answer>): set<bytes> {
    set r | r in records && r.Alias? :: r.target
  }

  lemma {:induction false} FewTargets(records: seq<Answer>)
    ensures |Targets(records)| <= |records|
  {
    if records != [] {
      FewTargets(records[1..]);
      var r := records[0];
      assert Targets(records) == (if r.Alias? then {r.target} else {}) + Targets(records[1..]);
    }
  }

  lemma {:induction false} PassGrows(records: seq<Answer>, aliases: Aliases)
    ensures aliases.Keys <= Pass(records, aliases).Keys <= aliases.Keys + Targets(records)
    ensures Pass(records, aliases) == aliases || aliases.Keys < Pass(records, aliases).Keys
    ensures Pass(records, aliases) == aliases ==> Closed(records, aliases)
  {
    if records != [] {
      var r, next := records[0], Follow(records[0], aliases);
      PassGrows(records[1..], next);
      assert Targets(records[1..]) <= Targets(records);
      assert r.Alias? ==> r.target in Targets(records);
    }
  }

  function Missing(records: seq<Answer>, aliases: Aliases): nat {
    |Targets(records) - aliases.Keys|
  }

  lemma PassFinds(records: seq<Answer>, aliases: Aliases)
    ensures Pass(records, aliases) == aliases || Missing(records, Pass(records, aliases)) < Missing(records, aliases)
    ensures Pass(records, aliases) == aliases ==> Closed(records, aliases)
  {
    PassGrows(records, aliases);
    var next := Pass(records, aliases);
    if next != aliases {
      hide Pass, Targets;
      var before, after := Targets(records) - aliases.Keys, Targets(records) - next.Keys;
      assert after < before;
      assert |before| == |after| + |before - after|;
    }
  }

  lemma {:induction false} RoundsClose(records: seq<Answer>, aliases: Aliases, n: nat)
    requires Missing(records, aliases) <= n
    ensures Closed(records, Rounds(records, aliases, n)) && aliases.Keys <= Rounds(records, aliases, n).Keys
    decreases n
  {
    hide Pass, Missing, Targets, Closed;
    PassFinds(records, aliases);
    PassGrows(records, aliases);
    if Pass(records, aliases) != aliases {
      RoundsClose(records, Pass(records, aliases), n - 1);
    }
  }

  lemma {:induction false} ChainEndsInside(records: seq<Answer>, name: bytes, path: seq<Answer>, end: bytes,
                                           aliases: Aliases)
    requires Chain(records, name, path, end) && name in aliases && Closed(records, aliases)
    ensures end in aliases
    decreases |path|
  {
    if path != [] {
      ChainEndsInside(records, name, path[..|path| - 1], path[|path| - 1].owner, aliases);
    }
  }

  lemma MissingAtFirst(records: seq<Answer>, aliases: Aliases)
    ensures Missing(records, aliases) <= |records|
  {
    FewTargets(records);
    var all, found := Targets(records), Targets(records) * aliases.Keys;
    assert all - aliases.Keys == all - found && |all - found| == |all| - |found|;
  }

  /** The aliases are exactly the names reachable from the question, each with the lifetime of some chain to it. */
  lemma ClosureIsReachable(records: seq<Answer>, name: bytes, x: bytes)
    ensures x in Closure(records, name) <==> Reachable(records, name, x)
    ensures x in Closure(records, name) ==>
              exists path :: Chain(records, name, path, x) && Closure(records, name)[x] == Lifetime(path)
  {
    hide Rounds, Missing, Closed;
    var start: Aliases := map[name := DAY];
    assert Chain(records, name, [], name) && Lifetime([]) == DAY;
    RoundsWitnessed(records, name, start, |records|);
    MissingAtFirst(records, start);
    RoundsClose(records, start, |records|);
    var aliases := Closure(records, name);
    assert aliases == Rounds(records, start, |records|);
    assert name in start.Keys;
    if path :| Chain(records, name, path, x) {
      ChainEndsInside(records, name, path, x, aliases);
      assert x in aliases;
    } else {
      assert x !in aliases;
    }
  }
}
