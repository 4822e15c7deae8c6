/** Zero-downtime reindexing: list, name, create, fill, swap the alias, delete the old, where every
    request can be the last one before a crash and every delete can fail in silence. */
module Reindex {
  import opened Wrappers
  import opened Integers
  import opened Decimal

  // ---------------------------------------------------------------------------------------------
  // Naming the next index

  /** The version a name carries after the prefix, if it is one. */
  function Version(prefix: string, name: string): (version: Option<nat>)
    ensures version.Some? ==> version.value <= U32_MAX
  {
    if prefix <= name then Parse(name[|prefix|..], U32_MAX) else None
  }

  function Later(v: Option<nat>, w: Option<nat>): Option<nat> {
    if w.Some? && (v.None? || v.value < w.value) then w else v
  }

  function MaxVersion(prefix: string, names: seq<string>): (most: Option<nat>)
    ensures most.Some? ==> most.value <= U32_MAX
    ensures forall i :: 0 <= i < |names| && Version(prefix, names[i]).Some? ==>
              most.Some? && Version(prefix, names[i]).value <= most.value
    ensures most.Some? ==> exists i :: 0 <= i < |names| && Version(prefix, names[i]) == most
  {
    if names == [] then None
    else
      var front, last := names[..|names| - 1], names[|names| - 1];
      assert forall i :: 0 <= i < |front| ==> names[i] == front[i];
      Later(MaxVersion(prefix, front), Version(prefix, last))
  }

  function NextIndexName(prefix: string, existing: seq<string>): string {
    var next := match MaxVersion(prefix, existing)
      case None => 1
      case Some(v) => if v < U32_MAX then v + 1 else U32_MAX;
    prefix + Dec(next)
  }

  const LAST_VERSION := "4294967295"

  /** The one name after which the versions cannot grow. */
  function LastName(prefix: string): string {
    prefix + LAST_VERSION
  }

  /** The literal is the numeral of the largest u32. */
  lemma LastNameSpelled(prefix: string)
    ensures LastName(prefix) == prefix + Dec(U32_MAX)
  {
    assert Dec(4) == "4" && Dec(42) == "42" && Dec(429) == "429" && Dec(4294) == "4294";
    assert Dec(42949) == "42949" && Dec(429496) == "429496" && Dec(4294967) == "4294967";
    assert Dec(42949672) == "42949672" && Dec(429496729) == "429496729";
  }

  lemma VersionOfName(prefix: string, n: nat)
    requires n <= U32_MAX
    ensures Version(prefix, prefix + Dec(n)) == Some(n)
  {
    assert (prefix + Dec(n))[|prefix|..] == Dec(n);
    ParseUndoesDec(n, U32_MAX);
  }

  /** The chosen version is one more than the largest that is listed, or the first if none is. */
  lemma NextVersion(prefix: string, existing: seq<string>) returns (next: nat)
    ensures next <= U32_MAX && NextIndexName(prefix, existing) == prefix + Dec(next)
    ensures forall i, v :: 0 <= i < |existing| && Version(prefix, existing[i]) == Some(v) ==>
              v < next || next == U32_MAX
    ensures if forall i :: 0 <= i < |existing| ==> Version(prefix, existing[i]).None? then next == 1
            else exists i, v :: 0 <= i < |existing| && Version(prefix, existing[i]) == Some(v)
                                && next == if v < U32_MAX then v + 1 else U32_MAX
  {
    hide Version, Dec;
    var most := MaxVersion(prefix, existing);
    next := if most.None? then 1 else if most.value < U32_MAX then most.value + 1 else U32_MAX;
    if most.Some? {
      var i :| 0 <= i < |existing| && Version(prefix, existing[i]) == most;
      assert Version(prefix, existing[i]) == Some(most.value);
    }
  }

  /** The chosen name is already taken exactly when the last possible name is: leading zeros, plus
      signs, gaps and foreign suffixes in the listing do no harm. */
  lemma NextNameIsFresh(prefix: string, existing: seq<string>)
    ensures NextIndexName(prefix, existing) in existing <==> LastName(prefix) in existing
  {
    var most := MaxVersion(prefix, existing);
    VersionOfName(prefix, U32_MAX);
    LastNameSpelled(prefix);
    if LastName(prefix) in existing {
      var i :| 0 <= i < |existing| && existing[i] == LastName(prefix);
      assert Version(prefix, existing[i]).Some?;
    }
    var target := NextIndexName(prefix, existing);
    if target in existing {
      var i :| 0 <= i < |existing| && existing[i] == target;
      var next: nat := if most.None? then 1 else if most.value < U32_MAX then most.value + 1 else U32_MAX;
      VersionOfName(prefix, next);
      assert Version(prefix, existing[i]) == Some(next);
    }
  }

  // ---------------------------------------------------------------------------------------------
  // The protocol

  /** The cluster: every index with whether its fill finished, and the indices the alias points to. */
  datatype Cluster = Cluster(indices: map<string, bool>, alias: set<string>)

  datatype Phase =
    | Idle
    | Listed(existing: seq<string>)
    | Created(existing: seq<string>, target: string)
    | Filling(existing: seq<string>, target: string)
    | Filled(existing: seq<string>, target: string)
    | FillFailed(target: string)
    | Swapped(target: string, todo: seq<string>)
    | Finished(target: string)

  datatype World = World(cluster: Cluster, phase: Phase)

  datatype Move =
    | List(names: seq<string>)
    | Create
    | Fill
    | FillEnds(success: bool)
    | CleanUp(deleted: bool)
    | Swap
    | DeleteNext(deleted: bool)
    | Finish
    | Crash
    | Elsewhere(indices: map<string, bool>)

  function Matching(cluster: Cluster, prefix: string): set<string> {
    set name | name in cluster.indices && prefix <= name
  }

  /** Deleting an index also takes it out of the alias. */
  function Deleted(cluster: Cluster, name: string): Cluster {
    Cluster(cluster.indices - {name}, cluster.alias - {name})
  }

  predicate Possible(prefix: string, world: World, move: Move) {
    match move
    case List(names) => world.phase.Idle? && (set n | n in names) == Matching(world.cluster, prefix)
    case Create => world.phase.Listed?
    case Fill => world.phase.Created? && world.phase.target in world.cluster.indices
    case FillEnds(_) => world.phase.Filling?
    case CleanUp(_) => world.phase.FillFailed?
    case Swap => world.phase.Filled?
    case DeleteNext(_) => world.phase.Swapped? && world.phase.todo != []
    case Finish => world.phase.Swapped? && world.phase.todo == []
    case Crash => true
    case Elsewhere(indices) =>
      (map name | name in indices && prefix <= name :: indices[name])
      == (map name | name in world.cluster.indices && prefix <= name :: world.cluster.indices[name])
  }

  /** One request or decision of the indexer, a crash, or a change to indices of other prefixes. */
  function Act(prefix: string, world: World, move: Move): World
    requires Possible(prefix, world, move)
  {
    var cluster := world.cluster;
    match move
    case List(names) => World(cluster, Listed(names))
    case Create =>
      var target := NextIndexName(prefix, world.phase.existing);
      World(if target in cluster.indices then cluster else cluster.(indices := cluster.indices[target := false]),
            Created(world.phase.existing, target))
    case Fill =>
      World(cluster.(indices := cluster.indices[world.phase.target := false]),
            Filling(world.phase.existing, world.phase.target))
    case FillEnds(success) =>
      if success
      then World(cluster.(indices := cluster.indices[world.phase.target := true]),
                 Filled(world.phase.existing, world.phase.target))
      else World(cluster, FillFailed(world.phase.target))
    case CleanUp(deleted) => World(if deleted then Deleted(cluster, world.phase.target) else cluster, Idle)
    case Swap =>
      World(cluster.(alias := cluster.alias - Matching(cluster, prefix) + {world.phase.target}),
            Swapped(world.phase.target, world.phase.existing))
    case DeleteNext(deleted) =>
      var target, todo := world.phase.target, world.phase.todo;
      World(if deleted && todo[0] != target then Deleted(cluster, todo[0]) else cluster,
            Swapped(target, todo[1..]))
    case Finish => World(cluster, Finished(world.phase.target))
    case Crash => World(cluster, Idle)
    case Elsewhere(indices) => World(cluster.(indices := indices), world.phase)
  }

  /** A run in which no index is created while the last name is in use; creating the last name itself is
      allowed. */
  predicate Run(prefix: string, world: World, moves: seq<Move>)
    decreases |moves|
  {
    moves == []
    || (Possible(prefix, world, moves[0]) && (moves[0].Create? ==> LastName(prefix) !in world.cluster.indices)
        && Run(prefix, Act(prefix, world, moves[0]), moves[1..]))
  }

  function After(prefix: string, world: World, moves: seq<Move>): World
    requires Run(prefix, world, moves)
    decreases |moves|
  {
    if moves == [] then world else After(prefix, Act(prefix, world, moves[0]), moves[1..])
  }

  /** The alias points nowhere yet, or to exactly one index, which exists and was filled to the end. */
  ghost predicate Serving(prefix: string, cluster: Cluster) {
    || cluster.alias == {}
    || (exists name :: cluster.alias == {name} && prefix <= name
                       && name in cluster.indices && cluster.indices[name])
  }

  /** The target is there beside the listed indices, is none of them, and serves nobody. */
  ghost predicate UnderConstruction(prefix: string, cluster: Cluster, existing: seq<string>, target: string) {
    && prefix <= target && target in cluster.indices && target !in existing && target !in cluster.alias
    && Matching(cluster, prefix) == (set n | n in existing) + {target}
  }

  /** Whether every delete since the last listing was done. */
  function StillClean(clean: bool, move: Move): bool {
    match move
    case List(_) => true
    case DeleteNext(deleted) => clean && deleted
    case _ => clean
  }

  function CleanAfter(clean: bool, moves: seq<Move>): bool
    decreases |moves|
  {
    if moves == [] then clean else CleanAfter(StillClean(clean, moves[0]), moves[1..])
  }

  ghost predicate GoodPhase(prefix: string, world: World, clean: bool) {
    var cluster := world.cluster;
    match world.phase
    case Idle => true
    case Listed(existing) => (set n | n in existing) == Matching(cluster, prefix)
    case Created(existing, target) =>
      UnderConstruction(prefix, cluster, existing, target) && !cluster.indices[target]
    case Filling(existing, target) =>
      UnderConstruction(prefix, cluster, existing, target) && !cluster.indices[target]
    case Filled(existing, target) =>
      UnderConstruction(prefix, cluster, existing, target) && cluster.indices[target]
    case FillFailed(target) => target !in cluster.alias
    case Swapped(target, todo) =>
      && cluster.alias == {target}
      && (clean ==> Matching(cluster, prefix) <= (set n | n in todo) + {target})
    case Finished(target) =>
      && cluster.alias == {target}
      && (clean ==> Matching(cluster, prefix) == {target})
  }

  ghost predicate Safe(prefix: string, world: World, clean: bool) {
    Serving(prefix, world.cluster) && GoodPhase(prefix, world, clean)
  }

  lemma SameWithPrefix(prefix: string, world: World, indices: map<string, bool>)
    requires Possible(prefix, world, Elsewhere(indices))
    ensures forall name | prefix <= name ::
              && (name in indices <==> name in world.cluster.indices)
              && (name in indices ==> indices[name] == world.cluster.indices[name])
  {
    var here := map name | name in world.cluster.indices && prefix <= name :: world.cluster.indices[name];
    var there := map name | name in indices && prefix <= name :: indices[name];
    forall name | prefix <= name
      ensures name in indices <==> name in world.cluster.indices
      ensures name in indices ==> indices[name] == world.cluster.indices[name]
    {
      assert name in here <==> name in there;
    }
  }

  lemma ElsewhereIsElsewhere(prefix: string, world: World, indices: map<string, bool>)
    requires Possible(prefix, world, Elsewhere(indices))
    ensures Matching(world.cluster.(indices := indices), prefix) == Matching(world.cluster, prefix)
    ensures
      var next := Act(prefix, world, Elsewhere(indices));
      next.phase == world.phase && next.cluster == world.cluster.(indices := indices)
  {
    SameWithPrefix(prefix, world, indices);
  }

  lemma CreateIsSafe(prefix: string, world: World, clean: bool)
    requires Safe(prefix, world, clean) && world.phase.Listed? && LastName(prefix) !in world.cluster.indices
    ensures Safe(prefix, Act(prefix, world, Create), clean)
  {
    var existing := world.phase.existing;
    var target := NextIndexName(prefix, existing);
    NextNameIsFresh(prefix, existing);
    assert prefix <= LastName(prefix) && prefix <= target;
    assert forall n :: n in existing <==> n in Matching(world.cluster, prefix) by {
      assert forall n :: n in existing <==> n in (set n | n in existing);
    }
    assert target !in world.cluster.indices;
    var next := Act(prefix, world, Create).cluster;
    assert Matching(next, prefix) == Matching(world.cluster, prefix) + {target};
    if world.cluster.alias != {} {
      var name :| world.cluster.alias == {name} && prefix <= name
                  && name in world.cluster.indices && world.cluster.indices[name];
      assert name != target;
      assert next.alias == {name} && prefix <= name && name in next.indices && next.indices[name];
    }
  }

  lemma SwapIsSafe(prefix: string, world: World, clean: bool)
    requires Safe(prefix, world, clean) && world.phase.Filled?
    ensures Safe(prefix, Act(prefix, world, Swap), clean)
  {
    var next := Act(prefix, world, Swap);
    if world.cluster.alias != {} {
      var name :| world.cluster.alias == {name} && prefix <= name
                  && name in world.cluster.indices && world.cluster.indices[name];
      assert name in Matching(world.cluster, prefix);
    }
    assert next.cluster.alias == {world.phase.target};
  }

  lemma ServingSurvives(prefix: string, before: Cluster, after: Cluster)
    requires Serving(prefix, before) && before.alias == after.alias
    requires forall name :: name in before.alias && name in before.indices ==>
               name in after.indices && after.indices[name] == before.indices[name]
    ensures Serving(prefix, after)
  {
  }

  /** The alias points to the target of the run, which is there and full. */
  lemma TargetServes(prefix: string, world: World, clean: bool)
    requires Safe(prefix, world, clean) && world.phase.Swapped?
    ensures
      var target := world.phase.target;
      prefix <= target && target in world.cluster.indices && world.cluster.indices[target]
  {
    var name :| world.cluster.alias == {name} && prefix <= name
                && name in world.cluster.indices && world.cluster.indices[name];
    assert name in world.cluster.alias;
  }

  lemma DeleteIsSafe(prefix: string, world: World, clean: bool, deleted: bool)
    requires Safe(prefix, world, clean) && world.phase.Swapped? && world.phase.todo != []
    ensures Safe(prefix, Act(prefix, world, DeleteNext(deleted)), clean && deleted)
    ensures Act(prefix, world, DeleteNext(deleted)).cluster.alias != {}
  {
    var next := Act(prefix, world, DeleteNext(deleted));
    var (target, todo) := (world.phase.target, world.phase.todo);
    TargetServes(prefix, world, clean);
    assert next.cluster.alias == {target};
    assert (set n | n in todo) == {todo[0]} + (set n | n in todo[1..]);
    if deleted && todo[0] != target {
      assert Matching(next.cluster, prefix) == Matching(world.cluster, prefix) - {todo[0]};
    }
  }

  lemma ActKeepsSafe(prefix: string, world: World, clean: bool, move: Move)
    requires Safe(prefix, world, clean) && Possible(prefix, world, move)
    requires move.Create? ==> LastName(prefix) !in world.cluster.indices
    ensures Safe(prefix, Act(prefix, world, move), StillClean(clean, move))
    ensures world.cluster.alias != {} ==> Act(prefix, world, move).cluster.alias != {}
  {
    var next := Act(prefix, world, move);
    match move {
      case Create => CreateIsSafe(prefix, world, clean);
      case Swap => SwapIsSafe(prefix, world, clean);
      case Elsewhere(indices) =>
        ElsewhereIsElsewhere(prefix, world, indices);
        SameWithPrefix(prefix, world, indices);
        if world.cluster.alias != {} {
          var name :| world.cluster.alias == {name} && prefix <= name
                      && name in world.cluster.indices && world.cluster.indices[name];
          assert next.cluster.alias == {name} && name in next.cluster.indices && next.cluster.indices[name];
        }
      case DeleteNext(deleted) => DeleteIsSafe(prefix, world, clean, deleted);
      case Finish =>
        TargetServes(prefix, world, clean);
        assert world.phase.target in Matching(world.cluster, prefix);
      case Fill =>
        ServingSurvives(prefix, world.cluster, next.cluster);
        assert Matching(next.cluster, prefix) == Matching(world.cluster, prefix);
      case FillEnds(success) =>
        ServingSurvives(prefix, world.cluster, next.cluster);
        assert Matching(next.cluster, prefix) == Matching(world.cluster, prefix);
      case CleanUp(deleted) =>
        assert next.cluster.alias == world.cluster.alias;
        ServingSurvives(prefix, world.cluster, next.cluster);
      case List(_) =>
      case Crash =>
    }
  }

  lemma {:induction false} RunKeepsSafe(prefix: string, world: World, clean: bool, moves: seq<Move>)
    requires Safe(prefix, world, clean) && Run(prefix, world, moves)
    ensures Safe(prefix, After(prefix, world, moves), CleanAfter(clean, moves))
    ensures world.cluster.alias != {} ==> After(prefix, world, moves).cluster.alias != {}
    decreases |moves|
  {
    hide Safe, Act, Possible, LastName, StillClean;
    if moves == [] {
    } else {
      ActKeepsSafe(prefix, world, clean, moves[0]);
      RunKeepsSafe(prefix, Act(prefix, world, moves[0]), StillClean(clean, moves[0]), moves[1..]);
    }
  }

  /** Over every run of one indexer, with crashes between any two requests, fills that fail and deletes
      that do nothing: once the alias points anywhere it always points to exactly one index, which
      exists and was filled to the end; and a run that finishes after every delete since its listing was
      done leaves the new index alone, whatever earlier crashes had left behind. */
  lemma AliasIsAlwaysServed(prefix: string, world: World, moves: seq<Move>)
    requires Serving(prefix, world.cluster) && world.phase == Idle && Run(prefix, world, moves)
    ensures
      var end := After(prefix, world, moves);
      && Serving(prefix, end.cluster)
      && (world.cluster.alias != {} ==> end.cluster.alias != {})
      && (end.phase.Finished? ==> end.cluster.alias == {end.phase.target})
      && (end.phase.Finished? && CleanAfter(true, moves) ==> Matching(end.cluster, prefix) == {end.phase.target})
  {
    RunKeepsSafe(prefix, world, true, moves);
  }

  // ---------------------------------------------------------------------------------------------
  // Whole runs

  /** A delete that is done removes the next listed index, unless that is the target, and no other. */
  lemma DeleteRemovesOne(prefix: string, world: World, name: string)
    requires world.phase.Swapped? && world.phase.todo != []
    ensures
      var next := Act(prefix, world, DeleteNext(true));
      var gone := world.phase.todo[0];
      && (name in next.cluster.indices
          <==> name in world.cluster.indices && (name != gone || name == world.phase.target))
      && (name in next.cluster.indices ==> next.cluster.indices[name] == world.cluster.indices[name])
      && next.phase == Swapped(world.phase.target, world.phase.todo[1..])
  {
  }

  function Deletes(n: nat): seq<Move> {
    if n == 0 then [Finish] else [DeleteNext(true)] + Deletes(n - 1)
  }

  /** The deletes of a run can all be made, and take away what was listed and nothing else. */
  lemma {:induction false} DeletesFinish(prefix: string, world: World)
    requires world.phase.Swapped? && world.cluster.alias == {world.phase.target}
    requires world.phase.target !in world.phase.todo
    ensures Run(prefix, world, Deletes(|world.phase.todo|))
    ensures
      After(prefix, world, Deletes(|world.phase.todo|))
      == World(Cluster(world.cluster.indices - (set n | n in world.phase.todo), {world.phase.target}),
               Finished(world.phase.target))
    decreases |world.phase.todo|
  {
    var todo := world.phase.todo;
    if todo == [] {
      assert [Finish][1..] == [];
      assert (set n | n in todo) == {};
      assert world.cluster.indices - {} == world.cluster.indices;
    } else {
      var next := Act(prefix, world, DeleteNext(true));
      DeletesFinish(prefix, next);
      assert Deletes(|todo|)[1..] == Deletes(|todo[1..]|);
      assert (set n | n in todo) == {todo[0]} + (set n | n in todo[1..]);
      assert world.cluster.indices - {todo[0]} - (set n | n in todo[1..])
          == world.cluster.indices - (set n | n in todo);
    }
  }

  /** The name chosen from a listing is not there yet. */
  lemma ListedIsFresh(prefix: string, world: World, names: seq<string>)
    requires Possible(prefix, world, List(names)) && LastName(prefix) !in world.cluster.indices
    ensures NextIndexName(prefix, names) !in world.cluster.indices
  {
    var target := NextIndexName(prefix, names);
    NextNameIsFresh(prefix, names);
    assert forall n :: n in names <==> n in Matching(world.cluster, prefix) by {
      assert forall n :: n in names <==> n in (set n | n in names);
    }
    assert prefix <= LastName(prefix) && prefix <= target;
  }

  lemma OneMove(prefix: string, world: World, move: Move, moves: seq<Move>)
    requires Possible(prefix, world, move) && (move.Create? ==> LastName(prefix) !in world.cluster.indices)
    requires Run(prefix, Act(prefix, world, move), moves)
    ensures Run(prefix, world, [move] + moves)
    ensures After(prefix, world, [move] + moves) == After(prefix, Act(prefix, world, move), moves)
  {
    assert ([move] + moves)[1..] == moves;
  }

  /** The requests up to the fill, made one after the other. */
  lemma ThroughTheFill(prefix: string, world: World, names: seq<string>, success: bool)
    requires world.phase == Idle && Possible(prefix, world, List(names)) && LastName(prefix) !in world.cluster.indices
    ensures NextIndexName(prefix, names) !in world.cluster.indices
    ensures
      var target := NextIndexName(prefix, names);
      var filled := Cluster(world.cluster.indices[target := success], world.cluster.alias);
      && Run(prefix, world, [List(names), Create, Fill, FillEnds(success)])
      && After(prefix, world, [List(names), Create, Fill, FillEnds(success)])
         == World(filled, if success then Filled(names, target) else FillFailed(target))
  {
    hide NextIndexName, LastName, Matching;
    ListedIsFresh(prefix, world, names);
    var target := NextIndexName(prefix, names);
    var listed := Act(prefix, world, List(names));
    var created := Act(prefix, listed, Create);
    var filling := Act(prefix, created, Fill);
    var filled := Act(prefix, filling, FillEnds(success));
    assert filled.cluster.indices == world.cluster.indices[target := success];
    OneMove(prefix, filling, FillEnds(success), []);
    OneMove(prefix, created, Fill, [FillEnds(success)]);
    OneMove(prefix, listed, Create, [Fill, FillEnds(success)]);
    OneMove(prefix, world, List(names), [Create, Fill, FillEnds(success)]);
  }

  lemma {:induction false} RunsConcatenate(prefix: string, world: World, first: seq<Move>, second: seq<Move>)
    requires Run(prefix, world, first) && Run(prefix, After(prefix, world, first), second)
    ensures Run(prefix, world, first + second)
    ensures After(prefix, world, first + second) == After(prefix, After(prefix, world, first), second)
    decreases |first|
  {
    hide Act, Possible, LastName;
    if first == [] {
      assert first + second == second;
    } else {
      RunsConcatenate(prefix, Act(prefix, world, first[0]), first[1..], second);
      assert (first + second)[1..] == first[1..] + second;
    }
  }

  /** From a filled index on: the swap and the deletes. */
  lemma SwapAndDelete(prefix: string, world: World)
    requires world.phase.Filled? && world.phase.target !in world.phase.existing
    requires world.cluster.alias <= Matching(world.cluster, prefix)
    ensures
      var moves := [Swap] + Deletes(|world.phase.existing|);
      var target := world.phase.target;
      && Run(prefix, world, moves)
      && After(prefix, world, moves)
         == World(Cluster(world.cluster.indices - (set n | n in world.phase.existing), {target}), Finished(target))
  {
    hide Deletes, Matching;
    var swapped := Act(prefix, world, Swap);
    assert swapped.cluster.alias == {world.phase.target};
    DeletesFinish(prefix, swapped);
    OneMove(prefix, world, Swap, Deletes(|world.phase.existing|));
  }

  lemma StillMatching(prefix: string, cluster: Cluster, target: string)
    requires Serving(prefix, cluster)
    ensures cluster.alias <= Matching(Cluster(cluster.indices[target := true], cluster.alias), prefix)
  {
  }

  lemma ListedArePresent(prefix: string, world: World, names: seq<string>)
    requires Possible(prefix, world, List(names))
    ensures forall n :: n in names ==> n in world.cluster.indices
  {
    forall n | n in names
      ensures n in world.cluster.indices
    {
      assert n in (set m | m in names);
      assert n in Matching(world.cluster, prefix);
    }
  }

  /** A run in which nothing fails: the new index takes the place of all that were listed, and indices of
      other prefixes are as they were. */
  lemma WholeRun(prefix: string, world: World, names: seq<string>)
    requires Serving(prefix, world.cluster) && world.phase == Idle
    requires Possible(prefix, world, List(names)) && LastName(prefix) !in world.cluster.indices
    ensures
      var moves := [List(names), Create, Fill, FillEnds(true)] + ([Swap] + Deletes(|names|));
      var target := NextIndexName(prefix, names);
      && Run(prefix, world, moves)
      && After(prefix, world, moves)
         == World(Cluster((world.cluster.indices - (set n | n in names))[target := true], {target}), Finished(target))
  {
    hide NextIndexName, LastName, Act, Run, After, Deletes, Matching, Serving;
    var target := NextIndexName(prefix, names);
    ThroughTheFill(prefix, world, names, true);
    var first := [List(names), Create, Fill, FillEnds(true)];
    var filled := After(prefix, world, first);
    assert target !in names by {
      ListedArePresent(prefix, world, names);
    }
    StillMatching(prefix, world.cluster, target);
    SwapAndDelete(prefix, filled);
    RunsConcatenate(prefix, world, first, [Swap] + Deletes(|names|));
    assert world.cluster.indices[target := true] - (set n | n in names)
        == (world.cluster.indices - (set n | n in names))[target := true];
  }

  lemma AliasMatches(prefix: string, cluster: Cluster)
    requires Serving(prefix, cluster)
    ensures cluster.alias <= Matching(cluster, prefix)
  {
  }

  /** A fill that fails and is cleaned up leaves the cluster as it was. */
  lemma FailedRunLeavesNoTrace(prefix: string, world: World, names: seq<string>)
    requires Serving(prefix, world.cluster) && world.phase == Idle
    requires Possible(prefix, world, List(names)) && LastName(prefix) !in world.cluster.indices
    ensures
      var moves := [List(names), Create, Fill, FillEnds(false)] + [CleanUp(true)];
      Run(prefix, world, moves) && After(prefix, world, moves) == world
  {
    hide NextIndexName, LastName;
    var target := NextIndexName(prefix, names);
    ThroughTheFill(prefix, world, names, false);
    var first := [List(names), Create, Fill, FillEnds(false)];
    var failed := After(prefix, world, first);
    AliasMatches(prefix, world.cluster);
    assert target !in world.cluster.alias;
    assert world.cluster.indices[target := false] - {target} == world.cluster.indices;
    assert world.cluster.alias - {target} == world.cluster.alias;
    assert Act(prefix, failed, CleanUp(true)) == world;
    assert [CleanUp(true)] == [CleanUp(true)] + [];
    OneMove(prefix, failed, CleanUp(true), []);
    RunsConcatenate(prefix, world, first, [CleanUp(true)]);
  }

  lemma {:induction false} StaysClean(moves: seq<Move>)
    requires forall i :: 0 <= i < |moves| ==> moves[i] != DeleteNext(false)
    ensures CleanAfter(true, moves)
    decreases |moves|
  {
    if moves == [] {
    } else {
      StaysClean(moves[1..]);
    }
  }

  lemma {:induction false} CleanSinceListing(clean: bool, earlier: seq<Move>, names: seq<string>, later: seq<Move>)
    requires forall i :: 0 <= i < |later| ==> later[i] != DeleteNext(false)
    ensures CleanAfter(clean, earlier + ([List(names)] + later))
    decreases |earlier|
  {
    var moves := earlier + ([List(names)] + later);
    if earlier == [] {
      assert moves[1..] == later;
      StaysClean(later);
    } else {
      CleanSinceListing(StillClean(clean, earlier[0]), earlier[1..], names, later);
      assert moves[1..] == earlier[1..] + ([List(names)] + later);
    }
  }

  /** Deletes that are done are all that matters: a run with no delete that failed since its last listing
      leaves its own index alone when it finishes, whatever happened before the listing. */
  lemma DeletesDoneLeaveOne(prefix: string, world: World, earlier: seq<Move>, names: seq<string>, later: seq<Move>)
    requires Serving(prefix, world.cluster) && world.phase == Idle
    requires Run(prefix, world, earlier + ([List(names)] + later))
    requires forall i :: 0 <= i < |later| ==> later[i] != DeleteNext(false)
    ensures
      var end := After(prefix, world, earlier + ([List(names)] + later));
      end.phase.Finished? ==> Matching(end.cluster, prefix) == {end.phase.target} == end.cluster.alias
  {
    AliasIsAlwaysServed(prefix, world, earlier + ([List(names)] + later));
    CleanSinceListing(true, earlier, names, later);
  }

  lemma NextIsPrefixed(prefix: string, names: seq<string>)
    ensures prefix <= NextIndexName(prefix, names)
  {
  }

  /** The indexer may stop at any moment, which changes nothing in the cluster, and the next run that nothing
      fails in puts its own index in the place of everything that is there. */
  lemma RunAfterCrash(prefix: string, world: World, clean: bool, names: seq<string>)
    requires Safe(prefix, world, clean) && LastName(prefix) !in world.cluster.indices
    requires (set n | n in names) == Matching(world.cluster, prefix)
    ensures
      var moves := [Crash] + ([List(names), Create, Fill, FillEnds(true)] + ([Swap] + Deletes(|names|)));
      && Run(prefix, world, moves)
      && Matching(After(prefix, world, moves).cluster, prefix) == {NextIndexName(prefix, names)}
      && After(prefix, world, moves).cluster.alias == {NextIndexName(prefix, names)}
  {
    hide NextIndexName, Deletes, Serving;
    var crashed := Act(prefix, world, Crash);
    var moves := [List(names), Create, Fill, FillEnds(true)] + ([Swap] + Deletes(|names|));
    WholeRun(prefix, crashed, names);
    OneMove(prefix, world, Crash, moves);
    NextIsPrefixed(prefix, names);
    var end := After(prefix, crashed, moves);
    assert end.cluster.indices
        == (world.cluster.indices - (set n | n in names))[NextIndexName(prefix, names) := true];
    assert Matching(end.cluster, prefix) == {NextIndexName(prefix, names)};
  }

  /** The bound on versions matters: with the last name in use, the next run takes the live index for
      its new one and empties it under the readers. */
  lemma LastVersionIsReused(prefix: string)
    ensures
      var world := World(Cluster(map[LastName(prefix) := true], {LastName(prefix)}), Idle);
      && Serving(prefix, world.cluster)
      && Possible(prefix, world, List([LastName(prefix)]))
      && var listed := Act(prefix, world, List([LastName(prefix)]));
         var created := Act(prefix, listed, Create);
         && Possible(prefix, created, Fill)
         && !Serving(prefix, Act(prefix, created, Fill).cluster)
  {
    var last := LastName(prefix);
    assert prefix <= last;
    NextNameIsFresh(prefix, [last]);
    assert last in [last];
    var world := World(Cluster(map[last := true], {last}), Idle);
    assert Matching(world.cluster, prefix) == {last};
    assert NextIndexName(prefix, [last]) in [last];
    var listed := Act(prefix, world, List([last]));
    var created := Act(prefix, listed, Create);
    assert created.phase.target == last;
    var filling := Act(prefix, created, Fill).cluster;
    assert filling.alias == {last} && filling.indices == map[last := false];
    assert last in filling.alias;
  }
}
