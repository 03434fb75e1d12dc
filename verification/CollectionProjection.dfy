/** Projecting a collection graph through a visibility rule. */
module CollectionProjection {
  import opened Results
  import opened Sequences
  import opened Graphs
  import opened Topology
  import opened CollectionGraph
  import opened CollectionTraversal

  /** Which targets may be seen, and which collections may be seen even when nothing in them may. */
  datatype Rule = Rule(target: TargetId -> bool, empty: Id -> bool)

  ghost predicate ShowsSomething(graph: Graph, rule: Rule, id: Id) {
    rule.empty(id) || exists t :: TargetMember(t) in Members(graph, id) && rule.target(t)
  }

  /** A collection is visible when something is shown by it or by a collection nested in it at any depth. */
  ghost predicate Visible(graph: Graph, rule: Rule, id: Id) {
    exists c :: Reaches(Links(graph), id, c) && ShowsSomething(graph, rule, c)
  }

  ghost predicate Keeps(graph: Graph, rule: Rule, member: Member) {
    match member
    case TargetMember(target) => rule.target(target)
    case NestedMember(id) => Visible(graph, rule, id)
  }

  ghost function Kept(graph: Graph, rule: Rule, members: seq<Member>): (r: seq<Member>)
    ensures forall m :: m in r <==> m in members && Keeps(graph, rule, m)
  {
    if members == [] then []
    else
      var init, last := members[..|members| - 1], members[|members| - 1];
      assert members == init + [last];
      if Keeps(graph, rule, last) then Kept(graph, rule, init) + [last] else Kept(graph, rule, init)
  }

  ghost function ProjectionOf(graph: Graph, rule: Rule, id: Id): Option<Collection> {
    if Visible(graph, rule, id) then Some(Collection(id, Kept(graph, rule, Members(graph, id)))) else None
  }

  lemma {:induction false} VisibleUnfold(graph: Graph, rule: Rule, id: Id)
    ensures Visible(graph, rule, id) <==> rule.empty(id) || Kept(graph, rule, Members(graph, id)) != []
  {
    var members := Members(graph, id);
    var kept := Kept(graph, rule, members);
    ReachesUnfold(Links(graph), id, id);
    if Visible(graph, rule, id) {
      var c :| Reaches(Links(graph), id, c) && ShowsSomething(graph, rule, c);
      ReachesUnfold(Links(graph), id, c);
      if c != id {
        var via :| via in Links(graph)(id) && Reaches(Links(graph), via, c);
        assert Visible(graph, rule, via);
        assert NestedMember(via) in kept;
      } else if !rule.empty(id) {
        var t :| TargetMember(t) in members && rule.target(t);
        assert TargetMember(t) in kept;
      }
    }
    if kept != [] {
      assert kept[0] in kept;
      match kept[0]
      case TargetMember(t) => assert ShowsSomething(graph, rule, id);
      case NestedMember(n) =>
        var c :| Reaches(Links(graph), n, c) && ShowsSomething(graph, rule, c);
        assert n in Links(graph)(id);
        ReachesUnfold(Links(graph), id, c);
    }
  }

  // ----- The cached projection

  ghost predicate CacheExact(graph: Graph, rule: Rule, visiting: set<Id>, cache: map<Id, Option<Collection>>) {
    && CacheClosed(graph, visiting, cache.Keys)
    && forall id :: id in cache ==> cache[id] == ProjectionOf(graph, rule, id)
  }

  lemma {:induction false} FinishProjection(graph: Graph, path: set<Id>, finished: set<Id>, id: Id)
    requires EntryError(graph, id, path).None? && Gather(graph, id, path).Ok?
    requires CacheClosed(graph, path + {id}, finished)
    requires forall n :: n in Links(graph)(id) ==> n in finished
    ensures CacheClosed(graph, path, finished + {id})
  {
    GatherFromSmallerPath(graph, id, path, {});
  }

  class Projector {
    const graph: Graph
    const rule: Rule
    var visiting: set<Id>
    var cache: map<Id, Option<Collection>>

    constructor (graph: Graph, rule: Rule)
      ensures this.graph == graph && this.rule == rule && visiting == {} && cache == map[]
    {
      this.graph, this.rule := graph, rule;
      visiting, cache := {}, map[];
    }

    ghost predicate Valid()
      reads this
    {
      CacheExact(graph, rule, visiting, cache)
    }

    method ProjectOne(id: Id) returns (r: Result<Option<Collection>, GraphError>)
      requires Valid()
      modifies this
      ensures var gathered := Gather(graph, id, old(visiting));
              && (gathered.Err? ==> r == Err(gathered.error))
              && (gathered.Ok? ==>
                    && r == Ok(ProjectionOf(graph, rule, id)) && Valid()
                    && visiting == old(visiting)
                    && cache.Keys >= old(cache.Keys) + {id})
      decreases graph.collections.Keys - visiting, 0
    {
      if id in cache {
        FinishedGathers(graph, visiting, cache.Keys, id);
        return Ok(cache[id]);
      }
      if id in graph.duplicates {
        return Err(DuplicateCollection(id));
      }
      if id in visiting {
        return Err(MembershipCycle(id));
      }
      ghost var path := visiting;
      visiting := visiting + {id};
      if id !in graph.collections {
        return Err(CollectionNotFound(id));
      }
      EnteringDecreases(graph, id, path);
      var members := ProjectMembers(graph.collections[id].members);
      if members.Err? {
        return Err(members.error);
      }
      visiting := visiting - {id};
      assert visiting == path;
      VisibleUnfold(graph, rule, id);
      FinishProjection(graph, path, cache.Keys, id);
      var projected := if members.value == [] && !rule.empty(id) then None else Some(Collection(id, members.value));
      cache := cache[id := projected];
      return Ok(projected);
    }

    method ProjectMembers(members: seq<Member>) returns (r: Result<seq<Member>, GraphError>)
      requires Valid()
      modifies this
      ensures var gathered := GatherMembers(graph, members, old(visiting));
              && (gathered.Err? ==> r == Err(gathered.error))
              && (gathered.Ok? ==>
                    && r == Ok(Kept(graph, rule, members)) && Valid()
                    && visiting == old(visiting)
                    && cache.Keys >= old(cache.Keys)
                    && forall n :: NestedMember(n) in members ==> n in cache)
      decreases graph.collections.Keys - visiting, 1
    {
      ghost var path := visiting;
      var kept: seq<Member> := [];
      for i := 0 to |members|
        invariant Valid() && visiting == path
        invariant cache.Keys >= old(cache.Keys)
        invariant forall n :: NestedMember(n) in members[..i] ==> n in cache
        invariant KeptUpTo(graph, rule, members, path, i, kept)
      {
        KeepNext(graph, rule, members, path, i, kept);
        assert forall m :: m in members[..i + 1] ==> m in members[..i] || m == members[i];
        match members[i] {
          case TargetMember(target) =>
            if rule.target(target) {
              kept := kept + [members[i]];
            }
          case NestedMember(nested) =>
            var below := ProjectOne(nested);
            if below.Err? {
              return Err(below.error);
            }
            if below.value.Some? {
              kept := kept + [members[i]];
            }
        }
      }
      assert members[..|members|] == members;
      return Ok(kept);
    }
  }

  /** The first `done` members gather, and `kept` are those of them that the projection keeps. */
  ghost predicate KeptUpTo(graph: Graph, rule: Rule, members: seq<Member>, path: set<Id>, done: nat, kept: seq<Member>)
    requires done <= |members|
  {
    GatherMembers(graph, members[..done], path).Ok? && kept == Kept(graph, rule, members[..done])
  }

  /** One more member is kept or not, or ends the projection with its error. */
  lemma {:induction false} KeepNext(graph: Graph, rule: Rule, members: seq<Member>, path: set<Id>, done: nat,
                                    kept: seq<Member>)
    requires done < |members| && KeptUpTo(graph, rule, members, path, done, kept)
    ensures members[done].NestedMember? && Gather(graph, members[done].id, path).Err? ==>
              GatherMembers(graph, members, path) == Gather(graph, members[done].id, path)
    ensures members[done].TargetMember? || Gather(graph, members[done].id, path).Ok? ==>
              KeptUpTo(graph, rule, members, path, done + 1,
                       if Keeps(graph, rule, members[done]) then kept + [members[done]] else kept)
  {
    assert members[..done + 1][..done] == members[..done];
    if members[done].NestedMember? && Gather(graph, members[done].id, path).Err? {
      GatherStopsAtFirstError(graph, members, path, done + 1);
    }
  }

  /** The projections of the visible collections among `ids`, in that order. */
  ghost function Projections(graph: Graph, rule: Rule, ids: seq<Id>): seq<Collection> {
    if ids == [] then []
    else
      var before := Projections(graph, rule, ids[..|ids| - 1]);
      match ProjectionOf(graph, rule, ids[|ids| - 1])
      case None => before
      case Some(collection) => before + [collection]
  }

  lemma {:induction false} ProjectionsNext(graph: Graph, rule: Rule, ids: seq<Id>, i: nat)
    requires i < |ids|
    ensures var before, one := Projections(graph, rule, ids[..i]), ProjectionOf(graph, rule, ids[i]);
            Projections(graph, rule, ids[..i + 1]) == if one.None? then before else before + [one.value]
  {
    assert ids[..i + 1][..i] == ids[..i];
  }

  /** The first `i` of the identifiers resolve. */
  ghost predicate ResolveUpTo(graph: Graph, ids: seq<Id>, i: nat) {
    i <= |ids| && forall k :: 0 <= k < i ==> Resolution(graph, ids[k]).Ok?
  }

  /** The identifiers are visited in the sorted order `ids`; an error is that of the first one that has any. */
  method Project(graph: Graph, rule: Rule, ids: seq<Id>) returns (r: Result<seq<Collection>, GraphError>)
    requires NoDuplicates(ids) && forall id :: id in ids <==> id in graph.collections
    ensures r.Ok? <==> forall id :: id in graph.collections ==> Resolution(graph, id).Ok?
    ensures r.Ok? ==> r.value == Projections(graph, rule, ids)
    ensures r.Err? ==>
              exists i: nat :: ResolveUpTo(graph, ids, i) && i < |ids| && Resolution(graph, ids[i]) == Err(r.error)
  {
    var projector := new Projector(graph, rule);
    var projected: seq<Collection> := [];
    for i := 0 to |ids|
      invariant projector.Valid() && projector.visiting == {}
      invariant projector.graph == graph && projector.rule == rule
      invariant projected == Projections(graph, rule, ids[..i])
      invariant ResolveUpTo(graph, ids, i)
    {
      ProjectionsNext(graph, rule, ids, i);
      var one := projector.ProjectOne(ids[i]);
      if one.Err? {
        assert Resolution(graph, ids[i]) == Err(one.error);
        return Err(one.error);
      }
      if one.value.Some? {
        projected := projected + [one.value.value];
      }
    }
    assert ids[..|ids|] == ids;
    return Ok(projected);
  }

  // ----- What a projection shows

  lemma {:induction false} ProjectionsMembers(graph: Graph, rule: Rule, ids: seq<Id>)
    ensures forall c :: c in Projections(graph, rule, ids) <==>
                        c.id in ids && ProjectionOf(graph, rule, c.id) == Some(c)
    ensures NoDuplicates(ids) ==> forall i, j :: 0 <= i < j < |Projections(graph, rule, ids)| ==>
              Projections(graph, rule, ids)[i].id != Projections(graph, rule, ids)[j].id
  {
    if ids != [] {
      var init, last := ids[..|ids| - 1], ids[|ids| - 1];
      assert ids == init + [last];
      ProjectionsMembers(graph, rule, init);
      assert forall i :: 0 <= i < |Projections(graph, rule, init)| ==>
          Projections(graph, rule, init)[i] in Projections(graph, rule, init);
    }
  }

  /** A projection shows no hidden target, and every link it keeps leads to a collection it also shows. */
  lemma {:induction false} ProjectionHidesAndCloses(graph: Graph, rule: Rule, ids: seq<Id>, shown: Collection,
                                                    member: Member)
    requires forall id :: id in graph.collections ==> id in ids && Resolution(graph, id).Ok?
    requires shown in Projections(graph, rule, ids) && member in shown.members
    ensures member.TargetMember? ==> rule.target(member.target)
    ensures member.NestedMember? ==>
              exists c :: c in Projections(graph, rule, ids) && c.id == member.id
    ensures member in Members(graph, shown.id)
  {
    ProjectionsMembers(graph, rule, ids);
    if member.NestedMember? {
      var c := ProjectionOf(graph, rule, member.id).value;
      ResolutionIsExact(graph, shown.id);
      ReachesUnfold(Links(graph), member.id, member.id);
      ReachesUnfold(Links(graph), shown.id, member.id);
      assert member.id in Links(graph)(shown.id);
      assert c in Projections(graph, rule, ids);
    }
  }

  function ShownTargets(rule: Rule, targets: seq<TargetId>): seq<TargetId> {
    if targets == [] then []
    else
      var before := ShownTargets(rule, targets[..|targets| - 1]);
      var last := targets[|targets| - 1];
      if rule.target(last) then before + [last] else before
  }

  lemma {:induction false} ShownTargetsConcat(rule: Rule, first: seq<TargetId>, second: seq<TargetId>)
    ensures ShownTargets(rule, first + second) == ShownTargets(rule, first) + ShownTargets(rule, second)
  {
    if second == [] {
      assert first + second == first;
    } else {
      assert (first + second)[..|first + second| - 1] == first + second[..|second| - 1];
      ShownTargetsConcat(rule, first, second[..|second| - 1]);
    }
  }

  lemma {:induction false} ShownTargetsMembers(rule: Rule, targets: seq<TargetId>)
    ensures forall t :: t in ShownTargets(rule, targets) <==> t in targets && rule.target(t)
    ensures (forall t :: t in targets ==> !rule.target(t)) ==> ShownTargets(rule, targets) == []
  {
    if targets != [] {
      assert targets == targets[..|targets| - 1] + [targets[|targets| - 1]];
      ShownTargetsMembers(rule, targets[..|targets| - 1]);
    }
  }

  /** Hiding targets and dropping repeats can be done in either order. */
  lemma {:induction false} ShownTargetsDeduplicated(rule: Rule, targets: seq<TargetId>)
    ensures AppendNew([], ShownTargets(rule, targets)) == ShownTargets(rule, AppendNew([], targets))
  {
    if targets != [] {
      var init, last := targets[..|targets| - 1], targets[|targets| - 1];
      ShownTargetsDeduplicated(rule, init);
      ShownTargetsMembers(rule, AppendNew([], init));
    }
  }

  /** `projected` holds exactly the projections of the visible collections of `graph`. */
  ghost predicate Projects(graph: Graph, rule: Rule, projected: Graph) {
    && projected.duplicates == {}
    && forall id :: if id in graph.collections && Visible(graph, rule, id)
                    then id in projected.collections && Some(projected.collections[id]) == ProjectionOf(graph, rule, id)
                    else id !in projected.collections
  }

  lemma {:induction false} ProjectionsAreIndexed(graph: Graph, rule: Rule, ids: seq<Id>, projected: Graph)
    requires NoDuplicates(ids) && forall id :: id in ids <==> id in graph.collections
    requires Indexes(projected, Projections(graph, rule, ids))
    ensures Projects(graph, rule, projected)
  {
    var shown := Projections(graph, rule, ids);
    ProjectionsMembers(graph, rule, ids);
    forall id
      ensures if id in graph.collections && Visible(graph, rule, id)
              then id in projected.collections && Some(projected.collections[id]) == ProjectionOf(graph, rule, id)
              else id !in projected.collections
    {
      if id in graph.collections && Visible(graph, rule, id) {
        var c := ProjectionOf(graph, rule, id).value;
        assert c in shown;
        var i :| 0 <= i < |shown| && shown[i] == c;
        assert projected.collections[id] in shown;
      }
    }
  }

  lemma {:induction false} GatherProjected(graph: Graph, rule: Rule, projected: Graph, id: Id, path: set<Id>)
    requires Projects(graph, rule, projected)
    requires Gather(graph, id, path).Ok? && Visible(graph, rule, id)
    ensures Gather(projected, id, path) == Ok(ShownTargets(rule, Gather(graph, id, path).value))
    decreases graph.collections.Keys - path, 0
  {
    EnteringDecreases(graph, id, path);
    GatherMembersProjected(graph, rule, projected, Members(graph, id), path + {id});
  }

  lemma {:induction false} GatherMembersProjected(graph: Graph, rule: Rule, projected: Graph, members: seq<Member>,
                                                  path: set<Id>)
    requires Projects(graph, rule, projected)
    requires GatherMembers(graph, members, path).Ok?
    ensures GatherMembers(projected, Kept(graph, rule, members), path) ==
            Ok(ShownTargets(rule, GatherMembers(graph, members, path).value))
    decreases graph.collections.Keys - path, |members|
  {
    if members != [] {
      var init, last := members[..|members| - 1], members[|members| - 1];
      GatherMembersProjected(graph, rule, projected, init, path);
      var found := GatherMembers(graph, init, path).value;
      var kept := Kept(graph, rule, init);
      assert (kept + [last])[..|kept + [last]| - 1] == kept;
      match last
      case TargetMember(target) =>
        assert (found + [target])[..|found + [target]| - 1] == found;
      case NestedMember(nested) =>
        var more := Gather(graph, nested, path).value;
        ShownTargetsConcat(rule, found, more);
        if Visible(graph, rule, nested) {
          GatherProjected(graph, rule, projected, nested, path);
        } else {
          HiddenCollectionHasNothingToShow(graph, rule, nested, path);
          assert ShownTargets(rule, found + more) == ShownTargets(rule, found);
        }
    }
  }

  lemma {:induction false} GatheredTargetMakesVisible(graph: Graph, rule: Rule, id: Id, path: set<Id>, target: TargetId)
    requires Gather(graph, id, path).Ok? && target in Gather(graph, id, path).value
    ensures rule.target(target) ==> Visible(graph, rule, id)
  {
    GatherIsExact(graph, id, path);
    assert Nested([NestedMember(id)]) == [id];
    var c :| ReachedFrom(graph, [id], c) && TargetMember(target) in Members(graph, c);
    ReachedFromOne(graph, id, c);
    assert rule.target(target) ==> ShowsSomething(graph, rule, c);
  }

  lemma {:induction false} HiddenCollectionHasNothingToShow(graph: Graph, rule: Rule, id: Id, path: set<Id>)
    requires Gather(graph, id, path).Ok? && !Visible(graph, rule, id)
    ensures ShownTargets(rule, Gather(graph, id, path).value) == []
  {
    var found := Gather(graph, id, path).value;
    forall t | t in found
      ensures !rule.target(t)
    {
      GatheredTargetMakesVisible(graph, rule, id, path, t);
    }
    ShownTargetsMembers(rule, found);
  }

  /**
   Resolving a visible collection in the projected graph gives its visible targets, in their original
   order; a collection that is not visible is not found there.
   */
  lemma {:induction false} ProjectionCommutesWithResolution(graph: Graph, rule: Rule, ids: seq<Id>, projected: Graph,
                                                            id: Id)
    requires NoDuplicates(ids) && forall id :: id in ids <==> id in graph.collections
    requires Indexes(projected, Projections(graph, rule, ids))
    requires Resolution(graph, id).Ok?
    ensures Resolution(projected, id) ==
            if Visible(graph, rule, id) then Ok(ShownTargets(rule, Resolution(graph, id).value))
            else Err(CollectionNotFound(id))
  {
    ProjectionsAreIndexed(graph, rule, ids, projected);
    if Visible(graph, rule, id) {
      GatherProjected(graph, rule, projected, id, {});
      ShownTargetsDeduplicated(rule, Gather(graph, id, {}).value);
    }
  }
}
