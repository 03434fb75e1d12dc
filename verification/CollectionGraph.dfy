/**
 Collections of targets that may nest other collections, and their resolution to flat target lists.

 The graph is not trusted: a traversal detects duplicate identifiers, missing references and cycles.
 */
module CollectionGraph {
  import opened Results
  import opened Sequences
  import opened Graphs
  import opened Topology

  datatype Member = TargetMember(target: TargetId) | NestedMember(id: Id)

  datatype Collection = Collection(id: Id, members: seq<Member>)

  datatype GraphError = CollectionNotFound(id: Id) | DuplicateCollection(id: Id) | MembershipCycle(id: Id)

  datatype Graph = Graph(collections: map<Id, Collection>, duplicates: set<Id>)

  // ----- Indexing

  /** `graph` indexes `collections`: every identifier is present, and exactly the repeated ones are duplicates. */
  ghost predicate Indexes(graph: Graph, collections: seq<Collection>) {
    && (forall i :: 0 <= i < |collections| ==> collections[i].id in graph.collections)
    && (forall id :: id in graph.collections ==> graph.collections[id] in collections && graph.collections[id].id == id)
    && (forall id :: id in graph.duplicates <==>
          exists i, j :: 0 <= i < j < |collections| && collections[i].id == id == collections[j].id)
  }

  method BuildGraph(collections: seq<Collection>) returns (graph: Graph)
    ensures Indexes(graph, collections)
  {
    var indexed: map<Id, Collection> := map[];
    var duplicates: set<Id> := {};
    for k := 0 to |collections|
      invariant forall i :: 0 <= i < k ==> collections[i].id in indexed
      invariant forall id :: id in indexed ==>
                  indexed[id].id == id && exists i :: 0 <= i < k && collections[i] == indexed[id]
      invariant forall id :: id in duplicates <==>
                  exists i, j :: 0 <= i < j < k && collections[i].id == id == collections[j].id
    {
      if collections[k].id in indexed {
        duplicates := duplicates + {collections[k].id};
      }
      indexed := indexed[collections[k].id := collections[k]];
    }
    graph := Graph(indexed, duplicates);
  }

  /** Why `id` stops a traversal whose active collections are `path`, if it does. */
  function EntryError(graph: Graph, id: Id, path: set<Id>): Option<GraphError> {
    if id in graph.duplicates then Some(DuplicateCollection(id))
    else if id in path then Some(MembershipCycle(id))
    else if id !in graph.collections then Some(CollectionNotFound(id))
    else None
  }

  /** The members a traversal would follow from `id`. */
  function Members(graph: Graph, id: Id): seq<Member> {
    if id in graph.collections && id !in graph.duplicates then graph.collections[id].members else []
  }

  function Nested(members: seq<Member>): (r: seq<Id>)
    ensures forall id :: id in r <==> NestedMember(id) in members
  {
    if members == [] then []
    else
      var init, last := members[..|members| - 1], members[|members| - 1];
      assert members == init + [last];
      if last.NestedMember? then Nested(init) + [last.id] else Nested(init)
  }

  ghost function Links(graph: Graph): Id -> seq<Id> {
    id => Nested(Members(graph, id))
  }

  // ----- Resolution without caching

  /** All targets below `id`, depth first and with repeats. */
  ghost function Gather(graph: Graph, id: Id, path: set<Id>): Result<seq<TargetId>, GraphError>
    decreases graph.collections.Keys - path, 0
  {
    match EntryError(graph, id, path)
    case Some(error) => Err(error)
    case None =>
      EnteringDecreases(graph, id, path);
      GatherMembers(graph, Members(graph, id), path + {id})
  }

  ghost function GatherMembers(graph: Graph, members: seq<Member>, path: set<Id>): Result<seq<TargetId>, GraphError>
    decreases graph.collections.Keys - path, |members|
  {
    if members == [] then Ok([])
    else
      match GatherMembers(graph, members[..|members| - 1], path)
      case Err(error) => Err(error)
      case Ok(found) =>
        match members[|members| - 1]
        case TargetMember(target) => Ok(found + [target])
        case NestedMember(id) =>
          match Gather(graph, id, path)
          case Err(error) => Err(error)
          case Ok(more) => Ok(found + more)
  }

  lemma {:induction false} EnteringDecreases(graph: Graph, id: Id, path: set<Id>)
    requires EntryError(graph, id, path).None?
    ensures graph.collections.Keys - (path + {id}) < graph.collections.Keys - path
  {
    assert id in graph.collections.Keys - path;
    assert id !in graph.collections.Keys - (path + {id});
  }

  /** The flat list of targets of `id`, each at its first depth-first occurrence. */
  ghost function Resolution(graph: Graph, id: Id): Result<seq<TargetId>, GraphError> {
    match Gather(graph, id, {})
    case Err(error) => Err(error)
    case Ok(found) => Ok(AppendNew([], found))
  }

  // ----- Resolution in terms of reachability

  ghost predicate Blocked(graph: Graph, path: set<Id>, id: Id) {
    id in graph.duplicates || id !in graph.collections || id in path || OnCycle(Links(graph), id)
  }

  /** The error is true of the collection it names. */
  ghost predicate Justified(graph: Graph, path: set<Id>, error: GraphError) {
    match error
    case DuplicateCollection(id) => id in graph.duplicates
    case CollectionNotFound(id) => id !in graph.collections
    case MembershipCycle(id) => id in path || OnCycle(Links(graph), id)
  }

  ghost predicate ReachedFrom(graph: Graph, sources: seq<Id>, goal: Id) {
    exists s :: s in sources && Reaches(Links(graph), s, goal)
  }

  ghost predicate HasTarget(graph: Graph, sources: seq<Id>, target: TargetId) {
    exists c :: ReachedFrom(graph, sources, c) && TargetMember(target) in Members(graph, c)
  }

  /** The specification of gathering `members`, by reachability alone. */
  ghost predicate GathersExactly(graph: Graph, members: seq<Member>, path: set<Id>,
                                 r: Result<seq<TargetId>, GraphError>)
  {
    match r
    case Err(error) => ReachedFrom(graph, Nested(members), error.id) && Justified(graph, path, error)
    case Ok(found) =>
      && (forall c :: ReachedFrom(graph, Nested(members), c) ==> !Blocked(graph, path, c))
      && (forall t :: t in found <==> TargetMember(t) in members || HasTarget(graph, Nested(members), t))
  }

  lemma {:induction false} ReachedFromOne(graph: Graph, id: Id, goal: Id)
    ensures ReachedFrom(graph, [id], goal) <==> Reaches(Links(graph), id, goal)
    ensures ReachedFrom(graph, [id], goal) <==>
            goal == id || ReachedFrom(graph, Nested(Members(graph, id)), goal)
    ensures ReachedFrom(graph, Nested(Members(graph, id)), goal) <==> Descends(Links(graph), id, goal)
  {
    ReachesUnfold(Links(graph), id, goal);
    assert id in [id];
  }

  lemma {:induction false} EnterCollection(graph: Graph, id: Id, path: set<Id>, found: seq<TargetId>)
    requires EntryError(graph, id, path).None?
    requires GathersExactly(graph, Members(graph, id), path + {id}, Ok(found))
    ensures GathersExactly(graph, [NestedMember(id)], path, Ok(found))
  {
    var links := Nested(Members(graph, id));
    assert Nested([NestedMember(id)]) == [id];
    forall c
      ensures ReachedFrom(graph, [id], c) <==> c == id || ReachedFrom(graph, links, c)
      ensures ReachedFrom(graph, links, c) <==> Descends(Links(graph), id, c)
    {
      ReachedFromOne(graph, id, c);
    }
    if ReachedFrom(graph, links, id) {
      assert Blocked(graph, path + {id}, id);
    }
    forall t
      ensures t in found <==> HasTarget(graph, [id], t)
    {
      if TargetMember(t) in Members(graph, id) {
        assert ReachedFrom(graph, [id], id);
      }
    }
  }

  lemma {:induction false} EnterCollectionFails(graph: Graph, id: Id, path: set<Id>, error: GraphError)
    requires EntryError(graph, id, path).None?
    requires GathersExactly(graph, Members(graph, id), path + {id}, Err(error))
    ensures GathersExactly(graph, [NestedMember(id)], path, Err(error))
  {
    assert Nested([NestedMember(id)]) == [id];
    ReachedFromOne(graph, id, error.id);
  }

  lemma {:induction false} ReachedFromSplit(graph: Graph, init: seq<Member>, last: Member, goal: Id)
    ensures ReachedFrom(graph, Nested(init + [last]), goal) <==>
            ReachedFrom(graph, Nested(init), goal) || ReachedFrom(graph, Nested([last]), goal)
  {
    assert forall m :: m in init + [last] <==> m in init || m in [last];
  }

  lemma {:induction false} AppendMember(graph: Graph, init: seq<Member>, last: Member, path: set<Id>,
                                        found: seq<TargetId>,
                     more: Result<seq<TargetId>, GraphError>)
    requires GathersExactly(graph, init, path, Ok(found))
    requires GathersExactly(graph, [last], path, more)
    ensures GathersExactly(graph, init + [last], path, if more.Ok? then Ok(found + more.value) else more)
  {
    forall c
      ensures ReachedFrom(graph, Nested(init + [last]), c) <==>
              ReachedFrom(graph, Nested(init), c) || ReachedFrom(graph, Nested([last]), c)
    {
      ReachedFromSplit(graph, init, last, c);
    }
    if more.Ok? {
      forall t
        ensures t in found + more.value <==>
                TargetMember(t) in init + [last] || HasTarget(graph, Nested(init + [last]), t)
      {
      }
    }
  }

  lemma {:induction false} GatherIsExact(graph: Graph, id: Id, path: set<Id>)
    ensures GathersExactly(graph, [NestedMember(id)], path, Gather(graph, id, path))
    decreases graph.collections.Keys - path, 0
  {
    assert Nested([NestedMember(id)]) == [id];
    ReachedFromOne(graph, id, id);
    if EntryError(graph, id, path).None? {
      EnteringDecreases(graph, id, path);
      GatherMembersIsExact(graph, Members(graph, id), path + {id});
      var below := GatherMembers(graph, Members(graph, id), path + {id});
      if below.Err? {
        EnterCollectionFails(graph, id, path, below.error);
      } else {
        EnterCollection(graph, id, path, below.value);
      }
    }
  }

  lemma {:induction false} GatherMembersIsExact(graph: Graph, members: seq<Member>, path: set<Id>)
    ensures GathersExactly(graph, members, path, GatherMembers(graph, members, path))
    decreases graph.collections.Keys - path, |members|
  {
    if members != [] {
      var init, last := members[..|members| - 1], members[|members| - 1];
      assert members == init + [last];
      GatherMembersIsExact(graph, init, path);
      var before := GatherMembers(graph, init, path);
      if before.Err? {
        ReachedFromSplit(graph, init, last, before.error.id);
      } else if last.NestedMember? {
        GatherIsExact(graph, last.id, path);
        AppendMember(graph, init, last, path, before.value, Gather(graph, last.id, path));
      } else {
        assert GathersExactly(graph, [last], path, Ok([last.target]));
        AppendMember(graph, init, last, path, before.value, Ok([last.target]));
      }
    }
  }

  /**
   Resolution fails exactly when a duplicate, missing or cyclic collection is reachable, and otherwise
   lists without repeats exactly the targets of the reachable collections.
   */
  lemma {:induction false} ResolutionIsExact(graph: Graph, id: Id)
    ensures Resolution(graph, id).Err? <==>
            exists c :: Reaches(Links(graph), id, c) &&
                        (c in graph.duplicates || c !in graph.collections || OnCycle(Links(graph), c))
    ensures Resolution(graph, id).Err? ==>
              && Reaches(Links(graph), id, Resolution(graph, id).error.id)
              && Justified(graph, {}, Resolution(graph, id).error)
    ensures Resolution(graph, id).Ok? ==>
              && NoDuplicates(Resolution(graph, id).value)
              && forall t :: t in Resolution(graph, id).value <==>
                             exists c :: Reaches(Links(graph), id, c) && TargetMember(t) in Members(graph, c)
  {
    GatherIsExact(graph, id, {});
    assert Nested([NestedMember(id)]) == [id];
    forall c
      ensures ReachedFrom(graph, [id], c) <==> Reaches(Links(graph), id, c)
    {
      ReachedFromOne(graph, id, c);
    }
    if c :| Reaches(Links(graph), id, c) &&
            (c in graph.duplicates || c !in graph.collections || OnCycle(Links(graph), c)) {
      assert Blocked(graph, {}, c);
    }
    var gathered := Gather(graph, id, {});
    if gathered.Ok? {
      AppendNewMembers([], gathered.value);
    } else {
      assert Blocked(graph, {}, gathered.error.id);
    }
  }
}
