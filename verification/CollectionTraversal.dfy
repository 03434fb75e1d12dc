/** The cached traversal that resolves a collection, proved to agree with uncached resolution. */
module CollectionTraversal {
  import opened Results
  import opened Sequences
  import opened Graphs
  import opened Topology
  import opened CollectionGraph

  // ----- Gathering does not depend on the path by which a collection is entered

  /** A collection that gathers from some path gathers the same from any smaller one. */
  lemma {:induction false} GatherFromSmallerPath(graph: Graph, id: Id, path: set<Id>, smaller: set<Id>)
    requires smaller <= path && Gather(graph, id, path).Ok?
    ensures Gather(graph, id, smaller) == Gather(graph, id, path)
    decreases graph.collections.Keys - path, 0
  {
    EnteringDecreases(graph, id, path);
    GatherMembersFromSmallerPath(graph, Members(graph, id), path + {id}, smaller + {id});
  }

  lemma {:induction false} GatherMembersFromSmallerPath(graph: Graph, members: seq<Member>, path: set<Id>,
                                                        smaller: set<Id>)
    requires smaller <= path && GatherMembers(graph, members, path).Ok?
    ensures GatherMembers(graph, members, smaller) == GatherMembers(graph, members, path)
    decreases graph.collections.Keys - path, |members|
  {
    if members != [] {
      GatherMembersFromSmallerPath(graph, members[..|members| - 1], path, smaller);
      var last := members[|members| - 1];
      if last.NestedMember? {
        GatherFromSmallerPath(graph, last.id, path, smaller);
      }
    }
  }

  /** A collection that gathers from the empty path gathers the same from any path it cannot reach. */
  lemma {:induction false} GatherFromUnreachedPath(graph: Graph, id: Id, path: set<Id>)
    requires Gather(graph, id, {}).Ok?
    requires forall c :: Reaches(Links(graph), id, c) ==> c !in path
    ensures Gather(graph, id, path) == Gather(graph, id, {})
  {
    GatherIsExact(graph, id, path);
    GatherIsExact(graph, id, {});
    assert Nested([NestedMember(id)]) == [id];
    var gathered := Gather(graph, id, path);
    if gathered.Err? {
      ReachedFromOne(graph, id, gathered.error.id);
      assert Blocked(graph, {}, gathered.error.id);
      assert false;
    }
    GatherFromSmallerPath(graph, id, path, {});
  }

  // ----- Resolution does not depend on the order in which collections were listed

  lemma {:induction false} SameIndex(graph: Graph, other: Graph, collections: seq<Collection>,
                                     reordered: seq<Collection>)
    requires multiset(collections) == multiset(reordered)
    requires Indexes(graph, collections) && Indexes(other, reordered)
    ensures graph.collections.Keys == other.collections.Keys && graph.duplicates == other.duplicates
    ensures forall id :: Members(graph, id) == Members(other, id)
  {
    SameEntries(collections, reordered);
    forall id
      ensures id in graph.collections <==> id in other.collections
      ensures id in graph.duplicates <==> id in other.duplicates
    {
      if Repeated(collections, id) { RepeatedAfterReordering(collections, reordered, id); }
      if Repeated(reordered, id) { RepeatedAfterReordering(reordered, collections, id); }
    }
    forall id
      ensures Members(graph, id) == Members(other, id)
    {
      if id in graph.collections && id !in graph.duplicates {
        var i :| 0 <= i < |reordered| && reordered[i] == graph.collections[id];
        var j :| 0 <= j < |reordered| && reordered[j] == other.collections[id];
        assert i == j;
      }
    }
  }

  lemma {:induction false} SameEntries(a: seq<Collection>, b: seq<Collection>)
    requires multiset(a) == multiset(b)
    ensures forall x :: x in a <==> x in b
  {
    assert forall x :: x in a <==> x in multiset(a);
    assert forall x :: x in b <==> x in multiset(b);
  }

  ghost predicate Repeated(collections: seq<Collection>, id: Id) {
    exists i, j :: 0 <= i < j < |collections| && collections[i].id == id == collections[j].id
  }

  lemma {:induction false} RepeatedAfterReordering(collections: seq<Collection>, reordered: seq<Collection>, id: Id)
    requires multiset(collections) == multiset(reordered) && Repeated(collections, id)
    ensures Repeated(reordered, id)
  {
    var i, j :| 0 <= i < j < |collections| && collections[i].id == id == collections[j].id;
    var p, q := PairAfterReordering(collections, reordered, i, j);
    assert reordered[p].id == id == reordered[q].id;
  }

  /** However the collections are listed, every identifier resolves to the same list or the same error. */
  lemma {:induction false} ResolutionIgnoresListingOrder(collections: seq<Collection>, reordered: seq<Collection>,
                                      graph: Graph, other: Graph, id: Id)
    requires multiset(collections) == multiset(reordered)
    requires Indexes(graph, collections) && Indexes(other, reordered)
    ensures Resolution(graph, id) == Resolution(other, id)
  {
    SameIndex(graph, other, collections, reordered);
    GatherSame(graph, other, id, {});
  }

  lemma {:induction false} GatherSame(graph: Graph, other: Graph, id: Id, path: set<Id>)
    requires graph.collections.Keys == other.collections.Keys && graph.duplicates == other.duplicates
    requires forall id :: Members(graph, id) == Members(other, id)
    ensures Gather(graph, id, path) == Gather(other, id, path)
    decreases graph.collections.Keys - path, 0
  {
    if EntryError(graph, id, path).None? {
      EnteringDecreases(graph, id, path);
      GatherMembersSame(graph, other, Members(graph, id), path + {id});
    }
  }

  lemma {:induction false} GatherMembersSame(graph: Graph, other: Graph, members: seq<Member>, path: set<Id>)
    requires graph.collections.Keys == other.collections.Keys && graph.duplicates == other.duplicates
    requires forall id :: Members(graph, id) == Members(other, id)
    ensures GatherMembers(graph, members, path) == GatherMembers(other, members, path)
    decreases graph.collections.Keys - path, |members|
  {
    if members != [] {
      GatherMembersSame(graph, other, members[..|members| - 1], path);
      var last := members[|members| - 1];
      if last.NestedMember? {
        GatherSame(graph, other, last.id, path);
      }
    }
  }

  // ----- The cached traversal

  /** What every traversal keeps true of the collections it has finished, whatever its current path. */
  ghost predicate CacheClosed(graph: Graph, visiting: set<Id>, finished: set<Id>) {
    && visiting !! finished
    && (forall c, n :: c in finished && n in Links(graph)(c) ==> n in finished)
    && (forall c :: c in finished ==> Gather(graph, c, {}).Ok?)
  }

  ghost predicate CacheSound(graph: Graph, visiting: set<Id>, expanded: set<Id>, leaves: seq<TargetId>) {
    && CacheClosed(graph, visiting, expanded)
    && (forall c, t :: c in expanded && t in Gather(graph, c, {}).value ==> t in leaves)
  }

  /** A finished collection would gather again without error. */
  lemma {:induction false} FinishedGathers(graph: Graph, visiting: set<Id>, finished: set<Id>, id: Id)
    requires CacheClosed(graph, visiting, finished) && id in finished
    ensures Gather(graph, id, visiting) == Gather(graph, id, {})
  {
    forall c | Reaches(Links(graph), id, c)
      ensures c !in visiting
    {
      ReachesInherits(Links(graph), (x: Id) => x in finished, id, c);
    }
    GatherFromUnreachedPath(graph, id, visiting);
  }

  /** An expanded collection would gather again without error, and would add nothing. */
  lemma {:induction false} CacheHit(graph: Graph, visiting: set<Id>, expanded: set<Id>, leaves: seq<TargetId>, id: Id)
    requires CacheSound(graph, visiting, expanded, leaves) && id in expanded
    ensures Gather(graph, id, visiting).Ok?
    ensures AppendNew(leaves, Gather(graph, id, visiting).value) == leaves
  {
    FinishedGathers(graph, visiting, expanded, id);
    AppendNewAbsorbed(leaves, Gather(graph, id, {}).value);
  }

  /** The first `done` members of a collection have been visited, starting from `start`. */
  ghost predicate Visited(graph: Graph, members: seq<Member>, path: set<Id>, start: seq<TargetId>,
                          done: nat, leaves: seq<TargetId>)
  {
    && done <= |members|
    && GatherMembers(graph, members[..done], path).Ok?
    && leaves == AppendNew(start, GatherMembers(graph, members[..done], path).value)
  }

  lemma {:induction false} GatherStopsAtFirstError(graph: Graph, members: seq<Member>, path: set<Id>, upTo: nat)
    requires upTo <= |members| && GatherMembers(graph, members[..upTo], path).Err?
    ensures GatherMembers(graph, members, path) == GatherMembers(graph, members[..upTo], path)
    decreases |members|
  {
    if upTo == |members| {
      assert members[..upTo] == members;
    } else {
      var init := members[..|members| - 1];
      assert init[..upTo] == members[..upTo];
      GatherStopsAtFirstError(graph, init, path, upTo);
    }
  }

  /** Visiting one more member extends what was gathered, or ends with that member's error. */
  lemma {:induction false} VisitNext(graph: Graph, members: seq<Member>, path: set<Id>, start: seq<TargetId>,
                                     done: nat, leaves: seq<TargetId>)
    requires Visited(graph, members, path, start, done, leaves) && done < |members|
    ensures members[done].TargetMember? ==>
              Visited(graph, members, path, start, done + 1, AppendNew(leaves, [members[done].target]))
    ensures members[done].NestedMember? ==>
              var below := Gather(graph, members[done].id, path);
              && (below.Ok? ==> Visited(graph, members, path, start, done + 1, AppendNew(leaves, below.value)))
              && (below.Err? ==> GatherMembers(graph, members, path) == below)
  {
    var found := GatherMembers(graph, members[..done], path).value;
    assert members[..done + 1][..done] == members[..done];
    match members[done]
    case TargetMember(target) =>
      AppendNewConcat(start, found, [target]);
    case NestedMember(id) =>
      var below := Gather(graph, id, path);
      if below.Err? {
        GatherStopsAtFirstError(graph, members, path, done + 1);
      } else {
        AppendNewConcat(start, found, below.value);
      }
  }

  class Traversal {
    const graph: Graph
    var visiting: set<Id>
    var expanded: set<Id>
    var leaves: seq<TargetId>

    constructor (graph: Graph)
      ensures this.graph == graph && visiting == {} && expanded == {} && leaves == []
    {
      this.graph := graph;
      visiting, expanded, leaves := {}, {}, [];
    }

    ghost predicate Valid()
      reads this
    {
      CacheSound(graph, visiting, expanded, leaves)
    }

    /** A collection met again is skipped, yet the outcome is that of gathering it in full. */
    method CollectLeaves(id: Id) returns (r: Option<GraphError>)
      requires Valid()
      modifies this
      ensures var gathered := Gather(graph, id, old(visiting));
              && (gathered.Err? ==> r == Some(gathered.error))
              && (gathered.Ok? ==>
                    && r == None && Valid()
                    && visiting == old(visiting)
                    && expanded >= old(expanded) + {id}
                    && leaves == AppendNew(old(leaves), gathered.value))
      decreases graph.collections.Keys - visiting, 0
    {
      if id in expanded {
        CacheHit(graph, visiting, expanded, leaves, id);
        return None;
      }
      if id in graph.duplicates {
        return Some(DuplicateCollection(id));
      }
      if id in visiting {
        return Some(MembershipCycle(id));
      }
      ghost var path, start := visiting, leaves;
      visiting := visiting + {id};
      if id !in graph.collections {
        return Some(CollectionNotFound(id));
      }
      EnteringDecreases(graph, id, path);
      r := VisitMembers(graph.collections[id].members);
      if r.Some? {
        return;
      }
      visiting := visiting - {id};
      Finish(graph, id, path, visiting, expanded, start, leaves);
      expanded := expanded + {id};
    }

    method VisitMembers(members: seq<Member>) returns (r: Option<GraphError>)
      requires Valid()
      modifies this
      ensures var gathered := GatherMembers(graph, members, old(visiting));
              && (gathered.Err? ==> r == Some(gathered.error))
              && (gathered.Ok? ==>
                    && r == None && Valid()
                    && visiting == old(visiting)
                    && expanded >= old(expanded)
                    && (forall n :: NestedMember(n) in members ==> n in expanded)
                    && leaves == AppendNew(old(leaves), gathered.value))
      decreases graph.collections.Keys - visiting, 1
    {
      ghost var path, start := visiting, leaves;
      for i := 0 to |members|
        invariant Valid() && visiting == path
        invariant expanded >= old(expanded)
        invariant forall n :: NestedMember(n) in members[..i] ==> n in expanded
        invariant Visited(graph, members, path, start, i, leaves)
      {
        VisitNext(graph, members, path, start, i, leaves);
        assert members[..i + 1] == members[..i] + [members[i]];
        match members[i] {
          case TargetMember(target) =>
            assert AppendNew(leaves, [target]) == if target in leaves then leaves else leaves + [target];
            if target !in leaves {
              CacheGrows(graph, visiting, expanded, leaves, leaves + [target]);
              leaves := leaves + [target];
            }
          case NestedMember(nested) =>
            r := CollectLeaves(nested);
            if r.Some? {
              return;
            }
        }
      }
      assert members[..|members|] == members;
      r := None;
    }
  }

  lemma {:induction false} CacheGrows(graph: Graph, visiting: set<Id>, expanded: set<Id>, leaves: seq<TargetId>,
                                      more: seq<TargetId>)
    requires CacheSound(graph, visiting, expanded, leaves) && forall t :: t in leaves ==> t in more
    ensures CacheSound(graph, visiting, expanded, more)
  {
  }

  lemma {:induction false} Finish(graph: Graph, id: Id, path: set<Id>, visiting: set<Id>, expanded: set<Id>,
               start: seq<TargetId>, leaves: seq<TargetId>)
    requires EntryError(graph, id, path).None? && visiting == path + {id} - {id}
    requires CacheSound(graph, path + {id}, expanded, leaves)
    requires forall n :: n in Links(graph)(id) ==> n in expanded
    requires Gather(graph, id, path).Ok? && leaves == AppendNew(start, Gather(graph, id, path).value)
    ensures CacheSound(graph, visiting, expanded + {id}, leaves) && visiting == path
  {
    GatherFromSmallerPath(graph, id, path, {});
    AppendNewMembers(start, Gather(graph, id, path).value);
  }

  method ResolveLeaves(graph: Graph, id: Id) returns (r: Result<seq<TargetId>, GraphError>)
    ensures r == Resolution(graph, id)
  {
    var traversal := new Traversal(graph);
    var error := traversal.CollectLeaves(id);
    if error.Some? {
      return Err(error.value);
    }
    return Ok(traversal.leaves);
  }
}
