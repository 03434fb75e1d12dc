/** Projecting a projected collection graph again changes nothing. */
module RepeatedProjection {
  import opened Results
  import opened Sequences
  import opened Graphs
  import opened Topology
  import opened CollectionGraph
  import opened CollectionProjection

  // ----- Visibility is unchanged

  lemma {:induction false} ProjectedMembers(graph: Graph, rule: Rule, projected: Graph, id: Id)
    requires Projects(graph, rule, projected)
    ensures Members(projected, id) ==
            if id in graph.collections && Visible(graph, rule, id) then Kept(graph, rule, Members(graph, id)) else []
  {
  }

  lemma {:induction false} VisibleItself(graph: Graph, rule: Rule, id: Id)
    requires ShowsSomething(graph, rule, id)
    ensures Visible(graph, rule, id)
  {
    assert ReachesIn(Links(graph), id, id, 0);
  }

  lemma {:induction false} VisibleThrough(graph: Graph, rule: Rule, id: Id, via: Id)
    requires via in Links(graph)(id) && Visible(graph, rule, via)
    ensures Visible(graph, rule, id)
  {
    var c :| Reaches(Links(graph), via, c) && ShowsSomething(graph, rule, c);
    ReachesUnfold(Links(graph), id, c);
  }

  lemma {:induction false} ShownStaysShown(graph: Graph, rule: Rule, projected: Graph, id: Id)
    requires Projects(graph, rule, projected)
    ensures ShowsSomething(projected, rule, id) <==> ShowsSomething(graph, rule, id)
  {
    ProjectedMembers(graph, rule, projected, id);
    if ShowsSomething(graph, rule, id) {
      VisibleItself(graph, rule, id);
      if t :| TargetMember(t) in Members(graph, id) && rule.target(t) {
        assert TargetMember(t) in Members(projected, id);
      }
    }
  }

  lemma {:induction false} LinksToVisible(graph: Graph, rule: Rule, projected: Graph, id: Id, via: Id)
    requires Projects(graph, rule, projected) && Visible(graph, rule, via)
    ensures via in Links(projected)(id) <==> via in Links(graph)(id)
  {
    ProjectedMembers(graph, rule, projected, id);
    if via in Links(graph)(id) {
      VisibleThrough(graph, rule, id, via);
      assert NestedMember(via) in Members(projected, id);
    }
  }

  /** Paths to what is visible are the same, since everything on them is visible. */
  lemma {:induction false} SamePaths(graph: Graph, rule: Rule, projected: Graph, id: Id, goal: Id)
    requires Projects(graph, rule, projected) && Visible(graph, rule, goal)
    ensures Reaches(Links(projected), id, goal) <==> Reaches(Links(graph), id, goal)
    ensures Reaches(Links(graph), id, goal) ==> Visible(graph, rule, id)
  {
    var links, shown, good := Links(graph), Links(projected), x => Visible(graph, rule, x);
    forall x, y | good(y)
      ensures y in shown(x) <==> y in links(x)
      ensures y in links(x) ==> good(x)
    {
      LinksToVisible(graph, rule, projected, x, y);
      if y in links(x) {
        VisibleThrough(graph, rule, x, y);
      }
    }
    if Reaches(links, id, goal) {
      ReachesAlong(links, shown, good, id, goal);
    }
    if Reaches(shown, id, goal) {
      ReachesAlong(shown, links, good, id, goal);
    }
  }

  /** Projection changes nothing about what is visible. */
  lemma {:induction false} SameVisibility(graph: Graph, rule: Rule, projected: Graph, id: Id)
    requires Projects(graph, rule, projected)
    ensures Visible(projected, rule, id) <==> Visible(graph, rule, id)
  {
    forall c
      ensures Reaches(Links(projected), id, c) && ShowsSomething(projected, rule, c) <==>
              Reaches(Links(graph), id, c) && ShowsSomething(graph, rule, c)
    {
      ShownStaysShown(graph, rule, projected, c);
      if ShowsSomething(graph, rule, c) {
        VisibleItself(graph, rule, c);
        SamePaths(graph, rule, projected, id, c);
      }
    }
  }

  // ----- So is every projection

  lemma {:induction false} KeptAll(graph: Graph, rule: Rule, members: seq<Member>)
    requires forall m :: m in members ==> Keeps(graph, rule, m)
    ensures Kept(graph, rule, members) == members
  {
    if members != [] {
      var init, last := members[..|members| - 1], members[|members| - 1];
      assert members == init + [last];
      assert last in members;
      KeptAll(graph, rule, init);
    }
  }

  lemma {:induction false} SameProjection(graph: Graph, rule: Rule, projected: Graph, id: Id)
    requires Projects(graph, rule, projected) && id in projected.collections
    ensures ProjectionOf(projected, rule, id) == ProjectionOf(graph, rule, id)
  {
    ProjectedMembers(graph, rule, projected, id);
    var kept := Members(projected, id);
    forall m | m in kept
      ensures Keeps(projected, rule, m)
    {
      assert Keeps(graph, rule, m);
      if m.NestedMember? {
        SameVisibility(graph, rule, projected, m.id);
      }
    }
    KeptAll(projected, rule, kept);
    SameVisibility(graph, rule, projected, id);
  }

  // ----- And their list

  ghost function IdsOf(collections: seq<Collection>): (ids: seq<Id>)
    ensures |ids| == |collections|
  {
    if collections == [] then [] else IdsOf(collections[..|collections| - 1]) + [collections[|collections| - 1].id]
  }

  lemma {:induction false} IdsOfOneMore(collections: seq<Collection>, last: Collection)
    ensures IdsOf(collections + [last]) == IdsOf(collections) + [last.id]
  {
    assert (collections + [last])[..|collections|] == collections;
  }

  /** The identifiers of the projections, with those of one more identifier. */
  lemma {:induction false} ShownNext(graph: Graph, rule: Rule, ids: seq<Id>)
    requires ids != []
    ensures var init, last := ids[..|ids| - 1], ids[|ids| - 1];
            var before := Projections(graph, rule, init);
            && Projections(graph, rule, ids) ==
               (if Visible(graph, rule, last) then before + [ProjectionOf(graph, rule, last).value] else before)
            && IdsOf(Projections(graph, rule, ids)) ==
               if Visible(graph, rule, last) then IdsOf(before) + [last] else IdsOf(before)
  {
    var init, last := ids[..|ids| - 1], ids[|ids| - 1];
    if Visible(graph, rule, last) {
      IdsOfOneMore(Projections(graph, rule, init), ProjectionOf(graph, rule, last).value);
    }
  }

  /** The visible ones of identifiers in order are in order, and are the identifiers of the projections. */
  lemma {:induction false} ShownInOrder(graph: Graph, rule: Rule, before: (Id, Id) -> bool, ids: seq<Id>)
    requires Sorted(before, ids)
    ensures Sorted(before, IdsOf(Projections(graph, rule, ids)))
    ensures forall id :: id in IdsOf(Projections(graph, rule, ids)) <==> id in ids && Visible(graph, rule, id)
  {
    if ids != [] {
      var init, last := ids[..|ids| - 1], ids[|ids| - 1];
      assert ids == init + [last];
      ShownInOrder(graph, rule, before, init);
      ShownNext(graph, rule, ids);
      var shown := IdsOf(Projections(graph, rule, init));
      forall i | 0 <= i < |shown|
        ensures before(shown[i], last)
      {
        assert shown[i] in shown && shown[i] in init;
      }
    }
  }

  lemma {:induction false} ProjectAgain(graph: Graph, rule: Rule, projected: Graph, ids: seq<Id>)
    requires Projects(graph, rule, projected) && forall id :: id in ids ==> id in graph.collections
    ensures Projections(projected, rule, IdsOf(Projections(graph, rule, ids))) == Projections(graph, rule, ids)
  {
    if ids != [] {
      var init, last := ids[..|ids| - 1], ids[|ids| - 1];
      assert ids == init + [last];
      ProjectAgain(graph, rule, projected, init);
      ShownNext(graph, rule, ids);
      if Visible(graph, rule, last) {
        assert last in ids;
        SameProjection(graph, rule, projected, last);
        ProjectOneMore(projected, rule, IdsOf(Projections(graph, rule, init)), last);
      }
    }
  }

  lemma {:induction false} ProjectOneMore(graph: Graph, rule: Rule, ids: seq<Id>, last: Id)
    requires Visible(graph, rule, last)
    ensures Projections(graph, rule, ids + [last]) ==
            Projections(graph, rule, ids) + [ProjectionOf(graph, rule, last).value]
  {
    assert (ids + [last])[..|ids|] == ids;
  }

  /**
   Projecting is done once and for all: where every collection resolves, every collection of the
   projected graph does, and projecting it again by the same rule gives the same list.
   */
  lemma {:induction false} ProjectionIsIdempotent(graph: Graph, rule: Rule, before: (Id, Id) -> bool, ids: seq<Id>,
                                                  projected: Graph, again: seq<Id>)
    requires StrictOrder(before) && Sorted(before, ids) && Sorted(before, again)
    requires forall id :: id in ids <==> id in graph.collections
    requires forall id :: id in again <==> id in projected.collections
    requires Indexes(projected, Projections(graph, rule, ids))
    ensures (forall id :: id in ids ==> Resolution(graph, id).Ok?) ==>
              forall id :: id in again ==> Resolution(projected, id).Ok?
    ensures Projections(projected, rule, again) == Projections(graph, rule, ids)
  {
    SortedHasNoDuplicates(before, ids);
    ProjectionsAreIndexed(graph, rule, ids, projected);
    ShownInOrder(graph, rule, before, ids);
    SortedIsUnique(before, again, IdsOf(Projections(graph, rule, ids)));
    ProjectAgain(graph, rule, projected, ids);
    forall id | id in again && Resolution(graph, id).Ok?
      ensures Resolution(projected, id).Ok?
    {
      ProjectionCommutesWithResolution(graph, rule, ids, projected, id);
    }
  }
}
