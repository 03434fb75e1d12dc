/** Ordered lists used as sets: first match, and appending without repeats. */
module Sequences {
  import opened Results

  lemma {:induction false} AppendAssociates<T>(a: seq<T>, b: seq<T>, c: seq<T>)
    ensures (a + b) + c == a + (b + c)
  {
  }

  /** The first item that matches, as `iter().find` returns it. */
  function Find<T>(items: seq<T>, matches: T -> bool): (r: Option<T>)
    ensures r.Some? ==>
              exists i :: 0 <= i < |items| && items[i] == r.value && matches(items[i]) &&
                          forall j :: 0 <= j < i ==> !matches(items[j])
    ensures r.None? ==> forall i :: 0 <= i < |items| ==> !matches(items[i])
  {
    if items == [] then None
    else if matches(items[0]) then Some(items[0])
    else
      assert forall i :: 1 <= i < |items| ==> items[i] == items[1..][i - 1];
      Find(items[1..], matches)
  }

  ghost predicate NoDuplicates<T>(items: seq<T>) {
    forall i, j :: 0 <= i < j < |items| ==> items[i] != items[j]
  }

  lemma {:induction false} NoDuplicatesConcat<T>(first: seq<T>, second: seq<T>)
    requires NoDuplicates(first) && NoDuplicates(second)
    requires forall x :: x in first ==> x !in second
    ensures NoDuplicates(first + second)
  {
    var both := first + second;
    forall i, j | 0 <= i < j < |both|
      ensures both[i] != both[j]
    {
      if i < |first| <= j {
        assert both[i] in first && both[j] in second;
      }
    }
  }

  /** `acc` followed by those of `items` not already present, each at its first occurrence. */
  function AppendNew<T(==)>(acc: seq<T>, items: seq<T>): seq<T> {
    if items == [] then acc
    else
      var before := AppendNew(acc, items[..|items| - 1]);
      var last := items[|items| - 1];
      if last in before then before else before + [last]
  }

  lemma {:induction false} AppendNewMembers<T>(acc: seq<T>, items: seq<T>)
    ensures acc <= AppendNew(acc, items)
    ensures forall x :: x in AppendNew(acc, items) <==> x in acc || x in items
    ensures NoDuplicates(acc) ==> NoDuplicates(AppendNew(acc, items))
  {
    if items != [] {
      var init := items[..|items| - 1];
      AppendNewMembers(acc, init);
      assert items == init + [items[|items| - 1]];
    }
  }

  lemma {:induction false} AppendNewConcat<T>(acc: seq<T>, first: seq<T>, second: seq<T>)
    ensures AppendNew(acc, first + second) == AppendNew(AppendNew(acc, first), second)
  {
    if second == [] {
      assert first + second == first;
    } else {
      var init := second[..|second| - 1];
      AppendNewConcat(acc, first, init);
      assert (first + second)[..|first + second| - 1] == first + init;
    }
  }

  lemma {:induction false} AppendNewAbsorbed<T>(acc: seq<T>, items: seq<T>)
    requires forall x :: x in items ==> x in acc
    ensures AppendNew(acc, items) == acc
  {
    if items != [] {
      assert items[|items| - 1] in items;
      AppendNewAbsorbed(acc, items[..|items| - 1]);
    }
  }

  /** A list without repeats is its own deduplication. */
  lemma {:induction false} AppendNewFresh<T>(items: seq<T>)
    requires NoDuplicates(items)
    ensures AppendNew([], items) == items
  {
    if items != [] {
      var init := items[..|items| - 1];
      AppendNewFresh(init);
      assert items == init + [items[|items| - 1]];
    }
  }

  /** Two lists without repeats that have the same members are rearrangements of each other. */
  lemma {:induction false} SameMembersSameMultiset<T>(a: seq<T>, b: seq<T>)
    requires NoDuplicates(a) && NoDuplicates(b)
    requires forall x :: x in a <==> x in b
    ensures multiset(a) == multiset(b)
  {
    NoDuplicatesCount(a);
    NoDuplicatesCount(b);
    forall x
      ensures multiset(a)[x] == multiset(b)[x]
    {
      assert x in multiset(a) <==> x in a;
      assert x in multiset(b) <==> x in b;
    }
  }

  lemma {:induction false} NoDuplicatesCount<T>(items: seq<T>)
    requires NoDuplicates(items)
    ensures forall x :: x in items ==> multiset(items)[x] == 1
  {
    if items != [] {
      var init, last := items[..|items| - 1], items[|items| - 1];
      assert items == init + [last];
      NoDuplicatesCount(init);
      assert last !in init;
      assert last !in multiset(init);
    }
  }

  lemma {:induction false} TwiceInMultiset<T>(items: seq<T>, i: nat, j: nat)
    requires i < j < |items| && items[i] == items[j]
    ensures multiset(items)[items[i]] >= 2
  {
    assert items == items[..j] + items[j..];
    assert items[i] in items[..j] && items[j] in items[j..];
  }

  lemma {:induction false} MultisetTwice<T>(items: seq<T>, item: T) returns (p: nat, q: nat)
    requires multiset(items)[item] >= 2
    ensures p < q < |items| && items[p] == item == items[q]
  {
    assert item in items;
    p :| p < |items| && items[p] == item;
    var before, after := items[..p], items[p + 1..];
    assert items == before + [item] + after;
    assert item in multiset(before) + multiset(after);
    if item in after {
      q :| q < |after| && after[q] == item;
      q := p + 1 + q;
    } else {
      assert item in before;
      q := p;
      p :| p < |before| && before[p] == item;
    }
  }

  /** Two places of a list have the items of two places of any reordering of it. */
  lemma {:induction false} PairAfterReordering<T>(items: seq<T>, reordered: seq<T>, i: nat, j: nat)
    returns (p: nat, q: nat)
    requires multiset(items) == multiset(reordered) && i < j < |items|
    ensures p < q < |reordered| && {reordered[p], reordered[q]} == {items[i], items[j]}
  {
    if items[i] == items[j] {
      TwiceInMultiset(items, i, j);
      p, q := MultisetTwice(reordered, items[i]);
    } else {
      assert items[i] in multiset(reordered) && items[j] in multiset(reordered);
      p :| p < |reordered| && reordered[p] == items[i];
      q :| q < |reordered| && reordered[q] == items[j];
      if q < p {
        p, q := q, p;
      }
    }
  }

  /** The lists `f` gives for the items, one after another. */
  function FlatMap<D, T>(items: seq<D>, f: D -> seq<T>): seq<T> {
    if items == [] then [] else FlatMap(items[..|items| - 1], f) + f(items[|items| - 1])
  }

  lemma {:induction false} FlatMapMember<D, T>(items: seq<D>, f: D -> seq<T>, t: T)
    ensures t in FlatMap(items, f) <==> exists i :: 0 <= i < |items| && t in f(items[i])
  {
    if items != [] {
      var n := |items| - 1;
      var init := items[..n];
      FlatMapMember(init, f, t);
      if t in FlatMap(init, f) {
        var i :| 0 <= i < |init| && t in f(init[i]);
        assert items[i] == init[i];
      }
      if i :| 0 <= i < |items| && t in f(items[i]) {
        assert i < n ==> init[i] == items[i];
      }
    }
  }

  lemma {:induction false} FlatMapMembers<D, T>(items: seq<D>, f: D -> seq<T>)
    ensures forall t :: t in FlatMap(items, f) <==> exists i :: 0 <= i < |items| && t in f(items[i])
  {
    forall t
      ensures t in FlatMap(items, f) <==> exists i :: 0 <= i < |items| && t in f(items[i])
    {
      FlatMapMember(items, f, t);
    }
  }

  /** Lists without repeats that share no member join into a list without repeats. */
  lemma {:induction false} FlatMapDistinct<D, T>(items: seq<D>, f: D -> seq<T>)
    requires forall i :: 0 <= i < |items| ==> NoDuplicates(f(items[i]))
    requires forall i, j, t :: 0 <= i < j < |items| && t in f(items[i]) ==> t !in f(items[j])
    ensures NoDuplicates(FlatMap(items, f))
  {
    if items != [] {
      var n := |items| - 1;
      FlatMapDistinct(items[..n], f);
      var init := items[..n];
      forall t | t in FlatMap(init, f)
        ensures t !in f(items[n])
      {
        FlatMapMember(init, f, t);
        var i :| 0 <= i < |init| && t in f(init[i]);
        assert items[i] == init[i];
      }
      NoDuplicatesConcat(FlatMap(items[..n], f), f(items[n]));
    }
  }

  // ----- Sorted lists

  ghost predicate Sorted<T(!new)>(before: (T, T) -> bool, items: seq<T>) {
    forall i, j :: 0 <= i < j < |items| ==> before(items[i], items[j])
  }

  ghost predicate StrictOrder<T(!new)>(before: (T, T) -> bool) {
    forall a, b :: !(before(a, b) && before(b, a))
  }

  lemma {:induction false} SortedHasNoDuplicates<T(!new)>(before: (T, T) -> bool, items: seq<T>)
    requires StrictOrder(before) && Sorted(before, items)
    ensures NoDuplicates(items)
  {
    forall i, j | 0 <= i < j < |items|
      ensures items[i] != items[j]
    {
      assert before(items[i], items[j]);
    }
  }

  /** A list in strict order is determined by its members. */
  lemma {:induction false} SortedIsUnique<T(!new)>(before: (T, T) -> bool, a: seq<T>, b: seq<T>)
    requires StrictOrder(before) && Sorted(before, a) && Sorted(before, b) && forall x :: x in a <==> x in b
    ensures a == b
  {
    if a == [] {
      FirstIsMember(b);
    } else {
      LastIsLast(before, a, b);
      AllButLast(before, a);
      AllButLast(before, b);
      var initA, initB := a[..|a| - 1], b[..|b| - 1];
      forall x
        ensures x in initA <==> x in initB
      {
        assert x in a <==> x in b;
      }
      SortedIsUnique(before, initA, initB);
      assert a == initA + [a[|a| - 1]] && b == initB + [b[|b| - 1]];
    }
  }

  lemma {:induction false} FirstIsMember<T>(items: seq<T>)
    ensures items != [] ==> exists x :: x in items
  {
    if items != [] {
      assert items[0] in items;
    }
  }

  lemma {:induction false} LastIsLast<T(!new)>(before: (T, T) -> bool, a: seq<T>, b: seq<T>)
    requires StrictOrder(before) && Sorted(before, a) && Sorted(before, b) && a != [] && forall x :: x in a <==> x in b
    ensures b != [] && a[|a| - 1] == b[|b| - 1]
  {
    assert a[|a| - 1] in b;
    assert b[|b| - 1] in a;
    NoneAfterLast(before, b, a[|a| - 1]);
    NoneAfterLast(before, a, b[|b| - 1]);
  }

  lemma {:induction false} NoneAfterLast<T(!new)>(before: (T, T) -> bool, items: seq<T>, x: T)
    requires Sorted(before, items) && x in items
    ensures x == items[|items| - 1] || before(x, items[|items| - 1])
  {
    var i :| 0 <= i < |items| && items[i] == x;
    assert i < |items| - 1 ==> before(items[i], items[|items| - 1]);
  }

  lemma {:induction false} AllButLast<T(!new)>(before: (T, T) -> bool, items: seq<T>)
    requires StrictOrder(before) && Sorted(before, items) && items != []
    ensures Sorted(before, items[..|items| - 1])
    ensures forall x :: x in items[..|items| - 1] <==> x in items && x != items[|items| - 1]
  {
    var init, last := items[..|items| - 1], items[|items| - 1];
    SortedHasNoDuplicates(before, items);
    assert items == init + [last];
    assert forall i :: 0 <= i < |init| ==> init[i] == items[i];
  }
}
