/**
 Sets of page numbers listed in strictly ascending order: the reference against which
 the walk, the drain and the serialised free list are judged.
 */
module Ascending {
  import opened Sequences

  ghost predicate StrictlyAscending(s: seq<nat>) {
    forall i, j :: 0 <= i < j < |s| ==> s[i] < s[j]
  }

  // s lists exactly the members of pages, smallest first.
  ghost predicate Lists(s: seq<nat>, pages: set<nat>) {
    StrictlyAscending(s) && forall x :: x in s <==> x in pages
  }

  ghost function Min(pages: set<nat>): (m: nat)
    requires pages != {}
    ensures m in pages && forall x :: x in pages ==> m <= x
  {
    var x :| x in pages;
    if pages == {x} then
      x
    else
      assert pages == {x} + (pages - {x});
      var m := Min(pages - {x});
      if m < x then m else x
  }

  lemma ListsPrepend(m: nat, rest: seq<nat>, pages: set<nat>)
    requires m in pages && (forall x :: x in pages ==> m <= x)
    requires Lists(rest, pages - {m})
    ensures Lists([m] + rest, pages)
  {
    var s := [m] + rest;
    forall j | 0 < j < |s| ensures s[0] < s[j] {
      assert s[j] in rest;
    }
    forall x ensures x in s <==> x in pages {
      assert x in s <==> x == m || x in rest;
    }
  }

  lemma {:induction false} SomeListExists(pages: set<nat>) returns (s: seq<nat>)
    ensures Lists(s, pages) && |s| == |pages|
  {
    if pages == {} {
      s := [];
    } else {
      var m := Min(pages);
      var rest := SomeListExists(pages - {m});
      ListsPrepend(m, rest, pages);
      s := [m] + rest;
    }
  }

  // An ascending list is determined by its members.
  lemma {:induction false} ListsUnique(a: seq<nat>, b: seq<nat>, pages: set<nat>)
    requires Lists(a, pages) && Lists(b, pages)
    ensures a == b
    decreases |a|
  {
    assert a != [] ==> a[0] in pages && a[0] in b;
    assert b != [] ==> b[0] in pages && b[0] in a;
    if a != [] {
      assert a[0] == b[0];
      ListsTail(a, pages);
      ListsTail(b, pages);
      ListsUnique(a[1..], b[1..], pages - {a[0]});
      assert a == [a[0]] + a[1..] && b == [b[0]] + b[1..];
    }
  }

  lemma ListsTail(a: seq<nat>, pages: set<nat>)
    requires Lists(a, pages) && a != []
    ensures Lists(a[1..], pages - {a[0]})
  {
    forall x ensures x in a[1..] <==> x in pages - {a[0]} {
      if x in a[1..] {
        var i :| 0 <= i < |a| - 1 && a[1..][i] == x;
        assert x == a[i + 1] && a[0] < a[i + 1];
        assert x in a;
      }
      if x in pages - {a[0]} {
        assert x in a;
        var i :| 0 <= i < |a| && a[i] == x;
        assert a[1..][i - 1] == x;
      }
    }
  }

  // The members of a set, smallest first.
  ghost function Sorted(pages: set<nat>): (s: seq<nat>)
    ensures |s| == |pages|
  {
    assert exists s :: Lists(s, pages) && |s| == |pages| by {
      var s := SomeListExists(pages);
    }
    var s :| Lists(s, pages) && |s| == |pages|;
    s
  }

  lemma SortedLists(pages: set<nat>)
    ensures Lists(Sorted(pages), pages)
  {
    var s := SomeListExists(pages);
  }

  lemma ListsIsSorted(a: seq<nat>, pages: set<nat>)
    requires Lists(a, pages)
    ensures a == Sorted(pages)
  {
    ListsUnique(a, Sorted(pages), pages);
  }

  lemma SortedEmpty()
    ensures Sorted({}) == []
  {
    ListsIsSorted([], {});
  }

  lemma SortedSingle(x: nat)
    ensures Sorted({x}) == [x]
  {
    ListsIsSorted([x], {x});
  }

  lemma SortedMinFirst(pages: set<nat>)
    requires pages != {}
    ensures Sorted(pages) == [Min(pages)] + Sorted(pages - {Min(pages)})
  {
    var m := Min(pages);
    SortedLists(pages - {m});
    ListsPrepend(m, Sorted(pages - {m}), pages);
    ListsIsSorted([m] + Sorted(pages - {m}), pages);
  }

  // The members from lo up to, but not including, hi.
  ghost function Within(pages: set<nat>, lo: nat, hi: nat): set<nat> {
    set x | x in pages && lo <= x < hi
  }

  lemma ListsConcat(a: seq<nat>, b: seq<nat>, pages: set<nat>, lo: nat, mid: nat, hi: nat)
    requires lo <= mid <= hi
    requires Lists(a, Within(pages, lo, mid)) && Lists(b, Within(pages, mid, hi))
    ensures Lists(a + b, Within(pages, lo, hi))
  {
    var s := a + b;
    forall i, j | 0 <= i < j < |s| ensures s[i] < s[j] {
      assert i < |a| ==> s[i] in a;
      assert j >= |a| ==> s[j] in b;
    }
    forall x ensures x in s <==> x in Within(pages, lo, hi) {
      assert x in s <==> x in a || x in b;
    }
  }

  // Adjacent ranges are listed one after the other.
  lemma SortedSplit(pages: set<nat>, lo: nat, mid: nat, hi: nat)
    requires lo <= mid <= hi
    ensures Sorted(Within(pages, lo, hi)) == Sorted(Within(pages, lo, mid)) + Sorted(Within(pages, mid, hi))
  {
    var a, b := Within(pages, lo, mid), Within(pages, mid, hi);
    SortedLists(a);
    SortedLists(b);
    ListsConcat(Sorted(a), Sorted(b), pages, lo, mid, hi);
    ListsIsSorted(Sorted(a) + Sorted(b), Within(pages, lo, hi));
  }

  lemma MinUnique(pages: set<nat>, m: nat)
    requires m in pages && forall x :: x in pages ==> m <= x
    ensures m == Min(pages)
  {
  }

  // The pages in a list, where 0 marks an unused entry.
  function Entries(list: seq<nat>): set<nat> {
    set x | x in list && x != 0
  }

  lemma EntriesTail(list: seq<nat>)
    requires list != []
    ensures Entries(list) == Entries(list[1..]) + if list[0] == 0 then {} else {list[0]}
  {
    assert list == [list[0]] + list[1..];
  }

  lemma {:induction false} EntriesFit(list: seq<nat>)
    ensures |Entries(list)| <= |list|
    decreases |list|
  {
    if list == [] {
      assert Entries(list) == {};
    } else {
      EntriesTail(list);
      EntriesFit(list[1..]);
    }
  }

  // ---------- draining a set smallest first ----------

  // The smallest member, with 0 standing for "none".
  ghost function MinOrZero(pages: set<nat>): nat {
    if pages == {} then 0 else Min(pages)
  }

  // What a drain of `was` looks like after popping the listed pages and then `page`.
  ghost predicate Draining(was: set<nat>, popped: seq<nat>, page: nat, now: set<nat>) {
    if 0 in was then
      page == 0 && popped == [] && now == was
    else
      0 !in now && (page == 0 ==> now == {})
      && popped + (if page == 0 then [] else [page]) + Sorted(now) == Sorted(was)
  }

  lemma DrainStart(was: set<nat>, page: nat, now: set<nat>)
    requires page == MinOrZero(was) && now == if page == 0 then was else was - {page}
    ensures Draining(was, [], page, now)
  {
    if was != {} {
      SortedMinFirst(was);
    }
  }

  lemma DrainStep(was: set<nat>, popped: seq<nat>, page: nat, now: set<nat>, next: nat, after: set<nat>)
    requires Draining(was, popped, page, now) && page != 0
    requires next == MinOrZero(now) && after == if next == 0 then now else now - {next}
    ensures Draining(was, popped + [page], next, after)
  {
    if now != {} {
      SortedMinFirst(now);
      ConcatAssociates(popped + [page], [next], Sorted(after));
    } else {
      ConcatAssociates(popped + [page], [], Sorted(after));
    }
  }

  lemma DrainEnd(was: set<nat>, popped: seq<nat>, now: set<nat>)
    requires Draining(was, popped, 0, now)
    ensures 0 !in was ==> popped == Sorted(was) && now == {}
    ensures 0 in was ==> popped == [] && now == was
  {
    SortedEmpty();
  }
}
