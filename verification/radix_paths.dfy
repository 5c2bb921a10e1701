/**
 The 4-level, 16-way trie of src/algorithm/radix_tree.c seen as the set of prefixes that have a node.

 `NoDeadBranch` is the property that the greedy descents rely on: no node between the root and the leaves is
 childless. `Grow` and `Prune` say how one added or removed node moves the only possible exception.
 */
module RadixPaths {
  import opened Ascending

  const RADIX_SIZE := 16
  const LEVELS := 4

  // uint16_t page numbers
  type Page = p: nat | p < 65536

  // The pages whose first `level` hexadecimal digits read `value`.
  datatype Prefix = Prefix(level: nat, value: nat)

  const ROOT := Prefix(0, 0)

  // How many pages share a prefix of this many digits.
  function Width(level: nat): (w: nat)
    ensures w > 0
  {
    if level == 0 then 65536 else if level == 1 then 4096 else if level == 2 then 256
    else if level == 3 then 16 else 1
  }

  // (page >> ((3 - level) * RADIX_BITS)) & (RADIX_SIZE - 1)
  function Digit(page: Page, level: nat): (d: nat)
    ensures d < RADIX_SIZE
  {
    page / Width(level + 1) % RADIX_SIZE
  }

  function PrefixOf(page: Page, level: nat): Prefix {
    Prefix(level, page / Width(level))
  }

  function Child(p: Prefix, i: nat): Prefix {
    Prefix(p.level + 1, p.value * RADIX_SIZE + i)
  }

  function Parent(p: Prefix): Prefix
    requires p.level > 0
  {
    Prefix(p.level - 1, p.value / RADIX_SIZE)
  }

  predicate InRange(p: Prefix) {
    p.level <= LEVELS && p.value * Width(p.level) < 65536
  }

  lemma PathStep(page: Page, level: nat)
    requires level < LEVELS
    ensures PrefixOf(page, level + 1) == Child(PrefixOf(page, level), Digit(page, level))
    ensures PrefixOf(page, level) == Parent(PrefixOf(page, level + 1))
    ensures InRange(PrefixOf(page, level + 1))
  {
  }

  lemma PathEnds(page: Page)
    ensures PrefixOf(page, 0) == ROOT && PrefixOf(page, LEVELS) == Prefix(LEVELS, page)
  {
  }

  // ---------- the set of prefixes that have a node ----------

  ghost predicate Closed(t: set<Prefix>) {
    ROOT in t
    && (forall p :: p in t ==> InRange(p))
    && (forall p {:trigger Parent(p)} :: p in t && p.level > 0 ==> Parent(p) in t)
  }

  ghost predicate HasChild(t: set<Prefix>, p: Prefix) {
    exists i :: 0 <= i < RADIX_SIZE && Child(p, i) in t
  }

  // Every interior node below the root has a child, the excepted one apart.
  ghost predicate NoDeadBranch(t: set<Prefix>, except: Prefix) {
    forall p {:trigger HasChild(t, p)} :: p in t && 0 < p.level < LEVELS && p != except ==> HasChild(t, p)
  }

  // A leaf needs no exception.
  lemma NoDeadLeaf(t: set<Prefix>, leaf: Prefix)
    requires NoDeadBranch(t, ROOT) && leaf.level == LEVELS
    ensures NoDeadBranch(t, leaf)
  {
  }

  ghost predicate Trie(t: set<Prefix>) {
    Closed(t) && NoDeadBranch(t, ROOT)
  }

  ghost function Members(t: set<Prefix>): set<nat> {
    set p | p in t && p.level == LEVELS :: p.value
  }

  // Membership is the presence of the last node of the path.
  lemma MemberIsLeaf(t: set<Prefix>, page: nat)
    ensures page in Members(t) <==> Prefix(LEVELS, page) in t
  {
    assert Prefix(LEVELS, page) in t ==> Prefix(LEVELS, page).value in Members(t);
  }

  // A present node has its whole path present.
  lemma {:induction false} PathPresent(t: set<Prefix>, page: Page, level: nat, upto: nat)
    requires Closed(t)
    requires level <= upto <= LEVELS && PrefixOf(page, upto) in t
    ensures PrefixOf(page, level) in t
    decreases upto - level
  {
    if level < upto {
      PathStep(page, upto - 1);
      PathPresent(t, page, level, upto - 1);
    }
  }

  lemma MembersWithout(t: set<Prefix>, c: Prefix)
    ensures Members(t - {c}) == Members(t) - if c.level == LEVELS then {c.value} else {}
  {
    forall x ensures x in Members(t - {c}) <==> x in Members(t) && !(c.level == LEVELS && x == c.value) {
      MemberIsLeaf(t - {c}, x);
      MemberIsLeaf(t, x);
    }
  }

  lemma MembersWith(t: set<Prefix>, c: Prefix)
    ensures Members(t + {c}) == Members(t) + if c.level == LEVELS then {c.value} else {}
  {
    forall x ensures x in Members(t + {c}) <==> x in Members(t) || (c.level == LEVELS && x == c.value) {
      MemberIsLeaf(t + {c}, x);
      MemberIsLeaf(t, x);
    }
  }

  lemma ParentOfChild(p: Prefix, i: nat)
    requires i < RADIX_SIZE
    ensures Parent(Child(p, i)) == p
  {
  }

  lemma ChildOfParent(c: Prefix)
    requires c.level > 0
    ensures Child(Parent(c), c.value % RADIX_SIZE) == c
  {
  }

  lemma ChildInjective(p: Prefix, i: nat, q: Prefix, j: nat)
    requires i < RADIX_SIZE && j < RADIX_SIZE && Child(p, i) == Child(q, j)
    ensures p == q && i == j
  {
    ParentOfChild(p, i);
    ParentOfChild(q, j);
  }

  // An absent node has no children.
  lemma AbsentIsChildless(t: set<Prefix>, p: Prefix)
    requires Closed(t) && p !in t
    ensures !HasChild(t, p)
  {
    forall i | 0 <= i < RADIX_SIZE ensures Child(p, i) !in t {
      ParentOfChild(p, i);
    }
  }

  lemma GrowClosed(t: set<Prefix>, p: Prefix, i: nat)
    requires Closed(t) && p in t && p.level < LEVELS && i < RADIX_SIZE
    ensures Closed(t + {Child(p, i)})
  {
    ParentOfChild(p, i);
    ChildInRange(p, i);
  }

  lemma ChildInRange(p: Prefix, i: nat)
    requires InRange(p) && p.level < LEVELS && i < RADIX_SIZE
    ensures InRange(Child(p, i))
  {
  }

  // A node added below p moves the one possibly dead branch from p to itself.
  lemma Grow(t: set<Prefix>, p: Prefix, i: nat)
    requires Closed(t) && NoDeadBranch(t, p)
    requires p in t && p.level < LEVELS && i < RADIX_SIZE
    ensures Closed(t + {Child(p, i)}) && NoDeadBranch(t + {Child(p, i)}, Child(p, i))
  {
    GrowClosed(t, p, i);
    var c, u := Child(p, i), t + {Child(p, i)};
    forall q | q in u && 0 < q.level < LEVELS && q != c ensures HasChild(u, q) {
      if q == p {
        assert Child(q, i) in u;
      } else {
        assert HasChild(t, q);
        var k :| 0 <= k < RADIX_SIZE && Child(q, k) in t;
        assert Child(q, k) in u;
      }
    }
  }

  lemma PruneClosed(t: set<Prefix>, c: Prefix)
    requires Closed(t) && c.level > 0 && !HasChild(t, c)
    ensures Closed(t - {c})
  {
    forall q | q in t - {c} && q.level > 0 ensures Parent(q) in t - {c} {
      ChildOfParent(q);
      assert Parent(q) == c ==> HasChild(t, c);
    }
  }

  // A childless node taken away leaves at most its parent without children.
  lemma Prune(t: set<Prefix>, c: Prefix)
    requires Closed(t) && NoDeadBranch(t, c)
    requires c in t && c.level > 0 && !HasChild(t, c)
    ensures Closed(t - {c}) && NoDeadBranch(t - {c}, Parent(c))
  {
    PruneClosed(t, c);
    var u := t - {c};
    forall q | q in u && 0 < q.level < LEVELS && q != Parent(c) ensures HasChild(u, q) {
      assert HasChild(t, q);
      var k :| 0 <= k < RADIX_SIZE && Child(q, k) in t;
      ParentOfChild(q, k);
      assert Child(q, k) in u;
    }
  }

  // ---------- pages below a prefix ----------

  function Lowest(p: Prefix): nat {
    p.value * Width(p.level)
  }

  ghost function Below(t: set<Prefix>, p: Prefix): set<nat> {
    Within(Members(t), Lowest(p), Lowest(p) + Width(p.level))
  }

  lemma ChildRange(p: Prefix, i: nat)
    requires p.level < LEVELS
    ensures Lowest(Child(p, i)) == Lowest(p) + i * Width(p.level + 1)
    ensures Width(p.level) == RADIX_SIZE * Width(p.level + 1)
  {
  }

  lemma InRangeOfPrefix(p: Prefix, x: Page)
    requires p.level <= LEVELS
    ensures Lowest(p) <= x < Lowest(p) + Width(p.level) <==> PrefixOf(x, p.level) == p
  {
  }

  lemma BelowLeaf(t: set<Prefix>, p: Prefix)
    requires p.level == LEVELS && p in t
    ensures Below(t, p) == {p.value}
  {
    MemberIsLeaf(t, p.value);
  }

  // An absent child has no members below it.
  lemma AbsentIsEmpty(t: set<Prefix>, p: Prefix)
    requires Closed(t) && p.level <= LEVELS && p !in t
    ensures Below(t, p) == {}
  {
    forall x | x in Below(t, p) ensures false {
      MemberIsLeaf(t, x);
      InRangeOfPrefix(p, x);
      PathPresent(t, x, p.level, LEVELS);
    }
  }

  // In a trie, every node but the root has a member below it: no branch is dead.
  lemma {:induction false} PresentIsInhabited(t: set<Prefix>, p: Prefix)
    requires Trie(t) && p in t && p.level > 0
    ensures Below(t, p) != {}
    decreases LEVELS - p.level
  {
    if p.level == LEVELS {
      MemberIsLeaf(t, p.value);
      assert p.value in Below(t, p);
    } else {
      assert HasChild(t, p);
      var i :| 0 <= i < RADIX_SIZE && Child(p, i) in t;
      PresentIsInhabited(t, Child(p, i));
      ChildRange(p, i);
      var x :| x in Below(t, Child(p, i));
      assert x in Below(t, p);
    }
  }

  // All members are at or above a bound.
  ghost predicate AllFrom(t: set<Prefix>, lo: nat) {
    forall x :: x in Members(t) ==> lo <= x
  }

  // Stepping over absent children steps over no member.
  lemma {:induction false} SkipAbsent(t: set<Prefix>, p: Prefix, idx: nat)
    requires Closed(t) && p.level < LEVELS && idx <= RADIX_SIZE
    requires forall k :: 0 <= k < idx ==> Child(p, k) !in t
    requires AllFrom(t, Lowest(p))
    ensures AllFrom(t, Lowest(p) + idx * Width(p.level + 1))
  {
    if idx > 0 {
      SkipAbsent(t, p, idx - 1);
      assert Child(p, idx - 1) !in t;
      AbsentIsEmpty(t, Child(p, idx - 1));
      ChildRange(p, idx - 1);
      var lo := Lowest(Child(p, idx - 1));
      forall x | x in Members(t) ensures lo + Width(p.level + 1) <= x {
        assert x !in Below(t, Child(p, idx - 1));
      }
    }
  }

  // A descent that finds nothing in a trie can only have stopped at the root of an empty one.
  lemma NothingFound(t: set<Prefix>, p: Prefix)
    requires Trie(t) && p in t && p.level < LEVELS && !HasChild(t, p)
    ensures p == ROOT && Members(t) == {}
  {
    assert p.level == 0;
    assert InRange(p);
    SkipAbsent(t, p, RADIX_SIZE);
    forall x | x in Members(t) ensures false {
      MemberIsLeaf(t, x);
    }
  }

  lemma AllBelowRoot(t: set<Prefix>)
    requires Closed(t)
    ensures Below(t, ROOT) == Members(t)
  {
    forall x | x in Members(t) ensures x < 65536 {
      MemberIsLeaf(t, x);
    }
  }

  // The members below the first i children of p, in order.
  ghost function ListedBefore(t: set<Prefix>, p: Prefix, i: nat): seq<nat> {
    Sorted(Within(Members(t), Lowest(p), Lowest(Child(p, i))))
  }

  lemma ListNextChild(t: set<Prefix>, p: Prefix, i: nat)
    requires p.level < LEVELS
    ensures ListedBefore(t, p, i + 1) == ListedBefore(t, p, i) + Sorted(Below(t, Child(p, i)))
  {
    assert Lowest(Child(p, i)) + Width(p.level + 1) == Lowest(Child(p, i + 1)) && Lowest(p) <= Lowest(Child(p, i)) by {
      ChildRange(p, i);
      ChildRange(p, i + 1);
      var w := Width(p.level + 1);
      assert (i + 1) * w == i * w + w && i * w >= 0;
    }
    SortedSplit(Members(t), Lowest(p), Lowest(Child(p, i)), Lowest(Child(p, i + 1)));
  }

  lemma ListNoneAndAll(t: set<Prefix>, p: Prefix)
    requires p.level < LEVELS
    ensures ListedBefore(t, p, 0) == []
    ensures ListedBefore(t, p, RADIX_SIZE) == Sorted(Below(t, p))
  {
    ChildRange(p, 0);
    ChildRange(p, RADIX_SIZE);
    assert Within(Members(t), Lowest(p), Lowest(Child(p, 0))) == {};
    SortedEmpty();
  }
}
