/**
 The mutable radix tree of src/algorithm/radix_tree.c.

 The ghost map `nodes` names every reachable node by its prefix. `Shape` says that the heap is exactly
 that map, so the child pointers form a tree with no sharing; `Valid` adds that no branch is dead.
 Every operation is specified on the plain set `Pages()`.
 */
module RadixTree {
  import opened Ascending
  import opened RadixPaths
  import opened Sequences
  import opened ArenaModel

  // sizeof(RadixNode): sixteen pointers of one word each
  const NODE_BYTES := RADIX_SIZE * WORD_SIZE

  // ---------- the memory of the nodes ----------

  // The nodes lie in allocated words below the top and no two of them overlap.
  ghost predicate Separate(blocks: map<Prefix, Address>, s: State) {
    ArenaModel.Valid(s)
    && (forall p :: p in blocks ==>
          NotAfter(Block(blocks[p], RADIX_SIZE).After(), Top(s))
          && blocks[p].region < |s.caps| && blocks[p].offset + RADIX_SIZE <= s.counts[blocks[p].region])
    && (forall p, q :: p in blocks && q in blocks && p != q ==>
          Disjoint(Block(blocks[p], RADIX_SIZE), Block(blocks[q], RADIX_SIZE)))
  }

  // A node put where the arena says keeps clear of all earlier ones.
  lemma SeparateAlloc(blocks: map<Prefix, Address>, s: State, p: Prefix)
    requires Separate(blocks, s)
    ensures ArenaModel.Valid(s)
    ensures Separate(blocks[p := Alloc(s, Words(NODE_BYTES)).1], Alloc(s, Words(NODE_BYTES)).0)
  {
    hide Alloc, Separate;
    var n := Words(NODE_BYTES);
    assert ArenaModel.Valid(s) by { SeparateValid(blocks, s); }
    AllocAboveTop(s, n);
    AllocKeepsCounts(s, n);
    SeparateAdd(blocks, s, p, Alloc(s, n).0, Alloc(s, n).1);
  }

  lemma SeparateValid(blocks: map<Prefix, Address>, s: State)
    requires Separate(blocks, s)
    ensures ArenaModel.Valid(s)
  {
  }

  lemma SeparateAdd(blocks: map<Prefix, Address>, s: State, p: Prefix, t: State, at: Address)
    requires Separate(blocks, s) && ArenaModel.Valid(t) && |s.caps| <= |t.caps|
    requires forall i :: 0 <= i < |s.caps| ==> s.counts[i] <= t.counts[i]
    requires NotAfter(Top(s), at) && Top(t) == Block(at, RADIX_SIZE).After()
    requires t.caps != []
    ensures Separate(blocks[p := at], t)
  {
  }

  class RadixNode {
    const children: array<RadixNode?>

    constructor ()
      ensures fresh(children) && children.Length == RADIX_SIZE
      ensures forall i :: 0 <= i < RADIX_SIZE ==> children[i] == null
    {
      children := new RadixNode?[RADIX_SIZE](_ => null);
    }

    method HasChildren() returns (r: bool)
      requires children.Length == RADIX_SIZE
      ensures r <==> exists i :: 0 <= i < RADIX_SIZE && children[i] != null
    {
      for i := 0 to RADIX_SIZE
        invariant forall k :: 0 <= k < i ==> children[k] == null
      {
        if children[i] != null {
          return true;
        }
      }
      return false;
    }

    // The leftmost child at or after the given index, RADIX_SIZE if there is none.
    method FirstChild() returns (idx: nat)
      requires children.Length == RADIX_SIZE
      ensures idx <= RADIX_SIZE
      ensures idx < RADIX_SIZE ==> children[idx] != null
      ensures forall k :: 0 <= k < idx ==> children[k] == null
    {
      idx := 0;
      while idx < RADIX_SIZE && children[idx] == null
        invariant idx <= RADIX_SIZE
        invariant forall k :: 0 <= k < idx ==> children[k] == null
      {
        idx := idx + 1;
      }
    }
  }

  class RadixTree {
    const root: RadixNode  // embedded in the tree, not in the arena
    ghost var arena: State  // the state of the tree's arena
    ghost var nodes: map<Prefix, RadixNode>
    ghost var blocks: map<Prefix, Address>  // where the arena put the last node of each prefix
    ghost var Repr: set<array<RadixNode?>>  // the child arrays, present and past

    // The child array of every node mirrors the map.
    ghost predicate Linked(p: Prefix, i: nat)
      requires p in nodes && i < RADIX_SIZE && nodes[p].children.Length == RADIX_SIZE
      reads `nodes, nodes[p].children
    {
      nodes[p].children[i] == if Child(p, i) in nodes then nodes[Child(p, i)] else null
    }

    ghost predicate Shape()
      reads `nodes, `Repr, Repr
    {
      Closed(nodes.Keys) && nodes[ROOT] == root
      && (forall p :: p in nodes ==> nodes[p].children in Repr && nodes[p].children.Length == RADIX_SIZE)
      && (forall p, q :: p in nodes && q in nodes && p != q ==> nodes[p].children != nodes[q].children)
      && (forall p, i | p in nodes && 0 <= i < RADIX_SIZE :: Linked(p, i))
    }

    // The nodes below the root lie in words of the arena, no two in the same.
    ghost predicate Backed()
      reads `nodes, `blocks, `arena
    {
      Separate(blocks, arena) && forall p :: p in nodes && p != ROOT ==> p in blocks
    }

    ghost predicate Tree()
      reads `nodes, `Repr, Repr
    {
      Shape() && NoDeadBranch(nodes.Keys, ROOT)
    }

    ghost predicate Valid()
      reads `nodes, `blocks, `arena, `Repr, Repr
    {
      Tree() && Backed()
    }

    lemma ValidIsTree()
      requires Valid()
      ensures Tree()
    {
    }

    // The abstract value: the member pages.
    ghost function Pages(): set<nat>
      reads `nodes
    {
      Members(nodes.Keys)
    }

    constructor ()
      ensures Valid() && fresh(Repr) && arena == EMPTY
      ensures Pages() == {}
    {
      root := new RadixNode();
      arena := EMPTY;
      new;
      nodes, blocks := map[ROOT := root], map[];
      Repr := {root.children};
    }

    // Hang a fresh node below p.
    method Link(current: RadixNode, idx: nat, node: RadixNode, ghost p: Prefix)
      requires Shape() && NoDeadBranch(nodes.Keys, p)
      requires p in nodes && current == nodes[p] && p.level < LEVELS
      requires idx < RADIX_SIZE && current.children[idx] == null
      requires node.children !in Repr && node.children.Length == RADIX_SIZE
      requires forall i :: 0 <= i < RADIX_SIZE ==> node.children[i] == null
      modifies this`nodes, this`Repr, current.children
      ensures Shape() && NoDeadBranch(nodes.Keys, Child(p, idx)) && Repr == old(Repr) + {node.children}
      ensures Child(p, idx) !in old(nodes) && nodes == old(nodes)[Child(p, idx) := node]
      ensures current.children[idx] == node
    {
      ghost var c, was := Child(p, idx), nodes;
      assert c !in was by { assert Linked(p, idx); }
      Grow(was.Keys, p, idx);
      AbsentIsChildless(was.Keys, c);
      current.children[idx] := node;
      nodes := nodes[c := node];
      Repr := Repr + {node.children};
      assert nodes.Keys == was.Keys + {c};
      forall q, i | q in nodes && 0 <= i < RADIX_SIZE ensures Linked(q, i) {
        if Child(q, i) == c {
          ChildInjective(q, i, p, idx);
        } else if q != c {
          assert old(Linked(q, i));
        } else {
          assert Child(c, i) !in was;
        }
      }
    }

    method AddChild(current: RadixNode, idx: nat, ghost p: Prefix)
      requires Shape() && Backed() && NoDeadBranch(nodes.Keys, p)
      requires p in nodes && current == nodes[p] && p.level < LEVELS
      requires idx < RADIX_SIZE && current.children[idx] == null
      modifies this, Repr
      ensures Shape() && Backed() && NoDeadBranch(nodes.Keys, Child(p, idx))
      ensures fresh(Repr - old(Repr))
      ensures nodes.Keys == old(nodes.Keys) + {Child(p, idx)}
      ensures nodes[p] == current && current.children[idx] == nodes[Child(p, idx)]
    {
      hide Separate, NoDeadBranch;
      assert current.children in Repr;
      var node := new RadixNode();
      SeparateAlloc(blocks, arena, Child(p, idx));
      blocks := blocks[Child(p, idx) := Alloc(arena, Words(NODE_BYTES)).1];
      arena := Alloc(arena, Words(NODE_BYTES)).0;
      Link(current, idx, node, p);
    }

    // Insert, one turn of the loop: the next node of the path, made if it is not there.
    method InsertLevel(current: RadixNode, page: Page, level: nat) returns (next: RadixNode)
      requires Shape() && Backed() && level < LEVELS && NoDeadBranch(nodes.Keys, PrefixOf(page, level))
      requires PrefixOf(page, level) in nodes && current == nodes[PrefixOf(page, level)]
      modifies this, Repr
      ensures Shape() && Backed() && NoDeadBranch(nodes.Keys, PrefixOf(page, level + 1))
      ensures fresh(Repr - old(Repr))
      ensures PrefixOf(page, level + 1) in nodes && next == nodes[PrefixOf(page, level + 1)]
      ensures Pages() == if level + 1 == LEVELS then old(Pages()) + {page} else old(Pages())
    {
      hide Backed;
      var idx := Digit(page, level);
      ghost var p := PrefixOf(page, level);
      PathEnds(page);
      PathStep(page, level);
      assert Linked(p, idx);
      if current.children[idx] == null {
        MembersWith(nodes.Keys, Child(p, idx));
        AddChild(current, idx, p);
      } else {
        assert HasChild(nodes.Keys, p);
        MemberIsLeaf(nodes.Keys, page);
      }
      next := current.children[idx];
    }

    method InsertPath(page: Page)
      requires Shape() && Backed() && NoDeadBranch(nodes.Keys, PrefixOf(page, 0))
      requires PrefixOf(page, 0) in nodes && nodes[PrefixOf(page, 0)] == root
      modifies this, Repr
      ensures Shape() && Backed() && NoDeadBranch(nodes.Keys, PrefixOf(page, LEVELS))
      ensures fresh(Repr - old(Repr)) && Pages() == old(Pages()) + {page}
    {
      hide Shape, Backed, NoDeadBranch, Members, PrefixOf, Closed;
      var current := root;
      for level := 0 to LEVELS
        invariant Shape() && Backed() && NoDeadBranch(nodes.Keys, PrefixOf(page, level))
        invariant fresh(Repr - old(Repr))
        invariant PrefixOf(page, level) in nodes && current == nodes[PrefixOf(page, level)]
        invariant Pages() == if level == LEVELS then old(Pages()) + {page} else old(Pages())
      {
        current := InsertLevel(current, page, level);
      }
    }

    method Insert(page: Page)
      requires Valid()
      modifies this, Repr
      ensures Valid() && fresh(Repr - old(Repr))
      ensures Pages() == old(Pages()) + {page}
    {
      hide Shape, Backed;
      PathEnds(page);
      assert ROOT in nodes && nodes[ROOT] == root by { RootIsThere(); }
      InsertPath(page);
    }

    lemma RootIsThere()
      requires Shape()
      ensures ROOT in nodes && nodes[ROOT] == root
    {
    }

    method Lookup(page: Page) returns (found: bool)
      requires Tree()
      ensures found <==> page != 0 && page in Pages()
    {
      if page == 0 {
        return false;
      }
      PathEnds(page);
      MemberIsLeaf(nodes.Keys, page);
      var current := root;
      for level := 0 to LEVELS
        invariant PrefixOf(page, level) in nodes && current == nodes[PrefixOf(page, level)]
      {
        var idx := Digit(page, level);
        PathStep(page, level);
        assert Linked(PrefixOf(page, level), idx);
        if current.children[idx] == null {
          if page in Pages() {
            PathPresent(nodes.Keys, page, level + 1, LEVELS);
          }
          return false;
        }
        current := current.children[idx];
      }
      return true;
    }

    method RemoveChild(parent: RadixNode, idx: nat, ghost p: Prefix)
      requires Shape() && NoDeadBranch(nodes.Keys, Child(p, idx))
      requires p in nodes && parent == nodes[p] && idx < RADIX_SIZE
      requires Child(p, idx) in nodes && !HasChild(nodes.Keys, Child(p, idx))
      modifies this`nodes, parent.children
      ensures Shape() && NoDeadBranch(nodes.Keys, p)
      ensures nodes == old(nodes) - {Child(p, idx)}
    {
      ghost var c, was := Child(p, idx), nodes;
      ParentOfChild(p, idx);
      Prune(was.Keys, c);
      parent.children[idx] := null;
      nodes := nodes - {c};
      assert nodes.Keys == was.Keys - {c};
      forall q, i | q in nodes && 0 <= i < RADIX_SIZE ensures Linked(q, i) {
        if Child(q, i) == c {
          ChildInjective(q, i, p, idx);
        } else {
          assert old(Linked(q, i));
        }
      }
    }

    // Whether the node of a prefix has children, seen from the heap.
    lemma ChildrenSeen(p: Prefix)
      requires Shape() && p in nodes
      ensures HasChild(nodes.Keys, p) <==> exists i :: 0 <= i < RADIX_SIZE && nodes[p].children[i] != null
    {
      forall i | 0 <= i < RADIX_SIZE ensures nodes[p].children[i] != null <==> Child(p, i) in nodes {
        assert Linked(p, i);
      }
    }

    // A path down from the root: the nodes passed, the child taken at each, and the prefixes reached.
    static ghost predicate OnPath(nodes: map<Prefix, RadixNode>, trail: seq<Prefix>, path: seq<RadixNode>,
                                  indices: seq<nat>)
    {
      |trail| == |path| + 1 && |indices| == |path|
      && trail[0] == ROOT
      && (forall k :: 0 <= k < |trail| ==> trail[k] in nodes && trail[k].level == k)
      && (forall k :: 0 <= k < |path| ==>
            path[k] == nodes[trail[k]] && indices[k] < RADIX_SIZE && trail[k + 1] == Child(trail[k], indices[k]))
    }

    static lemma PathAt(nodes: map<Prefix, RadixNode>, trail: seq<Prefix>, path: seq<RadixNode>, indices: seq<nat>,
                        level: nat)
      requires OnPath(nodes, trail, path, indices) && level < |path|
      ensures |trail| == |path| + 1 && |indices| == |path| && trail[level] in nodes && trail[level].level == level
      ensures path[level] == nodes[trail[level]] && indices[level] < RADIX_SIZE
      ensures trail[level + 1] == Child(trail[level], indices[level])
      ensures forall k :: 0 <= k <= level ==> trail[k] != trail[level + 1]
    {
    }

    static lemma PathIs(nodes: map<Prefix, RadixNode>, trail: seq<Prefix>, path: seq<RadixNode>, indices: seq<nat>)
      requires OnPath(nodes, trail, path, indices)
      ensures |trail| == |path| + 1 && |indices| == |path| && trail[0] == ROOT
      ensures forall k :: 0 <= k < |trail| ==> trail[k] in nodes && trail[k].level == k
    {
    }

    // Delete, first loop: find the path to the page.
    method FindPath(page: Page)
      returns (found: bool, path: seq<RadixNode>, indices: seq<nat>, ghost trail: seq<Prefix>)
      requires Tree()
      ensures found <==> page in Pages()
      ensures found ==> |path| == LEVELS && OnPath(nodes, trail, path, indices) && trail[LEVELS] == Prefix(LEVELS, page)
      ensures forall k :: 0 <= k < |path| ==> path[k].children in Repr
    {
      path, indices, trail := [], [], [ROOT];
      PathEnds(page);
      MemberIsLeaf(nodes.Keys, page);
      var current := root;
      for level := 0 to LEVELS
        invariant |path| == level && OnPath(nodes, trail, path, indices)
        invariant forall k :: 0 <= k < |path| ==> path[k].children in Repr
        invariant trail[level] == PrefixOf(page, level) && current == nodes[trail[level]]
      {
        var idx := Digit(page, level);
        PathStep(page, level);
        assert Linked(trail[level], idx);
        if current.children[idx] == null {
          if page in Pages() {
            PathPresent(nodes.Keys, page, level + 1, LEVELS);
          }
          return false, path, indices, trail;
        }
        path := path + [current];
        indices := indices + [idx];
        trail := trail + [Child(trail[level], idx)];
        current := current.children[idx];
      }
      found := true;
    }

    // Delete, one turn of the second loop: the child goes if it is the leaf or has no children of its own.
    method CleanUp(parent: RadixNode, idx: nat, level: nat, ghost p: Prefix) returns (removed: bool)
      requires Shape() && NoDeadBranch(nodes.Keys, Child(p, idx))
      requires p in nodes && p.level == level < LEVELS && parent == nodes[p]
      requires idx < RADIX_SIZE && Child(p, idx) in nodes
      modifies this`nodes, parent.children
      ensures Shape()
      ensures removed ==> NoDeadBranch(nodes.Keys, p) && nodes == old(nodes) - {Child(p, idx)}
      ensures !removed ==> level != 3 && NoDeadBranch(nodes.Keys, ROOT) && nodes == old(nodes)
    {
      assert Linked(p, idx);
      ChildrenSeen(Child(p, idx));
      var inner := false;
      if level != 3 {
        inner := parent.children[idx].HasChildren();
      }
      if level == 3 || !inner {
        RemoveChild(parent, idx, p);
        removed := true;
      } else {
        removed := false;
      }
    }

    // Delete, second loop: from the leaf up, until a node still has children.
    method PruneUpwards(path: seq<RadixNode>, indices: seq<nat>, ghost trail: seq<Prefix>)
      requires Tree() && |path| == LEVELS && OnPath(nodes, trail, path, indices)
      modifies this`nodes, set k | 0 <= k < LEVELS :: path[k].children
      ensures Tree()
      ensures forall p :: p in nodes ==> p in old(nodes) && nodes[p] == old(nodes)[p]
      ensures Pages() == old(Pages()) - {trail[LEVELS].value}
    {
      hide Shape, NoDeadBranch, OnPath, Members;
      PathIs(nodes, trail, path, indices);
      ghost var start, page := nodes, trail[LEVELS].value;
      NoDeadLeaf(nodes.Keys, trail[LEVELS]);
      for level := LEVELS downto 0
        invariant Shape() && NoDeadBranch(nodes.Keys, trail[level])
        invariant forall k :: 0 <= k <= level ==> trail[k] in nodes
        invariant forall p :: p in nodes ==> p in start && nodes[p] == start[p]
        invariant Pages() == if level == LEVELS then old(Pages()) else old(Pages()) - {page}
      {
        PathAt(start, trail, path, indices, level);
        ghost var was, c := nodes, trail[level + 1];
        MembersWithout(was.Keys, c);
        var removed := CleanUp(path[level], indices[level], level, trail[level]);
        if !removed {
          break;
        }
        assert nodes.Keys == was.Keys - {c};
      }
    }

    method Delete(page: Page)
      requires Valid()
      modifies this, Repr
      ensures Valid() && Repr == old(Repr)
      ensures Pages() == if page == 0 then old(Pages()) else old(Pages()) - {page}
    {
      if page == 0 {
        return;
      }
      hide Shape, Separate;
      var found, path, indices, trail := FindPath(page);
      if !found {
        return;
      }
      PruneUpwards(path, indices, trail);
    }

    // The greedy descent shared by peek and pop: always the leftmost child.
    method Leftmost() returns (found: bool, page: Page)
      requires Tree()
      ensures found <==> Pages() != {}
      ensures page == if found then Min(Pages()) else 0
    {
      page := 0;
      ghost var p := ROOT;
      var current := root;
      var value: nat := 0;
      for level := 0 to LEVELS
        invariant p == Prefix(level, value) && p in nodes && current == nodes[p]
        invariant AllFrom(nodes.Keys, Lowest(p))
      {
        var idx := current.FirstChild();
        forall k | 0 <= k < RADIX_SIZE ensures current.children[k] == null <==> Child(p, k) !in nodes {
          assert Linked(p, k);
        }
        if idx == RADIX_SIZE {
          NothingFound(nodes.Keys, p);
          return false, 0;
        }
        SkipAbsent(nodes.Keys, p, idx);
        ChildRange(p, idx);
        assert Linked(p, idx);
        p := Child(p, idx);
        value := value * RADIX_SIZE + idx;
        current := current.children[idx];
      }
      assert InRange(p);
      MemberIsLeaf(nodes.Keys, value);
      MinUnique(Pages(), value);
      return true, value;
    }

    // The smallest member, or 0 if there is none.
    method PeekMin() returns (page: Page)
      requires Tree()
      ensures page == if Pages() == {} then 0 else Min(Pages())
    {
      var found;
      found, page := Leftmost();
    }

    method PopMin() returns (page: Page)
      requires Valid()
      modifies this, Repr
      ensures Valid() && Repr == old(Repr)
      ensures page == if old(Pages()) == {} then 0 else Min(old(Pages()))
      ensures Pages() == if page == 0 then old(Pages()) else old(Pages()) - {page}
    {
      var found;
      found, page := Leftmost();
      if !found {
        return;
      }
      Delete(page);
    }

    // Popping until 0 comes back. Page 0 is accepted by Insert but never leaves, so it blocks the drain at once.
    method Drain() returns (popped: seq<Page>)
      requires Valid()
      modifies this, Repr
      ensures Valid() && Repr == old(Repr)
      ensures 0 !in old(Pages()) ==> popped == Sorted(old(Pages())) && Pages() == {}
      ensures 0 in old(Pages()) ==> popped == [] && Pages() == old(Pages())
    {
      hide Valid;
      popped := [];
      ghost var was := Pages();
      var page := PopMin();
      DrainStart(was, page, Pages());
      while page != 0
        invariant Valid() && Repr == old(Repr)
        invariant Draining(was, popped, page, Pages())
        decreases |Pages()|, page
      {
        ghost var now := Pages();
        var next := PopMin();
        DrainStep(was, popped, page, now, next, Pages());
        popped := popped + [page];
        page := next;
      }
      DrainEnd(was, popped, Pages());
    }

    // Visit the members below a node in order. The visitor stands for the callback and its user data.
    method WalkNode(node: RadixNode, prefix: nat, depth: nat, visitor: Collector)
      requires Tree() && visitor.Valid()
      requires Prefix(depth, prefix) in nodes && node == nodes[Prefix(depth, prefix)]
      modifies visitor, visitor.freelist
      ensures visitor.Valid() && visitor.Beyond(old(visitor.freelist[..]))
      ensures visitor.seen == old(visitor.seen) + Sorted(Below(nodes.Keys, Prefix(depth, prefix)))
      decreases LEVELS - depth, 1
    {
      hide NoDeadBranch, Below, Members, ListedBefore, HasChild;
      ghost var p := Prefix(depth, prefix);
      assert InRange(p);
      if depth == LEVELS {
        BelowLeaf(nodes.Keys, p);
        SortedSingle(prefix);
        visitor.Collect(prefix);
        return;
      }
      ListNoneAndAll(nodes.Keys, p);
      for i := 0 to RADIX_SIZE
        invariant Tree() && visitor.Valid() && visitor.Beyond(old(visitor.freelist[..]))
        invariant visitor.seen == old(visitor.seen) + ListedBefore(nodes.Keys, p, i)
      {
        ghost var a, b, c := old(visitor.seen), ListedBefore(nodes.Keys, p, i), Sorted(Below(nodes.Keys, Child(p, i)));
        assert ListedBefore(nodes.Keys, p, i + 1) == b + c by { ListNextChild(nodes.Keys, p, i); }
        WalkChild(node, prefix, depth, i, visitor);
        ConcatAssociates(a, b, c);
      }
    }

    method WalkChild(node: RadixNode, prefix: nat, depth: nat, i: nat, visitor: Collector)
      requires Tree() && visitor.Valid()
      requires Prefix(depth, prefix) in nodes && node == nodes[Prefix(depth, prefix)]
      requires depth < LEVELS && i < RADIX_SIZE
      modifies visitor, visitor.freelist
      ensures visitor.Valid() && visitor.Beyond(old(visitor.freelist[..])) && old(visitor.count) <= visitor.count
      ensures visitor.seen == old(visitor.seen) + Sorted(Below(nodes.Keys, Child(Prefix(depth, prefix), i)))
      decreases LEVELS - depth, 0
    {
      assert Linked(Prefix(depth, prefix), i);
      SortedEmpty();
      if node.children[i] != null {
        WalkNode(node.children[i], prefix * RADIX_SIZE + i, depth + 1, visitor);
      } else {
        AbsentIsEmpty(nodes.Keys, Child(Prefix(depth, prefix), i));
      }
    }

    // Serialise: the smallest members, as many as fit.
    method ToFreelist(freelist: array<Page>, maxSize: nat) returns (count: nat)
      requires Tree() && maxSize <= freelist.Length
      modifies freelist
      ensures count == if |Pages()| < maxSize then |Pages()| else maxSize
      ensures freelist[..count] == Sorted(Pages())[..count]
      ensures freelist[count..] == old(freelist[count..])
    {
      hide Below, Members, NoDeadBranch;
      AllBelowRoot(nodes.Keys);
      ghost var before := freelist[..];
      var visitor := new Collector(freelist, maxSize);
      WalkNode(root, 0, 0, visitor);
      assert visitor.seen == Sorted(Pages());
      count := visitor.count;
      assert freelist[count..] == before[count..];
    }

    // Load: page number 0 marks an unused entry.
    method FromFreelist(freelist: array<Page>, count: nat)
      requires Valid() && count <= freelist.Length
      modifies this, Repr
      ensures Valid() && fresh(Repr - old(Repr))
      ensures Pages() == old(Pages()) + Entries(freelist[..count])
    {
      hide Valid;
      for i := 0 to count
        invariant Valid() && fresh(Repr - old(Repr))
        invariant freelist[..] == old(freelist[..])
        invariant Pages() == old(Pages()) + Entries(freelist[..i])
      {
        assert freelist[..i + 1] == freelist[..i] + [freelist[i]];
        if freelist[i] != 0 {
          Insert(freelist[i]);
        }
      }
    }
  }

  // Load a list into a new tree and dump it with enough room: its nonzero entries, sorted and each once.
  method LoadThenDump(input: array<Page>, count: nat, output: array<Page>, room: nat) returns (n: nat)
    requires count <= input.Length && count <= room <= output.Length
    modifies output
    ensures n <= count
    ensures output[..n] == Sorted(Entries(old(input[..count])))
    ensures output[n..] == old(output[n..])
  {
    hide RadixTree.Valid, RadixTree.Tree, Entries;
    var tree := new RadixTree();
    assert Entries(input[..0]) == {} by { EntriesFit(input[..0]); }
    tree.FromFreelist(input, count);
    tree.ValidIsTree();
    ghost var pages := Entries(input[..count]);
    EntriesFit(input[..count]);
    assert tree.Pages() == pages;
    n := tree.ToFreelist(output, room);
    assert Sorted(pages)[..n] == Sorted(pages);
  }

  // The callback that fills a freelist, with its user data.
  class Collector {
    const freelist: array<Page>
    const maxSize: nat
    var count: nat
    ghost var seen: seq<nat>

    ghost predicate Valid()
      reads this, freelist
    {
      maxSize <= freelist.Length
      && count == (if |seen| < maxSize then |seen| else maxSize)
      && freelist[..count] == seen[..count]
    }

    // The array is as before from the count on.
    ghost predicate Beyond(before: seq<Page>)
      reads this, freelist
    {
      freelist.Length == |before| && forall k :: count <= k < freelist.Length ==> freelist[k] == before[k]
    }

    constructor (freelist: array<Page>, maxSize: nat)
      requires maxSize <= freelist.Length
      ensures Valid() && seen == [] && this.freelist == freelist && this.maxSize == maxSize
    {
      this.freelist := freelist;
      this.maxSize := maxSize;
      count := 0;
      seen := [];
    }

    method Collect(page: Page)
      requires Valid()
      modifies this, freelist
      ensures Valid() && seen == old(seen) + [page]
      ensures Beyond(old(freelist[..])) && old(count) <= count
    {
      if count < maxSize {
        freelist[count] := page;
        count := count + 1;
      }
      seen := seen + [page];
    }
  }
}
