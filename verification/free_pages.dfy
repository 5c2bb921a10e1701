/**
 The free-page accounting of src/pager/pager.c as a value. One set of free pages is held three ways: the
 radix tree, a one-byte counter, and the inline list of the database header, which is all that survives a
 close. The functions say what each call does to the three; the protocol below says how callers use them.

 The counter is not kept equal to the number of free pages: taking a free page and allocating it counts it
 down twice, and it wraps at 256. What holds over every run is `counter <= number of free pages`, and that is
 enough for safety.
 */
module FreePages {
  import opened Ascending
  import opened Constants
  import opened Options

  datatype FreeMap = FreeMap(tree: set<nat>, numFrees: nat, list: seq<nat>, highest: nat)

  // The list without the first entry that equals x.
  function Without(list: seq<nat>, x: nat): (r: seq<nat>)
    ensures x !in list ==> r == list
    ensures x in list ==> |r| == |list| - 1
  {
    if list == [] then [] else if list[0] == x then list[1..] else [list[0]] + Without(list[1..], x)
  }

  function MarkFree(s: FreeMap, page: nat): FreeMap {
    FreeMap(s.tree + {page}, (s.numFrees + 1) % 256,
            if |s.list| < FREE_PAGE_LIST_SIZE then s.list + [page] else s.list, s.highest)
  }

  function MarkUsed(s: FreeMap, page: nat): FreeMap {
    FreeMap(if page == 0 then s.tree else s.tree - {page},
            if s.numFrees > 0 then s.numFrees - 1 else 0,
            s.list,
            if page > s.highest then page else s.highest)
  }

  // Whether a free page is there to be taken, as far as the counter tells.
  ghost predicate Takes(s: FreeMap) {
    s.numFrees > 0 && MinOrZero(s.tree) > 0
  }

  ghost function GetFreePage(s: FreeMap): nat {
    if Takes(s) then Min(s.tree) else (s.highest + 1) % 65536
  }

  ghost function AfterGet(s: FreeMap): FreeMap {
    if Takes(s) then
      FreeMap(s.tree - {Min(s.tree)}, s.numFrees - 1, Without(s.list, Min(s.tree)), s.highest)
    else
      s
  }

  // The smallest members, at most as many as fit the header.
  ghost function Smallest(tree: set<nat>, room: nat): seq<nat> {
    if |tree| < room then Sorted(tree) else Sorted(tree)[..room]
  }

  ghost function Sync(s: FreeMap): FreeMap {
    s.(list := Smallest(s.tree, FREE_PAGE_LIST_SIZE))
  }

  function NonZero(list: seq<nat>): nat {
    if list == [] then 0 else (if list[0] != 0 then 1 else 0) + NonZero(list[1..])
  }

  // What a freshly opened pager reads from the header.
  function Load(s: FreeMap): FreeMap {
    s.(tree := Entries(s.list), numFrees := NonZero(s.list) % 256)
  }

  // ---------- the protocol ----------

  // pending is a page that was handed out and is not allocated yet.
  datatype World = World(free: FreeMap, inUse: set<nat>, pending: Option<nat>)

  datatype Action = Get | Allocate | Free(page: nat) | SyncList | Reopen

  // A page is asked for only when the previous one has been allocated and the file can still grow;
  // only pages in use are freed, and never the header page.
  predicate Enabled(w: World, a: Action) {
    match a
    case Get => w.pending.None? && w.free.highest + 1 < MAX_PAGES
    case Allocate => w.pending.Some?
    case Free(page) => page in w.inUse && page != 0
    case SyncList => true
    case Reopen => true
  }

  // Reopen is pager_close_db followed by opening the file again; a page handed out and not allocated is lost.
  ghost function Step(w: World, a: Action): World
    requires Enabled(w, a)
  {
    match a
    case Get => World(AfterGet(w.free), w.inUse, Some(GetFreePage(w.free)))
    case Allocate => World(MarkUsed(w.free, w.pending.value), w.inUse + {w.pending.value}, None)
    case Free(page) => World(MarkFree(w.free, page), w.inUse - {page}, w.pending)
    case SyncList => w.(free := Sync(w.free))
    case Reopen => World(Load(Sync(w.free)), w.inUse, None)
  }

  ghost predicate Distinct(list: seq<nat>) {
    forall i, j :: 0 <= i < j < |list| ==> list[i] != list[j]
  }

  // The header list names free pages only, none twice.
  ghost predicate ListOk(s: FreeMap) {
    |s.list| <= FREE_PAGE_LIST_SIZE && Distinct(s.list) && forall x :: x in s.list ==> x in s.tree
  }

  ghost predicate Inv(w: World) {
    w.free.highest < MAX_PAGES
    && 0 !in w.free.tree
    && w.free.tree !! w.inUse
    && (forall x :: x in w.free.tree || x in w.inUse ==> x <= w.free.highest)
    && w.free.numFrees < 256 && w.free.numFrees <= |w.free.tree|
    && ListOk(w.free)
    && (w.pending.Some? ==>
          0 < w.pending.value < MAX_PAGES && w.pending.value <= w.free.highest + 1
          && w.pending.value !in w.free.tree && w.pending.value !in w.inUse)
  }

  // ---------- the header list ----------

  lemma DistinctTail(list: seq<nat>)
    requires Distinct(list) && list != []
    ensures list == [list[0]] + list[1..] && Distinct(list[1..]) && list[0] !in list[1..]
  {
    forall i | 0 <= i < |list| - 1 ensures list[1..][i] != list[0] {
      assert list[1..][i] == list[i + 1];
    }
  }

  lemma {:induction false} WithoutDistinct(list: seq<nat>, x: nat)
    requires Distinct(list)
    ensures Distinct(Without(list, x)) && forall y :: y in Without(list, x) <==> y in list && y != x
    decreases |list|
  {
    if list != [] {
      DistinctTail(list);
      WithoutDistinct(list[1..], x);
      if list[0] != x {
        DistinctCons(list[0], Without(list[1..], x));
      }
    }
  }

  lemma DistinctCons(x: nat, list: seq<nat>)
    requires Distinct(list) && x !in list
    ensures Distinct([x] + list)
  {
  }

  lemma {:induction false} NonZeroCount(list: seq<nat>)
    requires Distinct(list)
    ensures NonZero(list) == |Entries(list)|
    decreases |list|
  {
    if list != [] {
      DistinctTail(list);
      NonZeroCount(list[1..]);
      assert Entries(list) == Entries(list[1..]) + if list[0] != 0 then {list[0]} else {};
    }
  }

  // A sync writes the smallest free pages in order, all of them when they fit.
  lemma SyncListOk(s: FreeMap)
    ensures ListOk(Sync(s)) && StrictlyAscending(Sync(s).list)
    ensures |Sync(s).list| == if |s.tree| < FREE_PAGE_LIST_SIZE then |s.tree| else FREE_PAGE_LIST_SIZE
    ensures forall x, y :: x in Sync(s).list && y in s.tree && y !in Sync(s).list ==> x < y
  {
    SortedLists(s.tree);
    var all, l := Sorted(s.tree), Sync(s).list;
    forall x, y | x in l && y in s.tree && y !in l ensures x < y {
      var i :| 0 <= i < |l| && l[i] == x;
      assert y in all;
      var j :| 0 <= j < |all| && all[j] == y;
      assert forall k :: 0 <= k < |l| ==> all[k] in l;
      assert j >= |l|;
      assert all[i] < all[j];
    }
  }

  // Closing and reopening keeps a subset of the free pages, all of them exactly when at most 32 are free,
  // and makes the counter exact again.
  lemma ReopenKeeps(s: FreeMap)
    requires 0 !in s.tree
    ensures var t := Load(Sync(s));
            t.tree <= s.tree
            && (t.tree == s.tree <==> |s.tree| <= 32)
            && t.numFrees == |t.tree|
            && t.list == Sync(s).list && ListOk(t)
  {
    SyncListOk(s);
    SortedLists(s.tree);
    var l := Sync(s).list;
    var t := Load(Sync(s));
    NonZeroCount(l);
    NonZeroLength(l);
    if |s.tree| <= FREE_PAGE_LIST_SIZE {
      assert l == Sorted(s.tree);
    }
  }

  lemma {:induction false} NonZeroLength(list: seq<nat>)
    ensures NonZero(list) <= |list| && (0 !in list ==> NonZero(list) == |list|)
    decreases |list|
  {
    if list != [] {
      NonZeroLength(list[1..]);
    }
  }

  // ---------- every run ----------

  // The page that Get hands out: never in use, and the smallest free one whenever the counter is not zero.
  lemma GetIsSafe(w: World)
    requires Inv(w) && Enabled(w, Get)
    ensures var page := GetFreePage(w.free);
            page !in w.inUse && 0 < page < 65535
            && (w.free.numFrees > 0 ==> w.free.tree != {} && page == Min(w.free.tree))
            && (w.free.numFrees == 0 ==> page == w.free.highest + 1 && page !in w.free.tree)
  {
  }

  lemma GetKeepsInv(w: World)
    requires Inv(w) && Enabled(w, Get)
    ensures Inv(Step(w, Get))
  {
    GetIsSafe(w);
    if w.free.numFrees > 0 {
      WithoutDistinct(w.free.list, Min(w.free.tree));
    }
  }

  lemma AllocateKeepsInv(w: World)
    requires Inv(w) && Enabled(w, Allocate)
    ensures Inv(Step(w, Allocate))
  {
    assert w.free.tree - {w.pending.value} == w.free.tree;
  }

  lemma FreeKeepsInv(w: World, page: nat)
    requires Inv(w) && Enabled(w, Free(page))
    ensures Inv(Step(w, Free(page)))
  {
    assert |w.free.tree + {page}| == |w.free.tree| + 1;
    var t := Step(w, Free(page)).free;
    forall i, j | 0 <= i < j < |t.list| ensures t.list[i] != t.list[j] {
      assert i < |w.free.list| && w.free.list[i] in w.free.tree;
    }
  }

  lemma ReopenKeepsInv(w: World)
    requires Inv(w)
    ensures Inv(Step(w, Reopen))
  {
    ReopenKeeps(w.free);
    var t := Step(w, Reopen);
    assert forall x :: x in t.free.list ==> x in w.free.tree && x != 0;
  }

  lemma StepKeepsInv(w: World, a: Action)
    requires Inv(w) && Enabled(w, a)
    ensures Inv(Step(w, a))
  {
    match a
    case Get => GetKeepsInv(w);
    case Allocate => AllocateKeepsInv(w);
    case Free(page) => FreeKeepsInv(w, page);
    case SyncList => SyncListOk(w.free);
    case Reopen => ReopenKeepsInv(w);
  }

  ghost predicate Legal(w: World, actions: seq<Action>)
    decreases |actions|
  {
    actions == [] || (Enabled(w, actions[0]) && Legal(Step(w, actions[0]), actions[1..]))
  }

  ghost function Run(w: World, actions: seq<Action>): World
    requires Legal(w, actions)
    decreases |actions|
  {
    if actions == [] then w else Run(Step(w, actions[0]), actions[1..])
  }

  // A new database: the header page and the three catalog pages are in use.
  ghost predicate Initial(w: World) {
    w.free == FreeMap({}, 0, [], 3) && w.inUse == {0, 1, 2, 3} && w.pending.None?
  }

  lemma {:induction false} RunKeepsInv(w: World, actions: seq<Action>)
    requires Inv(w) && Legal(w, actions)
    ensures Inv(Run(w, actions))
    decreases |actions|
  {
    if actions != [] {
      StepKeepsInv(w, actions[0]);
      RunKeepsInv(Step(w, actions[0]), actions[1..]);
    }
  }

  // Over every run of the protocol from a new database, whatever was freed, synced and reopened on the way:
  // the page handed out next is not in use, free and used pages stay apart and below the highest page,
  // the counter does not promise more than the tree holds, and the header lists only free pages.
  lemma EveryRunIsSafe(w: World, actions: seq<Action>)
    requires Initial(w) && Legal(w, actions)
    ensures var v := Run(w, actions);
            Inv(v)
            && (Enabled(v, Get) ==>
                  GetFreePage(v.free) !in v.inUse && GetFreePage(v.free) > 0
                  && (v.free.numFrees > 0 ==> v.free.tree != {} && GetFreePage(v.free) == Min(v.free.tree)))
  {
    RunKeepsInv(w, actions);
    var v := Run(w, actions);
    if Enabled(v, Get) {
      GetIsSafe(v);
    }
  }

  // ---------- no page is lost, except where the header list is too short ----------

  // Every page up to the highest one is accounted for.
  ghost predicate NoneLost(w: World) {
    forall x :: 0 < x <= w.free.highest ==> x in w.free.tree || x in w.inUse || w.pending == Some(x)
  }

  lemma StepLosesNone(w: World, a: Action)
    requires Inv(w) && Enabled(w, a) && !a.Reopen? && NoneLost(w)
    ensures NoneLost(Step(w, a))
  {
    if a.Get? {
      GetIsSafe(w);
    }
  }

  // A close and reopen loses pages exactly when more than 32 are free or an old page was handed out unallocated.
  lemma ReopenLosesNoneIff(w: World)
    requires Inv(w) && NoneLost(w)
    ensures NoneLost(Step(w, Reopen))
            <==> |w.free.tree| <= 32 && (w.pending.Some? ==> w.pending.value > w.free.highest)
  {
    ReopenKeeps(w.free);
    var t := Step(w, Reopen);
    if |w.free.tree| > FREE_PAGE_LIST_SIZE {
      assert t.free.tree != w.free.tree;
      var x :| x in w.free.tree && x !in t.free.tree;
      assert x != 0 && x !in w.inUse;
    } else if w.pending.Some? && w.pending.value <= w.free.highest {
      assert w.pending.value !in t.free.tree;
    }
  }

  // ---------- what the header knows without a close ----------

  // Every free page is in the header list.
  ghost predicate AllListed(w: World) {
    forall x :: x in w.free.tree ==> x in w.free.list
  }

  // Taking a page out of the list leaves the others in their order.
  lemma {:induction false} WithoutKeepsOrder(front: seq<nat>, x: nat, back: seq<nat>)
    requires x !in front
    ensures Without(front + ([x] + back), x) == front + back
    decreases |front|
  {
    var list := front + ([x] + back);
    if front != [] {
      assert list[1..] == front[1..] + ([x] + back);
      WithoutKeepsOrder(front[1..], x, back);
      assert front + back == [front[0]] + (front[1..] + back);
    }
  }

  lemma {:induction false} WithoutKeepsOthers(list: seq<nat>, x: nat, y: nat)
    requires y != x
    ensures y in Without(list, x) <==> y in list
    decreases |list|
  {
    if list != [] {
      assert list == [list[0]] + list[1..];
      WithoutKeepsOthers(list[1..], x, y);
    }
  }

  // As many pages are free as listed, if all are.
  lemma ListedCount(w: World)
    requires Inv(w) && AllListed(w)
    ensures |w.free.list| == |w.free.tree|
  {
    NonZeroCount(w.free.list);
    NonZeroLength(w.free.list);
    assert Entries(w.free.list) == w.free.tree;
  }

  // A database that is opened without having been closed finds all free pages exactly when all are listed.
  lemma LoadKeepsExactly(w: World)
    requires Inv(w)
    ensures Load(w.free).tree == w.free.tree <==> AllListed(w)
  {
  }

  // The list stays complete exactly when no page is freed while 32 are free.
  lemma StepKeepsListedExactly(w: World, a: Action)
    requires Inv(w) && Enabled(w, a) && AllListed(w)
    ensures AllListed(Step(w, a)) <==> (a.Free? ==> |w.free.tree| < 32)
  {
    StepKeepsInv(w, a);
    ListedCount(w);
    match a
    case Get =>
      GetIsSafe(w);
      forall x | x in Step(w, a).free.tree ensures x in Step(w, a).free.list {
        WithoutKeepsOthers(w.free.list, GetFreePage(w.free), x);
      }
    case Allocate =>
    case Free(page) =>
      assert page !in w.free.list;
    case SyncList => SyncKeepsAll(w.free);
    case Reopen => SyncKeepsAll(w.free);
  }

  lemma SyncKeepsAll(s: FreeMap)
    requires |s.tree| <= 32
    ensures forall x :: x in s.tree ==> x in Sync(s).list
  {
    SortedLists(s.tree);
    assert Sync(s).list == Sorted(s.tree);
  }

  // A full list stays as it is.
  lemma FullListStays(w: World, page: nat)
    requires Inv(w) && Enabled(w, Free(page)) && |w.free.list| == 32
    ensures Step(w, Free(page)).free.list == w.free.list
  {
  }

  ghost predicate NeverFull(w: World, actions: seq<Action>)
    requires Legal(w, actions)
    decreases |actions|
  {
    actions == []
    || ((actions[0].Free? ==> |w.free.tree| < 32) && NeverFull(Step(w, actions[0]), actions[1..]))
  }

  // Over every run from a new database in which no page is freed while 32 are free, the header alone knows all free
  // pages after every step.
  lemma {:induction false} EveryRunIsListed(w: World, actions: seq<Action>)
    requires Inv(w) && AllListed(w) && Legal(w, actions) && NeverFull(w, actions)
    ensures AllListed(Run(w, actions)) && Load(Run(w, actions).free).tree == Run(w, actions).free.tree
    decreases |actions|
  {
    if actions == [] {
      LoadKeepsExactly(w);
    } else {
      StepKeepsInv(w, actions[0]);
      StepKeepsListedExactly(w, actions[0]);
      EveryRunIsListed(Step(w, actions[0]), actions[1..]);
    }
  }

  // ---------- the counter drifts ----------

  ghost function Drift(s: FreeMap): int {
    |s.tree| - s.numFrees
  }

  // Exactly how much further the counter falls behind the tree with each action.
  lemma {:induction false} DriftStep(w: World, a: Action)
    requires Inv(w) && Enabled(w, a)
    ensures a.Get? || a.SyncList? ==> Drift(Step(w, a).free) == Drift(w.free)
    ensures a.Allocate? ==> Drift(Step(w, a).free) == Drift(w.free) + if w.free.numFrees > 0 then 1 else 0
    ensures a.Free? ==> Drift(Step(w, a).free) == Drift(w.free) + if w.free.numFrees == 255 then 256 else 0
    ensures a.Reopen? ==> Drift(Step(w, a).free) == 0
  {
    match a
    case Get => GetIsSafe(w);
    case Allocate => assert w.free.tree - {w.pending.value} == w.free.tree;
    case Free(page) => assert |w.free.tree + {page}| == |w.free.tree| + 1;
    case SyncList =>
    case Reopen => ReopenKeeps(w.free);
  }

  // A free page is handed out exactly when the drift has not eaten up the whole counter.
  lemma ReusesIff(w: World)
    requires Inv(w) && Enabled(w, Get)
    ensures GetFreePage(w.free) in w.free.tree <==> w.free.numFrees > 0
  {
    GetIsSafe(w);
  }

  lemma RunOne(w: World, a: Action, rest: seq<Action>)
    requires Enabled(w, a) && Legal(Step(w, a), rest)
    ensures Legal(w, [a] + rest) && Run(w, [a] + rest) == Run(Step(w, a), rest)
  {
    assert ([a] + rest)[1..] == rest;
  }

  lemma RunFour(w: World, a: Action, b: Action, c: Action, d: Action)
    requires Enabled(w, a) && Enabled(Step(w, a), b)
    requires Enabled(Step(Step(w, a), b), c) && Enabled(Step(Step(Step(w, a), b), c), d)
    ensures Legal(w, [a] + ([b] + ([c] + ([d] + []))))
    ensures Run(w, [a] + ([b] + ([c] + ([d] + [])))) == Step(Step(Step(Step(w, a), b), c), d)
  {
    hide Step, Enabled;
    RunOne(Step(Step(Step(w, a), b), c), d, []);
    RunOne(Step(Step(w, a), b), c, [d] + []);
    RunOne(Step(w, a), b, [c] + ([d] + []));
    RunOne(w, a, [b] + ([c] + ([d] + [])));
  }

  lemma TwoFreed(w: World, x: nat, y: nat)
    requires Inv(w) && w.pending.None? && w.free.tree == {} && w.free.numFrees == 0
    requires x in w.inUse && y in w.inUse && 0 < x < y
    ensures Enabled(w, Free(x)) && Enabled(Step(w, Free(x)), Free(y))
    ensures var v := Step(Step(w, Free(x)), Free(y));
            v.free.tree == {x, y} && v.free.numFrees == 2 && v.free.highest == w.free.highest && v.pending.None?
  {
  }

  lemma OneTaken(w: World, x: nat, y: nat)
    requires w.free.tree == {x, y} && 0 < x < y && w.free.numFrees == 2 && w.pending.None?
    requires w.free.highest + 1 < MAX_PAGES && x <= w.free.highest
    ensures Enabled(w, Get) && Enabled(Step(w, Get), Allocate)
    ensures var v := Step(Step(w, Get), Allocate);
            v.free.tree == {y} && v.free.numFrees == 0 && v.free.highest == w.free.highest
  {
    MinUnique({x, y}, x);
  }

  // So a free page can be passed over. Free two pages, take and allocate the smaller one: the counter has
  // reached zero, the other page is still free, and the next page comes from the end of the file.
  lemma FreePagePassedOver(w: World, x: nat, y: nat)
    requires Inv(w) && w.pending.None? && w.free.tree == {} && w.free.numFrees == 0
    requires x in w.inUse && y in w.inUse && 0 < x < y && w.free.highest + 1 < MAX_PAGES
    ensures Legal(w, [Free(x)] + ([Free(y)] + ([Get] + ([Allocate] + []))))
    ensures var v := Run(w, [Free(x)] + ([Free(y)] + ([Get] + ([Allocate] + []))));
            v.free.tree == {y} && GetFreePage(v.free) == v.free.highest + 1
  {
    TwoFreed(w, x, y);
    OneTaken(Step(Step(w, Free(x)), Free(y)), x, y);
    RunFour(w, Free(x), Free(y), Get, Allocate);
  }
}
