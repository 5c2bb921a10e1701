/**
 The chained-region bump allocator of src/allocator/arena.h as a value: the capacities and the fill counts of
 the regions in chain order, and the index of the region that `end` points to. Sizes and offsets are in
 words of sizeof(uintptr_t) bytes. An uninitialised arena has no regions.

 The two main results are `EveryRunIsSafe` (live blocks never overlap, over every run with LIFO marks) and
 `ReplayAfterRewind` (rewinding and repeating the same requests gives the same addresses and no new region).
 */
module ArenaModel {

  const WORD_SIZE := 8
  const DEFAULT_CAPACITY := 8192

  datatype State = State(caps: seq<nat>, counts: seq<nat>, end: nat)

  datatype Address = Address(region: nat, offset: nat)

  datatype Mark = Uninitialized | At(region: nat, count: nat)

  const EMPTY := State([], [], 0)

  function Words(bytes: nat): nat {
    (bytes + WORD_SIZE - 1) / WORD_SIZE
  }

  function CapacityFor(size: nat): (c: nat)
    ensures c >= size
  {
    if DEFAULT_CAPACITY < size then size else DEFAULT_CAPACITY
  }

  ghost predicate Valid(s: State) {
    |s.caps| == |s.counts|
    && (if s.caps == [] then s.end == 0 else s.end < |s.caps|)
    && (forall i :: 0 <= i < |s.caps| ==> s.counts[i] <= s.caps[i])
    && (forall i :: s.end < i < |s.caps| ==> s.counts[i] == 0)
  }

  predicate Fits(s: State, i: nat, size: nat)
    requires i < |s.caps| == |s.counts|
  {
    s.counts[i] + size <= s.caps[i]
  }

  // Where the search for room stops: at the first region with room, or at the last one.
  function Seek(s: State, i: nat, size: nat): (k: nat)
    requires i < |s.caps| == |s.counts|
    ensures i <= k < |s.caps|
    ensures Fits(s, k, size) || k == |s.caps| - 1
    ensures forall j :: i <= j < k ==> !Fits(s, j, size)
    decreases |s.caps| - i
  {
    if !Fits(s, i, size) && i + 1 < |s.caps| then Seek(s, i + 1, size) else i
  }

  lemma {:induction false} SeekIgnoresEnd(s: State, t: State, i: nat, size: nat)
    requires i < |s.caps| == |s.counts| && t.caps == s.caps && t.counts == s.counts
    ensures Seek(s, i, size) == Seek(t, i, size)
    decreases |s.caps| - i
  {
    if !Fits(s, i, size) && i + 1 < |s.caps| {
      SeekIgnoresEnd(s, t, i + 1, size);
    }
  }

  // Make `end` a region with room, creating one if the chain has none.
  function Reserve(s: State, size: nat): (r: State)
    requires Valid(s)
    ensures Valid(r) && r.caps != [] && Fits(r, r.end, size)
  {
    var s0 := if s.caps == [] then State([CapacityFor(size)], [0], 0) else s;
    var k := Seek(s0, s0.end, size);
    if Fits(s0, k, size) then
      s0.(end := k)
    else
      State(s0.caps + [CapacityFor(size)], s0.counts + [0], k + 1)
  }

  // Take the next words of the current region.
  function Bump(s: State, size: nat): (r: State)
    requires Valid(s) && s.caps != [] && Fits(s, s.end, size)
    ensures Valid(r)
  {
    s.(counts := s.counts[s.end := s.counts[s.end] + size])
  }

  function Alloc(s: State, size: nat): (r: (State, Address))
    requires Valid(s)
    ensures Valid(r.0) && r.0.caps != []
  {
    var t := Reserve(s, size);
    (Bump(t, size), Address(t.end, t.counts[t.end]))
  }

  function Snapshot(s: State): Mark
    requires Valid(s)
  {
    if s.caps == [] then Uninitialized else At(s.end, s.counts[s.end])
  }

  // The counts with everything from index i on set to zero.
  function Zeroed(counts: seq<nat>, i: nat): (r: seq<nat>)
    ensures |r| == |counts| && forall j :: 0 <= j < |r| ==> r[j] == if j < i then counts[j] else 0
  {
    seq(|counts|, j requires 0 <= j < |counts| => if j < i then counts[j] else 0)
  }

  function Reset(s: State): (r: State)
    requires Valid(s)
    ensures Valid(r)
  {
    State(s.caps, Zeroed(s.counts, 0), 0)
  }

  // A mark can be returned to when its region is still in the chain.
  predicate CanRewind(s: State, m: Mark) {
    m.At? ==> m.region < |s.caps| && m.count <= s.caps[m.region]
  }

  function Rewind(s: State, m: Mark): (r: State)
    requires Valid(s) && CanRewind(s, m)
    requires m.At? ==> m.region <= s.end
    ensures Valid(r)
  {
    if m.Uninitialized? then
      Reset(s)
    else
      State(s.caps, Zeroed(s.counts, m.region + 1)[m.region := m.count], m.region)
  }

  function Trim(s: State): (r: State)
    requires Valid(s) && s.caps != []
    ensures Valid(r)
  {
    State(s.caps[..s.end + 1], s.counts[..s.end + 1], s.end)
  }

  // ---------- positions ----------

  // The bump order: earlier regions first, then lower offsets.
  predicate NotAfter(a: Address, b: Address) {
    a.region < b.region || (a.region == b.region && a.offset <= b.offset)
  }

  // The first free word.
  function Top(s: State): Address
    requires Valid(s)
  {
    if s.caps == [] then Address(0, 0) else Address(s.end, s.counts[s.end])
  }

  datatype Block = Block(at: Address, size: nat) {
    function After(): Address {
      Address(at.region, at.offset + size)
    }
  }

  predicate Disjoint(a: Block, b: Block) {
    a.at.region != b.at.region
    || a.at.offset + a.size <= b.at.offset
    || b.at.offset + b.size <= a.at.offset
  }

  // An allocation starts at or above the old top and moves the top to its own end.
  lemma AllocAboveTop(s: State, size: nat)
    requires Valid(s)
    ensures var (t, at) := Alloc(s, size);
            NotAfter(Top(s), at)
            && Top(t) == Block(at, size).After()
            && at.offset + size <= t.caps[at.region]
            && |s.caps| <= |t.caps| && s.caps <= t.caps
  {
  }

  // What lies below the top stays allocated, and the block starts where its region was filled to.
  lemma AllocKeepsCounts(s: State, size: nat)
    requires Valid(s)
    ensures var (t, at) := Alloc(s, size);
            s.end <= t.end && |s.counts| <= |t.counts|
            && (forall i :: 0 <= i < |s.caps| ==> s.counts[i] <= t.counts[i])
            && (at.region < |s.counts| ==> at.offset == s.counts[at.region])
  {
  }

  // ---------- where a request lands ----------

  // The least number of words that holds the bytes.
  lemma WordsAreLeast(bytes: nat, n: nat)
    ensures 8 * n >= bytes <==> n >= Words(bytes)
  {
  }

  lemma CapacityIs(size: nat)
    ensures CapacityFor(size) == if size > 8192 then size else 8192
  {
  }

  lemma SeekExactly(s: State, size: nat, i: nat)
    requires Valid(s) && s.caps != [] && s.end <= i <= |s.caps|
    requires forall j :: s.end <= j < i ==> s.counts[j] + size > s.caps[j]
    requires i < |s.caps| ==> s.counts[i] + size <= s.caps[i]
    ensures Seek(s, s.end, size) == if i < |s.caps| then i else i - 1
  {
    var k := Seek(s, s.end, size);
    assert i < |s.caps| ==> Fits(s, i, size);
    assert k < i ==> !Fits(s, k, size);
  }

  // A request lands in the first region from the end on that has room for it, behind what is there, and no region is
  // made; only if none has room, or there is none, a region of 8192 words, or more if asked for, is made for it.
  lemma AllocExactly(s: State, size: nat, i: nat)
    requires Valid(s) && s.end <= i <= |s.caps|
    requires forall j :: s.end <= j < i ==> s.counts[j] + size > s.caps[j]
    requires i < |s.caps| ==> s.counts[i] + size <= s.caps[i]
    ensures Alloc(s, size).1 == Address(i, if i < |s.caps| then s.counts[i] else 0)
    ensures Alloc(s, size).0
         == if i < |s.caps| then State(s.caps, s.counts[i := s.counts[i] + size], i)
            else State(s.caps + [if size > 8192 then size else 8192], s.counts + [size], i)
  {
    hide Seek, CapacityFor;
    CapacityIs(size);
    if s.caps != [] {
      SeekExactly(s, size, i);
    }
  }

  // Room at or behind the end is used.
  lemma {:induction false} RoomIsUsed(s: State, size: nat, i: nat)
    requires Valid(s) && s.end <= i < |s.caps| && s.counts[i] + size <= s.caps[i]
    ensures Alloc(s, size).0.caps == s.caps && s.end <= Alloc(s, size).0.end <= i
    ensures i == s.end ==> Alloc(s, size).1 == Address(i, s.counts[i])
    decreases i
  {
    if j :| s.end <= j < i && s.counts[j] + size <= s.caps[j] {
      RoomIsUsed(s, size, j);
    } else {
      AllocExactly(s, size, i);
    }
  }

  // A trimmed arena has lost exactly the regions behind the end, all empty, and its room is that of the last region.
  lemma TrimExactly(s: State, size: nat)
    requires Valid(s) && s.caps != []
    ensures Trim(s).caps + s.caps[s.end + 1..] == s.caps && Trim(s).counts + s.counts[s.end + 1..] == s.counts
    ensures forall k :: s.end < k < |s.counts| ==> s.counts[k] == 0
    ensures Alloc(Trim(s), size).0.caps == Trim(s).caps <==> s.counts[s.end] + size <= s.caps[s.end]
  {
    var t := Trim(s);
    AllocExactly(t, size, if t.counts[t.end] + size <= t.caps[t.end] then t.end else |t.caps|);
  }

  // ---------- runs with marks taken and returned to in LIFO order ----------

  // A mark on the stack, and how many blocks were live when it was taken.
  datatype Frame = Frame(mark: Mark, blocks: nat)

  datatype Run = Run(arena: State, live: seq<Block>, frames: seq<Frame>)

  datatype Op =
    | AllocOp(bytes: nat)
    | ReallocOp(oldBytes: nat, newBytes: nat)
    | SnapshotOp
    | RewindOp(frame: nat)  // back to this mark, forgetting the ones taken after it
    | ResetOp
    | TrimOp

  function Position(m: Mark): Address {
    if m.At? then Address(m.region, m.count) else Address(0, 0)
  }

  ghost predicate LiveInOrder(live: seq<Block>) {
    forall i, j :: 0 <= i < j < |live| ==> NotAfter(live[i].After(), live[j].at)
  }

  // Every live block lies in allocated words of its region, at or below the top.
  ghost predicate LiveAllocated(s: State, live: seq<Block>)
    requires Valid(s)
  {
    forall i :: 0 <= i < |live| ==>
      live[i].at.region < |s.caps|
      && live[i].at.offset + live[i].size <= s.counts[live[i].at.region]
      && NotAfter(live[i].After(), Top(s))
  }

  // A mark separates the blocks that were live when it was taken from the later ones.
  ghost predicate Separates(f: Frame, live: seq<Block>) {
    f.blocks <= |live|
    && (forall i :: 0 <= i < f.blocks ==> NotAfter(live[i].After(), Position(f.mark)))
    && (forall i :: f.blocks <= i < |live| ==> NotAfter(Position(f.mark), live[i].at))
  }

  ghost predicate MarkUsable(s: State, m: Mark)
    requires Valid(s)
  {
    NotAfter(Position(m), Top(s))
    && (m.At? ==> m.region < |s.caps| && m.count <= s.counts[m.region])
  }

  ghost predicate FramesNested(frames: seq<Frame>) {
    forall j, k :: 0 <= j < k < |frames| ==>
      NotAfter(Position(frames[j].mark), Position(frames[k].mark)) && frames[j].blocks <= frames[k].blocks
  }

  ghost predicate Inv(r: Run) {
    Valid(r.arena)
    && LiveInOrder(r.live)
    && LiveAllocated(r.arena, r.live)
    && FramesNested(r.frames)
    && forall k :: 0 <= k < |r.frames| ==> MarkUsable(r.arena, r.frames[k].mark) && Separates(r.frames[k], r.live)
  }

  predicate Enabled(r: Run, op: Op) {
    match op
    case RewindOp(frame) => frame < |r.frames|
    case TrimOp => r.arena.caps != []
    case _ => true
  }

  function AllocStep(r: Run, size: nat): Run
    requires Valid(r.arena)
  {
    var (t, at) := Alloc(r.arena, size);
    Run(t, r.live + [Block(at, size)], r.frames)
  }

  ghost function Step(r: Run, op: Op): Run
    requires Inv(r) && Enabled(r, op)
  {
    match op
    case AllocOp(bytes) => AllocStep(r, Words(bytes))
    case ReallocOp(oldBytes, newBytes) => if newBytes <= oldBytes then r else AllocStep(r, Words(newBytes))
    case SnapshotOp => r.(frames := r.frames + [Frame(Snapshot(r.arena), |r.live|)])
    case RewindOp(k) =>
      Run(Rewind(r.arena, r.frames[k].mark), r.live[..r.frames[k].blocks], r.frames[..k + 1])
    case ResetOp => Run(Reset(r.arena), [], [])
    case TrimOp => r.(arena := Trim(r.arena))
  }

  lemma AllocStepSafe(r: Run, size: nat)
    requires Inv(r)
    ensures Inv(AllocStep(r, size))
  {
    hide Alloc;
    AllocAboveTop(r.arena, size);
    AllocKeepsCounts(r.arena, size);
    var t, n := AllocStep(r, size), |r.live|;
    assert forall i :: 0 <= i < n ==> t.live[i] == r.live[i];
    assert LiveInOrder(t.live) && LiveAllocated(t.arena, t.live);
    forall k | 0 <= k < |t.frames| ensures MarkUsable(t.arena, t.frames[k].mark) && Separates(t.frames[k], t.live) {
      assert MarkUsable(r.arena, r.frames[k].mark) && Separates(r.frames[k], r.live);
    }
  }

  lemma SnapshotSafe(r: Run)
    requires Inv(r)
    ensures Inv(Step(r, SnapshotOp))
  {
  }

  lemma RewindSafe(r: Run, k: nat)
    requires Inv(r) && k < |r.frames|
    ensures Inv(Step(r, RewindOp(k)))
  {
    var f, t := r.frames[k], Step(r, RewindOp(k));
    assert Separates(f, r.live) && MarkUsable(r.arena, f.mark);
    assert LiveInOrder(t.live);
    assert FramesNested(t.frames);
    forall i | 0 <= i < |t.live|
      ensures t.live[i].at.offset + t.live[i].size <= t.arena.counts[t.live[i].at.region]
      ensures NotAfter(t.live[i].After(), Top(t.arena))
    {
      assert NotAfter(r.live[i].After(), Position(f.mark));
    }
    forall j | 0 <= j < |t.frames| ensures MarkUsable(t.arena, t.frames[j].mark) && Separates(t.frames[j], t.live) {
      assert MarkUsable(r.arena, r.frames[j].mark) && Separates(r.frames[j], r.live);
    }
  }

  lemma {:induction false} StepSafe(r: Run, op: Op)
    requires Inv(r) && Enabled(r, op)
    ensures Inv(Step(r, op))
  {
    match op
    case AllocOp(bytes) => AllocStepSafe(r, Words(bytes));
    case ReallocOp(oldBytes, newBytes) => AllocStepSafe(r, Words(newBytes));
    case SnapshotOp => SnapshotSafe(r);
    case RewindOp(k) => RewindSafe(r, k);
    case ResetOp =>
    case TrimOp =>
  }

  // A run takes the requests in order, passing over the ones that the caller may not make.
  ghost function Execute(r: Run, ops: seq<Op>): (t: Run)
    requires Inv(r)
    decreases |ops|
  {
    if ops == [] then
      r
    else if Enabled(r, ops[0]) then
      StepSafe(r, ops[0]);
      Execute(Step(r, ops[0]), ops[1..])
    else
      Execute(r, ops[1..])
  }

  lemma {:induction false} ExecuteSafe(r: Run, ops: seq<Op>)
    requires Inv(r)
    ensures Inv(Execute(r, ops))
    decreases |ops|
  {
    if ops != [] {
      if Enabled(r, ops[0]) {
        StepSafe(r, ops[0]);
        ExecuteSafe(Step(r, ops[0]), ops[1..]);
      } else {
        ExecuteSafe(r, ops[1..]);
      }
    }
  }

  ghost predicate Initial(r: Run) {
    r.arena.caps == [] && r.arena.counts == [] && r.arena.end == 0 && r.live == [] && r.frames == []
  }

  // Live blocks are within their regions and never overlap, and every region after the current one is empty.
  ghost predicate Safe(r: Run) {
    |r.arena.caps| == |r.arena.counts|
    && (forall b :: b in r.live ==>
          b.at.region < |r.arena.caps|
          && b.at.offset + b.size <= r.arena.counts[b.at.region] <= r.arena.caps[b.at.region])
    && (forall i, j :: 0 <= i < j < |r.live| ==> Disjoint(r.live[i], r.live[j]))
    && (forall i :: r.arena.end < i < |r.arena.caps| ==> r.arena.counts[i] == 0)
  }

  lemma InvIsSafe(r: Run)
    requires Inv(r)
    ensures Safe(r)
  {
    forall i, j | 0 <= i < j < |r.live| ensures Disjoint(r.live[i], r.live[j]) {
      assert NotAfter(r.live[i].After(), r.live[j].at);
    }
  }

  lemma InitialSafe(r: Run)
    requires Initial(r)
    ensures Inv(r)
  {
  }

  // Over every run from an empty arena.
  lemma EveryRunIsSafe(start: Run, ops: seq<Op>)
    requires Initial(start)
    ensures Inv(start) && Safe(Execute(start, ops))
  {
    InitialSafe(start);
    ExecuteSafe(start, ops);
    InvIsSafe(Execute(start, ops));
  }

  // ---------- replay ----------

  function AllocAll(s: State, sizes: seq<nat>): (r: (State, seq<Address>))
    requires Valid(s)
    ensures Valid(r.0)
    decreases |sizes|
  {
    if sizes == [] then
      (s, [])
    else
      var (t, at) := Alloc(s, sizes[0]);
      var (u, rest) := AllocAll(t, sizes[1..]);
      (u, [at] + rest)
  }

  lemma {:induction false} AllocAllExtends(s: State, sizes: seq<nat>)
    requires Valid(s)
    ensures s.caps <= AllocAll(s, sizes).0.caps && s.end <= AllocAll(s, sizes).0.end
    decreases |sizes|
  {
    if sizes != [] {
      var (t, at) := Alloc(s, sizes[0]);
      AllocAboveTop(s, sizes[0]);
      AllocKeepsCounts(s, sizes[0]);
      AllocAllExtends(t, sizes[1..]);
    }
  }

  // t is s with the regions of a longer chain already in place behind it, all of them empty.
  ghost predicate AheadOf(s: State, t: State) {
    Valid(s) && Valid(t)
    && s.caps <= t.caps && s.counts <= t.counts && t.end == s.end
    && forall i :: |s.caps| <= i < |t.caps| ==> t.counts[i] == 0
  }

  lemma {:induction false} SeekAhead(s: State, t: State, i: nat, size: nat)
    requires AheadOf(s, t) && i < |s.caps|
    ensures Fits(s, Seek(s, i, size), size) ==> Seek(t, i, size) == Seek(s, i, size)
    ensures !Fits(s, Seek(s, i, size), size) && |s.caps| < |t.caps| && size <= t.caps[|s.caps|] ==>
              Seek(t, i, size) == |s.caps|
    decreases |s.caps| - i
  {
    if !Fits(s, i, size) && i + 1 < |s.caps| {
      SeekAhead(s, t, i + 1, size);
    } else if !Fits(s, i, size) && |s.caps| < |t.caps| && size <= t.caps[|s.caps|] {
      assert Fits(t, |s.caps|, size);
    }
  }

  lemma ReserveAhead(s: State, t: State, size: nat)
    requires AheadOf(s, t) && Reserve(s, size).caps <= t.caps
    ensures Reserve(t, size).caps == t.caps && AheadOf(Reserve(s, size), Reserve(t, size))
  {
    var s1 := Reserve(s, size);
    hide CapacityFor;
    if s.caps == [] {
      assert t.caps[0] == s1.caps[0];
      assert Fits(t, 0, size);
    } else {
      SeekAhead(s, t, s.end, size);
      if !Fits(s, Seek(s, s.end, size), size) {
        assert s1.caps[|s.caps|] == CapacityFor(size) == t.caps[|s.caps|];
      }
    }
  }

  lemma BumpAhead(s: State, t: State, size: nat)
    requires AheadOf(s, t) && s.caps != [] && Fits(s, s.end, size)
    ensures Fits(t, t.end, size) && t.counts[t.end] == s.counts[s.end] && AheadOf(Bump(s, size), Bump(t, size))
  {
  }

  // With the regions already there, a request lands where it landed when they had to be created.
  lemma AllocAhead(s: State, t: State, size: nat)
    requires AheadOf(s, t)
    requires Alloc(s, size).0.caps <= t.caps
    ensures Alloc(t, size).1 == Alloc(s, size).1
    ensures Alloc(t, size).0.caps == t.caps
    ensures AheadOf(Alloc(s, size).0, Alloc(t, size).0)
  {
    hide Reserve, Fits, Seek;
    ReserveAhead(s, t, size);
    BumpAhead(Reserve(s, size), Reserve(t, size), size);
  }

  lemma {:induction false} ReplayAhead(s: State, t: State, sizes: seq<nat>)
    requires AheadOf(s, t) && AllocAll(s, sizes).0.caps <= t.caps
    ensures AllocAll(t, sizes).1 == AllocAll(s, sizes).1
    ensures AllocAll(t, sizes).0.caps == t.caps
    decreases |sizes|
  {
    if sizes != [] {
      AllocAllExtends(Alloc(s, sizes[0]).0, sizes[1..]);
      AllocAhead(s, t, sizes[0]);
      ReplayAhead(Alloc(s, sizes[0]).0, Alloc(t, sizes[0]).0, sizes[1..]);
    }
  }

  // Words allocated before the mark are not touched by what comes after it.
  lemma {:induction false} AllocAllBelow(s: State, sizes: seq<nat>)
    requires Valid(s) && s.caps != []
    ensures var t := AllocAll(s, sizes).0;
            |s.counts| <= |t.counts| && forall i :: 0 <= i < s.end ==> t.counts[i] == s.counts[i]
    decreases |sizes|
  {
    if sizes != [] {
      AllocAboveTop(s, sizes[0]);
      AllocKeepsCounts(s, sizes[0]);
      AllocAllBelow(Alloc(s, sizes[0]).0, sizes[1..]);
    }
  }

  // Snapshot, any allocations, rewind: the old state is back, with at most empty regions added behind it,
  lemma RewindRestores(s: State, sizes: seq<nat>)
    requires Valid(s)
    ensures var t := AllocAll(s, sizes).0;
            var m := Snapshot(s);
            CanRewind(t, m) && (m.At? ==> m.region <= t.end) && AheadOf(s, Rewind(t, m))
  {
    var t := AllocAll(s, sizes).0;
    AllocAllExtends(s, sizes);
    if s.caps != [] {
      AllocAllBelow(s, sizes);
    }
  }

  // and the same requests get the same addresses again without a new region.
  lemma ReplayAfterRewind(s: State, sizes: seq<nat>)
    requires Valid(s)
    ensures var t := AllocAll(s, sizes).0;
            var m := Snapshot(s);
            CanRewind(t, m) && (m.At? ==> m.region <= t.end)
            && AllocAll(Rewind(t, m), sizes).1 == AllocAll(s, sizes).1
            && AllocAll(Rewind(t, m), sizes).0.caps == t.caps
  {
    RewindRestores(s, sizes);
    ReplayAhead(s, Rewind(AllocAll(s, sizes).0, Snapshot(s)), sizes);
  }
}
