/**
 The arena of src/allocator/arena.h as it is laid out in memory: a singly linked chain of regions with
 `begin` and `end` pointers, each region a fill count over a block of words. The ghost field `state` is the
 value that ArenaModel reasons about; `Linked` says that the chain is exactly that value.
 */
module Arena {
  import opened Bytes
  import opened ArenaModel

  class Region {
    const capacity: nat
    const data: array<Byte>
    var count: nat
    var next: Region?

    // new_region
    constructor (capacity: nat)
      ensures this.capacity == capacity && data.Length == WORD_SIZE * capacity && fresh(data)
      ensures count == 0 && next == null
    {
      this.capacity := capacity;
      data := new Byte[WORD_SIZE * capacity];
      count := 0;
      next := null;
    }
  }

  // A pointer into a region, in words.
  datatype Pointer = Null | Pointer(region: Region, offset: nat)

  // An Arena_Mark.
  datatype RegionMark = RegionMark(region: Region?, count: nat)

  class Arena {
    var begin: Region?
    var end: Region?
    ghost var regions: seq<Region>  // the chain that starts at begin
    ghost var state: State

    ghost predicate InChain(i: nat)
      requires i < |regions|
      reads this, regions
    {
      i < |state.caps| && i < |state.counts|
      && regions[i].capacity == state.caps[i] && regions[i].count == state.counts[i]
      && regions[i].next == (if i + 1 < |regions| then regions[i + 1] else null)
      && regions[i].data.Length == WORD_SIZE * regions[i].capacity
    }

    ghost predicate Linked()
      reads this, regions
    {
      |regions| == |state.caps| == |state.counts|
      && (forall i, j :: 0 <= i < j < |regions| ==> regions[i] != regions[j] && regions[i].data != regions[j].data)
      && (forall i :: 0 <= i < |regions| ==> InChain(i))
      && (if regions == [] then begin == null && end == null && state.end == 0
          else begin == regions[0] && state.end < |regions| && end == regions[state.end])
    }

    ghost predicate Valid()
      reads this, regions
    {
      Linked() && ArenaModel.Valid(state)
    }

    constructor ()
      ensures Valid() && regions == [] && state == EMPTY
    {
      begin, end := null, null;
      regions, state := [], EMPTY;
    }

    // The pointer that stands for an address of the model.
    ghost predicate Denotes(p: Pointer, at: Address)
      reads this
    {
      p.Pointer? && at.region < |regions| && p.region == regions[at.region] && p.offset == at.offset
    }

    // The chain is the old one, possibly longer by fresh regions.
    twostate predicate Extended()
      reads this, regions
    {
      old(regions) <= regions
      && forall i :: |old(regions)| <= i < |regions| ==> fresh(regions[i]) && fresh(regions[i].data)
    }

    // A new region that has room for the request, behind the last one.
    method AddRegion(size: nat)
      requires Linked() && (regions != [] ==> state.end == |regions| - 1)
      modifies this, regions
      ensures Linked() && Extended() && |regions| == |old(regions)| + 1
      ensures state == State(old(state).caps + [CapacityFor(size)], old(state).counts + [0], |old(regions)|)
    {
      var capacity := DEFAULT_CAPACITY;
      if capacity < size {
        capacity := size;
      }
      ghost var n := |regions|;
      assert forall i :: 0 <= i < n ==> InChain(i);
      var r := new Region(capacity);
      if end == null {
        begin := r;
      } else {
        end.next := r;
      }
      end := r;
      regions := regions + [r];
      state := State(state.caps + [capacity], state.counts + [0], n);
      forall i | 0 <= i < |regions| ensures InChain(i) {
        if i < n {
          assert old(InChain(i));
        }
      }
    }

    // Move to the first region with room, or to the last one.
    method SeekRoom(size: nat)
      requires Linked() && regions != []
      modifies this
      ensures Linked() && regions == old(regions)
      ensures state == old(state).(end := Seek(old(state), old(state).end, size))
    {
      while end.count + size > end.capacity && end.next != null
        invariant Linked() && regions == old(regions)
        invariant state == old(state).(end := state.end)
        invariant Seek(state, state.end, size) == Seek(old(state), old(state).end, size)
        decreases |regions| - state.end
      {
        assert InChain(state.end);
        ghost var s := state;
        end := end.next;
        state := state.(end := state.end + 1);
        SeekIgnoresEnd(s, state, state.end, size);
        forall i | 0 <= i < |regions| ensures InChain(i) {
          assert old(InChain(i));
        }
      }
      assert InChain(state.end);
      SeekIgnoresEnd(old(state), state, state.end, size);
    }

    method Reserve(size: nat)
      requires Valid()
      modifies this, regions
      ensures Valid() && Extended()
      ensures state == ArenaModel.Reserve(old(state), size)
    {
      if end == null {
        AddRegion(size);
      }
      SeekRoom(size);
      assert InChain(state.end);
      if end.count + size > end.capacity {
        AddRegion(size);
      }
    }

    method Alloc(sizeBytes: nat) returns (p: Pointer, ghost at: Address)
      requires Valid()
      modifies this, regions
      ensures Valid() && Extended()
      ensures (state, at) == ArenaModel.Alloc(old(state), Words(sizeBytes))
      ensures Denotes(p, at)
    {
      var size := Words(sizeBytes);
      Reserve(size);
      assert InChain(state.end);
      p := Pointer(end, end.count);
      at := Address(state.end, state.counts[state.end]);
      label bump:
      end.count := end.count + size;
      state := ArenaModel.Bump(state, size);
      forall i | 0 <= i < |regions| ensures InChain(i) {
        assert old@bump(InChain(i));
      }
    }

    // The mark that stands for a mark of the model.
    ghost predicate DenotesMark(m: RegionMark, mark: Mark)
      reads this
    {
      match mark
      case Uninitialized => m == RegionMark(null, 0)
      case At(i, count) => i < |regions| && m == RegionMark(regions[i], count)
    }

    method Snapshot() returns (m: RegionMark)
      requires Valid()
      ensures DenotesMark(m, ArenaModel.Snapshot(state))
    {
      if end == null {
        return RegionMark(null, 0);
      }
      assert InChain(state.end);
      return RegionMark(end, end.count);
    }

    // Empty every region from the given one to the end of the chain.
    method ZeroFrom(first: Region?, ghost i: nat)
      requires Linked() && i <= |regions| && first == if i < |regions| then regions[i] else null
      modifies this`state, regions
      ensures Linked() && state == old(state).(counts := Zeroed(old(state).counts, i))
    {
      var r := first;
      ghost var k := i;
      while r != null
        invariant i <= k <= |regions| && r == if k < |regions| then regions[k] else null
        invariant Linked() && state == old(state).(counts := state.counts)
        invariant forall j :: 0 <= j < |regions| ==>
                    state.counts[j] == if i <= j < k then 0 else old(state).counts[j]
        decreases |regions| - k
      {
        assert InChain(k);
        label turn:
        r.count := 0;
        state := state.(counts := state.counts[k := 0]);
        forall j | 0 <= j < |regions| ensures InChain(j) {
          assert old@turn(InChain(j));
        }
        assert InChain(k);
        r := r.next;
        k := k + 1;
      }
    }

    method Reset()
      requires Valid()
      modifies this, regions
      ensures Valid() && regions == old(regions)
      ensures state == ArenaModel.Reset(old(state))
    {
      ZeroFrom(begin, 0);
      label zeroed:
      end := begin;
      state := state.(end := 0);
      forall j | 0 <= j < |regions| ensures InChain(j) {
        assert old@zeroed(InChain(j));
      }
    }

    method Rewind(m: RegionMark, ghost mark: Mark)
      requires Valid() && DenotesMark(m, mark) && CanRewind(state, mark)
      requires mark.At? ==> mark.region <= state.end
      modifies this, regions
      ensures Valid() && regions == old(regions)
      ensures state == ArenaModel.Rewind(old(state), mark)
    {
      if m.region == null {
        Reset();
        return;
      }
      ghost var i := mark.region;
      assert InChain(i);
      ZeroFrom(m.region.next, i + 1);
      assert InChain(i);
      label zeroed:
      m.region.count := m.count;
      end := m.region;
      state := State(state.caps, state.counts[i := m.count], i);
      forall j | 0 <= j < |regions| ensures InChain(j) {
        assert old@zeroed(InChain(j));
      }
    }

    // Gives the regions behind the current one back; the caller must have allocated before.
    method Trim()
      requires Valid() && end != null
      modifies this, regions
      ensures Valid() && regions == old(regions)[..old(state).end + 1]
      ensures state == ArenaModel.Trim(old(state))
    {
      end.next := null;
      regions := regions[..state.end + 1];
      state := ArenaModel.Trim(state);
      forall j | 0 <= j < |regions| ensures InChain(j) {
        assert old(InChain(j));
      }
    }

    method Free()
      requires Valid()
      modifies this
      ensures Valid() && regions == [] && state == EMPTY
    {
      begin, end := null, null;
      regions, state := [], EMPTY;
    }

    // ---------- contents ----------

    ghost function Buffers(): set<object>
      reads this
    {
      set r | r in regions :: r.data
    }

    // The first n bytes behind a pointer.
    static ghost function BytesAt(p: Pointer, n: nat): seq<Byte>
      requires p.Pointer? && WORD_SIZE * p.offset + n <= p.region.data.Length
      reads p.region.data
    {
      p.region.data[WORD_SIZE * p.offset..WORD_SIZE * p.offset + n]
    }

    // p is the address of n allocated bytes; only zero bytes lie behind a null pointer.
    ghost predicate Holds(p: Pointer, at: Address, n: nat)
      requires Valid()
      reads this, regions
    {
      if p.Null? then
        n == 0
      else
        Denotes(p, at) && NotAfter(Block(at, Words(n)).After(), Top(state))
        && at.offset + Words(n) <= state.counts[at.region]
    }

    lemma HoldsInBounds(p: Pointer, at: Address, n: nat)
      requires Valid() && Holds(p, at, n)
      ensures p.Pointer? ==> WORD_SIZE * p.offset + n <= p.region.data.Length
    {
      if p.Pointer? {
        assert InChain(at.region);
      }
    }

    static method CopyBytes(src: array<Byte>, from: nat, dst: array<Byte>, to: nat, n: nat)
      requires from + n <= src.Length && to + n <= dst.Length
      requires src != dst || from + n <= to
      modifies dst
      ensures dst[to..to + n] == old(src[from..from + n])
      ensures dst[..to] == old(dst[..to])
    {
      for i := 0 to n
        invariant dst[to..to + i] == old(src[from..from + i])
        invariant dst[..to] == old(dst[..to])
        invariant src[from..from + n] == old(src[from..from + n])
      {
        assert src[from + i] == src[from..from + n][i];
        dst[to + i] := src[from + i];
        assert dst[to..to + i + 1] == dst[to..to + i] + [dst[to + i]];
      }
    }

    // The bytes below the fill count of the i-th region, where allocated blocks live.
    ghost function Filled(i: nat): seq<Byte>
      requires Valid() && i < |regions|
      reads this, regions, Buffers()
    {
      assert InChain(i);
      regions[i].data[..WORD_SIZE * state.counts[i]]
    }

    // What was allocated before is a prefix of what is allocated now.
    twostate predicate KeepsFilled()
      requires old(Valid()) && Valid() && |old(regions)| <= |regions|
      reads this, regions, Buffers()
    {
      forall i :: 0 <= i < |old(regions)| ==> old(Filled(i)) <= Filled(i)
    }

    // At most the buffer of the block was written, and there nothing below the block.
    twostate predicate WritesOnlyFrom(at: Address)
      requires at.region < |regions| && old(regions) <= regions
      reads this, regions, Buffers()
    {
      (forall i :: 0 <= i < |old(regions)| && i != at.region ==> regions[i].data[..] == old(regions[i].data[..]))
      && (at.region < |old(regions)| ==>
            var n := WORD_SIZE * at.offset;
            n <= regions[at.region].data.Length
            && regions[at.region].data[..n] == old(regions[at.region].data[..n]))
    }

    twostate lemma KeptBelow(at: Address)
      requires old(Valid()) && Valid() && old(regions) <= regions && at.region < |regions|
      requires forall i :: 0 <= i < |old(state).counts| ==> old(state).counts[i] <= state.counts[i]
      requires at.region < |old(regions)| ==> at.offset == old(state).counts[at.region]
      requires WritesOnlyFrom(at)
      ensures KeepsFilled()
    {
      forall i | 0 <= i < |old(regions)| ensures old(Filled(i)) <= Filled(i) {
        assert old(InChain(i)) && InChain(i);
      }
    }

    // Copy the first n bytes of a block to a later one.
    method CopyBlock(src: Pointer, dst: Pointer, n: nat, ghost srcAt: Address, ghost dstAt: Address)
      requires Valid() && src.Pointer? && dst.Pointer? && Holds(src, srcAt, n) && Holds(dst, dstAt, n)
      requires NotAfter(Block(srcAt, Words(n)).After(), dstAt)
      requires WORD_SIZE * src.offset + n <= src.region.data.Length
      requires WORD_SIZE * dst.offset + n <= dst.region.data.Length
      modifies dst.region.data
      ensures BytesAt(dst, n) == old(BytesAt(src, n))
      ensures dst.region.data[..WORD_SIZE * dst.offset] == old(dst.region.data[..WORD_SIZE * dst.offset])
    {
      CopyBytes(src.region.data, WORD_SIZE * src.offset, dst.region.data, WORD_SIZE * dst.offset, n);
    }

    method Grow(oldPtr: Pointer, oldSize: nat, newSize: nat, ghost oldAt: Address)
      returns (p: Pointer, ghost at: Address)
      requires Valid() && Holds(oldPtr, oldAt, oldSize) && oldSize <= newSize
      modifies this, regions, Buffers()
      ensures Valid() && Extended()
      ensures (state, at) == ArenaModel.Alloc(old(state), Words(newSize)) && p.Pointer? && Holds(p, at, newSize)
      ensures WORD_SIZE * p.offset + newSize <= p.region.data.Length
      ensures oldPtr.Pointer? ==>
                BytesAt(p, oldSize) == old(HoldsInBounds(oldPtr, oldAt, oldSize); BytesAt(oldPtr, oldSize))
      ensures WritesOnlyFrom(at)
    {
      hide ArenaModel.Alloc, ArenaModel.Valid;
      HoldsInBounds(oldPtr, oldAt, oldSize);
      AllocAboveTop(state, Words(newSize));
      AllocKeepsCounts(state, Words(newSize));
      p, at := Alloc(newSize);
      HoldsInBounds(p, at, newSize);
      if oldPtr.Pointer? {
        CopyBlock(oldPtr, p, oldSize, oldAt, at);
      }
    }

    method Realloc(oldPtr: Pointer, oldSize: nat, newSize: nat, ghost oldAt: Address)
      returns (p: Pointer, ghost at: Address)
      requires Valid() && Holds(oldPtr, oldAt, oldSize)
      modifies this, regions, Buffers()
      ensures Valid() && Extended()
      // shrinking keeps the block
      ensures newSize <= oldSize ==> p == oldPtr && at == oldAt && state == old(state)
      // growing moves it to fresh words and copies the contents
      ensures newSize > oldSize ==>
                (state, at) == ArenaModel.Alloc(old(state), Words(newSize)) && p.Pointer? && Holds(p, at, newSize)
                && WORD_SIZE * p.offset + newSize <= p.region.data.Length
      ensures newSize > oldSize && oldPtr.Pointer? ==>
                BytesAt(p, oldSize) == old(HoldsInBounds(oldPtr, oldAt, oldSize); BytesAt(oldPtr, oldSize))
      // bytes that were allocated before are not written
      ensures KeepsFilled()
    {
      if newSize <= oldSize {
        return oldPtr, oldAt;
      }
      AllocKeepsCounts(state, Words(newSize));
      p, at := Grow(oldPtr, oldSize, newSize, oldAt);
      KeptBelow(at);
    }
  }
}
