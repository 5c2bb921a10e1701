/**
 The growing arrays of src/allocator/arena.h: arena_da_append and arena_da_append_many. The items live in a block
 of the arena, which doubles by arena_realloc when it is full; a block left behind stays allocated until the arena is
 rewound. The contents are bytes: an item is `itemBytes` of them.
 */
module DynamicArray {
  import opened Bytes
  import opened ArenaModel
  import A = Arena

  const INITIAL_CAPACITY := 256

  // 256, 512, 1024, ...
  ghost predicate IsCapacity(n: nat) {
    n == INITIAL_CAPACITY || (n > INITIAL_CAPACITY && n % 2 == 0 && IsCapacity(n / 2))
  }

  lemma FirstCapacity()
    ensures IsCapacity(INITIAL_CAPACITY)
  {
  }

  lemma NextCapacity(n: nat)
    ensures IsCapacity(n) ==> IsCapacity(2 * n)
  {
  }

  lemma CapacityIsPositive(n: nat)
    requires IsCapacity(n)
    ensures n > 0
  {
  }

  // The capacity at which repeated doubling first holds the wanted number of items.
  function Doubled(capacity: nat, wanted: nat): (c: nat)
    requires capacity > 0
    decreases wanted - capacity
  {
    if wanted > capacity then Doubled(2 * capacity, wanted) else capacity
  }

  lemma {:induction false} DoubledSuffices(capacity: nat, wanted: nat)
    requires capacity > 0
    ensures var c := Doubled(capacity, wanted);
            wanted <= c
            && (c == capacity || (2 * capacity <= c && c < 2 * wanted))
            && (IsCapacity(capacity) ==> IsCapacity(c))
    decreases wanted - capacity
  {
    if wanted > capacity {
      DoubledSuffices(2 * capacity, wanted);
    }
  }

  // The bytes of n items.
  function Span(itemBytes: nat, n: nat): nat {
    itemBytes * n
  }

  lemma SpanAdds(itemBytes: nat, m: nat, n: nat)
    ensures Span(itemBytes, m + n) == Span(itemBytes, m) + Span(itemBytes, n)
    ensures Span(itemBytes, 0) == 0 && Span(itemBytes, 1) == itemBytes
    ensures itemBytes > 0 && n > 0 ==> Span(itemBytes, n) > 0
  {
    assert itemBytes * (m + n) == itemBytes * m + itemBytes * n;
    assert itemBytes > 0 && n > 0 ==> itemBytes * n >= n;
  }

  lemma SpliceAppends(d: seq<Byte>, at: nat, n: nat, bytes: seq<Byte>)
    requires at + n + |bytes| <= |d|
    ensures Splice(d, at + n, bytes)[at..at + n + |bytes|] == d[at..at + n] + bytes
  {
  }

  lemma BytesPrefix(p: A.Pointer, n: nat, m: nat)
    requires p.Pointer? && n <= m && WORD_SIZE * p.offset + m <= p.region.data.Length
    ensures A.Arena.BytesAt(p, n) == A.Arena.BytesAt(p, m)[..n] && (n == 0 ==> A.Arena.BytesAt(p, n) == [])
  {
  }

  lemma StateOf(arena: A.Arena)
    requires arena.Valid()
    ensures ArenaModel.Valid(arena.state) && |arena.regions| == |arena.state.counts|
  {
  }

  // The first n bytes of a block; none behind a null pointer.
  ghost function BytesOf(arena: A.Arena, p: A.Pointer, at: Address, size: nat, n: nat): seq<Byte>
    requires arena.Valid() && arena.Holds(p, at, size) && n <= size
    reads arena, arena.regions, arena.Buffers()
  {
    arena.HoldsInBounds(p, at, size);
    if p.Null? then [] else A.Arena.BytesAt(p, n)
  }

  // The allocated bytes of the first n regions.
  ghost function MemoryUpTo(arena: A.Arena, n: nat): (m: seq<seq<Byte>>)
    requires arena.Valid() && n <= |arena.regions|
    reads arena, arena.regions, arena.Buffers()
    ensures |m| == n && forall i :: 0 <= i < n ==> m[i] == arena.Filled(i)
  {
    if n == 0 then [] else MemoryUpTo(arena, n - 1) + [arena.Filled(n - 1)]
  }

  ghost function Memory(arena: A.Arena): seq<seq<Byte>>
    requires arena.Valid()
    reads arena, arena.regions, arena.Buffers()
  {
    MemoryUpTo(arena, |arena.regions|)
  }

  predicate SameByte(before: seq<seq<Byte>>, after: seq<seq<Byte>>, i: nat, k: nat) {
    i < |before| && k < |before[i]| ==> i < |after| && k < |after[i]| && after[i][k] == before[i][k]
  }

  // What was allocated before is as it was, but for the bytes of one block.
  ghost predicate KeptOutside(before: seq<seq<Byte>>, after: seq<seq<Byte>>, at: Address, size: nat) {
    forall i: nat, k: nat ::
      SameByte(before, after, i, k) || (i == at.region && WORD_SIZE * at.offset <= k < WORD_SIZE * at.offset + size)
  }

  // All of it is as it was, and the block begins where its region was filled to.
  ghost predicate AtTop(before: seq<seq<Byte>>, after: seq<seq<Byte>>, at: Address) {
    (forall i: nat, k: nat :: SameByte(before, after, i, k))
    && (at.region < |before| ==> WORD_SIZE * at.offset == |before[at.region]|)
  }

  lemma PrefixesAtTop(before: seq<seq<Byte>>, after: seq<seq<Byte>>, at: Address)
    requires |before| <= |after| && forall i :: 0 <= i < |before| ==> before[i] <= after[i]
    requires at.region < |before| ==> WORD_SIZE * at.offset == |before[at.region]|
    ensures AtTop(before, after, at)
  {
    forall i: nat, k: nat ensures SameByte(before, after, i, k) {
      if i < |before| && k < |before[i]| {
        assert before[i] <= after[i];
      }
    }
  }

  // How far a region is filled.
  lemma FilledTo(arena: A.Arena)
    requires arena.Valid()
    ensures |Memory(arena)| == |arena.regions| == |arena.state.counts|
    ensures forall i :: 0 <= i < |arena.regions| ==>
              WORD_SIZE * arena.state.counts[i] <= arena.regions[i].data.Length
              && Memory(arena)[i] == arena.Filled(i) == arena.regions[i].data[..WORD_SIZE * arena.state.counts[i]]
  {
    forall i | 0 <= i < |arena.regions|
      ensures WORD_SIZE * arena.state.counts[i] <= arena.regions[i].data.Length
      ensures arena.Filled(i) == arena.regions[i].data[..WORD_SIZE * arena.state.counts[i]]
    {
      assert arena.InChain(i);
    }
  }

  lemma HeldIn(arena: A.Arena, p: A.Pointer, at: Address, size: nat)
    requires arena.Valid() && arena.Holds(p, at, size)
    ensures p.Pointer? ==> at.region < |arena.regions| && p.region == arena.regions[at.region]
    ensures p.Pointer? ==> p.region.data in arena.Buffers()
  {
  }

  // The block moves to a larger one; the bytes in use move along, and no byte allocated before is written.
  method Move(arena: A.Arena, p: A.Pointer, size: nat, newSize: nat, ghost at: Address, ghost used: nat)
    returns (q: A.Pointer, ghost to: Address)
    requires arena.Valid() && arena.Holds(p, at, size) && used <= size < newSize && (p.Null? ==> used == 0)
    modifies arena, arena.regions, arena.Buffers()
    ensures arena.Valid() && arena.Holds(q, to, newSize) && q.Pointer?
    ensures BytesOf(arena, q, to, newSize, used) == old(BytesOf(arena, p, at, size, used))
    ensures arena.Extended() && AtTop(old(Memory(arena)), Memory(arena), to)
    ensures q.region.data in old(arena.Buffers()) || fresh(q.region.data)
  {
    hide ArenaModel.Alloc, AtTop, A.Arena.Valid, A.Arena.Holds, A.Arena.BytesAt, A.Arena.Filled, Memory;
    StateOf(arena);
    FilledTo(arena);
    ghost var before := Memory(arena);
    AllocKeepsCounts(arena.state, Words(newSize));
    arena.HoldsInBounds(p, at, size);
    if p.Pointer? {
      BytesPrefix(p, used, size);
    }
    q, to := arena.Realloc(p, size, newSize, at);
    BytesPrefix(q, used, if p.Pointer? then size else 0);
    FilledTo(arena);
    forall i | 0 <= i < |before| ensures before[i] <= Memory(arena)[i] {
      assert old(arena.Filled(i)) <= arena.Filled(i);
    }
    PrefixesAtTop(before, Memory(arena), to);
    HeldIn(arena, q, to, newSize);
  }

  lemma SplicedOutside(d: seq<Byte>, at: nat, bytes: seq<Byte>, k: nat)
    requires at + |bytes| <= |d| && k < |d| && !(at <= k < at + |bytes|)
    ensures Splice(d, at, bytes)[k] == d[k]
  {
  }

  // One buffer written inside a block, all others as they were.
  lemma WrittenInside(arena: A.Arena, before: seq<seq<Byte>>, d: seq<Byte>, p: A.Pointer, at: Address, size: nat,
                      used: nat, bytes: seq<Byte>)
    requires arena.Valid() && arena.Holds(p, at, size) && p.Pointer? && used + |bytes| <= size
    requires |before| == |arena.regions| && at.region < |before|
    requires forall i :: 0 <= i < |before| && i != at.region ==> before[i] == arena.Filled(i)
    requires |d| == p.region.data.Length && WORD_SIZE * p.offset + size <= |d|
    requires |before[at.region]| <= |d| && before[at.region] == d[..|before[at.region]|]
    requires |before[at.region]| == |arena.Filled(at.region)|
    requires p.region.data[..] == Splice(d, WORD_SIZE * p.offset + used, bytes)
    ensures KeptOutside(before, Memory(arena), at, size)
  {
    FilledTo(arena);
    var o := WORD_SIZE * p.offset + used;
    forall i: nat, k: nat
      ensures SameByte(before, Memory(arena), i, k)
              || (i == at.region && WORD_SIZE * at.offset <= k < WORD_SIZE * at.offset + size)
    {
      if i == at.region && k < |before[i]| && !(o <= k < o + |bytes|) {
        SplicedOutside(d, o, bytes, k);
        assert Memory(arena)[i][k] == p.region.data[..][k] == d[k] == before[i][k];
      }
    }
  }

  // Write behind the bytes in use of a block.
  method Put(arena: A.Arena, p: A.Pointer, size: nat, used: nat, bytes: seq<Byte>, ghost at: Address)
    requires arena.Valid() && arena.Holds(p, at, size) && p.Pointer? && used + |bytes| <= size
    modifies p.region.data
    ensures arena.Valid() && arena.Holds(p, at, size)
    ensures BytesOf(arena, p, at, size, used + |bytes|) == old(BytesOf(arena, p, at, size, used)) + bytes
    ensures KeptOutside(old(Memory(arena)), Memory(arena), at, size)
  {
    hide KeptOutside, Memory, Splice;
    arena.HoldsInBounds(p, at, size);
    SpliceAppends(p.region.data[..], WORD_SIZE * p.offset, used, bytes);
    FilledTo(arena);
    ghost var before, d := Memory(arena), p.region.data[..];
    CopyIn(p.region.data, WORD_SIZE * p.offset + used, bytes);
    assert A.Arena.BytesAt(p, used + |bytes|)
        == p.region.data[..][WORD_SIZE * p.offset..WORD_SIZE * p.offset + used + |bytes|];
    FilledTo(arena);
    WrittenInside(arena, before, d, p, at, size, used, bytes);
  }

  class DynamicArray {
    const itemBytes: nat
    var items: A.Pointer
    var count: nat
    var capacity: nat
    ghost var at: Address
    ghost var abandoned: nat  // the total capacity of the blocks left behind

    ghost predicate Valid(arena: A.Arena)
      reads this, arena, arena.regions
    {
      itemBytes > 0 && arena.Valid() && arena.Holds(items, at, Span(itemBytes, capacity))
      && count <= capacity && (capacity == 0 || IsCapacity(capacity)) && (capacity == 0 <==> items.Null?)
      && (if capacity == 0 then abandoned == 0 else abandoned < capacity)
    }

    ghost function Contents(arena: A.Arena): seq<Byte>
      requires Valid(arena)
      reads this, arena, arena.regions, arena.Buffers()
    {
      SpanAdds(itemBytes, count, capacity - count);
      BytesOf(arena, items, at, Span(itemBytes, capacity), Span(itemBytes, count))
    }

    constructor (itemBytes: nat, arena: A.Arena)
      requires itemBytes > 0 && arena.Valid()
      ensures Valid(arena) && Contents(arena) == [] && capacity == 0 && this.itemBytes == itemBytes
    {
      this.itemBytes := itemBytes;
      items, at := A.Null, Address(0, 0);
      count, capacity, abandoned := 0, 0, 0;
      new;
      SpanAdds(itemBytes, 0, 0);
    }

    // A block for more items; the old one is left behind.
    method Grow(arena: A.Arena, newCapacity: nat)
      requires Valid(arena) && IsCapacity(newCapacity) && 2 * capacity <= newCapacity
      modifies this, arena, arena.regions, arena.Buffers()
      ensures Valid(arena) && capacity == newCapacity && count == old(count)
      ensures Contents(arena) == old(Contents(arena)) && abandoned == old(abandoned) + old(capacity)
      ensures items.Pointer? && (items.region.data in old(arena.Buffers()) || fresh(items.region.data))
    {
      hide Span, IsCapacity, AtTop, Memory, A.Arena.Valid, A.Arena.Holds, A.Arena.BytesAt;
      CapacityIsPositive(newCapacity);
      SpanAdds(itemBytes, capacity, newCapacity - capacity);
      SpanAdds(itemBytes, newCapacity - capacity, 0);
      SpanAdds(itemBytes, count, capacity - count);
      SpanAdds(itemBytes, count, newCapacity - count);
      var p, to := Move(arena, items, Span(itemBytes, capacity), Span(itemBytes, newCapacity), at,
                        Span(itemBytes, count));
      items, at := p, to;
      abandoned := abandoned + capacity;
      capacity := newCapacity;
    }

    // memcpy behind the last item
    method Store(arena: A.Arena, bytes: seq<Byte>, n: nat)
      requires Valid(arena) && items.Pointer? && |bytes| == Span(itemBytes, n) && count + n <= capacity
      modifies `count, items.region.data
      ensures Valid(arena) && count == old(count) + n
      ensures Contents(arena) == old(Contents(arena)) + bytes
    {
      hide Span, IsCapacity, A.Arena.Valid, A.Arena.Holds;
      SpanAdds(itemBytes, count, n);
      SpanAdds(itemBytes, count + n, capacity - count - n);
      Put(arena, items, Span(itemBytes, capacity), Span(itemBytes, count), bytes, at);
      count := count + n;
    }

    method Append(arena: A.Arena, item: seq<Byte>)
      requires Valid(arena) && |item| == itemBytes
      modifies this, arena, arena.regions, arena.Buffers()
      ensures Valid(arena)
      ensures Contents(arena) == old(Contents(arena)) + item
      ensures count == old(count) + 1
      ensures capacity == if old(count) < old(capacity) then old(capacity)
                          else if old(capacity) == 0 then 256 else 2 * old(capacity)
      ensures old(count) < old(capacity) ==> items == old(items)
    {
      hide Span, IsCapacity, A.Arena.Valid, A.Arena.Holds, A.Arena.BytesAt;
      HeldIn(arena, items, at, Span(itemBytes, capacity));
      if count >= capacity {
        FirstCapacity();
        NextCapacity(capacity);
        var newCapacity := if capacity == 0 then INITIAL_CAPACITY else capacity * 2;
        Grow(arena, newCapacity);
      }
      SpanAdds(itemBytes, 1, 0);
      Store(arena, item, 1);
    }

    // The inner doubling loop of arena_da_append_many.
    method MakeRoom(arena: A.Arena, wanted: nat)
      requires Valid(arena)
      modifies this, arena, arena.regions, arena.Buffers()
      ensures Valid(arena) && wanted <= capacity && count == old(count)
      ensures Contents(arena) == old(Contents(arena))
      ensures items.Pointer? ==> items.region.data in old(arena.Buffers()) || fresh(items.region.data)
      ensures wanted <= old(capacity) ==> capacity == old(capacity) && items == old(items)
      ensures wanted > old(capacity) ==> capacity == Doubled(if old(capacity) == 0 then 256 else old(capacity), wanted)
    {
      hide Span, A.Arena.Valid, A.Arena.Holds, A.Arena.BytesAt;
      HeldIn(arena, items, at, Span(itemBytes, capacity));
      if wanted > capacity {
        var newCapacity := capacity;
        if newCapacity == 0 {
          newCapacity := INITIAL_CAPACITY;
        }
        ghost var first := newCapacity;
        while wanted > newCapacity
          invariant newCapacity > 0
          invariant Doubled(newCapacity, wanted) == Doubled(first, wanted)
          decreases wanted - newCapacity
        {
          newCapacity := newCapacity * 2;
        }
        DoubledSuffices(first, wanted);
        Grow(arena, newCapacity);
      }
    }

    method AppendMany(arena: A.Arena, newItems: seq<Byte>, n: nat)
      requires Valid(arena) && |newItems| == Span(itemBytes, n)
      modifies this, arena, arena.regions, arena.Buffers()
      ensures Valid(arena)
      ensures Contents(arena) == old(Contents(arena)) + newItems
      ensures count == old(count) + n
      ensures old(count) + n <= old(capacity) ==> capacity == old(capacity) && items == old(items)
      ensures old(count) + n > old(capacity) ==>
                capacity == Doubled(if old(capacity) == 0 then 256 else old(capacity), old(count) + n)
    {
      hide Span, IsCapacity, A.Arena.Valid, A.Arena.Holds, A.Arena.BytesAt;
      MakeRoom(arena, count + n);
      if n > 0 {
        Store(arena, newItems, n);
      } else {
        SpanAdds(itemBytes, 0, 0);
      }
    }
  }
}
