/**
 The slotted index page of src/pager/db/index/index_page.c as bytes: a directory of 24-byte entries that grows up
 from byte 34, and 23-byte records that grow down from the end of the page. `View` reads the page as a value of
 IndexModel; the methods change the bytes in place and are tied to the functions there.
 */
module IndexPage {
  import opened Bytes
  import opened Options
  import opened IndexModel

  const PAGE_BYTES := 4032    // MAX_USABLE_PAGE_SIZE
  const HEADER_BYTES := 34    // sizeof(DBPageHeader)
  const ENTRY_BYTES := 24     // sizeof(SlotEntry): the id, 7 bytes of padding, offset, size
  const RECORD_BYTES := 23    // INDEX_SLOT_DATA_SIZE
  const FREE_SLOT_LIST_SIZE := 16

  // ---------- records ----------

  function Encode(s: Slot): (bytes: seq<Byte>)
    ensures |bytes| == RECORD_BYTES
  {
    s.key + (Le(s.nextPage, 2) + ([s.nextSlot] + (Le(s.overflowPage, 2) + Le(s.overflowChunk, 2))))
  }

  function Decode(bytes: seq<Byte>): Slot
    requires |bytes| == RECORD_BYTES
  {
    Slot(bytes[..16], Short(bytes[16..18]), bytes[18], Short(bytes[19..21]), Short(bytes[21..23]))
  }

  function Short(bytes: seq<Byte>): Word16
    requires |bytes| == 2
  {
    bytes[0] as int + 256 * bytes[1] as int
  }

  lemma ShortOfLe(v: Word16)
    ensures Short(Le(v, 2)) == v
  {
  }

  lemma DecodeEncode(s: Slot)
    ensures Decode(Encode(s)) == s
  {
    hide Le, Short;
    var bytes := Encode(s);
    assert bytes[..16] == s.key && bytes[16..18] == Le(s.nextPage, 2) && bytes[18] == s.nextSlot;
    assert bytes[19..21] == Le(s.overflowPage, 2) && bytes[21..23] == Le(s.overflowChunk, 2);
    ShortOfLe(s.nextPage);
    ShortOfLe(s.overflowPage);
    ShortOfLe(s.overflowChunk);
  }

  // Where the fields of a record are: the key, then three numbers of two bytes around one of one byte.
  lemma RecordLayout(s: Slot)
    ensures var r := Encode(s);
            r[..16] == s.key
            && r[16] == s.nextPage % 256 && r[17] == s.nextPage / 256
            && r[18] == s.nextSlot
            && r[19] == s.overflowPage % 256 && r[20] == s.overflowPage / 256
            && r[21] == s.overflowChunk % 256 && r[22] == s.overflowChunk / 256
  {
    hide Le;
    ShortBytes(s.nextPage);
    ShortBytes(s.overflowPage);
    ShortBytes(s.overflowChunk);
  }

  // ---------- moving bytes ----------

  // memmove towards the end of the page: the last byte first
  method MoveUp(data: array<Byte>, from: nat, to: nat, gap: nat)
    requires from <= to && to + gap <= data.Length
    modifies data
    ensures data[..] == Splice(old(data[..]), from + gap, old(data[from..to]))
  {
    ghost var d := data[..];
    var i := to;
    while i > from
      invariant from <= i <= to
      invariant forall k :: 0 <= k < data.Length && !(i + gap <= k < to + gap) ==> data[k] == d[k]
      invariant forall k :: i + gap <= k < to + gap ==> data[k] == d[k - gap]
    {
      i := i - 1;
      data[i + gap] := data[i];
    }
    MovedUp(d, data[..], from, to, gap);
  }

  lemma MovedUp(d: seq<Byte>, after: seq<Byte>, from: nat, to: nat, gap: nat)
    requires from <= to && to + gap <= |d| == |after|
    requires forall k :: 0 <= k < |d| && !(from + gap <= k < to + gap) ==> after[k] == d[k]
    requires forall k :: from + gap <= k < to + gap ==> after[k] == d[k - gap]
    ensures after == Splice(d, from + gap, d[from..to])
  {
  }

  // ---------- where things are ----------

  function EntryAt(i: nat): nat {
    HEADER_BYTES + ENTRY_BYTES * i
  }

  // The record of slot id k, of which the first stands at the end of the page.
  function RecordAt(k: nat): int {
    PAGE_BYTES - RECORD_BYTES * k
  }

  // The bytes of a directory entry; the padding may hold anything.
  ghost predicate IsEntry(bytes: seq<Byte>, id: nat) {
    |bytes| == ENTRY_BYTES && RecordAt(id) >= 0
    && bytes[0] == id && bytes[8..16] == Le(RecordAt(id), 8) && bytes[16..24] == Le(KEY_SIZE, 8)
  }

  ghost predicate Directory(d: seq<Byte>, order: seq<nat>) {
    |d| == PAGE_BYTES && |order| <= MAX_SLOTS
    && forall i :: 0 <= i < |order| ==> IsEntry(d[EntryAt(i)..EntryAt(i + 1)], order[i])
  }

  ghost predicate Records(d: seq<Byte>, slots: seq<Slot>) {
    |d| == PAGE_BYTES && |slots| <= MAX_SLOTS
    && forall k :: 1 <= k <= |slots| ==> d[RecordAt(k)..RecordAt(k - 1)] == Encode(slots[k - 1])
  }

  // The directory with entry p left open: the entries from p on stand one place further up.
  ghost predicate Opened(d: seq<Byte>, order: seq<nat>, p: nat) {
    |d| == PAGE_BYTES && |order| < MAX_SLOTS && p <= |order|
    && (forall i :: 0 <= i < p ==> IsEntry(d[EntryAt(i)..EntryAt(i + 1)], order[i]))
    && (forall i :: p <= i < |order| ==> IsEntry(d[EntryAt(i + 1)..EntryAt(i + 2)], order[i]))
  }

  lemma {:induction false} MoveOpens(d: seq<Byte>, order: seq<nat>, p: nat)
    requires Directory(d, order) && |order| < MAX_SLOTS && p <= |order|
    ensures Opened(Splice(d, EntryAt(p + 1), d[EntryAt(p)..EntryAt(|order|)]), order, p)
  {
    hide IsEntry;
    var moved := d[EntryAt(p)..EntryAt(|order|)];
    var after := Splice(d, EntryAt(p + 1), moved);
    hide Splice;
    forall i | 0 <= i < p ensures IsEntry(after[EntryAt(i)..EntryAt(i + 1)], order[i]) {
      SpliceOutside(d, EntryAt(p + 1), moved, EntryAt(i), EntryAt(i + 1));
    }
    forall i | p <= i < |order| ensures IsEntry(after[EntryAt(i + 1)..EntryAt(i + 2)], order[i]) {
      SpliceInside(d, EntryAt(p + 1), moved, EntryAt(i) - EntryAt(p), EntryAt(i + 1) - EntryAt(p));
      SliceOfSlice(d, EntryAt(p), EntryAt(|order|), EntryAt(i) - EntryAt(p), EntryAt(i + 1) - EntryAt(p));
    }
  }

  // Bytes that change between the directory and the records, or in the open entry, leave both as they are.
  lemma RecordsKeep(d: seq<Byte>, slots: seq<Slot>, at: nat, bytes: seq<Byte>)
    requires Records(d, slots) && at + |bytes| <= RecordAt(|slots|)
    ensures Records(Splice(d, at, bytes), slots)
  {
    hide Encode;
    forall k | 1 <= k <= |slots|
      ensures Splice(d, at, bytes)[RecordAt(k)..RecordAt(k - 1)] == Encode(slots[k - 1])
    {
      SpliceOutside(d, at, bytes, RecordAt(k), RecordAt(k - 1));
    }
  }

  lemma OpenedKeeps(d: seq<Byte>, order: seq<nat>, p: nat, at: nat, bytes: seq<Byte>)
    requires Opened(d, order, p) && at + |bytes| <= PAGE_BYTES
    requires EntryAt(|order| + 1) <= at || EntryAt(p) <= at <= at + |bytes| <= EntryAt(p + 1)
    ensures Opened(Splice(d, at, bytes), order, p)
  {
    hide IsEntry;
    var after := Splice(d, at, bytes);
    hide Splice;
    forall i | 0 <= i < p ensures IsEntry(after[EntryAt(i)..EntryAt(i + 1)], order[i]) {
      SpliceOutside(d, at, bytes, EntryAt(i), EntryAt(i + 1));
    }
    forall i | p <= i < |order| ensures IsEntry(after[EntryAt(i + 1)..EntryAt(i + 2)], order[i]) {
      SpliceOutside(d, at, bytes, EntryAt(i + 1), EntryAt(i + 2));
    }
  }

  lemma RecordAdded(d: seq<Byte>, slots: seq<Slot>, slot: Slot)
    requires Records(d, slots) && |slots| < MAX_SLOTS
    ensures Records(Splice(d, RecordAt(|slots| + 1), Encode(slot)), slots + [slot])
  {
    hide Encode;
    var at, after := RecordAt(|slots| + 1), Splice(d, RecordAt(|slots| + 1), Encode(slot));
    assert after[at..at + RECORD_BYTES] == Encode(slot);
    RecordsKeep(d, slots, at, Encode(slot));
    hide Splice;
    forall k | 1 <= k <= |slots| + 1
      ensures after[RecordAt(k)..RecordAt(k - 1)] == Encode((slots + [slot])[k - 1])
    {
      if k == |slots| + 1 {
        assert RecordAt(k - 1) == at + RECORD_BYTES;
      }
    }
  }

  lemma {:induction false} EntryWritten(d: seq<Byte>, order: seq<nat>, p: nat, id: nat)
    requires Opened(d, order, p) && IsEntry(d[EntryAt(p)..EntryAt(p + 1)], id)
    ensures Directory(d, InsertedAt(order, p, id))
  {
    hide IsEntry;
    var wider := InsertedAt(order, p, id);
    forall i | 0 <= i < |wider| ensures IsEntry(d[EntryAt(i)..EntryAt(i + 1)], wider[i]) {
      if i > p {
        assert wider[i] == order[i - 1];
      }
    }
  }

  // The three stores into the open entry.
  function WithEntry(d: seq<Byte>, at: nat, id: Byte, offset: nat): (r: seq<Byte>)
    requires at + ENTRY_BYTES <= |d|
    ensures |r| == |d|
  {
    Splice(Splice(Splice(d, at, [id]), at + 8, Le(offset, 8)), at + 16, Le(KEY_SIZE, 8))
  }

  lemma WithEntryIs(d: seq<Byte>, at: nat, id: Byte)
    requires at + ENTRY_BYTES <= |d| && RecordAt(id) >= 0
    ensures IsEntry(WithEntry(d, at, id, RecordAt(id))[at..at + ENTRY_BYTES], id)
  {
    var d1 := Splice(d, at, [id]);
    var d2 := Splice(d1, at + 8, Le(RecordAt(id), 8));
    var d3 := Splice(d2, at + 16, Le(KEY_SIZE, 8));
    SpliceInside(d, at, [id], 0, 1);
    SpliceInside(d1, at + 8, Le(RecordAt(id), 8), 0, 8);
    SpliceInside(d2, at + 16, Le(KEY_SIZE, 8), 0, 8);
    SpliceOutside(d1, at + 8, Le(RecordAt(id), 8), at, at + 1);
    SpliceOutside(d2, at + 16, Le(KEY_SIZE, 8), at, at + 1);
    SpliceOutside(d2, at + 16, Le(KEY_SIZE, 8), at + 8, at + 16);
    hide Splice, Le;
    assert d3[at..at + 1] == [id];
    var e := d3[at..at + ENTRY_BYTES];
    assert e[0] == d3[at..at + 1][0];
    SliceOfSlice(d3, at, at + ENTRY_BYTES, 8, 16);
    SliceOfSlice(d3, at, at + ENTRY_BYTES, 16, 24);
  }

  // An insert as it changes the bytes: the entries make room, the record is written, then its entry.
  function Written(d: seq<Byte>, n: nat, p: nat, slot: Slot): seq<Byte>
    requires |d| == PAGE_BYTES && p <= n < MAX_SLOTS
  {
    var moved := Splice(d, EntryAt(p + 1), d[EntryAt(p)..EntryAt(n)]);
    var recorded := Splice(moved, RecordAt(n + 1), Encode(slot));
    WithEntry(recorded, EntryAt(p), n + 1, RecordAt(n + 1))
  }

  lemma {:induction false} WrittenHolds(d: seq<Byte>, order: seq<nat>, slots: seq<Slot>, p: nat, slot: Slot)
    requires |d| == PAGE_BYTES && Directory(d, order) && Records(d, slots)
    requires |order| == |slots| < MAX_SLOTS && p <= |order|
    ensures Directory(Written(d, |order|, p, slot), InsertedAt(order, p, |order| + 1))
    ensures Records(Written(d, |order|, p, slot), slots + [slot])
  {
    hide Directory, Records, Opened, IsEntry, InsertedAt, Encode, Splice, Le;
    var n := |order|;
    var moved := Splice(d, EntryAt(p + 1), d[EntryAt(p)..EntryAt(n)]);
    MoveOpens(d, order, p);
    RecordsKeep(d, slots, EntryAt(p + 1), d[EntryAt(p)..EntryAt(n)]);
    var recorded := Splice(moved, RecordAt(n + 1), Encode(slot));
    OpenedKeeps(moved, order, p, RecordAt(n + 1), Encode(slot));
    RecordAdded(moved, slots, slot);
    var at, d1 := EntryAt(p), Splice(recorded, EntryAt(p), [n + 1]);
    var d2 := Splice(d1, at + 8, Le(RecordAt(n + 1), 8));
    OpenedKeeps(recorded, order, p, at, [n + 1]);
    OpenedKeeps(d1, order, p, at + 8, Le(RecordAt(n + 1), 8));
    OpenedKeeps(d2, order, p, at + 16, Le(KEY_SIZE, 8));
    RecordsKeep(recorded, slots + [slot], at, [n + 1]);
    RecordsKeep(d1, slots + [slot], at + 8, Le(RecordAt(n + 1), 8));
    RecordsKeep(d2, slots + [slot], at + 16, Le(KEY_SIZE, 8));
    WithEntryIs(recorded, at, n + 1);
    EntryWritten(Written(d, n, p, slot), order, p, n + 1);
  }

  lemma EntryRead(d: seq<Byte>, order: seq<nat>, i: nat)
    requires Directory(d, order) && i < |order|
    ensures var at := EntryAt(i);
            at + ENTRY_BYTES <= |d| && d[at] == order[i]
            && FromLe(d[at + 8..at + 16]) == RecordAt(order[i]) && FromLe(d[at + 16..at + 24]) == KEY_SIZE
  {
    hide Le, FromLe, Capacity;
    var at, e := EntryAt(i), d[EntryAt(i)..EntryAt(i + 1)];
    assert IsEntry(e, order[i]);
    assert e[0] == d[at];
    SliceOfSlice(d, at, EntryAt(i + 1), 8, 16);
    SliceOfSlice(d, at, EntryAt(i + 1), 16, 24);
    ShortFits(RecordAt(order[i]), 8);
    ShortFits(KEY_SIZE, 8);
    LeRoundTrip(RecordAt(order[i]), 8);
    LeRoundTrip(KEY_SIZE, 8);
  }

  // The five loads of a record, the fields behind a key of the given size.
  function SlotAt(d: seq<Byte>, offset: nat, size: nat): Slot
    requires size == KEY_SIZE && offset + RECORD_BYTES <= |d|
  {
    var end := offset + size;
    Slot(d[offset..end], Short(d[end..end + 2]), d[end + 2], Short(d[end + 3..end + 5]), Short(d[end + 5..end + 7]))
  }

  lemma RecordRead(d: seq<Byte>, slots: seq<Slot>, k: nat)
    requires Records(d, slots) && 1 <= k <= |slots|
    ensures var at := RecordAt(k);
            0 <= at <= at + RECORD_BYTES <= |d|
            && SlotAt(d, at, KEY_SIZE) == slots[k - 1]
  {
    hide Short, Encode;
    var at := RecordAt(k);
    var r := d[at..RecordAt(k - 1)];
    DecodeEncode(slots[k - 1]);
    assert r == Encode(slots[k - 1]);
    SliceOfSlice(d, at, RecordAt(k - 1), 0, 16);
    SliceOfSlice(d, at, RecordAt(k - 1), 16, 18);
    SliceOfSlice(d, at, RecordAt(k - 1), 19, 21);
    SliceOfSlice(d, at, RecordAt(k - 1), 21, 23);
    assert r[18] == d[at + 18];
  }

  lemma SpliceJoins(d: seq<Byte>, at: nat, a: seq<Byte>, b: seq<Byte>)
    requires at + |a| + |b| <= |d|
    ensures Splice(Splice(d, at, a), at + |a|, b) == Splice(d, at, a + b)
  {
  }

  lemma RecordStores(d: seq<Byte>, at: nat, s: Slot)
    requires at + RECORD_BYTES <= |d|
    ensures var d1 := Splice(d, at, s.key);
            var d2 := Splice(d1, at + 16, Le(s.nextPage, 2));
            var d3 := Splice(d2, at + 18, [s.nextSlot]);
            var d4 := Splice(d3, at + 19, Le(s.overflowPage, 2));
            Splice(d4, at + 21, Le(s.overflowChunk, 2)) == Splice(d, at, Encode(s))
  {
    hide Splice, Le;
    var a, b, c, e := Le(s.nextPage, 2), [s.nextSlot], Le(s.overflowPage, 2), Le(s.overflowChunk, 2);
    SpliceJoins(d, at, s.key, a);
    SpliceJoins(d, at, s.key + a, b);
    SpliceJoins(d, at, s.key + a + b, c);
    SpliceJoins(d, at, s.key + a + b + c, e);
    assert s.key + a + b + c + e == Encode(s);
  }

  lemma EveryIdListed(order: seq<nat>, id: nat)
    requires Ids(order)
    ensures 1 <= id <= |order| ==> exists k :: 0 <= k < |order| && order[k] == id
  {
    if 1 <= id <= |order| {
      assert id in order;
    }
  }

  lemma {:induction false} ZeroBytes(n: nat)
    ensures forall k :: 0 <= k < n ==> Le(0, n)[k] == 0
  {
    if n > 0 {
      ZeroBytes(n - 1);
    }
  }

  lemma SmallBytes(v: Word16)
    ensures Le(v, 8)[0] == v % 256 && Le(v, 8)[1] == v / 256 && forall k :: 2 <= k < 8 ==> Le(v, 8)[k] == 0
  {
    var n: nat := 6;
    ZeroBytes(n);
    assert Le(v, n + 2) == [v % 256] + ([v / 256 % 256] + Le(v / 256 / 256, n));
  }

  // Where the fields of a directory entry are: the id first, at byte 8 the place of the record and at byte 16 the size
  // of its key, both numbers of eight bytes.
  lemma EntryLayout(bytes: seq<Byte>, id: nat)
    requires IsEntry(bytes, id)
    ensures bytes[0] == id && bytes[16] == 16
    ensures bytes[8] == (4032 - 23 * id) % 256 && bytes[9] == (4032 - 23 * id) / 256
    ensures forall k :: 10 <= k < 16 || 17 <= k < 24 ==> bytes[k] == 0
  {
    hide Le;
    SmallBytes(RecordAt(id));
    SmallBytes(KEY_SIZE);
    assert bytes[8] == bytes[8..16][0] && bytes[9] == bytes[8..16][1] && bytes[16] == bytes[16..24][0];
    forall k | 10 <= k < 16 || 17 <= k < 24 ensures bytes[k] == 0 {
      if k < 16 {
        assert bytes[k] == bytes[8..16][k - 8];
      } else {
        assert bytes[k] == bytes[16..24][k - 16];
      }
    }
  }

  lemma ListedId(order: seq<nat>, i: nat)
    requires Ids(order) && i < |order|
    ensures 1 <= order[i] <= |order|
  {
  }

  // ---------- the page ----------

  // The five stores of a record.
  method WriteRecord(data: array<Byte>, at: nat, slot: Slot)
    requires at + RECORD_BYTES <= data.Length
    modifies data
    ensures data[..] == Splice(old(data[..]), at, Encode(slot))
  {
    hide Splice, Encode, Le;
    RecordStores(data[..], at, slot);
    CopyIn(data, at, slot.key);
    CopyIn(data, at + 16, Le(slot.nextPage, 2));
    CopyIn(data, at + 18, [slot.nextSlot]);
    CopyIn(data, at + 19, Le(slot.overflowPage, 2));
    CopyIn(data, at + 21, Le(slot.overflowChunk, 2));
  }

  // The stores of an insert at position p of a directory of n entries.
  method StoreSlot(data: array<Byte>, n: nat, p: nat, offset: nat, slot: Slot)
    requires data.Length == PAGE_BYTES && p <= n < MAX_SLOTS && offset == RecordAt(n + 1)
    modifies data
    ensures data[..] == Written(old(data[..]), n, p, slot)
  {
    hide Splice, Encode, Le;
    NothingMoved(data[..], EntryAt(n), EntryAt(n + 1));
    if p < n {
      MoveUp(data, EntryAt(p), EntryAt(n), ENTRY_BYTES);
    }
    WriteRecord(data, offset, slot);
    CopyIn(data, EntryAt(p), [n + 1]);
    CopyIn(data, EntryAt(p) + 8, Le(offset, 8));
    CopyIn(data, EntryAt(p) + 16, Le(KEY_SIZE, 8));
  }

  class IndexPage {
    const data: array<Byte>
    var freeStart: nat
    var freeEnd: nat
    var freeTotal: nat
    var totalSlots: nat
    var highestSlot: Byte
    var freeSlotCount: nat
    var freeSlotList: seq<Byte>
    ghost var order: seq<nat>
    ghost var slots: seq<Slot>

    ghost function View(): Page
      reads this
    {
      Page(order, slots)
    }

    // All but the highest id given out, which is ahead of the slots during an insert. No slot has been freed.
    ghost predicate Intact()
      reads this, data
    {
      data.Length == PAGE_BYTES && |slots| == |order| <= MAX_SLOTS && Ids(order)
      && totalSlots == |slots| && freeSlotCount == 0 && |freeSlotList| == FREE_SLOT_LIST_SIZE
      && freeStart == HEADER_BYTES && freeEnd == RecordAt(|slots|)
      && freeTotal == PAGE_BYTES - HEADER_BYTES - (ENTRY_BYTES + RECORD_BYTES) * |slots|
      && Directory(data[..], order) && Records(data[..], slots)
    }

    ghost predicate Valid()
      reads this, data
    {
      Intact() && highestSlot == totalSlots
    }

    // init_index_leaf_page, on a page that may hold anything
    constructor (data: array<Byte>)
      requires data.Length == PAGE_BYTES
      ensures Valid() && this.data == data && View() == EMPTY
    {
      this.data := data;
      freeStart, freeEnd, freeTotal := HEADER_BYTES, PAGE_BYTES, PAGE_BYTES - HEADER_BYTES;
      totalSlots, highestSlot, freeSlotCount, freeSlotList := 0, 0, 0, seq(FREE_SLOT_LIST_SIZE, _ => 0);
      order, slots := [], [];
    }

    // USED_SPACE < FULL_THRESHOLD: less than eight tenths of the page
    predicate HasRoom()
      reads this
    {
      10 * (PAGE_BYTES - freeTotal as int) < 8 * PAGE_BYTES
    }

    // The directory never meets the records: free_total is what lies between them.
    lemma DirectoryBelowRecords()
      requires Intact()
      ensures freeStart + ENTRY_BYTES * totalSlots + freeTotal == freeEnd
    {
    }

    // Where things are on the page: the i-th entry of the directory at byte 34 + 24 i, and the record of id k at the
    // 23 bytes that end 23 (k - 1) bytes before the end of the page.
    lemma PageLayout(i: nat)
      requires Intact() && i < totalSlots
      ensures 34 + 24 * i + 24 <= 4032 && 1 <= order[i] <= |slots| && 0 <= 4032 - 23 * order[i]
      ensures var entry, r := data[34 + 24 * i..34 + 24 * i + 24], 4032 - 23 * order[i];
              entry[0] == order[i] && entry[8] == r % 256 && entry[9] == r / 256 && entry[16] == 16
              && (forall k :: 10 <= k < 16 || 17 <= k < 24 ==> entry[k] == 0)
              && data[r..r + 23] == Encode(slots[order[i] - 1])
    {
      hide Encode, IsEntry;
      var id := order[i];
      ListedId(order, i);
      assert data[..][EntryAt(i)..EntryAt(i + 1)] == data[34 + 24 * i..34 + 24 * i + 24];
      EntryLayout(data[34 + 24 * i..34 + 24 * i + 24], id);
      assert data[..][RecordAt(id)..RecordAt(id - 1)] == Encode(slots[id - 1]);
      assert data[..][RecordAt(id)..RecordAt(id - 1)] == data[RecordAt(id)..RecordAt(id) + 23];
    }

    lemma RoomIsForSlots()
      requires Intact()
      ensures HasRoom() <==> |slots| < MAX_SLOTS
      ensures HasRoom() ==> freeTotal >= RECORD_BYTES + ENTRY_BYTES
    {
    }

    // find_empty_index_slot, for any header: a freed id if there is one, else the next id as long as there is room
    method FindEmptySlot(keySize: nat) returns (id: Byte)
      requires freeSlotCount <= |freeSlotList|
      modifies `highestSlot, `freeSlotCount
      ensures keySize > KEY_SIZE ==> id == 0 && freeSlotCount == old(freeSlotCount) && highestSlot == old(highestSlot)
      ensures keySize <= KEY_SIZE && old(freeSlotCount) > 0 ==>
                freeSlotCount == old(freeSlotCount) - 1 && id == freeSlotList[freeSlotCount]
                && highestSlot == old(highestSlot)
      ensures keySize <= KEY_SIZE && old(freeSlotCount) == 0 ==>
                freeSlotCount == 0
                && (var room := HasRoom() && freeTotal >= RECORD_BYTES + ENTRY_BYTES;
                    highestSlot == (old(highestSlot) + if room then 1 else 0) % 256
                    && id == if room then highestSlot else 0)
    {
      if keySize > KEY_SIZE {
        return 0;
      }
      if freeSlotCount > 0 {
        id := freeSlotList[freeSlotCount - 1];
        freeSlotCount := freeSlotCount - 1;
        return;
      }
      if HasRoom() && freeTotal >= RECORD_BYTES + ENTRY_BYTES {
        highestSlot := (highestSlot + 1) % 256;
        return highestSlot;
      }
      id := 0;
    }

    // read_index_slot
    method ReadSlot(id: Byte) returns (slot: Option<Slot>)
      requires Intact()
      ensures slot == Read(View(), id)
    {
      hide Directory, Records, Ids, SlotAt, FromLe;
      if id >= totalSlots {
        return None;
      }
      for i := 0 to totalSlots
        invariant forall k :: 0 <= k < i ==> order[k] != id
      {
        EntryRead(data[..], order, i);
        var entry := freeStart + ENTRY_BYTES * i;
        if data[entry] == id {
          ListedId(order, i);
          var offset, size := FromLe(data[..][entry + 8..entry + 16]), FromLe(data[..][entry + 16..entry + 24]);
          RecordRead(data[..], slots, id);
          return Some(SlotAt(data[..], offset, size));
        }
      }
      EveryIdListed(order, id);
      slot := None;
    }

    // The loop that looks for the insertion point; unread is what is compared with when nothing was read.
    method FindPosition(key: Key, unread: Key) returns (p: nat)
      requires Intact()
      ensures p == Position(View(), unread, key, 0)
    {
      hide Directory, Records, Ids, Less;
      p := totalSlots;
      for i := 0 to totalSlots
        invariant Position(View(), unread, key, 0) == Position(View(), unread, key, i)
      {
        EntryRead(data[..], order, i);
        var existing := ReadSlot(data[freeStart + ENTRY_BYTES * i]);
        if Less(key, if existing.Some? then existing.value.key else unread) {
          return i;
        }
      }
    }

    // write_index_slot
    method WriteSlot(slot: Slot, unread: Key)
      requires Valid()
      modifies this, data
      ensures Valid() && View() == Insert(old(View()), slot, unread)
      ensures old(|slots|) == MAX_SLOTS ==> data[..] == old(data[..])
    {
      hide Directory, Records, Ids, Written, Position, InsertedAt;
      RoomIsForSlots();
      if !HasRoom() {
        return;
      }
      var id := FindEmptySlot(KEY_SIZE);
      if id == 0 {
        return;
      }
      var p := FindPosition(slot.key, unread);
      WrittenHolds(data[..], order, slots, p, slot);
      InsertedIds(order, p);
      InsertedIs(order, p, id);
      var offset := freeEnd - RECORD_BYTES;
      StoreSlot(data, totalSlots, p, offset, slot);
      totalSlots := totalSlots + 1;
      freeEnd := offset;
      freeTotal := freeTotal - (RECORD_BYTES + ENTRY_BYTES);
      order, slots := InsertedAt(order, p, id), slots + [slot];
    }
  }

  lemma NothingMoved(d: seq<Byte>, from: nat, at: nat)
    requires from <= |d| && at <= |d|
    ensures d[from..from] == [] && Splice(d, at, []) == d
  {
  }
}
