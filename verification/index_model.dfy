/**
 What an index page holds after inserts (src/pager/db/index/index_page.c): the slots under their ids 1, 2, 3 ...,
 and the order in which the slot directory lists the ids.

 `read_index_slot` rejects the newest id, because it compares an id, which starts at 1, with the number of slots.
 While a new slot is placed, the comparison with the newest one therefore uses whatever the local variable
 happens to hold. That key is an input here, `unread`; `StaysSortedExactly` says for which ones the directory
 stays sorted.
 */
module IndexModel {
  import opened Bytes
  import opened Options

  const KEY_SIZE := 16
  const MAX_SLOTS := 68

  type Key = k: seq<Byte> | |k| == KEY_SIZE witness seq(KEY_SIZE, _ => 0)

  datatype Slot = Slot(key: Key, nextPage: Word16, nextSlot: Byte, overflowPage: Word16, overflowChunk: Word16)

  // Slot id k is slots[k - 1]; order lists the ids as the directory does.
  datatype Page = Page(order: seq<nat>, slots: seq<Slot>)

  const EMPTY := Page([], [])

  // ---------- memcmp ----------

  predicate Less(a: seq<Byte>, b: seq<Byte>) {
    a != [] && b != [] && if a[0] == b[0] then Less(a[1..], b[1..]) else a[0] < b[0]
  }

  lemma {:induction false} LessTotal(a: seq<Byte>, b: seq<Byte>)
    requires |a| == |b|
    ensures Less(a, b) || Less(b, a) || a == b
    ensures !(Less(a, b) && Less(b, a)) && !Less(a, a)
  {
    if a != [] {
      LessTotal(a[1..], b[1..]);
      assert a == [a[0]] + a[1..] && b == [b[0]] + b[1..];
    }
  }

  lemma {:induction false} LessTransitive(a: seq<Byte>, b: seq<Byte>, c: seq<Byte>)
    requires |a| == |b| == |c|
    ensures !Less(b, a) && !Less(c, b) ==> !Less(c, a)
  {
    if a != [] {
      LessTransitive(a[1..], b[1..], c[1..]);
    }
  }

  // The first byte that differs decides, as in memcmp.
  lemma {:induction false} FirstDifferenceDecides(a: seq<Byte>, b: seq<Byte>, k: nat)
    requires |a| == |b| && k < |a| && a[..k] == b[..k] && a[k] != b[k]
    ensures Less(a, b) <==> a[k] < b[k]
    decreases k
  {
    if k > 0 {
      assert a[0] == a[..k][0] == b[..k][0] == b[0];
      assert a[1..][..k - 1] == a[..k][1..] && b[1..][..k - 1] == b[..k][1..];
      FirstDifferenceDecides(a[1..], b[1..], k - 1);
    }
  }

  // ---------- the operations ----------

  predicate IdsWithin(order: seq<nat>, n: nat) {
    forall i :: 0 <= i < |order| ==> 1 <= order[i] <= n
  }

  // The ids are 1 to n, each once.
  ghost predicate Ids(order: seq<nat>) {
    IdsWithin(order, |order|)
    && (forall i, j :: 0 <= i < j < |order| ==> order[i] != order[j])
    && (forall id: nat :: 1 <= id <= |order| ==> id in order)
  }

  ghost predicate Valid(page: Page) {
    |page.order| == |page.slots| <= MAX_SLOTS && Ids(page.order)
  }

  // read_index_slot; nothing is returned for an id that it rejects or does not find.
  function Read(page: Page, id: nat): Option<Slot> {
    if 1 <= id < |page.slots| then Some(page.slots[id - 1]) else None
  }

  // The key that the new one is compared with at a position of the directory.
  function Seen(page: Page, unread: Key, i: nat): Key
    requires i < |page.order|
  {
    match Read(page, page.order[i])
    case Some(slot) => slot.key
    case None => unread
  }

  // The first position, from i on, where the new key is smaller.
  function Position(page: Page, unread: Key, key: Key, i: nat): (p: nat)
    requires i <= |page.order|
    ensures i <= p <= |page.order|
    ensures forall k :: i <= k < p ==> !Less(key, Seen(page, unread, k))
    ensures p < |page.order| ==> Less(key, Seen(page, unread, p))
    decreases |page.order| - i
  {
    if i == |page.order| || Less(key, Seen(page, unread, i)) then i else Position(page, unread, key, i + 1)
  }

  function InsertedAt(order: seq<nat>, p: nat, id: nat): seq<nat>
    requires p <= |order|
  {
    order[..p] + [id] + order[p..]
  }

  // write_index_slot
  function Insert(page: Page, slot: Slot, unread: Key): Page {
    if |page.slots| >= MAX_SLOTS then
      page
    else
      Page(InsertedAt(page.order, Position(page, unread, slot.key, 0), |page.slots| + 1), page.slots + [slot])
  }

  lemma InsertedIs(order: seq<nat>, p: nat, id: nat)
    requires p <= |order|
    ensures var wider := InsertedAt(order, p, id);
            |wider| == |order| + 1 && wider[p] == id
            && (forall k :: 0 <= k < p ==> wider[k] == order[k])
            && (forall k :: p < k < |wider| ==> wider[k] == order[k - 1])
  {
  }

  lemma InsertedDistinct(order: seq<nat>, p: nat)
    requires Ids(order) && p <= |order|
    ensures var wider := InsertedAt(order, p, |order| + 1);
            forall i, j :: 0 <= i < j < |wider| ==> wider[i] != wider[j]
  {
    var wider := InsertedAt(order, p, |order| + 1);
    InsertedIs(order, p, |order| + 1);
    hide InsertedAt;
    forall i, j | 0 <= i < j < |wider| ensures wider[i] != wider[j] {
      var a, b := if i < p then i else i - 1, if j < p then j else j - 1;
      if i != p && j != p {
        assert wider[i] == order[a] && wider[j] == order[b];
      }
    }
  }

  lemma InsertedComplete(order: seq<nat>, p: nat, id: nat)
    requires Ids(order) && p <= |order| && 1 <= id <= |order| + 1
    ensures id in InsertedAt(order, p, |order| + 1)
  {
    var wider := InsertedAt(order, p, |order| + 1);
    InsertedIs(order, p, |order| + 1);
    hide InsertedAt;
    if id == |order| + 1 {
      assert wider[p] == id;
    } else {
      assert id in order;
      var i :| 0 <= i < |order| && order[i] == id;
      assert wider[if i < p then i else i + 1] == id;
    }
  }

  lemma InsertedIds(order: seq<nat>, p: nat)
    requires Ids(order) && p <= |order|
    ensures Ids(InsertedAt(order, p, |order| + 1))
  {
    var wider := InsertedAt(order, p, |order| + 1);
    InsertedIs(order, p, |order| + 1);
    hide InsertedAt;
    InsertedDistinct(order, p);
    forall id: nat | 1 <= id <= |order| + 1 ensures id in wider {
      InsertedComplete(order, p, id);
    }
    assert forall k :: 0 <= k < |wider| ==> 1 <= wider[k] <= |wider|;
  }

  lemma InsertKeepsValid(page: Page, slot: Slot, unread: Key)
    requires Valid(page)
    ensures Valid(Insert(page, slot, unread))
  {
    hide Ids, InsertedAt;
    InsertedIds(page.order, Position(page, unread, slot.key, 0));
    InsertedIs(page.order, Position(page, unread, slot.key, 0), |page.slots| + 1);
  }

  // ---------- runs ----------

  datatype Insertion = Insertion(slot: Slot, unread: Key)

  function Run(history: seq<Insertion>): Page
    decreases |history|
  {
    if history == [] then EMPTY
    else var last := history[|history| - 1]; Insert(Run(history[..|history| - 1]), last.slot, last.unread)
  }

  function Lesser(a: nat, b: nat): nat {
    if a < b then a else b
  }

  // The first 68 slots of a run.
  function Accepted(history: seq<Insertion>): seq<Slot> {
    seq(Lesser(|history|, MAX_SLOTS), i requires 0 <= i < |history| => history[i].slot)
  }

  lemma AcceptedNext(history: seq<Insertion>)
    requires history != []
    ensures var before, last := history[..|history| - 1], history[|history| - 1];
            Accepted(history) == if |Accepted(before)| >= MAX_SLOTS then Accepted(before)
                                 else Accepted(before) + [last.slot]
  {
  }

  lemma InsertSlots(page: Page, slot: Slot, unread: Key)
    ensures Insert(page, slot, unread).slots
         == if |page.slots| >= MAX_SLOTS then page.slots else page.slots + [slot]
  {
  }

  // Every run of inserts keeps the first 68 slots, in the order of their ids, and lists each id once.
  lemma {:induction false} EveryRunKeepsSlots(history: seq<Insertion>)
    ensures Valid(Run(history)) && Run(history).slots == Accepted(history)
    decreases |history|
  {
    hide Insert, Accepted;
    if history == [] {
      assert Valid(EMPTY);
      assert Accepted([]) == [] by { NothingAccepted(); }
    } else {
      hide Valid;
      var before, last := history[..|history| - 1], history[|history| - 1];
      EveryRunKeepsSlots(before);
      InsertKeepsValid(Run(before), last.slot, last.unread);
      InsertSlots(Run(before), last.slot, last.unread);
      AcceptedNext(history);
    }
  }

  lemma NothingAccepted()
    ensures Accepted([]) == []
  {
  }

  // After any run of inserts, whatever keys were compared, every id but the newest reads what was written under it.
  lemma {:induction false} EveryRunReadsBack(history: seq<Insertion>, id: nat)
    ensures Read(Run(history), id)
         == if 1 <= id < Lesser(|history|, 68) then Some(history[id - 1].slot) else None
  {
    EveryRunKeepsSlots(history);
  }

  // ---------- when the directory is sorted ----------

  ghost predicate KeysSorted(keys: seq<Key>) {
    forall i, j :: 0 <= i < j < |keys| ==> !Less(keys[j], keys[i])
  }

  function KeysOf(order: seq<nat>, slots: seq<Slot>): seq<Key>
    requires IdsWithin(order, |slots|)
  {
    seq(|order|, i requires 0 <= i < |order| => slots[order[i] - 1].key)
  }

  // The keys in directory order.
  function Keys(page: Page): seq<Key>
    requires IdsWithin(page.order, |page.slots|)
  {
    KeysOf(page.order, page.slots)
  }

  // The newest id stands at j: either the scan stops before it, or the two keys are equal, or the comparison
  // with the leftover key comes out as the one with the real key would.
  predicate Harmless(keys: seq<Key>, key: Key, unread: Key, j: nat)
    requires j < |keys|
  {
    (j > 0 && Less(key, keys[j - 1])) || key == keys[j] || (Less(key, unread) <==> Less(key, keys[j]))
  }

  // Nothing greater before the position, nothing smaller from it on.
  ghost predicate Fits(keys: seq<Key>, key: Key, p: nat)
    requires p <= |keys|
  {
    (forall i :: 0 <= i < p ==> !Less(key, keys[i])) && (forall i :: p <= i < |keys| ==> !Less(keys[i], key))
  }

  lemma SortedIffFits(keys: seq<Key>, key: Key, p: nat)
    requires KeysSorted(keys) && p <= |keys|
    ensures KeysSorted(keys[..p] + [key] + keys[p..]) <==> Fits(keys, key, p)
  {
    hide Less;
    var wider := keys[..p] + [key] + keys[p..];
    assert wider[p] == key && (forall i :: 0 <= i < p ==> wider[i] == keys[i]);
    assert forall i :: p <= i < |keys| ==> keys[i] == wider[i + 1];
  }

  // The scan over these keys stops at p.
  ghost predicate Stops(seen: seq<Key>, key: Key, p: nat) {
    p <= |seen| && (forall k :: 0 <= k < p ==> !Less(key, seen[k])) && (p < |seen| ==> Less(key, seen[p]))
  }

  lemma FitsExactly(keys: seq<Key>, key: Key, unread: Key, j: nat, p: nat)
    requires KeysSorted(keys) && j < |keys| && Stops(keys[j := unread], key, p)
    ensures Fits(keys, key, p) <==> Harmless(keys, key, unread, j)
  {
    hide Less;
    forall a, b | 0 <= a <= b < |keys| ensures Less(key, keys[a]) ==> Less(key, keys[b]) {
      LessTotal(keys[a], keys[b]);
      LessTransitive(keys[a], keys[b], key);
    }
    forall k | 0 <= k < |keys|
      ensures Less(key, keys[k]) || Less(keys[k], key) || key == keys[k]
      ensures !(Less(key, keys[k]) && Less(keys[k], key)) && !Less(key, key)
    {
      LessTotal(key, keys[k]);
    }
    var seen := keys[j := unread];
    forall k | 0 <= k < p && k != j ensures !Less(key, keys[k]) {
      assert seen[k] == keys[k];
    }
    assert j < p ==> !Less(key, seen[j]);
  }

  lemma PositionStops(page: Page, key: Key, unread: Key, j: nat)
    requires Valid(page) && j < |page.order| && page.order[j] == |page.order|
    ensures Stops(Keys(page)[j := unread], key, Position(page, unread, key, 0))
  {
    hide Less, Position;
    var seen := Keys(page)[j := unread];
    forall k | 0 <= k < |page.order| ensures Seen(page, unread, k) == seen[k] {
    }
  }

  lemma KeysInserted(order: seq<nat>, slots: seq<Slot>, p: nat, slot: Slot)
    requires p <= |order| == |slots| && IdsWithin(order, |slots|)
    ensures var wider := InsertedAt(order, p, |slots| + 1);
            IdsWithin(wider, |slots| + 1)
            && KeysOf(wider, slots + [slot]) == KeysOf(order, slots)[..p] + [slot.key] + KeysOf(order, slots)[p..]
  {
    var wider, n := InsertedAt(order, p, |slots| + 1), |slots|;
    InsertedIs(order, p, n + 1);
    hide InsertedAt;
    forall k | 0 <= k <= n ensures 1 <= wider[k] <= n + 1 {
      assert wider[k] == if k < p then order[k] else if k == p then n + 1 else order[k - 1];
    }
    var found, keys := KeysOf(wider, slots + [slot]), KeysOf(order, slots);
    assert found[p] == slot.key;
    forall k | 0 <= k < p ensures found[k] == keys[k] {
      assert wider[k] == order[k] && (slots + [slot])[order[k] - 1] == slots[order[k] - 1];
    }
    forall k | p < k <= n ensures found[k] == keys[k - 1] {
      assert wider[k] == order[k - 1] && (slots + [slot])[order[k - 1] - 1] == slots[order[k - 1] - 1];
    }
  }

  lemma {:induction false} KeysAfter(page: Page, slot: Slot, unread: Key)
    requires Valid(page) && |page.slots| < MAX_SLOTS
    ensures var p := Position(page, unread, slot.key, 0);
            Valid(Insert(page, slot, unread))
            && Keys(Insert(page, slot, unread)) == Keys(page)[..p] + [slot.key] + Keys(page)[p..]
  {
    InsertKeepsValid(page, slot, unread);
    hide Position, InsertedAt;
    KeysInserted(page.order, page.slots, Position(page, unread, slot.key, 0), slot);
  }

  // A sorted directory stays sorted exactly when the leftover key does no harm.
  lemma StaysSortedExactly(page: Page, slot: Slot, unread: Key, j: nat)
    requires Valid(page) && |page.slots| < MAX_SLOTS && KeysSorted(Keys(page))
    requires j < |page.order| && page.order[j] == |page.order|
    ensures Valid(Insert(page, slot, unread))
    ensures KeysSorted(Keys(Insert(page, slot, unread))) <==> Harmless(Keys(page), slot.key, unread, j)
  {
    var p := Position(page, unread, slot.key, 0);
    KeysAfter(page, slot, unread);
    PositionStops(page, slot.key, unread, j);
    SortedIffFits(Keys(page), slot.key, p);
    FitsExactly(Keys(page), slot.key, unread, j, p);
  }

  predicate IsGreatest(key: seq<Byte>) {
    forall i :: 0 <= i < |key| ==> key[i] == 255
  }

  lemma {:induction false} GreatestIsNotLess(key: seq<Byte>, other: seq<Byte>)
    requires |key| == |other|
    ensures IsGreatest(key) ==> !Less(key, other)
    ensures IsGreatest(other) && !IsGreatest(key) ==> Less(key, other)
  {
    if key != [] {
      GreatestIsNotLess(key[1..], other[1..]);
      assert forall i :: 1 <= i < |key| ==> key[i] == key[1..][i - 1] && other[i] == other[1..][i - 1];
    }
  }

  // What a caller can tell before the insert: the directory stays sorted, whatever the local variable holds, exactly
  // when the scan stops before the newest id, or the key equals that one's, or no key is greater.
  lemma StaysSortedWhateverIsUnread(page: Page, slot: Slot, j: nat)
    requires Valid(page) && |page.slots| < MAX_SLOTS && KeysSorted(Keys(page))
    requires j < |page.order| && page.order[j] == |page.order|
    ensures (forall unread: Key :: Valid(Insert(page, slot, unread)) && KeysSorted(Keys(Insert(page, slot, unread))))
       <==> (j > 0 && Less(slot.key, Keys(page)[j - 1])) || slot.key == Keys(page)[j] || IsGreatest(slot.key)
  {
    var key, keys := slot.key, Keys(page);
    var top: Key := seq(KEY_SIZE, _ => 255);
    forall unread: Key
      ensures Valid(Insert(page, slot, unread))
      ensures KeysSorted(Keys(Insert(page, slot, unread))) <==> Harmless(keys, key, unread, j)
      ensures IsGreatest(key) ==> !Less(key, unread) && !Less(key, keys[j])
    {
      StaysSortedExactly(page, slot, unread, j);
      GreatestIsNotLess(key, unread);
      GreatestIsNotLess(key, keys[j]);
    }
    GreatestIsNotLess(key, top);
    LessTotal(key, key);
    hide Insert, KeysSorted, Less, Keys;
    if !Harmless(keys, key, top, j) {
      assert !KeysSorted(Keys(Insert(page, slot, top)));
    } else if !Harmless(keys, key, key, j) {
      assert !KeysSorted(Keys(Insert(page, slot, key)));
    }
  }

  // Where the directory lists the newest id.
  ghost function Newest(page: Page): (j: nat)
    requires Valid(page) && page.order != []
    ensures j < |page.order| && page.order[j] == |page.order|
  {
    assert |page.order| in page.order;
    var j :| 0 <= j < |page.order| && page.order[j] == |page.order|;
    j
  }

  // No comparison of the run went wrong.
  ghost predicate NeverHarmed(history: seq<Insertion>)
    decreases |history|
  {
    history == [] ||
    (var before, last := history[..|history| - 1], history[|history| - 1];
     EveryRunKeepsSlots(before);
     var page := Run(before);
     NeverHarmed(before)
     && (page.order == [] || |page.slots| >= MAX_SLOTS
         || Harmless(Keys(page), last.slot.key, last.unread, Newest(page))))
  }

  // A directory that is out of order stays so.
  lemma StaysUnsorted(page: Page, slot: Slot, unread: Key)
    requires Valid(page) && |page.slots| < MAX_SLOTS && !KeysSorted(Keys(page))
    ensures Valid(Insert(page, slot, unread)) && !KeysSorted(Keys(Insert(page, slot, unread)))
  {
    hide Insert, Position, KeysSorted;
    KeysAfter(page, slot, unread);
    WiderUnsorted(Keys(page), slot.key, Position(page, unread, slot.key, 0));
  }

  lemma WiderUnsorted(keys: seq<Key>, key: Key, p: nat)
    requires !KeysSorted(keys) && p <= |keys|
    ensures !KeysSorted(keys[..p] + [key] + keys[p..])
  {
    hide Less;
    var wider := keys[..p] + [key] + keys[p..];
    var i, j :| 0 <= i < j < |keys| && Less(keys[j], keys[i]);
    assert wider[if i < p then i else i + 1] == keys[i] && wider[if j < p then j else j + 1] == keys[j];
  }

  // After any run of inserts the directory is sorted exactly when no leftover key did harm.
  lemma {:induction false} EveryRunSortedExactly(history: seq<Insertion>)
    ensures Valid(Run(history)) && (KeysSorted(Keys(Run(history))) <==> NeverHarmed(history))
    decreases |history|
  {
    EveryRunKeepsSlots(history);
    if history != [] {
      hide Less, Harmless;
      var before, last := history[..|history| - 1], history[|history| - 1];
      EveryRunKeepsSlots(before);
      EveryRunSortedExactly(before);
      var page := Run(before);
      if |page.slots| < MAX_SLOTS {
        if !KeysSorted(Keys(page)) {
          StaysUnsorted(page, last.slot, last.unread);
        } else if page.order != [] {
          StaysSortedExactly(page, last.slot, last.unread, Newest(page));
        }
      }
    }
  }

  lemma RunOfOne(a: Insertion)
    ensures Run([a]) == Page([1], [a.slot])
  {
    assert [a][..0] == [] && Run([]) == EMPTY;
    assert InsertedAt([], 0, 1) == [1];
    hide Insert;
    assert Insert(EMPTY, a.slot, a.unread) == Page([1], [a.slot]) by { InsertIntoEmpty(a.slot, a.unread); }
  }

  lemma InsertIntoEmpty(slot: Slot, unread: Key)
    ensures Insert(EMPTY, slot, unread) == Page([1], [slot])
  {
  }

  // Two keys end up in the wrong order whenever a leftover key that is not greater hides that the second is smaller.
  lemma TwoOutOfOrder(a: Insertion, b: Insertion)
    requires Less(b.slot.key, a.slot.key) && !Less(b.slot.key, b.unread)
    ensures Valid(Run([a, b])) && !KeysSorted(Keys(Run([a, b])))
  {
    var history := [a, b];
    assert history[..1] == [a];
    RunOfOne(a);
    EveryRunSortedExactly(history);
    EveryRunKeepsSlots([a]);
    LessTotal(a.slot.key, b.slot.key);
    hide Run, Less, Insert;
    var page := Page([1], [a.slot]);
    assert Newest(page) == 0;
    assert !Harmless(Keys(page), b.slot.key, b.unread, 0);
  }
}
