/**
 The rollback journal of src/pager/journal/journal.c: a header with the highest transaction id and a checksum,
 and behind it the pages that were saved. Commit and rollback cut the file back to its header, and so does
 beginning a transaction whose id is not the successor of the highest one.

 `State` is the journal as a value and `Run` a history of calls; the class is the journal as the program keeps it.
 */
module Journal {
  import opened Bytes
  import opened Crc32
  import opened Options
  import DatabaseHeader

  const HEADER_BYTES := 24
  const WORD32 := 0x1_0000_0000

  datatype Status = Ok | Error

  datatype Entry = Entry(txn: Word32, page: Word32, data: seq<Byte>)

  // Closed is a journal that is not mapped.
  datatype State = State(open: bool, highest: Word32, entries: seq<Entry>)

  datatype Call =
    | Begin(txn: Word32)
    | Add(txn: Word32, page: Word32, data: Option<seq<Byte>>)
    | Commit(txn: Word32)
    | Rollback(txn: Word32)

  function Successor(txn: Word32): Word32 {
    (txn + 1) % WORD32
  }

  function Predecessor(txn: Word32): Word32 {
    (txn - 1) % WORD32
  }

  predicate Succeeds(s: State, c: Call) {
    s.open && match c
      case Begin(_) => true
      case Add(txn, _, data) => data.Some? && txn == s.highest
      case Commit(txn) => txn == s.highest
      case Rollback(txn) => txn == s.highest
  }

  function Apply(s: State, c: Call): State {
    if !Succeeds(s, c) then
      s
    else
      match c
      case Begin(txn) => s.(highest := txn, entries := if txn == Successor(s.highest) then s.entries else [])
      case Add(txn, page, data) => s.(entries := s.entries + [Entry(txn, page, data.value)])
      case Commit(txn) => s.(entries := [])
      case Rollback(txn) => s.(highest := Predecessor(txn), entries := [])
  }

  function Run(s: State, calls: seq<Call>): State
    decreases |calls|
  {
    if calls == [] then s else Apply(Run(s, calls[..|calls| - 1]), calls[|calls| - 1])
  }

  // ---------- what the entries are ----------

  // The call cuts the file back to its header.
  predicate Truncates(s: State, c: Call) {
    Succeeds(s, c) && !c.Add? && (c.Begin? ==> c.txn != Successor(s.highest))
  }

  // The index behind the last call that truncated, 0 if none did.
  function LastCut(s: State, calls: seq<Call>): (k: nat)
    ensures k <= |calls|
    decreases |calls|
  {
    if calls == [] then 0
    else if Truncates(Run(s, calls[..|calls| - 1]), calls[|calls| - 1]) then |calls|
    else LastCut(s, calls[..|calls| - 1])
  }

  // The pages that the calls from index k on saved, in order.
  function Saved(s: State, calls: seq<Call>, k: nat): seq<Entry>
    requires k <= |calls|
    decreases |calls|
  {
    if k == |calls| then
      []
    else
      var before, c := calls[..|calls| - 1], calls[|calls| - 1];
      Saved(s, before, k)
      + if c.Add? && Succeeds(Run(s, before), c) then [Entry(c.txn, c.page, c.data.value)] else []
  }

  // Over every run the journal holds what was saved since it was last cut back, and nothing else.
  lemma {:induction false} HoldsWhatWasSaved(s: State, calls: seq<Call>)
    ensures Run(s, calls).entries
         == (if LastCut(s, calls) == 0 then s.entries else []) + Saved(s, calls, LastCut(s, calls))
    decreases |calls|
  {
    if calls != [] {
      HoldsWhatWasSaved(s, calls[..|calls| - 1]);
    }
  }

  // ---------- transaction ids ----------

  // The saved pages carry ids that never go down and never exceed the highest id.
  ghost predicate Ordered(s: State) {
    (forall i :: 0 <= i < |s.entries| ==> s.entries[i].txn <= s.highest)
    && (forall i, j :: 0 <= i < j < |s.entries| ==> s.entries[i].txn <= s.entries[j].txn)
  }

  // Beginning transaction 0 after the highest id there is: taken for the next one, it keeps the older pages.
  predicate WrapsAround(s: State, c: Call) {
    s.open && c == Begin(0) && s.highest == WORD32 - 1 && exists e :: e in s.entries && e.txn != 0
  }

  lemma StepKeepsOrderedExactly(s: State, c: Call)
    requires Ordered(s)
    ensures Ordered(Apply(s, c)) <==> !WrapsAround(s, c)
  {
    if WrapsAround(s, c) {
      var e :| e in s.entries && e.txn != 0;
      assert e in Apply(s, c).entries;
      assert exists i :: 0 <= i < |s.entries| && s.entries[i] == e;
    }
  }

  ghost predicate NeverWraps(s: State, calls: seq<Call>)
    decreases |calls|
  {
    calls == []
    || (NeverWraps(s, calls[..|calls| - 1]) && !WrapsAround(Run(s, calls[..|calls| - 1]), calls[|calls| - 1]))
  }

  lemma {:induction false} EveryRunIsOrdered(s: State, calls: seq<Call>)
    requires Ordered(s) && NeverWraps(s, calls)
    ensures Ordered(Run(s, calls))
    decreases |calls|
  {
    if calls != [] {
      EveryRunIsOrdered(s, calls[..|calls| - 1]);
      StepKeepsOrderedExactly(Run(s, calls[..|calls| - 1]), calls[|calls| - 1]);
    }
  }

  // ---------- undoing a transaction ----------

  predicate Adds(calls: seq<Call>, txn: Word32) {
    forall c :: c in calls ==> c.Add? && c.txn == txn
  }

  lemma {:induction false} AddsKeepTheId(s: State, calls: seq<Call>)
    requires Adds(calls, s.highest)
    ensures Run(s, calls).open == s.open && Run(s, calls).highest == s.highest
    decreases |calls|
  {
    if calls != [] {
      assert calls[|calls| - 1] in calls;
      AddsKeepTheId(s, calls[..|calls| - 1]);
    }
  }

  // A transaction that is begun in turn and rolled back leaves the journal as it was exactly when it was empty.
  lemma RollbackUndoesExactly(s: State, adds: seq<Call>)
    requires s.open && Adds(adds, Successor(s.highest))
    ensures var txn := Successor(s.highest);
            Apply(Run(Apply(s, Begin(txn)), adds), Rollback(txn)) == s <==> s.entries == []
  {
    AddsKeepTheId(Apply(s, Begin(Successor(s.highest))), adds);
  }

  lemma {:induction false} AddsSaveNothingExactly(s: State, calls: seq<Call>)
    requires s.open && Adds(calls, s.highest)
    ensures Run(s, calls).entries == [] <==> s.entries == [] && forall c :: c in calls ==> c.data.None?
    decreases |calls|
  {
    if calls != [] {
      var before, last := calls[..|calls| - 1], calls[|calls| - 1];
      assert last in calls && forall c :: c in calls <==> c in before || c == last by {
        assert calls == before + [last];
      }
      AddsKeepTheId(s, before);
      AddsSaveNothingExactly(s, before);
    }
  }

  // A transaction inside another one: rolling back the inner one takes the id back to the outer one, but leaves the
  // journal as it was before the inner one exactly when the outer one has nothing to roll back.
  lemma InnerRollbackUndoesExactly(s: State, outer: seq<Call>, inner: seq<Call>)
    requires s.open && Adds(outer, Successor(s.highest)) && Adds(inner, Successor(Successor(s.highest)))
    ensures var txn := Successor(s.highest);
            var before := Run(Apply(s, Begin(txn)), outer);
            var after := Apply(Run(Apply(before, Begin(Successor(txn))), inner), Rollback(Successor(txn)));
            after.highest == before.highest
            && (after == before <==> s.entries == [] && forall c :: c in outer ==> c.data.None?)
  {
    var txn := Successor(s.highest);
    var before := Run(Apply(s, Begin(txn)), outer);
    AddsKeepTheId(Apply(s, Begin(txn)), outer);
    AddsSaveNothingExactly(Apply(s, Begin(txn)), outer);
    AddsKeepTheId(Apply(before, Begin(Successor(txn))), inner);
  }

  // Once a transaction is begun, pages can be saved under its id and no other, and only it can be ended.
  lemma {:induction false} OnlyTheBegunTransaction(s: State, txn: Word32, adds: seq<Call>, other: Word32,
                                                   data: seq<Byte>)
    requires s.open && Adds(adds, txn)
    ensures var t := Run(Apply(s, Begin(txn)), adds);
            (Succeeds(t, Add(other, 0, Some(data))) <==> other == txn)
            && (Succeeds(t, Commit(other)) <==> other == txn)
            && (Succeeds(t, Rollback(other)) <==> other == txn)
            && (other != txn ==> Apply(t, Commit(other)) == t && Apply(t, Rollback(other)) == t)
  {
    AddsKeepTheId(Apply(s, Begin(txn)), adds);
  }

  // Committed, a transaction leaves no page and its own id, so that the next id is its successor; rolled back, the
  // next id is its own.
  lemma {:induction false} EndOfTransaction(s: State, txn: Word32, adds: seq<Call>)
    requires s.open && Adds(adds, txn)
    ensures var t := Run(Apply(s, Begin(txn)), adds);
            Apply(t, Commit(txn)) == State(true, txn, [])
            && Apply(t, Rollback(txn)) == State(true, if txn == 0 then 0xFFFF_FFFF else txn - 1, [])
    ensures var t := Run(Apply(s, Begin(txn)), adds);
            forall next: Word32 ::
              (!Truncates(Apply(t, Commit(txn)), Begin(next)) <==> next == if txn == 0xFFFF_FFFF then 0 else txn + 1)
              && (!Truncates(Apply(t, Rollback(txn)), Begin(next)) <==> next == txn)
  {
    AddsKeepTheId(Apply(s, Begin(txn)), adds);
  }

  // ---------- the header ----------

  datatype Header = Header(magic: seq<Byte>, version: Word32, pageSize: Word32, highest: Word32, checksum: Word)

  // The 20 bytes in front of the checksum.
  function Covered(h: Header): seq<Byte> {
    h.magic + Le(h.version, 4) + Le(h.pageSize, 4) + Le(h.highest, 4)
  }

  lemma CoversNoChecksum(h: Header)
    ensures forall crc: Word :: Covered(h.(checksum := crc)) == Covered(h)
  {
  }

  // Where the fields are in the 20 bytes.
  lemma HeaderLayout(h: Header)
    requires |h.magic| == 8
    ensures var bytes := Covered(h);
            |bytes| == 20 && bytes[..8] == h.magic
            && FromLe(bytes[8..12]) == h.version && FromLe(bytes[12..16]) == h.pageSize
            && FromLe(bytes[16..]) == h.highest
  {
    assert Capacity(4) == WORD32;
    LeRoundTrip(h.version, 4);
    LeRoundTrip(h.pageSize, 4);
    LeRoundTrip(h.highest, 4);
    CoveredParts(h);
  }

  lemma CoveredParts(h: Header)
    requires |h.magic| == 8
    ensures var bytes := Covered(h);
            |bytes| == 20 && bytes[..8] == h.magic && bytes[8..12] == Le(h.version, 4)
            && bytes[12..16] == Le(h.pageSize, 4) && bytes[16..] == Le(h.highest, 4)
  {
    hide Le;
  }

  // What journal_init finds in a journal that holds pages.
  predicate Verifies(h: Header) {
    h.magic == DatabaseHeader.MAGIC_NUMBER && h.checksum == Crc(Covered(h))
  }

  lemma LeDiffers(a: Word32, b: Word32)
    ensures Le(a, 4) == Le(b, 4) <==> a == b
  {
    assert Capacity(4) == WORD32;
    LeRoundTrip(a, 4);
    LeRoundTrip(b, 4);
  }

  // Another highest id under the same checksum is always noticed.
  lemma HighestIsCovered(h: Header, txn: Word32)
    requires Verifies(h)
    ensures Verifies(h.(highest := txn)) <==> txn == h.highest
  {
    LeDiffers(txn, h.highest);
    hide Le;
    var g := h.(highest := txn);
    var a, b := Covered(h), Covered(g);
    assert a[16..] == Le(h.highest, 4) && b[16..] == Le(txn, 4);
    if txn != h.highest {
      assert AgreeOutside(a, b, 16, 4);
      FourByteBurstDetected(a, b, 16);
    } else {
      assert g == h;
    }
  }

  // ---------- the journal ----------

  function FileSize(entryBytes: nat, n: nat): nat {
    HEADER_BYTES + entryBytes * n
  }

  lemma FileGrows(entryBytes: nat, n: nat)
    ensures FileSize(entryBytes, 0) == HEADER_BYTES
    ensures FileSize(entryBytes, n + 1) == FileSize(entryBytes, n) + entryBytes
  {
  }

  class Journal {
    const entryBytes: nat   // sizeof(RollbackJournalPage)
    var mapped: bool
    var magic: seq<Byte>
    var version: Word32
    var pageSize: Word32
    var highestTxnId: Word32
    var checksum: Word
    var size: nat
    var entries: seq<Entry>

    function HeaderView(): Header
      reads this
    {
      Header(magic, version, pageSize, highestTxnId, checksum)
    }

    function View(): State
      reads this
    {
      State(mapped, highestTxnId, entries)
    }

    // The size follows from the number of pages, and the header verifies.
    ghost predicate Valid()
      reads this
    {
      size == FileSize(entryBytes, |entries|) && Verifies(HeaderView())
    }

    // journal_init on a new file
    constructor (entryBytes: nat, crc: Calculator)
      requires crc.Valid()
      modifies crc, crc.table
      ensures Valid() && crc.Valid() && View() == State(true, 0, []) && this.entryBytes == entryBytes
    {
      this.entryBytes := entryBytes;
      mapped := true;
      magic, version, pageSize, highestTxnId := DatabaseHeader.MAGIC_NUMBER, 1, 4096, 0;
      size, entries := HEADER_BYTES, [];
      checksum := Zeros(32);
      new;
      Seal(crc);
    }

    method Seal(crc: Calculator)
      requires crc.Valid()
      modifies `checksum, crc, crc.table
      ensures crc.Valid() && checksum == Crc(Covered(HeaderView()))
    {
      hide Covered;
      CoversNoChecksum(HeaderView());
      checksum := crc.Calculate(Covered(HeaderView()));
    }

    // ftruncate to the header
    method Truncate()
      modifies `size, `entries
      ensures size == HEADER_BYTES && entries == []
    {
      size, entries := HEADER_BYTES, [];
    }

    method BeginTransaction(txn: Word32, crc: Calculator) returns (status: Status)
      requires Valid() && crc.Valid()
      modifies this, crc, crc.table
      ensures Valid() && crc.Valid()
      ensures View() == Apply(old(View()), Begin(txn))
      ensures status == if Succeeds(old(View()), Begin(txn)) then Ok else Error
    {
      hide FileSize, Covered;
      FileGrows(entryBytes, 0);
      if !mapped {
        return Error;
      }
      if txn != (highestTxnId + 1) % WORD32 {
        Truncate();
        highestTxnId := (txn - 1) % WORD32;
      }
      highestTxnId := txn;
      Seal(crc);
      status := Ok;
    }

    method AddPage(txn: Word32, page: Word32, data: Option<seq<Byte>>) returns (status: Status)
      requires Valid()
      modifies `size, `entries
      ensures Valid()
      ensures View() == Apply(old(View()), Add(txn, page, data))
      ensures status == if Succeeds(old(View()), Add(txn, page, data)) then Ok else Error
    {
      hide FileSize, Verifies;
      FileGrows(entryBytes, |entries|);
      if !mapped || data.None? || txn != highestTxnId {
        return Error;
      }
      var newSize := size + entryBytes;
      entries := entries + [Entry(txn, page, data.value)];
      size := newSize;
      status := Ok;
    }

    method CommitTransaction(txn: Word32, crc: Calculator) returns (status: Status)
      requires Valid() && crc.Valid()
      modifies this, crc, crc.table
      ensures Valid() && crc.Valid()
      ensures View() == Apply(old(View()), Commit(txn))
      ensures status == if Succeeds(old(View()), Commit(txn)) then Ok else Error
    {
      hide FileSize, Covered;
      FileGrows(entryBytes, 0);
      if !mapped || txn != highestTxnId {
        return Error;
      }
      Truncate();
      highestTxnId := txn;
      Seal(crc);
      status := Ok;
    }

    method RollbackTransaction(txn: Word32, crc: Calculator) returns (status: Status)
      requires Valid() && crc.Valid()
      modifies this, crc, crc.table
      ensures Valid() && crc.Valid()
      ensures View() == Apply(old(View()), Rollback(txn))
      ensures status == if Succeeds(old(View()), Rollback(txn)) then Ok else Error
    {
      hide FileSize, Covered;
      FileGrows(entryBytes, 0);
      if !mapped || txn != highestTxnId {
        return Error;
      }
      Truncate();
      highestTxnId := (txn - 1) % WORD32;
      Seal(crc);
      status := Ok;
    }

    // journal_is_valid_transaction
    method IsValidTransaction(txn: Word32) returns (status: Status)
      ensures status == Ok <==> mapped && !Truncates(View(), Begin(txn))
    {
      status := if mapped && txn == (highestTxnId + 1) % WORD32 then Ok else Error;
    }

    // journal_close
    method Close()
      requires Valid()
      modifies `mapped
      ensures Valid() && View() == old(View()).(open := false)
    {
      mapped := false;
    }
  }
}
