/**
 The database header at the start of page 0 (src/pager/db/base/page.h) and its checksum (src/pager/pager.c).

 The checksum covers the 92 bytes in front of it: the magic number, 41 two-byte fields in little-endian order
 and the two bytes of padding that the compiler puts before the four-byte checksum.
 */
module DatabaseHeader {
  import opened Bytes
  import opened Constants
  import opened Crc32

  const MAGIC_NUMBER_SIZE := 8

  // "SQLSHITE"
  const MAGIC_NUMBER: seq<Byte> := [83, 81, 76, 83, 72, 73, 84, 69]

  datatype Status = Ok | Corrupt

  datatype Header = Header(
    magic: seq<Byte>,
    pageSize: Word16, dbVersion: Word16,
    rootTableCatalog: Word16, rootColumnCatalog: Word16, rootFkCatalog: Word16,
    freePageList: seq<Word16>, freePageCount: Word16,
    highestPage: Word16, transactionState: Word16, flags: Word16,
    padding: seq<Byte>,
    checksum: Word)

  predicate WellFormed(h: Header) {
    |h.magic| == MAGIC_NUMBER_SIZE && |h.freePageList| == FREE_PAGE_LIST_SIZE && |h.padding| == 2
  }

  // The two-byte fields in storage order.
  function Fields(h: Header): seq<Word16> {
    [h.pageSize, h.dbVersion, h.rootTableCatalog, h.rootColumnCatalog, h.rootFkCatalog]
    + h.freePageList
    + [h.freePageCount, h.highestPage, h.transactionState, h.flags]
  }

  function LittleEndian(fields: seq<Word16>): (bytes: seq<Byte>)
    ensures |bytes| == 2 * |fields|
    ensures forall i :: 0 <= i < |fields| ==> bytes[2 * i] == fields[i] % 256 && bytes[2 * i + 1] == fields[i] / 256
  {
    seq(2 * |fields|, i requires 0 <= i < 2 * |fields| =>
          if i % 2 == 0 then fields[i / 2] % 256 else fields[i / 2] / 256)
  }

  // The bytes that the checksum covers.
  function Covered(h: Header): seq<Byte> {
    h.magic + LittleEndian(Fields(h)) + h.padding
  }

  // What pager_verify_db reports.
  function Verdict(h: Header): Status {
    if h.magic != MAGIC_NUMBER || h.checksum != Crc(Covered(h)) then Corrupt else Ok
  }

  // The two bytes of a number at a place, the lower one first.
  predicate ShortAt(bytes: seq<Byte>, at: nat, v: Word16) {
    at + 1 < |bytes| && bytes[at] == v % 256 && bytes[at + 1] == v / 256
  }

  // Where the fields are in the 92 bytes, as the compiler lays them out.
  lemma HeaderLayout(h: Header)
    requires WellFormed(h)
    ensures var bytes := Covered(h);
            |bytes| == 92 && bytes[..8] == h.magic
            && ShortAt(bytes, 8, h.pageSize) && ShortAt(bytes, 10, h.dbVersion)
            && ShortAt(bytes, 12, h.rootTableCatalog) && ShortAt(bytes, 14, h.rootColumnCatalog)
            && ShortAt(bytes, 16, h.rootFkCatalog)
            && (forall i :: 0 <= i < 32 ==> ShortAt(bytes, 18 + 2 * i, h.freePageList[i]))
            && ShortAt(bytes, 82, h.freePageCount) && ShortAt(bytes, 84, h.highestPage)
            && ShortAt(bytes, 86, h.transactionState) && ShortAt(bytes, 88, h.flags)
            && bytes[90..] == h.padding
  {
    hide Fields, ShortAt, LittleEndian;
    FieldOrder(h);
    forall i | 0 <= i < 41 ensures ShortAt(Covered(h), 8 + 2 * i, Fields(h)[i]) {
      FieldBytes(h.magic, Fields(h), h.padding, i);
    }
    assert ShortAt(Covered(h), 8 + 2 * 0, h.pageSize) && ShortAt(Covered(h), 8 + 2 * 1, h.dbVersion);
    assert ShortAt(Covered(h), 8 + 2 * 2, h.rootTableCatalog) && ShortAt(Covered(h), 8 + 2 * 3, h.rootColumnCatalog);
    assert ShortAt(Covered(h), 8 + 2 * 4, h.rootFkCatalog) && ShortAt(Covered(h), 8 + 2 * 37, h.freePageCount);
    assert ShortAt(Covered(h), 8 + 2 * 38, h.highestPage) && ShortAt(Covered(h), 8 + 2 * 39, h.transactionState);
    assert ShortAt(Covered(h), 8 + 2 * 40, h.flags);
    forall i | 0 <= i < 32 ensures ShortAt(Covered(h), 18 + 2 * i, h.freePageList[i]) {
      assert ShortAt(Covered(h), 8 + 2 * (i + 5), Fields(h)[i + 5]);
    }
  }

  lemma FieldOrder(h: Header)
    requires WellFormed(h)
    ensures var f := Fields(h);
            |f| == 41 && f[0] == h.pageSize && f[1] == h.dbVersion && f[2] == h.rootTableCatalog
            && f[3] == h.rootColumnCatalog && f[4] == h.rootFkCatalog && f[37] == h.freePageCount
            && f[38] == h.highestPage && f[39] == h.transactionState && f[40] == h.flags
    ensures forall i :: 0 <= i < 32 ==> Fields(h)[i + 5] == h.freePageList[i]
  {
  }

  lemma FieldBytes(magic: seq<Byte>, fields: seq<Word16>, padding: seq<Byte>, i: nat)
    requires i < |fields|
    ensures ShortAt(magic + LittleEndian(fields) + padding, |magic| + 2 * i, fields[i])
  {
    var bytes := LittleEndian(fields);
    assert bytes[2 * i] == fields[i] % 256 && bytes[2 * i + 1] == fields[i] / 256;
  }

  lemma MagicNumberIs()
    ensures |MAGIC_NUMBER| == 8
    ensures forall i :: 0 <= i < 8 ==> MAGIC_NUMBER[i] as int == "SQLSHITE"[i] as int
  {
  }

  // ---------- detection ----------

  lemma {:induction false} LittleEndianInjective(a: seq<Word16>, b: seq<Word16>)
    requires |a| == |b| && LittleEndian(a) == LittleEndian(b)
    ensures a == b
  {
    forall i | 0 <= i < |a| ensures a[i] == b[i] {
      assert a[i] % 256 == LittleEndian(a)[2 * i] == LittleEndian(b)[2 * i] == b[i] % 256;
      assert a[i] / 256 == LittleEndian(a)[2 * i + 1] == LittleEndian(b)[2 * i + 1] == b[i] / 256;
    }
  }

  // The covered bytes determine the header but for its checksum.
  lemma CoveredInjective(h: Header, g: Header)
    requires WellFormed(h) && WellFormed(g) && Covered(h) == Covered(g)
    ensures h == g.(checksum := h.checksum)
  {
    var a, b := Covered(h), Covered(g);
    var n := 8 + 2 * |Fields(h)|;
    assert a[..8] == h.magic && b[..8] == g.magic;
    assert a[8..n] == LittleEndian(Fields(h)) && b[8..n] == LittleEndian(Fields(g));
    assert a[n..] == h.padding && b[n..] == g.padding;
    LittleEndianInjective(Fields(h), Fields(g));
    FieldsInjective(h, g);
  }

  lemma FieldsInjective(h: Header, g: Header)
    requires WellFormed(h) && WellFormed(g) && Fields(h) == Fields(g)
    ensures h == g.(magic := h.magic, padding := h.padding, checksum := h.checksum)
  {
    var a, b := Fields(h), Fields(g);
    assert a[5..37] == h.freePageList && b[5..37] == g.freePageList;
    assert a[0] == b[0] && a[1] == b[1] && a[2] == b[2] && a[3] == b[3] && a[4] == b[4];
    assert a[37] == b[37] && a[38] == b[38] && a[39] == b[39] && a[40] == b[40];
  }

  // A sealed header whose covered bytes change inside one window of 32 bits no longer verifies.
  lemma {:induction false} BurstIsCorrupt(h: Header, g: Header, w: nat)
    requires WellFormed(h) && WellFormed(g)
    requires Verdict(h) == Ok && g.checksum == h.checksum && g != h
    requires AgreeOutside(BitStream(Covered(h)), BitStream(Covered(g)), w, 32)
    ensures Verdict(g) == Corrupt
  {
    if Covered(h) == Covered(g) {
      CoveredInjective(h, g);
    }
    BurstDetected(Covered(h), Covered(g), w);
  }

  // In terms of fields: changing one two-byte field, or two adjacent ones, is always noticed.
  lemma AdjacentFieldsAreCovered(h: Header, g: Header, k: nat)
    requires WellFormed(h) && WellFormed(g)
    requires Verdict(h) == Ok && g.checksum == h.checksum && g != h
    requires g.magic == h.magic && g.padding == h.padding && AgreeOutside(Fields(h), Fields(g), k, 2)
    ensures Verdict(g) == Corrupt
  {
    var a, b := Covered(h), Covered(g);
    if a == b {
      CoveredInjective(h, g);
    }
    FieldBytesAgree(h, g, k);
    FourByteBurstDetected(a, b, 8 + 2 * k);
  }

  lemma FieldBytesAgree(h: Header, g: Header, k: nat)
    requires WellFormed(h) && WellFormed(g)
    requires g.magic == h.magic && g.padding == h.padding && AgreeOutside(Fields(h), Fields(g), k, 2)
    ensures AgreeOutside(Covered(h), Covered(g), 8 + 2 * k, 4)
  {
    var p, q := LittleEndian(Fields(h)), LittleEndian(Fields(g));
    forall i | 0 <= i < |p| && !(2 * k <= i < 2 * k + 4) ensures p[i] == q[i] {
      assert p[2 * (i / 2)] == q[2 * (i / 2)] && p[2 * (i / 2) + 1] == q[2 * (i / 2) + 1];
    }
  }

  // The field that page allocation depends on most.
  lemma HighestPageIsCovered(h: Header, page: Word16)
    requires WellFormed(h) && Verdict(h) == Ok
    ensures Verdict(h.(highestPage := page)) == Ok <==> page == h.highestPage
  {
    var g := h.(highestPage := page);
    if page != h.highestPage {
      AdjacentFieldsAreCovered(h, g, 38);
    } else {
      assert g == h;
    }
  }
}
