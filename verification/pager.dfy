/**
 Free-page management and header verification of src/pager/pager.c, on the mutable structures: the radix tree,
 the one-byte counter, and the header page with its inline list. Each method is tied to the function of
 FreePages that says what it does to the three together.
 */
module Pager {
  import opened Ascending
  import opened Bytes
  import opened Constants
  import RadixPaths
  import opened RadixTree
  import Crc32
  import FreePages
  import DatabaseHeader

  type Page = RadixPaths.Page

  // The mapped page 0.
  class HeaderPage {
    var magic: seq<Byte>
    var pageSize: Page
    var dbVersion: Page
    var rootTableCatalog: Page
    var rootColumnCatalog: Page
    var rootFkCatalog: Page
    const freePageList: array<Page>
    var freePageCount: Page
    var highestPage: Page
    var transactionState: Page
    var flags: Page
    var padding: seq<Byte>
    var checksum: Crc32.Word

    ghost predicate Valid()
      reads this
    {
      freePageList.Length == FREE_PAGE_LIST_SIZE && freePageCount <= FREE_PAGE_LIST_SIZE
      && |magic| == DatabaseHeader.MAGIC_NUMBER_SIZE && |padding| == 2
    }

    function View(): DatabaseHeader.Header
      reads this, freePageList
    {
      DatabaseHeader.Header(magic, pageSize, dbVersion, rootTableCatalog, rootColumnCatalog, rootFkCatalog,
                            freePageList[..], freePageCount, highestPage, transactionState, flags,
                            padding, checksum)
    }

    ghost function List(): seq<nat>
      requires Valid()
      reads this, freePageList
    {
      freePageList[..freePageCount]
    }

    constructor ()
      ensures Valid() && fresh(freePageList)
    {
      magic, padding := DatabaseHeader.MAGIC_NUMBER, [0, 0];
      pageSize, dbVersion := 4096, 1;
      rootTableCatalog, rootColumnCatalog, rootFkCatalog := 1, 2, 3;
      freePageList := new Page[FREE_PAGE_LIST_SIZE](_ => 0);
      freePageCount, highestPage := 0, 3;
      transactionState, flags := 0, 0;
      checksum := Crc32.Zeros(32);
    }

    method AppendFree(page: Page)
      requires Valid()
      modifies this`freePageCount, freePageList
      ensures Valid()
      ensures List() == if |old(List())| < FREE_PAGE_LIST_SIZE then old(List()) + [page] else old(List())
    {
      if freePageCount < FREE_PAGE_LIST_SIZE {
        freePageList[freePageCount] := page;
        freePageCount := freePageCount + 1;
      }
    }

    // Close the gap at index i.
    method ShiftDown(i: nat)
      requires Valid() && i < freePageCount
      modifies this`freePageCount, freePageList
      ensures Valid() && List() == old(List())[..i] + old(List())[i + 1..]
    {
      ghost var was := List();
      for j := i to freePageCount - 1
        modifies freePageList
        invariant freePageList[..i] == was[..i]
        invariant freePageList[i..j] == was[i + 1..j + 1]
        invariant freePageList[j..freePageCount] == was[j..]
      {
        assert freePageList[j + 1] == freePageList[j..freePageCount][1];
        freePageList[j] := freePageList[j + 1];
        assert freePageList[i..j + 1] == freePageList[i..j] + [freePageList[j]];
        assert freePageList[j + 1..freePageCount] == was[j + 1..];
      }
      freePageCount := freePageCount - 1;
      assert freePageList[..freePageCount] == freePageList[..i] + freePageList[i..freePageCount];
    }

    method RemoveFree(page: Page)
      requires Valid()
      modifies this`freePageCount, freePageList
      ensures Valid() && List() == FreePages.Without(old(List()), page)
    {
      for i := 0 to freePageCount
        invariant Valid() && List() == old(List())
        invariant page !in List()[..i]
      {
        if freePageList[i] == page {
          WithoutAt(List(), page, i);
          ShiftDown(i);
          return;
        }
        assert List()[..i + 1] == List()[..i] + [List()[i]];
      }
      assert List()[..freePageCount] == List();
    }
  }

  lemma {:induction false} WithoutAt(list: seq<nat>, x: nat, i: nat)
    requires i < |list| && list[i] == x && x !in list[..i]
    ensures FreePages.Without(list, x) == list[..i] + list[i + 1..]
    decreases |list|
  {
    if i > 0 {
      assert list[0] in list[..i];
      assert list[1..][..i - 1] == list[..i][1..];
      WithoutAt(list[1..], x, i - 1);
    }
  }

  // Reading one more entry of the header list.
  lemma {:induction false} NonZeroSnoc(list: seq<nat>, x: nat)
    ensures FreePages.NonZero(list + [x]) == FreePages.NonZero(list) + if x != 0 then 1 else 0
    decreases |list|
  {
    if list == [] {
      assert (list + [x])[1..] == [];
    } else {
      assert (list + [x])[1..] == list[1..] + [x];
      NonZeroSnoc(list[1..], x);
    }
  }

  lemma LoadNothing()
    ensures Entries([]) == {} && FreePages.NonZero([]) == 0
  {
  }

  lemma ReadNext(list: seq<nat>, i: nat)
    requires i < |list|
    ensures FreePages.NonZero(list[..i + 1]) == FreePages.NonZero(list[..i]) + if list[i] != 0 then 1 else 0
    ensures Entries(list[..i + 1]) == Entries(list[..i]) + if list[i] != 0 then {list[i]} else {}
    ensures FreePages.NonZero(list[..i]) <= i
  {
    assert list[..i + 1] == list[..i] + [list[i]];
    NonZeroSnoc(list[..i], list[i]);
    FreePages.NonZeroLength(list[..i]);
  }

  class Pager {
    const header: HeaderPage
    const tree: RadixTree
    var numFrees: nat  // uint8_t

    ghost predicate Valid()
      reads this, header, header.freePageList, tree, tree.Repr
    {
      header.Valid() && tree.Valid() && numFrees < 256
    }

    // The three copies of the free set, and the highest page.
    ghost function Free(): FreePages.FreeMap
      requires Valid()
      reads this, header, header.freePageList, tree, tree.Repr
    {
      FreePages.FreeMap(tree.Pages(), numFrees, header.List(), header.highestPage)
    }

    // init_free_page_map
    constructor (header: HeaderPage)
      requires header.Valid()
      ensures Valid() && this.header == header && fresh(tree) && fresh(tree.Repr)
      ensures Free() == FreePages.Load(FreePages.FreeMap({}, 0, header.List(), header.highestPage))
    {
      this.header := header;
      tree := new RadixTree();
      numFrees := 0;
      new;
      LoadFreeList();
    }

    method LoadFreeList()
      requires Valid() && tree.Pages() == {} && numFrees == 0
      modifies this, tree, tree.Repr
      ensures Valid() && fresh(tree.Repr - old(tree.Repr))
      ensures Free() == FreePages.Load(old(Free()))
    {
      hide tree.Valid, Entries, FreePages.NonZero;
      LoadNothing();
      ghost var list := header.List();
      for i := 0 to header.freePageCount
        invariant Valid() && fresh(tree.Repr - old(tree.Repr))
        invariant header.List() == list
        invariant tree.Pages() == Entries(list[..i])
        invariant numFrees == FreePages.NonZero(list[..i])
      {
        ReadNext(list, i);
        var page := header.freePageList[i];
        assert page == list[i];
        if page > 0 {
          tree.Insert(page);
          numFrees := (numFrees + 1) % 256;
        }
      }
      assert list[..header.freePageCount] == list;
      FreePages.NonZeroLength(list);
    }

    method MarkPageFree(page: Page)
      requires Valid()
      modifies this, header, header.freePageList, tree, tree.Repr
      ensures Valid() && fresh(tree.Repr - old(tree.Repr))
      ensures Free() == FreePages.MarkFree(old(Free()), page)
    {
      hide tree.Valid;
      tree.Insert(page);
      numFrees := (numFrees + 1) % 256;
      header.AppendFree(page);
    }

    method MarkPageUsed(page: Page)
      requires Valid()
      modifies this, header, tree, tree.Repr
      ensures Valid() && tree.Repr == old(tree.Repr)
      ensures Free() == FreePages.MarkUsed(old(Free()), page)
    {
      hide tree.Valid;
      tree.Delete(page);
      if numFrees > 0 {
        numFrees := numFrees - 1;
      }
      if page > header.highestPage {
        header.highestPage := page;
      }
    }

    method GetFreePage() returns (page: Page)
      requires Valid()
      modifies this, header, header.freePageList, tree, tree.Repr
      ensures Valid() && tree.Repr == old(tree.Repr)
      ensures page == FreePages.GetFreePage(old(Free()))
      ensures Free() == FreePages.AfterGet(old(Free()))
    {
      hide tree.Valid;
      if numFrees > 0 {
        page := tree.PopMin();
        if page > 0 {
          numFrees := numFrees - 1;
          header.RemoveFree(page);
          return;
        }
      }
      page := (header.highestPage + 1) % 65536;
    }

    method SyncFreePageList()
      requires Valid()
      modifies header`freePageCount, header.freePageList
      ensures Valid()
      ensures Free() == FreePages.Sync(old(Free()))
    {
      header.freePageCount := 0;
      var count := tree.ToFreelist(header.freePageList, FREE_PAGE_LIST_SIZE);
      header.freePageCount := count;
    }

    // Bring the checksum up to date.
    static method Seal(header: HeaderPage, crc: Crc32.Calculator)
      requires header.Valid() && crc.Valid()
      modifies header`checksum, crc, crc.table
      ensures header.Valid() && crc.Valid()
      ensures header.checksum == Crc32.Crc(DatabaseHeader.Covered(header.View()))
    {
      ghost var before := header.View();
      header.checksum := crc.Calculate(DatabaseHeader.Covered(header.View()));
      assert header.View() == before.(checksum := header.checksum);
    }

    // pager_close_db, up to giving the file back: the list is rewritten, then the header is sealed.
    method Close(crc: Crc32.Calculator)
      requires Valid() && crc.Valid()
      modifies header`freePageCount, header.freePageList, header`checksum, crc, crc.table
      ensures Valid() && crc.Valid()
      ensures Free() == FreePages.Sync(old(Free()))
      ensures DatabaseHeader.Verdict(header.View())
              == if header.magic == DatabaseHeader.MAGIC_NUMBER then DatabaseHeader.Ok else DatabaseHeader.Corrupt
    {
      hide tree.Valid;
      SyncFreePageList();
      Seal(header, crc);
    }

    // pager_verify_db: the stored checksum is cleared for the calculation and put back.
    static method Verify(header: HeaderPage, crc: Crc32.Calculator) returns (status: DatabaseHeader.Status)
      requires header.Valid() && crc.Valid()
      modifies header`checksum, crc, crc.table
      ensures header.Valid() && crc.Valid()
      ensures header.View() == old(header.View())
      ensures status == DatabaseHeader.Verdict(header.View())
    {
      if header.magic != DatabaseHeader.MAGIC_NUMBER {
        return DatabaseHeader.Corrupt;
      }
      var stored := header.checksum;
      header.checksum := Crc32.Zeros(32);
      var calculated := crc.Calculate(DatabaseHeader.Covered(header.View()));
      header.checksum := stored;
      status := if stored != calculated then DatabaseHeader.Corrupt else DatabaseHeader.Ok;
    }

    // Close the database, check the header as it is found on opening, and load the free pages again.
    method CloseAndReopen(crc: Crc32.Calculator) returns (status: DatabaseHeader.Status, reopened: Pager)
      requires Valid() && crc.Valid() && header.magic == DatabaseHeader.MAGIC_NUMBER
      modifies header`freePageCount, header.freePageList, header`checksum, crc, crc.table
      ensures status == DatabaseHeader.Ok
      ensures reopened.header == header && reopened.Valid() && fresh(reopened)
      ensures reopened.Free() == FreePages.Load(FreePages.Sync(old(Free())))
    {
      hide tree.Valid;
      Close(crc);
      status := Verify(header, crc);
      reopened := new Pager(header);
    }
  }
}
