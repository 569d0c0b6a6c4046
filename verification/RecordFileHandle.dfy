/** The record file handle and the record scan, over the pages of one file. */
module RecordFileHandle {
  import opened Common
  import opened Sequences
  import opened Bitmap
  import opened RecordFile

  class FileHandle {
    const perPage: nat
    /** What a page that has just been created holds in its slots. */
    const zero: Bytes
    var numPages: int
    var firstFree: int
    var pages: map<int, Page>
    ghost var chain: seq<int>

    ghost function State(): File
      reads this
    {
      File(perPage, numPages, firstFree, pages, chain)
    }

    ghost predicate Valid()
      reads this
    {
      Ok(State())
    }

    /** A file as it is created: the header page only. */
    constructor (recordSize: nat)
      requires 1 <= recordSize <= 512
      ensures Valid() && View(State()) == map[] && perPage == PerPage(recordSize)
    {
      PageFits(recordSize);
      perPage, zero := PerPage(recordSize), seq(recordSize, _ => 0 as Byte);
      numPages, firstFree, pages, chain := 1, RecordFile.NO_PAGE, map[], [];
    }

    /** The record at a rid; None for a rid that holds none. */
    method GetRecord(rid: Rid) returns (r: Option<Bytes>)
      requires Valid() && HasSlot(State(), rid)
      ensures r == if rid in View(State()) then Some(View(State())[rid]) else None
    {
      ViewHas(State(), rid);
      if IsSet(pages[rid.page].bitmap, rid.slot) {
        return Some(pages[rid.page].slots[rid.slot]);
      }
      return None;
    }

    /** A page that is not full: the first of the free list, or a new one. */
    method CreatePage() returns (no: int)
      requires Valid()
      modifies this
      ensures Valid() && View(State()) == old(View(State())) && numPages >= old(numPages)
      ensures chain != [] && no == chain[0] == firstFree
    {
      no := firstFree;
      if no == numPages || no == RecordFile.NO_PAGE {
        assert 0 < |chain| ==> LinkOk(State(), 0);
        GrownOk(State(), zero);
        no := numPages;
        firstFree := no;
        numPages := numPages + 1;
        pages := pages[no := Blank(perPage, numPages, zero)];
        chain := [no];
      }
    }

    /** Puts a record into the first free slot of the first page that is not full. */
    method InsertRecord(data: Bytes) returns (rid: Rid)
      requires Valid()
      modifies this
      ensures Valid() && rid !in old(View(State())) && View(State()) == old(View(State()))[rid := data]
    {
      var no := CreatePage();
      var s := FreeSlot(no);
      StoredOk(State(), s, data);
      ViewHas(State(), Rid(no, s));
      StoreAt(no, s, data);
      return Rid(no, s);
    }

    /** The first slot that is not in use, of the first page of the free list. */
    method FreeSlot(no: int) returns (s: nat)
      requires Valid() && chain != [] && no == chain[0]
      ensures CanStore(State(), s)
    {
      assert LinkOk(State(), 0);
      assert PageOk(State(), no, 0);
      var page := pages[no];
      CountFull(page.bitmap, perPage);
      s := NextBit(false, page.bitmap, perPage, -1);
      assert s < perPage;
    }

    /** Puts a record into a free slot; a page that is now full leaves the list. */
    method StoreAt(no: int, s: nat, data: Bytes)
      requires CanStore(State(), s) && no == chain[0]
      modifies this
      ensures State() == Stored(old(State()), s, data)
    {
      var page := pages[no];
      page := Page(page.nextFree, page.numRecords + 1, Set(page.bitmap, s), page.slots[s := data]);
      pages := pages[no := page];
      if page.numRecords == perPage {
        firstFree := page.nextFree;
        chain := chain[1..];
      }
    }

    /** Puts a full page back on the free list, in its place. */
    method ReleasePage(no: int)
      requires Valid() && 1 <= no < numPages && no in pages && no !in chain
      modifies this
      ensures OkBut(State(), no) && no in chain && View(State()) == old(View(State())) && numPages == old(numPages)
      ensures forall r | Live(old(State()), r) :: Live(State(), r)
    {
      ghost var f := State();
      if no > firstFree {
        var prev := firstFree;
        ghost var k := 0;
        assert chain != [] && LinkOk(f, 0);
        while pages[prev].nextFree != RecordFile.NO_PAGE && pages[prev].nextFree < no
          invariant State() == f && 0 <= k < |chain| && prev == chain[k] < no && LinkOk(f, k)
          decreases |chain| - k
        {
          prev := pages[prev].nextFree;
          k := k + 1;
          assert LinkOk(f, k);
        }
        assert k + 1 < |chain| ==> LinkOk(f, k + 1);
        assert Belongs(f, no, k);
        pages := pages[no := pages[no].(nextFree := pages[prev].nextFree)];
        pages := pages[prev := pages[prev].(nextFree := no)];
        chain := InsertAt(chain, k + 1, no);
        RelinkedOk(f, no, k);
        assert State() == Relinked(f, no, k);
      } else if no < firstFree {
        assert Belongs(f, no, -1);
        pages := pages[no := pages[no].(nextFree := firstFree)];
        firstFree := no;
        chain := InsertAt(chain, 0, no);
        RelinkedOk(f, no, -1);
        assert State() == Relinked(f, no, -1);
      } else {
        assert false;
      }
    }

    /** Removes the record at a live rid; a page that was full goes back on the free list. */
    method DeleteRecord(rid: Rid)
      requires Valid() && rid in View(State())
      modifies this
      ensures Valid() && View(State()) == old(View(State())) - {rid}
    {
      ghost var f := State();
      ViewHas(f, rid);
      assert PageOk(f, rid.page, 0);
      ghost var open := 0;
      if pages[rid.page].numRecords == perPage {
        ReleasePage(rid.page);
        open := rid.page;
      }
      ClearSlot(rid, open);
    }

    /** Clears the slot of a live rid whose page is on the free list. */
    method ClearSlot(rid: Rid, ghost open: int)
      requires OkBut(State(), open) && Live(State(), rid) && rid.page in chain && (open == rid.page || open == 0)
      modifies this
      ensures Valid() && View(State()) == old(View(State())) - {rid}
    {
      ghost var g := State();
      ErasedOk(g, rid, open);
      RecordCounted(g, rid, open);
      var page := pages[rid.page];
      pages := pages[rid.page := page.(numRecords := page.numRecords - 1, bitmap := Reset(page.bitmap, rid.slot))];
      assert State() == Erased(g, rid);
    }

    /** Replaces the record at a live rid. */
    method UpdateRecord(rid: Rid, data: Bytes)
      requires Valid() && rid in View(State())
      modifies this
      ensures Valid() && View(State()) == old(View(State()))[rid := data]
    {
      ghost var f := State();
      ViewHas(f, rid);
      OverwrittenOk(f, rid, data);
      pages := pages[rid.page := pages[rid.page].(slots := pages[rid.page].slots[rid.slot := data])];
      assert State() == Overwritten(f, rid, data);
    }
  }

  lemma RecordCounted(f: File, rid: Rid, open: int)
    requires OkBut(f, open) && Live(f, rid)
    ensures f.pages[rid.page].numRecords > 0 && Bucket(rid.slot) < |f.pages[rid.page].bitmap|
  {
    assert PageOk(f, rid.page, open);
    CountFull(f.pages[rid.page].bitmap, f.perPage);
  }

  // ---------------------------------------------------------------- the scan

  const END := Rid(-1, -1)

  ghost predicate Before(a: Rid, b: Rid)
  {
    a.page < b.page || (a.page == b.page && a.slot < b.slot)
  }

  /** `r` is the first live rid behind `a`, or the end if there is none. */
  ghost predicate NextLive(f: File, a: Rid, r: Rid)
  {
    if r == END then forall x {:trigger Live(f, x)} | Live(f, x) :: !Before(a, x)
    else Live(f, r) && Before(a, r) && forall x {:trigger Live(f, x)} | Live(f, x) && Before(a, x) ::
      r == x || Before(r, x)
  }

  class RmScan {
    const file: FileHandle
    var rid: Rid

    ghost predicate Valid()
      reads this, file
    {
      file.Valid() && (rid == END || Live(file.State(), rid))
    }

    /** Starts at the first record of the file. */
    constructor (file: FileHandle)
      requires file.Valid()
      ensures Valid() && this.file == file && NextLive(file.State(), Rid(0, 0), rid)
    {
      this.file := file;
      rid := END;
      new;
      var pageNo := 1;
      while pageNo < file.numPages
        invariant 1 <= pageNo && rid == END && file.Valid()
        invariant forall x {:trigger Live(file.State(), x)} | Live(file.State(), x) :: x.page >= pageNo
      {
        assert PageOk(file.State(), pageNo, 0);
        var firstOne := NextBit(true, file.pages[pageNo].bitmap, file.perPage, -1);
        if firstOne < file.perPage {
          rid := Rid(pageNo, firstOne);
          return;
        }
        pageNo := pageNo + 1;
      }
    }

    predicate IsEnd()
      reads this
    {
      rid.page == -1 && rid.slot == -1
    }

    /** Goes to the next record. */
    method Next()
      requires Valid() && !IsEnd()
      modifies this
      ensures Valid() && NextLive(file.State(), old(rid), rid)
    {
      var curr := rid.slot;
      var pageNo := rid.page;
      while pageNo < file.numPages
        invariant rid == old(rid) && rid.page <= pageNo && file.Valid() && -1 <= curr < file.perPage
        invariant pageNo == rid.page ==> curr == rid.slot
        invariant pageNo > rid.page ==> curr == -1
        invariant forall x {:trigger Live(file.State(), x)} | Live(file.State(), x) && Before(rid, x) ::
          x.page >= pageNo
      {
        assert PageOk(file.State(), pageNo, 0);
        var firstOne := NextBit(true, file.pages[pageNo].bitmap, file.perPage, curr);
        curr := -1;
        if firstOne < file.perPage {
          rid := Rid(pageNo, firstOne);
          return;
        }
        pageNo := pageNo + 1;
      }
      rid := END;
    }
  }

  ghost predicate Ascends(rs: seq<Rid>)
  {
    forall i, j {:trigger rs[i], rs[j]} | 0 <= i < j < |rs| :: Before(rs[i], rs[j])
  }

  /** A whole scan: every live rid once, in ascending order, and then the end. */
  method ScanAll(file: FileHandle) returns (rs: seq<Rid>)
    requires file.Valid()
    ensures Ascends(rs) && forall r :: r in rs <==> r in View(file.State())
  {
    var scan := new RmScan(file);
    rs := [];
    ghost var at := Rid(0, 0);
    while !scan.IsEnd()
      invariant scan.Valid() && scan.file == file && fresh(scan) && Ascends(rs) && NextLive(file.State(), at, scan.rid)
      invariant if rs == [] then at == Rid(0, 0) else at == rs[|rs| - 1]
      invariant forall r {:trigger Live(file.State(), r)} ::
        r in rs <==> Live(file.State(), r) && (Before(r, at) || r == at)
      decreases file.numPages - at.page, file.perPage - at.slot
    {
      rs := rs + [scan.rid];
      at := scan.rid;
      scan.Next();
    }
    forall r ensures r in rs <==> r in View(file.State()) {
      ViewHas(file.State(), r);
    }
  }
}
