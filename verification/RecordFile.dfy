/**
  The record file: slotted pages with bitmaps, and the list of the pages that are not full, which is kept in
  ascending order through the pages themselves and ends at the number of pages.
 */
module RecordFile {
  import opened Common
  import opened Sequences
  import opened Bitmap

  datatype Page = Page(nextFree: int, numRecords: nat, bitmap: Bits, slots: seq<Bytes>)

  const NO_PAGE := -1

  /** A state of the file. `chain`: the pages of the free list in list order. */
  datatype File = File(perPage: nat, numPages: int, firstFree: int, pages: map<int, Page>, chain: seq<int>)

  // ---------------------------------------------------------------- the layout of a page

  const PAGE_SIZE := 4096
  const FILE_HDR_SIZE := 20
  const PAGE_HDR_OFFSET := 4
  const PAGE_HDR_SIZE := 8

  function PerPage(recordSize: nat): nat
  {
    (WIDTH * (PAGE_SIZE - 1 - FILE_HDR_SIZE) + 1) / (1 + recordSize * WIDTH)
  }

  function BitmapSize(perPage: nat): nat
  {
    (perPage + WIDTH - 1) / WIDTH
  }

  /**
    For every record size that is allowed a page holds a record, and header, bitmap and slots fit into it; behind a
    header as long as the file's, one record more would not leave a byte.
   */
  lemma PageFits(recordSize: nat)
    requires 1 <= recordSize <= 512
    ensures var n := PerPage(recordSize);
            && n >= 1 && PAGE_HDR_OFFSET + PAGE_HDR_SIZE + BitmapSize(n) + n * recordSize <= PAGE_SIZE
            && FILE_HDR_SIZE + BitmapSize(n + 1) + (n + 1) * recordSize >= PAGE_SIZE
  {
    var n, d := PerPage(recordSize), 1 + recordSize * WIDTH;
    assert n * d <= 32601 < (n + 1) * d;
    assert n * d == n + WIDTH * (n * recordSize);
    assert n >= 1 by {
      assert d <= 4097;
      assert (0 + 1) * d <= 4097;
    }
    assert WIDTH * BitmapSize(n) <= n + WIDTH - 1;
    assert (n + 1) * d == n + 1 + WIDTH * ((n + 1) * recordSize);
    assert n + 1 <= WIDTH * BitmapSize(n + 1);
  }

  // ---------------------------------------------------------------- the invariant

  ghost predicate HasSlot(f: File, rid: Rid)
  {
    1 <= rid.page < f.numPages && rid.page in f.pages && 0 <= rid.slot < f.perPage
      && rid.slot < |f.pages[rid.page].slots|
  }

  /** A record lives at `rid`. */
  ghost predicate Live(f: File, rid: Rid)
  {
    HasSlot(f, rid) && IsSet(f.pages[rid.page].bitmap, rid.slot)
  }

  ghost function BytesAt(f: File, rid: Rid): Bytes
  {
    if HasSlot(f, rid) then f.pages[rid.page].slots[rid.slot] else []
  }

  /** What the file stands for: the bytes of every live rid. */
  ghost function View(f: File): map<Rid, Bytes>
  {
    map p, s | 1 <= p < f.numPages && 0 <= s < f.perPage && Live(f, Rid(p, s)) :: Rid(p, s) := BytesAt(f, Rid(p, s))
  }

  lemma ViewIs(f: File, v: map<Rid, Bytes>)
    requires forall r :: r in v <==> Live(f, r)
    requires forall r | r in v :: v[r] == BytesAt(f, r)
    ensures View(f) == v
  {
    forall r ensures r in View(f) <==> r in v {
      assert r == Rid(r.page, r.slot);
    }
  }

  lemma ViewHas(f: File, r: Rid)
    ensures r in View(f) <==> Live(f, r)
    ensures r in View(f) ==> View(f)[r] == BytesAt(f, r)
  {
    assert r == Rid(r.page, r.slot);
  }

  /** What happens at every rid decides what happens to the view. */
  lemma ViewPut(f: File, g: File, rid: Rid, data: Bytes)
    requires forall r {:trigger Live(g, r)} :: Live(g, r) <==> r == rid || Live(f, r)
    requires forall r {:trigger BytesAt(g, r)} | Live(g, r) :: BytesAt(g, r) == if r == rid then data else BytesAt(f, r)
    ensures View(g) == View(f)[rid := data]
  {
    forall r ensures r in View(f) <==> Live(f, r) ensures r in View(f) ==> View(f)[r] == BytesAt(f, r) {
      ViewHas(f, r);
    }
    ViewIs(g, View(f)[rid := data]);
  }

  lemma ViewDrop(f: File, g: File, rid: Rid)
    requires forall r {:trigger Live(g, r)} :: Live(g, r) <==> r != rid && Live(f, r)
    requires forall r {:trigger BytesAt(g, r)} | Live(g, r) :: BytesAt(g, r) == BytesAt(f, r)
    ensures View(g) == View(f) - {rid}
  {
    forall r ensures r in View(f) <==> Live(f, r) ensures r in View(f) ==> View(f)[r] == BytesAt(f, r) {
      ViewHas(f, r);
    }
    ViewIs(g, View(f) - {rid});
  }

  /**
    The page counts its records, and it is on the free list exactly when it is not full. Page `open`, from which a
    record is about to be removed, is on the list while it is still full.
   */
  ghost predicate PageOk(f: File, p: int, open: int)
  {
    && p in f.pages
    && |f.pages[p].bitmap| == BitmapSize(f.perPage)
    && |f.pages[p].slots| == f.perPage
    && f.pages[p].numRecords == Count(f.pages[p].bitmap, f.perPage)
    && (p in f.chain <==> p == open || f.pages[p].numRecords < f.perPage)
  }

  /** Where the list goes after its `i`-th page. */
  ghost function After(f: File, i: int): int
    requires -1 <= i < |f.chain|
  {
    if i + 1 < |f.chain| then f.chain[i + 1] else f.numPages
  }

  ghost predicate LinkOk(f: File, i: nat)
  {
    && i < |f.chain|
    && 1 <= f.chain[i] < After(f, i) <= f.numPages
    && f.chain[i] in f.pages
    && f.pages[f.chain[i]].nextFree == After(f, i)
  }

  ghost predicate OkBut(f: File, open: int)
  {
    && f.perPage >= 1 && f.numPages >= 1
    && (forall p {:trigger PageOk(f, p, open)} | 1 <= p < f.numPages :: PageOk(f, p, open))
    && (forall i {:trigger LinkOk(f, i)} | 0 <= i < |f.chain| :: LinkOk(f, i))
    && (f.firstFree == After(f, -1) || (f.firstFree == NO_PAGE && f.numPages == 1))
  }

  ghost predicate Ok(f: File)
  {
    OkBut(f, 0)
  }

  /** The free list ascends strictly. */
  lemma {:induction false} ChainAscends(f: File, open: int, i: nat, j: nat)
    requires OkBut(f, open) && i < j < |f.chain|
    ensures 1 <= f.chain[i] < f.chain[j] < f.numPages
    decreases j - i
  {
    assert LinkOk(f, i) && LinkOk(f, j);
    if i + 1 < j {
      ChainAscends(f, open, i + 1, j);
    }
  }

  /**
    The free list holds exactly the pages that are not full and starts at `firstFree`; an empty list starts at its
    end.
   */
  lemma FreeList(f: File, p: int)
    requires Ok(f) && 1 <= p < f.numPages
    ensures p in f.chain <==> exists s | 0 <= s < f.perPage :: !Live(f, Rid(p, s))
    ensures f.firstFree == if f.chain == [] then f.numPages else f.chain[0]
    ensures p in f.pages && f.pages[p].numRecords == Count(f.pages[p].bitmap, f.perPage)
  {
    assert PageOk(f, p, 0);
    CountFull(f.pages[p].bitmap, f.perPage);
    if s :| 0 <= s < f.perPage && !IsSet(f.pages[p].bitmap, s) {
      assert !Live(f, Rid(p, s));
    }
    if s :| 0 <= s < f.perPage && !Live(f, Rid(p, s)) {
      assert !IsSet(f.pages[p].bitmap, s);
    }
  }

  /** A chain position is the position of its page only. */
  lemma ChainAt(f: File, open: int, i: nat, j: nat)
    requires OkBut(f, open) && i < |f.chain| && j < |f.chain| && i != j
    ensures f.chain[i] != f.chain[j]
  {
    if i < j {
      ChainAscends(f, open, i, j);
    } else {
      ChainAscends(f, open, j, i);
    }
  }

  // ---------------------------------------------------------------- a new page

  function Blank(perPage: nat, next: int, zero: Bytes): Page
  {
    Page(next, 0, seq(BitmapSize(perPage), _ => 0), seq(perPage, _ => zero))
  }

  lemma BlankEmpty(perPage: nat, next: int, zero: Bytes, s: nat)
    ensures !IsSet(Blank(perPage, next, zero).bitmap, s)
  {
  }

  /** The file with one more page, zeroed, which is the whole free list. */
  ghost function Grown(f: File, zero: Bytes): File
  {
    File(f.perPage, f.numPages + 1, f.numPages, f.pages[f.numPages := Blank(f.perPage, f.numPages + 1, zero)],
      [f.numPages])
  }

  lemma GrownOk(f: File, zero: Bytes)
    requires Ok(f) && f.chain == []
    ensures Ok(Grown(f, zero)) && View(Grown(f, zero)) == View(f)
  {
    var g := Grown(f, zero);
    var blank := Blank(f.perPage, f.numPages + 1, zero);
    forall s: nat ensures !IsSet(blank.bitmap, s) {
      BlankEmpty(f.perPage, f.numPages + 1, zero, s);
    }
    CountFull(blank.bitmap, f.perPage);
    assert LinkOk(g, 0);
    forall p | 1 <= p < g.numPages ensures PageOk(g, p, 0) {
      assert p < f.numPages ==> PageOk(f, p, 0);
    }
    forall r ensures r in View(f) <==> Live(g, r) ensures r in View(f) ==> View(f)[r] == BytesAt(g, r) {
      ViewHas(f, r);
    }
    ViewIs(g, View(f));
  }

  // ---------------------------------------------------------------- putting and removing a record

  /** Page `p` replaced by `page`. */
  ghost function WithPage(f: File, p: int, page: Page): File
  {
    f.(pages := f.pages[p := page])
  }

  /** The file with `data` put into slot `s` of its first free page; a page that is now full leaves the list. */
  ghost function Stored(f: File, s: nat, data: Bytes): File
    requires f.chain != [] && f.chain[0] in f.pages
    requires Bucket(s) < |f.pages[f.chain[0]].bitmap| && s < |f.pages[f.chain[0]].slots|
  {
    var p := f.chain[0];
    var page := f.pages[p];
    var g := WithPage(f, p, Page(page.nextFree, page.numRecords + 1, Set(page.bitmap, s), page.slots[s := data]));
    if page.numRecords + 1 == f.perPage then g.(firstFree := page.nextFree, chain := f.chain[1..]) else g
  }

  ghost predicate CanStore(f: File, s: nat)
  {
    && Ok(f) && f.chain != [] && s < f.perPage && f.chain[0] in f.pages
    && Bucket(s) < |f.pages[f.chain[0]].bitmap| && s < |f.pages[f.chain[0]].slots|
    && !IsSet(f.pages[f.chain[0]].bitmap, s)
  }

  lemma StoredPages(f: File, s: nat, data: Bytes, p: int)
    requires CanStore(f, s) && 1 <= p < f.numPages
    ensures PageOk(Stored(f, s, data), p, 0)
  {
    var h, g := f.chain[0], Stored(f, s, data);
    assert PageOk(f, p, 0) && PageOk(f, h, 0) by {
      assert LinkOk(f, 0);
    }
    CountSet(f.pages[h].bitmap, s, f.perPage);
    if p in f.chain && p != h {
      var i :| 0 <= i < |f.chain| && f.chain[i] == p;
      assert i > 0 && f.chain[1..][i - 1] == p;
    }
    if h in f.chain[1..] {
      var i :| 0 <= i < |f.chain[1..]| && f.chain[1..][i] == h;
      ChainAt(f, 0, 0, i + 1);
    }
  }

  lemma StoredLinks(f: File, s: nat, data: Bytes, i: nat)
    requires CanStore(f, s) && i < |Stored(f, s, data).chain|
    ensures LinkOk(Stored(f, s, data), i)
  {
    var g := Stored(f, s, data);
    if |g.chain| == |f.chain| {
      assert LinkOk(f, i);
      if i > 0 {
        ChainAt(f, 0, 0, i);
      }
    } else {
      assert LinkOk(f, i + 1);
      ChainAt(f, 0, 0, i + 1);
    }
  }

  lemma StoredOk(f: File, s: nat, data: Bytes)
    requires CanStore(f, s)
    ensures var g := Stored(f, s, data);
            Ok(g) && !Live(f, Rid(f.chain[0], s)) && View(g) == View(f)[Rid(f.chain[0], s) := data]
  {
    var g, rid := Stored(f, s, data), Rid(f.chain[0], s);
    assert LinkOk(f, 0);
    forall p | 1 <= p < g.numPages ensures PageOk(g, p, 0) {
      StoredPages(f, s, data, p);
    }
    forall i | 0 <= i < |g.chain| ensures LinkOk(g, i) {
      StoredLinks(f, s, data, i);
    }
    forall r ensures Live(g, r) <==> r == rid || Live(f, r) {
      if HasSlot(f, r) {
        SetAndReset(f.pages[rid.page].bitmap, s, r.slot);
      }
      assert PageOk(f, rid.page, 0);
    }
    ViewPut(f, g, rid, data);
  }

  /** The file with the record at a live rid removed. */
  ghost function Erased(f: File, rid: Rid): File
    requires Live(f, rid)
  {
    var page := f.pages[rid.page];
    WithPage(f, rid.page,
      page.(numRecords := if page.numRecords > 0 then page.numRecords - 1 else 0,
            bitmap := Reset(page.bitmap, rid.slot)))
  }

  lemma ErasedOk(f: File, rid: Rid, open: int)
    requires OkBut(f, open) && Live(f, rid) && rid.page in f.chain
    requires open == rid.page || open == 0
    ensures var g := Erased(f, rid); Ok(g) && View(g) == View(f) - {rid}
  {
    var g, page := Erased(f, rid), f.pages[rid.page];
    assert PageOk(f, rid.page, open);
    CountSet(page.bitmap, rid.slot, f.perPage);
    forall p | 1 <= p < g.numPages ensures PageOk(g, p, 0) {
      assert PageOk(f, p, open);
    }
    forall i | 0 <= i < |g.chain| ensures LinkOk(g, i) {
      assert LinkOk(f, i);
    }
    forall r ensures Live(g, r) <==> r != rid && Live(f, r) {
      if HasSlot(f, r) {
        SetAndReset(page.bitmap, rid.slot, r.slot);
      }
    }
    ViewDrop(f, g, rid);
  }

  /** The file with other bytes at a rid. */
  ghost function Overwritten(f: File, rid: Rid, data: Bytes): File
    requires HasSlot(f, rid)
  {
    var page := f.pages[rid.page];
    WithPage(f, rid.page, page.(slots := page.slots[rid.slot := data]))
  }

  lemma OverwrittenOk(f: File, rid: Rid, data: Bytes)
    requires Ok(f) && Live(f, rid)
    ensures var g := Overwritten(f, rid, data); Ok(g) && View(g) == View(f)[rid := data]
  {
    var g := Overwritten(f, rid, data);
    forall p | 1 <= p < g.numPages ensures PageOk(g, p, 0) {
      assert PageOk(f, p, 0);
    }
    forall i | 0 <= i < |g.chain| ensures LinkOk(g, i) {
      assert LinkOk(f, i);
    }
    ViewPut(f, g, rid, data);
  }

  // ---------------------------------------------------------------- a full page goes back to the list

  /** Page `p` inserted into the free list behind its `k`-th page, or in front for -1. */
  ghost function Relinked(f: File, p: int, k: int): File
    requires -1 <= k < |f.chain| && p in f.pages && (k >= 0 ==> f.chain[k] in f.pages)
  {
    var pages := f.pages[p := f.pages[p].(nextFree := After(f, k))];
    f.(pages := if k >= 0 && f.chain[k] in pages then pages[f.chain[k] := pages[f.chain[k]].(nextFree := p)] else pages,
       firstFree := if k >= 0 then f.firstFree else p,
       chain := InsertAt(f.chain, k + 1, p))
  }

  /** `p` is a full page that belongs right behind the `k`-th page of the list. */
  ghost predicate Belongs(f: File, p: int, k: int)
  {
    && Ok(f) && 1 <= p < f.numPages && -1 <= k < |f.chain| && p !in f.chain && p in f.pages
    && (k >= 0 ==> f.chain[k] in f.pages && f.chain[k] < p)
    && p < After(f, k)
  }

  lemma RelinkedLinks(f: File, p: int, k: int, i: nat)
    requires Belongs(f, p, k) && i <= |f.chain|
    ensures LinkOk(Relinked(f, p, k), i)
  {
    var g := Relinked(f, p, k);
    if i <= k {
      assert LinkOk(f, i);
      if i < k {
        ChainAt(f, 0, i, k);
        assert g.chain[i + 1] == f.chain[i + 1];
      }
    } else if i == k + 1 {
      assert k + 1 < |f.chain| ==> g.chain[i + 1] == f.chain[k + 1] && LinkOk(f, k + 1);
    } else {
      assert LinkOk(f, i - 1);
      if k >= 0 {
        ChainAt(f, 0, i - 1, k);
      }
      assert i < |f.chain| ==> g.chain[i + 1] == f.chain[i];
    }
  }

  lemma RelinkedPages(f: File, p: int, k: int, q: int)
    requires Belongs(f, p, k) && 1 <= q < f.numPages
    ensures PageOk(Relinked(f, p, k), q, p)
  {
    var g := Relinked(f, p, k);
    assert PageOk(f, q, 0);
    assert g.chain[k + 1] == p;
    if q in f.chain {
      var i :| 0 <= i < |f.chain| && f.chain[i] == q;
      assert g.chain[if i <= k then i else i + 1] == q;
    }
    if q in g.chain && q != p {
      var i :| 0 <= i < |g.chain| && g.chain[i] == q;
      assert f.chain[if i <= k then i else i - 1] == q;
    }
  }

  /** The list stays in order, and no record changes. */
  lemma RelinkedOk(f: File, p: int, k: int)
    requires Belongs(f, p, k)
    ensures var g := Relinked(f, p, k);
            OkBut(g, p) && p in g.chain && (forall r :: Live(g, r) <==> Live(f, r)) && View(g) == View(f)
  {
    var g := Relinked(f, p, k);
    assert PageOk(f, p, 0);
    if k >= 0 {
      assert LinkOk(f, k);
    }
    forall i | 0 <= i < |g.chain| ensures LinkOk(g, i) {
      RelinkedLinks(f, p, k, i);
    }
    forall q | 1 <= q < g.numPages ensures PageOk(g, q, p) {
      RelinkedPages(f, p, k, q);
    }
    assert g.chain[k + 1] == p;
    forall r ensures r in View(f) <==> Live(g, r) ensures r in View(f) ==> View(f)[r] == BytesAt(g, r) {
      ViewHas(f, r);
    }
    ViewIs(g, View(f));
  }
}
