/**
  The buffer pool as a cache that cannot be seen: frames, page table, free list, replacer and disk together stand for
  one map from page ids to bytes.
 */
module BufferPool {
  import opened Common
  import opened Sequences
  import opened Replacer

  datatype PageId = PageId(fd: int, page: int)

  const NO_PAGE := PageId(0, -1)
  const ZEROED := PageId(0, 0)

  /** Deleted frames carry the zeroed id, and frames never used an invalid page number, so no page has such an id. */
  predicate Real(pid: PageId)
  {
    pid.page >= 0 && pid != ZEROED
  }

  datatype Frame = Frame(id: PageId, data: Bytes, dirty: bool, pins: nat)

  /**
    A state of the pool. `touched`: the pages whose holders have changed the bytes, or have just created the page,
    and have not said so yet.
   */
  datatype Pool = Pool(frames: seq<Frame>, table: map<PageId, nat>, free: seq<nat>, lru: seq<nat>,
                       disk: map<PageId, Bytes>, touched: set<PageId>)

  /** The bytes of every page, wherever they are. */
  ghost function View(p: Pool): map<PageId, Bytes>
  {
    map pid | pid in p.table.Keys + p.disk.Keys :: BytesOf(p, pid)
  }

  ghost function BytesOf(p: Pool, pid: PageId): Bytes
  {
    if pid in p.table && p.table[pid] < |p.frames| then p.frames[p.table[pid]].data
    else if pid in p.disk then p.disk[pid] else []
  }

  lemma ViewIs(p: Pool, v: map<PageId, Bytes>)
    requires forall x :: x in v <==> x in p.table || x in p.disk
    requires forall x | x in v :: v[x] == BytesOf(p, x)
    ensures View(p) == v
  {
  }

  /**
    A frame is on the free list and empty, or mapped by the id it repeats; it can be evicted exactly when it is mapped
    and not pinned.
   */
  ghost predicate FrameOk(p: Pool, f: nat)
  {
    && f < |p.frames|
    && var fr := p.frames[f];
    && (if f in p.free then fr.pins == 0 && !fr.dirty && !Real(fr.id) else fr.id in p.table && p.table[fr.id] == f)
    && (fr.pins == 0 && f !in p.free ==> f in p.lru)
    && (f in p.lru ==> fr.pins == 0)
  }

  /** A page that is neither dirty nor touched is on disk as it is in its frame; a touched page is pinned. */
  ghost predicate PageOk(p: Pool, pid: PageId)
  {
    && Real(pid) && pid in p.table && p.table[pid] < |p.frames|
    && var fr := p.frames[p.table[pid]];
    && fr.id == pid
    && p.table[pid] !in p.free
    && (pid in p.touched ==> fr.pins > 0)
    && (!fr.dirty && pid !in p.touched ==> pid in p.disk && p.disk[pid] == fr.data)
  }

  ghost predicate Ok(p: Pool)
  {
    && (forall f {:trigger FrameOk(p, f)} | 0 <= f < |p.frames| :: FrameOk(p, f))
    && (forall pid {:trigger PageOk(p, pid)} | pid in p.table :: PageOk(p, pid))
    && NoDup(p.free) && NoDup(p.lru)
    && (forall f | f in p.free :: f < |p.frames|)
    && (forall f | f in p.lru :: f < |p.frames|)
    && (forall pid | pid in p.touched :: pid in p.table)
  }

  ghost predicate Pinned(p: Pool, pid: PageId)
  {
    pid in p.table && p.table[pid] < |p.frames| && p.frames[p.table[pid]].pins > 0
  }

  /** How many holders page `pid` has. */
  ghost function PinsOf(p: Pool, pid: PageId): nat
  {
    if pid in p.table && p.table[pid] < |p.frames| then p.frames[p.table[pid]].pins else 0
  }

  /** Page `pid` has `d` holders more, and every other page as many as before. */
  ghost predicate PinsMove(p: Pool, q: Pool, pid: PageId, d: int)
  {
    forall x {:trigger PinsOf(q, x)} :: PinsOf(q, x) == PinsOf(p, x) + if x == pid then d else 0
  }

  /** Pinned pages stay in their frames with their bytes, so the pointers that were handed out stay good. */
  ghost predicate PinnedStay(p: Pool, q: Pool)
  {
    forall pid {:trigger Stays(p, q, pid)} | Pinned(p, pid) :: Stays(p, q, pid)
  }

  ghost predicate Stays(p: Pool, q: Pool, pid: PageId)
  {
    Pinned(p, pid) && Pinned(q, pid) && q.table[pid] == p.table[pid]
      && q.frames[q.table[pid]].data == p.frames[p.table[pid]].data
  }

  /** There is a frame to put a page into. */
  ghost predicate SomeUnpinned(p: Pool)
  {
    exists f | 0 <= f < |p.frames| :: p.frames[f].pins == 0
  }

  lemma UnpinnedFrames(p: Pool)
    requires Ok(p)
    ensures SomeUnpinned(p) <==> p.free != [] || p.lru != []
  {
    if p.free != [] {
      assert p.free[0] in p.free && FrameOk(p, p.free[0]);
    }
    if p.lru != [] {
      assert p.lru[0] in p.lru && FrameOk(p, p.lru[0]);
    }
    if f :| 0 <= f < |p.frames| && p.frames[f].pins == 0 {
      assert FrameOk(p, f);
    }
  }

  // ---------------------------------------------------------------- putting a page into a frame

  /** The frame that the next page goes to: the head of the free list, or else the least recently unpinned one. */
  ghost function Chosen(p: Pool): nat
    requires p.free != [] || p.lru != []
  {
    if p.free != [] then p.free[0] else p.lru[|p.lru| - 1]
  }

  /** Writing back what frame `f` holds. */
  function WrittenBack(disk: map<PageId, Bytes>, fr: Frame): map<PageId, Bytes>
  {
    if fr.dirty then disk[fr.id := fr.data] else disk
  }

  /** The pool after page `pid` has taken the chosen frame, with one pin. */
  ghost function Loaded(p: Pool, pid: PageId, data: Bytes, touched: set<PageId>): Pool
    requires p.free != [] || p.lru != []
    requires Chosen(p) < |p.frames|
  {
    var f := Chosen(p);
    var fr := p.frames[f];
    Pool(p.frames[f := Frame(pid, data, false, 1)], (p.table - {fr.id})[pid := f],
         if p.free != [] then p.free[1..] else p.free, Without(p.lru, f), WrittenBack(p.disk, fr), touched)
  }

  lemma ChosenOk(p: Pool)
    requires Ok(p) && (p.free != [] || p.lru != [])
    ensures var f := Chosen(p);
            && f < |p.frames| && p.frames[f].pins == 0
            && (if p.free != [] then p.frames[f].id !in p.table && !p.frames[f].dirty && !Real(p.frames[f].id)
                else p.frames[f].id in p.table && p.table[p.frames[f].id] == f && PageOk(p, p.frames[f].id))
  {
    var f := Chosen(p);
    assert p.free != [] ==> f in p.free;
    assert p.free == [] ==> f in p.lru;
    assert FrameOk(p, f);
    if p.frames[f].id in p.table {
      assert PageOk(p, p.frames[f].id);
    }
  }

  lemma TailHas(s: seq<nat>)
    requires NoDup(s) && s != []
    ensures NoDup(s[1..]) && forall g :: g in s[1..] <==> g in s && g != s[0]
  {
    assert s == [s[0]] + s[1..];
  }

  lemma LoadedFrames(p: Pool, pid: PageId, data: Bytes, touched: set<PageId>, g: nat)
    requires Ok(p) && (p.free != [] || p.lru != []) && pid !in p.table && Real(pid) && g < |p.frames|
    requires Chosen(p) < |p.frames|
    ensures FrameOk(Loaded(p, pid, data, touched), g)
  {
    var f, q := Chosen(p), Loaded(p, pid, data, touched);
    ChosenOk(p);
    if p.free != [] {
      TailHas(p.free);
    }
    WithoutHas(p.lru, f);
    assert FrameOk(p, g);
    if g == f {
      assert g !in q.free && g !in q.lru && q.frames[g].id in q.table;
    } else {
      assert g in q.free <==> g in p.free;
      assert g in q.lru <==> g in p.lru;
    }
  }

  lemma LoadedPages(p: Pool, pid: PageId, data: Bytes, touched: set<PageId>, x: PageId)
    requires Ok(p) && (p.free != [] || p.lru != []) && pid !in p.table && Real(pid)
    requires Chosen(p) < |p.frames| && x in Loaded(p, pid, data, touched).table
    requires touched == p.touched || touched == p.touched + {pid}
    requires pid in touched || (pid in p.disk && data == p.disk[pid])
    ensures PageOk(Loaded(p, pid, data, touched), x)
  {
    var f := Chosen(p);
    ChosenOk(p);
    if p.free != [] {
      TailHas(p.free);
    }
    if x != pid {
      assert PageOk(p, x);
    }
  }

  /** Bringing a page in evicts nothing that can be seen. */
  lemma LoadedOk(p: Pool, pid: PageId, data: Bytes, touched: set<PageId>)
    requires Ok(p) && (p.free != [] || p.lru != []) && pid !in p.table && Real(pid) && Chosen(p) < |p.frames|
    requires touched == p.touched || touched == p.touched + {pid}
    requires pid in touched || (pid in p.disk && data == p.disk[pid])
    ensures var q := Loaded(p, pid, data, touched); Ok(q) && View(q) == View(p)[pid := data] && PinnedStay(p, q)
  {
    var f, q := Chosen(p), Loaded(p, pid, data, touched);
    ChosenOk(p);
    forall g | 0 <= g < |q.frames| ensures FrameOk(q, g) {
      LoadedFrames(p, pid, data, touched, g);
    }
    forall x | x in q.table ensures PageOk(q, x) {
      LoadedPages(p, pid, data, touched, x);
    }
    if p.free != [] {
      TailHas(p.free);
    }
    WithoutHas(p.lru, f);
    LoadedTouched(p, pid, data, touched);
    LoadedView(p, pid, data, touched);
  }

  lemma LoadedTouched(p: Pool, pid: PageId, data: Bytes, touched: set<PageId>)
    requires Ok(p) && (p.free != [] || p.lru != []) && pid !in p.table && Chosen(p) < |p.frames|
    requires touched == p.touched || touched == p.touched + {pid}
    ensures forall x | x in touched :: x in Loaded(p, pid, data, touched).table
  {
    ChosenOk(p);
  }

  lemma LoadedBytes(p: Pool, pid: PageId, data: Bytes, touched: set<PageId>, x: PageId)
    requires Ok(p) && (p.free != [] || p.lru != []) && pid !in p.table && Real(pid) && Chosen(p) < |p.frames|
    ensures var q := Loaded(p, pid, data, touched);
            && BytesOf(q, x) == (if x == pid then data else BytesOf(p, x))
            && (x in q.table || x in q.disk <==> x == pid || x in p.table || x in p.disk)
            && (Pinned(p, x) ==> Stays(p, q, x))
  {
    ChosenOk(p);
    if x in p.table {
      assert PageOk(p, x);
    }
  }

  lemma LoadedView(p: Pool, pid: PageId, data: Bytes, touched: set<PageId>)
    requires Ok(p) && (p.free != [] || p.lru != []) && pid !in p.table && Real(pid) && Chosen(p) < |p.frames|
    ensures var q := Loaded(p, pid, data, touched); View(q) == View(p)[pid := data] && PinnedStay(p, q)
  {
    var q := Loaded(p, pid, data, touched);
    forall x
      ensures BytesOf(q, x) == (if x == pid then data else BytesOf(p, x))
      ensures x in q.table || x in q.disk <==> x == pid || x in p.table || x in p.disk
      ensures Pinned(p, x) ==> Stays(p, q, x)
    {
      LoadedBytes(p, pid, data, touched, x);
    }
    ViewIs(q, View(p)[pid := data]);
  }

  /** Only a page without holders is put out; the page that came in has one. */
  lemma LoadedPins(p: Pool, pid: PageId, data: Bytes, touched: set<PageId>)
    requires Ok(p) && (p.free != [] || p.lru != []) && pid !in p.table && Chosen(p) < |p.frames|
    ensures PinsMove(p, Loaded(p, pid, data, touched), pid, 1)
  {
    var q := Loaded(p, pid, data, touched);
    ChosenOk(p);
    forall x ensures PinsOf(q, x) == PinsOf(p, x) + if x == pid then 1 else 0 {
      if x in p.table {
        assert PageOk(p, x);
      }
    }
  }

  // ---------------------------------------------------------------- steps that stay in their frame

  /** The pool with frame `f` changed in place. */
  ghost function Touch(p: Pool, f: nat, fr: Frame): Pool
    requires f < |p.frames|
  {
    p.(frames := p.frames[f := fr])
  }

  /** A step that leaves the table alone and changes one page's frame changes that page's holders only. */
  lemma FramePins(p: Pool, q: Pool, pid: PageId, d: int)
    requires Ok(p) && pid in p.table && q.table == p.table && p.table[pid] < |p.frames| == |q.frames|
    requires q.frames[p.table[pid]].pins == p.frames[p.table[pid]].pins + d
    requires forall g | 0 <= g < |p.frames| && g != p.table[pid] :: q.frames[g].pins == p.frames[g].pins
    ensures PinsMove(p, q, pid, d)
  {
    assert PageOk(p, pid);
    forall x ensures PinsOf(q, x) == PinsOf(p, x) + if x == pid then d else 0 {
      if x in p.table {
        assert PageOk(p, x);
      }
    }
  }

  /** One more pin. */
  lemma PinOk(p: Pool, pid: PageId)
    requires Ok(p) && pid in p.table && p.table[pid] < |p.frames|
    ensures var f := p.table[pid];
            var q := Touch(p, f, p.frames[f].(pins := p.frames[f].pins + 1)).(lru := Without(p.lru, f));
            Ok(q) && View(q) == View(p) && PinnedStay(p, q)
  {
    var f := p.table[pid];
    var q := Touch(p, f, p.frames[f].(pins := p.frames[f].pins + 1)).(lru := Without(p.lru, f));
    WithoutHas(p.lru, f);
    assert PageOk(p, pid);
    forall g | 0 <= g < |q.frames| ensures FrameOk(q, g) {
      assert FrameOk(p, g);
    }
    forall x | x in q.table ensures PageOk(q, x) {
      assert PageOk(p, x);
    }
  }

  ghost function AfterUnpin(p: Pool, pid: PageId, isDirty: bool): Pool
    requires pid in p.table && p.table[pid] < |p.frames| && p.frames[p.table[pid]].pins > 0
  {
    var f := p.table[pid];
    var fr := p.frames[f];
    Touch(p, f, fr.(pins := fr.pins - 1, dirty := fr.dirty || isDirty))
      .(lru := if fr.pins == 1 && f !in p.lru then [f] + p.lru else p.lru,
        touched := if isDirty then p.touched - {pid} else p.touched)
  }

  /** One pin less; a page nobody holds any more can be evicted. */
  lemma UnpinOk(p: Pool, pid: PageId, isDirty: bool)
    requires Ok(p) && pid in p.table && p.table[pid] < |p.frames| && p.frames[p.table[pid]].pins > 0
    requires p.frames[p.table[pid]].pins == 1 && pid in p.touched ==> isDirty
    ensures var q := AfterUnpin(p, pid, isDirty); Ok(q) && View(q) == View(p)
  {
    var f, q := p.table[pid], AfterUnpin(p, pid, isDirty);
    assert PageOk(p, pid) && FrameOk(p, f);
    forall g | 0 <= g < |q.frames| ensures FrameOk(q, g) {
      assert FrameOk(p, g);
    }
    forall x | x in q.table ensures PageOk(q, x) {
      assert PageOk(p, x);
    }
  }

  ghost function AfterFlush(p: Pool, pid: PageId): Pool
    requires pid in p.table && p.table[pid] < |p.frames|
  {
    var f := p.table[pid];
    Touch(p, f, p.frames[f].(dirty := false)).(disk := p.disk[pid := p.frames[f].data], touched := p.touched - {pid})
  }

  lemma FlushOk(p: Pool, pid: PageId)
    requires Ok(p) && pid in p.table && p.table[pid] < |p.frames|
    ensures var q := AfterFlush(p, pid); Ok(q) && View(q) == View(p) && PinnedStay(p, q)
  {
    var q := AfterFlush(p, pid);
    assert PageOk(p, pid);
    forall g | 0 <= g < |q.frames| ensures FrameOk(q, g) {
      assert FrameOk(p, g);
    }
    forall x | x in q.table ensures PageOk(q, x) {
      assert PageOk(p, x);
    }
  }

  ghost function AfterWrite(p: Pool, pid: PageId, data: Bytes): Pool
    requires pid in p.table && p.table[pid] < |p.frames|
  {
    var f := p.table[pid];
    Touch(p, f, p.frames[f].(data := data)).(touched := p.touched + {pid})
  }

  lemma WriteOk(p: Pool, pid: PageId, data: Bytes)
    requires Ok(p) && Pinned(p, pid)
    ensures var q := AfterWrite(p, pid, data); Ok(q) && View(q) == View(p)[pid := data]
  {
    var q := AfterWrite(p, pid, data);
    assert PageOk(p, pid);
    forall g | 0 <= g < |q.frames| ensures FrameOk(q, g) {
      assert FrameOk(p, g);
    }
    forall x | x in q.table ensures PageOk(q, x) {
      assert PageOk(p, x);
    }
    forall x | x in p.table && x != pid ensures p.table[x] < |p.frames| && p.table[x] != p.table[pid] {
      assert PageOk(p, x);
    }
    assert View(q) == View(p)[pid := data];
  }

  ghost function AfterDelete(p: Pool, pid: PageId, zero: Bytes): Pool
    requires pid in p.table && p.table[pid] < |p.frames|
  {
    var f := p.table[pid];
    Pool(p.frames[f := Frame(ZEROED, zero, false, 0)], p.table - {pid}, p.free + [f], p.lru,
      WrittenBack(p.disk, p.frames[f].(id := pid)), p.touched)
  }

  lemma DeleteFrames(p: Pool, pid: PageId, zero: Bytes, g: nat)
    requires Ok(p) && pid in p.table && p.table[pid] < |p.frames| && p.frames[p.table[pid]].pins == 0 && g < |p.frames|
    ensures FrameOk(AfterDelete(p, pid, zero), g)
  {
    var f, q := p.table[pid], AfterDelete(p, pid, zero);
    assert FrameOk(p, g);
    assert PageOk(p, pid) && FrameOk(p, f);
    assert g in q.free <==> g in p.free || g == f;
  }

  lemma DeletePages(p: Pool, pid: PageId, zero: Bytes, x: PageId)
    requires Ok(p) && pid in p.table && p.table[pid] < |p.frames| && p.frames[p.table[pid]].pins == 0
    ensures var q := AfterDelete(p, pid, zero);
            && (x in q.table ==> PageOk(q, x))
            && BytesOf(q, x) == BytesOf(p, x)
            && (x in q.table || x in q.disk <==> x in p.table || x in p.disk)
            && (Pinned(p, x) ==> Stays(p, q, x))
  {
    assert PageOk(p, pid);
    if x in p.table {
      assert PageOk(p, x);
    }
  }

  lemma DeletePins(p: Pool, pid: PageId, zero: Bytes)
    requires Ok(p) && pid in p.table && p.table[pid] < |p.frames| && p.frames[p.table[pid]].pins == 0
    ensures PinsMove(p, AfterDelete(p, pid, zero), pid, 0)
  {
    var q := AfterDelete(p, pid, zero);
    assert PageOk(p, pid);
    forall x ensures PinsOf(q, x) == PinsOf(p, x) {
      if x in p.table {
        assert PageOk(p, x);
      }
    }
  }

  /** The frame of a deleted page is on the free list and still in the replacer. */
  lemma DeleteOk(p: Pool, pid: PageId, zero: Bytes)
    requires Ok(p) && pid in p.table && p.table[pid] < |p.frames| && p.frames[p.table[pid]].pins == 0
    ensures var q := AfterDelete(p, pid, zero); Ok(q) && View(q) == View(p) && PinnedStay(p, q)
  {
    var f, q := p.table[pid], AfterDelete(p, pid, zero);
    assert PageOk(p, pid);
    forall g | 0 <= g < |q.frames| ensures FrameOk(q, g) {
      DeleteFrames(p, pid, zero, g);
    }
    forall x
      ensures x in q.table ==> PageOk(q, x)
      ensures BytesOf(q, x) == BytesOf(p, x)
      ensures x in q.table || x in q.disk <==> x in p.table || x in p.disk
      ensures Pinned(p, x) ==> Stays(p, q, x)
    {
      DeletePages(p, pid, zero, x);
    }
  }
}
