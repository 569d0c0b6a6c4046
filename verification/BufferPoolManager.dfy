/** The buffer pool manager: every operation keeps the pool's invariant and the bytes of every page. */
module BufferPoolManager {
  import opened Common
  import opened Replacer
  import opened BufferPool

  /** How many pages of file `fd` have been allocated. */
  function Count(next: map<int, nat>, fd: int): nat
  {
    if fd in next then next[fd] else 0
  }

  /** Page numbers at or beyond a file's count are unused. */
  ghost predicate Numbered(view: map<PageId, Bytes>, next: map<int, nat>)
  {
    forall pid | pid in view :: pid.page < Count(next, pid.fd)
  }

  lemma NumberedMore(view: map<PageId, Bytes>, next: map<int, nat>, fd: int, data: Bytes)
    requires Numbered(view, next)
    ensures PageId(fd, Count(next, fd)) !in view
    ensures Numbered(view[PageId(fd, Count(next, fd)) := data], next[fd := Count(next, fd) + 1])
  {
  }

  class Manager {
    const pageSize: nat
    const frames: array<Frame>
    const replacer: LruReplacer
    var table: map<PageId, nat>
    var free: seq<nat>
    var disk: map<PageId, Bytes>
    var next: map<int, nat>
    ghost var touched: set<PageId>

    ghost function State(): Pool
      reads this, frames, replacer
    {
      Pool(frames[..], table, free, replacer.list, disk, touched)
    }

    ghost predicate Valid()
      reads this, frames, replacer
    {
      && replacer.Valid() && replacer.maxSize == frames.Length
      && Ok(State())
      && Numbered(View(State()), next)
    }

    constructor (poolSize: nat, pageSize: nat, onDisk: map<PageId, Bytes>, counts: map<int, nat>)
      requires Numbered(onDisk, counts)
      ensures Valid() && View(State()) == onDisk && fresh(frames) && fresh(replacer) && frames.Length == poolSize
      ensures touched == {}
    {
      this.pageSize := pageSize;
      var zero := seq(pageSize, _ => 0 as Byte);
      frames := new Frame[poolSize](_ => Frame(NO_PAGE, zero, false, 0));
      replacer := new LruReplacer(poolSize);
      table, free, disk, next, touched := map[], seq(poolSize, i requires 0 <= i < poolSize => i), onDisk, counts, {};
      new;
      forall f | 0 <= f < |State().frames| ensures FrameOk(State(), f) {
        assert free[f] == f;
      }
      ViewIs(State(), onDisk);
    }

    /** A frame to put a page into: the head of the free list, or else the least recently unpinned one. */
    method FindVictim() returns (ok: bool, f: nat)
      requires replacer.Valid() && Ok(State())
      modifies this, replacer
      ensures replacer.Valid() && ok == SomeUnpinned(old(State()))
      ensures table == old(table) && disk == old(disk) && next == old(next) && touched == old(touched)
      ensures !ok ==> State() == old(State())
      ensures ok ==> (old(free) != [] || old(replacer.list) != []) && f == Chosen(old(State()))
      ensures ok && old(free) != [] ==> free == old(free)[1..] && replacer.list == old(replacer.list)
      ensures ok && old(free) == [] ==> free == [] && replacer.list == Without(old(replacer.list), f)
    {
      UnpinnedFrames(State());
      if free == [] {
        ok, f := replacer.Victim();
      } else {
        f, free := free[0], free[1..];
        ok := true;
      }
    }

    /** Gives frame `f` to page `pid`: what it held is written back if it was changed. The bytes of the frame stay. */
    method UpdatePage(f: nat, pid: PageId)
      requires f < frames.Length
      modifies this, frames
      ensures disk == WrittenBack(old(disk), old(frames[f]))
      ensures table == (old(table) - {old(frames[f].id)})[pid := f]
      ensures frames[..] == old(frames[..])[f := old(frames[f]).(id := pid, dirty := false)]
      ensures free == old(free) && next == old(next) && touched == old(touched)
    {
      var id := frames[f].id;
      if frames[f].dirty {
        disk := disk[id := frames[f].data];
        frames[f] := frames[f].(dirty := false);
      }
      table := table - {id};
      table := table[pid := f];
      frames[f] := frames[f].(id := pid, dirty := false);
    }

    /** Gives the chosen frame to page `pid` and pins it; `p` is the state before the frame was chosen. */
    method Claim(f: nat, pid: PageId, ghost p: Pool, ghost t: set<PageId>)
      requires Ok(p) && (p.free != [] || p.lru != []) && f == Chosen(p) < frames.Length
      requires replacer.Valid() && replacer.maxSize == frames.Length
      requires State() == p.(free := if p.free != [] then p.free[1..] else [],
        lru := if p.free != [] then p.lru else Without(p.lru, f))
      modifies this, frames, replacer
      ensures replacer.Valid() && next == old(next)
      ensures State() == Loaded(p, pid, p.frames[f].data, t)
    {
      ChosenOk(p);
      AlreadyOut(p);
      UpdatePage(f, pid);
      var _ := replacer.Pin(f);
      frames[f] := frames[f].(pins := 1);
      touched := t;
      assert frames[..] == p.frames[f := Frame(pid, p.frames[f].data, false, 1)];
    }

    /** A frame for page `pid`, with the bytes it happens to hold; fails exactly when every frame is pinned. */
    method Take(pid: PageId, ghost t: set<PageId>) returns (ok: bool, f: nat)
      requires replacer.Valid() && replacer.maxSize == frames.Length && Ok(State())
      modifies this, frames, replacer
      ensures replacer.Valid() && next == old(next) && ok == SomeUnpinned(old(State()))
      ensures !ok ==> State() == old(State())
      ensures ok ==> (old(free) != [] || old(replacer.list) != []) && f == Chosen(old(State())) < frames.Length
      ensures ok ==> State() == Loaded(old(State()), pid, old(frames[..])[f].data, t)
    {
      ghost var p := State();
      ok, f := FindVictim();
      if ok {
        ChosenOk(p);
        Claim(f, pid, p, t);
      }
    }

    /**
      The frame that holds page `pid`, pinned once more; fails only when every frame is pinned. Nothing that can be
      seen changes.
     */
    method FetchPage(pid: PageId) returns (r: Option<nat>)
      requires Valid() && Real(pid) && pid in View(State())
      modifies this, frames, replacer
      ensures Valid() && View(State()) == old(View(State())) && touched == old(touched)
      ensures PinnedStay(old(State()), State())
      ensures r.Some? <==> pid in old(table) || SomeUnpinned(old(State()))
      ensures r.None? ==> State() == old(State())
      ensures PinsMove(old(State()), State(), pid, if r.Some? then 1 else 0)
      ensures r.Some? ==>
        Pinned(State(), pid) && r.value == table[pid] && frames[r.value].data == old(View(State()))[pid]
      ensures r.Some? ==> frames[r.value].pins == if pid in old(table) && old(table)[pid] < frames.Length
        then old(frames[table[pid]].pins) + 1 else 1
    {
      if pid in table {
        var f := PinPooled(pid);
        return Some(f);
      }
      r := ReadIn(pid);
    }

    /** One more pin for a page that is in the pool. */
    method PinPooled(pid: PageId) returns (f: nat)
      requires Valid() && pid in table
      modifies this, frames, replacer
      ensures Valid() && View(State()) == old(View(State())) && touched == old(touched)
      ensures PinnedStay(old(State()), State()) && PinsMove(old(State()), State(), pid, 1)
      ensures Pinned(State(), pid) && f == table[pid] == old(table)[pid]
        && frames[f].pins == old(frames[table[pid]].pins) + 1
    {
      ghost var p := State();
      assert PageOk(p, pid);
      PinOk(p, pid);
      f := table[pid];
      var _ := replacer.Pin(f);
      frames[f] := frames[f].(pins := frames[f].pins + 1);
      assert frames[..] == p.frames[f := p.frames[f].(pins := p.frames[f].pins + 1)];
      FramePins(p, State(), pid, 1);
    }

    /** Reads a page that is not in the pool into a frame. */
    method ReadIn(pid: PageId) returns (r: Option<nat>)
      requires Valid() && Real(pid) && pid !in table && pid in disk
      modifies this, frames, replacer
      ensures Valid() && View(State()) == old(View(State())) && touched == old(touched)
      ensures PinnedStay(old(State()), State())
      ensures r.Some? <==> SomeUnpinned(old(State()))
      ensures r.None? ==> State() == old(State())
      ensures PinsMove(old(State()), State(), pid, if r.Some? then 1 else 0)
      ensures r.Some? ==> Pinned(State(), pid) && r.value == table[pid] && frames[r.value].pins == 1
    {
      ghost var p := State();
      var ok, f := Take(pid, touched);
      if !ok {
        return None;
      }
      ChosenOk(p);
      LoadedOk(p, pid, p.disk[pid], p.touched);
      frames[f] := frames[f].(data := disk[pid]);
      assert State() == Loaded(p, pid, p.disk[pid], p.touched);
      LoadedPins(p, pid, p.disk[pid], p.touched);
      assert View(p)[pid := p.disk[pid]] == View(p);
      return Some(f);
    }

    /** The holder of a pinned page changes its bytes. */
    method WritePage(pid: PageId, data: Bytes)
      requires Valid() && Pinned(State(), pid)
      modifies this, frames
      ensures Valid() && View(State()) == old(View(State()))[pid := data]
      ensures State() == AfterWrite(old(State()), pid, data)
      ensures table == old(table) && touched == old(touched) + {pid} && PinsMove(old(State()), State(), pid, 0)
    {
      ghost var p := State();
      WriteOk(p, pid, data);
      var f := table[pid];
      assert PageOk(p, pid);
      frames[f] := frames[f].(data := data);
      touched := touched + {pid};
      assert State() == AfterWrite(p, pid, data);
      FramePins(p, State(), pid, 0);
    }

    /** One pin less; a frame without pins goes to the replacer. */
    method GiveBack(f: nat, pid: PageId, isDirty: bool)
      requires replacer.Valid() && replacer.maxSize == frames.Length
      requires pid in table && table[pid] == f < frames.Length && frames[f].pins > 0
      modifies this, frames, replacer
      ensures replacer.Valid() && next == old(next) && State() == AfterUnpin(old(State()), pid, isDirty)
    {
      ghost var p := State();
      frames[f] := frames[f].(pins := frames[f].pins - 1);
      if frames[f].pins == 0 {
        var _ := replacer.Unpin(f);
      }
      if isDirty {
        frames[f] := frames[f].(dirty := true);
        touched := touched - {pid};
      }
      assert State() == AfterUnpin(p, pid, isDirty);
    }

    /** Gives a pin back. The last holder of a changed page must have said, now or before, that it is dirty. */
    method UnpinPage(pid: PageId, isDirty: bool) returns (ok: bool)
      requires Valid()
      requires Pinned(State(), pid) && State().frames[table[pid]].pins == 1 && pid in touched ==> isDirty
      modifies this, frames, replacer
      ensures Valid() && View(State()) == old(View(State())) && table == old(table)
      ensures ok <==> Pinned(old(State()), pid)
      ensures !ok ==> State() == old(State())
      ensures ok ==> State() == AfterUnpin(old(State()), pid, isDirty)
      ensures ok ==> table[pid] < frames.Length && var f := table[pid];
        && frames[f].pins == old(frames[..])[f].pins - 1 && frames[f].dirty == (old(frames[..])[f].dirty || isDirty)
        && frames[f].id == pid && frames[f].data == old(frames[..])[f].data
        && (forall g | 0 <= g < frames.Length && g != f :: frames[g] == old(frames[..])[g])
        && replacer.list == if frames[f].pins == 0 then [f] + old(replacer.list) else old(replacer.list)
      ensures ok ==> (table[pid] in replacer.list <==> frames[table[pid]].pins == 0)
      ensures free == old(free) && disk == old(disk) && next == old(next)
      ensures touched == old(touched) - if ok && isDirty then {pid} else {}
      ensures PinsMove(old(State()), State(), pid, if ok then -1 else 0)
    {
      if pid !in table {
        return false;
      }
      ghost var p := State();
      assert PageOk(p, pid);
      var f := table[pid];
      if frames[f].pins == 0 {
        return false;
      }
      UnpinOk(p, pid, isDirty);
      assert FrameOk(p, f);
      GiveBack(f, pid, isDirty);
      assert FrameOk(State(), f);
      FramePins(p, State(), pid, -1);
      return true;
    }

    /** Writes a page that is in the pool to disk. */
    method FlushPage(pid: PageId) returns (ok: bool)
      requires Valid()
      modifies this, frames
      ensures Valid() && View(State()) == old(View(State())) && PinnedStay(old(State()), State())
      ensures ok <==> pid in old(table)
      ensures ok ==> pid in disk && pid in View(State()) && disk[pid] == View(State())[pid]
      ensures !ok ==> State() == old(State())
      ensures ok ==> old(table)[pid] < frames.Length && State() == AfterFlush(old(State()), pid)
      ensures ok ==> table == old(table) && var f := table[pid];
        && frames[f] == old(frames[..])[f].(dirty := false)
        && (forall g | 0 <= g < frames.Length && g != f :: frames[g] == old(frames[..])[g])
      ensures touched == old(touched) - {pid} && PinsMove(old(State()), State(), pid, 0)
    {
      if pid !in table {
        return false;
      }
      ghost var p := State();
      assert PageOk(p, pid);
      FlushOk(p, pid);
      var f := table[pid];
      disk := disk[pid := frames[f].data];
      frames[f] := frames[f].(dirty := false);
      touched := touched - {pid};
      assert State() == AfterFlush(p, pid);
      FramePins(p, State(), pid, 0);
      return true;
    }

    /**
      A new page of file `fd`, pinned; its bytes are those the frame happened to hold. Every other page keeps its
      bytes.
     */
    method NewPage(fd: int) returns (r: Option<PageId>)
      requires Valid() && PageId(fd, Count(next, fd)) != ZEROED
      modifies this, frames, replacer
      ensures Valid() && PinnedStay(old(State()), State())
      ensures r.Some? <==> SomeUnpinned(old(State()))
      ensures r.None? ==> State() == old(State())
      ensures r.Some? ==> r.value == PageId(fd, old(Count(next, fd))) && r.value !in old(View(State()))
      ensures r.Some? ==> (old(free) != [] || old(replacer.list) != []) && Chosen(old(State())) < frames.Length
      ensures r.Some? ==> var data := old(frames[..])[Chosen(old(State()))].data;
        && State() == Loaded(old(State()), r.value, data, old(touched) + {r.value})
        && Pinned(State(), r.value) && View(State()) == old(View(State()))[r.value := data]
        && PinsMove(old(State()), State(), r.value, 1)
    {
      ghost var p := State();
      var pid := PageId(fd, Count(next, fd));
      var ok, f := Take(pid, touched + {pid});
      if !ok {
        return None;
      }
      NumberedMore(View(p), next, fd, p.frames[f].data);
      LoadedOk(p, pid, p.frames[f].data, p.touched + {pid});
      LoadedPins(p, pid, p.frames[f].data, p.touched + {pid});
      next := next[fd := Count(next, fd) + 1];
      return Some(pid);
    }

    /** Takes an unpinned page out of the pool; its bytes stay on disk. */
    method DeletePage(pid: PageId) returns (ok: bool)
      requires Valid()
      modifies this, frames
      ensures Valid() && View(State()) == old(View(State())) && PinnedStay(old(State()), State())
      ensures ok <==> !Pinned(old(State()), pid)
      ensures ok ==> pid !in table
      ensures !ok || pid !in old(table) ==> State() == old(State())
      ensures ok && pid in old(table) ==> old(table)[pid] < frames.Length
      ensures ok && pid in old(table) ==> State() == AfterDelete(old(State()), pid, seq(pageSize, _ => 0))
      ensures ok && pid in old(table) ==> var f := old(table)[pid];
        && frames[f].id == ZEROED && frames[f].pins == 0 && !frames[f].dirty && free == old(free) + [f]
        && table == old(table) - {pid}
        && (forall g | 0 <= g < frames.Length && g != f :: frames[g] == old(frames[..])[g])
      ensures touched == old(touched) && PinsMove(old(State()), State(), pid, 0)
    {
      if pid !in table {
        return true;
      }
      ghost var p := State();
      assert PageOk(p, pid);
      var f := table[pid];
      if frames[f].pins != 0 {
        return false;
      }
      var zero := seq(pageSize, _ => 0 as Byte);
      DeleteOk(p, pid, zero);
      DeletePins(p, pid, zero);
      if frames[f].dirty {
        disk := disk[pid := frames[f].data];
      }
      frames[f] := Frame(ZEROED, zero, false, 0);
      free := free + [f];
      table := table - {pid};
      assert State() == AfterDelete(p, pid, zero);
      return true;
    }
  }

  /** A victim of the replacer has left it already; pinning it again changes nothing. */
  lemma AlreadyOut(p: Pool)
    requires Ok(p) && (p.free != [] || p.lru != [])
    ensures p.free == [] ==> Without(Without(p.lru, Chosen(p)), Chosen(p)) == Without(p.lru, Chosen(p))
  {
    if p.free == [] {
      WithoutHas(p.lru, Chosen(p));
      WithoutAbsent(Without(p.lru, Chosen(p)), Chosen(p));
    }
  }
}
