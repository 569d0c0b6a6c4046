/** Whole runs of the buffer pool manager: the pins are what the calls add up to, and the pages what was written. */
module BufferRuns {
  import opened Common
  import opened BufferPool
  import opened BufferPoolManager

  /** What a user of the pool can ask for. */
  datatype Call = Fetch(pid: PageId) | Unpin(pid: PageId, isDirty: bool) | Write(pid: PageId, data: Bytes)
    | Flush(pid: PageId) | Delete(pid: PageId)

  /** What a call that succeeds adds to the pins of its page. */
  function Pins(c: Call): int
  {
    match c
    case Fetch(_) => 1
    case Unpin(_, _) => -1
    case _ => 0
  }

  /** Successful fetches of page `x` among the first `n` calls, less successful unpins of it. */
  ghost function Held(calls: seq<Call>, oks: seq<bool>, x: PageId, n: nat): int
    requires n <= |calls| && n <= |oks|
  {
    if n == 0 then 0
    else Held(calls, oks, x, n - 1) + if oks[n - 1] && calls[n - 1].pid == x then Pins(calls[n - 1]) else 0
  }

  /** A plain map after the writes that succeeded among the first `n` calls. */
  ghost function Wrote(view: map<PageId, Bytes>, calls: seq<Call>, oks: seq<bool>, n: nat): map<PageId, Bytes>
    requires n <= |calls| && n <= |oks|
  {
    if n == 0 then view
    else
      var v := Wrote(view, calls, oks, n - 1);
      if oks[n - 1] && calls[n - 1].Write? then v[calls[n - 1].pid := calls[n - 1].data] else v
  }

  /** Whoever changes a page says so when they give it back; only pages that exist are fetched. */
  ghost predicate Fair(c: Call, view: map<PageId, Bytes>, changed: set<PageId>)
  {
    match c
    case Fetch(pid) => Real(pid) && pid in view
    case Unpin(pid, isDirty) => pid in changed ==> isDirty
    case Write(pid, _) => pid in changed
    case _ => true
  }

  /** One call. A page without pins can neither be unpinned nor written, and only such a page can be deleted. */
  method Step(m: Manager, c: Call, ghost changed: set<PageId>) returns (ok: bool)
    requires m.Valid() && m.touched <= changed && Fair(c, View(m.State()), changed)
    modifies m, m.frames, m.replacer
    ensures m.Valid() && m.touched <= changed
    ensures PinsMove(old(m.State()), m.State(), c.pid, if ok then Pins(c) else 0)
    ensures View(m.State()) == if ok && c.Write? then old(View(m.State()))[c.pid := c.data] else old(View(m.State()))
    ensures c.pid in old(View(m.State())) || !(ok && c.Write?)
    ensures c.Unpin? || c.Write? ==> (ok <==> PinsOf(old(m.State()), c.pid) > 0)
    ensures c.Delete? ==> (ok <==> PinsOf(old(m.State()), c.pid) == 0)
  {
    match c {
      case Fetch(pid) =>
        var r := m.FetchPage(pid);
        ok := r.Some?;
      case Unpin(pid, isDirty) =>
        ok := m.UnpinPage(pid, isDirty);
      case Write(pid, data) =>
        ok := pid in m.table && m.table[pid] < m.frames.Length && m.frames[m.table[pid]].pins > 0;
        if ok {
          m.WritePage(pid, data);
        }
      case Flush(pid) =>
        ok := m.FlushPage(pid);
      case Delete(pid) =>
        ok := m.DeletePage(pid);
    }
  }

  /** Each page has the pins it had, one more for each successful fetch and one less for each successful unpin. */
  ghost predicate PinsAddUp(p: Pool, q: Pool, calls: seq<Call>, oks: seq<bool>)
    requires |oks| <= |calls|
  {
    forall x {:trigger PinsOf(q, x)} :: PinsOf(q, x) == PinsOf(p, x) + Held(calls, oks, x, |oks|)
  }

  /** The pins of its page at the time of a call decide whether an unpin, a write or a delete succeeds. */
  ghost predicate Decided(p: Pool, calls: seq<Call>, oks: seq<bool>, k: nat)
    requires k < |oks| <= |calls|
  {
    var pins := PinsOf(p, calls[k].pid) + Held(calls, oks, calls[k].pid, k);
    && (calls[k].Unpin? || calls[k].Write? ==> (oks[k] <==> pins > 0))
    && (calls[k].Delete? ==> (oks[k] <==> pins == 0))
  }

  ghost predicate AllDecided(p: Pool, calls: seq<Call>, oks: seq<bool>)
    requires |oks| <= |calls|
  {
    forall k | 0 <= k < |oks| :: Decided(p, calls, oks, k)
  }

  /**
    Any run of calls: the pins add up, and each page has the bytes last written to it, whatever was evicted and read
    back on the way.
   */
  method Run(m: Manager, calls: seq<Call>, ghost changed: set<PageId>) returns (oks: seq<bool>)
    requires m.Valid() && m.touched <= changed
    requires forall c | c in calls :: Fair(c, View(m.State()), changed)
    modifies m, m.frames, m.replacer
    ensures m.Valid() && m.touched <= changed && |oks| == |calls|
    ensures PinsAddUp(old(m.State()), m.State(), calls, oks) && AllDecided(old(m.State()), calls, oks)
    ensures View(m.State()) == Wrote(old(View(m.State())), calls, oks, |calls|)
  {
    oks := [];
    ghost var p, view := m.State(), View(m.State());
    while |oks| < |calls|
      invariant m.Valid() && m.touched <= changed && |oks| <= |calls|
      invariant PinsAddUp(p, m.State(), calls, oks) && AllDecided(p, calls, oks)
      invariant View(m.State()) == Wrote(view, calls, oks, |oks|) && View(m.State()).Keys == view.Keys
    {
      assert calls[|oks|] in calls;
      oks := Another(m, calls, oks, changed, p, view);
    }
  }

  /** The next call of a run that began at `p` with the pages `view`. */
  method Another(m: Manager, calls: seq<Call>, oks: seq<bool>, ghost changed: set<PageId>, ghost p: Pool,
                 ghost view: map<PageId, Bytes>)
    returns (done: seq<bool>)
    requires m.Valid() && m.touched <= changed && |oks| < |calls|
    requires PinsAddUp(p, m.State(), calls, oks) && AllDecided(p, calls, oks)
    requires View(m.State()) == Wrote(view, calls, oks, |oks|) && View(m.State()).Keys == view.Keys
    requires Fair(calls[|oks|], view, changed)
    modifies m, m.frames, m.replacer
    ensures m.Valid() && m.touched <= changed && |done| == |oks| + 1
    ensures PinsAddUp(p, m.State(), calls, done) && AllDecided(p, calls, done)
    ensures View(m.State()) == Wrote(view, calls, done, |done|) && View(m.State()).Keys == view.Keys
  {
    ghost var q := m.State();
    var ok := Step(m, calls[|oks|], changed);
    done := oks + [ok];
    PinsNext(p, q, m.State(), calls, oks, ok);
    WroteNext(view, calls, oks, ok);
  }

  /** Another call keeps the account of the pins. */
  lemma PinsNext(p: Pool, q: Pool, r: Pool, calls: seq<Call>, oks: seq<bool>, ok: bool)
    requires |oks| < |calls| && PinsAddUp(p, q, calls, oks) && AllDecided(p, calls, oks)
    requires var c := calls[|oks|];
             && PinsMove(q, r, c.pid, if ok then Pins(c) else 0)
             && (c.Unpin? || c.Write? ==> (ok <==> PinsOf(q, c.pid) > 0))
             && (c.Delete? ==> (ok <==> PinsOf(q, c.pid) == 0))
    ensures PinsAddUp(p, r, calls, oks + [ok]) && AllDecided(p, calls, oks + [ok])
  {
    var t, n := oks + [ok], |oks|;
    forall x ensures PinsOf(r, x) == PinsOf(p, x) + Held(calls, t, x, n + 1) {
      HeldPrefix(calls, oks, t, x, n);
      assert PinsOf(q, x) == PinsOf(p, x) + Held(calls, oks, x, n);
    }
    forall k | 0 <= k < n + 1 ensures Decided(p, calls, t, k) {
      HeldPrefix(calls, oks, t, calls[k].pid, k);
      assert k < n ==> Decided(p, calls, oks, k);
    }
  }

  lemma WroteNext(view: map<PageId, Bytes>, calls: seq<Call>, oks: seq<bool>, ok: bool)
    requires |oks| < |calls|
    ensures var v, c := Wrote(view, calls, oks, |oks|), calls[|oks|];
            Wrote(view, calls, oks + [ok], |oks| + 1) == if ok && c.Write? then v[c.pid := c.data] else v
  {
    WrotePrefix(view, calls, oks, oks + [ok], |oks|);
  }

  lemma {:induction false} HeldPrefix(calls: seq<Call>, s: seq<bool>, t: seq<bool>, x: PageId, n: nat)
    requires n <= |calls| && n <= |s| && n <= |t| && forall k | 0 <= k < n :: s[k] == t[k]
    ensures Held(calls, s, x, n) == Held(calls, t, x, n)
  {
    if n > 0 {
      HeldPrefix(calls, s, t, x, n - 1);
    }
  }

  lemma {:induction false} WrotePrefix(view: map<PageId, Bytes>, calls: seq<Call>, s: seq<bool>, t: seq<bool>, n: nat)
    requires n <= |calls| && n <= |s| && n <= |t| && forall k | 0 <= k < n :: s[k] == t[k]
    ensures Wrote(view, calls, s, n) == Wrote(view, calls, t, n)
  {
    if n > 0 {
      WrotePrefix(view, calls, s, t, n - 1);
    }
  }

  /** Fetches a page `n` times: all succeed, or none does, because every frame is pinned. */
  method Hold(m: Manager, pid: PageId, n: nat) returns (got: nat)
    requires m.Valid() && Real(pid) && pid in View(m.State())
    modifies m, m.frames, m.replacer
    ensures m.Valid() && View(m.State()) == old(View(m.State())) && m.touched == old(m.touched)
    ensures got == if pid in old(m.table) || SomeUnpinned(old(m.State())) then n else 0
    ensures PinsMove(old(m.State()), m.State(), pid, got)
  {
    got := 0;
    while got < n
      invariant got <= n && m.Valid() && View(m.State()) == old(View(m.State())) && m.touched == old(m.touched)
      invariant PinsMove(old(m.State()), m.State(), pid, got)
      invariant got == 0 ==> m.State() == old(m.State())
      invariant got > 0 ==> old(pid in m.table || SomeUnpinned(m.State()))
    {
      assert got > 0 ==> PinsOf(m.State(), pid) > 0;
      var r := m.FetchPage(pid);
      if r.None? {
        break;
      }
      got := got + 1;
    }
  }

  /** Gives `n` pins of a page back. */
  method Release(m: Manager, pid: PageId, n: nat, isDirty: bool)
    requires m.Valid() && PinsOf(m.State(), pid) >= n && (pid in m.touched ==> isDirty)
    modifies m, m.frames, m.replacer
    ensures m.Valid() && View(m.State()) == old(View(m.State()))
    ensures PinsMove(old(m.State()), m.State(), pid, -(n as int))
  {
    for i := 0 to n
      invariant m.Valid() && View(m.State()) == old(View(m.State())) && (pid in m.touched ==> isDirty)
      invariant PinsMove(old(m.State()), m.State(), pid, -i)
    {
      assert PinsOf(m.State(), pid) > 0;
      var _ := m.UnpinPage(pid, isDirty);
    }
  }

  /** A page fetched `n` times and unpinned `n` times has the pins it had before, and so has every other page. */
  method HoldAndRelease(m: Manager, pid: PageId, n: nat, isDirty: bool) returns (got: nat)
    requires m.Valid() && Real(pid) && pid in View(m.State()) && (pid in m.touched ==> isDirty)
    modifies m, m.frames, m.replacer
    ensures m.Valid() && View(m.State()) == old(View(m.State()))
    ensures got == if pid in old(m.table) || SomeUnpinned(old(m.State())) then n else 0
    ensures PinsMove(old(m.State()), m.State(), pid, 0)
  {
    got := Hold(m, pid, n);
    ghost var q := m.State();
    assert PinsOf(q, pid) >= got;
    Release(m, pid, got, isDirty);
    forall x ensures PinsOf(m.State(), x) == old(PinsOf(m.State(), x)) {
      assert PinsOf(q, x) == old(PinsOf(m.State(), x)) + if x == pid then got else 0;
    }
  }
}
