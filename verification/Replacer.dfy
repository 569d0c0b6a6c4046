/** The LRU replacer: the frames that may be evicted, most recently unpinned first. */
module Replacer {
  import opened Sequences

  /** `s` without its first `f`. */
  function Without(s: seq<nat>, f: nat): seq<nat>
  {
    if s == [] then [] else if s[0] == f then s[1..] else [s[0]] + Without(s[1..], f)
  }

  lemma {:induction false} WithoutHas(s: seq<nat>, f: nat)
    requires NoDup(s)
    ensures NoDup(Without(s, f))
    ensures forall g :: g in Without(s, f) <==> g in s && g != f
  {
    if s != [] {
      var t := s[1..];
      assert s == [s[0]] + t;
      WithoutHas(t, f);
      var r := Without(t, f);
      forall j | 0 <= j < |r| ensures r[j] in t && r[j] != s[0] {
        assert r[j] in r;
      }
      assert s[0] == f ==> f !in t;
    }
  }

  /** Nothing to remove. */
  lemma {:induction false} WithoutAbsent(s: seq<nat>, f: nat)
    requires f !in s
    ensures Without(s, f) == s
  {
    if s != [] {
      WithoutAbsent(s[1..], f);
    }
  }

  lemma {:induction false} WithoutLast(s: seq<nat>)
    requires s != [] && NoDup(s)
    ensures Without(s, s[|s| - 1]) == s[..|s| - 1]
  {
    if |s| > 1 {
      assert s[0] != s[|s| - 1];
      WithoutLast(s[1..]);
      assert s[1..][..|s| - 2] == s[1..|s| - 1];
    }
  }

  /** Every frame of the list was unpinned later than all frames behind it. */
  ghost predicate Recent(s: seq<nat>, stamp: map<nat, nat>, clock: nat)
  {
    && (forall i | 0 <= i < |s| :: s[i] in stamp && stamp[s[i]] < clock)
    && (forall i, j | 0 <= i < j < |s| :: s[i] in stamp && s[j] in stamp && stamp[s[i]] > stamp[s[j]])
  }

  lemma RecentNoDup(s: seq<nat>, stamp: map<nat, nat>, clock: nat)
    requires Recent(s, stamp, clock)
    ensures NoDup(s)
  {
  }

  lemma {:induction false} WithoutRecent(s: seq<nat>, f: nat, stamp: map<nat, nat>, clock: nat)
    requires Recent(s, stamp, clock)
    ensures Recent(Without(s, f), stamp, clock)
  {
    if s != [] && s[0] != f {
      var t := s[1..];
      RecentNoDup(t, stamp, clock);
      WithoutRecent(t, f, stamp, clock);
      WithoutHas(t, f);
      var r := Without(t, f);
      forall j | 0 <= j < |r| ensures r[j] in stamp && stamp[s[0]] > stamp[r[j]] {
        assert r[j] in t;
      }
    }
  }

  class LruReplacer {
    const maxSize: nat
    var list: seq<nat>
    /** The frames of the list; the source keeps their list iterators beside them. */
    var hash: set<nat>
    /** When each frame was unpinned, counted in effective unpins. */
    ghost var clock: nat
    ghost var stamp: map<nat, nat>

    ghost predicate Valid()
      reads this
    {
      && Recent(list, stamp, clock)
      && (forall f :: f in hash <==> f in list)
      && (forall f | f in list :: f < maxSize)
    }

    constructor (numPages: nat)
      ensures Valid() && list == [] && maxSize == numPages
    {
      maxSize, list, hash, clock, stamp := numPages, [], {}, 0, map[];
    }

    /** Removes the least recently unpinned frame, if there is a frame at all. */
    method Victim() returns (ok: bool, frame: nat)
      requires Valid()
      modifies this
      ensures Valid() && stamp == old(stamp)
      ensures ok <==> old(list) != []
      ensures !ok ==> list == old(list)
      ensures ok ==> frame == old(list)[|old(list)| - 1] && list == Without(old(list), frame)
      ensures ok ==> frame in stamp && forall g | g in list :: g in stamp && stamp[frame] < stamp[g]
    {
      if list == [] {
        return false, 0;
      }
      frame := list[|list| - 1];
      RecentNoDup(list, stamp, clock);
      WithoutLast(list);
      WithoutHas(list, frame);
      WithoutRecent(list, frame, stamp, clock);
      list, hash := list[..|list| - 1], hash - {frame};
      ok := true;
    }

    /** A pinned frame may not be evicted. */
    method Pin(frame: nat) returns (ok: bool)
      requires Valid()
      modifies this
      ensures Valid() && list == Without(old(list), frame) && stamp == old(stamp)
      ensures ok <==> frame < maxSize
    {
      RecentNoDup(list, stamp, clock);
      WithoutRecent(list, frame, stamp, clock);
      WithoutHas(list, frame);
      if frame in hash {
        list, hash := Without(list, frame), hash - {frame};
        ok := true;
      } else {
        WithoutAbsent(list, frame);
        ok := frame < maxSize;
      }
    }

    /** An unpinned frame becomes the most recent one; unpinning it again changes nothing. */
    method Unpin(frame: nat) returns (ok: bool)
      requires Valid()
      modifies this
      ensures Valid() && (ok <==> frame < maxSize)
      ensures list == if !ok || frame in old(list) then old(list) else [frame] + old(list)
      ensures forall g | g in old(list) :: g in stamp && g in old(stamp) && stamp[g] == old(stamp)[g]
    {
      if frame >= maxSize {
        return false;
      }
      ok := true;
      if frame in hash {
        return;
      }
      list, hash, stamp, clock := [frame] + list, hash + {frame}, stamp[frame := clock], clock + 1;
    }
  }
}
