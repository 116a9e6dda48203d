/** The page/frame table as a value: the page table and the FIFO queue of
    allocated frames, the operations that change them, and the invariants
    that FIFO replacement keeps. The class in module PageFrames updates its
    two vectors in place and is proved against these functions. */
module FifoTable {
  import opened Search

  /** Page-table entry of a page that currently has no frame. */
  const UNMAPPED: int := -1

  /** `pages[p]` is the frame of page `p` (or UNMAPPED); `queue` holds the
      allocated frames in the order they were assigned, the next victim first. */
  datatype Table = Table(pages: seq<int>, queue: seq<int>)

  /** The frame numbers 0, 1, ..., n-1 in increasing order. */
  function FrameIds(n: nat): seq<int> {
    seq(n, k => k)
  }

  /** The frame-number sequence holds exactly the numbers 0 .. n-1. */
  lemma FrameIdsMembers(n: nat)
    ensures forall f :: f in FrameIds(n) <==> 0 <= f < n
  {
    forall f | 0 <= f < n
      ensures f in FrameIds(n)
    {
      assert FrameIds(n)[f] == f;
    }
  }

  /** A fresh table: page `p` is mapped to frame `p` for the first
      `numFrames` pages, every other page is unmapped, and the frames are
      queued in increasing order. */
  function Initial(numPages: nat, numFrames: nat): (t: Table)
    ensures |t.pages| == numPages && |t.queue| == numFrames
    ensures forall p :: 0 <= p < numPages ==> (t.pages[p] != UNMAPPED <==> p < numFrames)
    ensures forall p :: 0 <= p < numPages && t.pages[p] != UNMAPPED ==> t.pages[p] == p
    ensures forall f :: f in t.queue <==> 0 <= f < numFrames
  {
    FrameIdsMembers(numFrames);
    Table(seq(numPages, p => if p < numFrames then p else UNMAPPED), FrameIds(numFrames))
  }

  /** cycleFrame on values: the front frame moves to the back and every
      other frame advances by one place. */
  function Rotate(q: seq<int>): (r: seq<int>)
    requires |q| > 0
    ensures |r| == |q| && multiset(r) == multiset(q)
    ensures forall k :: 0 <= k < |q| - 1 ==> r[k] == q[k + 1]
    ensures r[|q| - 1] == q[0]
  {
    assert q == [q[0]] + q[1..];
    q[1..] + [q[0]]
  }

  /** allocateFrame on values: the front frame of the queue is taken from its
      first owner in the page table and handed to page `p`; the entry of `p`
      is written before the owner's entry is cleared. When no page owns the
      front frame, nothing changes. */
  function Allocate(t: Table, p: int): (r: Table)
    requires 0 <= p < |t.pages| && |t.queue| > 0
    ensures |r.pages| == |t.pages| && |r.queue| == |t.queue|
  {
    var frame := t.queue[0];
    var owner := IndexOf(t.pages, frame);
    if owner == -1 then t
    else Table(t.pages[p := frame][owner := UNMAPPED], Rotate(t.queue))
  }

  /** 1 for a mapped entry, 0 for an unmapped one. */
  function Mapped(entry: int): nat {
    if entry != UNMAPPED then 1 else 0
  }

  /** The number of mapped entries of a page table. */
  function MappedCount(pages: seq<int>): (n: nat)
    ensures n <= |pages|
  {
    if |pages| == 0 then 0
    else MappedCount(pages[..|pages| - 1]) + Mapped(pages[|pages| - 1])
  }

  /** The frames that some page is mapped to. */
  function MappedFrames(pages: seq<int>): set<int> {
    set i | 0 <= i < |pages| && pages[i] != UNMAPPED :: pages[i]
  }

  /** The invariant of a table with `numPages` pages and `numFrames` frames:
      the queue is a permutation of the frame numbers, no two pages share a
      frame, a page is mapped exactly when its frame is queued, and exactly
      `numFrames` pages are mapped. */
  ghost predicate Inv(t: Table, numPages: nat, numFrames: nat) {
    0 < numFrames <= numPages &&
    |t.pages| == numPages && |t.queue| == numFrames &&
    multiset(t.queue) == multiset(FrameIds(numFrames)) &&
    (forall i, j :: 0 <= i < j < |t.pages| && t.pages[i] != UNMAPPED ==> t.pages[i] != t.pages[j]) &&
    (forall i :: 0 <= i < |t.pages| && t.pages[i] != UNMAPPED ==> t.pages[i] in t.queue) &&
    (forall k :: 0 <= k < |t.queue| ==> t.queue[k] in t.pages) &&
    MappedCount(t.pages) == numFrames
  }

  /** Under the invariant the queue holds exactly the frame numbers 0 .. numFrames-1. */
  lemma QueueIsFrameRange(t: Table, numPages: nat, numFrames: nat)
    requires Inv(t, numPages, numFrames)
    ensures forall x :: x in t.queue <==> 0 <= x < numFrames
  {
    forall x
      ensures x in t.queue <==> 0 <= x < numFrames
    {
      assert x in t.queue <==> x in multiset(t.queue);
      assert x in FrameIds(numFrames) <==> x in multiset(FrameIds(numFrames));
      if 0 <= x < numFrames {
        assert FrameIds(numFrames)[x] == x;
      }
    }
  }

  /** Under the invariant a page table entry is UNMAPPED or a frame number. */
  lemma EntryIsFrame(t: Table, numPages: nat, numFrames: nat, p: int)
    requires Inv(t, numPages, numFrames) && 0 <= p < numPages
    ensures t.pages[p] == UNMAPPED || 0 <= t.pages[p] < numFrames
  {
    QueueIsFrameRange(t, numPages, numFrames);
  }

  /** Under the invariant the mapped frames, the queued frames and the frame
      numbers 0 .. numFrames-1 are one and the same set. */
  lemma MappedFramesAreQueued(t: Table, numPages: nat, numFrames: nat)
    requires Inv(t, numPages, numFrames)
    ensures MappedFrames(t.pages) == (set x | x in t.queue)
    ensures forall x :: x in MappedFrames(t.pages) <==> 0 <= x < numFrames
  {
    QueueIsFrameRange(t, numPages, numFrames);
    forall x | x in t.queue
      ensures x in MappedFrames(t.pages)
    {
      var k :| 0 <= k < |t.queue| && t.queue[k] == x;
      var i :| 0 <= i < |t.pages| && t.pages[i] == x;
    }
  }

  /** Overwriting one entry changes the mapped count by the difference of the
      old and new entries. */
  lemma {:induction false} MappedCountUpdate(s: seq<int>, i: int, v: int)
    requires 0 <= i < |s|
    ensures MappedCount(s[i := v]) == MappedCount(s) - Mapped(s[i]) + Mapped(v)
  {
    var n := |s| - 1;
    if i == n {
      assert s[i := v][..n] == s[..n];
    } else {
      assert s[i := v][..n] == s[..n][i := v];
      MappedCountUpdate(s[..n], i, v);
    }
  }

  /** A page table whose mapped entries are exactly its first `m` entries
      has min(|s|, m) mapped entries. */
  lemma {:induction false} MappedCountOfPrefixMapped(s: seq<int>, m: nat)
    requires forall i :: 0 <= i < |s| ==> (s[i] != UNMAPPED <==> i < m)
    ensures MappedCount(s) == if |s| < m then |s| else m
  {
    if |s| > 0 {
      MappedCountOfPrefixMapped(s[..|s| - 1], m);
    }
  }

  /** The constructor's table satisfies the invariant. */
  lemma InitialInv(numPages: nat, numFrames: nat)
    requires 0 < numFrames <= numPages
    ensures Inv(Initial(numPages, numFrames), numPages, numFrames)
  {
    var t := Initial(numPages, numFrames);
    MappedCountOfPrefixMapped(t.pages, numFrames);
    forall k | 0 <= k < numFrames
      ensures t.queue[k] in t.pages
    {
      assert t.pages[k] == k;
    }
    forall i | 0 <= i < numPages && t.pages[i] != UNMAPPED
      ensures t.pages[i] in t.queue
    {
      assert t.queue[i] == i;
    }
  }

  /** allocateFrame on an unmapped page whose front frame `f` is owned by
      page `owner`: the page gets `f`, the owner loses it, every other entry
      keeps its value, and the queue is rotated once. */
  lemma AllocateReplaces(t: Table, p: int)
    requires 0 <= p < |t.pages| && |t.queue| > 0
    requires t.pages[p] == UNMAPPED && t.queue[0] != UNMAPPED && t.queue[0] in t.pages
    ensures var owner := IndexOf(t.pages, t.queue[0]);
            var r := Allocate(t, p);
            0 <= owner < |t.pages| && owner != p && t.pages[owner] == t.queue[0] &&
            r.pages[p] == t.queue[0] && r.pages[owner] == UNMAPPED &&
            (forall i :: 0 <= i < |t.pages| && i != p && i != owner ==> r.pages[i] == t.pages[i]) &&
            r.queue == Rotate(t.queue)
  {
  }

  /** allocateFrame when no page owns the front frame leaves both vectors as they were. */
  lemma AllocateWithoutOwner(t: Table, p: int)
    requires 0 <= p < |t.pages| && |t.queue| > 0
    requires t.queue[0] !in t.pages
    ensures Allocate(t, p) == t
  {
  }

  /** Because the page's entry is written before the owner's entry is
      cleared, allocating the front frame to the page that already owns it
      leaves that page unmapped. */
  lemma AllocateToOwnerUnmaps(t: Table, p: int, numPages: nat, numFrames: nat)
    requires Inv(t, numPages, numFrames) && 0 <= p < numPages
    requires t.pages[p] == t.queue[0]
    ensures Allocate(t, p).pages[p] == UNMAPPED
    ensures Allocate(t, p).queue == Rotate(t.queue)
  {
    QueueIsFrameRange(t, numPages, numFrames);
    assert t.queue[0] in t.queue;
    assert IndexOf(t.pages, t.queue[0]) == p;
  }

  /** FIFO order: the frame handed to the page is now the last to be evicted,
      and the remaining frames keep their order, each one place closer to
      eviction. */
  lemma AllocateIsFifo(t: Table, p: int, numPages: nat, numFrames: nat)
    requires Inv(t, numPages, numFrames) && 0 <= p < numPages
    requires t.pages[p] == UNMAPPED
    ensures var r := Allocate(t, p);
            r.pages[p] == t.queue[0] &&
            r.queue[numFrames - 1] == r.pages[p] &&
            r.queue[..numFrames - 1] == t.queue[1..]
  {
    QueueIsFrameRange(t, numPages, numFrames);
    assert t.queue[0] in t.queue && t.queue[0] in t.pages;
    AllocateReplaces(t, p);
  }

  /** Allocating a frame to an unmapped page preserves the invariant. */
  lemma AllocatePreservesInv(t: Table, p: int, numPages: nat, numFrames: nat)
    requires Inv(t, numPages, numFrames) && 0 <= p < numPages
    requires t.pages[p] == UNMAPPED
    ensures Inv(Allocate(t, p), numPages, numFrames)
  {
    QueueIsFrameRange(t, numPages, numFrames);
    var f := t.queue[0];
    assert f in t.queue && f in t.pages;
    AllocateReplaces(t, p);
    var owner := IndexOf(t.pages, f);
    var r := Allocate(t, p);
    // f had exactly one owner, and now has exactly one: page p.
    assert forall i :: 0 <= i < numPages && i != owner ==> t.pages[i] != f by {
      forall i | 0 <= i < numPages && i != owner
        ensures t.pages[i] != f
      {
        if i < owner {
          assert t.pages[i] != UNMAPPED ==> t.pages[i] != t.pages[owner];
        } else {
          assert t.pages[owner] != t.pages[i];
        }
      }
    }
    forall i, j | 0 <= i < j < numPages && r.pages[i] != UNMAPPED
      ensures r.pages[i] != r.pages[j]
    {
      if i != p && j != p && i != owner && j != owner {
        assert r.pages[i] == t.pages[i] && r.pages[j] == t.pages[j];
      }
    }
    forall i | 0 <= i < numPages && r.pages[i] != UNMAPPED
      ensures r.pages[i] in r.queue
    {
      assert r.pages[i] in t.queue;
      assert r.pages[i] in multiset(r.queue);
    }
    forall k | 0 <= k < numFrames
      ensures r.queue[k] in r.pages
    {
      var g := r.queue[k];
      assert g in multiset(t.queue);
      if g == f {
        assert r.pages[p] == g;
      } else {
        var i :| 0 <= i < numPages && t.pages[i] == g;
        assert r.pages[i] == g;
      }
    }
    MappedCountUpdate(t.pages, p, f);
    MappedCountUpdate(t.pages[p := f], owner, UNMAPPED);
  }
}
