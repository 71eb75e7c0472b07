/** The block cache: NBUF buffers on a doubly linked ring kept in least-recently-released
    order, over the in-memory disk. A pointer to a struct buf is its index in buf[]; the
    sentinel bcache.head is index HEAD. */
module BufferCache {
  import opened Wrappers
  import opened Blocks
  import opened Redo

  const NBUF: nat := 3 * MAXOPBLOCKS
  const HEAD: nat := NBUF

  datatype Buf = Buf(dev: nat, blockno: nat, refcnt: nat, locked: bool,
                     valid: bool, dirty: bool, data: Block, prev: nat, next: nat)

  // ------------------------------------------------------------------ the ring

  function Cycle(ring: seq<nat>): (c: seq<nat>) { [HEAD] + ring + [HEAD] }

  /** ring lists the buffers from head.next to head.prev; next and prev run along it both ways. */
  ghost predicate Linked(bufs: seq<Buf>, ring: seq<nat>) {
    && |bufs| == NBUF + 1
    && (forall i :: 0 <= i < |ring| ==> ring[i] < NBUF)
    && (forall i, j :: 0 <= i < j < |ring| ==> ring[i] != ring[j])
    && forall i :: 0 <= i <= |ring| ==>
         && bufs[Cycle(ring)[i]].next == Cycle(ring)[i + 1]
         && bufs[Cycle(ring)[i + 1]].prev == Cycle(ring)[i]
  }

  ghost predicate Ring(bufs: seq<Buf>, ring: seq<nat>) {
    Linked(bufs, ring) && |ring| == NBUF && forall i :: 0 <= i < NBUF ==> i in ring
  }

  function Unlink(bufs: seq<Buf>, b: nat): (r: seq<Buf>)
    requires b < |bufs| && bufs[b].next < |bufs| && bufs[b].prev < |bufs|
  {
    var s := bufs[bufs[b].next := bufs[bufs[b].next].(prev := bufs[b].prev)];
    s[bufs[b].prev := s[bufs[b].prev].(next := bufs[b].next)]
  }

  function PushFront(bufs: seq<Buf>, b: nat): (r: seq<Buf>)
    requires b < HEAD < |bufs| && bufs[HEAD].next < |bufs|
  {
    var first := bufs[HEAD].next;
    var s := bufs[b := bufs[b].(next := first, prev := HEAD)];
    var t := s[first := s[first].(prev := b)];
    t[HEAD := t[HEAD].(next := b)]
  }

  function Without(ring: seq<nat>, k: nat): (r: seq<nat>)
    requires k < |ring|
  {
    ring[..k] + ring[k + 1..]
  }

  lemma Neighbours(bufs: seq<Buf>, ring: seq<nat>, k: nat)
    requires Linked(bufs, ring) && k < |ring|
    ensures var c := Cycle(ring);
      && c[k + 1] == ring[k] && c[k] <= HEAD && c[k + 2] <= HEAD
      && bufs[ring[k]].prev == c[k] && bufs[ring[k]].next == c[k + 2]
  {}

  lemma WithoutDistinct(ring: seq<nat>, k: nat)
    requires k < |ring| && forall i, j :: 0 <= i < j < |ring| ==> ring[i] != ring[j]
    ensures forall i :: 0 <= i < |ring| - 1 ==> Without(ring, k)[i] == ring[if i < k then i else i + 1]
    ensures forall i, j :: 0 <= i < j < |ring| - 1 ==> Without(ring, k)[i] != Without(ring, k)[j]
  {}

  lemma LinkedAt(bufs: seq<Buf>, ring: seq<nat>, i: nat)
    requires Linked(bufs, ring) && i <= |ring|
    ensures |bufs| == HEAD + 1 && Cycle(ring)[i] <= HEAD && Cycle(ring)[i + 1] <= HEAD
    ensures bufs[Cycle(ring)[i]].next == Cycle(ring)[i + 1] && bufs[Cycle(ring)[i + 1]].prev == Cycle(ring)[i]
  {}

  lemma CycleDistinct(bufs: seq<Buf>, ring: seq<nat>)
    requires Linked(bufs, ring)
    ensures forall i, j :: 0 <= i <= |ring| && 0 <= j <= |ring| && i != j ==> Cycle(ring)[i] != Cycle(ring)[j]
    ensures forall i, j :: 1 <= i <= |ring| + 1 && 1 <= j <= |ring| + 1 && i != j ==> Cycle(ring)[i] != Cycle(ring)[j]
  {}

  lemma UnlinkAt(bufs: seq<Buf>, ring: seq<nat>, k: nat, i: nat)
    requires Linked(bufs, ring) && k < |ring| && i < |ring|
    requires |bufs| == HEAD + 1 && ring[k] < HEAD
    requires bufs[ring[k]].prev == Cycle(ring)[k] <= HEAD && bufs[ring[k]].next == Cycle(ring)[k + 2] <= HEAD
    ensures var e, s := Cycle(Without(ring, k)), Unlink(bufs, ring[k]);
      e[i] <= HEAD && e[i + 1] <= HEAD && s[e[i]].next == e[i + 1] && s[e[i + 1]].prev == e[i]
  {
    hide Linked;
    var b, c := ring[k], Cycle(ring);
    var e, s := Cycle(Without(ring, k)), Unlink(bufs, b);
    var j := if i <= k then i else i + 1;
    assert e[i] == c[j] && e[i + 1] == if i < k then c[i + 1] else c[i + 2];
    LinkedAt(bufs, ring, j);
    CycleDistinct(bufs, ring);
    if i < k {
      assert s[c[i]].next == bufs[c[i]].next && s[c[i + 1]].prev == bufs[c[i + 1]].prev;
    } else if i > k {
      assert s[c[j]].next == bufs[c[j]].next && s[c[j + 1]].prev == bufs[c[j + 1]].prev;
    }
  }

  /** Taking one buffer out of the ring leaves a well-linked ring of the others, in order. */
  lemma UnlinkKeepsLinks(bufs: seq<Buf>, ring: seq<nat>, k: nat)
    requires Linked(bufs, ring) && k < |ring|
    ensures bufs[ring[k]].next < |bufs| && bufs[ring[k]].prev < |bufs|
    ensures Linked(Unlink(bufs, ring[k]), Without(ring, k))
  {
    Neighbours(bufs, ring, k);
    WithoutDistinct(ring, k);
    var e, s := Cycle(Without(ring, k)), Unlink(bufs, ring[k]);
    forall i | 0 <= i < |ring| ensures s[e[i]].next == e[i + 1] && s[e[i + 1]].prev == e[i] {
      UnlinkAt(bufs, ring, k, i);
    }
  }

  /** Putting a buffer that is not on the ring right after the sentinel. */
  lemma PushFrontKeepsLinks(bufs: seq<Buf>, ring: seq<nat>, b: nat)
    requires Linked(bufs, ring) && b < NBUF && b !in ring
    ensures bufs[HEAD].next < |bufs|
    ensures Linked(PushFront(bufs, b), [b] + ring)
  {
    var c := Cycle(ring);
    assert bufs[c[0]].next == c[1] && bufs[c[1]].prev == c[0];
    var s, e := PushFront(bufs, b), Cycle([b] + ring);
    assert forall i :: 1 < i < |e| ==> e[i] == c[i - 1];
    forall i | 0 <= i <= |ring| + 1 ensures s[e[i]].next == e[i + 1] && s[e[i + 1]].prev == e[i] {
      if i >= 2 {
        assert bufs[c[i - 1]].next == c[i] && bufs[c[i]].prev == c[i - 1];
        assert c[i - 1] in ring;
      }
    }
  }

  /** prev is the inverse of next at every buffer and at the sentinel. */
  lemma PrevInvertsNext(bufs: seq<Buf>, ring: seq<nat>, b: nat)
    requires Ring(bufs, ring) && b <= HEAD
    ensures bufs[b].next <= HEAD && bufs[b].prev <= HEAD
    ensures bufs[bufs[b].next].prev == b && bufs[bufs[b].prev].next == b
  {
    var c := Cycle(ring);
    var i := 0;
    if b < NBUF {
      assert b in ring;
      var j :| 0 <= j < |ring| && ring[j] == b;
      i := j + 1;
    }
    assert c[i] == b && bufs[c[i]].next == c[i + 1] && bufs[c[i + 1]].prev == c[i];
    var h := if i == 0 then |ring| + 1 else i;
    assert c[h] == b && bufs[c[h - 1]].next == c[h] && bufs[c[h]].prev == c[h - 1];
  }

  // ------------------------------------------------------- contents of the cache

  predicate Names(b: Buf, dev: nat, blockno: nat) { b.dev == dev && b.blockno == blockno }

  /** bget may recycle it: nobody holds or awaits it, and the log has not pinned it. */
  predicate Idle(b: Buf) { b.refcnt == 0 && !b.dirty }

  /** The payload of a buffer, without its place on the ring. */
  predicate SameBuf(a: Buf, b: Buf) { a == b.(prev := a.prev, next := a.next) }

  ghost predicate SameBufs(s: seq<Buf>, t: seq<Buf>) {
    |s| == |t| && forall i :: 0 <= i < NBUF < |s| ==> SameBuf(s[i], t[i])
  }

  /** No two buffers carry the same block of a non-zero device; a valid buffer nobody has locked
      equals the disk unless it is dirty. */
  ghost predicate Consistent(bufs: seq<Buf>, disk: Disk) {
    && |bufs| == NBUF + 1
    && (forall i, j :: 0 <= i < j < NBUF && bufs[i].dev != 0 ==> !Names(bufs[j], bufs[i].dev, bufs[i].blockno))
    && forall i :: 0 <= i < NBUF ==>
         && (bufs[i].valid ==> bufs[i].dev == 1 && bufs[i].blockno < |disk|)
         && (bufs[i].dirty ==> bufs[i].valid)
         && (bufs[i].locked ==> bufs[i].refcnt > 0)
         && (bufs[i].valid && !bufs[i].dirty && !bufs[i].locked ==> bufs[i].data == disk[bufs[i].blockno])
  }

  ghost predicate Caches(b: Buf, blockno: nat) { Names(b, 1, blockno) && b.valid }

  /** What bread shows of a block: the cached copy if there is one, else the disk. */
  ghost function View(bufs: seq<Buf>, disk: Disk, blockno: nat): (c: Block)
    requires |bufs| == NBUF + 1 && blockno < |disk|
  {
    if exists i :: 0 <= i < NBUF && Caches(bufs[i], blockno)
    then (var i :| 0 <= i < NBUF && Caches(bufs[i], blockno); bufs[i].data)
    else disk[blockno]
  }

  ghost function Views(bufs: seq<Buf>, disk: Disk): (v: Disk)
    requires |bufs| == NBUF + 1
    ensures |v| == |disk|
  {
    seq(|disk|, b requires 0 <= b < |disk| => View(bufs, disk, b))
  }

  /** The blocks the log has pinned in the cache. */
  ghost function DirtyBlocks(bufs: seq<Buf>): (s: set<nat>)
    requires |bufs| == NBUF + 1
  {
    set i | 0 <= i < NBUF && bufs[i].dirty :: bufs[i].blockno
  }

  ghost predicate Unlocked(bufs: seq<Buf>, blockno: nat)
    requires |bufs| == NBUF + 1
  {
    forall i :: 0 <= i < NBUF && Names(bufs[i], 1, blockno) ==> !bufs[i].locked
  }

  /** bget finds a buffer for the block. */
  ghost predicate Available(bufs: seq<Buf>, blockno: nat)
    requires |bufs| == NBUF + 1
  {
    exists i :: 0 <= i < NBUF && (Names(bufs[i], 1, blockno) || Idle(bufs[i]))
  }

  /** Between system calls nobody holds a buffer. */
  ghost predicate Quiet(bufs: seq<Buf>)
    requires |bufs| == NBUF + 1
  {
    forall i :: 0 <= i < NBUF ==> bufs[i].refcnt == 0
  }

  lemma ViewIsCached(bufs: seq<Buf>, disk: Disk, i: nat)
    requires Consistent(bufs, disk) && i < NBUF && bufs[i].valid
    ensures View(bufs, disk, bufs[i].blockno) == bufs[i].data
  {}

  /** Changing one buffer while keeping what it caches, or dropping or loading a copy that equals
      the disk, changes no view. */
  lemma SameViews(s: seq<Buf>, t: seq<Buf>, disk: Disk, r: nat)
    requires Consistent(s, disk) && Consistent(t, disk) && r < NBUF
    requires forall i :: 0 <= i < NBUF && i != r ==> SameBuf(s[i], t[i])
    requires s[r].valid && !(Names(t[r], 1, s[r].blockno) && t[r].valid) ==> s[r].data == disk[s[r].blockno]
    requires t[r].valid && !(Names(s[r], 1, t[r].blockno) && s[r].valid) ==> t[r].data == disk[t[r].blockno]
    requires s[r].valid && t[r].valid && s[r].blockno == t[r].blockno ==> s[r].data == t[r].data
    ensures Views(s, disk) == Views(t, disk)
  {}

  /** Writing through buffer r changes exactly the view of its block. */
  lemma ChangedView(s: seq<Buf>, t: seq<Buf>, disk: Disk, disk': Disk, r: nat)
    requires Consistent(s, disk) && Consistent(t, disk') && r < NBUF && |disk| == |disk'|
    requires forall i :: 0 <= i < NBUF && i != r ==> SameBuf(s[i], t[i])
    requires s[r].valid && t[r].valid && s[r].blockno == t[r].blockno
    requires forall b :: 0 <= b < |disk| && b != s[r].blockno ==> disk'[b] == disk[b]
    ensures Views(t, disk') == Views(s, disk)[s[r].blockno := t[r].data]
  {}

  /** A pinned block is never lost from the cache, and while its home on disk is old bread shows
      the new contents: the view of a clean, unlocked block is the disk's, so only blocks that are
      pinned (or locked by somebody who is changing them) can differ from the disk. */
  lemma OnlyPinnedDiffer(bufs: seq<Buf>, disk: Disk, b: nat)
    requires Consistent(bufs, disk) && b < |disk| && Unlocked(bufs, b)
    requires View(bufs, disk, b) != disk[b]
    ensures b in DirtyBlocks(bufs)
  {}

  lemma {:induction false} CountBelow(n: nat, used: set<nat>, all: set<nat>)
    requires all == set i: nat | 0 <= i < n && i !in used
    ensures |all| + |used| >= n
  {
    if n > 0 {
      var fewer := set i: nat | 0 <= i < n - 1 && i !in used;
      if n - 1 in used {
        assert all == fewer;
        var used' := used - {n - 1};
        assert fewer == set i: nat | 0 <= i < n - 1 && i !in used';
        CountBelow(n - 1, used', fewer);
      } else {
        assert all == fewer + {n - 1};
        CountBelow(n - 1, used, fewer);
      }
    }
  }

  lemma {:induction false} InjectionSize(f: seq<nat>, some: set<nat>, image: set<nat>)
    requires forall i :: i in some ==> i < |f| && f[i] in image
    requires forall i, j :: i in some && j in some && i != j ==> f[i] != f[j]
    ensures |some| <= |image|
    decreases |some|
  {
    if some != {} {
      var x :| x in some;
      InjectionSize(f, some - {x}, image - {f[x]});
    }
  }

  /** Distinct dirty buffers pin distinct blocks. */
  lemma DirtyInjects(bufs: seq<Buf>, disk: Disk, some: set<nat>)
    requires Consistent(bufs, disk)
    requires forall i :: i in some ==> i < NBUF && bufs[i].dirty
    ensures |some| <= |DirtyBlocks(bufs)|
  {
    var f := seq(NBUF, i requires 0 <= i < NBUF => bufs[i].blockno);
    forall i, j | i in some && j in some && i != j ensures f[i] != f[j] {
      assert if i < j then !Names(bufs[j], bufs[i].dev, bufs[i].blockno)
        else !Names(bufs[i], bufs[j].dev, bufs[j].blockno);
    }
    InjectionSize(f, some, DirtyBlocks(bufs));
  }

  /** Fewer pinned blocks than buffers leave an idle buffer, even with buffer r in use if there
      are two fewer; so bget cannot run out. */
  lemma IdleExists(bufs: seq<Buf>, disk: Disk, used: set<nat>)
    requires Consistent(bufs, disk)
    requires forall i :: 0 <= i < NBUF && i !in used ==> bufs[i].refcnt == 0
    requires |used| + |DirtyBlocks(bufs)| < NBUF
    ensures exists i :: 0 <= i < NBUF && i !in used && Idle(bufs[i])
  {
    if forall i :: 0 <= i < NBUF && i !in used ==> bufs[i].dirty {
      var all := set i: nat | 0 <= i < NBUF && i !in used;
      CountBelow(NBUF, used, all);
      DirtyInjects(bufs, disk, all);
    }
  }

  /** The pinned blocks after a change to buffer r alone. */
  lemma DirtyAfter(s: seq<Buf>, t: seq<Buf>, disk: Disk, r: nat)
    requires Consistent(s, disk) && |t| == NBUF + 1 && r < NBUF
    requires forall i :: 0 <= i < NBUF && i != r ==> SameBuf(s[i], t[i])
    requires t[r].dirty ==> !s[r].dirty || s[r].blockno == t[r].blockno
    ensures DirtyBlocks(t) == (if s[r].dirty then DirtyBlocks(s) - {s[r].blockno} else DirtyBlocks(s))
                            + (if t[r].dirty then {t[r].blockno} else {})
  {}

  lemma SameBufsSameViews(s: seq<Buf>, t: seq<Buf>, disk: Disk)
    requires Consistent(s, disk) && SameBufs(s, t)
    ensures Consistent(t, disk) && Views(s, disk) == Views(t, disk) && DirtyBlocks(s) == DirtyBlocks(t)
  {}

  /** The ring is sorted by last full release, the most recent first. */
  ghost predicate MostRecentFirst(ring: seq<nat>, released: seq<int>, clock: int) {
    && |released| == NBUF
    && (forall i :: 0 <= i < |ring| ==> ring[i] < NBUF && released[ring[i]] < clock)
    && forall i, j :: 0 <= i < j < |ring| ==> released[ring[i]] > released[ring[j]]
  }

  /** Where brelse's link assignments leave the buffers. */
  function ToFront(s: seq<Buf>, b: nat): (t: seq<Buf>)
    requires b < HEAD < |s| && s[b].next < |s| && s[b].prev < |s| && Unlink(s, b)[HEAD].next < |s|
  {
    PushFront(Unlink(s, b), b)
  }

  lemma SameAfterLink(s: seq<Buf>, u: seq<Buf>, i: nat, prev: nat, next: nat)
    requires |s| == NBUF + 1 && SameBufs(s, u) && i <= NBUF
    ensures SameBufs(s, u[i := u[i].(prev := prev, next := next)])
  {}

  lemma RelinkSame(s: seq<Buf>, b: nat)
    requires |s| == NBUF + 1 && b < NBUF && s[b].next <= HEAD && s[b].prev <= HEAD && Unlink(s, b)[HEAD].next <= HEAD
    ensures SameBufs(s, ToFront(s, b))
  {
    var n, p := s[b].next, s[b].prev;
    SameAfterLink(s, s, n, p, s[n].next);
    var s1 := s[n := s[n].(prev := p)];
    SameAfterLink(s, s1, p, s1[p].prev, n);
    var u := s1[p := s1[p].(next := n)];
    assert u == Unlink(s, b);
    var first := u[HEAD].next;
    SameAfterLink(s, u, b, HEAD, first);
    var s2 := u[b := u[b].(next := first, prev := HEAD)];
    SameAfterLink(s, s2, first, b, s2[first].next);
    var s3 := s2[first := s2[first].(prev := b)];
    SameAfterLink(s, s3, HEAD, s3[HEAD].prev, b);
  }

  lemma MoveLinked(s: seq<Buf>, ring: seq<nat>, k: nat)
    requires Ring(s, ring) && k < NBUF
    ensures s[ring[k]].next <= HEAD && s[ring[k]].prev <= HEAD && Unlink(s, ring[k])[HEAD].next <= HEAD
    ensures Linked(ToFront(s, ring[k]), [ring[k]] + Without(ring, k))
  {
    UnlinkKeepsLinks(s, ring, k);
    PushFrontKeepsLinks(Unlink(s, ring[k]), Without(ring, k), ring[k]);
  }

  function Referenced(b: Buf): (r: Buf) { b.(refcnt := b.refcnt + 1) }

  function Recycled(b: Buf, dev: nat, blockno: nat): (r: Buf) {
    b.(dev := dev, blockno := blockno, valid := false, dirty := false, refcnt := 1)
  }

  /** Changing the payload of one buffer keeps the ring. */
  lemma PayloadKeepsRing(s: seq<Buf>, t: seq<Buf>, ring: seq<nat>)
    requires Ring(s, ring) && |t| == |s|
    requires forall i :: 0 <= i <= NBUF ==> t[i].next == s[i].next && t[i].prev == s[i].prev
    ensures Ring(t, ring)
  {}

  /** A further reference changes nothing that bread shows. */
  lemma ReferenceKeeps(s: seq<Buf>, disk: Disk, ring: seq<nat>, b: nat)
    requires Ring(s, ring) && Consistent(s, disk) && b < NBUF
    ensures var t := s[b := Referenced(s[b])];
            Ring(t, ring) && Consistent(t, disk) && Views(s, disk) == Views(t, disk) && DirtyBlocks(s) == DirtyBlocks(t)
  {
    var t := s[b := Referenced(s[b])];
    PayloadKeepsRing(s, t, ring);
    SameViews(s, t, disk, b);
    DirtyAfter(s, t, disk, b);
  }

  /** Evicting an idle buffer loses nothing: what it cached is what the disk holds. */
  lemma RecycleKeeps(s: seq<Buf>, disk: Disk, ring: seq<nat>, b: nat, dev: nat, blockno: nat)
    requires Ring(s, ring) && Consistent(s, disk) && b < NBUF && Idle(s[b]) && dev != 0
    requires forall i :: 0 <= i < NBUF ==> !Names(s[i], dev, blockno)
    ensures var t := s[b := Recycled(s[b], dev, blockno)];
            Ring(t, ring) && Consistent(t, disk) && Views(s, disk) == Views(t, disk) && DirtyBlocks(s) == DirtyBlocks(t)
  {
    var t := s[b := Recycled(s[b], dev, blockno)];
    PayloadKeepsRing(s, t, ring);
    SameViews(s, t, disk, b);
    DirtyAfter(s, t, disk, b);
  }

  lemma LockKeeps(s: seq<Buf>, disk: Disk, ring: seq<nat>, b: nat)
    requires Ring(s, ring) && Consistent(s, disk) && b < NBUF && s[b].refcnt > 0
    ensures var t := s[b := s[b].(locked := true)];
            Ring(t, ring) && Consistent(t, disk) && Views(t, disk) == Views(s, disk) && DirtyBlocks(t) == DirtyBlocks(s)
  {
    var t := s[b := s[b].(locked := true)];
    PayloadKeepsRing(s, t, ring);
    SameViews(s, t, disk, b);
    DirtyAfter(s, t, disk, b);
  }

  lemma UnlockKeeps(s: seq<Buf>, disk: Disk, ring: seq<nat>, b: nat)
    requires Ring(s, ring) && Consistent(s, disk) && b < NBUF && s[b].locked && s[b].valid
    requires s[b].dirty || s[b].data == disk[s[b].blockno]
    ensures var t := s[b := s[b].(locked := false, refcnt := s[b].refcnt - 1)];
            Ring(t, ring) && Consistent(t, disk) && Views(t, disk) == Views(s, disk) && DirtyBlocks(t) == DirtyBlocks(s)
  {
    var t := s[b := s[b].(locked := false, refcnt := s[b].refcnt - 1)];
    PayloadKeepsRing(s, t, ring);
    SameViews(s, t, disk, b);
    DirtyAfter(s, t, disk, b);
  }

  lemma PinKeeps(s: seq<Buf>, disk: Disk, ring: seq<nat>, b: nat)
    requires Ring(s, ring) && Consistent(s, disk) && b < NBUF && s[b].locked && s[b].valid
    ensures var t := s[b := s[b].(dirty := true)];
            Ring(t, ring) && Consistent(t, disk) && Views(t, disk) == Views(s, disk)
            && DirtyBlocks(t) == DirtyBlocks(s) + {s[b].blockno}
  {
    var t := s[b := s[b].(dirty := true)];
    PayloadKeepsRing(s, t, ring);
    SameViews(s, t, disk, b);
    DirtyAfter(s, t, disk, b);
  }

  lemma StoreKeeps(s: seq<Buf>, disk: Disk, ring: seq<nat>, b: nat, data: Block)
    requires Ring(s, ring) && Consistent(s, disk) && b < NBUF && s[b].locked && s[b].valid
    ensures var t := s[b := s[b].(data := data)];
            Ring(t, ring) && Consistent(t, disk) && Views(t, disk) == Views(s, disk)[s[b].blockno := data]
            && DirtyBlocks(t) == DirtyBlocks(s)
  {
    var t := s[b := s[b].(data := data)];
    PayloadKeepsRing(s, t, ring);
    ChangedView(s, t, disk, disk, b);
    DirtyAfter(s, t, disk, b);
  }

  lemma FillKeeps(s: seq<Buf>, disk: Disk, ring: seq<nat>, b: nat)
    requires Ring(s, ring) && Consistent(s, disk) && b < NBUF && !s[b].valid
    requires s[b].dev == 1 && s[b].blockno < |disk|
    ensures var t := s[b := s[b].(data := disk[s[b].blockno], valid := true)];
            Ring(t, ring) && Consistent(t, disk) && Views(t, disk) == Views(s, disk) && DirtyBlocks(t) == DirtyBlocks(s)
  {
    var t := s[b := s[b].(data := disk[s[b].blockno], valid := true)];
    PayloadKeepsRing(s, t, ring);
    SameViews(s, t, disk, b);
    DirtyAfter(s, t, disk, b);
  }

  lemma OthersElsewhere(s: seq<Buf>, disk: Disk, b: nat)
    requires Consistent(s, disk) && b < NBUF && s[b].dev == 1
    ensures forall i :: 0 <= i < NBUF && i != b && s[i].dev == 1 ==> s[i].blockno != s[b].blockno
  {}

  lemma WriteBackKeeps(s: seq<Buf>, disk: Disk, ring: seq<nat>, b: nat)
    requires Ring(s, ring) && Consistent(s, disk) && b < NBUF && s[b].dirty
    ensures var t := s[b := s[b].(dirty := false, valid := true)];
            var disk' := disk[s[b].blockno := s[b].data];
            Ring(t, ring) && Consistent(t, disk') && Views(t, disk') == Views(s, disk)
            && DirtyBlocks(t) == DirtyBlocks(s) - {s[b].blockno}
  {
    var t := s[b := s[b].(dirty := false, valid := true)];
    var disk' := disk[s[b].blockno := s[b].data];
    PayloadKeepsRing(s, t, ring);
    OthersElsewhere(s, disk, b);
    ChangedView(s, t, disk, disk', b);
    ViewIsCached(s, disk, b);
    assert Views(s, disk)[s[b].blockno := s[b].data] == Views(s, disk);
    DirtyAfter(s, t, disk, b);
  }

  lemma PinnedIffDirty(s: seq<Buf>, disk: Disk, b: nat)
    requires Consistent(s, disk) && b < NBUF && s[b].valid
    ensures s[b].dirty <==> s[b].blockno in DirtyBlocks(s)
  {}

  /** The buffer released now goes to the front of the ring, which stays sorted by release. */
  lemma FrontIsRing(ring: seq<nat>, released: seq<int>, clock: int, k: nat)
    requires MostRecentFirst(ring, released, clock) && |ring| == NBUF && k < NBUF
    requires forall i :: 0 <= i < NBUF ==> i in ring
    ensures var r := [ring[k]] + Without(ring, k);
            && |r| == NBUF
            && (forall i :: 0 <= i < NBUF ==> i in r)
            && MostRecentFirst(r, released[ring[k] := clock], clock + 1)
  {
    var w := Without(ring, k);
    var r := [ring[k]] + w;
    forall i | 0 <= i < NBUF ensures i in r {
      assert i in ring;
      var j :| 0 <= j < |ring| && ring[j] == i;
      assert if j < k then w[j] == i else if j > k then w[j - 1] == i else r[0] == i;
    }
    forall i | 0 <= i < |w| ensures w[i] == ring[if i < k then i else i + 1] {}
  }

  class Cache {
    const buf: array<Buf>
    var disk: Disk
    ghost const boot: Disk           // the disk image at power-on
    ghost var writes: seq<Write>     // every block write since then, in order
    ghost var ring: seq<nat>
    ghost var released: seq<int>     // when each buffer's refcnt last fell to 0
    ghost var clock: int

    ghost predicate Valid()
      reads this, buf
    {
      && buf.Length == NBUF + 1
      && Ring(buf[..], ring)
      && Consistent(buf[..], disk)
      && MostRecentFirst(ring, released, clock)
      && InRange(|boot|, writes) && disk == Apply(boot, writes)
    }

    /** What bread shows of every block. */
    ghost function Shown(): (v: Disk)
      reads this, buf
      requires buf.Length == NBUF + 1
    {
      Views(buf[..], disk)
    }

    ghost function Pinned(): (s: set<nat>)
      reads this, buf
      requires buf.Length == NBUF + 1
    {
      DirtyBlocks(buf[..])
    }

    /** binit over a disk image: all buffers empty, on device 0, pushed onto the ring one by one. */
    constructor (image: Disk)
      ensures Valid() && fresh(buf) && disk == boot == image && writes == []
      ensures Shown() == image && Pinned() == {} && Quiet(buf[..])
      ensures forall i :: 0 <= i < NBUF ==> ring[i] == NBUF - 1 - i
    {
      var bufs := new Buf[NBUF + 1](i => Buf(0, 0, 0, false, false, false, ZeroBlock(), HEAD, HEAD));
      disk, boot, writes := image, image, [];
      ghost var r: seq<nat> := [];
      assert Linked(bufs[..], r);
      for b := 0 to NBUF
        invariant Linked(bufs[..], r) && |r| == b
        invariant forall i :: 0 <= i < b ==> r[i] == b - 1 - i
        invariant forall i :: 0 <= i < NBUF ==>
          SameBuf(bufs[i], Buf(0, 0, 0, false, false, false, ZeroBlock(), HEAD, HEAD))
      {
        PushFrontKeepsLinks(bufs[..], r, b);
        ghost var was := bufs[..];
        var first := bufs[HEAD].next;
        bufs[b] := bufs[b].(next := first, prev := HEAD);
        bufs[first] := bufs[first].(prev := b);
        bufs[HEAD] := bufs[HEAD].(next := b);
        assert bufs[..] == PushFront(was, b);
        r := [b] + r;
      }
      buf := bufs;
      ring, released, clock := r, seq(NBUF, i => i), NBUF;
      forall i | 0 <= i < NBUF ensures i in r { assert r[NBUF - 1 - i] == i; }
      new;
      assert forall b :: 0 <= b < |disk| ==> View(buf[..], disk, b) == image[b];
    }

    lemma Positioned(b: nat)
      requires Valid() && b < NBUF
      ensures exists k :: 1 <= k <= NBUF && Cycle(ring)[k] == b && ring[k - 1] == b
    {
      assert b in ring;
      var j :| 0 <= j < |ring| && ring[j] == b;
      assert Cycle(ring)[j + 1] == b;
    }

    /** bget's first loop, from head.next: is the block already cached? HEAD if not. */
    method Lookup(dev: nat, blockno: nat) returns (b: nat)
      requires Valid()
      ensures b <= HEAD
      ensures b < HEAD ==> Names(buf[b], dev, blockno)
      ensures b == HEAD ==> forall i :: 0 <= i < NBUF ==> !Names(buf[i], dev, blockno)
    {
      ghost var c := Cycle(ring);
      assert buf[..][c[0]].next == c[1];
      b := buf[HEAD].next;
      ghost var k := 1;
      while b != HEAD
        invariant 1 <= k <= NBUF + 1 && b == c[k]
        invariant forall i :: 1 <= i < k ==> !Names(buf[c[i]], dev, blockno)
        decreases NBUF + 1 - k
      {
        if buf[b].dev == dev && buf[b].blockno == blockno { return; }
        assert buf[..][c[k]].next == c[k + 1];
        b := buf[b].next;
        k := k + 1;
      }
      forall i | 0 <= i < NBUF ensures !Names(buf[i], dev, blockno) { Positioned(i); }
    }

    /** bget's second loop, from head.prev: the idle buffer whose last release is oldest.
        HEAD if no buffer is idle. */
    method Victim() returns (b: nat)
      requires Valid()
      ensures b <= HEAD
      ensures b < HEAD ==> Idle(buf[b])
      ensures b < HEAD ==> forall i :: 0 <= i < NBUF && i != b && Idle(buf[i]) ==> released[b] < released[i]
      ensures b == HEAD ==> forall i :: 0 <= i < NBUF ==> !Idle(buf[i])
    {
      ghost var c := Cycle(ring);
      assert buf[..][c[NBUF + 1]].prev == c[NBUF];
      b := buf[HEAD].prev;
      ghost var k := NBUF;
      while b != HEAD
        invariant 0 <= k <= NBUF && b == c[k]
        invariant forall i :: k < i <= NBUF ==> !Idle(buf[c[i]])
        decreases k
      {
        if buf[b].refcnt == 0 && !buf[b].dirty {
          forall i | 0 <= i < NBUF && i != b && Idle(buf[i]) ensures released[b] < released[i] {
            Positioned(i);
            assert ring[k - 1] == b;
          }
          return;
        }
        assert buf[..][c[k - 1 + 1]].prev == c[k - 1];
        b := buf[b].prev;
        k := k - 1;
      }
      forall i | 0 <= i < NBUF ensures !Idle(buf[i]) { Positioned(i); }
    }

    /** bget. A cached block gains a reference; otherwise the idle buffer whose last release is
        oldest is given to the block. None is panic("bget: no buffers"). */
    method Bget(dev: nat, blockno: nat) returns (r: Option<nat>)
      requires Valid() && dev != 0
      modifies buf
      ensures Valid()
      ensures r.None? <==> forall i :: 0 <= i < NBUF ==> !Names(old(buf[i]), dev, blockno) && !Idle(old(buf[i]))
      ensures r.None? ==> buf[..] == old(buf[..])
      ensures r.Some? ==> r.value < NBUF
      ensures r.Some? && Names(old(buf[r.value]), dev, blockno) ==>
        buf[..] == old(buf[..])[r.value := Referenced(old(buf[r.value]))]
      ensures r.Some? && !Names(old(buf[r.value]), dev, blockno) ==>
        && (forall i :: 0 <= i < NBUF ==> !Names(old(buf[i]), dev, blockno))
        && Idle(old(buf[r.value]))
        && (forall i :: 0 <= i < NBUF && i != r.value && Idle(old(buf[i])) ==> released[r.value] < released[i])
        && buf[..] == old(buf[..])[r.value := Recycled(old(buf[r.value]), dev, blockno)]
      ensures Shown() == old(Shown()) && Pinned() == old(Pinned())
    {
      var b := Lookup(dev, blockno);
      if b != HEAD {
        ReferenceKeeps(buf[..], disk, ring, b);
        buf[b] := Referenced(buf[b]);
        return Some(b);
      }
      b := Victim();
      if b != HEAD {
        RecycleKeeps(buf[..], disk, ring, b, dev, blockno);
        buf[b] := Recycled(buf[b], dev, blockno);
        return Some(b);
      }
      r := None;
    }

    /** iderw of memide.c: a dirty buffer goes to the disk, an invalid one is filled from it. The
        requires are its four panics. */
    method Iderw(b: nat)
      requires Valid() && b < NBUF
      requires buf[b].locked && !(buf[b].valid && !buf[b].dirty)
      requires buf[b].dev == 1 && buf[b].blockno < |disk|
      modifies this, buf
      ensures Valid()
      ensures old(buf[b]).dirty ==>
        && buf[..] == old(buf[..])[b := old(buf[b]).(dirty := false, valid := true)]
        && disk == old(disk)[buf[b].blockno := buf[b].data]
        && writes == old(writes) + [Write(buf[b].blockno, buf[b].data)]
      ensures !old(buf[b]).dirty ==>
        && buf[..] == old(buf[..])[b := old(buf[b]).(data := old(disk)[old(buf[b]).blockno], valid := true)]
        && disk == old(disk) && writes == old(writes)
      ensures ring == old(ring) && released == old(released) && clock == old(clock)
      ensures Shown() == old(Shown())
      ensures Pinned() == if old(buf[b]).dirty then old(Pinned()) - {buf[b].blockno} else old(Pinned())
    {
      ghost var s := buf[..];
      if buf[b].dirty {
        WriteBackKeeps(s, disk, ring, b);
        var w := Write(buf[b].blockno, buf[b].data);
        ApplyLast(boot, writes, w);
        buf[b] := buf[b].(dirty := false);
        disk := disk[w.bno := w.data];
        writes := writes + [w];
      } else {
        FillKeeps(s, disk, ring, b);
        buf[b] := buf[b].(data := disk[buf[b].blockno]);
      }
      buf[b] := buf[b].(valid := true);
      assert old(buf[b]).dirty ==> buf[..] == s[b := s[b].(dirty := false, valid := true)];
      assert !old(buf[b]).dirty ==> buf[..] == s[b := s[b].(data := disk[s[b].blockno], valid := true)];
    }

    /** bread on device 1: a locked buffer that shows the block. It fails exactly when the block
        is not cached and every buffer is referenced or pinned. The second requires is what
        acquiresleep waits for. */
    method Bread(blockno: nat) returns (r: Option<nat>)
      requires Valid() && blockno < |disk|
      requires Unlocked(buf[..], blockno)
      modifies this, buf
      ensures Valid()
      ensures r.Some? <==> Available(old(buf[..]), blockno)
      ensures r.None? ==> buf[..] == old(buf[..])
      ensures r.Some? ==>
        && r.value < NBUF
        && buf[r.value].locked && buf[r.value].valid && Names(buf[r.value], 1, blockno)
        && buf[r.value].refcnt == (if Names(old(buf[r.value]), 1, blockno) then old(buf[r.value]).refcnt + 1 else 1)
        && (buf[r.value].dirty <==> blockno in old(Pinned()))
        && buf[r.value].data == old(Shown())[blockno]
        && buf[..] == old(buf[..])[r.value := buf[r.value]]
        && (Names(old(buf[r.value]), 1, blockno) || Idle(old(buf[r.value])))
      ensures disk == old(disk) && writes == old(writes)
      ensures ring == old(ring) && released == old(released) && clock == old(clock)
      ensures Shown() == old(Shown()) && Pinned() == old(Pinned())
    {
      r := Bget(1, blockno);
      if r.None? { return; }
      var b := r.value;
      LockKeeps(buf[..], disk, ring, b);
      buf[b] := buf[b].(locked := true);                  // acquiresleep(&b->lock)
      if !buf[b].valid {
        Iderw(b);
      }
      ViewIsCached(buf[..], disk, b);
      PinnedIffDirty(buf[..], disk, b);
      assert Pinned() == old(Pinned());
    }

    /** memmove into bp->data by the process that has the buffer locked. */
    method Store(b: nat, data: Block)
      requires Valid() && b < NBUF && buf[b].locked && buf[b].valid
      modifies buf
      ensures Valid() && buf[..] == old(buf[..])[b := old(buf[b]).(data := data)]
      ensures Shown() == old(Shown())[buf[b].blockno := data] && Pinned() == old(Pinned())
    {
      StoreKeeps(buf[..], disk, ring, b, data);
      buf[b] := buf[b].(data := data);
    }

    /** The last line of log_write: B_DIRTY keeps the buffer in the cache. */
    method Pin(b: nat)
      requires Valid() && b < NBUF && buf[b].locked && buf[b].valid
      modifies buf
      ensures Valid() && buf[..] == old(buf[..])[b := old(buf[b]).(dirty := true)]
      ensures Shown() == old(Shown()) && Pinned() == old(Pinned()) + {buf[b].blockno}
    {
      PinKeeps(buf[..], disk, ring, b);
      buf[b] := buf[b].(dirty := true);
    }

    /** bwrite: one atomic block write, which also unpins the block. */
    method Bwrite(b: nat)
      requires Valid() && b < NBUF && buf[b].locked && buf[b].valid
      modifies this, buf
      ensures Valid() && buf[..] == old(buf[..])[b := old(buf[b]).(dirty := false)]
      ensures disk == old(disk)[buf[b].blockno := buf[b].data]
      ensures writes == old(writes) + [Write(buf[b].blockno, buf[b].data)]
      ensures ring == old(ring) && released == old(released) && clock == old(clock)
      ensures Shown() == old(Shown()) && Pinned() == old(Pinned()) - {buf[b].blockno}
    {
      Pin(b);
      Iderw(b);
    }

    /** brelse. Whoever changed the data has written or pinned it first. The last reference moves
        the buffer to the front of the ring. */
    method Brelse(b: nat)
      requires Valid() && b < NBUF && buf[b].locked && buf[b].valid
      requires buf[b].dirty || buf[b].data == disk[buf[b].blockno]
      modifies this, buf
      ensures Valid()
      ensures SameBufs(buf[..], old(buf[..])[b := old(buf[b]).(locked := false, refcnt := old(buf[b]).refcnt - 1)])
      ensures disk == old(disk) && writes == old(writes)
      ensures old(buf[b]).refcnt > 1 ==> ring == old(ring) && released == old(released)
      ensures old(buf[b]).refcnt == 1 ==>
        && released == old(released)[b := old(clock)]
        && exists k :: 0 <= k < NBUF && old(ring)[k] == b && ring == [b] + Without(old(ring), k)
      ensures Shown() == old(Shown()) && Pinned() == old(Pinned())
    {
      UnlockKeeps(buf[..], disk, ring, b);
      buf[b] := buf[b].(locked := false, refcnt := buf[b].refcnt - 1);
      if buf[b].refcnt == 0 {
        Retire(b);
      }
    }

    /** The end of brelse: nobody is waiting for the buffer, so it becomes the most recent one. */
    method Retire(b: nat)
      requires Valid() && b < NBUF
      modifies this, buf
      ensures Valid() && SameBufs(buf[..], old(buf[..]))
      ensures disk == old(disk) && writes == old(writes)
      ensures released == old(released)[b := old(clock)]
      ensures exists k :: 0 <= k < NBUF && old(ring)[k] == b && ring == [b] + Without(old(ring), k)
      ensures Shown() == old(Shown()) && Pinned() == old(Pinned())
    {
      hide Cycle, Consistent, Views, DirtyBlocks;
      assert b in ring;
      ghost var k :| 0 <= k < |ring| && ring[k] == b;
      ghost var s := buf[..];
      MoveLinked(s, ring, k);
      RelinkSame(s, b);
      SameBufsSameViews(s, ToFront(s, b), disk);
      FrontIsRing(ring, released, clock, k);
      MoveToFront(b);
      ring, released, clock := [b] + Without(ring, k), released[b := clock], clock + 1;
      assert Linked(buf[..], ring);
    }

    /** The six link assignments at the end of brelse. */
    method MoveToFront(b: nat)
      requires buf.Length == NBUF + 1 && b < NBUF
      requires buf[b].next <= HEAD && buf[b].prev <= HEAD && Unlink(buf[..], b)[HEAD].next <= HEAD
      modifies buf
      ensures buf[..] == ToFront(old(buf[..]), b)
    {
      buf[buf[b].next] := buf[buf[b].next].(prev := buf[b].prev);
      buf[buf[b].prev] := buf[buf[b].prev].(next := buf[b].next);
      assert buf[..] == Unlink(old(buf[..]), b);
      var first := buf[HEAD].next;
      buf[b] := buf[b].(next := first, prev := HEAD);
      buf[first] := buf[first].(prev := b);
      buf[HEAD] := buf[HEAD].(next := b);
    }
  }
}
