/** What growing an address space costs in page frames: one for each page, and one for each page
    table that its directory does not have yet. */
module FrameCount {
  import opened Frames
  import opened Sets

  /** The directory entries of d that have a table. */
  function Tables(p: Phys, d: nat): (s: set<nat>) {
    if d < |p.mem| then set i: nat | i < |p.mem[d]| && Present(p.mem[d][i]) else {}
  }

  /** The directory entries under which the pages [a, b) lie. */
  function TablesFor(a: nat, b: nat): (s: set<nat>) { set w: nat | a <= w < b :: Pdx(w) }

  /** From p to r the free list has given n frames to other uses and one to each table of ts that d
      did not have, and d has got those tables. */
  ghost predicate Spent(p: Phys, r: Phys, d: nat, n: nat, ts: set<nat>) {
    && Tables(r, d) == Tables(p, d) + ts
    && |p.free| == |r.free| + n + |ts - Tables(p, d)|
  }

  /** The free list can pay for n frames and the tables of ts. */
  ghost predicate Affords(p: Phys, d: nat, n: nat, ts: set<nat>) { |p.free| >= n + |ts - Tables(p, d)| }

  lemma SpentAffords(p: Phys, r: Phys, d: nat, n: nat, ts: set<nat>)
    requires Spent(p, r, d, n, ts)
    ensures Affords(p, d, n, ts)
  {}

  lemma SpentNothing(p: Phys, d: nat)
    ensures Spent(p, p, d, 0, {})
  {
    assert {} - Tables(p, d) == {} && Tables(p, d) + {} == Tables(p, d);
  }

  /** One more step, and what it may cost: the price of both together is the sum. */
  lemma SpentThen(p: Phys, q: Phys, d: nat, n: nat, ts: set<nat>, m: nat, us: set<nat>)
    requires Spent(p, q, d, n, ts)
    ensures Affords(q, d, m, us) <==> Affords(p, d, n + m, ts + us)
    ensures forall r :: Spent(q, r, d, m, us) ==> Spent(p, r, d, n + m, ts + us)
  {
    var t := Tables(p, d);
    assert (ts + us) - t == (ts - t) + (us - (t + ts));
    assert (ts - t) !! (us - (t + ts));
    forall r | Spent(q, r, d, m, us) ensures Spent(p, r, d, n + m, ts + us) {
      assert t + ts + us == t + (ts + us);
    }
  }

  /** What cannot pay for a part cannot pay for the whole. */
  lemma AffordsPart(p: Phys, d: nat, n: nat, ts: set<nat>, m: nat, us: set<nat>)
    requires Affords(p, d, m, us) && n <= m && ts <= us
    ensures Affords(p, d, n, ts)
  {
    SubsetSize(ts - Tables(p, d), us - Tables(p, d));
  }

  lemma NextTable(a: nat, v: nat)
    requires a <= v
    ensures TablesFor(a, v + 1) == TablesFor(a, v) + {Pdx(v)}
  {
    forall i | i in TablesFor(a, v) + {Pdx(v)} ensures i in TablesFor(a, v + 1) {
      if i == Pdx(v) { assert a <= v < v + 1; }
    }
  }

  lemma TablesWithin(a: nat, b: nat, c: nat)
    requires b <= c
    ensures TablesFor(a, b) <= TablesFor(a, c)
  {
    forall i | i in TablesFor(a, b) ensures i in TablesFor(a, c) {
      var w: nat :| a <= w < b && Pdx(w) == i;
      assert a <= w < c;
    }
  }

  /** Page by page through [a, b): the pages below v are paid for, the next one costs c frames besides
      its table. */
  lemma PagePays(p: Phys, q: Phys, d: nat, a: nat, v: nat, b: nat, n: nat, c: nat, m: nat)
    requires Spent(p, q, d, n, TablesFor(a, v)) && a <= v < b && n + c <= m
    ensures !Affords(q, d, c, {Pdx(v)}) ==> !Affords(p, d, m, TablesFor(a, b))
    ensures forall r :: Spent(q, r, d, c, {Pdx(v)}) ==> Spent(p, r, d, n + c, TablesFor(a, v + 1))
  {
    SpentThen(p, q, d, n, TablesFor(a, v), c, {Pdx(v)});
    NextTable(a, v);
    TablesWithin(a, v + 1, b);
    hide TablesFor, Spent;
    if Affords(p, d, m, TablesFor(a, b)) { AffordsPart(p, d, n + c, TablesFor(a, v + 1), m, TablesFor(a, b)); }
  }

  lemma NoTables(a: nat)
    ensures TablesFor(a, a) == {}
  {}

  lemma AddedTables(p: Phys, d: nat, i: nat)
    requires Shaped(p) && p.free != [] && p.free[0] < |p.mem| && d < |p.mem| && i < NENTRIES && d != p.free[0]
    ensures Tables(TableAdded(p, d, i), d) == Tables(p, d) + {i}
    ensures |TableAdded(p, d, i).free| == |p.free| - 1
  {
    var r := TableAdded(p, d, i);
    assert r.mem[d] == p.mem[d][i := Entry(p.free[0], 6)];
  }

  /** walkpgdir with alloc: a missing table costs one frame. */
  lemma WalkSpends(p: Phys, d: nat, v: nat)
    requires Inv(p) && IsDir(p, d) && v < NPAGES
    ensures d < |p.mem| && Pdx(v) < |p.mem[d]|
    ensures CanWalk(p, d, v) <==> Affords(p, d, 0, {Pdx(v)})
    ensures CanWalk(p, d, v) ==> Spent(p, Walked(p, d, v), d, 0, {Pdx(v)})
  {
    TableOfEntry(p, d, v);
    var t := Tables(p, d);
    if Present(p.mem[d][Pdx(v)]) {
      assert {Pdx(v)} - t == {} && t + {Pdx(v)} == t;
    } else {
      assert {Pdx(v)} - t == {Pdx(v)};
      if p.free != [] {
        TableAddedKeeps(p, d, Pdx(v));
        AddedTables(p, d, Pdx(v));
      }
    }
  }

  /** A store into a page table does not change the directory. */
  lemma PointedSpends(q: Phys, d: nat, t: nat, j: nat, w: nat, f: nat, o: Owner)
    requires t < |q.mem| && j < |q.mem[t]| && f < |q.owner| && t != d
    ensures Tables(Pointed(q, t, j, w, f, o), d) == Tables(q, d) && Pointed(q, t, j, w, f, o).free == q.free
  {}

  lemma MapSpends(p: Phys, d: nat, v: nat, f: nat, flags: nat)
    requires Inv(p) && IsDir(p, d) && v < NPAGES && CanWalk(p, d, v) && f < |p.mem| && flags < 4096
    ensures Spent(p, Mapped(p, d, v, f, flags), d, 0, {Pdx(v)})
  {
    WalkSpends(p, d, v);
    WalkKeeps(p, d, v);
    var q := Walked(p, d, v);
    var t := TableAt(q, d, v);
    PointedSpends(q, d, t, Ptx(v), Entry(f, flags), f, User(t, Ptx(v)));
  }

  lemma KernelMapSpends(p: Phys, d: nat, v: nat, f: nat, flags: nat)
    requires Inv(p) && IsDir(p, d) && v < NPAGES && CanWalk(p, d, v) && flags < 4096
    ensures Spent(p, KernelMapped(p, d, v, f, flags), d, 0, {Pdx(v)})
  {
    WalkSpends(p, d, v);
    WalkKeeps(p, d, v);
    var q := Walked(p, d, v);
    var t := TableAt(q, d, v);
    PointedSpends(q, d, t, Ptx(v), Entry(f, flags), t, Table(d, Pdx(v)));
  }

  /** kalloc and the page's content. */
  lemma TakeSpends(q: Phys, d: nat, c: Frame)
    requires q.free != [] && q.free[0] < |q.mem| && |q.owner| == |q.mem| && d != q.free[0]
    ensures Spent(q, Written(Taken(q), q.free[0], c), d, 1, {})
  {
    assert {} - Tables(q, d) == {} && Tables(q, d) + {} == Tables(q, d);
  }

  /** A round of allocuvm or copyuvm: a frame for the page, and one for its table if that is missing. */
  lemma AddSpends(q: Phys, d: nat, v: nat, c: Frame, flags: nat)
    requires Inv(q) && IsDir(q, d) && v < USERPAGES && !Present(PteAt(q, d, v)) && |c| == NENTRIES && flags < 4096
    requires q.free != []
    ensures q.free[0] < |q.mem|
    ensures var x := Written(Taken(q), q.free[0], c);
      && Inv(x) && IsDir(x, d) && Pdx(v) < |x.mem[d]|
      && (CanWalk(x, d, v) <==> Affords(q, d, 1, {Pdx(v)}))
      && (CanWalk(x, d, v) ==> Spent(q, Mapped(x, d, v, q.free[0], flags), d, 1, {Pdx(v)}))
  {
    AddKeeps(q, d, v, c, flags);
    var x := Written(Taken(q), q.free[0], c);
    TakeSpends(q, d, c);
    WalkSpends(x, d, v);
    SpentThen(q, x, d, 1, {}, 0, {Pdx(v)});
    assert {} + {Pdx(v)} == {Pdx(v)};
    if CanWalk(x, d, v) { MapSpends(x, d, v, q.free[0], flags); }
  }

  /** The loop of allocuvm or copyuvm from state p: d has its pages [a, v) with these contents and
      flags, nothing else reads differently, and the free list has paid for exactly that. */
  ghost predicate Adding(p: Phys, q: Phys, d: nat, a: nat, v: nat, cs: seq<Frame>, fs: seq<nat>) {
    && a <= v <= |cs| && |fs| == |cs| <= USERPAGES
    && Grew(p, q, d, a, v) && SameOutside(p, q, d, a, v) && AllHave(q, d, a, v, cs, fs)
    && Spent(p, q, d, v - a, TablesFor(a, v))
  }

  lemma AddingStarts(p: Phys, d: nat, a: nat, cs: seq<Frame>, fs: seq<nat>)
    requires Inv(p) && IsDir(p, d) && a <= |cs| == |fs| <= USERPAGES
    ensures Adding(p, p, d, a, a, cs, fs)
  {
    NoTables(a);
    SpentNothing(p, d);
  }

  lemma AddingStep(p: Phys, q: Phys, r: Phys, d: nat, a: nat, v: nat, cs: seq<Frame>, fs: seq<nat>)
    requires Inv(p) && IsDir(p, d) && Inv(q) && IsDir(q, d) && Adding(p, q, d, a, v, cs, fs) && v < |cs| && v < |fs|
    requires Grew(q, r, d, v, v + 1) && SameBut(q, r, d, v) && PageHas(r, d, v, cs[v], fs[v])
    requires Spent(q, r, d, 1, {Pdx(v)})
    ensures Adding(p, r, d, a, v + 1, cs, fs)
  {
    hide Inv, Grew, SameOutside, SameBut, AllHave, PageHas, Spent, TablesFor;
    AddedOneMore(p, q, r, d, a, v, cs, fs);
    PagePays(p, q, d, a, v, v + 1, v - a, 1, v - a + 1);
  }

  lemma AddingMeans(p: Phys, q: Phys, d: nat, a: nat, v: nat, cs: seq<Frame>, fs: seq<nat>)
    requires Adding(p, q, d, a, v, cs, fs) && IsDir(p, d)
    ensures a <= v <= |cs| && |fs| == |cs| <= USERPAGES
    ensures Grew(p, q, d, a, v) && SameOutside(p, q, d, a, v)
    ensures forall w: nat :: a <= w < v ==> PageHas(q, d, w, cs[w], fs[w])
    ensures forall w: nat :: v <= w < USERPAGES ==> PteAt(q, d, w) == PteAt(p, d, w)
    ensures forall w: nat :: v <= w < NPAGES ==> PteAt(q, d, w) == PteAt(p, d, w)
    ensures Spent(p, q, d, v - a, TablesFor(a, v)) && Affords(p, d, v - a, TablesFor(a, v))
  {
    hide Grew, PageHas, PteAt, TablesFor;
  }

  /** What allocuvm has done to d when it succeeds: every page of [a, b) is mapped to a zeroed frame, user
      programs may write it, and the free list has paid for exactly these pages and their tables. */
  ghost predicate Allocated(p: Phys, s: Phys, d: nat, a: nat, b: nat)
    requires a <= b
  {
    && Grew(p, s, d, a, b) && SameOutside(p, s, d, a, b)
    && (forall w: nat :: a <= w < b ==> PageHas(s, d, w, Filled(0), 7))
    && (forall w: nat :: a <= w < b ==> UserWrites(s, d, w))
    && Spent(p, s, d, b - a, TablesFor(a, b))
  }

  /** What it leaves when it fails: no page of [a, b) is mapped, every other page reads as before, and
      frames are used for tables of d at most. */
  ghost predicate AllocUndone(p: Phys, s: Phys, d: nat, a: nat, b: nat) {
    && Grew(p, s, d, a, a) && SameOutside(p, s, d, a, b)
    && (forall w: nat :: a <= w < b ==> !Present(PteAt(s, d, w)))
  }

  lemma AddingAllocates(p: Phys, q: Phys, d: nat, a: nat, b: nat, cs: seq<Frame>, fs: seq<nat>)
    requires Adding(p, q, d, a, b, cs, fs) && IsDir(p, d) && Inv(q) && IsDir(q, d) && |cs| == |fs| == b <= USERPAGES
    requires forall w: nat :: w < b ==> cs[w] == Filled(0) && fs[w] == 7
    ensures a <= b && Allocated(p, q, d, a, b) && Affords(p, d, b - a, TablesFor(a, b))
  {
    hide Inv, IsDir, Adding, Grew, SameOutside, PageHas, UserWrites, Spent, Affords, TablesFor;
    AddingMeans(p, q, d, a, b, cs, fs);
    forall w: nat | a <= w < b ensures PageHas(q, d, w, Filled(0), 7) {
      assert PageHas(q, d, w, cs[w], fs[w]);
    }
    PagesAreWritable(q, d, a, b);
  }

  /** A round that cannot be paid for: the whole could not have been. */
  lemma AddingFails(p: Phys, q: Phys, d: nat, a: nat, v: nat, cs: seq<Frame>, fs: seq<nat>)
    requires Adding(p, q, d, a, v, cs, fs) && v < |cs| && !Affords(q, d, 1, {Pdx(v)})
    ensures a <= |cs| && !Affords(p, d, |cs| - a, TablesFor(a, |cs|))
  {
    hide Grew, SameOutside, AllHave, Spent, Affords, TablesFor;
    PagePays(p, q, d, a, v, |cs|, v - a, 1, |cs| - a);
  }

  /** mappages for one kernel page, as a whole. */
  lemma KernelMapDone(p: Phys, d: nat, v: nat, f: nat, flags: nat)
    requires Inv(p) && IsDir(p, d) && USERPAGES <= v < NPAGES && CanWalk(p, d, v) && flags < 4096
    ensures var r := KernelMapped(p, d, v, f, flags);
      && Inv(r) && IsDir(r, d) && Grew(p, r, d, 0, 0) && SameBut(p, r, d, v) && PteAt(r, d, v) == Entry(f, flags)
      && Spent(p, r, d, 0, {Pdx(v)})
  {
    KernelMapSpends(p, d, v, f, flags);
    KernelMapKeeps(p, d, v, f, flags);
    KernelMapOwners(p, d, v, f, flags);
    hide *;
    TablesAreGrowth(p, KernelMapped(p, d, v, f, flags), d);
  }

  /** The directory entries under which kmap's ranges lie. */
  function KernelTables(kmap: seq<Kmap>): (s: set<nat>) {
    if kmap == [] then {} else
      var k := kmap[|kmap| - 1];
      KernelTables(kmap[..|kmap| - 1]) + TablesFor(k.virt, k.virt + k.n)
  }

  lemma {:induction false} KernelTablesWithin(kmap: seq<Kmap>, k: nat)
    requires k <= |kmap|
    ensures KernelTables(kmap[..k]) <= KernelTables(kmap)
    decreases |kmap|
  {
    if k == |kmap| {
      assert kmap[..k] == kmap;
    } else {
      assert kmap[..k] == kmap[..|kmap| - 1][..k];
      KernelTablesWithin(kmap[..|kmap| - 1], k);
    }
  }

  /** A new directory has no tables. */
  lemma FoundingSpends(p: Phys)
    requires Inv(p) && p.free != []
    ensures p.free[0] < |p.mem| && |p.owner| == |p.mem|
    ensures Tables(Founded(p), p.free[0]) == {} && |Founded(p).free| == |p.free| - 1
  {
    FoundingBears(p);
  }

  /** setupkvm after some of its ranges: the directory's tables are theirs, and the free list has paid
      for them and for the directory. */
  ghost predicate Founding(free: nat, q: Phys, d: nat, ts: set<nat>) {
    Tables(q, d) == ts && free == 1 + |q.free| + |ts|
  }

  lemma FoundingPaid(free: nat, q: Phys, d: nat, ts: set<nat>)
    requires Founding(free, q, d, ts)
    ensures free >= 1 + |ts|
  {}

  lemma RangePaid(free: nat, q: Phys, r: Phys, d: nat, ts: set<nat>, us: set<nat>)
    requires Founding(free, q, d, ts) && Spent(q, r, d, 0, us)
    ensures Founding(free, r, d, ts + us)
  {
    assert ts + us == ts + (us - ts) && ts !! (us - ts);
  }

  lemma RangeUnpaid(free: nat, q: Phys, d: nat, ts: set<nat>, us: set<nat>, all: set<nat>)
    requires Founding(free, q, d, ts) && !Affords(q, d, 0, us) && ts + us <= all
    ensures free < 1 + |all|
  {
    assert ts + us == ts + (us - ts) && ts !! (us - ts);
    SubsetSize(ts + us, all);
  }

  lemma KernelTablesStep(kmap: seq<Kmap>, k: nat)
    requires k < |kmap|
    ensures KernelTables(kmap[..k + 1]) ==
      KernelTables(kmap[..k]) + TablesFor(kmap[k].virt, kmap[k].virt + kmap[k].n)
    ensures KernelTables(kmap[..k + 1]) <= KernelTables(kmap)
  {
    assert kmap[..k + 1][..k] == kmap[..k];
    KernelTablesWithin(kmap, k + 1);
  }

  /** The words of the directory after one more range. */
  lemma RangeWords(q: Phys, r: Phys, d: nat, kmap: seq<Kmap>, k: nat)
    requires KmapOk(kmap) && k < |kmap| && IsDir(q, d)
    requires forall w: nat :: w < NPAGES ==> PteAt(q, d, w) == KernelWord(kmap[..k], w)
    requires RangeMapped(q, r, d, kmap[k].virt, kmap[k].n, kmap[k].phys, kmap[k].perm)
    ensures forall w: nat :: w < NPAGES ==> PteAt(r, d, w) == KernelWord(kmap[..k + 1], w)
  {
    var m := kmap[k];
    assert kmap[..k + 1][..k] == kmap[..k];
    forall w: nat | w < NPAGES ensures PteAt(r, d, w) == KernelWord(kmap[..k + 1], w) {
      if !Covers(m, w) { assert PteAt(r, d, w) == PteAt(q, d, w); }
    }
  }

  lemma NewUnmapped(s: Phys, d: nat, kmap: seq<Kmap>)
    requires KmapOk(kmap) && forall w: nat :: w < NPAGES ==> PteAt(s, d, w) == KernelWord(kmap, w)
    ensures forall w: nat :: w < USERPAGES ==> !Present(PteAt(s, d, w))
  {
    forall w: nat | w < USERPAGES ensures !Present(PteAt(s, d, w)) { KernelWordOutside(kmap, w); }
  }

  lemma RangeUnmapped(q: Phys, d: nat, kmap: seq<Kmap>, k: nat)
    requires KmapOk(kmap) && k < |kmap|
    requires forall w: nat :: w < NPAGES ==> PteAt(q, d, w) == KernelWord(kmap[..k], w)
    ensures USERPAGES <= kmap[k].virt && kmap[k].virt + kmap[k].n <= NPAGES && kmap[k].perm < 4096
    ensures forall w: nat :: kmap[k].virt <= w < kmap[k].virt + kmap[k].n ==> !Present(PteAt(q, d, w))
  {
    var m := kmap[k];
    forall w: nat | m.virt <= w < m.virt + m.n ensures !Present(PteAt(q, d, w)) {
      assert Covers(m, w);
      KernelWordOutside(kmap[..k], w);
    }
  }

  lemma RangeOutside(q: Phys, r: Phys, d: nat, v: nat, n: nat, f: nat, flags: nat)
    requires flags < 4096 && RangeMapped(q, r, d, v, n, f, flags)
    ensures SameOutside(q, r, d, v, v + n)
  {}

  /** A new directory is fresh, so those that were there before are others. */
  lemma BornApart(p: Phys, q: Phys, d: nat, b: nat)
    requires Inv(p) && Born(p, q, d, b)
    ensures !IsDir(p, d) && forall e :: 0 <= e < |p.owner| && IsDir(p, e) ==> IsDir(q, e)
  {}

  lemma KernelPart(ks: set<nat>, us: set<nat>)
    ensures |ks| <= |ks + us|
  {
    SubsetSize(ks, ks + us);
  }

  /** What copyuvm needs besides the directory and the kernel's tables. */
  lemma CopyPays(free: nat, s: Phys, d: nat, kts: set<nat>, b: nat)
    requires Founding(free, s, d, kts)
    ensures Affords(s, d, b, TablesFor(0, b)) <==> free >= 1 + b + |kts + TablesFor(0, b)|
  {
    var us := TablesFor(0, b);
    assert kts + us == kts + (us - kts) && kts !! (us - kts);
  }
}
