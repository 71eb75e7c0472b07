/** kalloc.c's free list and vm.c's two-level page tables, in place over an array of frames. */
module Vm {
  import opened Wrappers
  import opened FrameCount
  import opened Frames

  class Machine {
    const mem: array<Frame>
    const first: nat                  // the first frame after the kernel's image
    var freelist: seq<nat>
    ghost var owner: seq<Owner>

    ghost function State(): (p: Phys)
      reads this`freelist, this`owner, mem
    {
      Phys(mem[..], owner, freelist, first)
    }

    ghost predicate Valid()
      reads this`freelist, this`owner, mem
    {
      Inv(State())
    }

    lemma PageSizes()
      ensures USERPAGES <= NPAGES
    {}

    lemma StateIs()
      ensures Valid() <==> Inv(State())
      ensures State() == Phys(mem[..], owner, freelist, first)
    {}

    /** kinit1 and kinit2: every frame from the first managed one on goes to the free list. */
    constructor (nframes: nat, start: nat)
      requires 0 < start <= nframes
      ensures Valid() && fresh(mem) && mem.Length == nframes && first == start
      ensures forall f :: 0 <= f < nframes ==> owner[f] == if f < start then Held else Free
    {
      mem := new Frame[nframes](_ => Filled(0));
      first, freelist := start, [];
      owner := seq(nframes, _ => Held);
      new;
      var f := start;
      while f < nframes
        invariant start <= f <= nframes && Valid() && mem.Length == nframes && fresh(mem)
        invariant forall g :: 0 <= g < nframes ==> owner[g] == if start <= g < f then Free else Held
      {
        GiveKeeps(State(), f);
        Kfree(f);
        f := f + 1;
      }
    }

    /** kfree; outside the managed frames it panics. */
    method Kfree(f: nat)
      requires first <= f < mem.Length == |owner|
      modifies this`freelist, this`owner, mem
      ensures State() == Given(old(State()), f)
      ensures |mem[f]| == NENTRIES && forall j :: 0 <= j < NENTRIES ==> mem[f][j] == 0x01010101
      ensures freelist == [f] + old(freelist)
    {
      mem[f] := Filled(0x01010101);
      freelist := [f] + freelist;
      owner := owner[f := Free];
      assert State() == Given(old(State()), f);
    }

    /** kalloc. */
    method Kalloc() returns (r: Option<nat>)
      requires Valid()
      modifies this`freelist, this`owner
      ensures Valid() && SameAll(old(State()), State())
      ensures r.None? <==> old(freelist) == []
      ensures r.None? ==> State() == old(State())
      ensures r.Some? ==> r == Some(old(freelist)[0]) && State() == Taken(old(State()))
                          && first <= r.value < mem.Length && old(owner)[r.value] == Free
    {
      if freelist == [] { return None; }
      ghost var p := State();
      TakeKeeps(p);
      WalkSkips(p, Taken(p), freelist[0]);
      r := Some(freelist[0]);
      owner := owner[freelist[0] := Held];
      freelist := freelist[1..];
      assert State() == Taken(p);
    }

    /** walkpgdir: the frame of the page table for page v, whose slot is Ptx(v). */
    method Walkpgdir(d: nat, v: nat, alloc: bool) returns (t: Option<nat>)
      requires Valid() && IsDir(State(), d) && v < NPAGES
      modifies this`freelist, this`owner, mem
      ensures Valid()
      ensures t.Some? <==> Pdx(v) < |old(mem[d])| && (Present(old(mem[d])[Pdx(v)]) || (alloc && old(freelist) != []))
      ensures t.None? ==> State() == old(State())
      ensures t.Some? ==> Inv(old(State())) && CanWalk(old(State()), d, v) && State() == Walked(old(State()), d, v)
                          && IsDir(State(), d) && t.value == TableAt(State(), d, v) && t.value < mem.Length
      ensures t.Some? && Present(old(mem[d])[Pdx(v)]) ==> State() == old(State())
      ensures t.Some? ==> Pdx(v) < |mem[d]| && Open(mem[d][Pdx(v)])
    {
      ghost var p := State();
      TableOfEntry(p, d, v);
      if Present(mem[d][Pdx(v)]) {
        WalkKeeps(p, d, v);
        AccessIsPte(p, d, v);
        return Some(FrameOf(mem[d][Pdx(v)]));
      }
      if !alloc { return None; }
      if freelist != [] {
        WalkKeeps(p, d, v);
        TableAddedKeeps(p, d, Pdx(v));
      }
      var pgtab := Kalloc();
      if pgtab.None? { return None; }
      var f := pgtab.value;
      mem[f] := Filled(0);
      mem[d] := Put(mem[d], Pdx(v), Entry(f, 6));
      owner := owner[f := Table(d, Pdx(v))];
      t := Some(f);
      hide *;
      assert State() == TableAdded(p, d, Pdx(v));
    }

    /** deallocuvm: exactly the present pages from newsz up to oldsz are unmapped and freed, whatever
        directory entries the loop jumps over. */
    method Deallocuvm(d: nat, oldsz: nat, newsz: nat) returns (sz: nat)
      requires Valid() && IsDir(State(), d) && Pages(oldsz) <= USERPAGES
      modifies this`freelist, this`owner, mem
      ensures Valid() && IsDir(State(), d)
      ensures sz == if newsz >= oldsz then oldsz else newsz
      ensures newsz >= oldsz ==> State() == old(State())
      ensures newsz < oldsz ==> Shrunk(old(State()), State(), d, Pages(newsz), Pages(oldsz))
                                && Unmapped(old(State()), State(), d, Pages(newsz), Pages(oldsz))
    {
      if newsz >= oldsz { return oldsz; }
      DeallocPages(d, Pages(newsz), Pages(oldsz));
      return newsz;
    }

    method DeallocPages(d: nat, a: nat, b: nat)
      requires Valid() && IsDir(State(), d) && a <= b <= USERPAGES
      modifies this`freelist, this`owner, mem
      ensures Valid() && IsDir(State(), d)
      ensures Shrunk(old(State()), State(), d, a, b) && Unmapped(old(State()), State(), d, a, b)
    {
      ghost var p := State();
      var v := a;
      while v < b
        invariant a <= v && Valid() && IsDir(State(), d)
        invariant Shrunk(p, State(), d, a, if v <= b then v else b)
          && Unmapped(p, State(), d, a, if v <= b then v else b)
        decreases b - v
      {
        v := DeallocOne(p, d, a, v, b);
      }
    }

    /** One round of the loop: the page number it goes on with. A present word never names frame 0, so
        its panic is not reached. */
    method DeallocOne(ghost p: Phys, d: nat, a: nat, v: nat, b: nat) returns (next: nat)
      requires Valid() && IsDir(State(), d) && Inv(p) && IsDir(p, d) && a <= v < b <= USERPAGES
      requires Shrunk(p, State(), d, a, v) && Unmapped(p, State(), d, a, v)
      modifies this`freelist, this`owner, mem
      ensures Valid() && IsDir(State(), d) && v < next
      ensures var c := if next <= b then next else b; Shrunk(p, State(), d, a, c) && Unmapped(p, State(), d, a, c)
    {
      ghost var q := State();
      TableOfEntry(q, d, v);
      var t := Walkpgdir(d, v, false);
      hide Inv, SameAll;
      if t.None? {
        next := NENTRIES * (Pdx(v) + 1) - 1;
        DeallocSkips(p, q, d, a, v, if next + 1 <= b then next + 1 else b);
      } else {
        next := v;
        var word := mem[t.value][Ptx(v)];
        assert word == PteAt(q, d, v);
        if Present(word) {
          DeallocDrops(p, q, d, a, v, t.value, FrameOf(word));
          assert FrameOf(word) != 0;
          Kfree(FrameOf(word));
          mem[t.value] := Put(mem[t.value], Ptx(v), 0);
          assert State() == Dropped(q, t.value, Ptx(v), FrameOf(word));
        } else {
          DeallocSkips(p, q, d, a, v, v + 1);
        }
      }
      next := next + 1;
    }

    /** freevm: every frame of d is free again, and no other. */
    method Freevm(d: nat)
      requires Valid() && IsDir(State(), d)
      modifies this`freelist, this`owner, mem
      ensures Valid() && Gone(old(State()), State(), d)
    {
      ghost var p := State();
      DeallocPages(d, 0, USERPAGES);
      ghost var q := State();
      assert NoPages(q, d);
      var i := 0;
      while i < NENTRIES
        invariant i <= NENTRIES && Valid() && Freeing(q, State(), d, i)
      {
        FreeEntry(q, d, i);
        i := i + 1;
      }
      FreeingEnds(p, q, State(), d);
      hide *;
      ghost var r := Given(Reowned(State(), d, Held, d, Held), d);
      owner := owner[d := Held];
      Kfree(d);
      assert State() == r;
    }

    method FreeEntry(ghost q: Phys, d: nat, i: nat)
      requires Inv(q) && IsDir(q, d) && NoPages(q, d) && Valid() && Freeing(q, State(), d, i) && i < NENTRIES
      modifies this`freelist, this`owner, mem
      ensures Valid() && Freeing(q, State(), d, i + 1)
    {
      ghost var s := State();
      var word := mem[d][i];
      if Present(word) {
        FreeingFrees(q, s, d, i, FrameOf(word));
        owner := owner[d := Dir(i + 1)];
        Kfree(FrameOf(word));
        assert State() == Given(Reowned(s, d, Dir(i + 1), FrameOf(word), Held), FrameOf(word));
      } else {
        FreeingSkips(q, s, d, i);
        owner := owner[d := Dir(i + 1)];
        assert State() == Reowned(s, d, Dir(i + 1), d, Held);
      }
    }

    /** mappages for one user page; a slot in use is its panic. */
    method MapPage(d: nat, v: nat, f: nat, flags: nat) returns (ok: bool)
      requires Valid() && IsDir(State(), d) && v < USERPAGES && flags < 4096
      requires first <= f < mem.Length && owner[f] == Held && !Present(PteAt(State(), d, v))
      modifies this`freelist, this`owner, mem
      ensures Valid() && Inv(old(State())) && Pdx(v) < |old(mem[d])|
      ensures ok <==> CanWalk(old(State()), d, v)
      ensures ok ==> State() == Mapped(old(State()), d, v, f, flags)
      ensures !ok ==> State() == old(State())
    {
      ghost var p := State();
      TableOfEntry(p, d, v);
      var t := Walkpgdir(d, v, true);
      if t.None? { return false; }
      MapKeeps(p, d, v, f, flags);
      ghost var q := State();
      hide *;
      mem[t.value] := Put(mem[t.value], Ptx(v), Entry(f, flags));
      owner := owner[f := User(t.value, Ptx(v))];
      assert State() == Mapped(p, d, v, f, flags);
      ok := true;
    }

    /** A round of allocuvm or copyuvm: kalloc, the content, mappages. */
    method AddPage(d: nat, v: nat, c: Frame, flags: nat) returns (r: AddResult)
      requires Valid() && IsDir(State(), d) && v < USERPAGES && flags < 4096 && |c| == NENTRIES
      requires !Present(PteAt(State(), d, v))
      modifies this`freelist, this`owner, mem
      ensures Valid() && IsDir(State(), d)
      ensures r.NoFrame? ==> State() == old(State())
      ensures r.Added? ==> Grew(old(State()), State(), d, v, v + 1) && SameBut(old(State()), State(), d, v)
                           && PageHas(State(), d, v, c, WithP(flags))
      ensures r.NoTable? ==> old(freelist) != [] && r.mem == old(freelist)[0] < mem.Length && first <= r.mem
                             && State() == Written(Taken(old(State())), r.mem, c) && SameAll(old(State()), State())
                             && old(owner)[r.mem] == Free && owner[r.mem] == Held
      ensures r.Added? <==> Affords(old(State()), d, 1, {Pdx(v)})
      ensures r.Added? ==> Spent(old(State()), State(), d, 1, {Pdx(v)})
    {
      ghost var q := State();
      if freelist != [] {
        AddKeeps(q, d, v, c, flags);
        AddSpends(q, d, v, c, flags);
      }
      var f := Kalloc();
      if f.None? { return NoFrame; }
      mem[f.value] := c;
      ghost var x := State();
      assert x == Written(Taken(q), f.value, c);
      assert PteAt(x, d, v) == PteAt(q, d, v);
      hide *;
      var ok := MapPage(d, v, f.value, flags);
      if !ok { return NoTable(f.value); }
      AddGrows(q, d, v, c, flags);
      r := Added;
    }

    /** allocuvm: on success the pages from oldsz up to newsz are mapped to zeroed frames and nothing
        else has changed; on failure every page reads as before and only tables of d may remain. It
        succeeds exactly when the free list has a frame for every page and every missing table. */
    method Allocuvm(d: nat, oldsz: nat, newsz: nat) returns (sz: nat)
      requires Valid() && IsDir(State(), d)
      requires forall w: nat :: Pages(oldsz) <= w < Pages(newsz) && w < USERPAGES ==> !Present(PteAt(State(), d, w))
      modifies this`freelist, this`owner, mem
      ensures Valid() && IsDir(State(), d)
      ensures newsz >= 4096 * USERPAGES ==> sz == 0 && State() == old(State())
      ensures newsz < oldsz && newsz < 4096 * USERPAGES ==> sz == oldsz && State() == old(State())
      ensures oldsz <= newsz < 4096 * USERPAGES ==> var a, b := Pages(oldsz), Pages(newsz);
        && a <= b <= USERPAGES
        && if Affords(old(State()), d, b - a, TablesFor(a, b))
           then sz == newsz && Allocated(old(State()), State(), d, a, b)
           else sz == 0 && AllocUndone(old(State()), State(), d, a, b)
    {
      if newsz >= 4096 * USERPAGES { return 0; }
      if newsz < oldsz { return oldsz; }
      ghost var p := State();
      var a, b := Pages(oldsz), Pages(newsz);
      ghost var cs: seq<Frame>, fs: seq<nat> := seq(b, _ => Filled(0)), seq(b, _ => 7);
      assert WithP(6) == 7 && Present(1);
      hide *;
      AddingStarts(p, d, a, cs, fs);
      var v := a;
      while v < b
        invariant a <= v <= b && Valid() && IsDir(State(), d) && Adding(p, State(), d, a, v, cs, fs)
      {
        ghost var q := State();
        AddingMeans(p, q, d, a, v, cs, fs);
        var r := AddPage(d, v, Filled(0), 6);
        if r.Added? {
          AddingStep(p, q, State(), d, a, v, cs, fs);
        } else {
          AddingFails(p, q, d, a, v, cs, fs);
          sz := AllocFails(p, q, d, oldsz, newsz, v, r);
          return;
        }
        v := v + 1;
      }
      StateIs();
      AddingAllocates(p, State(), d, a, b, cs, fs);
      return newsz;
    }

    /** The two failure exits. */
    method AllocFails(ghost p: Phys, ghost q: Phys, d: nat, oldsz: nat, newsz: nat, ghost v: nat, r: AddResult)
      returns (sz: nat)
      requires Inv(p) && IsDir(p, d) && Inv(q) && IsDir(q, d) && Valid() && IsDir(State(), d) && oldsz <= newsz
      requires Pages(oldsz) <= v < Pages(newsz) <= USERPAGES
      requires Grew(p, q, d, Pages(oldsz), v) && SameOutside(p, q, d, Pages(oldsz), v)
      requires forall w: nat :: Pages(oldsz) <= w < Pages(newsz) ==> !Present(PteAt(p, d, w))
      requires r.NoFrame? ==> State() == q
      requires r.NoTable? ==>
        q.free != [] && r.mem == q.free[0] < |q.mem| && first <= r.mem < mem.Length && SameAll(q, State())
                              && State() == Written(Taken(q), r.mem, Filled(0)) && q.owner[r.mem] == Free
                                 && owner[r.mem] == Held
      requires !r.Added?
      modifies this`freelist, this`owner, mem
      ensures Valid() && IsDir(State(), d) && sz == 0
      ensures AllocUndone(p, State(), d, Pages(oldsz), Pages(newsz))
    {
      hide Inv, Grew, Shrunk, Unmapped, SameOutside, SameAll, PteAt, Given, Written, Taken;
      ghost var x := State();
      var _ := Deallocuvm(d, newsz, oldsz);
      if r.NoTable? {
        HeldReturned(q, x, State(), d, Pages(oldsz), Pages(newsz), r.mem, Filled(0));
        Kfree(r.mem);
      }
      FailureUndoes(p, q, State(), d, Pages(oldsz), v, Pages(newsz));
      sz := 0;
    }

    /** mappages for a range of kernel pages, none of them mapped yet. */
    method MapKernelPages(d: nat, v: nat, n: nat, f: nat, flags: nat) returns (ok: bool)
      requires Valid() && IsDir(State(), d) && USERPAGES <= v && v + n <= NPAGES && flags < 4096
      requires forall w: nat :: v <= w < v + n ==> !Present(PteAt(State(), d, w))
      modifies this`freelist, this`owner, mem
      ensures Valid() && IsDir(State(), d) && Grew(old(State()), State(), d, 0, 0)
      ensures ok ==> RangeMapped(old(State()), State(), d, v, n, f, flags)
      ensures !ok ==> SameOutside(old(State()), State(), d, v, v + n)
      ensures ok <==> Affords(old(State()), d, 0, TablesFor(v, v + n))
      ensures ok ==> Spent(old(State()), State(), d, 0, TablesFor(v, v + n))
    {
      ghost var p := State();
      var i := 0;
      NoTables(v);
      SpentNothing(p, d);
      hide Spent, Affords, TablesFor;
      while i < n
        invariant i <= n && Valid() && IsDir(State(), d) && Grew(p, State(), d, 0, 0)
        invariant RangeMapped(p, State(), d, v, i, f, flags)
        invariant Spent(p, State(), d, 0, TablesFor(v, v + i))
      {
        ghost var q := State();
        assert PteAt(q, d, v + i) == PteAt(p, d, v + i);
        PagePays(p, q, d, v, v + i, v + n, 0, 0, 0);
        ok := MapKernelPage(d, v + i, f + i, flags);
        if !ok { return; }
        GrewTrans(p, q, State(), d, 0, 0, 0);
        RangeOneMore(p, q, State(), d, v, i, f, flags);
        i := i + 1;
      }
      SpentAffords(p, State(), d, 0, TablesFor(v, v + n));
      ok := true;
    }

    method MapKernelPage(d: nat, v: nat, f: nat, flags: nat) returns (ok: bool)
      requires Valid() && IsDir(State(), d) && USERPAGES <= v < NPAGES && flags < 4096
      requires !Present(PteAt(State(), d, v))
      modifies this`freelist, this`owner, mem
      ensures Valid() && IsDir(State(), d)
      ensures ok ==>
        Grew(old(State()), State(), d, 0, 0) && SameBut(old(State()), State(), d, v)
          && PteAt(State(), d, v) == Entry(f, flags)
      ensures !ok ==> State() == old(State())
      ensures ok <==> Affords(old(State()), d, 0, {Pdx(v)})
      ensures ok ==> Spent(old(State()), State(), d, 0, {Pdx(v)})
    {
      ghost var p := State();
      WalkSpends(p, d, v);
      var t := Walkpgdir(d, v, true);
      if t.None? { return false; }
      KernelMapDone(p, d, v, f, flags);
      WalkKeeps(p, d, v);
      hide *;
      mem[t.value] := Put(mem[t.value], Ptx(v), Entry(f, flags));
      assert State() == KernelMapped(p, d, v, f, flags);
      ok := true;
    }

    /** setupkvm: a directory with exactly kmap's mappings, or None with every frame back where it was.
        It needs one frame and one more for each page table under kmap's ranges. */
    method Setupkvm(kmap: seq<Kmap>) returns (r: Option<nat>)
      requires Valid() && KmapOk(kmap)
      modifies this`freelist, this`owner, mem
      ensures Valid() && SameAll(old(State()), State())
      ensures r.Some? ==> Born(old(State()), State(), r.value, 0)
                          && forall w: nat :: w < NPAGES ==> PteAt(State(), r.value, w) == KernelWord(kmap, w)
      ensures r.None? ==>
        owner == old(owner) && forall g :: 0 <= g < |owner| && owner[g] != Free ==> mem[g] == old(mem[g])
      ensures r.Some? && KernelOnly(kmap) ==> forall w: nat :: w < NPAGES ==> !UserReads(State(), r.value, w)
      ensures r.Some? <==> |old(freelist)| >= 1 + |KernelTables(kmap)|
      ensures r.Some? ==> Founding(|old(freelist)|, State(), r.value, KernelTables(kmap))
    {
      ghost var p := State();
      if freelist != [] {
        FoundingBears(p);
        FoundingSpends(p);
      }
      var f := Kalloc();
      if f.None? { return None; }
      var d := f.value;
      mem[d] := Filled(0);
      owner := owner[d := Dir(0)];
      assert State() == Founded(p);
      assert kmap[..0] == [] && KernelTables([]) == {} && forall w: nat :: KernelWord([], w) == 0;
      assert Founding(|p.free|, State(), d, {});
      hide *;
      var k := 0;
      while k < |kmap|
        invariant k <= |kmap| && Valid() && Born(p, State(), d, 0) && SameAll(p, State())
        invariant forall w: nat :: w < NPAGES ==> PteAt(State(), d, w) == KernelWord(kmap[..k], w)
        invariant Founding(|p.free|, State(), d, KernelTables(kmap[..k]))
      {
        var ok := MapRange(p, kmap, k, d);
        if !ok {
          Unmake(p, d, 0);
          return None;
        }
        k := k + 1;
      }
      assert kmap[..k] == kmap;
      FoundingPaid(|p.free|, State(), d, KernelTables(kmap));
      StateIs();
      BornShape(p, State(), d, 0);
      forall w: nat | w < NPAGES && KernelOnly(kmap) ensures !UserReads(State(), d, w) {
        KernelIsClosed(State(), d, kmap, w);
      }
      return Some(d);
    }

    /** freevm of a directory made since p: every frame is back where it was. */
    method Unmake(ghost p: Phys, d: nat, ghost b: nat)
      requires Inv(p) && Valid() && Born(p, State(), d, b) && SameAll(p, State()) && b <= USERPAGES
      modifies this`freelist, this`owner, mem
      ensures Valid() && SameAll(p, State()) && owner == p.owner && |owner| == mem.Length == |p.mem|
      ensures forall g :: 0 <= g < |owner| && owner[g] != Free ==> mem[g] == p.mem[g]
    {
      ghost var y := State();
      BornShape(p, y, d, b);
      assert |owner| == mem.Length;
      hide *;
      Freevm(d);
      BornAndGone(p, y, State(), d, b);
      SameAllAfterGone(p, y, State(), d, b);
    }

    method MapRange(ghost p: Phys, kmap: seq<Kmap>, k: nat, d: nat) returns (ok: bool)
      requires Inv(p) && KmapOk(kmap) && k < |kmap| && Valid() && Born(p, State(), d, 0) && SameAll(p, State())
      requires forall w: nat :: w < NPAGES ==> PteAt(State(), d, w) == KernelWord(kmap[..k], w)
      requires Founding(|p.free|, State(), d, KernelTables(kmap[..k]))
      modifies this`freelist, this`owner, mem
      ensures Valid() && Born(p, State(), d, 0) && SameAll(p, State())
      ensures ok ==> forall w: nat :: w < NPAGES ==> PteAt(State(), d, w) == KernelWord(kmap[..k + 1], w)
      ensures ok ==> Founding(|p.free|, State(), d, KernelTables(kmap[..k + 1]))
      ensures !ok ==> |p.free| < 1 + |KernelTables(kmap)|
    {
      hide *;
      StateIs();
      ghost var q := State();
      var m := kmap[k];
      RangeUnmapped(q, d, kmap, k);
      BornShape(p, q, d, 0);
      BornApart(p, q, d, 0);
      KernelTablesStep(kmap, k);
      ok := MapKernelPages(d, m.virt, m.n, m.phys, m.perm);
      ghost var r, us := State(), TablesFor(m.virt, m.virt + m.n);
      BornGrows(p, q, r, d, 0, 0);
      if ok {
        RangeOutside(q, r, d, m.virt, m.n, m.phys, m.perm);
        RangeWords(q, r, d, kmap, k);
        RangePaid(|p.free|, q, r, d, KernelTables(kmap[..k]), us);
      } else {
        RangeUnpaid(|p.free|, q, d, KernelTables(kmap[..k]), us, KernelTables(kmap));
      }
      SameAllTrans(p, q, r, d, m.virt, m.virt + m.n);
    }

    /** copyuvm: a directory whose pages up to sz hold what pg's do, in frames of their own, with the
        same flags and the kernel's mappings above; or None with every frame back where it was. It
        needs a frame for the directory, for every page and for every page table. */
    method Copyuvm(kmap: seq<Kmap>, pg: nat, sz: nat) returns (r: Option<nat>)
      requires Valid() && KmapOk(kmap) && IsDir(State(), pg) && Pages(sz) <= USERPAGES
      requires forall v: nat :: v < Pages(sz) ==> Present(PteAt(State(), pg, v))
      modifies this`freelist, this`owner, mem
      ensures Valid() && SameAll(old(State()), State())
      ensures r.Some? ==> Born(old(State()), State(), r.value, Pages(sz))
      ensures r.Some? ==> forall v: nat :: v < Pages(sz) ==>
        PageHas(State(), r.value, v, Content(old(State()), pg, v), PteAt(old(State()), pg, v) % 4096)
      ensures r.Some? ==> forall w: nat :: Pages(sz) <= w < NPAGES ==> PteAt(State(), r.value, w) == KernelWord(kmap, w)
      ensures r.None? ==>
        owner == old(owner) && forall g :: 0 <= g < |owner| && owner[g] != Free ==> mem[g] == old(mem[g])
      ensures r.Some? ==> forall v: nat :: v < Pages(sz) ==>
        && UserReads(State(), r.value, v) == UserReads(old(State()), pg, v)
        && UserWrites(State(), r.value, v) == UserWrites(old(State()), pg, v)
      ensures r.Some? && KernelOnly(kmap) ==>
        forall w: nat :: Pages(sz) <= w < NPAGES ==> !UserReads(State(), r.value, w)
      ensures r.Some? <==>
        |old(freelist)| >= 1 + Pages(sz) + |KernelTables(kmap) + TablesFor(0, Pages(sz))|
    {
      hide *;
      StateIs();
      ghost var p := State();
      var b := Pages(sz);
      KernelPart(KernelTables(kmap), TablesFor(0, b));
      r := Setupkvm(kmap);
      if r.None? { return; }
      StateIs();
      ghost var s := State();
      var d := r.value;
      CopyPays(|p.free|, s, d, KernelTables(kmap), b);
      NewUnmapped(s, d, kmap);
      BornShape(p, s, d, 0);
      ghost var cs, fs := seq(b, (v: nat) => Content(p, pg, v)), seq(b, (v: nat) => PteAt(p, pg, v) % 4096);
      AddingStarts(s, d, 0, cs, fs);
      var v := 0;
      while v < b
        invariant v <= b && Valid() && IsDir(State(), d) && Born(p, State(), d, v) && SameAll(p, State())
        invariant Adding(s, State(), d, 0, v, cs, fs)
      {
        var ok := CopyPage(p, s, pg, d, v, cs, fs);
        if !ok { return None; }
        v := v + 1;
      }
      AddingMeans(s, State(), d, 0, v, cs, fs);
      forall u: nat | u < b ensures PageHas(State(), d, u, Content(p, pg, u), PteAt(p, pg, u) % 4096) {
        assert PageHas(State(), d, u, cs[u], fs[u]) && cs[u] == Content(p, pg, u);
      }
      StateIs();
      PageSizes();
      forall u: nat | u < b
        ensures UserReads(State(), d, u) == UserReads(p, pg, u) && UserWrites(State(), d, u) == UserWrites(p, pg, u)
      {
        SameFlagsSameAccess(p, pg, State(), d, u, Content(p, pg, u));
      }
      forall w: nat | b <= w < NPAGES && KernelOnly(kmap) ensures !UserReads(State(), d, w) {
        KernelIsClosed(State(), d, kmap, w);
      }
    }

    /** One round; on failure the copy made so far is gone. */
    method CopyPage(ghost p: Phys, ghost s: Phys, pg: nat, d: nat, v: nat, ghost cs: seq<Frame>, ghost fs: seq<nat>)
      returns (ok: bool)
      requires Inv(p) && IsDir(p, pg) && Inv(s) && IsDir(s, d) && Valid() && IsDir(State(), d) && v < USERPAGES
        && v < |cs| && v < |fs|
      requires Born(p, State(), d, v) && SameAll(p, State()) && Present(PteAt(p, pg, v))
      requires Adding(s, State(), d, 0, v, cs, fs)
      requires cs[v] == Content(p, pg, v) && fs[v] == PteAt(p, pg, v) % 4096
      requires !Present(PteAt(s, d, v))
      modifies this`freelist, this`owner, mem
      ensures Valid() && SameAll(p, State())
      ensures ok ==> IsDir(State(), d) && Born(p, State(), d, v + 1)
      ensures ok ==> Adding(s, State(), d, 0, v + 1, cs, fs)
      ensures !ok ==> !Affords(s, d, |cs|, TablesFor(0, |cs|))
      ensures !ok ==> owner == p.owner && |owner| == mem.Length == |p.mem|
                      && forall g :: 0 <= g < |owner| && owner[g] != Free ==> mem[g] == p.mem[g]
    {
      hide *;
      StateIs();
      ghost var q := State();
      AddingMeans(s, q, d, 0, v, cs, fs);
      var word, c := ReadPage(p, pg, d, v);
      StateIs();
      var a := AddPage(d, v, c, word % 4096);
      if a.Added? {
        AddingStep(s, q, State(), d, 0, v, cs, fs);
        BornGrows(p, q, State(), d, v, v + 1);
        SameAllGrows(p, q, State(), d, v);
        return true;
      }
      AddingFails(s, q, d, 0, v, cs, fs);
      CopyFails(p, q, d, v, c, a);
      ok := false;
    }

    /** walkpgdir in the parent, and its page. */
    method ReadPage(ghost p: Phys, pg: nat, ghost d: nat, v: nat) returns (word: nat, c: Frame)
      requires Inv(p) && IsDir(p, pg) && Valid() && v < USERPAGES
      requires Born(p, State(), d, v) && SameAll(p, State()) && Present(PteAt(p, pg, v))
      modifies this`freelist, this`owner, mem
      ensures Valid() && State() == old(State()) && word == PteAt(p, pg, v) && c == Content(p, pg, v) && |c| == NENTRIES
      ensures word % 2 == 1 && WithP(word % 4096) == word % 4096
    {
      ghost var q := State();
      BornSees(p, q, d, v, pg, v);
      ContentIsOwned(p, pg, v);
      TableOfEntry(q, pg, v);
      var pgtab := Walkpgdir(pg, v, false);
      word := mem[pgtab.value][Ptx(v)];
      assert word == PteAt(p, pg, v);
      c := mem[FrameOf(word)];
      EntryBits(word / 4096, word % 4096);
    }

    method CopyFails(ghost p: Phys, ghost q: Phys, d: nat, ghost v: nat, ghost c: Frame, a: AddResult)
      requires Inv(p) && Inv(q) && Valid() && Born(p, q, d, v) && SameAll(p, q) && v <= USERPAGES && !a.Added?
      requires a.NoFrame? ==> State() == q
      requires a.NoTable? ==>
        q.free != [] && a.mem == q.free[0] < |q.mem| && first <= a.mem < mem.Length && q.first == first
                              && State() == Written(Taken(q), a.mem, c) && SameAll(q, State()) && q.owner[a.mem] == Free
      modifies this`freelist, this`owner, mem
      ensures Valid() && SameAll(p, State()) && owner == p.owner && |owner| == mem.Length == |p.mem|
      ensures forall g :: 0 <= g < |owner| && owner[g] != Free ==> mem[g] == p.mem[g]
    {
      assert |owner| == mem.Length;
      hide Inv, SameAll, Given;
      BornShape(p, q, d, v);
      if a.NoTable? {
        BornReturned(p, q, State(), d, v, a.mem, c);
        Kfree(a.mem);
      }
      Unmake(p, d, v);
    }
  }
}
