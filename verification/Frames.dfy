/** Page frames and who owns them: the state under kalloc.c and vm.c as values, the single changes the
    code makes to it, and what growing, shrinking, making and freeing an address space do to all the
    others. Physical memory is a sequence of frames of NPTENTRIES words; addresses are page numbers. */
module Frames {
  import opened Wrappers

  const NENTRIES: nat := 1024       // NPDENTRIES and NPTENTRIES
  const USERPAGES: nat := 524288    // KERNBASE / PGSIZE
  const NPAGES: nat := 1048576      // pages of the 32-bit address space

  type Frame = seq<nat>

  function Filled(w: nat): (f: Frame)
    ensures |f| == NENTRIES && forall i :: 0 <= i < NENTRIES ==> f[i] == w
  {
    seq(NENTRIES, i => w)
  }

  function Pdx(v: nat): (i: nat) { v / NENTRIES }

  function Ptx(v: nat): (j: nat)
    ensures j < NENTRIES && v == NENTRIES * Pdx(v) + j
  {
    v % NENTRIES
  }

  /** PTE_P is the lowest bit, the frame number the bits from 12 up. */
  predicate Present(w: nat) { w % 2 == 1 }

  function FrameOf(w: nat): (f: nat) { w / 4096 }

  lemma EntryBits(f: nat, low: nat)
    requires low < 4096
    ensures (4096 * f + low) / 4096 == f && (4096 * f + low) % 4096 == low && (4096 * f + low) % 2 == low % 2
  {
    assert 4096 * f + low == 2 * (2048 * f) + low;
  }

  /** A frame's address with flags and PTE_P set. */
  function Entry(f: nat, flags: nat): (w: nat)
    requires flags < 4096
    ensures Present(w) && FrameOf(w) == f && w % 4096 == (if flags % 2 == 1 then flags else flags + 1)
  {
    var low := if flags % 2 == 1 then flags else flags + 1;
    EntryBits(f, low);
    4096 * f + low
  }

  /** PTE_W and PTE_U. */
  predicate WriteBit(w: nat) { w / 2 % 2 == 1 }

  predicate UserBit(w: nat) { w / 4 % 2 == 1 }

  /** Present and open to everybody: PTE_P, PTE_W and PTE_U, no other flag. */
  predicate Open(w: nat) { w % 4096 == 7 }

  lemma EvenPart(a: nat, x: nat)
    ensures (2 * a + x) % 2 == x % 2
  {}

  lemma HalfOf(a: nat, x: nat)
    ensures (2 * a + x) / 2 == a + x / 2
  {}

  lemma QuarterOf(a: nat, x: nat)
    ensures (4 * a + x) / 4 == a + x / 4
  {}

  /** The flags are the low bits of a word. */
  lemma FlagBits(w: nat)
    ensures Present(w) == Present(w % 4096) && WriteBit(w) == WriteBit(w % 4096) && UserBit(w) == UserBit(w % 4096)
    ensures Open(w) ==> Present(w) && WriteBit(w) && UserBit(w)
  {
    var q, r := w / 4096, w % 4096;
    EvenPart(2048 * q, r);
    HalfOf(2048 * q, r);
    EvenPart(1024 * q, r / 2);
    QuarterOf(1024 * q, r);
    EvenPart(512 * q, r / 4);
    assert w == 2 * (2048 * q) + r && 2048 * q == 2 * (1024 * q) && 1024 * q == 2 * (512 * q);
    assert w == 4 * (1024 * q) + r;
  }

  /** What a frame is in use for: on the free list; held by some other part of the kernel; a page
      directory whose entries from the given one on are still in force; the page table of a directory
      entry; the user page of a page-table slot. */
  datatype Owner = Free | Held | Dir(from: nat) | Table(dir: nat, index: nat) | User(table: nat, slot: nat)

  /** All of physical memory; the allocator manages the frames from first on. */
  datatype Phys = Phys(mem: seq<Frame>, owner: seq<Owner>, free: seq<nat>, first: nat)

  ghost predicate Shaped(p: Phys) {
    |p.mem| == |p.owner| && forall f :: 0 <= f < |p.mem| ==> |p.mem[f]| == NENTRIES
  }

  /** The free list holds exactly the free frames, each once. */
  ghost predicate FreeOk(p: Phys) {
    && (forall k :: 0 <= k < |p.free| ==> p.free[k] < |p.owner| && p.owner[p.free[k]] == Free)
    && (forall k, l :: 0 <= k < l < |p.free| ==> p.free[k] != p.free[l])
    && (forall f :: 0 <= f < |p.owner| && p.owner[f] == Free ==> f in p.free)
  }

  /** Word j of frame t, when present, names a frame owned through it; a page table is named by a
      directory entry that leaves all restrictions to the table. */
  ghost predicate WordOk(p: Phys, t: nat, j: nat, o: Owner)
    requires Shaped(p) && t < |p.mem| && j < NENTRIES
  {
    Present(p.mem[t][j]) ==>
      FrameOf(p.mem[t][j]) < |p.owner| && p.owner[FrameOf(p.mem[t][j])] == o && (o.Table? ==> Open(p.mem[t][j]))
  }

  ghost predicate PdesOk(p: Phys, d: nat, from: nat)
    requires Shaped(p) && d < |p.mem|
  {
    forall i :: from <= i < NENTRIES ==> WordOk(p, d, i, Table(d, i))
  }

  ghost predicate PtesOk(p: Phys, t: nat)
    requires Shaped(p) && t < |p.mem|
  {
    forall j :: 0 <= j < NENTRIES ==> WordOk(p, t, j, User(t, j))
  }

  /** Word j of frame t is present and names f. */
  ghost predicate Names(p: Phys, t: nat, j: nat, f: nat)
    requires Shaped(p) && t < |p.mem|
  {
    j < NENTRIES && Present(p.mem[t][j]) && FrameOf(p.mem[t][j]) == f
  }

  /** A frame and its owner agree: what owns it names it, and what it names it owns. */
  ghost predicate FrameOk(p: Phys, f: nat)
    requires Shaped(p) && f < |p.mem|
  {
    match p.owner[f]
    case Free => true
    case Held => true
    case Dir(from) => PdesOk(p, f, from)
    case Table(d, i) =>
      && d < |p.owner| && p.owner[d].Dir? && p.owner[d].from <= i && Names(p, d, i, f)
      && (i < NENTRIES / 2 ==> PtesOk(p, f))
    case User(t, j) =>
      && t < |p.owner| && p.owner[t].Table? && p.owner[t].index < NENTRIES / 2 && Names(p, t, j, f)
  }

  /** The frames below the managed ones, frame 0 among them, are never given out. */
  ghost predicate FirstOk(p: Phys) {
    p.first > 0 && forall f :: 0 <= f < |p.owner| && f < p.first ==> p.owner[f] == Held
  }

  ghost predicate Inv(p: Phys) {
    Shaped(p) && FreeOk(p) && FirstOk(p) && forall f :: 0 <= f < |p.mem| ==> FrameOk(p, f)
  }

  // ---------------------------------------------------------------- what an address means

  /** The two-level walk for page v of directory d: the page-table word, 0 when there is no table. */
  function PteAt(p: Phys, d: nat, v: nat): (w: nat) {
    if d < |p.mem| && Pdx(v) < |p.mem[d]| && Present(p.mem[d][Pdx(v)]) then
      var t := FrameOf(p.mem[d][Pdx(v)]);
      if t < |p.mem| && Ptx(v) < |p.mem[t]| then p.mem[t][Ptx(v)] else 0
    else 0
  }

  /** What the hardware grants a user program at page v of directory d: the bits must be set at both
      levels. */
  predicate UserReads(p: Phys, d: nat, v: nat) {
    && d < |p.mem| && Pdx(v) < |p.mem[d]| && Present(p.mem[d][Pdx(v)]) && UserBit(p.mem[d][Pdx(v)])
    && Present(PteAt(p, d, v)) && UserBit(PteAt(p, d, v))
  }

  predicate UserWrites(p: Phys, d: nat, v: nat) {
    UserReads(p, d, v) && WriteBit(p.mem[d][Pdx(v)]) && WriteBit(PteAt(p, d, v))
  }

  function Lookup(p: Phys, d: nat, v: nat): (f: Option<nat>) {
    if Present(PteAt(p, d, v)) then Some(FrameOf(PteAt(p, d, v))) else None
  }

  /** By ownership, f is a user page of d in [a, b). */
  predicate PageIn(owner: seq<Owner>, f: nat, d: nat, a: nat, b: nat) {
    && f < |owner| && owner[f].User? && owner[f].table < |owner|
    && var t := owner[owner[f].table]; t.Table? && t.dir == d && a <= t.index * NENTRIES + owner[f].slot < b
  }

  predicate IsDir(p: Phys, d: nat) {
    d < |p.owner| && p.owner[d] == Dir(0)
  }

  /** The walk finds exactly what ownership says. */
  lemma LookupIsOwnership(p: Phys, d: nat, v: nat, f: nat)
    requires Inv(p) && IsDir(p, d) && v < USERPAGES
    ensures Lookup(p, d, v) == Some(f) <==> PageIn(p.owner, f, d, v, v + 1)
  {
    assert FrameOk(p, d) && WordOk(p, d, Pdx(v), Table(d, Pdx(v)));
    if Lookup(p, d, v) == Some(f) {
      var t := FrameOf(p.mem[d][Pdx(v)]);
      assert FrameOk(p, t) && WordOk(p, t, Ptx(v), User(t, Ptx(v)));
    }
    if PageIn(p.owner, f, d, v, v + 1) {
      var t := p.owner[f].table;
      assert FrameOk(p, f) && FrameOk(p, t);
      assert p.owner[f].slot == Ptx(v) && p.owner[t].index == Pdx(v);
    }
  }

  /** No frame backs two pages, be it of one address space or of two. */
  lemma FramesAreNotShared(p: Phys, d: nat, v: nat, e: nat, w: nat)
    requires Inv(p) && IsDir(p, d) && IsDir(p, e) && v < USERPAGES && w < USERPAGES
    requires Lookup(p, d, v).Some? && Lookup(p, d, v) == Lookup(p, e, w)
    ensures d == e && v == w
  {
    LookupIsOwnership(p, d, v, Lookup(p, d, v).value);
    LookupIsOwnership(p, e, w, Lookup(p, d, v).value);
  }

  /** Directory entries restrict nothing: a page's own word decides what a user program may do. */
  lemma AccessIsPte(p: Phys, d: nat, v: nat)
    requires Inv(p) && IsDir(p, d) && v < NPAGES
    ensures UserReads(p, d, v) <==> Present(PteAt(p, d, v)) && UserBit(PteAt(p, d, v))
    ensures UserWrites(p, d, v) <==>
      Present(PteAt(p, d, v)) && UserBit(PteAt(p, d, v)) && WriteBit(PteAt(p, d, v))
    ensures d < |p.mem| && Pdx(v) < |p.mem[d]| && (Present(p.mem[d][Pdx(v)]) ==> Open(p.mem[d][Pdx(v)]))
  {
    assert FrameOk(p, d);
    assert WordOk(p, d, Pdx(v), Table(d, Pdx(v)));
    hide FrameOk, FreeOk;
    FlagBits(p.mem[d][Pdx(v)]);
  }

  // ---------------------------------------------------------------- one change of one frame

  /** kalloc: the head of the free list is held. */
  function Taken(p: Phys): (r: Phys)
    requires p.free != [] && p.free[0] < |p.owner|
  {
    Phys(p.mem, p.owner[p.free[0] := Held], p.free[1..], p.first)
  }

  /** kfree: a frame filled with 1s goes to the head of the list. */
  function Given(p: Phys, f: nat): (r: Phys)
    requires f < |p.mem| && f < |p.owner|
  {
    Phys(p.mem[f := Filled(0x01010101)], p.owner[f := Free], [f] + p.free, p.first)
  }

  /** A held frame's content replaced. */
  function Written(p: Phys, f: nat, c: Frame): (r: Phys)
    requires f < |p.mem|
  {
    Phys(p.mem[f := c], p.owner, p.free, p.first)
  }

  function Put(c: Frame, j: nat, w: nat): (r: Frame)
    requires j < |c|
  {
    c[j := w]
  }

  /** Word j of frame t set, and frame f's owner with it. */
  function Pointed(p: Phys, t: nat, j: nat, w: nat, f: nat, o: Owner): (r: Phys)
    requires t < |p.mem| && j < |p.mem[t]| && f < |p.owner|
  {
    Phys(p.mem[t := Put(p.mem[t], j, w)], p.owner[f := o], p.free, p.first)
  }

  lemma TakeKeepsFree(p: Phys)
    requires FreeOk(p) && p.free != []
    ensures p.free[0] < |p.owner| && FreeOk(Taken(p))
  {
    var r := Taken(p);
    forall k | 0 <= k < |r.free| ensures r.free[k] == p.free[k + 1] && r.free[k] != p.free[0] {}
    forall g | 0 <= g < |r.owner| && r.owner[g] == Free ensures g in r.free {
      assert g in p.free && p.free == [p.free[0]] + r.free;
    }
  }

  /** When one frame that nothing names changes from Free to Held or back, and is not a directory or
      table, the others stay in order. */
  lemma OwnersElsewhere(p: Phys, r: Phys, f: nat, g: nat)
    requires Inv(p) && Shaped(r) && f < |p.mem| && |r.mem| == |p.mem| && g < |p.mem|
    requires p.owner[f] in {Free, Held} && r.owner[f] in {Free, Held}
    requires forall h :: 0 <= h < |p.mem| && h != f ==> r.owner[h] == p.owner[h] && r.mem[h] == p.mem[h]
    ensures FrameOk(r, g)
  {
    assert FrameOk(p, g);
    if g != f {
      match p.owner[g] {
        case Dir(from) =>
          forall i | from <= i < NENTRIES ensures WordOk(r, g, i, Table(g, i)) { assert WordOk(p, g, i, Table(g, i)); }
        case Table(d, i) =>
          if i < NENTRIES / 2 {
            forall j | 0 <= j < NENTRIES ensures WordOk(r, g, j, User(g, j)) { assert WordOk(p, g, j, User(g, j)); }
          }
        case User(t, j) =>
        case Free =>
        case Held =>
      }
    }
  }

  lemma TakeKeeps(p: Phys)
    requires Inv(p) && p.free != []
    ensures p.free[0] < |p.owner| && p.owner[p.free[0]] == Free && Inv(Taken(p))
  {
    TakeKeepsFree(p);
    var r, f := Taken(p), p.free[0];
    forall g | 0 <= g < |r.mem| ensures FrameOk(r, g) {
      OwnersElsewhere(p, r, f, g);
    }
  }

  lemma WriteKeeps(p: Phys, f: nat, c: Frame)
    requires Inv(p) && f < |p.mem| && p.owner[f] == Held && |c| == NENTRIES
    ensures Inv(Written(p, f, c))
  {
    var r := Written(p, f, c);
    forall g | 0 <= g < |r.mem| ensures FrameOk(r, g) {
      OwnersElsewhere(p, r, f, g);
    }
  }

  lemma GiveKeeps(p: Phys, f: nat)
    requires Inv(p) && p.first <= f < |p.mem| && p.owner[f] == Held
    ensures Inv(Given(p, f))
  {
    var r := Given(p, f);
    assert Shaped(r);
    assert FreeOk(r) by {
      hide FrameOk;
      assert forall k :: 0 < k < |r.free| ==> r.free[k] == p.free[k - 1];
      assert r.free[0] == f;
    }
    forall g | 0 <= g < |r.mem| ensures FrameOk(r, g) {
      OwnersElsewhere(p, r, f, g);
    }
  }

  predicate IsUserTable(p: Phys, t: nat) {
    t < |p.owner| && p.owner[t].Table? && p.owner[t].index < NENTRIES / 2
  }

  predicate IsKernelTable(p: Phys, t: nat) {
    t < |p.owner| && p.owner[t].Table? && p.owner[t].index >= NENTRIES / 2
  }

  /** The words vm.c writes: a held frame put into an unused user slot; a zeroed frame put into an
      unused directory entry; any kernel mapping; a user slot cleared. */
  ghost predicate Fits(p: Phys, t: nat, j: nat, w: nat, f: nat, o: Owner)
    requires Shaped(p) && t < |p.mem| && j < NENTRIES && f < |p.mem|
  {
    p.first <= f && (
    || (o == User(t, j) && IsUserTable(p, t) && !Present(p.mem[t][j]) && p.owner[f] == Held && Present(w)
       && FrameOf(w) == f)
    || (o == Table(t, j) && IsDir(p, t) && !Present(p.mem[t][j]) && p.owner[f] == Held && p.mem[f] == Filled(0)
        && Present(w) && FrameOf(w) == f && Open(w))
    || (f == t && IsKernelTable(p, t) && o == p.owner[t])
    || (o == Held && IsUserTable(p, t) && Names(p, t, j, f) && w == 0))
  }

  lemma PointKeepsFrame(p: Phys, t: nat, j: nat, w: nat, f: nat, o: Owner, g: nat)
    requires Inv(p) && t < |p.mem| && j < NENTRIES && f < |p.mem| && g < |p.mem| && Fits(p, t, j, w, f, o)
    ensures Shaped(Pointed(p, t, j, w, f, o)) && FrameOk(Pointed(p, t, j, w, f, o), g)
  {
    var r := Pointed(p, t, j, w, f, o);
    assert FrameOk(p, t) && FrameOk(p, g);
    assert IsUserTable(p, t) ==> WordOk(p, t, j, User(t, j));
    hide FreeOk;
    match p.owner[g] {
      case Dir(from) =>
        forall l | from <= l < NENTRIES ensures WordOk(r, g, l, Table(g, l)) { assert WordOk(p, g, l, Table(g, l)); }
      case Table(e, k) =>
        if k < NENTRIES / 2 {
          forall l | 0 <= l < NENTRIES ensures WordOk(r, g, l, User(g, l)) { assert WordOk(p, g, l, User(g, l)); }
        }
      case User(u, l) =>
      case Free =>
      case Held =>
    }
  }

  lemma PointKeeps(p: Phys, t: nat, j: nat, w: nat, f: nat, o: Owner)
    requires Inv(p) && t < |p.mem| && j < NENTRIES && f < |p.mem| && Fits(p, t, j, w, f, o)
    ensures Inv(Pointed(p, t, j, w, f, o))
  {
    var r := Pointed(p, t, j, w, f, o);
    assert FrameOk(p, t) && FrameOk(p, f);
    assert IsUserTable(p, t) ==> WordOk(p, t, j, User(t, j));
    assert FreeOk(r) by { hide FrameOk; }
    forall g | 0 <= g < |r.mem| ensures FrameOk(r, g) { PointKeepsFrame(p, t, j, w, f, o, g); }
  }

  /** Owners changed at d, and at f unless f is d; d no longer answers for its entries below from. */
  function Reowned(p: Phys, d: nat, o: Owner, f: nat, q: Owner): (r: Phys)
    requires d < |p.owner| && f < |p.owner|
  {
    Phys(p.mem, p.owner[f := q][d := o], p.free, p.first)
  }

  /** Shared by the three lemmas below: g is not affected when d gives up entries and f its table. */
  lemma StaysWithout(p: Phys, r: Phys, d: nat, f: nat, g: nat)
    requires Inv(p) && Shaped(r) && r.mem == p.mem && d < |p.mem| && f < |p.mem| && g < |p.mem|
    requires p.owner[d].Dir? && (r.owner[d] == Held || r.owner[d] == Dir(p.owner[d].from + 1))
    requires r.owner[d] == Held ==> p.owner[d].from >= NENTRIES
    requires r == Reowned(p, d, r.owner[d], f, Held)
    requires f == d || (p.owner[f] == Table(d, p.owner[d].from)
                        && (IsUserTable(p, f) ==> forall j :: 0 <= j < NENTRIES ==> !Present(p.mem[f][j])))
    requires r.owner[d].Dir? ==> p.owner[d].from < NENTRIES
    requires f == d && r.owner[d].Dir? ==> !Present(p.mem[d][p.owner[d].from])
    ensures FrameOk(r, g)
  {
    assert FrameOk(p, g) && FrameOk(p, f);
    match p.owner[g] {
      case Dir(from) =>
        forall l | from <= l < NENTRIES
          ensures r.owner[g].Dir? && l >= r.owner[g].from ==> WordOk(r, g, l, Table(g, l))
        {
          assert WordOk(p, g, l, Table(g, l));
        }
      case Table(e, k) =>
        if k < NENTRIES / 2 {
          forall l | 0 <= l < NENTRIES ensures WordOk(r, g, l, User(g, l)) { assert WordOk(p, g, l, User(g, l)); }
        }
      case User(u, l) =>
      case Free =>
      case Held =>
    }
  }

  /** freevm's loop at an absent entry. */
  lemma SkipEntryKeeps(p: Phys, d: nat, k: nat)
    requires Inv(p) && d < |p.mem| && p.owner[d] == Dir(k) && k < NENTRIES && !Present(p.mem[d][k])
    ensures Inv(Reowned(p, d, Dir(k + 1), d, Held))
  {
    var r := Reowned(p, d, Dir(k + 1), d, Held);
    assert FreeOk(r) by { hide FrameOk; }
    forall g | 0 <= g < |r.mem| ensures FrameOk(r, g) { StaysWithout(p, r, d, d, g); }
  }

  /** freevm's loop at a present entry, once its table maps no user page. */
  lemma DropTableKeeps(p: Phys, d: nat, k: nat, f: nat)
    requires Inv(p) && d < |p.mem| && p.owner[d] == Dir(k) && k < NENTRIES && Names(p, d, k, f)
    requires f < |p.mem| && (k < NENTRIES / 2 ==> forall j :: 0 <= j < NENTRIES ==> !Present(p.mem[f][j]))
    ensures p.owner[f] == Table(d, k) && Inv(Reowned(p, d, Dir(k + 1), f, Held))
  {
    assert FrameOk(p, d) && WordOk(p, d, k, Table(d, k));
    var r := Reowned(p, d, Dir(k + 1), f, Held);
    assert FreeOk(r) by { hide FrameOk; }
    forall g | 0 <= g < |r.mem| ensures FrameOk(r, g) { StaysWithout(p, r, d, f, g); }
  }

  /** The directory itself, when nothing depends on it any more. */
  lemma DropDirKeeps(p: Phys, d: nat)
    requires Inv(p) && d < |p.mem| && p.owner[d] == Dir(NENTRIES)
    ensures Inv(Reowned(p, d, Held, d, Held))
  {
    var r := Reowned(p, d, Held, d, Held);
    assert FreeOk(r) by { hide FrameOk; }
    forall g | 0 <= g < |r.mem| ensures FrameOk(r, g) { StaysWithout(p, r, d, d, g); }
  }

  /** setupkvm: a held zeroed frame becomes a directory. */
  lemma NewDirKeeps(p: Phys, d: nat)
    requires Inv(p) && p.first <= d < |p.mem| && p.owner[d] == Held && p.mem[d] == Filled(0)
    ensures Inv(Reowned(p, d, Dir(0), d, Held))
  {
    var r := Reowned(p, d, Dir(0), d, Held);
    assert FreeOk(r) by { hide FrameOk; }
    forall g | 0 <= g < |r.mem| ensures FrameOk(r, g) {
      assert FrameOk(p, g);
      match p.owner[g] {
        case Dir(from) =>
          forall l | from <= l < NENTRIES ensures WordOk(r, g, l, Table(g, l)) { assert WordOk(p, g, l, Table(g, l)); }
        case Table(e, k) =>
          if k < NENTRIES / 2 {
            forall l | 0 <= l < NENTRIES ensures WordOk(r, g, l, User(g, l)) { assert WordOk(p, g, l, User(g, l)); }
          }
        case User(u, l) =>
        case Free =>
        case Held =>
      }
    }
  }

  // ---------------------------------------------------------------- what address spaces see

  /** Every address space reads as before at every page, but perhaps page v of d. */
  ghost predicate SameBut(p: Phys, r: Phys, d: nat, v: nat) {
    forall e: nat, w: nat :: IsDir(p, e) && w < NPAGES && (e != d || w != v) ==> PteAt(r, e, w) == PteAt(p, e, w)
  }

  ghost predicate SameAll(p: Phys, r: Phys) {
    forall e: nat, w: nat :: IsDir(p, e) && w < NPAGES ==> PteAt(r, e, w) == PteAt(p, e, w)
  }

  /** A present directory entry leads to a table of that entry. */
  lemma TableOfEntry(p: Phys, e: nat, w: nat)
    requires Inv(p) && IsDir(p, e) && w < NPAGES
    ensures Pdx(w) < NENTRIES
    ensures Present(p.mem[e][Pdx(w)]) ==>
      FrameOf(p.mem[e][Pdx(w)]) < |p.mem| && p.owner[FrameOf(p.mem[e][Pdx(w)])] == Table(e, Pdx(w))
  {
    assert FrameOk(p, e) && WordOk(p, e, Pdx(w), Table(e, Pdx(w)));
  }

  /** Frames that are neither directories nor tables are not read by any walk. */
  lemma WalkSkips(p: Phys, r: Phys, f: nat)
    requires Inv(p) && f < |p.mem| && !p.owner[f].Dir? && !p.owner[f].Table? && |r.mem| == |p.mem|
    requires forall g :: 0 <= g < |p.mem| && g != f ==> r.mem[g] == p.mem[g]
    ensures SameAll(p, r)
  {
    forall e: nat, w: nat | IsDir(p, e) && w < NPAGES ensures PteAt(r, e, w) == PteAt(p, e, w) {
      TableOfEntry(p, e, w);
    }
  }

  /** Setting word j of the table of entry i of d changes one page's word and nobody else's. */
  lemma PointChangesOne(p: Phys, t: nat, j: nat, w: nat, f: nat, o: Owner)
    requires Inv(p) && t < |p.mem| && p.owner[t].Table? && IsDir(p, p.owner[t].dir) && p.owner[t].index < NENTRIES
    requires j < NENTRIES && f < |p.mem|
    ensures SameBut(p, Pointed(p, t, j, w, f, o), p.owner[t].dir, NENTRIES * p.owner[t].index + j)
    ensures PteAt(Pointed(p, t, j, w, f, o), p.owner[t].dir, NENTRIES * p.owner[t].index + j) == w
  {
    var r, d, v := Pointed(p, t, j, w, f, o), p.owner[t].dir, NENTRIES * p.owner[t].index + j;
    assert FrameOk(p, t);
    assert Pdx(v) == p.owner[t].index && Ptx(v) == j;
    forall e: nat, x: nat | IsDir(p, e) && x < NPAGES && (e != d || x != v) ensures PteAt(r, e, x) == PteAt(p, e, x) {
      TableOfEntry(p, e, x);
    }
  }

  lemma SameAllThenBut(p: Phys, q: Phys, r: Phys, d: nat, v: nat)
    requires SameAll(p, q) && SameBut(q, r, d, v) && forall e :: 0 <= e < |p.owner| && IsDir(p, e) ==> IsDir(q, e)
    ensures SameBut(p, r, d, v)
  {}

  lemma SameButThenAll(p: Phys, q: Phys, r: Phys, d: nat, v: nat)
    requires SameBut(p, q, d, v) && SameAll(q, r) && forall e :: 0 <= e < |p.owner| && IsDir(p, e) ==> IsDir(q, e)
    ensures SameBut(p, r, d, v)
  {}

  /** walkpgdir's new table: zeroed, so no walk reads anything new. */
  function TableAdded(p: Phys, d: nat, i: nat): (r: Phys)
    requires Shaped(p) && p.free != [] && p.free[0] < |p.mem| && d < |p.mem| && i < NENTRIES && d != p.free[0]
  {
    var f := p.free[0];
    Pointed(Written(Taken(p), f, Filled(0)), d, i, Entry(f, 6), f, Table(d, i))
  }

  lemma TableAddedKeeps(p: Phys, d: nat, i: nat)
    requires Inv(p) && IsDir(p, d) && i < NENTRIES && !Present(p.mem[d][i]) && p.free != []
    ensures p.first <= p.free[0] < |p.mem| && p.owner[p.free[0]] == Free && d != p.free[0]
    ensures Inv(TableAdded(p, d, i)) && TableAdded(p, d, i).owner == p.owner[p.free[0] := Table(d, i)]
    ensures SameAll(p, TableAdded(p, d, i))
  {
    var f := p.free[0];
    TakeKeeps(p);
    var q := Taken(p);
    WriteKeeps(q, f, Filled(0));
    WalkSkips(p, Written(q, f, Filled(0)), f);
    var x := Written(q, f, Filled(0));
    PointKeeps(x, d, i, Entry(f, 6), f, Table(d, i));
    var r := TableAdded(p, d, i);
    assert r.owner == p.owner[f := Table(d, i)];
    forall e: nat, w: nat | IsDir(p, e) && w < NPAGES ensures PteAt(r, e, w) == PteAt(p, e, w) {
      TableOfEntry(p, e, w);
      assert PteAt(x, e, w) == PteAt(p, e, w);
    }
  }

  predicate TableOf(o: Owner, d: nat) { o.Table? && o.dir == d }

  /** Frames in use by others than d and its tables keep owner and content. */
  ghost predicate OthersKept(p: Phys, r: Phys, d: nat) {
    && |r.owner| == |p.owner| && |r.mem| == |p.mem| == |p.owner| && r.first == p.first
    && forall g :: 0 <= g < |p.owner| && p.owner[g] != Free && g != d && !TableOf(p.owner[g], d) ==>
       r.mem[g] == p.mem[g]
  }

  /** walkpgdir with alloc can give a slot for page v. */
  predicate CanWalk(p: Phys, d: nat, v: nat)
    requires d < |p.mem| && Pdx(v) < |p.mem[d]|
  {
    Present(p.mem[d][Pdx(v)]) || p.free != []
  }

  function Walked(p: Phys, d: nat, v: nat): (r: Phys)
    requires Inv(p) && IsDir(p, d) && v < NPAGES && CanWalk(p, d, v)
  {
    TableOfEntry(p, d, v);
    if Present(p.mem[d][Pdx(v)]) then p else
      TableAddedKeeps(p, d, Pdx(v));
      TableAdded(p, d, Pdx(v))
  }

  lemma WalkKeeps(p: Phys, d: nat, v: nat)
    requires Inv(p) && IsDir(p, d) && v < NPAGES && CanWalk(p, d, v)
    ensures var r := Walked(p, d, v);
      && Inv(r) && IsDir(r, d) && SameAll(p, r) && OthersKept(p, r, d)
      && Present(r.mem[d][Pdx(v)]) && var t := FrameOf(r.mem[d][Pdx(v)]);
      && t < |r.mem| && r.owner[t] == Table(d, Pdx(v))
      && (r.owner == p.owner || (p.owner[t] == Free && r.owner == p.owner[t := Table(d, Pdx(v))]))
  {
    TableOfEntry(p, d, v);
    var r := Walked(p, d, v);
    if !Present(p.mem[d][Pdx(v)]) {
      TableAddedKeeps(p, d, Pdx(v));
    }
    TableOfEntry(r, d, v);
  }

  function TableAt(p: Phys, d: nat, v: nat): (t: nat)
    requires d < |p.mem| && Pdx(v) < |p.mem[d]|
  {
    FrameOf(p.mem[d][Pdx(v)])
  }

  /** mappages for one user page and a held frame. */
  function Mapped(p: Phys, d: nat, v: nat, f: nat, flags: nat): (r: Phys)
    requires Inv(p) && IsDir(p, d) && v < NPAGES && CanWalk(p, d, v) && f < |p.mem| && flags < 4096
  {
    WalkKeeps(p, d, v);
    var q := Walked(p, d, v);
    var t := TableAt(q, d, v);
    Pointed(q, t, Ptx(v), Entry(f, flags), f, User(t, Ptx(v)))
  }

  lemma MapAtTable(q: Phys, d: nat, v: nat, t: nat, f: nat, w: nat)
    requires Inv(q) && IsDir(q, d) && v < USERPAGES && t < |q.mem| && q.owner[t] == Table(d, Pdx(v))
    requires q.first <= f < |q.mem| && q.owner[f] == Held && !Present(q.mem[t][Ptx(v)]) && Present(w) && FrameOf(w) == f
    ensures var r := Pointed(q, t, Ptx(v), w, f, User(t, Ptx(v)));
      Inv(r) && SameBut(q, r, d, v) && PteAt(r, d, v) == w
  {
    PointKeeps(q, t, Ptx(v), w, f, User(t, Ptx(v)));
    PointChangesOne(q, t, Ptx(v), w, f, User(t, Ptx(v)));
  }

  lemma MapKeeps(p: Phys, d: nat, v: nat, f: nat, flags: nat)
    requires Inv(p) && IsDir(p, d) && v < USERPAGES && CanWalk(p, d, v) && flags < 4096
    requires p.first <= f < |p.mem| && p.owner[f] == Held && !Present(PteAt(p, d, v))
    ensures var r := Mapped(p, d, v, f, flags);
      Inv(r) && SameBut(p, r, d, v) && PteAt(r, d, v) == Entry(f, flags)
  {
    WalkKeeps(p, d, v);
    var q := Walked(p, d, v);
    var t := TableAt(q, d, v);
    assert PteAt(q, d, v) == PteAt(p, d, v);
    assert PteAt(q, d, v) == q.mem[t][Ptx(v)];
    hide SameAll, SameBut, FrameOk, FreeOk;
    MapAtTable(q, d, v, t, f, Entry(f, flags));
    SameAllThenBut(p, q, Pointed(q, t, Ptx(v), Entry(f, flags), f, User(t, Ptx(v))), d, v);
  }

  /** Besides f, only a free frame may have changed hands, by becoming a table of d. */
  ghost predicate OnlyTablesTaken(p: Phys, r: Phys, d: nat, f: nat) {
    && |r.owner| == |p.owner|
    && (forall g :: 0 <= g < |p.owner| && g != f && p.owner[g] != Free ==> r.owner[g] == p.owner[g])
    && (forall g :: 0 <= g < |p.owner| && p.owner[g] == Free ==> r.owner[g] == Free || TableOf(r.owner[g], d))
  }

  /** A word of one of d's tables written after the walk p to q. */
  lemma PointOwners(p: Phys, q: Phys, d: nat, i: nat, t: nat, j: nat, w: nat, f: nat, o: Owner)
    requires Shaped(p) && Shaped(q) && OthersKept(p, q, d) && t < |p.mem| && f < |p.mem| && j < NENTRIES
      && q.owner[t] == Table(d, i)
    requires q.owner == p.owner || (p.owner[t] == Free && q.owner == p.owner[t := Table(d, i)])
    requires (p.owner[f] == Held && o == User(t, j)) || (f == t && o == Table(d, i))
    ensures var r := Pointed(q, t, j, w, f, o); OthersKept(p, r, d) && OnlyTablesTaken(p, r, d, f)
  {}

  /** The held frame is now page v of d. */
  lemma MapOwners(p: Phys, d: nat, v: nat, f: nat, flags: nat)
    requires Inv(p) && IsDir(p, d) && v < USERPAGES && CanWalk(p, d, v) && flags < 4096
    requires p.first <= f < |p.mem| && p.owner[f] == Held
    ensures var r := Mapped(p, d, v, f, flags);
      IsDir(r, d) && OthersKept(p, r, d) && PageIn(r.owner, f, d, v, v + 1) && OnlyTablesTaken(p, r, d, f)
  {
    WalkKeeps(p, d, v);
    var q := Walked(p, d, v);
    var t := TableAt(q, d, v);
    PointOwners(p, q, d, Pdx(v), t, Ptx(v), Entry(f, flags), f, User(t, Ptx(v)));
    hide FrameOk, FreeOk, SameAll, OthersKept, OnlyTablesTaken;
  }

  /** mappages for one page above KERNBASE: any frame, owned or not. */
  function KernelMapped(p: Phys, d: nat, v: nat, f: nat, flags: nat): (r: Phys)
    requires Inv(p) && IsDir(p, d) && v < NPAGES && CanWalk(p, d, v) && flags < 4096
  {
    WalkKeeps(p, d, v);
    var q := Walked(p, d, v);
    var t := TableAt(q, d, v);
    Pointed(q, t, Ptx(v), Entry(f, flags), t, Table(d, Pdx(v)))
  }

  lemma MapAtKernelTable(q: Phys, d: nat, v: nat, t: nat, w: nat)
    requires Inv(q) && IsDir(q, d) && USERPAGES <= v < NPAGES && t < |q.mem| && q.owner[t] == Table(d, Pdx(v))
    ensures var r := Pointed(q, t, Ptx(v), w, t, Table(d, Pdx(v)));
      Inv(r) && SameBut(q, r, d, v) && PteAt(r, d, v) == w
  {
    assert q.first <= t;
    PointKeeps(q, t, Ptx(v), w, t, Table(d, Pdx(v)));
    PointChangesOne(q, t, Ptx(v), w, t, Table(d, Pdx(v)));
  }

  lemma KernelMapKeeps(p: Phys, d: nat, v: nat, f: nat, flags: nat)
    requires Inv(p) && IsDir(p, d) && USERPAGES <= v < NPAGES && CanWalk(p, d, v) && flags < 4096
    ensures var r := KernelMapped(p, d, v, f, flags);
      Inv(r) && SameBut(p, r, d, v) && PteAt(r, d, v) == Entry(f, flags)
  {
    WalkKeeps(p, d, v);
    var q := Walked(p, d, v);
    var t := TableAt(q, d, v);
    hide SameAll, SameBut, FrameOk, FreeOk;
    MapAtKernelTable(q, d, v, t, Entry(f, flags));
    SameAllThenBut(p, q, Pointed(q, t, Ptx(v), Entry(f, flags), t, Table(d, Pdx(v))), d, v);
  }

  lemma KernelMapOwners(p: Phys, d: nat, v: nat, f: nat, flags: nat)
    requires Inv(p) && IsDir(p, d) && USERPAGES <= v < NPAGES && CanWalk(p, d, v) && flags < 4096
    ensures var r := KernelMapped(p, d, v, f, flags);
      IsDir(r, d) && OthersKept(p, r, d) && OnlyTablesTaken(p, r, d, |p.owner|)
  {
    WalkKeeps(p, d, v);
    var q := Walked(p, d, v);
    var t := TableAt(q, d, v);
    PointOwners(p, q, d, Pdx(v), t, Ptx(v), Entry(f, flags), t, Table(d, Pdx(v)));
    hide FrameOk, FreeOk, SameAll, OthersKept;
  }

  // ---------------------------------------------------------------- growing and shrinking

  /** From p to r, d has got the user pages [a, b) and perhaps tables out of free frames; no frame in
      use has changed hands. */
  ghost predicate Grew(p: Phys, r: Phys, d: nat, a: nat, b: nat) {
    && OthersKept(p, r, d)
    && (forall g :: 0 <= g < |p.owner| && p.owner[g] != Free ==> r.owner[g] == p.owner[g])
    && (forall g :: 0 <= g < |p.owner| && p.owner[g] == Free ==>
          r.owner[g] == Free || TableOf(r.owner[g], d) || PageIn(r.owner, g, d, a, b))
  }

  lemma PageStays(q: Phys, r: Phys, d: nat, a: nat, b: nat, c: nat, g: nat)
    requires Inv(q) && Grew(q, r, d, b, c) && g < |q.owner| && PageIn(q.owner, g, d, a, b) && a <= b <= c
    ensures PageIn(r.owner, g, d, a, c)
  {
    assert FrameOk(q, g);
  }

  lemma GrewTrans(p: Phys, q: Phys, r: Phys, d: nat, a: nat, b: nat, c: nat)
    requires Grew(p, q, d, a, b) && Inv(q) && Grew(q, r, d, b, c) && a <= b <= c
    ensures Grew(p, r, d, a, c)
  {
    forall g | 0 <= g < |p.owner| && p.owner[g] == Free
      ensures r.owner[g] == Free || TableOf(r.owner[g], d) || PageIn(r.owner, g, d, a, c) {
      if PageIn(q.owner, g, d, a, b) { PageStays(q, r, d, a, b, c, g); }
    }
  }

  /** The frames of d's user pages [a, b) have become free; nothing else has changed hands. */
  ghost predicate Shrunk(p: Phys, r: Phys, d: nat, a: nat, b: nat) {
    && |r.owner| == |p.owner| && |r.mem| == |p.mem| == |p.owner| && r.first == p.first
    && (forall g :: 0 <= g < |p.owner| ==> r.owner[g] == if PageIn(p.owner, g, d, a, b) then Free else p.owner[g])
    && (forall g ::
          0 <= g < |p.owner| && p.owner[g] != Free && !PageIn(p.owner, g, d, a, b) && !TableOf(p.owner[g], d) ==>
          r.mem[g] == p.mem[g])
  }

  /** Dropping what was added since p: nothing is left over but tables of d. */
  lemma ShrinkUndoesGrowth(p: Phys, q: Phys, r: Phys, d: nat, a: nat, b: nat, c: nat)
    requires Grew(p, q, d, a, b) && Shrunk(q, r, d, a, c) && b <= c
    requires forall g :: 0 <= g < |p.owner| && p.owner[g] != Free ==> !PageIn(q.owner, g, d, a, c)
    ensures Grew(p, r, d, a, a)
  {
    forall g | 0 <= g < |p.owner| && p.owner[g] == Free ensures r.owner[g] == Free || TableOf(r.owner[g], d) {
      assert q.owner[g] == Free || TableOf(q.owner[g], d) || PageIn(q.owner, g, d, a, b);
    }
    forall g | 0 <= g < |p.owner| && p.owner[g] != Free ensures r.owner[g] == p.owner[g] {
      assert !PageIn(q.owner, g, d, a, c);
    }
  }

  /** One page unmapped and its frame freed, in this order of effects: the frame first, then the word. */
  function Dropped(p: Phys, t: nat, j: nat, f: nat): (r: Phys)
    requires t < |p.mem| && j < |p.mem[t]| && f < |p.owner| && f < |p.mem|
  {
    Given(Pointed(p, t, j, 0, f, Held), f)
  }

  lemma DropKeeps(p: Phys, d: nat, v: nat, t: nat, f: nat)
    requires Inv(p) && IsDir(p, d) && v < USERPAGES && Present(p.mem[d][Pdx(v)]) && t == TableAt(p, d, v)
    requires Present(PteAt(p, d, v)) && f == FrameOf(PteAt(p, d, v))
    ensures t < |p.mem| && f < |p.mem| && f != t && p.first <= f && PageIn(p.owner, f, d, v, v + 1)
    ensures var r := Dropped(p, t, Ptx(v), f);
      Inv(r) && SameBut(p, r, d, v) && PteAt(r, d, v) == 0
    ensures p.owner[f] == User(t, Ptx(v)) && Pointed(p, t, Ptx(v), 0, f, Held).owner[f] == Held
  {
    LookupIsOwnership(p, d, v, f);
    TableOfEntry(p, d, v);
    assert FrameOk(p, t) && WordOk(p, t, Ptx(v), User(t, Ptx(v)));
    PointKeeps(p, t, Ptx(v), 0, f, Held);
    PointChangesOne(p, t, Ptx(v), 0, f, Held);
    var q := Pointed(p, t, Ptx(v), 0, f, Held);
    GiveKeeps(q, f);
    WalkSkips(q, Given(q, f), f);
    assert IsDir(q, d);
    SameButThenAll(p, q, Given(q, f), d, v);
  }

  /** The only frame that is page v of d is the one the walk finds. */
  lemma DropShrinks(p: Phys, d: nat, v: nat, t: nat, f: nat)
    requires Inv(p) && IsDir(p, d) && v < USERPAGES && Present(p.mem[d][Pdx(v)]) && t == TableAt(p, d, v)
    requires Present(PteAt(p, d, v)) && f == FrameOf(PteAt(p, d, v))
    ensures t < |p.mem| && f < |p.mem| && Shrunk(p, Dropped(p, t, Ptx(v), f), d, v, v + 1)
  {
    DropKeeps(p, d, v, t, f);
    TableOfEntry(p, d, v);
    var b := v + 1;
    forall g | 0 <= g < |p.owner| && g != f ensures !PageIn(p.owner, g, d, v, b) {
      LookupIsOwnership(p, d, v, g);
    }
    hide Inv, SameBut, PteAt;
  }

  /** Which page an owned user page is, and that the walk finds it there. */
  lemma PageInMeans(p: Phys, g: nat, d: nat, a: nat, b: nat)
    requires Inv(p) && IsDir(p, d) && PageIn(p.owner, g, d, a, b) && b <= USERPAGES
    ensures var w := p.owner[p.owner[g].table].index * NENTRIES + p.owner[g].slot;
      a <= w < b && Pdx(w) < NENTRIES && Present(p.mem[d][Pdx(w)]) && Present(PteAt(p, d, w))
        && FrameOf(PteAt(p, d, w)) == g
  {
    var w := p.owner[p.owner[g].table].index * NENTRIES + p.owner[g].slot;
    assert PageIn(p.owner, g, d, w, w + 1);
    LookupIsOwnership(p, d, w, g);
    TableOfEntry(p, d, w);
  }

  /** With no present word there is no frame to free. */
  lemma NothingThere(p: Phys, d: nat, v: nat, b: nat)
    requires Inv(p) && IsDir(p, d) && v < b <= USERPAGES
    requires (!Present(p.mem[d][Pdx(v)]) && b <= NENTRIES * (Pdx(v) + 1)) || (!Present(PteAt(p, d, v)) && b == v + 1)
    ensures Shrunk(p, p, d, v, b)
  {
    forall g | 0 <= g < |p.owner| ensures !PageIn(p.owner, g, d, v, b) {
      if PageIn(p.owner, g, d, v, b) { PageInMeans(p, g, d, v, b); }
    }
  }

  lemma ShrunkTrans(p: Phys, q: Phys, r: Phys, d: nat, a: nat, b: nat, c: nat)
    requires Inv(p) && Inv(q) && Shrunk(p, q, d, a, b) && Shrunk(q, r, d, b, c) && a <= b <= c
    ensures Shrunk(p, r, d, a, c)
  {
    forall g | 0 <= g < |p.owner|
      ensures PageIn(p.owner, g, d, a, c) <==> PageIn(p.owner, g, d, a, b) || PageIn(q.owner, g, d, b, c)
    {
      assert FrameOk(p, g) && FrameOk(q, g);
    }
    hide Inv;
  }

  /** The present words of d's pages [a, b) have been cleared, and no other. */
  ghost predicate Unmapped(p: Phys, r: Phys, d: nat, a: nat, b: nat) {
    forall e: nat, w: nat :: IsDir(p, e) && w < NPAGES ==>
      PteAt(r, e, w) == if e == d && a <= w < b && Present(PteAt(p, e, w)) then 0 else PteAt(p, e, w)
  }

  /** deallocuvm's loop where there is no table up to b, or no page. */
  lemma DeallocSkips(p: Phys, q: Phys, d: nat, a: nat, v: nat, b: nat)
    requires Inv(p) && Inv(q) && IsDir(p, d) && IsDir(q, d) && Shrunk(p, q, d, a, v) && Unmapped(p, q, d, a, v)
    requires a <= v < b <= USERPAGES
    requires (!Present(q.mem[d][Pdx(v)]) && b <= NENTRIES * (Pdx(v) + 1)) || (!Present(PteAt(q, d, v)) && b == v + 1)
    ensures Shrunk(p, q, d, a, b) && Unmapped(p, q, d, a, b)
  {
    NothingThere(q, d, v, b);
    ShrunkTrans(p, q, q, d, a, v, b);
    forall e: nat, w: nat | IsDir(p, e) && w < NPAGES
      ensures PteAt(q, e, w) == if e == d && a <= w < b && Present(PteAt(p, e, w)) then 0 else PteAt(p, e, w) {
      assert e == d && v <= w < b ==> w == v || Pdx(w) == Pdx(v);
    }
  }

  lemma UnmapOneMore(p: Phys, q: Phys, r: Phys, d: nat, a: nat, v: nat)
    requires Shrunk(p, q, d, a, v) && Unmapped(p, q, d, a, v) && SameBut(q, r, d, v) && PteAt(r, d, v) == 0
    requires a <= v && Present(PteAt(q, d, v))
    ensures Unmapped(p, r, d, a, v + 1)
  {
    forall e: nat, w: nat | IsDir(p, e) && w < NPAGES
      ensures PteAt(r, e, w) == if e == d && a <= w < v + 1 && Present(PteAt(p, e, w)) then 0 else PteAt(p, e, w) {
      assert IsDir(q, e);
    }
  }

  /** deallocuvm's loop at a present page. */
  lemma DeallocDrops(p: Phys, q: Phys, d: nat, a: nat, v: nat, t: nat, f: nat)
    requires Inv(p) && Inv(q) && IsDir(p, d) && IsDir(q, d) && Shrunk(p, q, d, a, v) && Unmapped(p, q, d, a, v)
    requires a <= v < USERPAGES && Present(q.mem[d][Pdx(v)]) && t == TableAt(q, d, v)
    requires Present(PteAt(q, d, v)) && f == FrameOf(PteAt(q, d, v))
    ensures t < |q.mem| && f < |q.mem| && f != t && 0 < q.first <= f
    ensures var r := Dropped(q, t, Ptx(v), f);
      Inv(r) && IsDir(r, d) && Shrunk(p, r, d, a, v + 1) && Unmapped(p, r, d, a, v + 1)
  {
    DropKeeps(q, d, v, t, f);
    DropShrinks(q, d, v, t, f);
    var r := Dropped(q, t, Ptx(v), f);
    ShrunkTrans(p, q, r, d, a, v, v + 1);
    UnmapOneMore(p, q, r, d, a, v);
  }

  /** PGROUNDUP(sz) / PGSIZE. */
  function Pages(sz: nat): (n: nat)
    ensures sz <= 4096 * n < sz + 4096
  {
    (sz + 4095) / 4096
  }

  // ---------------------------------------------------------------- a whole address space

  /** The directory d, its tables and its user pages. */
  predicate Belongs(owner: seq<Owner>, g: nat, d: nat)
    requires g < |owner|
  {
    g == d || TableOf(owner[g], d) || PageIn(owner, g, d, 0, USERPAGES)
  }

  /** Everything of d is free; every other frame keeps owner and content. */
  ghost predicate Gone(p: Phys, r: Phys, d: nat) {
    && |r.owner| == |p.owner| && |r.mem| == |p.mem| == |p.owner| && r.first == p.first
    && (forall g :: 0 <= g < |p.owner| ==> r.owner[g] == if Belongs(p.owner, g, d) then Free else p.owner[g])
    && (forall g :: 0 <= g < |p.owner| && p.owner[g] != Free && !Belongs(p.owner, g, d) ==> r.mem[g] == p.mem[g])
  }

  /** freevm between two rounds of its loop over the directory. */
  ghost predicate Freeing(q: Phys, s: Phys, d: nat, i: nat) {
    && |s.owner| == |q.owner| && |s.mem| == |q.mem| == |q.owner| && s.first == q.first && d < |q.owner|
    && s.owner[d] == Dir(i)
    && (forall g :: 0 <= g < |q.owner| && g != d ==>
          s.owner[g] == if TableOf(q.owner[g], d) && q.owner[g].index < i then Free else q.owner[g])
    && (forall g :: 0 <= g < |q.owner| && !(TableOf(q.owner[g], d) && q.owner[g].index < i) ==> s.mem[g] == q.mem[g])
  }

  ghost predicate NoPages(q: Phys, d: nat) {
    forall w: nat :: w < USERPAGES ==> !Present(PteAt(q, d, w))
  }

  lemma FreeingSkips(q: Phys, s: Phys, d: nat, i: nat)
    requires IsDir(q, d) && Inv(s) && Freeing(q, s, d, i) && i < NENTRIES && !Present(s.mem[d][i])
    ensures var r := Reowned(s, d, Dir(i + 1), d, Held); Inv(r) && Freeing(q, r, d, i + 1)
  {
    SkipEntryKeeps(s, d, i);
    forall g | 0 <= g < |q.owner| ensures q.owner[g] != Table(d, i) {
      assert FrameOk(s, g);
    }
    hide Inv;
  }

  /** The table of entry i, which maps no page any more. */
  lemma EmptyTable(q: Phys, s: Phys, d: nat, i: nat, f: nat, j: nat)
    requires Inv(q) && IsDir(q, d) && NoPages(q, d) && Inv(s) && Freeing(q, s, d, i) && i < NENTRIES / 2
      && Names(s, d, i, f) && j < NENTRIES
    ensures f < |s.mem| && !Present(s.mem[f][j])
  {
    assert FrameOk(s, d) && WordOk(s, d, i, Table(d, i));
    var w := NENTRIES * i + j;
    assert Pdx(w) == i && Ptx(w) == j;
    TableOfEntry(q, d, w);
    assert !Present(PteAt(q, d, w));
  }

  lemma FreeingFrees(q: Phys, s: Phys, d: nat, i: nat, f: nat)
    requires Inv(q) && IsDir(q, d) && NoPages(q, d)
    requires Inv(s) && Freeing(q, s, d, i) && i < NENTRIES && Names(s, d, i, f)
    ensures s.first <= f < |s.mem|
    ensures var r := Given(Reowned(s, d, Dir(i + 1), f, Held), f); Inv(r) && Freeing(q, r, d, i + 1)
  {
    assert FrameOk(s, d) && WordOk(s, d, i, Table(d, i));
    if i < NENTRIES / 2 {
      forall j | 0 <= j < NENTRIES ensures !Present(s.mem[f][j]) { EmptyTable(q, s, d, i, f, j); }
    }
    DropTableKeeps(s, d, i, f);
    GiveKeeps(Reowned(s, d, Dir(i + 1), f, Held), f);
    forall g | 0 <= g < |q.owner| && g != f ensures q.owner[g] != Table(d, i) {
      assert FrameOk(s, g);
    }
    hide Inv, FrameOk;
  }

  lemma FreeingEnds(p: Phys, q: Phys, s: Phys, d: nat)
    requires Inv(p) && IsDir(p, d) && Shrunk(p, q, d, 0, USERPAGES) && Inv(s) && Freeing(q, s, d, NENTRIES)
    ensures s.first <= d < |s.mem|
    ensures var r := Given(Reowned(s, d, Held, d, Held), d); Inv(r) && Gone(p, r, d)
  {
    DropDirKeeps(s, d);
    GiveKeeps(Reowned(s, d, Held, d, Held), d);
    forall g | 0 <= g < |p.owner| && TableOf(p.owner[g], d) ensures p.owner[g].index < NENTRIES {
      assert FrameOk(p, g);
    }
    hide Inv;
  }

  /** Address spaces other than the one freed read as before. */
  lemma GoneKeepsOthers(p: Phys, r: Phys, d: nat, e: nat, w: nat)
    requires Inv(p) && Gone(p, r, d) && IsDir(p, d) && IsDir(p, e) && e != d && w < NPAGES
    ensures IsDir(r, e) && PteAt(r, e, w) == PteAt(p, e, w)
  {
    TableOfEntry(p, e, w);
  }

  // ---------------------------------------------------------------- adding pages

  /** Every word of every address space reads as before, but for d's pages [a, b). */
  ghost predicate SameOutside(p: Phys, r: Phys, d: nat, a: nat, b: nat) {
    forall e: nat, w: nat :: IsDir(p, e) && w < NPAGES && !(e == d && a <= w < b) ==> PteAt(r, e, w) == PteAt(p, e, w)
  }

  /** Page v of d is mapped with these flags to a frame of its own with this content. */
  ghost predicate PageHas(r: Phys, d: nat, v: nat, c: Frame, flags: nat) {
    && Present(PteAt(r, d, v)) && PteAt(r, d, v) % 4096 == flags
    && FrameOf(PteAt(r, d, v)) < |r.mem| && r.mem[FrameOf(PteAt(r, d, v))] == c
  }

  /** PTE_P set in the flags. */
  function WithP(flags: nat): (f: nat) { if flags % 2 == 1 then flags else flags + 1 }

  /** kalloc, a content and mappages at one page. */
  lemma AddKeeps(q: Phys, d: nat, v: nat, c: Frame, flags: nat)
    requires Inv(q) && IsDir(q, d) && v < USERPAGES && !Present(PteAt(q, d, v)) && |c| == NENTRIES && flags < 4096
      && q.free != []
    ensures q.free[0] < |q.mem|
    ensures var x := Written(Taken(q), q.free[0], c);
      Inv(x) && IsDir(x, d) && SameAll(q, x) && x.owner[q.free[0]] == Held && q.owner[q.free[0]] == Free
        && q.first <= q.free[0]
  {
    TakeKeeps(q);
    WriteKeeps(Taken(q), q.free[0], c);
    WalkSkips(q, Written(Taken(q), q.free[0], c), q.free[0]);
  }

  lemma AddGrows(q: Phys, d: nat, v: nat, c: Frame, flags: nat)
    requires Inv(q) && IsDir(q, d) && v < USERPAGES && !Present(PteAt(q, d, v)) && |c| == NENTRIES && flags < 4096
      && q.free != []
    requires q.free[0] < |q.mem| && var x := Written(Taken(q), q.free[0], c); Inv(x) && IsDir(x, d) && CanWalk(x, d, v)
    ensures var r := Mapped(Written(Taken(q), q.free[0], c), d, v, q.free[0], flags);
      Inv(r) && IsDir(r, d) && Grew(q, r, d, v, v + 1) && SameBut(q, r, d, v) && PageHas(r, d, v, c, WithP(flags))
  {
    AddKeeps(q, d, v, c, flags);
    var f, x := q.free[0], Written(Taken(q), q.free[0], c);
    assert PteAt(x, d, v) == PteAt(q, d, v);
    MapKeeps(x, d, v, f, flags);
    MapOwners(x, d, v, f, flags);
    SameAllThenBut(q, x, Mapped(x, d, v, f, flags), d, v);
    hide Inv, SameAll, SameBut, PteAt, Mapped;
  }

  /** Pages already there stay as they are while d gets another. */
  lemma PageHasStays(q: Phys, r: Phys, d: nat, u: nat, v: nat, c: Frame, flags: nat)
    requires Inv(q) && IsDir(q, d) && u < USERPAGES && u != v && Grew(q, r, d, v, v + 1) && SameBut(q, r, d, v)
    requires PageHas(q, d, u, c, flags)
    ensures PageHas(r, d, u, c, flags)
  {
    LookupIsOwnership(q, d, u, FrameOf(PteAt(q, d, u)));
  }

  /** Frames in use before d grew in [a, b) are none of its pages there, when none were mapped. */
  lemma NoOldPages(p: Phys, q: Phys, d: nat, a: nat, v: nat, b: nat, g: nat)
    requires Inv(p) && IsDir(p, d) && Grew(p, q, d, a, v) && b <= USERPAGES && g < |p.owner| && p.owner[g] != Free
    requires forall w: nat :: a <= w < b ==> !Present(PteAt(p, d, w))
    ensures !PageIn(q.owner, g, d, a, b)
  {
    if PageIn(q.owner, g, d, a, b) {
      assert FrameOk(p, g);
      PageInMeans(p, g, d, a, b);
    }
  }

  /** deallocuvm after a failed round of allocuvm: only page tables of d may remain. */
  lemma FailureUndoes(p: Phys, q: Phys, r: Phys, d: nat, a: nat, v: nat, b: nat)
    requires Inv(p) && IsDir(p, d) && Grew(p, q, d, a, v) && SameOutside(p, q, d, a, v) && a <= v <= b <= USERPAGES
    requires Shrunk(q, r, d, a, b) && Unmapped(q, r, d, a, b)
    requires forall w: nat :: a <= w < b ==> !Present(PteAt(p, d, w))
    ensures Grew(p, r, d, a, a) && SameOutside(p, r, d, a, b)
    ensures forall w: nat :: a <= w < b ==> !Present(PteAt(r, d, w))
  {
    forall g | 0 <= g < |p.owner| && p.owner[g] != Free ensures !PageIn(q.owner, g, d, a, b) {
      NoOldPages(p, q, d, a, v, b, g);
    }
    ShrinkUndoesGrowth(p, q, r, d, a, v, b);
    assert forall e :: 0 <= e < |p.owner| && IsDir(p, e) ==> IsDir(q, e);
    hide Grew, Shrunk, Inv;
    forall e: nat, w: nat | IsDir(p, e) && w < NPAGES && !(e == d && a <= w < b)
      ensures PteAt(r, e, w) == PteAt(p, e, w)
    {
      assert PteAt(q, e, w) == PteAt(p, e, w);
    }
  }

  /** The frame that found no table, freed after deallocuvm: as if it had never been taken. */
  lemma HeldReturned(q: Phys, x: Phys, y: Phys, d: nat, a: nat, b: nat, f: nat, c: Frame)
    requires Inv(q) && q.free != [] && f == q.free[0] < |q.mem| && x == Written(Taken(q), f, c) && SameAll(q, x)
      && IsDir(q, d)
    requires q.owner[f] == Free && Inv(y) && Shrunk(x, y, d, a, b) && Unmapped(x, y, d, a, b)
    ensures f < |y.mem| && Inv(Given(y, f)) && IsDir(Given(y, f), d) && Shrunk(q, Given(y, f), d, a, b)
      && Unmapped(q, Given(y, f), d, a, b)
  {
    assert y.owner[f] == Held;
    GiveKeeps(y, f);
    WalkSkips(y, Given(y, f), f);
    var z := Given(y, f);
    forall g | 0 <= g < |q.owner| ensures PageIn(x.owner, g, d, a, b) <==> PageIn(q.owner, g, d, a, b) {}
    assert forall e :: 0 <= e < |q.owner| && IsDir(q, e) ==> IsDir(x, e) && IsDir(y, e);
    hide Inv;
    forall e: nat, w: nat | IsDir(q, e) && w < NPAGES
      ensures PteAt(z, e, w) == if e == d && a <= w < b && Present(PteAt(q, e, w)) then 0 else PteAt(q, e, w) {
      assert IsDir(x, e) && IsDir(y, e);
      assert PteAt(x, e, w) == PteAt(q, e, w) && PteAt(z, e, w) == PteAt(y, e, w);
    }
  }

  /** d's pages [a, v) hold the contents cs with the flags fs, page by page. */
  ghost predicate AllHave(q: Phys, d: nat, a: nat, v: nat, cs: seq<Frame>, fs: seq<nat>)
    requires v <= |cs| && v <= |fs|
  {
    forall u: nat :: a <= u < v ==> PageHas(q, d, u, cs[u], fs[u])
  }

  lemma AddedOneMore(p: Phys, q: Phys, r: Phys, d: nat, a: nat, v: nat, cs: seq<Frame>, fs: seq<nat>)
    requires Inv(p) && IsDir(p, d) && Inv(q) && IsDir(q, d) && a <= v < USERPAGES && v < |cs| && v < |fs|
    requires Grew(p, q, d, a, v) && SameOutside(p, q, d, a, v) && AllHave(q, d, a, v, cs, fs)
    requires Grew(q, r, d, v, v + 1) && SameBut(q, r, d, v) && PageHas(r, d, v, cs[v], fs[v])
    ensures Grew(p, r, d, a, v + 1) && SameOutside(p, r, d, a, v + 1) && AllHave(r, d, a, v + 1, cs, fs)
  {
    GrewTrans(p, q, r, d, a, v, v + 1);
    assert forall e :: 0 <= e < |p.owner| && IsDir(p, e) ==> IsDir(q, e);
    forall u: nat | a <= u < v + 1 ensures PageHas(r, d, u, cs[u], fs[u]) {
      if u < v { PageHasStays(q, r, d, u, v, cs[u], fs[u]); }
    }
    hide Grew, PageHas, Inv;
    forall e: nat, w: nat | IsDir(p, e) && w < NPAGES && !(e == d && a <= w < v + 1)
      ensures PteAt(r, e, w) == PteAt(p, e, w)
    {
      assert PteAt(q, e, w) == PteAt(p, e, w);
    }
  }

  datatype AddResult = Added | NoFrame | NoTable(mem: nat)

  // ---------------------------------------------------------------- making an address space

  /** Since p a free frame has become the directory d, with tables and the user pages below b. */
  ghost predicate Born(p: Phys, r: Phys, d: nat, b: nat) {
    && |r.owner| == |p.owner| && |r.mem| == |p.mem| == |p.owner| && r.first == p.first
    && d < |p.owner| && p.owner[d] == Free && IsDir(r, d)
    && (forall g :: 0 <= g < |p.owner| && p.owner[g] != Free ==> r.owner[g] == p.owner[g] && r.mem[g] == p.mem[g])
    && (forall g :: 0 <= g < |p.owner| && p.owner[g] == Free && g != d ==>
          r.owner[g] == Free || TableOf(r.owner[g], d) || PageIn(r.owner, g, d, 0, b))
  }

  /** kalloc, memset and the frame's new role. */
  function Founded(p: Phys): (r: Phys)
    requires p.free != [] && p.free[0] < |p.mem| && p.free[0] < |p.owner|
  {
    Reowned(Written(Taken(p), p.free[0], Filled(0)), p.free[0], Dir(0), p.free[0], Held)
  }

  lemma FoundingBears(p: Phys)
    requires Inv(p) && p.free != []
    ensures p.free[0] < |p.mem| && Inv(Founded(p)) && Born(p, Founded(p), p.free[0], 0) && SameAll(p, Founded(p))
    ensures forall w: nat :: w < NPAGES ==> PteAt(Founded(p), p.free[0], w) == 0
  {
    var d := p.free[0];
    TakeKeeps(p);
    WriteKeeps(Taken(p), d, Filled(0));
    NewDirKeeps(Written(Taken(p), d, Filled(0)), d);
    WalkSkips(p, Founded(p), d);
    forall w: nat | w < NPAGES ensures PteAt(Founded(p), d, w) == 0 { assert Pdx(w) < NENTRIES; }
  }

  lemma BornGrows(p: Phys, q: Phys, r: Phys, d: nat, b: nat, c: nat)
    requires Inv(p) && Inv(q) && Born(p, q, d, b) && Grew(q, r, d, b, c) && b <= c
    ensures Born(p, r, d, c)
  {
    forall g | 0 <= g < |p.owner| && p.owner[g] != Free ensures r.mem[g] == p.mem[g] && r.owner[g] == p.owner[g] {
      assert FrameOk(p, g) && FrameOk(q, g);
    }
    forall g | 0 <= g < |p.owner| && p.owner[g] == Free && g != d
      ensures r.owner[g] == Free || TableOf(r.owner[g], d) || PageIn(r.owner, g, d, 0, c) {
      if PageIn(q.owner, g, d, 0, b) { PageStays(q, r, d, 0, b, c, g); }
    }
  }

  lemma OldNotMine(p: Phys, q: Phys, d: nat, b: nat, g: nat)
    requires Inv(p) && Born(p, q, d, b) && g < |p.owner| && p.owner[g] != Free
    ensures !Belongs(q.owner, g, d)
  {
    assert FrameOk(p, g);
    if p.owner[g].User? { assert FrameOk(p, p.owner[g].table); }
  }

  /** freevm of an address space made since p: the free frames are those of p again. */
  lemma BornAndGone(p: Phys, q: Phys, r: Phys, d: nat, b: nat)
    requires Inv(p) && Inv(q) && Born(p, q, d, b) && b <= USERPAGES && Gone(q, r, d)
    ensures r.owner == p.owner
    ensures forall g :: 0 <= g < |p.owner| && p.owner[g] != Free ==> r.mem[g] == p.mem[g]
  {
    forall g | 0 <= g < |p.owner| ensures r.owner[g] == p.owner[g] && (p.owner[g] != Free ==> r.mem[g] == p.mem[g]) {
      if p.owner[g] != Free { OldNotMine(p, q, d, b, g); }
    }
  }

  /** SameAll over a run, as long as the directories stay. */
  lemma SameAllTrans(p: Phys, q: Phys, r: Phys, d: nat, a: nat, b: nat)
    requires SameAll(p, q) && SameOutside(q, r, d, a, b) && !IsDir(p, d)
    requires forall e :: 0 <= e < |p.owner| && IsDir(p, e) ==> IsDir(q, e)
    ensures SameAll(p, r)
  {}

  lemma SameAllAfterGone(p: Phys, q: Phys, r: Phys, d: nat, b: nat)
    requires Inv(p) && Inv(q) && Born(p, q, d, b) && SameAll(p, q) && Gone(q, r, d)
    ensures SameAll(p, r)
  {
    forall e: nat, w: nat | IsDir(p, e) && w < NPAGES ensures PteAt(r, e, w) == PteAt(p, e, w) {
      GoneKeepsOthers(q, r, d, e, w);
    }
  }

  /** One range of kmap, in pages. */
  datatype Kmap = Kmap(virt: nat, phys: nat, n: nat, perm: nat)

  predicate Covers(k: Kmap, w: nat) { k.virt <= w < k.virt + k.n }

  /** Ranges above KERNBASE that do not overlap. */
  ghost predicate KmapOk(kmap: seq<Kmap>) {
    && (forall i :: 0 <= i < |kmap| ==>
       USERPAGES <= kmap[i].virt && kmap[i].virt + kmap[i].n <= NPAGES && kmap[i].perm < 4096)
    && (forall i, j, w :: 0 <= i < j < |kmap| && Covers(kmap[i], w) ==> !Covers(kmap[j], w))
  }

  /** The word kmap's ranges give page w, 0 outside all of them. */
  function KernelWord(kmap: seq<Kmap>, w: nat): (x: nat)
    requires KmapOk(kmap)
  {
    if kmap == [] then 0 else
      var k := kmap[|kmap| - 1];
      if Covers(k, w) then Entry(k.phys + (w - k.virt), k.perm) else KernelWord(kmap[..|kmap| - 1], w)
  }

  lemma {:induction false} KernelWordOutside(kmap: seq<Kmap>, w: nat)
    requires KmapOk(kmap) && forall i :: 0 <= i < |kmap| ==> !Covers(kmap[i], w)
    ensures KernelWord(kmap, w) == 0
  {
    if kmap != [] { KernelWordOutside(kmap[..|kmap| - 1], w); }
  }

  /** d's pages [v, v + n) above KERNBASE map the frames from f on, and no other word has changed. */
  ghost predicate RangeMapped(p: Phys, r: Phys, d: nat, v: nat, n: nat, f: nat, flags: nat)
    requires flags < 4096
  {
    && SameOutside(p, r, d, v, v + n)
    && forall w: nat :: v <= w < v + n ==> PteAt(r, d, w) == Entry(f + (w - v), flags)
  }

  lemma RangeOneMore(p: Phys, q: Phys, r: Phys, d: nat, v: nat, i: nat, f: nat, flags: nat)
    requires flags < 4096 && RangeMapped(p, q, d, v, i, f, flags) && SameBut(q, r, d, v + i)
      && PteAt(r, d, v + i) == Entry(f + i, flags)
    requires IsDir(q, d) && v + i < NPAGES && forall e :: 0 <= e < |p.owner| && IsDir(p, e) ==> IsDir(q, e)
    ensures RangeMapped(p, r, d, v, i + 1, f, flags)
  {
    forall w: nat | v <= w < v + i + 1 ensures PteAt(r, d, w) == Entry(f + (w - v), flags) {
      if w < v + i { assert PteAt(q, d, w) == Entry(f + (w - v), flags); }
    }
    forall e: nat, w: nat | IsDir(p, e) && w < NPAGES && !(e == d && v <= w < v + i + 1)
      ensures PteAt(r, e, w) == PteAt(p, e, w)
    {
      assert IsDir(q, e) && PteAt(q, e, w) == PteAt(p, e, w);
    }
  }

  lemma TablesAreGrowth(p: Phys, r: Phys, d: nat)
    requires OthersKept(p, r, d) && OnlyTablesTaken(p, r, d, |p.owner|)
    ensures Grew(p, r, d, 0, 0)
  {}

  /** What an address space holds at a mapped page. */
  function Content(p: Phys, d: nat, v: nat): (c: Frame) {
    if FrameOf(PteAt(p, d, v)) < |p.mem| then p.mem[FrameOf(PteAt(p, d, v))] else Filled(0)
  }

  lemma ContentIsOwned(p: Phys, d: nat, v: nat)
    requires Inv(p) && IsDir(p, d) && v < USERPAGES && Present(PteAt(p, d, v))
    ensures FrameOf(PteAt(p, d, v)) < |p.mem| && p.owner[FrameOf(PteAt(p, d, v))].User?
      && |Content(p, d, v)| == NENTRIES
    ensures PageIn(p.owner, FrameOf(PteAt(p, d, v)), d, v, v + 1)
  {
    LookupIsOwnership(p, d, v, FrameOf(PteAt(p, d, v)));
  }

  /** Growing one address space leaves the memory of all of them as it was, page by page. */
  lemma GrowthKeepsMemory(p: Phys, r: Phys, d: nat, a: nat, b: nat, e: nat, w: nat)
    requires Inv(p) && IsDir(p, d) && IsDir(p, e) && w < USERPAGES && Present(PteAt(p, e, w)) && !(e == d && a <= w < b)
    requires Grew(p, r, d, a, b) && SameOutside(p, r, d, a, b)
    ensures PteAt(r, e, w) == PteAt(p, e, w) && Content(r, e, w) == Content(p, e, w)
  {
    ContentIsOwned(p, e, w);
  }

  /** So does taking pages from one, but for those pages. */
  lemma ShrinkingKeepsMemory(p: Phys, r: Phys, d: nat, a: nat, b: nat, e: nat, w: nat)
    requires Inv(p) && IsDir(p, e) && w < USERPAGES && Present(PteAt(p, e, w)) && !(e == d && a <= w < b)
    requires Shrunk(p, r, d, a, b) && Unmapped(p, r, d, a, b)
    ensures PteAt(r, e, w) == PteAt(p, e, w) && Content(r, e, w) == Content(p, e, w)
  {
    ContentIsOwned(p, e, w);
    assert !PageIn(p.owner, FrameOf(PteAt(p, e, w)), d, a, b);
  }

  /** The same word and content seen through a copy in the making. */
  lemma BornSees(p: Phys, q: Phys, d: nat, b: nat, e: nat, v: nat)
    requires Inv(p) && Born(p, q, d, b) && SameAll(p, q) && IsDir(p, e) && v < USERPAGES && Present(PteAt(p, e, v))
    ensures PteAt(q, e, v) == PteAt(p, e, v) && Content(q, e, v) == Content(p, e, v)
  {
    ContentIsOwned(p, e, v);
  }

  /** A frame taken for a page whose table could not be had, and given back. */
  lemma BornReturned(p: Phys, q: Phys, x: Phys, d: nat, b: nat, f: nat, c: Frame)
    requires Inv(p) && Inv(q) && Born(p, q, d, b) && SameAll(p, q)
    requires q.free != [] && f == q.free[0] < |q.mem| && q.owner[f] == Free && q.first <= f
    requires Inv(x) && x == Written(Taken(q), f, c) && SameAll(q, x)
    ensures Inv(Given(x, f)) && Born(p, Given(x, f), d, b) && SameAll(p, Given(x, f))
  {
    GiveKeeps(x, f);
    WalkSkips(x, Given(x, f), f);
    assert Given(x, f).owner == q.owner;
    assert p.owner[f] == Free;
    hide Inv;
    forall e: nat, w: nat | IsDir(p, e) && w < NPAGES ensures PteAt(Given(x, f), e, w) == PteAt(p, e, w) {
      assert IsDir(q, e) && IsDir(x, e);
      assert PteAt(q, e, w) == PteAt(p, e, w) && PteAt(x, e, w) == PteAt(q, e, w);
    }
  }

  lemma BornShape(p: Phys, q: Phys, d: nat, b: nat)
    requires Born(p, q, d, b)
    ensures IsDir(q, d) && |q.owner| == |q.mem|
  {}

  lemma SameAllGrows(p: Phys, q: Phys, r: Phys, d: nat, v: nat)
    requires Born(p, q, d, v) && SameAll(p, q) && SameBut(q, r, d, v)
    ensures SameAll(p, r)
  {
    assert forall e :: 0 <= e < |p.owner| && IsDir(p, e) ==> IsDir(q, e) && e != d;
  }

  // ---------------------------------------------------------------- access

  lemma PageIsWritable(r: Phys, d: nat, v: nat, c: Frame)
    requires Inv(r) && IsDir(r, d) && v < NPAGES && PageHas(r, d, v, c, 7)
    ensures UserWrites(r, d, v)
  {
    AccessIsPte(r, d, v);
    FlagBits(PteAt(r, d, v));
  }

  lemma PagesAreWritable(r: Phys, d: nat, a: nat, b: nat)
    requires Inv(r) && IsDir(r, d) && b <= USERPAGES && forall w: nat :: a <= w < b ==> PageHas(r, d, w, Filled(0), 7)
    ensures forall w: nat :: a <= w < b ==> UserWrites(r, d, w)
  {
    hide Inv, IsDir, PageHas, UserWrites;
    forall w: nat | a <= w < b ensures UserWrites(r, d, w) { PageIsWritable(r, d, w, Filled(0)); }
  }

  /** A page with the flags of another gives user programs the same access. */
  lemma SameFlagsSameAccess(p: Phys, e: nat, r: Phys, d: nat, v: nat, c: Frame)
    requires Inv(p) && IsDir(p, e) && Inv(r) && IsDir(r, d) && v < NPAGES
    requires PageHas(r, d, v, c, PteAt(p, e, v) % 4096)
    ensures UserReads(r, d, v) == UserReads(p, e, v) && UserWrites(r, d, v) == UserWrites(p, e, v)
  {
    AccessIsPte(p, e, v);
    AccessIsPte(r, d, v);
    FlagBits(PteAt(p, e, v));
    FlagBits(PteAt(r, d, v));
  }

  /** kmap gives user programs nothing. */
  ghost predicate KernelOnly(kmap: seq<Kmap>) { forall k :: 0 <= k < |kmap| ==> !UserBit(kmap[k].perm) }

  lemma UserBitOfEntry(f: nat, flags: nat)
    requires flags < 4096
    ensures UserBit(Entry(f, flags)) == UserBit(flags)
  {
    FlagBits(Entry(f, flags));
  }

  lemma {:induction false} KernelWordClosed(kmap: seq<Kmap>, w: nat)
    requires KmapOk(kmap) && KernelOnly(kmap)
    ensures !UserBit(KernelWord(kmap, w))
  {
    if kmap != [] {
      var k := kmap[|kmap| - 1];
      KernelWordClosed(kmap[..|kmap| - 1], w);
      if Covers(k, w) { UserBitOfEntry(k.phys + (w - k.virt), k.perm); }
    }
  }

  lemma KernelIsClosed(p: Phys, d: nat, kmap: seq<Kmap>, w: nat)
    requires Inv(p) && IsDir(p, d) && w < NPAGES && KmapOk(kmap) && KernelOnly(kmap)
    requires PteAt(p, d, w) == KernelWord(kmap, w)
    ensures !UserReads(p, d, w)
  {
    AccessIsPte(p, d, w);
    KernelWordClosed(kmap, w);
  }
}
