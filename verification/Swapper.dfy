/** The FIFO swapper of offline_4's vm.c for one process that grows and faults: a linked queue of the
    pages in memory, kept in an array of MAX_PSYC_PAGES slots, and a swap file of as many pages. */
module Swapper {
  import opened Wrappers

  const MAX_PSYC_PAGES: nat := 15
  const PGSIZE: nat := 4096

  type Page = seq<int>

  /** A page of one byte all over: kalloc's caller fills with 0, kfree with 1. */
  function Filled(b: int): (p: Page)
    ensures |p| == PGSIZE && forall i :: 0 <= i < PGSIZE ==> p[i] == b
  {
    seq(PGSIZE, i => b)
  }

  /** struct pageInPhyMem and struct pageInSwapFile; next is None for a null pointer. */
  datatype PhysSlot = PhysSlot(address: nat, next: Option<nat>, inUse: bool)
  datatype SwapSlot = SwapSlot(address: nat, inUse: bool)

  /** A page-table entry: not there, PTE_P with its frame, or PTE_PG. */
  datatype Pte = Present(frame: nat) | Paged

  // ------------------------------------------------------------------- the queue

  /** Slot numbers, none twice. */
  ghost predicate Listed(q: seq<nat>) {
    (forall i :: 0 <= i < |q| ==> q[i] < MAX_PSYC_PAGES) && (forall i, j :: 0 <= i < j < |q| ==> q[i] != q[j])
  }

  /** What follows the i-th of q: null after the last. */
  function After(q: seq<nat>, i: nat): (n: Option<nat>)
  {
    if i + 1 < |q| then Some(q[i + 1]) else None
  }

  /** Each slot's next is the one after it in q. */
  ghost predicate Linked(phys: seq<PhysSlot>, q: seq<nat>)
    requires |phys| == MAX_PSYC_PAGES && Listed(q)
  {
    forall i :: 0 <= i < |q| ==> phys[q[i]].next == After(q, i)
  }

  /** The slots in use are those in q. */
  ghost predicate Marked(phys: seq<PhysSlot>, q: seq<nat>)
    requires |phys| == MAX_PSYC_PAGES
  {
    forall s :: 0 <= s < MAX_PSYC_PAGES ==> (phys[s].inUse <==> s in q)
  }

  /** q lists the slots from head along next: exactly the slots in use, each once. */
  ghost predicate Chain(phys: seq<PhysSlot>, head: Option<nat>, q: seq<nat>) {
    && |phys| == MAX_PSYC_PAGES && Listed(q)
    && head == (if q == [] then None else Some(q[0]))
    && Linked(phys, q) && Marked(phys, q)
  }

  /** The addresses queued, in arrival order. */
  function Queued(phys: seq<PhysSlot>, q: seq<nat>): (a: seq<nat>)
    requires forall i :: 0 <= i < |q| ==> q[i] < |phys|
    ensures |a| == |q|
  {
    seq(|q|, i requires 0 <= i < |q| => phys[q[i]].address)
  }

  /** The head's slot released, its next pointer left as it was. */
  function Dequeued(phys: seq<PhysSlot>, q: seq<nat>): (r: seq<PhysSlot>)
    requires q != [] && q[0] < |phys|
  {
    phys[q[0] := PhysSlot(0, phys[q[0]].next, false)]
  }

  lemma DequeueKeepsChain(phys: seq<PhysSlot>, head: Option<nat>, q: seq<nat>)
    requires Chain(phys, head, q) && q != []
    ensures Chain(Dequeued(phys, q), phys[q[0]].next, q[1..])
  {}

  lemma DequeueTakesFirst(phys: seq<PhysSlot>, head: Option<nat>, q: seq<nat>)
    requires Chain(phys, head, q) && q != []
    ensures Queued(Dequeued(phys, q), q[1..]) == Queued(phys, q)[1..]
  {}

  /** The slot appended at the tail: the old tail points to it, it points nowhere. */
  function Appended(phys: seq<PhysSlot>, q: seq<nat>, s: nat, addr: nat): (r: seq<PhysSlot>)
    requires s < |phys| && forall i :: 0 <= i < |q| ==> q[i] < |phys|
  {
    (if q == [] then phys else phys[q[|q| - 1] := phys[q[|q| - 1]].(next := Some(s))])[s := PhysSlot(addr, None, true)]
  }

  lemma AppendedIsListed(q: seq<nat>, s: nat)
    requires Listed(q) && s < MAX_PSYC_PAGES && s !in q
    ensures Listed(q + [s])
  {}

  lemma EnqueueKeepsLinks(phys: seq<PhysSlot>, q: seq<nat>, s: nat, addr: nat)
    requires |phys| == MAX_PSYC_PAGES && Listed(q) && Linked(phys, q) && s < MAX_PSYC_PAGES && s !in q
    ensures Listed(q + [s]) && Linked(Appended(phys, q, s, addr), q + [s])
  {}

  lemma EnqueueKeepsMarks(phys: seq<PhysSlot>, q: seq<nat>, s: nat, addr: nat)
    requires |phys| == MAX_PSYC_PAGES && Listed(q) && Marked(phys, q) && s < MAX_PSYC_PAGES
    ensures Marked(Appended(phys, q, s, addr), q + [s])
  {}

  lemma EnqueueKeepsChain(phys: seq<PhysSlot>, head: Option<nat>, q: seq<nat>, s: nat, addr: nat)
    requires Chain(phys, head, q) && s < MAX_PSYC_PAGES && !phys[s].inUse
    ensures Chain(Appended(phys, q, s, addr), if q == [] then Some(s) else head, q + [s])
  {
    EnqueueKeepsLinks(phys, q, s, addr);
    EnqueueKeepsMarks(phys, q, s, addr);
  }

  lemma EnqueueAddsLast(phys: seq<PhysSlot>, q: seq<nat>, s: nat, addr: nat)
    requires |phys| == MAX_PSYC_PAGES && Listed(q) && s < MAX_PSYC_PAGES && s !in q
    ensures Listed(q + [s])
    ensures Queued(Appended(phys, q, s, addr), q + [s]) == Queued(phys, q) + [addr]
  {}

  /** A list that names every number below n has n elements at least; so with fewer than
      MAX_PSYC_PAGES queued some slot is free. */
  lemma {:induction false} CoverSize(q: seq<nat>, n: nat)
    requires forall s: nat :: s < n ==> s in q
    ensures |q| >= n
    decreases n
  {
    if n > 0 {
      var m: nat := n - 1;
      assert m in q;
      var k :| 0 <= k < |q| && q[k] == m;
      var r := q[..k] + q[k + 1..];
      forall s: nat | s < n - 1 ensures s in r {
        assert s in q;
        var i :| 0 <= i < |q| && q[i] == s;
        assert r[if i < k then i else i - 1] == s;
      }
      CoverSize(r, n - 1);
    }
  }

  /** Distinct numbers below n are at most n. */
  lemma {:induction false} DistinctSize(q: seq<nat>, n: nat)
    requires forall i :: 0 <= i < |q| ==> q[i] < n
    requires forall i, j :: 0 <= i < j < |q| ==> q[i] != q[j]
    ensures |q| <= n
    decreases n
  {
    if n > 0 {
      var m: nat := n - 1;
      if m in q {
        var k :| 0 <= k < |q| && q[k] == m;
        DistinctSize(q[..k] + q[k + 1..], m);
      } else {
        DistinctSize(q, m);
      }
    }
    assert q != [] ==> q[0] < n;
  }

  /** A slot is free exactly when fewer than MAX_PSYC_PAGES are queued: enqueueFIFO drops an address
      in the other case, and only then. */
  lemma SlotFreeIff(phys: seq<PhysSlot>, head: Option<nat>, q: seq<nat>)
    requires Chain(phys, head, q)
    ensures |phys| == MAX_PSYC_PAGES
    ensures (exists s :: 0 <= s < MAX_PSYC_PAGES && !phys[s].inUse) <==> |q| < MAX_PSYC_PAGES
  {
    DistinctSize(q, MAX_PSYC_PAGES);
    if s :| 0 <= s < MAX_PSYC_PAGES && !phys[s].inUse {
      assert s !in q;
      AppendedIsListed(q, s);
      DistinctSize(q + [s], MAX_PSYC_PAGES);
    } else {
      assert forall s: nat :: s < MAX_PSYC_PAGES ==> phys[s].inUse && s in q;
      CoverSize(q, MAX_PSYC_PAGES);
    }
  }

  // ---------------------------------------------------------------- the memory image

  /** One process's memory: page table, frames and their free list, swap slots and swap file. The
      first used swap slots are in use, and slotOf finds the slot of a paged-out page. */
  datatype Mem = Mem(pt: map<nat, Pte>, frames: map<nat, Page>, free: seq<nat>, swap: seq<SwapSlot>, file: seq<Page>,
                     used: nat, slotOf: map<nat, nat>)

  /** The used swap slots are a prefix, one for each paged-out page; the others still have address 0. */
  ghost predicate SwapOk(m: Mem) {
    && |m.swap| == MAX_PSYC_PAGES == |m.file| && m.used <= MAX_PSYC_PAGES
    && (forall i :: 0 <= i < |m.swap| ==> (m.swap[i].inUse <==> i < m.used))
    && (forall i :: m.used <= i < |m.swap| ==> m.swap[i].address == 0)
    && (forall i :: 0 <= i < m.used ==> m.swap[i].address in m.slotOf && m.slotOf[m.swap[i].address] == i)
    && (forall va :: va in m.slotOf ==> m.slotOf[va] < m.used && m.swap[m.slotOf[va]].address == va)
    && (forall va :: va in m.slotOf ==> va in m.pt && m.pt[va].Paged?)
    && (forall va :: va in m.pt && m.pt[va].Paged? ==> va in m.slotOf)
  }

  /** Present pages have frames of their own, none of them on the free list. */
  ghost predicate FramesOk(m: Mem) {
    && (forall va :: va in m.pt && m.pt[va].Present? ==> m.pt[va].frame in m.frames && m.pt[va].frame !in m.free)
    && (forall va, vb :: va in m.pt && vb in m.pt && va != vb && m.pt[va].Present? && m.pt[vb].Present? ==>
       m.pt[va].frame != m.pt[vb].frame)
    && (forall i :: 0 <= i < |m.free| ==> m.free[i] in m.frames)
    && (forall i, j :: 0 <= i < j < |m.free| ==> m.free[i] != m.free[j])
  }

  /** The queued addresses are exactly the present pages, each queued once; every mapped page is
      either queued or in a used swap slot, so the two counts add up to the pages mapped. */
  ghost predicate QueueOk(a: seq<nat>, m: Mem) {
    && (forall i :: 0 <= i < |a| ==> a[i] in m.pt && m.pt[a[i]].Present?)
    && (forall va :: va in m.pt && m.pt[va].Present? ==> va in a)
    && (forall i, j :: 0 <= i < j < |a| ==> a[i] != a[j])
    && |a| + m.used == |m.pt|
  }

  predicate OnPage(va: nat) {
    va % PGSIZE == 0
  }

  /** Page tables map pages. */
  ghost predicate Aligned(m: Mem) {
    forall va :: va in m.pt ==> OnPage(va)
  }

  ghost predicate MemOk(a: seq<nat>, m: Mem) {
    SwapOk(m) && FramesOk(m) && QueueOk(a, m) && Aligned(m)
  }

  /** What the process sees at a page: its frame, or its page of the swap file. */
  function PageAt(m: Mem, va: nat): (c: Page)
    requires va in m.pt
  {
    match m.pt[va]
    case Present(f) => if f in m.frames then m.frames[f] else []
    case Paged => if va in m.slotOf && m.slotOf[va] < |m.file| then m.file[m.slotOf[va]] else []
  }

  /** The whole address space, page by page. */
  function Image(m: Mem): (r: map<nat, Page>)
    ensures r.Keys == m.pt.Keys
  {
    map va | va in m.pt :: PageAt(m, va)
  }

  /** moveToSwapFile with a slot free: the page's frame goes to the first unused slot and is freed. */
  function MovedOut(m: Mem, va: nat): (r: Mem)
    requires va in m.pt && m.pt[va].Present? && m.pt[va].frame in m.frames
    requires m.used < |m.swap| && |m.swap| == |m.file|
  {
    var f := m.pt[va].frame;
    Mem(m.pt[va := Paged], m.frames[f := Filled(1)], [f] + m.free,
        m.swap[m.used := SwapSlot(va, true)], m.file[m.used := m.frames[f]], m.used + 1, m.slotOf[va := m.used])
  }

  /** moveToSwapFile with every slot in use: nothing is written, and the frame is freed all the same. */
  function MovedNowhere(m: Mem, va: nat): (r: Mem)
    requires va in m.pt && m.pt[va].Present?
  {
    var f := m.pt[va].frame;
    Mem(m.pt[va := Paged], m.frames[f := Filled(1)], [f] + m.free, m.swap, m.file, m.used + 1, m.slotOf)
  }

  lemma OutKeepsSwap(m: Mem, va: nat)
    requires SwapOk(m) && FramesOk(m) && va in m.pt && m.pt[va].Present? && m.used < MAX_PSYC_PAGES
    ensures SwapOk(MovedOut(m, va))
  {}

  lemma OutKeepsFrames(m: Mem, va: nat)
    requires SwapOk(m) && FramesOk(m) && va in m.pt && m.pt[va].Present? && m.used < MAX_PSYC_PAGES
    ensures FramesOk(MovedOut(m, va))
  {}

  lemma OutKeepsQueue(m: Mem, a: seq<nat>)
    requires SwapOk(m) && FramesOk(m) && QueueOk(a, m) && a != [] && m.used < MAX_PSYC_PAGES
    ensures QueueOk(a[1..], MovedOut(m, a[0]))
  {}

  lemma OutKeepsPage(m: Mem, va: nat, x: nat)
    requires SwapOk(m) && FramesOk(m) && va in m.pt && m.pt[va].Present? && m.used < MAX_PSYC_PAGES && x in m.pt
    ensures x in MovedOut(m, va).pt && PageAt(MovedOut(m, va), x) == PageAt(m, x)
  {
    if x != va && m.pt[x].Paged? { assert x in m.slotOf; }
  }

  lemma ImageByPage(m: Mem, r: Mem)
    requires r.pt.Keys == m.pt.Keys && forall x :: x in m.pt ==> x in r.pt && PageAt(r, x) == PageAt(m, x)
    ensures Image(r) == Image(m)
  {
    hide PageAt;
  }

  /** The swapped-out page is read back from its slot, every other page from where it was. */
  lemma OutKeepsImage(m: Mem, va: nat)
    requires SwapOk(m) && FramesOk(m) && va in m.pt && m.pt[va].Present? && m.used < MAX_PSYC_PAGES
    ensures Image(MovedOut(m, va)) == Image(m)
  {
    var r := MovedOut(m, va);
    forall x | x in m.pt ensures PageAt(r, x) == PageAt(m, x) { OutKeepsPage(m, va, x); }
    hide *;
    ImageByPage(m, r);
  }

  /** Some used slot is labelled with the page and holds its content. */
  ghost predicate Stored(m: Mem, va: nat, c: Page) {
    exists i :: 0 <= i < |m.swap| && i < |m.file| && m.swap[i] == SwapSlot(va, true) && m.file[i] == c
  }

  /** moveToSwapFile as the code has it, with and without a slot free. */
  function Evicted(m: Mem, va: nat): (r: Mem)
    requires SwapOk(m) && FramesOk(m) && va in m.pt && m.pt[va].Present?
  {
    if m.used < MAX_PSYC_PAGES then MovedOut(m, va) else MovedNowhere(m, va)
  }

  /** How the page-fault trap ends. NoVictim: dequeueFIFO returned -1, which the code takes for an
      address. */
  datatype Trap = NotPagedOut | Served | NoVictim

  /** An evicted page survives exactly when a swap slot was free: with all of them in use the code
      frees the frame without having written it anywhere. */
  lemma EvictionKeepsPageIff(m: Mem, va: nat)
    requires SwapOk(m) && FramesOk(m) && va in m.pt && m.pt[va].Present?
    ensures Stored(Evicted(m, va), va, PageAt(m, va)) <==> m.used < MAX_PSYC_PAGES
  {
    var r := Evicted(m, va);
    if m.used < MAX_PSYC_PAGES {
      assert r.swap[m.used] == SwapSlot(va, true) && r.file[m.used] == PageAt(m, va);
    } else {
      assert va !in m.slotOf;
      forall i | 0 <= i < |r.swap| ensures r.swap[i] != SwapSlot(va, true) {
        assert m.swap[i].address in m.slotOf;
      }
    }
  }

  /** swapPageIn: the frame of the replaced page and the slot of the faulting one change contents,
      and the two page-table entries change places. */
  function SwappedIn(m: Mem, fault: nat, out: nat): (r: Mem)
    requires SwapOk(m) && FramesOk(m) && fault in m.slotOf && out in m.pt && m.pt[out].Present?
  {
    var i, f := m.slotOf[fault], m.pt[out].frame;
    Mem(m.pt[fault := Present(f)][out := Paged], m.frames[f := m.file[i]], m.free,
        m.swap[i := SwapSlot(out, true)], m.file[i := m.frames[f]], m.used, (m.slotOf - {fault})[out := i])
  }

  lemma InKeepsSwap(m: Mem, fault: nat, out: nat)
    requires SwapOk(m) && FramesOk(m) && fault in m.slotOf && out in m.pt && m.pt[out].Present?
    ensures SwapOk(SwappedIn(m, fault, out))
  {
    hide FramesOk;
    var r, i := SwappedIn(m, fault, out), m.slotOf[fault];
    assert out !in m.slotOf && out != fault;
    assert r.swap[i].inUse;
    forall x | x in r.slotOf
      ensures r.slotOf[x] < r.used && r.swap[r.slotOf[x]].address == x && x in r.pt && r.pt[x].Paged?
    {
      if x != out {
        assert x in m.slotOf && x != fault;
        assert m.swap[m.slotOf[x]].address == x;
      }
    }
    forall x | x in r.pt && r.pt[x].Paged? ensures x in r.slotOf {
      if x != out { assert m.pt[x].Paged? && x != fault; }
    }
    forall k | 0 <= k < r.used ensures r.swap[k].address in r.slotOf && r.slotOf[r.swap[k].address] == k {
      if k != i {
        assert m.swap[k].address in m.slotOf && m.slotOf[m.swap[k].address] == k;
        assert m.swap[k].address != fault;
      }
    }
  }

  lemma InKeepsFrames(m: Mem, fault: nat, out: nat)
    requires SwapOk(m) && FramesOk(m) && fault in m.slotOf && out in m.pt && m.pt[out].Present?
    ensures FramesOk(SwappedIn(m, fault, out))
  {}

  lemma InKeepsQueue(m: Mem, fault: nat, a: seq<nat>)
    requires SwapOk(m) && FramesOk(m) && QueueOk(a, m) && a != [] && fault in m.slotOf
    ensures QueueOk(a[1..] + [fault], SwappedIn(m, fault, a[0]))
  {
    assert m.pt[fault].Paged? && m.pt[a[0]].Present?;
    hide SwapOk, FramesOk;
    var r, b := SwappedIn(m, fault, a[0]), a[1..] + [fault];
    assert forall i :: 0 <= i < |a| - 1 ==> b[i] == a[i + 1] && b[i] != fault && b[i] != a[0];
    assert b[|a| - 1] == fault;
    forall va | va in r.pt && r.pt[va].Present? ensures va in b {
      if va != fault {
        assert va in a && va != a[0];
        var k :| 0 <= k < |a| && a[k] == va;
        assert b[k - 1] == va;
      }
    }
  }

  lemma InKeepsImage(m: Mem, fault: nat, out: nat)
    requires SwapOk(m) && FramesOk(m) && fault in m.slotOf && out in m.pt && m.pt[out].Present?
    ensures Image(SwappedIn(m, fault, out)) == Image(m)
  {
    var r := SwappedIn(m, fault, out);
    assert out !in m.slotOf;
    forall x | x in m.pt ensures PageAt(r, x) == PageAt(m, x) {
      if x != fault && x != out && m.pt[x].Paged? {
        assert x in m.slotOf && m.slotOf[x] != m.slotOf[fault];
      }
    }
    assert r.pt.Keys == m.pt.Keys;
  }

  /** allocuvm: a fresh zeroed frame mapped at a new page. */
  function Grown(m: Mem, va: nat): (r: Mem)
    requires m.free != []
  {
    Mem(m.pt[va := Present(m.free[0])], m.frames[m.free[0] := Filled(0)], m.free[1..], m.swap, m.file, m.used, m.slotOf)
  }

  lemma GrowKeepsSwap(m: Mem, va: nat)
    requires SwapOk(m) && va !in m.pt && m.free != []
    ensures SwapOk(Grown(m, va))
  {}

  lemma GrowKeepsFrames(m: Mem, va: nat)
    requires FramesOk(m) && va !in m.pt && m.free != []
    ensures FramesOk(Grown(m, va))
  {}

  lemma GrowKeepsQueue(m: Mem, va: nat, a: seq<nat>)
    requires QueueOk(a, m) && va !in m.pt && m.free != []
    ensures QueueOk(a + [va], Grown(m, va))
  {}

  lemma GrowKeepsImage(m: Mem, va: nat, a: seq<nat>)
    requires MemOk(a, m) && va !in m.pt && m.free != []
    ensures Image(Grown(m, va)) == Image(m)[va := Filled(0)]
  {}

  lemma GrowKeepsAligned(m: Mem, va: nat)
    requires Aligned(m) && OnPage(va) && m.free != []
    ensures Aligned(Grown(m, va))
    ensures Grown(m, va).pt.Keys == m.pt.Keys + {va} && Grown(m, va).free == m.free[1..]
  {
    hide OnPage;
  }

  /** One swap-out: the oldest page leaves the queue, the memory stays in order. */
  lemma OutKeepsMem(a: seq<nat>, m: Mem)
    requires MemOk(a, m) && a != [] && m.used < MAX_PSYC_PAGES
    ensures a[0] in m.pt && m.pt[a[0]].Present? && Evicted(m, a[0]) == MovedOut(m, a[0])
    ensures MemOk(a[1..], MovedOut(m, a[0])) && Image(MovedOut(m, a[0])) == Image(m)
  {
    OutKeepsSwap(m, a[0]);
    OutKeepsFrames(m, a[0]);
    OutKeepsQueue(m, a);
    OutKeepsImage(m, a[0]);
  }

  /** One swap-in: the oldest page gives its frame to the faulting one, which goes last. */
  lemma InKeepsMem(a: seq<nat>, m: Mem, fault: nat)
    requires MemOk(a, m) && a != [] && fault in m.pt && m.pt[fault].Paged?
    ensures fault in m.slotOf && a[0] in m.pt && m.pt[a[0]].Present?
    ensures fault in SwappedIn(m, fault, a[0]).pt && SwappedIn(m, fault, a[0]).pt[fault].Present?
    ensures MemOk(a[1..] + [fault], SwappedIn(m, fault, a[0])) && Image(SwappedIn(m, fault, a[0])) == Image(m)
  {
    InKeepsSwap(m, fault, a[0]);
    InKeepsFrames(m, fault, a[0]);
    InKeepsQueue(m, fault, a);
    InKeepsImage(m, fault, a[0]);
  }

  /** One page of growth: a zero page appears at the new address, nothing else changes. */
  lemma GrowKeepsMem(a: seq<nat>, m: Mem, va: nat)
    requires MemOk(a, m) && va !in m.pt && OnPage(va) && m.free != []
    ensures Grown(m, va).pt.Keys == m.pt.Keys + {va} && Grown(m, va).free == m.free[1..]
    ensures MemOk(a + [va], Grown(m, va)) && Image(Grown(m, va)) == Image(m)[va := Filled(0)]
  {
    hide SwapOk, FramesOk, QueueOk, Image, Aligned, Grown;
    GrowKeepsSwap(m, va);
    GrowKeepsFrames(m, va);
    GrowKeepsQueue(m, va, a);
    GrowKeepsImage(m, va, a);
    GrowKeepsAligned(m, va);
  }

  // ---------------------------------------------------------------- the process

  const KERNBASE: nat := 0x80000000

  function PageOf(va: nat): (p: nat)
    ensures OnPage(p) && p <= va < p + PGSIZE
  {
    va - va % PGSIZE
  }

  function PageRoundUp(sz: nat): (p: nat)
    ensures OnPage(p) && p < sz + PGSIZE && sz <= p
  {
    PageOf(sz + PGSIZE - 1)
  }

  /** The pages from a up to newsz. */
  function PagesTo(a: nat, newsz: nat): (n: nat)
    decreases newsz - a
  {
    if a >= newsz then 0 else 1 + PagesTo(a + PGSIZE, newsz)
  }

  /** How many of n new pages push an old one out, when counter pages are counted as in memory. */
  function SwapOuts(counter: nat, n: nat): (k: nat)
  {
    if counter + n <= MAX_PSYC_PAGES then 0 else counter + n - MAX_PSYC_PAGES
  }

  /** No page from a up to newsz is mapped yet. */
  ghost predicate Unmapped(pt: map<nat, Pte>, a: nat, newsz: nat) {
    forall va :: va in pt ==> !(a <= va < newsz)
  }

  lemma UnmappedStep(pt: map<nat, Pte>, r: map<nat, Pte>, a: nat, newsz: nat)
    requires Unmapped(pt, a, newsz) && r.Keys == pt.Keys + {a}
    ensures Unmapped(r, a + PGSIZE, newsz)
  {}

  /** A swap slot for each page pushed out, a frame for each page that pushes none out, and pages left
      to push out. */
  predicate Affords(counter: nat, inSwap: nat, frames: nat, faults: nat, n: nat) {
    var k := SwapOuts(counter, n);
    inSwap + k <= MAX_PSYC_PAGES && n - k <= frames && (k > 0 ==> faults < MAX_PSYC_PAGES)
  }

  lemma AffordsStep(counter: nat, inSwap: nat, frames: nat, faults: nat, n: nat)
    requires Affords(counter, inSwap, frames, faults, n) && n > 0 && counter <= MAX_PSYC_PAGES
    ensures counter == MAX_PSYC_PAGES ==>
      && inSwap < MAX_PSYC_PAGES && faults < MAX_PSYC_PAGES && Affords(counter, inSwap + 1, frames, faults, n - 1)
      && SwapOuts(counter, n) == 1 + SwapOuts(counter, n - 1)
    ensures counter < MAX_PSYC_PAGES ==>
      && frames > 0 && Affords(counter + 1, inSwap, frames - 1, faults, n - 1)
      && SwapOuts(counter, n) == SwapOuts(counter + 1, n - 1)
  {}

  /** The image with a zero page at every page from a up to newsz. */
  function Extended(image: map<nat, Page>, a: nat, newsz: nat): (r: map<nat, Page>)
    decreases newsz - a
  {
    if a >= newsz then image else Extended(image[a := Filled(0)], a + PGSIZE, newsz)
  }

  lemma PagesDone(m: Mem, a: nat, newsz: nat, counter: nat)
    requires a >= newsz && counter <= MAX_PSYC_PAGES
    ensures Extended(Image(m), a, newsz) == Image(m) && SwapOuts(counter, PagesTo(a, newsz)) == 0
  {}

  lemma PagesStep(m: Mem, a: nat, newsz: nat)
    requires a < newsz && OnPage(a) && Unmapped(m.pt, a, newsz)
    ensures a !in m.pt && a < a + PGSIZE
    ensures PagesTo(a, newsz) == 1 + PagesTo(a + PGSIZE, newsz) && OnPage(a + PGSIZE)
    ensures Extended(Image(m), a, newsz) == Extended(Image(m)[a := Filled(0)], a + PGSIZE, newsz)
  {}

  /** Growing adds exactly the pages of the range, all zero, and leaves every other page alone. */
  lemma {:induction false} ExtendedAt(image: map<nat, Page>, a: nat, newsz: nat, va: nat)
    requires OnPage(a) && OnPage(va)
    ensures va in Extended(image, a, newsz) <==> va in image || a <= va < newsz
    ensures a <= va < newsz ==> Extended(image, a, newsz)[va] == Filled(0)
    ensures va in image && !(a <= va < newsz) ==> Extended(image, a, newsz)[va] == image[va]
    decreases newsz - a
  {
    if a < newsz {
      ExtendedAt(image[a := Filled(0)], a + PGSIZE, newsz, va);
    }
  }

  /** The pages from a up to newsz, in order. */
  function NewPages(a: nat, newsz: nat): (ps: seq<nat>)
    ensures |ps| == PagesTo(a, newsz)
    decreases newsz - a
  {
    if a >= newsz then [] else [a] + NewPages(a + PGSIZE, newsz)
  }

  /** The queue once the pages from a up to newsz have gone in and as many of the oldest pages have gone
      out as counter makes necessary. */
  function QueueAfter(fifo: seq<nat>, counter: nat, a: nat, newsz: nat): (r: seq<nat>) {
    var all, k := fifo + NewPages(a, newsz), SwapOuts(counter, PagesTo(a, newsz));
    if k <= |all| then all[k..] else []
  }

  lemma QueueDone(fifo: seq<nat>, counter: nat, a: nat, newsz: nat)
    requires a >= newsz && counter <= MAX_PSYC_PAGES
    ensures QueueAfter(fifo, counter, a, newsz) == fifo
  {}

  lemma QueueStep(fifo: seq<nat>, counter: nat, a: nat, newsz: nat)
    requires a < newsz && counter <= MAX_PSYC_PAGES
    ensures counter < MAX_PSYC_PAGES ==>
      QueueAfter(fifo + [a], counter + 1, a + PGSIZE, newsz) == QueueAfter(fifo, counter, a, newsz)
    ensures counter == MAX_PSYC_PAGES && fifo != [] ==>
      QueueAfter(fifo[1..] + [a], counter, a + PGSIZE, newsz) == QueueAfter(fifo, counter, a, newsz)
  {
    var ps, rest := NewPages(a, newsz), NewPages(a + PGSIZE, newsz);
    assert fifo + [a] + rest == fifo + ps;
    if fifo != [] { assert fifo[1..] + [a] + rest == (fifo + ps)[1..]; }
  }

  class Process {
    const pagesInPhyMem: array<PhysSlot>
    const pagesInSwapFile: array<SwapSlot>
    var head: Option<nat>
    var nPagesInPhyMemory: nat
    var nPagesInSwapFile: nat
    var pgdir: map<nat, Pte>
    var frames: map<nat, Page>
    var freelist: seq<nat>
    var swapFile: seq<Page>
    ghost var q: seq<nat>
    ghost var slotOf: map<nat, nat>
    ghost var faults: nat             // page faults served so far

    ghost function State(): (m: Mem)
      reads this`pgdir, this`frames, this`freelist, this`swapFile, this`nPagesInSwapFile, this`slotOf, pagesInSwapFile
    {
      Mem(pgdir, frames, freelist, pagesInSwapFile[..], swapFile, nPagesInSwapFile, slotOf)
    }

    ghost predicate ValidQueue()
      reads this`head, this`q, pagesInPhyMem
    {
      Chain(pagesInPhyMem[..], head, q)
    }

    /** The addresses in the queue, oldest first. */
    ghost function Fifo(): (a: seq<nat>)
      requires ValidQueue()
      reads this`head, this`q, pagesInPhyMem
    {
      Queued(pagesInPhyMem[..], q)
    }

    /** Every page fault loses the queue one entry that nPagesInPhyMemory keeps counting. */
    ghost predicate Valid()
      reads this, pagesInPhyMem, pagesInSwapFile
    {
      && ValidQueue()
      && MemOk(Fifo(), State())
      && nPagesInPhyMemory == |q| + faults && nPagesInPhyMemory <= MAX_PSYC_PAGES
    }

    lemma ValidFrom()
      requires ValidQueue() && MemOk(Fifo(), State())
      requires nPagesInPhyMemory == |q| + faults && nPagesInPhyMemory <= MAX_PSYC_PAGES
      ensures Valid()
    {}

    lemma ValidGives()
      requires Valid()
      ensures ValidQueue() && MemOk(Fifo(), State()) && SwapOk(State()) && FramesOk(State()) && |Fifo()| == |q|
      ensures State().pt == pgdir && State().used == nPagesInSwapFile && State().slotOf == slotOf
        && State().free == freelist
      ensures nPagesInPhyMemory == |q| + faults && nPagesInPhyMemory <= MAX_PSYC_PAGES
    {}

    /** In every state: queued and swapped pages add up to the pages mapped, and the page faults served
        are exactly the entries the counter has over the queue, so at most MAX_PSYC_PAGES ever. */
    lemma Conservation()
      requires Valid()
      ensures |Fifo()| + nPagesInSwapFile == |pgdir| && faults == nPagesInPhyMemory - |Fifo()|
      ensures faults + |Fifo()| <= MAX_PSYC_PAGES
    {}

    /** allocproc. */
    constructor (kernelFrames: map<nat, Page>, free: seq<nat>)
      requires forall i :: 0 <= i < |free| ==> free[i] in kernelFrames
      requires forall i, j :: 0 <= i < j < |free| ==> free[i] != free[j]
      ensures Valid() && fresh(pagesInPhyMem) && fresh(pagesInSwapFile)
      ensures Fifo() == [] && Image(State()) == map[] && freelist == free && faults == 0 && nPagesInSwapFile == 0
    {
      pagesInPhyMem := new PhysSlot[MAX_PSYC_PAGES](_ => PhysSlot(0, None, false));
      pagesInSwapFile := new SwapSlot[MAX_PSYC_PAGES](_ => SwapSlot(0, false));
      head, nPagesInPhyMemory, nPagesInSwapFile := None, 0, 0;
      pgdir, frames, freelist := map[], kernelFrames, free;
      swapFile := seq(MAX_PSYC_PAGES, _ => Filled(0));
      q, slotOf, faults := [], map[], 0;
    }

    /** The walk along next to the last slot. */
    method Tail() returns (temp: nat)
      requires ValidQueue() && q != []
      ensures temp == q[|q| - 1]
    {
      ghost var was, at := pagesInPhyMem[..], 0;
      temp := head.value;
      assert was[q[at]].next == After(q, at);
      while pagesInPhyMem[temp].next.Some?
        invariant at < |q| && temp == q[at] && was[q[at]].next == After(q, at)
        decreases |q| - at
      {
        temp := pagesInPhyMem[temp].next.value;
        at := at + 1;
        assert was[q[at]].next == After(q, at);
      }
    }

    /** Links free slot i in at the end. */
    method AppendSlot(i: nat, addr: nat)
      requires ValidQueue() && i < MAX_PSYC_PAGES && !pagesInPhyMem[i].inUse
      modifies this`head, this`q, pagesInPhyMem
      ensures ValidQueue() && q == old(q) + [i] && Fifo() == old(Fifo()) + [addr]
    {
      ghost var was := pagesInPhyMem[..];
      assert i !in q by { assert was[i].inUse <==> i in q; }
      EnqueueKeepsChain(was, head, q, i, addr);
      EnqueueAddsLast(was, q, i, addr);
      if head.None? {
        head := Some(i);
        pagesInPhyMem[i] := pagesInPhyMem[i].(next := None);
      } else {
        var temp := Tail();
        pagesInPhyMem[temp] := pagesInPhyMem[temp].(next := Some(i));
        pagesInPhyMem[i] := pagesInPhyMem[i].(next := None);
      }
      pagesInPhyMem[i] := pagesInPhyMem[i].(address := addr);
      pagesInPhyMem[i] := pagesInPhyMem[i].(inUse := true);
      hide Linked, Marked;
      assert pagesInPhyMem[..] == Appended(was, q, i, addr);
      q := q + [i];
    }

    lemma QueueShape()
      requires ValidQueue()
      ensures pagesInPhyMem.Length == MAX_PSYC_PAGES
      ensures (exists s :: 0 <= s < MAX_PSYC_PAGES && !pagesInPhyMem[..][s].inUse) <==> |q| < MAX_PSYC_PAGES
    {
      SlotFreeIff(pagesInPhyMem[..], head, q);
    }

    /** enqueueFIFO: the address goes last, or nowhere when every slot is in use. */
    method EnqueueFIFO(addr: nat)
      requires ValidQueue()
      modifies this`head, this`q, this`nPagesInPhyMemory, pagesInPhyMem
      ensures ValidQueue()
      ensures Fifo() == if |old(q)| < MAX_PSYC_PAGES then old(Fifo()) + [addr] else old(Fifo())
      ensures |q| - |old(q)| == nPagesInPhyMemory - old(nPagesInPhyMemory) == if |old(q)| < MAX_PSYC_PAGES then 1 else 0
    {
      hide *;
      QueueShape();
      ghost var was, full := pagesInPhyMem[..], |q| >= MAX_PSYC_PAGES;
      var i := 0;
      while i < MAX_PSYC_PAGES
        invariant i <= MAX_PSYC_PAGES
        invariant forall k :: 0 <= k < i ==> was[k].inUse
      {
        if !pagesInPhyMem[i].inUse {
          assert !was[i].inUse && !full;
          AppendSlot(i, addr);
          nPagesInPhyMemory := nPagesInPhyMemory + 1;
          return;
        }
        i := i + 1;
      }
    }

    /** dequeueFIFO: the oldest address, or None for the code's -1. */
    method DequeueFIFO() returns (addr: Option<nat>)
      requires ValidQueue()
      modifies this`head, this`q, pagesInPhyMem
      ensures ValidQueue()
      ensures old(q) == [] ==> addr == None && Fifo() == old(Fifo()) && q == []
      ensures old(q) != [] ==> addr == Some(old(Fifo())[0]) && Fifo() == old(Fifo())[1..] && |q| == |old(q)| - 1
    {
      if head.Some? {
        ghost var was := pagesInPhyMem[..];
        DequeueKeepsChain(was, head, q);
        DequeueTakesFirst(was, head, q);
        var h := head.value;
        var a := pagesInPhyMem[h].address;
        pagesInPhyMem[h] := pagesInPhyMem[h].(address := 0);
        pagesInPhyMem[h] := pagesInPhyMem[h].(inUse := false);
        assert pagesInPhyMem[..] == Dequeued(was, q);
        head := pagesInPhyMem[h].next;
        q := q[1..];
        return Some(a);
      }
      return None;
    }

    /** moveToSwapFile, with and without a swap slot free. */
    method MoveToSwapFile(addr: nat)
      requires SwapOk(State()) && FramesOk(State()) && addr in pgdir && pgdir[addr].Present? && nPagesInPhyMemory > 0
      modifies this`nPagesInPhyMemory, this`nPagesInSwapFile, this`pgdir, this`frames, this`freelist, this`swapFile,
        this`slotOf
      modifies pagesInSwapFile
      ensures State() == Evicted(old(State()), addr)
      ensures nPagesInPhyMemory == old(nPagesInPhyMemory) - 1
    {
      ghost var m := State();
      var f := pgdir[addr].frame;
      var i := 0;
      while i < MAX_PSYC_PAGES
        invariant i <= MAX_PSYC_PAGES && State() == m && i <= m.used
      {
        assert m.swap[i].inUse <==> i < m.used;
        if !pagesInSwapFile[i].inUse {
          pagesInSwapFile[i] := SwapSlot(addr, true);
          swapFile := swapFile[i := frames[f]];
          slotOf := slotOf[addr := i];
          break;
        }
        i := i + 1;
      }
      assert i == m.used;
      frames, freelist := frames[f := Filled(1)], [f] + freelist;
      pgdir := pgdir[addr := Paged];
      nPagesInPhyMemory := nPagesInPhyMemory - 1;
      nPagesInSwapFile := nPagesInSwapFile + 1;
    }

    /** swapPageOut: the oldest page goes to the swap file and the process sees what it saw before. */
    method SwapPageOut() returns (ok: bool)
      requires Valid() && (q != [] ==> nPagesInSwapFile < MAX_PSYC_PAGES)
      modifies this, pagesInPhyMem, pagesInSwapFile
      ensures Valid() && faults == old(faults)
      ensures Image(State()) == old(Image(State()))
      ensures ok <==> old(q) != []
      ensures ok ==> Fifo() == old(Fifo())[1..] && State() == MovedOut(old(State()), old(Fifo())[0])
      ensures nPagesInPhyMemory == old(nPagesInPhyMemory) - if ok then 1 else 0
      ensures !ok ==> Fifo() == old(Fifo()) && State() == old(State())
    {
      hide *;
      ValidGives();
      ghost var a, m := Fifo(), State();
      if q != [] { OutKeepsMem(a, m); }
      var addr := DequeueFIFO();
      ok := addr.Some?;
      if ok { MoveToSwapFile(addr.value); }
      ValidFrom();
    }

    /** swapPageIn: the page at fault comes back into the frame of the oldest page, which takes its
        swap slot, and the process sees what it saw before. */
    method SwapPageIn(fault: nat) returns (ok: bool)
      requires Valid() && nPagesInPhyMemory < MAX_PSYC_PAGES
      requires fault in pgdir && pgdir[fault].Paged?
      modifies this, pagesInPhyMem, pagesInSwapFile
      ensures Valid() && Image(State()) == old(Image(State()))
      ensures ok <==> old(q) != []
      ensures ok ==> faults == old(faults) + 1 && pgdir[fault].Present?
      ensures ok ==>
        Fifo() == old(Fifo())[1..] + [fault] && State() == SwappedIn(old(State()), fault, old(Fifo())[0])
      ensures nPagesInPhyMemory == old(nPagesInPhyMemory) + if ok then 1 else 0
      ensures !ok ==> Fifo() == old(Fifo()) && State() == old(State()) && faults == old(faults)
    {
      hide *;
      ValidGives();
      ghost var a, m := Fifo(), State();
      if q != [] { InKeepsMem(a, m, fault); }
      ok := Replace(fault, a, m);
      if !ok {
        ValidFrom();
        return;
      }
      EnqueueFIFO(fault);
      faults := faults + 1;
      ValidFrom();
      ValidGives();
    }

    /** swapPageIn up to its enqueueFIFO. */
    method Replace(fault: nat, ghost a: seq<nat>, ghost m: Mem) returns (ok: bool)
      requires ValidQueue() && a == Fifo() && m == State() && MemOk(a, m) && fault in m.pt && m.pt[fault].Paged?
      modifies this`head, this`q, pagesInPhyMem
      modifies this`pgdir, this`frames, this`swapFile, this`slotOf, pagesInSwapFile
      ensures ValidQueue()
      ensures ok <==> old(q) != []
      ensures !ok ==> q == old(q) && Fifo() == a && State() == m
      ensures ok ==> Fifo() == a[1..] && |q| == |old(q)| - 1
      ensures ok ==> fault in m.slotOf && a[0] in m.pt && m.pt[a[0]].Present? && SwapOk(m) && FramesOk(m)
      ensures ok ==> State() == SwappedIn(m, fault, a[0])
    {
      var i := FindSlot(fault);
      var out := DequeueFIFO();
      ok := out.Some?;
      if !ok { return; }
      assert out.value in pgdir && pgdir[out.value].Present?;
      hide *;
      Exchange(fault, out.value, i);
    }

    /** The search of swapPageIn: the first slot with the address, used or not; the unused slots have
        address 0 too, but come after the used one. */
    method FindSlot(fault: nat) returns (i: nat)
      requires SwapOk(State()) && fault in slotOf
      ensures i == slotOf[fault] && i < nPagesInSwapFile && i < MAX_PSYC_PAGES
    {
      ghost var m := State();
      i := 0;
      while pagesInSwapFile[i].address != fault
        invariant i <= m.slotOf[fault]
        decreases m.slotOf[fault] - i
      {
        assert m.swap[m.slotOf[fault]].address == fault;
        i := i + 1;
      }
      assert m.swap[i].address == fault && i < m.used;
    }

    /** Frame and slot change contents, the two page-table entries change places. */
    method Exchange(fault: nat, out: nat, i: nat)
      requires SwapOk(State()) && FramesOk(State()) && fault in slotOf && i == slotOf[fault]
      requires out in pgdir && pgdir[out].Present?
      modifies this`pgdir, this`frames, this`swapFile, this`slotOf, pagesInSwapFile
      ensures State() == SwappedIn(old(State()), fault, out)
    {
      ghost var m := State();
      var f := pgdir[out].frame;
      assert m.swap[i].inUse && i < |m.swap|;
      pagesInSwapFile[i] := pagesInSwapFile[i].(address := out);
      pgdir := pgdir[fault := Present(f)];
      var buffer := swapFile[i];
      swapFile := swapFile[i := frames[f]];
      frames := frames[f := buffer];
      pgdir := pgdir[out := Paged];
      slotOf := (slotOf - {fault})[out := i];
    }

    /** The page-fault trap at address va. A fault on a paged-out page is served by a swap-out and a
        swap-in: it needs an unused swap slot and costs one. One of the two finds the queue empty
        exactly when fewer than two pages are queued; up to there nothing is lost. */
    method PageFault(va: nat) returns (r: Trap)
      requires Valid()
      requires PageOf(va) in pgdir && pgdir[PageOf(va)].Paged? && q != [] ==> nPagesInSwapFile < MAX_PSYC_PAGES
      modifies this, pagesInPhyMem, pagesInSwapFile
      ensures Valid()
      ensures r.NotPagedOut? <==> !(PageOf(va) in old(pgdir) && old(pgdir)[PageOf(va)].Paged?)
      ensures r.NoVictim? <==> PageOf(va) in old(pgdir) && old(pgdir)[PageOf(va)].Paged? && |old(q)| < 2
      ensures Image(State()) == old(Image(State()))
      ensures r.Served? ==> pgdir[PageOf(va)].Present? && Fifo() == old(Fifo())[2..] + [PageOf(va)]
      ensures r.Served? ==> nPagesInSwapFile == old(nPagesInSwapFile) + 1 && faults == old(faults) + 1
      ensures !r.NoVictim? ==> nPagesInPhyMemory == old(nPagesInPhyMemory)
      ensures r.NotPagedOut? ==> State() == old(State()) && Fifo() == old(Fifo())
      ensures r.NoVictim? ==> Fifo() == [] && faults == old(faults)
    {
      var page := PageOf(va);
      if page in pgdir && pgdir[page].Paged? {
        var out := SwapPageOut();
        if !out { return NoVictim; }
        var done := SwapPageIn(page);
        return if done then Served else NoVictim;
      }
      return NotPagedOut;
    }

    /** One round of allocuvm's loop: swap out if the counter says memory is full, then map a zeroed
        frame and queue the page. */
    method GrowPage(a: nat)
      requires Valid() && a !in pgdir && OnPage(a)
      requires if nPagesInPhyMemory >= MAX_PSYC_PAGES then q != [] && nPagesInSwapFile < MAX_PSYC_PAGES
        else freelist != []
      modifies this, pagesInPhyMem, pagesInSwapFile
      ensures Valid() && faults == old(faults)
      ensures Image(State()) == old(Image(State()))[a := Filled(0)]
      ensures pgdir.Keys == old(pgdir.Keys) + {a}
      ensures old(nPagesInPhyMemory) >= MAX_PSYC_PAGES ==>
        && Fifo() == old(Fifo())[1..] + [a] && nPagesInPhyMemory == old(nPagesInPhyMemory)
        && nPagesInSwapFile == old(nPagesInSwapFile) + 1 && |freelist| == |old(freelist)|
      ensures old(nPagesInPhyMemory) < MAX_PSYC_PAGES ==>
        && Fifo() == old(Fifo()) + [a] && nPagesInPhyMemory == old(nPagesInPhyMemory) + 1
        && nPagesInSwapFile == old(nPagesInSwapFile) && |freelist| == |old(freelist)| - 1
    {
      if nPagesInPhyMemory >= MAX_PSYC_PAGES {
        var ok := SwapPageOut();
      }
      MapPage(a);
    }

    /** kalloc, memset, mappages and enqueueFIFO. */
    method MapPage(a: nat)
      requires Valid() && a !in pgdir && OnPage(a) && freelist != [] && nPagesInPhyMemory < MAX_PSYC_PAGES
      modifies this`head, this`q, this`nPagesInPhyMemory, pagesInPhyMem, this`pgdir, this`frames, this`freelist
      ensures Valid() && nPagesInPhyMemory == old(nPagesInPhyMemory) + 1
      ensures Fifo() == old(Fifo()) + [a] && Image(State()) == old(Image(State()))[a := Filled(0)]
      ensures pgdir.Keys == old(pgdir.Keys) + {a} && freelist == old(freelist)[1..]
    {
      hide *;
      ValidGives();
      ghost var f, m := Fifo(), State();
      GrowKeepsMem(f, m, a);
      MapFrame(a);
      EnqueueFIFO(a);
      ValidFrom();
      ValidGives();
    }

    method MapFrame(a: nat)
      requires freelist != []
      modifies this`pgdir, this`frames, this`freelist
      ensures State() == Grown(old(State()), a)
    {
      var mem := freelist[0];
      freelist := freelist[1..];
      frames := frames[mem := Filled(0)];
      pgdir := pgdir[a := Present(mem)];
    }

    /** allocuvm from oldsz to newsz, with a frame for each page that pushes none out and a swap slot
        for each that does. */
    method Allocuvm(oldsz: nat, newsz: nat) returns (sz: nat)
      requires Valid()
      requires Unmapped(pgdir, PageRoundUp(oldsz), newsz)
      requires Affords(nPagesInPhyMemory, nPagesInSwapFile, |freelist|, faults, PagesTo(PageRoundUp(oldsz), newsz))
      modifies this, pagesInPhyMem, pagesInSwapFile
      ensures Valid() && faults == old(faults)
      ensures sz == if newsz >= KERNBASE then 0 else if newsz < oldsz then oldsz else newsz
      ensures Image(State()) == if oldsz <= newsz < KERNBASE
        then Extended(old(Image(State())), PageRoundUp(oldsz), newsz)
                                else old(Image(State()))
      ensures Fifo() == if oldsz <= newsz < KERNBASE
        then QueueAfter(old(Fifo()), old(nPagesInPhyMemory), PageRoundUp(oldsz), newsz) else old(Fifo())
      ensures oldsz <= newsz < KERNBASE ==>
        nPagesInSwapFile == old(nPagesInSwapFile) + SwapOuts(old(nPagesInPhyMemory), PagesTo(PageRoundUp(oldsz), newsz))
    {
      if newsz >= KERNBASE { return 0; }
      if newsz < oldsz { return oldsz; }
      GrowTo(PageRoundUp(oldsz), newsz);
      return newsz;
    }

    method GrowRound(a: nat, newsz: nat)
      requires Valid() && Unmapped(pgdir, a, newsz) && OnPage(a) && a < newsz
      requires Affords(nPagesInPhyMemory, nPagesInSwapFile, |freelist|, faults, PagesTo(a, newsz))
      modifies this, pagesInPhyMem, pagesInSwapFile
      ensures Valid() && faults == old(faults) && Unmapped(pgdir, a + PGSIZE, newsz)
      ensures nPagesInPhyMemory <= MAX_PSYC_PAGES && OnPage(a + PGSIZE) && a < a + PGSIZE
      ensures Extended(Image(State()), a + PGSIZE, newsz) == Extended(old(Image(State())), a, newsz)
      ensures QueueAfter(Fifo(), nPagesInPhyMemory, a + PGSIZE, newsz)
           == QueueAfter(old(Fifo()), old(nPagesInPhyMemory), a, newsz)
      ensures Affords(nPagesInPhyMemory, nPagesInSwapFile, |freelist|, faults, PagesTo(a + PGSIZE, newsz))
      ensures nPagesInSwapFile + SwapOuts(nPagesInPhyMemory, PagesTo(a + PGSIZE, newsz))
           == old(nPagesInSwapFile) + SwapOuts(old(nPagesInPhyMemory), PagesTo(a, newsz))
    {
      hide *;
      ValidGives();
      PagesStep(State(), a, newsz);
      QueueStep(Fifo(), nPagesInPhyMemory, a, newsz);
      AffordsStep(nPagesInPhyMemory, nPagesInSwapFile, |freelist|, faults, PagesTo(a, newsz));
      ghost var pt := pgdir;
      GrowPage(a);
      UnmappedStep(pt, pgdir, a, newsz);
    }

    /** allocuvm's loop. */
    method GrowTo(start: nat, newsz: nat)
      requires Valid() && OnPage(start) && Unmapped(pgdir, start, newsz)
      requires Affords(nPagesInPhyMemory, nPagesInSwapFile, |freelist|, faults, PagesTo(start, newsz))
      modifies this, pagesInPhyMem, pagesInSwapFile
      ensures Valid() && faults == old(faults)
      ensures Image(State()) == Extended(old(Image(State())), start, newsz)
      ensures Fifo() == QueueAfter(old(Fifo()), old(nPagesInPhyMemory), start, newsz)
      ensures nPagesInSwapFile == old(nPagesInSwapFile) + SwapOuts(old(nPagesInPhyMemory), PagesTo(start, newsz))
    {
      hide *;
      ValidGives();
      ghost var full := Extended(Image(State()), start, newsz);
      ghost var queue := QueueAfter(Fifo(), nPagesInPhyMemory, start, newsz);
      ghost var slots := nPagesInSwapFile + SwapOuts(nPagesInPhyMemory, PagesTo(start, newsz));
      var a := start;
      while a < newsz
        invariant ValidQueue() && Valid() && OnPage(a) && faults == old(faults) && nPagesInPhyMemory <= MAX_PSYC_PAGES
        invariant Unmapped(pgdir, a, newsz)
        invariant Extended(Image(State()), a, newsz) == full
        invariant QueueAfter(Fifo(), nPagesInPhyMemory, a, newsz) == queue
        invariant Affords(nPagesInPhyMemory, nPagesInSwapFile, |freelist|, faults, PagesTo(a, newsz))
        invariant nPagesInSwapFile + SwapOuts(nPagesInPhyMemory, PagesTo(a, newsz)) == slots
        decreases newsz - a
      {
        GrowRound(a, newsz);
        ValidGives();
        a := a + PGSIZE;
      }
      PagesDone(State(), a, newsz, nPagesInPhyMemory);
      QueueDone(Fifo(), nPagesInPhyMemory, a, newsz);
    }
  }
}
