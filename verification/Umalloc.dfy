/** The user-level allocator of umalloc.c, after Kernighan and Ritchie: a circular free list in
    address order. Memory is addressed in units of sizeof(Header) == 8 bytes; unit 0 is the null
    pointer, the static header base lies below the heap. */
module Umalloc {
  import opened Words
  import opened Wrappers

  const HEADER: nat := 8            // sizeof(Header)
  const MINUNITS: nat := 4096       // morecore's smallest request

  /** union header. A unit of user data has whatever its two words happen to hold. */
  datatype Header = Header(ptr: nat, size: nat)

  /** (nbytes + sizeof(Header) - 1) / sizeof(Header) + 1 in unsigned arithmetic. */
  function Units(nbytes: U32): (n: nat)
    ensures 1 <= n <= TWO32 / HEADER
  {
    (nbytes + HEADER - 1) % TWO32 / HEADER + 1
  }

  /** The block has room for the request besides its header unless the sum wraps, and no smaller one
      would. */
  lemma UnitsSufficeIff(nbytes: U32)
    ensures HEADER * (Units(nbytes) - 1) >= nbytes <==> nbytes + HEADER - 1 < TWO32
    ensures HEADER * (Units(nbytes) - 2) < nbytes
  {}

  /** An unsigned word as the int that sbrk takes. */
  function Int32(w: nat): (i: int) { var x := w % TWO32; if x < TWO32 / 2 then x else x - TWO32 }

  /** sbrk(nu * sizeof(Header)) asks for nu units exactly when the product stays below 2^31. */
  lemma SbrkAsksForUnitsIff(nu: nat)
    requires nu <= TWO32 / HEADER
    ensures Int32(nu * HEADER) == nu * HEADER <==> nu < TWO32 / (2 * HEADER)
  {}

  // ----------------------------------------------------------------- the free list

  function Next(ring: seq<nat>, i: nat): (r: nat)
    requires i < |ring|
  {
    if i + 1 < |ring| then ring[i + 1] else ring[0]
  }

  /** Entry i of the list is a header below every later one, points to the next and ends before it
      with a gap, so that no two neighbours could be joined. */
  ghost predicate Node(mem: seq<Header>, base: nat, ring: seq<nat>, i: nat)
    requires i < |ring|
  {
    && base <= ring[i] < |mem|
    && mem[ring[i]].ptr == Next(ring, i)
    && (i > 0 ==> base < ring[i] && mem[ring[i]].size >= 1)
    && (i + 1 < |ring| ==> ring[i] + mem[ring[i]].size < ring[i + 1])
  }

  /** ring lists the free list from base upwards: linked in a circle, in address order. */
  ghost predicate FreeList(mem: seq<Header>, base: nat, ring: seq<nat>) {
    && |ring| > 0 && ring[0] == base && 0 < base < |mem| && mem[base].size == 0
    && forall i :: 0 <= i < |ring| ==> Node(mem, base, ring, i)
  }

  /** Fully coalesced: every free block ends strictly before any later one begins. */
  lemma {:induction false} GapsAdd(mem: seq<Header>, base: nat, ring: seq<nat>, i: nat, j: nat)
    requires FreeList(mem, base, ring) && i < j < |ring|
    ensures ring[i] < |mem| && ring[i] + mem[ring[i]].size < ring[j]
    decreases j - i
  {
    assert Node(mem, base, ring, i);
    if i + 1 < j {
      GapsAdd(mem, base, ring, i + 1, j);
      assert Node(mem, base, ring, i + 1);
    }
  }

  lemma Ascending(mem: seq<Header>, base: nat, ring: seq<nat>)
    requires FreeList(mem, base, ring)
    ensures forall i, j :: 0 <= i < j < |ring| ==> ring[i] < ring[j]
  {
    forall i, j | 0 <= i < j < |ring| ensures ring[i] < ring[j] { GapsAdd(mem, base, ring, i, j); }
  }

  predicate Covers(mem: seq<Header>, h: nat, u: nat) { h < |mem| && h <= u < h + mem[h].size }

  /** Every unit of where belongs to exactly one of the blocks, the one it is mapped to. */
  ghost predicate Tiled(mem: seq<Header>, base: nat, brk: nat, blocks: set<nat>, where: map<nat, nat>) {
    && base < brk <= |mem|
    && (forall h :: h in blocks ==> base < h < |mem| && mem[h].size >= 1 && h + mem[h].size <= brk)
    && (forall h: nat, u: nat :: h in blocks && Covers(mem, h, u) ==> u in where && where[u] == h)
    && (forall u :: u in where ==> where[u] in blocks && Covers(mem, where[u], u))
  }

  /** The free blocks and the live ones. */
  function BlocksOf(base: nat, ring: seq<nat>, live: set<nat>): (s: set<nat>) {
    live + (set h | h in ring && h != base)
  }

  /** Every unit obtained from sbrk belongs to exactly one block, free or live, and where maps it to
      the header of that block. */
  ghost predicate Partition(mem: seq<Header>, base: nat, brk: nat, ring: seq<nat>, live: set<nat>,
                            where: map<nat, nat>) {
    && (forall h :: h in live ==> h !in ring)
    && Tiled(mem, base, brk, BlocksOf(base, ring, live), where)
  }

  /** Blocks do not overlap. */
  lemma BlocksDisjoint(mem: seq<Header>, base: nat, brk: nat, blocks: set<nat>, where: map<nat, nat>, h: nat, g: nat)
    requires Tiled(mem, base, brk, blocks, where) && h in blocks && g in blocks && h < g
    ensures g < |mem| && h + mem[h].size <= g
  {
    assert Covers(mem, g, g);
    assert !Covers(mem, h, g);
  }

  // ---------------------------------------------------------------------- free

  /** The place in the list for a block at bp: after the last free block below it. */
  function Slot(ring: seq<nat>, bp: nat): (t: nat)
    requires |ring| > 0
    ensures t < |ring|
    decreases |ring|
  {
    if |ring| == 1 || ring[|ring| - 1] < bp then |ring| - 1 else Slot(ring[..|ring| - 1], bp)
  }

  lemma {:induction false} SlotIsPlace(ring: seq<nat>, bp: nat)
    requires |ring| > 0 && ring[0] < bp && bp !in ring
    requires forall i, j :: 0 <= i < j < |ring| ==> ring[i] < ring[j]
    ensures ring[Slot(ring, bp)] < bp
    ensures forall i :: Slot(ring, bp) < i < |ring| ==> bp < ring[i]
    decreases |ring|
  {
    if |ring| > 1 && ring[|ring| - 1] > bp {
      SlotIsPlace(ring[..|ring| - 1], bp);
    }
  }

  /** The two halves of free after the search, as the assignments it makes. */
  function JoinUpper(mem: seq<Header>, p: nat, bp: nat): (r: seq<Header>)
    requires p < |mem| && bp < |mem| && mem[p].ptr < |mem|
  {
    var q := mem[p].ptr;
    if bp + mem[bp].size == q then mem[bp := Header(mem[q].ptr, mem[bp].size + mem[q].size)]
    else mem[bp := Header(q, mem[bp].size)]
  }

  function JoinLower(mem: seq<Header>, p: nat, bp: nat): (r: seq<Header>)
    requires p < |mem| && bp < |mem|
  {
    if p + mem[p].size == bp then mem[p := Header(mem[bp].ptr, mem[p].size + mem[bp].size)]
    else mem[p := Header(bp, mem[p].size)]
  }

  /** The free list afterwards; up and low tell whether the neighbours were joined. */
  function FreedRing(ring: seq<nat>, t: nat, bp: nat, up: bool, low: bool): (r: seq<nat>)
    requires t < |ring| && (up ==> t + 1 < |ring|)
  {
    ring[..t + 1] + (if low then [] else [bp]) + ring[if up then t + 2 else t + 1..]
  }

  /** What the search has established about the freed block and its place. */
  ghost predicate Placed(mem: seq<Header>, base: nat, ring: seq<nat>, t: nat, bp: nat) {
    && t < |ring| && base < bp < |mem| && mem[bp].size >= 1 && bp !in ring
    && ring[t] < bp && ring[t] + mem[ring[t]].size <= bp
    && (forall i :: t < i < |ring| ==> bp + mem[bp].size <= ring[i])
  }

  lemma FreedIsPlaced(mem: seq<Header>, base: nat, brk: nat, ring: seq<nat>, live: set<nat>,
                      where: map<nat, nat>, bp: nat)
    requires FreeList(mem, base, ring) && Partition(mem, base, brk, ring, live, where) && bp in live
    ensures Placed(mem, base, ring, Slot(ring, bp), bp)
  {
    var blocks := BlocksOf(base, ring, live);
    var t := Slot(ring, bp);
    Ascending(mem, base, ring);
    assert bp in blocks;
    SlotIsPlace(ring, bp);
    if t > 0 {
      assert ring[t] in ring && ring[t] in blocks;
      BlocksDisjoint(mem, base, brk, blocks, where, ring[t], bp);
    }
    forall i | t < i < |ring| ensures bp + mem[bp].size <= ring[i] {
      assert ring[i] in ring && ring[i] in blocks;
      BlocksDisjoint(mem, base, brk, blocks, where, bp, ring[i]);
    }
  }

  /** Neither neighbour touches the block. */
  lemma FreeAlone(mem: seq<Header>, base: nat, ring: seq<nat>, t: nat, bp: nat)
    requires FreeList(mem, base, ring) && Placed(mem, base, ring, t, bp)
    requires bp + mem[bp].size != Next(ring, t) && ring[t] + mem[ring[t]].size != bp
    ensures FreeList(mem[bp := Header(Next(ring, t), mem[bp].size)][ring[t] := Header(bp, mem[ring[t]].size)],
                     base, ring[..t + 1] + [bp] + ring[t + 1..])
  {
    Ascending(mem, base, ring);
    var m := mem[bp := Header(Next(ring, t), mem[bp].size)][ring[t] := Header(bp, mem[ring[t]].size)];
    var r := ring[..t + 1] + [bp] + ring[t + 1..];
    forall i | 0 <= i < |r| ensures Node(m, base, r, i) {
      if i <= t { assert Node(mem, base, ring, i); } else if i > t + 1 { assert Node(mem, base, ring, i - 1); }
    }
  }

  /** Only the upper neighbour touches it. */
  lemma FreeUpper(mem: seq<Header>, base: nat, ring: seq<nat>, t: nat, bp: nat)
    requires FreeList(mem, base, ring) && Placed(mem, base, ring, t, bp)
    requires t + 1 < |ring| && ring[t + 1] < |mem|
    requires bp + mem[bp].size == ring[t + 1] && ring[t] + mem[ring[t]].size != bp
    ensures FreeList(mem[bp := Header(Next(ring, t + 1), mem[bp].size + mem[ring[t + 1]].size)]
                        [ring[t] := Header(bp, mem[ring[t]].size)],
                     base, ring[..t + 1] + [bp] + ring[t + 2..])
  {
    Ascending(mem, base, ring);
    var m := mem[bp := Header(Next(ring, t + 1), mem[bp].size + mem[ring[t + 1]].size)]
                [ring[t] := Header(bp, mem[ring[t]].size)];
    var r := ring[..t + 1] + [bp] + ring[t + 2..];
    forall i | 0 <= i < |r| ensures Node(m, base, r, i) {
      assert Node(mem, base, ring, i);
    }
  }

  /** Only the lower neighbour touches it. */
  lemma FreeLower(mem: seq<Header>, base: nat, ring: seq<nat>, t: nat, bp: nat)
    requires FreeList(mem, base, ring) && Placed(mem, base, ring, t, bp)
    requires bp + mem[bp].size != Next(ring, t) && ring[t] + mem[ring[t]].size == bp
    ensures FreeList(mem[bp := Header(Next(ring, t), mem[bp].size)]
                        [ring[t] := Header(Next(ring, t), mem[ring[t]].size + mem[bp].size)],
                     base, ring)
  {
    Ascending(mem, base, ring);
    var m := mem[bp := Header(Next(ring, t), mem[bp].size)]
                [ring[t] := Header(Next(ring, t), mem[ring[t]].size + mem[bp].size)];
    forall i | 0 <= i < |ring| ensures Node(m, base, ring, i) {
      assert Node(mem, base, ring, i);
    }
  }

  /** Both touch it: the upper neighbour leaves the list. */
  lemma FreeBoth(mem: seq<Header>, base: nat, ring: seq<nat>, t: nat, bp: nat)
    requires FreeList(mem, base, ring) && Placed(mem, base, ring, t, bp)
    requires t + 1 < |ring| && ring[t + 1] < |mem|
    requires bp + mem[bp].size == ring[t + 1] && ring[t] + mem[ring[t]].size == bp
    ensures FreeList(mem[bp := Header(Next(ring, t + 1), mem[bp].size + mem[ring[t + 1]].size)]
                        [ring[t] := Header(Next(ring, t + 1),
                                           mem[ring[t]].size + mem[bp].size + mem[ring[t + 1]].size)],
                     base, ring[..t + 1] + ring[t + 2..])
  {
    Ascending(mem, base, ring);
    var m := mem[bp := Header(Next(ring, t + 1), mem[bp].size + mem[ring[t + 1]].size)]
                [ring[t] := Header(Next(ring, t + 1), mem[ring[t]].size + mem[bp].size + mem[ring[t + 1]].size)];
    var r := ring[..t + 1] + ring[t + 2..];
    assert Node(mem, base, ring, t + 1);
    forall i | 0 <= i < |r| ensures Node(m, base, r, i) {
      if i <= t { assert Node(mem, base, ring, i); } else { assert Node(mem, base, ring, i + 1); }
    }
  }

  /** free's assignments put the block into the list, joined with whichever neighbours touch it. */
  lemma FreeKeepsList(mem: seq<Header>, base: nat, ring: seq<nat>, t: nat, bp: nat)
    requires FreeList(mem, base, ring) && Placed(mem, base, ring, t, bp)
    ensures var p, q := ring[t], Next(ring, t);
      && p < |mem| && q < |mem| && mem[p].ptr == q
      && var up, low := bp + mem[bp].size == q, p + mem[p].size == bp;
      && (up ==> t + 1 < |ring|)
      && FreeList(JoinLower(JoinUpper(mem, p, bp), p, bp), base, FreedRing(ring, t, bp, up, low))
  {
    var p, q := ring[t], Next(ring, t);
    var up, low := bp + mem[bp].size == q, p + mem[p].size == bp;
    assert Node(mem, base, ring, t);
    if t + 1 < |ring| { assert Node(mem, base, ring, t + 1); }
    if up && low {
      FreeBoth(mem, base, ring, t, bp);
      assert FreedRing(ring, t, bp, up, low) == ring[..t + 1] + ring[t + 2..];
    } else if up {
      FreeUpper(mem, base, ring, t, bp);
    } else if low {
      FreeLower(mem, base, ring, t, bp);
      assert FreedRing(ring, t, bp, up, low) == ring;
    } else {
      FreeAlone(mem, base, ring, t, bp);
    }
  }

  lemma FreedMembers(ring: seq<nat>, t: nat, bp: nat, up: bool, low: bool, h: nat)
    requires t < |ring| && (up ==> t + 1 < |ring|)
    requires forall i, j :: 0 <= i < j < |ring| ==> ring[i] < ring[j]
    ensures h in FreedRing(ring, t, bp, up, low) <==> (h in ring && !(up && h == ring[t + 1])) || (!low && h == bp)
  {}

  /** Joining block b into a, which it touches, leaves the units covered as before. */
  lemma JoinTiled(mem: seq<Header>, base: nat, brk: nat, blocks: set<nat>,
                  where: map<nat, nat>, a: nat, b: nat, m: seq<Header>)
    requires Tiled(mem, base, brk, blocks, where) && a in blocks && b in blocks && a != b
    requires a + mem[a].size == b && |m| == |mem|
    requires m[a].size == mem[a].size + mem[b].size
    requires forall h :: h in blocks && h != a && h != b ==> m[h].size == mem[h].size
    ensures var w := map u | u in where :: if where[u] == b then a else where[u];
      w.Keys == where.Keys && Tiled(m, base, brk, blocks - {b}, w)
  {
    var w := map u | u in where :: if where[u] == b then a else where[u];
    forall h: nat, u: nat | h in blocks - {b} && Covers(m, h, u) ensures u in w && w[u] == h {
      assert Covers(mem, h, u) || (h == a && Covers(mem, b, u));
    }
    forall u | u in w ensures w[u] in blocks - {b} && Covers(m, w[u], u) {
      assert Covers(mem, where[u], u);
    }
  }

  /** Only sizes of blocks matter. */
  lemma SameTiled(mem: seq<Header>, base: nat, brk: nat, blocks: set<nat>, where: map<nat, nat>, m: seq<Header>)
    requires Tiled(mem, base, brk, blocks, where) && |m| == |mem|
    requires forall h :: h in blocks ==> m[h].size == mem[h].size
    ensures Tiled(m, base, brk, blocks, where)
  {}

  function JoinWhere(where: map<nat, nat>, a: nat, b: nat): (w: map<nat, nat>) {
    map u | u in where :: if where[u] == b then a else where[u]
  }

  lemma FreedBlocks(base: nat, ring: seq<nat>, live: set<nat>, bp: nat, t: nat, up: bool, low: bool)
    requires t < |ring| && (up ==> t + 1 < |ring|) && ring[0] == base && bp in live
    requires forall i, j :: 0 <= i < j < |ring| ==> ring[i] < ring[j]
    requires forall h :: h in live ==> h !in ring
    requires base < bp
    ensures BlocksOf(base, FreedRing(ring, t, bp, up, low), live - {bp})
         == BlocksOf(base, ring, live) - (if up then {ring[t + 1]} else {}) - (if low then {bp} else {})
    ensures forall h :: h in live - {bp} ==> h !in FreedRing(ring, t, bp, up, low)
  {}

  lemma UpperTiled(mem: seq<Header>, base: nat, brk: nat, blocks: set<nat>, where: map<nat, nat>, p: nat, bp: nat)
    requires Tiled(mem, base, brk, blocks, where) && bp in blocks && p < bp < |mem| && mem[p].ptr < |mem|
    requires var q := mem[p].ptr; q != bp && (bp + mem[bp].size == q ==> q in blocks)
    ensures var q := mem[p].ptr;
      if bp + mem[bp].size == q then Tiled(JoinUpper(mem, p, bp), base, brk, blocks - {q}, JoinWhere(where, bp, q))
      else Tiled(JoinUpper(mem, p, bp), base, brk, blocks, where)
    ensures JoinUpper(mem, p, bp)[p] == mem[p]
  {
    var q := mem[p].ptr;
    var m := JoinUpper(mem, p, bp);
    if bp + mem[bp].size == q { JoinTiled(mem, base, brk, blocks, where, bp, q, m); }
    else { SameTiled(mem, base, brk, blocks, where, m); }
  }

  lemma LowerTiled(mem: seq<Header>, base: nat, brk: nat, blocks: set<nat>, where: map<nat, nat>, p: nat, bp: nat)
    requires Tiled(mem, base, brk, blocks, where) && bp in blocks && p < bp < |mem|
    requires p + mem[p].size == bp ==> p in blocks
    ensures if p + mem[p].size == bp
            then Tiled(JoinLower(mem, p, bp), base, brk, blocks - {bp}, JoinWhere(where, p, bp))
      else Tiled(JoinLower(mem, p, bp), base, brk, blocks, where)
  {
    var m := JoinLower(mem, p, bp);
    if p + mem[p].size == bp { JoinTiled(mem, base, brk, blocks, where, p, bp, m); }
    else { SameTiled(mem, base, brk, blocks, where, m); }
  }

  lemma JoinCandidates(mem: seq<Header>, base: nat, brk: nat, ring: seq<nat>, live: set<nat>,
                       where: map<nat, nat>, bp: nat, t: nat)
    requires FreeList(mem, base, ring) && Partition(mem, base, brk, ring, live, where)
    requires bp in live && Placed(mem, base, ring, t, bp)
    ensures var p, q := ring[t], Next(ring, t);
      var blocks := BlocksOf(base, ring, live);
      && p < bp < |mem| && mem[p].ptr == q < |mem| && q != bp && bp in blocks && base < bp && ring[0] == base
      && (bp + mem[bp].size == q ==> t + 1 < |ring| && q == ring[t + 1] && q in blocks)
      && (p + mem[p].size == bp ==> p in blocks)
      && Tiled(mem, base, brk, blocks, where)
      && (forall h :: h in live ==> h !in ring)
  {
    FreeKeepsList(mem, base, ring, t, bp);
    Ascending(mem, base, ring);
    assert ring[t] in ring && Next(ring, t) in ring;
  }

  /** The map of the units after free. */
  function FreedWhere(where: map<nat, nat>, p: nat, bp: nat, q: nat, up: bool, low: bool): (w: map<nat, nat>)
    ensures w.Keys == where.Keys
  {
    var w1 := if up then JoinWhere(where, bp, q) else where;
    if low then JoinWhere(w1, p, bp) else w1
  }

  /** Where free leaves the blocks: joined into one if they touch, everything else as it was. */
  lemma FreeKeepsPartition(mem: seq<Header>, base: nat, brk: nat, ring: seq<nat>, live: set<nat>,
                           where: map<nat, nat>, bp: nat, t: nat)
    requires FreeList(mem, base, ring) && Partition(mem, base, brk, ring, live, where)
    requires bp in live && Placed(mem, base, ring, t, bp)
    ensures var p, q := ring[t], Next(ring, t);
      && p < |mem| && mem[p].ptr == q < |mem|
      && var up, low := bp + mem[bp].size == q, p + mem[p].size == bp;
      && (up ==> t + 1 < |ring|)
      && Partition(JoinLower(JoinUpper(mem, p, bp), p, bp), base, brk, FreedRing(ring, t, bp, up, low), live - {bp},
                   FreedWhere(where, p, bp, q, up, low))
  {
    JoinCandidates(mem, base, brk, ring, live, where, bp, t);
    Ascending(mem, base, ring);
    var p, q := ring[t], Next(ring, t);
    var up, low := bp + mem[bp].size == q, p + mem[p].size == bp;
    var blocks := BlocksOf(base, ring, live);
    hide Tiled, FreeList, Placed, BlocksOf, JoinWhere, FreedRing;
    UpperTiled(mem, base, brk, blocks, where, p, bp);
    var m1 := JoinUpper(mem, p, bp);
    LowerTiled(m1, base, brk, if up then blocks - {q} else blocks,
               if up then JoinWhere(where, bp, q) else where, p, bp);
    FreedBlocks(base, ring, live, bp, t, up, low);
    assert blocks - {} == blocks;
  }

  // -------------------------------------------------------------------- malloc

  function Cut(ring: seq<nat>, i: nat): (r: seq<nat>)
    requires i < |ring|
  {
    ring[..i] + ring[i + 1..]
  }

  lemma CutMembers(ring: seq<nat>, i: nat)
    requires i < |ring| && forall k, j :: 0 <= k < j < |ring| ==> ring[k] < ring[j]
    ensures forall h :: h in Cut(ring, i) <==> h in ring && h != ring[i]
  {}

  /** prevp->s.ptr = p->s.ptr: a block of exactly the right size leaves the list and becomes live. */
  lemma TakeWhole(mem: seq<Header>, base: nat, brk: nat, ring: seq<nat>, live: set<nat>, where: map<nat, nat>, i: nat)
    requires FreeList(mem, base, ring) && Partition(mem, base, brk, ring, live, where) && 1 <= i < |ring|
    ensures ring[i - 1] < |mem| && ring[i] < |mem| && mem[ring[i]].ptr == Next(ring, i)
    ensures ring[i] !in live && ring[i] != base
    ensures var m := mem[ring[i - 1] := mem[ring[i - 1]].(ptr := Next(ring, i))];
      FreeList(m, base, Cut(ring, i)) && Partition(m, base, brk, Cut(ring, i), live + {ring[i]}, where)
  {
    Ascending(mem, base, ring);
    assert Node(mem, base, ring, i - 1) && Node(mem, base, ring, i);
    var m, r := mem[ring[i - 1] := mem[ring[i - 1]].(ptr := Next(ring, i))], Cut(ring, i);
    forall k | 0 <= k < |r| ensures Node(m, base, r, k) {
      if k < i { assert Node(mem, base, ring, k); } else { assert Node(mem, base, ring, k + 1); }
    }
    CutMembers(ring, i);
    assert ring[i] in ring;
    assert BlocksOf(base, r, live + {ring[i]}) == BlocksOf(base, ring, live);
    SameTiled(mem, base, brk, BlocksOf(base, ring, live), where, m);
  }

  /** The units of the tail that malloc cuts off a larger block. */
  function SplitWhere(where: map<nat, nat>, h: nat, n: nat): (w: map<nat, nat>)
    ensures w.Keys == where.Keys
  {
    map u | u in where :: if h <= u < h + n then h else where[u]
  }

  /** p->s.size -= nunits; p += p->s.size; p->s.size = nunits */
  function TailCut(mem: seq<Header>, p: nat, n: nat): (m: seq<Header>)
    requires p < |mem| && n <= mem[p].size && p + mem[p].size - n < |mem|
    ensures |m| == |mem|
  {
    var left := mem[p].size - n;
    mem[p := mem[p].(size := left)][p + left := mem[p + left].(size := n)]
  }

  /** The tail is inside block p, so no header is there. */
  lemma TailInside(mem: seq<Header>, base: nat, brk: nat, blocks: set<nat>, where: map<nat, nat>, p: nat, n: nat)
    requires Tiled(mem, base, brk, blocks, where) && p in blocks && p < |mem| && 1 <= n < mem[p].size
    ensures var h := p + mem[p].size - n;
      && base < p < h < |mem| && h !in blocks && h + n <= brk
      && (forall u :: h <= u < h + n ==> u in where && where[u] == p)
  {
    var h := p + mem[p].size - n;
    forall u | h <= u < h + n ensures u in where && where[u] == p { assert Covers(mem, p, u); }
    assert h in blocks ==> Covers(mem, h, h);
  }

  lemma SplitTiled(mem: seq<Header>, base: nat, brk: nat, blocks: set<nat>, where: map<nat, nat>, p: nat, n: nat)
    requires Tiled(mem, base, brk, blocks, where) && p in blocks && p < |mem| && 1 <= n < mem[p].size
    requires p + mem[p].size - n < |mem|
    ensures var h := p + mem[p].size - n;
      Tiled(TailCut(mem, p, n), base, brk, blocks + {h}, SplitWhere(where, h, n))
  {
    TailInside(mem, base, brk, blocks, where, p, n);
    var h := p + mem[p].size - n;
    var m, w := TailCut(mem, p, n), SplitWhere(where, h, n);
    forall g: nat, u: nat | g in blocks && Covers(m, g, u) ensures u in w && w[u] == g { assert Covers(mem, g, u); }
    forall u | u in w ensures w[u] in blocks + {h} && Covers(m, w[u], u) {
      assert Covers(mem, where[u], u);
    }
  }

  lemma TailList(mem: seq<Header>, base: nat, ring: seq<nat>, i: nat, n: nat)
    requires FreeList(mem, base, ring) && 1 <= i < |ring| && ring[i] < |mem| && 1 <= n < mem[ring[i]].size
    requires ring[i] + mem[ring[i]].size - n < |mem| && ring[i] + mem[ring[i]].size - n !in ring
    ensures FreeList(TailCut(mem, ring[i], n), base, ring)
  {
    Ascending(mem, base, ring);
    var m := TailCut(mem, ring[i], n);
    forall k | 0 <= k < |ring| ensures Node(m, base, ring, k) {
      assert Node(mem, base, ring, k) && ring[k] in ring;
      assert ring[k] == ring[i] <==> k == i;
    }
  }

  // ------------------------------------------------------------------ morecore

  /** Units h .. h + n - 1. */
  function Region(h: nat, n: nat): (s: set<nat>)
    ensures forall u :: u in s <==> h <= u < h + n
  {
    if n == 0 then {} else Region(h, n - 1) + {h + n - 1}
  }

  function Fresh(where: map<nat, nat>, h: nat, n: nat): (w: map<nat, nat>)
    ensures w.Keys == where.Keys + Region(h, n)
  {
    map u | u in where.Keys + Region(h, n) :: if h <= u < h + n then h else where[u]
  }

  /** A region above the old break becomes one live block. */
  lemma RegionIsBlock(mem: seq<Header>, base: nat, brk: nat, ring: seq<nat>, live: set<nat>,
                      where: map<nat, nat>, n: nat)
    requires FreeList(mem, base, ring) && Partition(mem, base, brk, ring, live, where) && n >= 1 && brk + n <= |mem|
    ensures var m := mem[brk := mem[brk].(size := n)];
      && brk !in live && brk !in ring && (forall u :: u in where ==> u < brk)
      && FreeList(m, base, ring) && Partition(m, base, brk + n, ring, live + {brk}, Fresh(where, brk, n))
  {
    var m, w := mem[brk := mem[brk].(size := n)], Fresh(where, brk, n);
    var blocks := BlocksOf(base, ring, live);
    assert forall u :: u in where ==> u < brk by {
      forall u | u in where ensures u < brk { assert Covers(mem, where[u], u); }
    }
    assert brk !in blocks;
    forall k | 0 <= k < |ring| ensures Node(m, base, ring, k) && ring[k] < brk {
      assert Node(mem, base, ring, k) && ring[k] in ring;
      assert k > 0 ==> ring[k] in blocks;
    }
    assert BlocksOf(base, ring, live + {brk}) == blocks + {brk};
    forall g: nat, u: nat | g in blocks + {brk} && Covers(m, g, u) ensures u in w && w[u] == g {
      if g != brk { assert Covers(mem, g, u); }
    }
    forall u | u in w ensures w[u] in blocks + {brk} && Covers(m, w[u], u) {
      if u in where { assert Covers(mem, where[u], u); }
    }
  }

  // ------------------------------------------------------------------ the allocator

  /** The memory of the blocks in ls, headers included, and which block each of their units is in. */
  ghost predicate Untouched(m0: seq<Header>, w0: map<nat, nat>, m1: seq<Header>, w1: map<nat, nat>, ls: set<nat>) {
    |m0| == |m1| && forall u :: u in w0 && w0[u] in ls && u < |m0| ==> u in w1 && w1[u] == w0[u] && m1[u] == m0[u]
  }

  /** Where malloc will find the freed block: at freep, or right after it. */
  predicate FoundAfter(mem: seq<Header>, p: nat, bp: nat)
    requires p < |mem| && bp < |mem| && mem[p].ptr < |mem|
  {
    var m := JoinLower(JoinUpper(mem, p, bp), p, bp);
    m[p].size >= mem[bp].size || (m[p].ptr == bp && m[bp].size >= mem[bp].size)
  }

  /** free writes two headers, neither of them in another live block. */
  lemma FreeUntouched(mem: seq<Header>, base: nat, brk: nat, ring: seq<nat>, live: set<nat>,
                      where: map<nat, nat>, bp: nat, t: nat)
    requires FreeList(mem, base, ring) && Partition(mem, base, brk, ring, live, where)
    requires bp in live && Placed(mem, base, ring, t, bp)
    ensures var p, q := ring[t], Next(ring, t);
      && p < bp < |mem| && base < bp && mem[p].ptr == q < |mem| && q != bp
      && var up, low := bp + mem[bp].size == q, p + mem[p].size == bp;
      && Untouched(mem, where, JoinLower(JoinUpper(mem, p, bp), p, bp), FreedWhere(where, p, bp, q, up, low),
                   live - {bp})
      && FoundAfter(mem, p, bp)
      && !(up && t + 1 < |ring| && p == ring[t + 1]) && p in ring
  {
    JoinCandidates(mem, base, brk, ring, live, where, bp, t);
    Ascending(mem, base, ring);
    var p, q := ring[t], Next(ring, t);
    assert p in ring && q in ring;
    var blocks := BlocksOf(base, ring, live);
    assert Covers(mem, bp, bp) && (p != base ==> p in blocks && Covers(mem, p, p));
    assert base in where ==> Covers(mem, where[base], base);
  }

  /** Unlinking writes the header of a free block or of base only. */
  lemma WholeUntouched(mem: seq<Header>, base: nat, brk: nat, ring: seq<nat>, live: set<nat>,
                       where: map<nat, nat>, i: nat)
    requires FreeList(mem, base, ring) && Partition(mem, base, brk, ring, live, where) && 1 <= i < |ring|
    requires ring[i - 1] < |mem|
    ensures Untouched(mem, where, mem[ring[i - 1] := mem[ring[i - 1]].(ptr := Next(ring, i))], where, live)
  {
    var blocks := BlocksOf(base, ring, live);
    var q := ring[i - 1];
    assert q in ring;
    assert q != base ==> q in blocks && Covers(mem, q, q);
    assert base in where ==> Covers(mem, where[base], base);
  }

  lemma PrevStays(mem: seq<Header>, base: nat, ring: seq<nat>, i: nat)
    requires FreeList(mem, base, ring) && 1 <= i < |ring|
    ensures ring[i - 1] in Cut(ring, i)
  {}

  lemma StartsEmpty(mem: seq<Header>, base: nat, brk: nat)
    requires 0 < base < brk <= |mem| && mem[base] == Header(base, 0)
    ensures FreeList(mem, base, [base]) && Partition(mem, base, brk, [base], {}, map[])
  {}

  lemma NodeBefore(mem: seq<Header>, base: nat, ring: seq<nat>, f: nat)
    requires FreeList(mem, base, ring) && f < |ring|
    ensures ring[f] < |mem| && ring[if f > 0 then f - 1 else |ring| - 1] < |mem|
  {
    assert Node(mem, base, ring, f) && Node(mem, base, ring, if f > 0 then f - 1 else |ring| - 1);
  }

  lemma BaseIsEmpty(mem: seq<Header>, base: nat, ring: seq<nat>, i: nat)
    requires FreeList(mem, base, ring) && i < |ring| && ring[i] < |mem| && mem[ring[i]].size > 0
    ensures i > 0
  {}

  lemma TailPlace(mem: seq<Header>, base: nat, brk: nat, ring: seq<nat>, live: set<nat>, where: map<nat, nat>, i: nat)
    requires FreeList(mem, base, ring) && Partition(mem, base, brk, ring, live, where) && 1 <= i < |ring|
    ensures ring[i] in BlocksOf(base, ring, live) && ring[i - 1] in ring && ring[i - 1] > 0
    ensures Tiled(mem, base, brk, BlocksOf(base, ring, live), where)
    ensures live <= BlocksOf(base, ring, live) && ring[i] !in live
    ensures base < ring[i] && forall h :: h in live ==> h !in ring
  {
    hide Tiled;
    Ascending(mem, base, ring);
    assert Node(mem, base, ring, i - 1);
  }

  lemma TailSize(mem: seq<Header>, p: nat, n: nat)
    requires p < |mem| && 1 <= n < mem[p].size && p + mem[p].size - n < |mem|
    ensures TailCut(mem, p, n)[p + mem[p].size - n].size == n
  {
  }

  lemma TailUntouched(mem: seq<Header>,
                      where: map<nat, nat>, live: set<nat>, p: nat, n: nat, blocks: set<nat>, base: nat, brk: nat)
    requires Tiled(mem, base, brk, blocks, where) && live <= blocks && p in blocks && p !in live
    requires p < |mem| && 1 <= n < mem[p].size
    ensures p + mem[p].size - n < |mem|
    ensures Untouched(mem, where, TailCut(mem, p, n), SplitWhere(where, p + mem[p].size - n, n), live)
  {
    TailInside(mem, base, brk, blocks, where, p, n);
    assert Covers(mem, p, p);
  }

  /** All that cutting a tail does, on the whole state. */
  lemma TailResult(mem: seq<Header>, base: nat, brk: nat, ring: seq<nat>, live: set<nat>,
                   where: map<nat, nat>, i: nat, n: nat)
    requires FreeList(mem, base, ring) && Partition(mem, base, brk, ring, live, where) && 1 <= i < |ring|
    requires ring[i] < |mem| && 1 <= n < mem[ring[i]].size
    ensures var p := ring[i];
      var h := p + mem[p].size - n;
      && h < |mem| && h !in live && ring[i - 1] in ring && ring[i - 1] > 0
      && var m, w := TailCut(mem, p, n), SplitWhere(where, h, n);
      && FreeList(m, base, ring) && Partition(m, base, brk, ring, live + {h}, w)
      && m[h].size == n && Untouched(mem, where, m, w, live)
  {
    var p := ring[i];
    var h := p + mem[p].size - n;
    var blocks := BlocksOf(base, ring, live);
    TailPlace(mem, base, brk, ring, live, where, i);
    hide FreeList, Tiled, Untouched, SplitWhere, TailCut;
    TailInside(mem, base, brk, blocks, where, p, n);
    assert h in ring ==> h in blocks;
    assert BlocksOf(base, ring, live + {h}) == blocks + {h};
    TailUntouched(mem, where, live, p, n, blocks, base, brk);
    hide BlocksOf;
    TailList(mem, base, ring, i, n);
    SplitTiled(mem, base, brk, blocks, where, p, n);
    assert TailCut(mem, p, n)[h].size == n by { TailSize(mem, p, n); }
  }

  /** All that free does, on the whole state. */
  lemma FreeResult(mem: seq<Header>, base: nat, brk: nat, ring: seq<nat>, live: set<nat>,
                   where: map<nat, nat>, bp: nat, t: nat)
    requires FreeList(mem, base, ring) && Partition(mem, base, brk, ring, live, where)
    requires bp in live && Placed(mem, base, ring, t, bp)
    ensures var p, q := ring[t], Next(ring, t);
      && 0 < p < bp < |mem| && mem[p].ptr == q < |mem| && q != bp
      && var up, low := bp + mem[bp].size == q, p + mem[p].size == bp;
      && (up ==> t + 1 < |ring|)
      && var m, w := JoinLower(JoinUpper(mem, p, bp), p, bp), FreedWhere(where, p, bp, q, up, low);
      && var r := FreedRing(ring, t, bp, up, low);
      && |m| == |mem| && p in r
      && FreeList(m, base, r) && Partition(m, base, brk, r, live - {bp}, w) && w.Keys == where.Keys
      && Untouched(mem, where, m, w, live - {bp})
      && (m[p].size >= mem[bp].size || (m[p].ptr == bp && m[bp].size >= mem[bp].size))
  {
    FreeKeepsList(mem, base, ring, t, bp);
    FreeKeepsPartition(mem, base, brk, ring, live, where, bp, t);
    FreeUntouched(mem, base, brk, ring, live, where, bp, t);
    Ascending(mem, base, ring);
    var p, q := ring[t], Next(ring, t);
    assert p > 0 by { assert Node(mem, base, ring, t); }
    hide FreeList, Partition, Untouched, Placed, FreedRing, FreedWhere;
    FreedMembers(ring, t, bp, bp + mem[bp].size == q, p + mem[p].size == bp, p);
  }

  lemma UntouchedRefl(m: seq<Header>, w: map<nat, nat>, ls: set<nat>)
    ensures Untouched(m, w, m, w, ls)
  {
  }

  lemma RegionUntouched(m: seq<Header>, w: map<nat, nat>, hp: nat, n: nat, ls: set<nat>)
    requires hp < |m| && forall u :: u in w ==> u < hp
    ensures Untouched(m, w, m[hp := m[hp].(size := n)], Fresh(w, hp, n), ls)
    ensures w.Keys !! Region(hp, n)
  {
  }

  /** What morecore asks sbrk for. */
  function Request(nunits: nat): (nu: nat)
    ensures nu >= nunits && nu >= 4096 && (nu == nunits || nu == 4096)
  {
    if nunits < MINUNITS then MINUNITS else nunits
  }

  lemma UntouchedTwice(m0: seq<Header>, w0: map<nat, nat>, m1: seq<Header>, w1: map<nat, nat>, m2: seq<Header>,
                       w2: map<nat, nat>, ls: set<nat>)
    requires Untouched(m0, w0, m1, w1, ls) && Untouched(m1, w1, m2, w2, ls)
    ensures Untouched(m0, w0, m2, w2, ls)
  {
  }

  lemma FreepIsNode(mem: seq<Header>, base: nat, ring: seq<nat>, freep: nat)
    requires FreeList(mem, base, ring) && freep in ring
    ensures 0 < freep < |mem| && mem[freep].ptr < |mem| && mem[freep].ptr in ring
  {
    var k :| 0 <= k < |ring| && ring[k] == freep;
    assert Node(mem, base, ring, k) && Node(mem, base, ring, if k + 1 < |ring| then k + 1 else 0);
  }

  // -------------------------------------------------------------------- malloc

  /** The steps from entry i of n on to entry f, round the circle. */
  function Ahead(n: nat, i: nat, f: nat): (d: nat)
    requires i < n && f < n
  {
    if i <= f then f - i else f - i + n
  }

  /** The free block at entry i is large enough. */
  predicate Enough(mem: seq<Header>, ring: seq<nat>, i: nat, n: nat)
    requires i < |ring|
  {
    ring[i] < |mem| && mem[ring[i]].size >= n
  }

  /** Some free block is. */
  ghost predicate Fits(mem: seq<Header>, ring: seq<nat>, n: nat) {
    exists i :: 0 <= i < |ring| && Enough(mem, ring, i, n)
  }

  /** No entry that the search meets after entry f and before entry i is large enough. */
  ghost predicate Passed(mem: seq<Header>, ring: seq<nat>, f: nat, i: nat, n: nat) {
    && f < |ring| && i < |ring|
    && forall j :: 0 <= j < |ring| && Ahead(|ring|, j, f) > Ahead(|ring|, i, f) ==> !Enough(mem, ring, j, n)
  }

  /** h is the last n units of the first free block after freep that has n, and prev the entry before
      that block. */
  ghost predicate FirstFit(mem: seq<Header>, ring: seq<nat>, freep: nat, n: nat, h: nat, prev: nat) {
    exists f, i ::
      && 0 <= f < |ring| && 0 <= i < |ring| && ring[f] == freep && Passed(mem, ring, f, i, n)
      && Enough(mem, ring, i, n) && h == ring[i] + mem[ring[i]].size - n
      && prev == ring[if i > 0 then i - 1 else |ring| - 1]
  }

  lemma PassedStarts(mem: seq<Header>, ring: seq<nat>, f: nat, i: nat, n: nat)
    requires f < |ring| && i == if f + 1 < |ring| then f + 1 else 0
    ensures Passed(mem, ring, f, i, n)
  {}

  lemma PassedMore(mem: seq<Header>, ring: seq<nat>, f: nat, i: nat, n: nat)
    requires Passed(mem, ring, f, i, n) && !Enough(mem, ring, i, n) && i != f
    ensures Passed(mem, ring, f, if i + 1 < |ring| then i + 1 else 0, n)
  {}

  /** A whole lap has met every entry. */
  lemma PassedAll(mem: seq<Header>, ring: seq<nat>, f: nat, n: nat)
    requires Passed(mem, ring, f, f, n) && !Enough(mem, ring, f, n)
    ensures !Fits(mem, ring, n)
  {
    forall j | 0 <= j < |ring| ensures !Enough(mem, ring, j, n) {
      assert j != f ==> Ahead(|ring|, j, f) > Ahead(|ring|, f, f);
    }
  }

  lemma Found(mem: seq<Header>, ring: seq<nat>, f: nat, i: nat, n: nat)
    requires Passed(mem, ring, f, i, n) && i < |ring| && ring[i] < |mem| && mem[ring[i]].size >= n
    ensures Fits(mem, ring, n) && f < |ring|
    ensures FirstFit(mem, ring, ring[f], n, ring[i] + mem[ring[i]].size - n, ring[if i > 0 then i - 1 else |ring| - 1])
  {
    assert Enough(mem, ring, i, n);
  }

  class Allocator {
    const mem: array<Header>
    const base: nat
    var freep: nat                     // 0 until the first malloc
    var brk: nat
    ghost var ring: seq<nat>           // the free list, from base upwards
    ghost var live: set<nat>           // headers of the blocks the program holds
    ghost var where: map<nat, nat>     // every unit got from sbrk, and the block it is in

    ghost predicate Valid()
      reads this, mem
    {
      && 0 < base < brk <= mem.Length
      && if freep == 0 then ring == [] && live == {} && where == map[]
         else FreeList(mem[..], base, ring) && Partition(mem[..], base, brk, ring, live, where) && freep in ring
    }

    constructor (units: nat, base: nat, brk: nat)
      requires 0 < base < brk <= units
      ensures Valid() && fresh(mem) && freep == 0 && mem.Length == units
    {
      mem := new Header[units](i => Header(0, 0));
      this.base, this.brk, freep := base, brk, 0;
      ring, live, where := [], {}, map[];
    }

    /** free's search, from freep round the list: it stops within one lap, at the last free block
        below bp. */
    method Search(bp: nat) returns (p: nat)
      requires Valid() && freep != 0 && bp in live
      ensures p in ring && p < bp && forall h :: h in ring && h > p ==> h > bp
      ensures ring != [] && Placed(mem[..], base, ring, Slot(ring, bp), bp) && p == ring[Slot(ring, bp)]
    {
      FreedIsPlaced(mem[..], base, brk, ring, live, where, bp);
      Ascending(mem[..], base, ring);
      ghost var t := Slot(ring, bp);
      p := freep;
      ghost var k :| 0 <= k < |ring| && ring[k] == freep;
      assert Node(mem[..], base, ring, k);
      while !(bp > p && bp < mem[p].ptr)
        invariant 0 <= k < |ring| && p == ring[k] && p < mem.Length
        decreases if k <= t then t - k else t - k + |ring|
      {
        assert Node(mem[..], base, ring, k);
        if p >= mem[p].ptr && (bp > p || bp < mem[p].ptr) { break; }
        p := mem[p].ptr;
        k := if k + 1 < |ring| then k + 1 else 0;
        assert Node(mem[..], base, ring, k);
      }
      assert Node(mem[..], base, ring, k);
    }

    /** free of a live block: it joins the list, merged with the free blocks that touch it; the
        other live blocks are untouched and no unit is lost or gained. */
    method Free(ap: nat)
      requires Valid() && ap > 0 && ap - 1 in live
      modifies this`freep, this`ring, this`live, this`where, mem
      ensures Valid() && freep != 0 && live == old(live) - {ap - 1}
      ensures where.Keys == old(where).Keys
      ensures Untouched(old(mem[..]), old(where), mem[..], where, live)
      ensures freep in old(ring) && freep < ap - 1 && forall h :: h in old(ring) && h > freep ==> h > ap - 1
      ensures freep < mem.Length && (mem[freep].size >= old(mem[ap - 1]).size
        || (mem[freep].ptr == ap - 1 && mem[ap - 1].size >= old(mem[ap - 1]).size))
      ensures Fits(mem[..], ring, old(mem[ap - 1]).size)
    {
      var bp := ap - 1;
      assert freep != 0;
      var p := Search(bp);
      ghost var t := Slot(ring, bp);
      FreeResult(mem[..], base, brk, ring, live, where, bp, t);
      hide *;
      ghost var q := mem[p].ptr;
      ghost var up, low := bp + mem[bp].size == q, p + mem[p].size == bp;
      Join(p, bp);
      freep := p;
      ring, live, where := FreedRing(ring, t, bp, up, low), live - {bp}, FreedWhere(where, p, bp, q, up, low);
      assert Valid() by { ValidFrom(); }
      FreedFits(old(mem[ap - 1]).size);
    }

    lemma FreedFits(n: nat)
      requires Valid() && freep != 0 && freep < mem.Length
      requires mem[freep].size >= n || (mem[freep].ptr < mem.Length && mem[mem[freep].ptr].size >= n)
      ensures Fits(mem[..], ring, n)
    {
      var k :| 0 <= k < |ring| && ring[k] == freep;
      assert Node(mem[..], base, ring, k);
      var j := if k + 1 < |ring| then k + 1 else 0;
      assert Enough(mem[..], ring, k, n) || Enough(mem[..], ring, j, n);
    }

    /** The assignments of free once the place is found. */
    method Join(p: nat, bp: nat)
      requires p < bp < mem.Length && mem[p].ptr < mem.Length && mem[p].ptr != bp
      modifies mem
      ensures mem[..] == JoinLower(JoinUpper(old(mem[..]), p, bp), p, bp)
    {
      ghost var s := mem[..];
      var q := mem[p].ptr;
      if bp + mem[bp].size == q {
        mem[bp] := mem[bp].(size := mem[bp].size + mem[q].size);
        mem[bp] := mem[bp].(ptr := mem[q].ptr);
      } else {
        mem[bp] := mem[bp].(ptr := q);
      }
      assert mem[..] == JoinUpper(s, p, bp);
      if p + mem[p].size == bp {
        mem[p] := mem[p].(size := mem[p].size + mem[bp].size);
        mem[p] := mem[p].(ptr := mem[bp].ptr);
      } else {
        mem[p] := mem[p].(ptr := bp);
      }
    }

    /** sbrk as the allocator sees it: the region right above the break, or a refusal. */
    method Sbrk(nu: nat, grant: bool) returns (p: Option<nat>)
      requires brk <= mem.Length
      modifies this`brk
      ensures p.Some? <==> grant && old(brk) + nu <= mem.Length
      ensures p.Some? ==> p.value == old(brk) && brk == old(brk) + nu
      ensures p.None? ==> brk == old(brk)
    {
      if !grant || brk + nu > mem.Length { return None; }
      p := Some(brk);
      brk := brk + nu;
    }

    /** morecore: 0 if sbrk refuses, else freep after the new region has gone through free. A block
        of at least nunits is then at freep or right after it. */
    method Morecore(nunits: nat, grant: bool) returns (r: nat)
      requires Valid() && freep != 0 && 1 <= nunits < TWO32 / (2 * HEADER)
      modifies this`brk, this`freep, this`ring, this`live, this`where, mem
      ensures Valid() && live == old(live) && freep != 0
      ensures r == 0 <==> !grant || old(brk) + Request(nunits) > mem.Length
      ensures r == 0 ==>
        && mem[..] == old(mem[..]) && where == old(where) && ring == old(ring)
        && freep == old(freep) && brk == old(brk)
      ensures r != 0 ==>
        && r == freep < mem.Length && mem[freep].ptr < mem.Length && brk == old(brk) + Request(nunits)
        && (mem[freep].size >= nunits || mem[mem[freep].ptr].size >= nunits)
        && where.Keys == old(where).Keys + Region(old(brk), Request(nunits))
        && old(where).Keys !! Region(old(brk), Request(nunits))
      ensures Untouched(old(mem[..]), old(where), mem[..], where, live)
    {
      hide FreeList, Partition, Untouched, Fresh, Region;
      UntouchedRefl(mem[..], where, live);
      var nu := nunits;
      if nu < MINUNITS { nu := MINUNITS; }
      var p := Sbrk(nu, grant);
      if p.None? { return 0; }
      var hp := p.value;
      ghost var s, w := mem[..], where;
      RegionIsBlock(s, base, hp, ring, live, where, nu);
      RegionUntouched(s, where, hp, nu, live);
      mem[hp] := mem[hp].(size := nu);
      assert mem[..] == s[hp := s[hp].(size := nu)];
      where, live := Fresh(where, hp, nu), live + {hp};
      ghost var s1, w1 := mem[..], where;
      Free(hp + 1);
      assert live == old(live);
      UntouchedTwice(s, w, s1, w1, mem[..], where, live);
      FreepIsNode(mem[..], base, ring, freep);
      r := freep;
    }

    /** Entry i of the list is p, reached from prevp. */
    ghost predicate At(prevp: nat, p: nat, i: nat)
      reads this, mem
    {
      && i < |ring| && p == ring[i] && p < mem.Length && prevp < mem.Length
      && prevp == ring[if i > 0 then i - 1 else |ring| - 1]
    }

    lemma StepOn(prevp: nat, p: nat, i: nat) returns (j: nat)
      requires Valid() && freep != 0 && At(prevp, p, i)
      ensures At(p, mem[p].ptr, j) && j == if i + 1 < |ring| then i + 1 else 0
      ensures forall f :: 0 <= f < |ring| && f != i ==> Ahead(|ring|, j, f) < Ahead(|ring|, i, f)
      ensures forall f :: 0 <= f < |ring| ==> Ahead(|ring|, j, f) < |ring|
    {
      j := if i + 1 < |ring| then i + 1 else 0;
      assert Node(mem[..], base, ring, i) && Node(mem[..], base, ring, j);
    }

    /** A block of the right size is unlinked. */
    method TakeExact(prevp: nat, p: nat, ghost i: nat)
      requires Valid() && freep != 0 && At(prevp, p, i) && i > 0
      modifies this`freep, this`ring, this`live, mem
      ensures Valid() && freep != 0
      ensures p !in old(live) && live == old(live) + {p} && mem[p].size == old(mem[p]).size
      ensures freep == prevp
      ensures Untouched(old(mem[..]), where, mem[..], where, old(live))
    {
      assert mem[p].size >= 1 by { assert Node(mem[..], base, ring, i); }
      WholeUntouched(mem[..], base, brk, ring, live, where, i);
      TakeWhole(mem[..], base, brk, ring, live, where, i);
      PrevStays(mem[..], base, ring, i);
      hide FreeList, Partition, Untouched, Cut;
      ghost var s := mem[..];
      mem[prevp] := mem[prevp].(ptr := mem[p].ptr);
      assert mem[..] == s[ring[i - 1] := s[ring[i - 1]].(ptr := Next(ring, i))];
      ring, live := Cut(ring, i), live + {p};
      freep := prevp;
    }

    /** A larger block gives up its tail. */
    method TakeEnd(prevp: nat, p: nat, ghost i: nat, nunits: nat) returns (h: nat)
      requires Valid() && freep != 0 && At(prevp, p, i) && i > 0 && 1 <= nunits < mem[p].size
      modifies this`freep, this`live, this`where, mem
      ensures Valid() && freep != 0 && h < mem.Length
      ensures h !in old(live) && live == old(live) + {h} && mem[h].size == nunits
      ensures h == p + old(mem[p].size) - nunits && freep == prevp
      ensures where.Keys == old(where).Keys
      ensures Untouched(old(mem[..]), old(where), mem[..], where, old(live))
    {
      hide FreeList, Partition, Untouched, SplitWhere, TailCut;
      TailResult(mem[..], base, brk, ring, live, where, i, nunits);
      hide *;
      h := CutTail(p, nunits);
      where, live := SplitWhere(where, h, nunits), live + {h};
      freep := prevp;
      assert Valid() by { ValidFrom(); }
    }

    lemma ValidFrom()
      requires 0 < base < brk <= mem.Length && freep != 0
      requires FreeList(mem[..], base, ring) && Partition(mem[..], base, brk, ring, live, where) && freep in ring
      ensures Valid()
    {
    }

    /** p->s.size -= nunits; p += p->s.size; p->s.size = nunits */
    method CutTail(p: nat, nunits: nat) returns (h: nat)
      requires p < mem.Length && 1 <= nunits < mem[p].size && p + mem[p].size - nunits < mem.Length
      modifies mem
      ensures h == p + old(mem[p]).size - nunits
      ensures mem[..] == TailCut(old(mem[..]), p, nunits)
    {
      mem[p] := mem[p].(size := mem[p].size - nunits);
      h := p + mem[p].size;
      mem[h] := mem[h].(size := nunits);
    }

    /** The header of a fitting block, whole or cut from its end, becomes live. */
    method Take(prevp: nat, p: nat, ghost i: nat, nunits: nat) returns (h: nat)
      requires Valid() && freep != 0 && At(prevp, p, i) && 1 <= nunits <= mem[p].size
      modifies this`freep, this`ring, this`live, this`where, mem
      ensures Valid() && freep != 0 && h < mem.Length
      ensures h !in old(live) && live == old(live) + {h} && mem[h].size == nunits
      ensures h == p + old(mem[p].size) - nunits && freep == prevp
      ensures where.Keys == old(where).Keys
      ensures Untouched(old(mem[..]), old(where), mem[..], where, old(live))
    {
      BaseIsEmpty(mem[..], base, ring, i);
      if mem[p].size == nunits {
        TakeExact(prevp, p, i);
        h := p;
      } else {
        h := TakeEnd(prevp, p, i, nunits);
      }
    }

    /** The first call makes base a list of its own. */
    method Init()
      requires Valid()
      modifies this`freep, this`ring, mem
      ensures Valid() && freep != 0
      ensures Untouched(old(mem[..]), where, mem[..], where, live)
      ensures forall n :: n > 0 ==> Fits(mem[..], ring, n) == Fits(old(mem[..]), old(ring), n)
      ensures old(freep) != 0 ==> mem[..] == old(mem[..]) && ring == old(ring) && freep == old(freep)
      ensures old(freep) == 0 ==> forall n :: !Fits(old(mem[..]), old(ring), n)
    {
      UntouchedRefl(mem[..], where, live);
      if freep == 0 {
        mem[base] := Header(base, 0);
        freep := base;
        ring := [base];
        StartsEmpty(mem[..], base, brk);
      }
    }

    /** Where the search starts: the entry after prevp == freep. */
    ghost method Start() returns (f: nat, i: nat)
      requires Valid() && freep != 0
      ensures f < |ring| && ring[f] == freep && freep < mem.Length && At(freep, mem[freep].ptr, i)
      ensures i == if f + 1 < |ring| then f + 1 else 0
    {
      FreepIsNode(mem[..], base, ring, freep);
      f :| f < |ring| && ring[f] == freep;
      NodeBefore(mem[..], base, ring, f);
      i := StepOn(ring[if f > 0 then f - 1 else |ring| - 1], freep, f);
    }

    /** malloc: a block of exactly Units(nbytes) units, header included: the end of the first large
        enough free block after freep; only if there is none does the heap grow, and only if sbrk then
        refuses is the result None. The search goes round the list at most once before and once after
        morecore. */
    method Malloc(nbytes: U32, grant: bool) returns (r: Option<nat>)
      requires Valid() && Units(nbytes) < TWO32 / (2 * HEADER)
      modifies this, mem
      ensures Valid()
      ensures r.None? <==>
        && !Fits(old(mem[..]), old(ring), Units(nbytes))
        && (!grant || old(brk) + Request(Units(nbytes)) > mem.Length)
      ensures r.None? ==> live == old(live) && where.Keys == old(where).Keys && brk == old(brk)
      ensures r.Some? ==>
        && r.value > 0 && r.value - 1 < mem.Length && r.value - 1 !in old(live)
        && live == old(live) + {r.value - 1} && mem[r.value - 1].size == Units(nbytes)
      ensures Fits(old(mem[..]), old(ring), Units(nbytes)) ==>
        && r.Some? && FirstFit(old(mem[..]), old(ring), old(freep), Units(nbytes), r.value - 1, freep)
        && where.Keys == old(where).Keys && brk == old(brk)
      ensures r.Some? && !Fits(old(mem[..]), old(ring), Units(nbytes)) ==>
        && where.Keys == old(where).Keys + Region(old(brk), Request(Units(nbytes)))
        && old(where).Keys !! Region(old(brk), Request(Units(nbytes)))
        && brk == old(brk) + Request(Units(nbytes))
      ensures Untouched(old(mem[..]), old(where), mem[..], where, old(live))
    {
      hide FreeList, Partition, Untouched, Region, Fits, Passed, Enough, FirstFit;
      var nunits := Units(nbytes);
      Init();
      var prevp := freep;
      ghost var f: nat, i: nat := Start();
      var p := mem[prevp].ptr;
      ghost var fed, m0, r0, f0 := false, mem[..], ring, freep;
      PassedStarts(m0, r0, f, i, nunits);
      while true
        invariant Valid() && freep != 0 && freep < mem.Length && live == old(live)
        invariant At(prevp, p, i) && f < |ring| && ring[f] == freep
        invariant fed ==> mem[p].size >= nunits || mem[freep].size >= nunits
        invariant !fed ==> brk == old(brk) && where.Keys == old(where).Keys
        invariant !fed ==> mem[..] == m0 && ring == r0 && freep == f0 && Passed(m0, r0, f, i, nunits)
        invariant fed ==>
          && !Fits(m0, r0, nunits) && grant && old(brk) + Request(nunits) <= mem.Length
          && brk == old(brk) + Request(nunits)
          && where.Keys == old(where).Keys + Region(old(brk), Request(nunits))
          && old(where).Keys !! Region(old(brk), Request(nunits))
        invariant Untouched(old(mem[..]), old(where), mem[..], where, live)
        decreases !fed, Ahead(|ring|, i, f)
      {
        ghost var s1, w1 := mem[..], where;
        if mem[p].size >= nunits {
          if !fed { Found(m0, r0, f, i, nunits); }
          var h := Take(prevp, p, i, nunits);
          UntouchedTwice(old(mem[..]), old(where), s1, w1, mem[..], where, old(live));
          return Some(h + 1);
        }
        NotEnough(i, nunits);
        if p == freep {
          SameEntry(i, f);
          PassedAll(m0, r0, f, nunits);
          p := Morecore(nunits, grant);
          UntouchedTwice(old(mem[..]), old(where), s1, w1, mem[..], where, old(live));
          if p == 0 { return None; }
          fed := true;
          f, i := Start();
        } else {
          if !fed { PassedMore(m0, r0, f, i, nunits); }
          i := StepOn(prevp, p, i);
        }
        prevp := p;
        p := mem[p].ptr;
      }
    }

    lemma NotEnough(i: nat, n: nat)
      requires i < |ring| && ring[i] < mem.Length && mem[ring[i]].size < n
      ensures !Enough(mem[..], ring, i, n)
    {}

    /** No block is listed twice. */
    lemma SameEntry(i: nat, f: nat)
      requires Valid() && freep != 0 && i < |ring| && f < |ring| && ring[i] == ring[f]
      ensures i == f
    {
      Ascending(mem[..], base, ring);
    }
  }
}
