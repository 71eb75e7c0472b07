/** The bounded pipe of pipe.c: a ring of PIPESIZE bytes and two counters that only ever grow, and
    wrap at 2^32. Readers and writers run one at a time between their sleep points. */
module Pipe {
  import opened Words

  const PIPESIZE: nat := 512

  /** The fields pipewrite and piperead work on. */
  datatype Ring = Ring(data: seq<Byte>, nread: U32, nwrite: U32)

  predicate Full(p: Ring) { p.nwrite == (p.nread + PIPESIZE) % TWO32 }

  predicate Empty(p: Ring) { p.nread == p.nwrite }

  /** p->data[p->nwrite++ % PIPESIZE] = b */
  function Put(p: Ring, b: Byte): (r: Ring)
    requires |p.data| == PIPESIZE
    ensures |r.data| == PIPESIZE
  {
    p.(data := p.data[p.nwrite % PIPESIZE := b], nwrite := (p.nwrite + 1) % TWO32)
  }

  /** p->data[p->nread++ % PIPESIZE] */
  function Front(p: Ring): (b: Byte)
    requires |p.data| == PIPESIZE
  {
    p.data[p.nread % PIPESIZE]
  }

  function Get(p: Ring): (r: Ring) { p.(nread := (p.nread + 1) % TWO32) }

  /** The ring after all bytes of written have gone in and the first got of them have come out. */
  ghost predicate Carries(p: Ring, written: seq<Byte>, got: nat) {
    && |p.data| == PIPESIZE
    && got <= |written| <= got + PIPESIZE
    && p.nwrite == |written| % TWO32 && p.nread == got % TWO32
    && forall k :: got <= k < |written| ==> p.data[k % PIPESIZE] == written[k]
  }

  /** The slot of a wrapped counter is the slot of the count, because PIPESIZE divides 2^32. */
  lemma SlotOfCount(k: nat)
    ensures k % TWO32 % PIPESIZE == k % PIPESIZE
  {}

  /** The comparisons of the wrapped counters decide fullness and emptiness exactly. */
  lemma FullAndEmptyIff(p: Ring, written: seq<Byte>, got: nat)
    requires Carries(p, written, got)
    ensures Full(p) <==> |written| == got + PIPESIZE
    ensures Empty(p) <==> |written| == got
    ensures (p.nwrite - p.nread) % TWO32 == |written| - got
  {}

  /** Two counts less than PIPESIZE apart have different slots. */
  lemma SlotsDiffer(a: nat, b: nat)
    requires a < b < a + PIPESIZE
    ensures a % PIPESIZE != b % PIPESIZE
  {}

  lemma NextCount(k: nat)
    ensures (k % TWO32 + 1) % TWO32 == (k + 1) % TWO32
  {}

  /** A write to a pipe that is not full overwrites no unread byte. */
  lemma PutKeeps(p: Ring, b: Byte, written: seq<Byte>, got: nat)
    requires Carries(p, written, got) && !Full(p)
    ensures Carries(Put(p, b), written + [b], got)
  {
    FullAndEmptyIff(p, written, got);
    SlotOfCount(|written|);
    NextCount(|written|);
    forall k | got <= k < |written| ensures Put(p, b).data[k % PIPESIZE] == written[k] {
      SlotsDiffer(k, |written|);
    }
  }

  /** A read from a pipe that is not empty yields the oldest unread byte. */
  lemma GetKeeps(p: Ring, written: seq<Byte>, got: nat)
    requires Carries(p, written, got) && !Empty(p)
    ensures got < |written| && |p.data| == PIPESIZE && Front(p) == written[got]
    ensures Carries(Get(p), written, got + 1)
  {
    FullAndEmptyIff(p, written, got);
    SlotOfCount(got);
    NextCount(got);
  }

  // ------------------------------------------------------------------- any run

  /** One byte moved by some writer, or by some reader; a writer at a full pipe and a reader at an
      empty one sleep instead. */
  datatype Step = Write(b: Byte) | Read

  datatype Run = Run(ring: Ring, written: seq<Byte>, delivered: seq<Byte>)

  function Do(r: Run, s: Step): (q: Run)
    requires |r.ring.data| == PIPESIZE
    ensures |q.ring.data| == PIPESIZE
  {
    match s
    case Write(b) => if Full(r.ring) then r else Run(Put(r.ring, b), r.written + [b], r.delivered)
    case Read => if Empty(r.ring) then r else Run(Get(r.ring), r.written, r.delivered + [Front(r.ring)])
  }

  function DoAll(r: Run, ss: seq<Step>): (q: Run)
    requires |r.ring.data| == PIPESIZE
    decreases |ss|
  {
    if ss == [] then r else DoAll(Do(r, ss[0]), ss[1..])
  }

  ghost predicate InOrder(r: Run) {
    r.delivered <= r.written && Carries(r.ring, r.written, |r.delivered|)
  }

  /** Over any interleaving of readers and writers, however often the counters wrap: the bytes
      delivered are a prefix, in order, of the bytes written, and at most PIPESIZE behind. */
  lemma {:induction false} PipeIsFifo(r: Run, ss: seq<Step>)
    requires InOrder(r)
    ensures InOrder(DoAll(r, ss))
    ensures DoAll(r, ss).delivered <= DoAll(r, ss).written
    ensures |DoAll(r, ss).written| - |DoAll(r, ss).delivered| <= PIPESIZE
    decreases |ss|
  {
    if ss != [] {
      if ss[0].Write? && !Full(r.ring) { PutKeeps(r.ring, ss[0].b, r.written, |r.delivered|); }
      if ss[0].Read? && !Empty(r.ring) { GetKeeps(r.ring, r.written, |r.delivered|); }
      PipeIsFifo(Do(r, ss[0]), ss[1..]);
    }
  }

  // ------------------------------------------------------------------ the kernel's pipe

  /** How a call leaves the lock: asleep, refused with -1, or finished. */
  datatype Outcome = Asleep | Refused | Finished

  class Pipe {
    const data: array<Byte>
    var nread: U32
    var nwrite: U32
    var readopen: bool
    var writeopen: bool
    ghost var written: seq<Byte>
    ghost var delivered: seq<Byte>

    ghost function State(): (r: Run)
      reads this, data
    {
      Run(Ring(data[..], nread, nwrite), written, delivered)
    }

    ghost predicate Valid()
      reads this, data
    {
      InOrder(State())
    }

    /** pipealloc */
    constructor ()
      ensures Valid() && written == [] && delivered == [] && readopen && writeopen && fresh(data)
    {
      data := new Byte[PIPESIZE](i => 0);
      nread, nwrite, readopen, writeopen := 0, 0, true, true;
      written, delivered := [], [];
    }

    /** p->data[p->nwrite++ % PIPESIZE] = b, in a pipe that is not full. */
    method PutByte(b: Byte)
      requires Valid() && !Full(State().ring)
      modifies this`nwrite, this`written, data
      ensures Valid() && written == old(written) + [b]
    {
      ghost var r := State().ring;
      PutKeeps(r, b, written, |delivered|);
      data[nwrite % PIPESIZE] := b;
      nwrite := (nwrite + 1) % TWO32;
      written := written + [b];
      assert State().ring == Put(r, b);
      hide Carries, Put;
    }

    /** pipewrite from byte i of addr on, until it has to sleep or is done: the loop from one
        acquisition of the lock to its release. It is entered again at i after a wakeup. */
    method WriteSome(addr: seq<Byte>, start: nat, killed: bool) returns (i: nat, how: Outcome)
      requires Valid() && start <= |addr|
      modifies this, data
      ensures Valid() && start <= i <= |addr|
      ensures readopen == old(readopen) && writeopen == old(writeopen)
      ensures written == old(written) + addr[start..i] && delivered == old(delivered)
      ensures how == Finished <==> i == |addr|
      ensures how == Refused <==> i < |addr| && (!readopen || killed)
      ensures how != Finished ==> |written| == |delivered| + PIPESIZE
    {
      i := start;
      while i < |addr|
        invariant Valid() && start <= i <= |addr|
        invariant readopen == old(readopen) && writeopen == old(writeopen)
        invariant written == old(written) + addr[start..i] && delivered == old(delivered)
      {
        FullAndEmptyIff(State().ring, written, |delivered|);
        if nwrite == (nread + PIPESIZE) % TWO32 {
          if !readopen || killed { return i, Refused; }
          return i, Asleep;
        }
        PutByte(addr[i]);
        i := i + 1;
      }
      how := Finished;
    }

    /** piperead, from one acquisition of the lock to its release: it sleeps on an empty pipe that a
        writer may still fill, and otherwise takes what is there, up to n bytes. */
    method ReadSome(addr: array<Byte>, n: nat, killed: bool) returns (i: nat, how: Outcome)
      requires Valid() && n <= addr.Length && addr != data
      modifies this, addr
      ensures Valid() && i <= n
      ensures readopen == old(readopen) && writeopen == old(writeopen)
      ensures written == old(written) && delivered == old(delivered) + addr[..i]
      ensures addr[i..] == old(addr[i..])
      ensures how == Finished <==> |old(written)| > |old(delivered)| || !writeopen
      ensures how == Refused <==> |old(written)| == |old(delivered)| && writeopen && killed
      ensures how == Finished ==> i == n || |written| == |delivered|
      ensures how != Finished ==> i == 0
    {
      i := 0;
      FullAndEmptyIff(State().ring, written, |delivered|);
      if nread == nwrite && writeopen {
        return 0, if killed then Refused else Asleep;
      }
      while i < n
        invariant Valid() && i <= n
        invariant readopen == old(readopen) && writeopen == old(writeopen)
        invariant written == old(written) && delivered == old(delivered) + addr[..i]
        invariant addr[i..] == old(addr[i..])
        invariant data[..] == old(data[..])
      {
        FullAndEmptyIff(State().ring, written, |delivered|);
        if nread == nwrite { break; }
        GetKeeps(State().ring, written, |delivered|);
        ghost var s := addr[..];
        addr[i] := data[nread % PIPESIZE];
        assert addr[..i + 1] == s[..i] + [addr[i]];
        assert addr[i + 1..] == s[i..][1..];
        delivered := delivered + [addr[i]];
        nread := (nread + 1) % TWO32;
        i := i + 1;
      }
      how := Finished;
    }
  }
}
