/** Directories and link counts as values: what create, link and unlink do to the inodes, and why
    every inode's nlink stays the number of directory entries naming it. */
module Links {
  import opened Sets

  const ROOTINO: nat := 1
  const DIRSIZ: nat := 14

  datatype Kind = Free | Dir | File | Dev

  /** struct dirent; inum 0 marks a slot not in use. */
  datatype Dirent = Dirent(inum: nat, name: string)

  const EMPTY: Dirent := Dirent(0, "")

  /** An inode with, for a directory, its entries. */
  datatype Inode = Inode(kind: Kind, nlink: nat, entries: seq<Dirent>)

  /** A directory that is still linked. */
  predicate LiveDir(s: seq<Inode>, d: nat) {
    d < |s| && s[d].kind.Dir? && s[d].nlink > 0
  }

  /** Slot k of live directory d names inode i; a directory's own "." does not count. */
  predicate IsLink(s: seq<Inode>, d: nat, k: nat, i: nat) {
    LiveDir(s, d) && k < |s[d].entries| && s[d].entries[k].inum == i && i != 0 && !(d == i && k == 0)
  }

  ghost function LinksTo(s: seq<Inode>, i: nat): (r: set<(nat, nat)>)
    ensures forall d: nat, k: nat :: (d, k) in r <==> IsLink(s, d, k, i)
  {
    set d: nat, k: nat | d < |s| && k < |s[d].entries| && IsLink(s, d, k, i) :: (d, k)
  }

  /** The slots "." and ".." come first, and every slot in use names a linked inode. */
  ghost predicate DirOk(s: seq<Inode>, d: nat)
    requires d < |s|
  {
    var es := s[d].entries;
    && |es| >= 2 && es[0] == Dirent(d, ".") && es[1].name == ".." && LiveDir(s, es[1].inum) && es[1].inum != 0
    && forall k :: 0 <= k < |es| && es[k].inum != 0 ==> es[k].inum < |s| && s[es[k].inum].nlink > 0
  }

  /** No name twice in a directory. */
  predicate NamesUnique(es: seq<Dirent>) {
    forall k, l :: 0 <= k < l < |es| && es[k].inum != 0 && es[l].inum != 0 ==> es[k].name != es[l].name
  }

  /** A linked directory other than the root is entered once, in the directory its ".." names; the
      root is entered nowhere. */
  ghost predicate PlaceOk(s: seq<Inode>, d: nat)
    requires d < |s| && |s[d].entries| >= 2
  {
    && (forall p, k :: IsLink(s, p, k, d) && k >= 2 ==> d != ROOTINO && p == s[d].entries[1].inum)
    && (forall p, k, l :: IsLink(s, p, k, d) && IsLink(s, p, l, d) && k >= 2 && l >= 2 ==> k == l)
    && (d == ROOTINO ==> s[d].entries[1].inum == ROOTINO)
    && (d != ROOTINO ==> exists k :: k >= 2 && IsLink(s, s[d].entries[1].inum, k, d))
  }

  ghost predicate Sound(s: seq<Inode>, d: nat) {
    d < |s| && DirOk(s, d) && NamesUnique(s[d].entries) && PlaceOk(s, d)
  }

  ghost predicate DirsOk(s: seq<Inode>) {
    LiveDir(s, ROOTINO) && forall d :: 0 <= d < |s| && LiveDir(s, d) ==> Sound(s, d)
  }

  /** The law: each inode's nlink is the number of entries naming it. */
  ghost predicate InodeOk(s: seq<Inode>, i: nat)
    requires i < |s|
  {
    s[i].nlink == |LinksTo(s, i)| && (s[i].kind.Free? ==> s[i].nlink == 0)
  }

  ghost predicate CountsOk(s: seq<Inode>) {
    forall i :: 0 <= i < |s| ==> InodeOk(s, i)
  }

  /** Empty but for "." and "..". */
  predicate OnlyDots(es: seq<Dirent>) {
    |es| >= 2 && forall k :: 2 <= k < |es| ==> es[k].inum == 0
  }

  /** A removed directory that somebody still holds has its dots and nothing else. */
  predicate RemovedOk(s: seq<Inode>, d: nat)
    requires d < |s|
  {
    s[d].kind.Dir? && s[d].nlink == 0 ==>
      OnlyDots(s[d].entries) && s[d].entries[0].inum == d && s[d].entries[1].inum != d && 0 < s[d].entries[1].inum < |s|
  }

  ghost predicate Inv(s: seq<Inode>) {
    && |s| > ROOTINO && s[0] == Inode(Free, 0, []) && DirsOk(s) && CountsOk(s)
    && forall d :: 0 <= d < |s| ==> RemovedOk(s, d)
  }

  // ---------------------------------------------------------------- the three changes

  /** dirlink's write: a free slot, or one more at the end. */
  function Put(es: seq<Dirent>, k: nat, e: Dirent): (r: seq<Dirent>)
    requires k <= |es|
  {
    if k < |es| then es[k := e] else es + [e]
  }

  /** create: the new inode with one link, and for a directory its two entries and a link more for dp. */
  function Created(s: seq<Inode>, dp: nat, k: nat, name: string, i: nat, kind: Kind): (r: seq<Inode>)
    requires dp < |s| && i < |s| && k <= |s[dp].entries|
  {
    s[i := Inode(kind, 1, if kind.Dir? then [Dirent(i, "."), Dirent(dp, "..")] else [])]
     [dp := Inode(s[dp].kind, s[dp].nlink + if kind.Dir? then 1 else 0, Put(s[dp].entries, k, Dirent(i, name)))]
  }

  /** sys_link. */
  function LinkAdded(s: seq<Inode>, ip: nat, dp: nat, k: nat, name: string): (r: seq<Inode>)
    requires dp < |s| && ip < |s| && k <= |s[dp].entries|
  {
    s[ip := s[ip].(nlink := s[ip].nlink + 1)]
     [dp := Inode(s[dp].kind, s[dp].nlink, Put(s[dp].entries, k, Dirent(ip, name)))]
  }

  /** sys_unlink. */
  function LinkDropped(s: seq<Inode>, ip: nat, dp: nat, k: nat): (r: seq<Inode>)
    requires dp < |s| && ip < |s| && k < |s[dp].entries| && s[ip].nlink > 0 && (s[ip].kind.Dir? ==> s[dp].nlink > 0)
  {
    s[ip := s[ip].(nlink := s[ip].nlink - 1)]
     [dp := Inode(s[dp].kind, s[dp].nlink - (if s[ip].kind.Dir? then 1 else 0), s[dp].entries[k := EMPTY])]
  }

  /** iput's last act on an inode without links. */
  function Reclaimed(s: seq<Inode>, i: nat): (r: seq<Inode>)
    requires i < |s|
  {
    s[i := Inode(Free, 0, [])]
  }

  /** The slot dirlink may use: the first free one, or the end. */
  predicate SlotFor(es: seq<Dirent>, k: nat) {
    k <= |es| && (k < |es| ==> es[k].inum == 0)
  }

  predicate NameFree(es: seq<Dirent>, name: string) {
    forall k :: 0 <= k < |es| && es[k].inum != 0 ==> es[k].name != name
  }

  // ---------------------------------------------------------------- create

  lemma CreatedLinks(s: seq<Inode>, dp: nat, k: nat, name: string, i: nat, kind: Kind, j: nat)
    requires LiveDir(s, dp) && SlotFor(s[dp].entries, k) && 0 < i < |s| && s[i].nlink == 0 && !kind.Free? && dp != i
      && 0 < dp
    ensures LinksTo(Created(s, dp, k, name, i, kind), j)
         == LinksTo(s, j) + (if j == i then {(dp, k)} else {}) + (if j == dp && kind.Dir? then {(i, 1)} else {})
  {}

  /** Where create may happen: a linked directory, a free slot of it, a free inode. */
  ghost predicate MayCreate(s: seq<Inode>, dp: nat, k: nat, i: nat, kind: Kind) {
    && LiveDir(s, dp) && SlotFor(s[dp].entries, k) && k >= 2 && 0 < i < |s| && s[i].nlink == 0 && !kind.Free? && dp != i
       && 0 < dp
  }

  lemma CreatedCount(s: seq<Inode>, dp: nat, k: nat, name: string, i: nat, kind: Kind, j: nat)
    requires MayCreate(s, dp, k, i, kind) && j < |s| && s[j].nlink == |LinksTo(s, j)|
    ensures var r := Created(s, dp, k, name, i, kind); r[j].nlink == |LinksTo(r, j)|
  {
    CreatedLinks(s, dp, k, name, i, kind, j);
    assert !IsLink(s, dp, k, i) && !IsLink(s, i, 1, dp);
    hide IsLink;
    assert (dp, k) !in LinksTo(s, i) && (i, 1) !in LinksTo(s, dp);
  }

  lemma CreatedDir(s: seq<Inode>, dp: nat, k: nat, name: string, i: nat, kind: Kind, d: nat)
    requires MayCreate(s, dp, k, i, kind) && LiveDir(Created(s, dp, k, name, i, kind), d)
    requires d != i ==> DirOk(s, d)
    ensures DirOk(Created(s, dp, k, name, i, kind), d)
  {}

  lemma PutKeepsUnique(es: seq<Dirent>, k: nat, e: Dirent)
    requires NamesUnique(es) && SlotFor(es, k) && NameFree(es, e.name)
    ensures NamesUnique(Put(es, k, e))
  {}

  lemma CreatedPlaceNew(s: seq<Inode>, dp: nat, k: nat, name: string, i: nat, kind: Kind)
    requires MayCreate(s, dp, k, i, kind) && i != ROOTINO && LinksTo(s, i) == {}
    requires kind.Dir?
    ensures PlaceOk(Created(s, dp, k, name, i, kind), i)
  {
    var r := Created(s, dp, k, name, i, kind);
    CreatedLinks(s, dp, k, name, i, kind, i);
    assert r[i].entries[1] == Dirent(dp, "..");
    hide IsLink;
    assert forall p: nat, l: nat :: IsLink(r, p, l, i) <==> (p, l) in LinksTo(r, i);
    assert (dp, k) in LinksTo(r, i);
  }

  lemma CreatedPlaceOld(s: seq<Inode>, dp: nat, k: nat, name: string, i: nat, kind: Kind, d: nat)
    requires MayCreate(s, dp, k, i, kind) && d < |s| && d != i && |s[d].entries| >= 2 && PlaceOk(s, d)
    ensures PlaceOk(Created(s, dp, k, name, i, kind), d)
  {
    var r := Created(s, dp, k, name, i, kind);
    CreatedLinks(s, dp, k, name, i, kind, d);
    assert r[d].entries[1] == s[d].entries[1];
    hide IsLink;
    assert forall p: nat, l: nat :: l >= 2 ==> (IsLink(r, p, l, d) <==> IsLink(s, p, l, d)) by {
      forall p: nat, l: nat | l >= 2 ensures IsLink(r, p, l, d) <==> IsLink(s, p, l, d) {
        assert IsLink(r, p, l, d) <==> (p, l) in LinksTo(r, d);
        assert IsLink(s, p, l, d) <==> (p, l) in LinksTo(s, d);
      }
    }
  }

  /** The invariant but for the counts. */
  ghost predicate Tidy(s: seq<Inode>) {
    && |s| > ROOTINO && s[0] == Inode(Free, 0, []) && DirsOk(s)
    && forall i :: 0 <= i < |s| && s[i].kind.Free? ==> s[i].nlink == 0
  }

  lemma InvIsTidy(s: seq<Inode>)
    requires Inv(s)
    ensures Tidy(s)
  {
    forall i | 0 <= i < |s| && s[i].kind.Free? ensures s[i].nlink == 0 { assert InodeOk(s, i); }
  }

  lemma SoundAnyCount(s: seq<Inode>, t: seq<Inode>, d: nat)
    requires Sound(s, d) && |s| == |t|
    requires forall i :: 0 <= i < |s| ==>
      s[i].kind == t[i].kind && s[i].entries == t[i].entries && (s[i].nlink > 0 <==> t[i].nlink > 0)
    requires forall e: nat, k: nat, j: nat :: IsLink(t, e, k, j) <==> IsLink(s, e, k, j)
    ensures Sound(t, d)
  {
    hide IsLink;
  }

  /** Nobody's entries depend on how many links a linked inode that is no directory has. */
  lemma CountKeepsTidy(s: seq<Inode>, i: nat, n: nat)
    requires Tidy(s) && i < |s| && s[i].nlink > 0 && !s[i].kind.Dir? && n > 0
    ensures Tidy(s[i := s[i].(nlink := n)])
  {
    var t := s[i := s[i].(nlink := n)];
    forall d: nat, k: nat, j: nat ensures IsLink(t, d, k, j) <==> IsLink(s, d, k, j) {}
    hide IsLink, Sound;
    forall d | 0 <= d < |t| && LiveDir(t, d) ensures Sound(t, d) { SoundAnyCount(s, t, d); }
  }

  /** What the invariant says of one directory. */
  lemma OfDir(s: seq<Inode>, d: nat)
    requires (Inv(s) || Tidy(s)) && LiveDir(s, d)
    ensures Sound(s, d) && DirOk(s, d) && NamesUnique(s[d].entries) && |s[d].entries| >= 2 && PlaceOk(s, d) && d != 0
    ensures s[d].entries[0] == Dirent(d, ".") && s[d].entries[1].inum != 0
  {}

  /** What it says of one inode. */
  lemma OfInode(s: seq<Inode>, i: nat)
    requires Inv(s) && i < |s|
    ensures InodeOk(s, i) && s[i].nlink == |LinksTo(s, i)| && (s[i].kind.Free? ==> s[i].nlink == 0)
      && (s[i].nlink == 0 ==> LinksTo(s, i) == {})
    ensures LiveDir(s, ROOTINO) && s[0] == Inode(Free, 0, []) && RemovedOk(s, i)
  {}

  lemma CreateIsPossible(s: seq<Inode>, dp: nat, k: nat, i: nat, kind: Kind)
    requires Inv(s) && LiveDir(s, dp) && SlotFor(s[dp].entries, k) && 0 < i < |s| && s[i].kind.Free? && !kind.Free?
    ensures MayCreate(s, dp, k, i, kind) && LinksTo(s, i) == {} && i != ROOTINO
  {
    hide Inv, Sound, DirOk, PlaceOk, NamesUnique, LinksTo, IsLink;
    OfDir(s, dp);
    OfInode(s, i);
  }

  lemma InvFrom(r: seq<Inode>)
    requires |r| > ROOTINO && r[0] == Inode(Free, 0, []) && LiveDir(r, ROOTINO)
    requires forall j :: 0 <= j < |r| ==> InodeOk(r, j)
    requires forall d :: 0 <= d < |r| && LiveDir(r, d) ==> Sound(r, d)
    requires forall d :: 0 <= d < |r| ==> RemovedOk(r, d)
    ensures Inv(r)
  {}

  lemma TwoNames(a: Dirent, b: Dirent)
    requires a.name != b.name
    ensures NamesUnique([a, b])
  {}

  lemma CreatedDirIsOk(s: seq<Inode>, dp: nat, k: nat, name: string, i: nat, kind: Kind, d: nat)
    requires Inv(s) && MayCreate(s, dp, k, i, kind) && i != ROOTINO && LinksTo(s, i) == {}
      && NameFree(s[dp].entries, name)
    requires LiveDir(Created(s, dp, k, name, i, kind), d)
    ensures Sound(Created(s, dp, k, name, i, kind), d)
  {
    hide IsLink, DirOk, PlaceOk, NamesUnique, Inv, LinksTo;
    if d != i { OfDir(s, d); }
    CreatedDir(s, dp, k, name, i, kind, d);
    if d == i {
      CreatedPlaceNew(s, dp, k, name, i, kind);
      TwoNames(Dirent(i, "."), Dirent(dp, ".."));
    } else {
      CreatedPlaceOld(s, dp, k, name, i, kind, d);
      if d == dp { PutKeepsUnique(s[dp].entries, k, Dirent(i, name)); }
    }
  }

  /** create of a name not there yet, in a directory still linked. */
  lemma CreateKeeps(s: seq<Inode>, dp: nat, k: nat, name: string, i: nat, kind: Kind)
    requires Inv(s) && LiveDir(s, dp) && SlotFor(s[dp].entries, k) && 0 < i < |s| && s[i].kind.Free? && !kind.Free?
    requires NameFree(s[dp].entries, name)
    ensures Inv(Created(s, dp, k, name, i, kind))
  {
    hide IsLink, Sound, Inv, LinksTo, NameFree;
    CreateIsPossible(s, dp, k, i, kind);
    OfInode(s, i);
    var r := Created(s, dp, k, name, i, kind);
    forall j | 0 <= j < |r| ensures InodeOk(r, j) && RemovedOk(r, j) {
      OfInode(s, j);
      CreatedCount(s, dp, k, name, i, kind, j);
    }
    forall d | 0 <= d < |r| && LiveDir(r, d) ensures Sound(r, d) {
      CreatedDirIsOk(s, dp, k, name, i, kind, d);
    }
    InvFrom(r);
  }

  // ---------------------------------------------------------------- link

  ghost predicate MayLink(s: seq<Inode>, ip: nat, dp: nat, k: nat) {
    LiveDir(s, dp) && SlotFor(s[dp].entries, k) && k >= 2 && 0 < ip < |s| && s[ip].nlink > 0 && !s[ip].kind.Dir?
      && !s[ip].kind.Free?
  }

  lemma AddedLinks(s: seq<Inode>, ip: nat, dp: nat, k: nat, name: string, j: nat)
    requires MayLink(s, ip, dp, k)
    ensures LinksTo(LinkAdded(s, ip, dp, k, name), j) == LinksTo(s, j) + (if j == ip then {(dp, k)} else {})
  {}

  lemma AddedDir(s: seq<Inode>, ip: nat, dp: nat, k: nat, name: string, d: nat)
    requires MayLink(s, ip, dp, k) && LiveDir(s, d) && Sound(s, d) && NameFree(s[dp].entries, name)
    ensures Sound(LinkAdded(s, ip, dp, k, name), d)
  {
    var r := LinkAdded(s, ip, dp, k, name);
    AddedLinks(s, ip, dp, k, name, d);
    assert DirOk(r, d) by {
      forall l | 0 <= l < |r[d].entries| && r[d].entries[l].inum != 0
        ensures r[d].entries[l].inum < |r| && r[r[d].entries[l].inum].nlink > 0 {
        if !(d == dp && l == k) { assert r[d].entries[l] == s[d].entries[l]; }
      }
    }
    if d == dp { PutKeepsUnique(s[dp].entries, k, Dirent(ip, name)); }
    hide IsLink;
    forall p: nat, l: nat ensures IsLink(r, p, l, d) <==> IsLink(s, p, l, d) {
      assert (p, l) in LinksTo(r, d) <==> (p, l) in LinksTo(s, d);
    }
  }

  lemma FreeSlotIsNoLink(s: seq<Inode>, i: nat, dp: nat, k: nat)
    requires LiveDir(s, dp) && SlotFor(s[dp].entries, k)
    ensures (dp, k) !in LinksTo(s, i)
  {}

  /** sys_link of a new name in a directory still linked. */
  lemma LinkKeeps(s: seq<Inode>, ip: nat, dp: nat, k: nat, name: string)
    requires Inv(s) && LiveDir(s, dp) && SlotFor(s[dp].entries, k) && ip < |s| && s[ip].nlink > 0 && !s[ip].kind.Dir?
    requires NameFree(s[dp].entries, name)
    ensures Inv(LinkAdded(s, ip, dp, k, name))
  {
    hide IsLink, Sound, Inv, LinksTo, NameFree;
    OfDir(s, dp);
    OfInode(s, ip);
    var r := LinkAdded(s, ip, dp, k, name);
    assert MayLink(s, ip, dp, k);
    forall j | 0 <= j < |r| ensures InodeOk(r, j) && RemovedOk(r, j) {
      OfInode(s, j);
      AddedLinks(s, ip, dp, k, name, j);
      FreeSlotIsNoLink(s, ip, dp, k);
    }
    forall d | 0 <= d < |r| && LiveDir(r, d) ensures Sound(r, d) {
      OfDir(s, d);
      AddedDir(s, ip, dp, k, name, d);
    }
    InvFrom(r);
  }

  // ---------------------------------------------------------------- unlink

  /** Slot k of dp names ip under a name other than the dots; a directory must be empty. */
  ghost predicate MayUnlink(s: seq<Inode>, ip: nat, dp: nat, k: nat) {
    && LiveDir(s, dp) && 2 <= k < |s[dp].entries| && 0 < ip < |s| && s[dp].entries[k].inum == ip && s[ip].nlink > 0
    && ip != dp && (s[ip].kind.Dir? ==> OnlyDots(s[ip].entries))
  }

  /** The directory that p's ".." names holds p's entry, so it is not empty; the root's is the root. */
  lemma ParentHoldsChild(s: seq<Inode>, p: nat)
    requires Inv(s) && LiveDir(s, p)
    ensures |s[p].entries| >= 2 && s[p].entries[1].inum < |s|
    ensures s[p].entries[1].inum == ROOTINO || !OnlyDots(s[s[p].entries[1].inum].entries)
  {}

  lemma OnlyOneLink(s: seq<Inode>, ip: nat, dp: nat, k: nat, p: nat, l: nat)
    requires Inv(s) && MayUnlink(s, ip, dp, k) && s[ip].kind.Dir? && IsLink(s, p, l, ip)
    ensures p == dp && l == k
  {
    hide Inv;
    assert IsLink(s, dp, k, ip);
    OfDir(s, ip);
    OfDir(s, p);
    ParentHoldsChild(s, p);
    assert l != 1;
  }

  lemma TwoIn<T>(a: set<T>, x: T, y: T)
    requires x in a && y in a && x != y
    ensures |a| >= 2
  {
    assert |a - {x}| >= 1 by { assert y in a - {x}; }
  }

  /** dp is named by ip's ".." and by its own entry, or for the root by its own "..". */
  lemma TwoLinks(s: seq<Inode>, ip: nat, dp: nat)
    requires Inv(s) && LiveDir(s, dp) && LiveDir(s, ip) && ip != dp && s[ip].entries != [] && |s[ip].entries| >= 2
      && s[ip].entries[1].inum == dp
    ensures s[dp].nlink >= 2
  {
    hide Inv;
    OfDir(s, dp);
    OfInode(s, dp);
    assert IsLink(s, ip, 1, dp);
    var q: (nat, nat);
    if dp == ROOTINO {
      assert IsLink(s, dp, 1, dp);
      q := (dp, 1);
    } else {
      var m :| m >= 2 && IsLink(s, s[dp].entries[1].inum, m, dp);
      q := (s[dp].entries[1].inum, m);
    }
    assert q in LinksTo(s, dp) && (ip, 1) in LinksTo(s, dp) && q != (ip, 1);
    TwoIn(LinksTo(s, dp), q, (ip, 1));
  }

  /** An empty directory is named by its one entry only, and its ".." by that entry's directory, which
      stays linked without it. */
  lemma EmptyDirLinks(s: seq<Inode>, ip: nat, dp: nat, k: nat)
    requires Inv(s) && MayUnlink(s, ip, dp, k) && s[ip].kind.Dir?
    ensures LinksTo(s, ip) == {(dp, k)} && s[ip].nlink == 1 && s[ip].entries[1].inum == dp && s[dp].nlink >= 2
    ensures s[ip].entries[0].inum == ip && ip != ROOTINO
  {
    assert IsLink(s, dp, k, ip);
    OfDir(s, ip);
    OfInode(s, ip);
    forall p: nat, l: nat ensures (p, l) in LinksTo(s, ip) <==> p == dp && l == k {
      if (p, l) in LinksTo(s, ip) { OnlyOneLink(s, ip, dp, k, p, l); }
    }
    TwoLinks(s, ip, dp);
  }

  /** MayUnlink, and for a directory what EmptyDirLinks adds. */
  ghost predicate CanDrop(s: seq<Inode>, ip: nat, dp: nat, k: nat) {
    && MayUnlink(s, ip, dp, k)
    && (s[ip].kind.Dir? ==>
       s[ip].nlink == 1 && s[ip].entries[1].inum == dp && s[dp].nlink >= 2 && s[ip].entries[0].inum == ip)
  }

  lemma DroppedLinks(s: seq<Inode>, ip: nat, dp: nat, k: nat, j: nat)
    requires CanDrop(s, ip, dp, k)
    ensures LinksTo(LinkDropped(s, ip, dp, k), j)
         == LinksTo(s, j) - (if j == ip then {(dp, k)} else {}) - (if j == dp && s[ip].kind.Dir? then {(ip, 1)} else {})
  {}

  lemma DroppedInode(s: seq<Inode>, ip: nat, dp: nat, k: nat, j: nat)
    requires CanDrop(s, ip, dp, k) && j < |s| && InodeOk(s, j) && RemovedOk(s, j) && 0 < dp
    ensures InodeOk(LinkDropped(s, ip, dp, k), j) && RemovedOk(LinkDropped(s, ip, dp, k), j)
  {
    DroppedLinks(s, ip, dp, k, j);
    assert IsLink(s, dp, k, ip);
    assert s[ip].kind.Dir? ==> IsLink(s, ip, 1, dp);
    hide IsLink;
    assert (dp, k) in LinksTo(s, ip) && (s[ip].kind.Dir? ==> (ip, 1) in LinksTo(s, dp));
  }

  lemma DroppedDir(s: seq<Inode>, ip: nat, dp: nat, k: nat, d: nat)
    requires CanDrop(s, ip, dp, k) && LiveDir(s, d) && Sound(s, d) && LiveDir(LinkDropped(s, ip, dp, k), d)
    requires InodeOk(LinkDropped(s, ip, dp, k), ip) && ip != d
    requires s[ip].kind.Dir? ==> s[d].entries[1].inum != ip
    ensures Sound(LinkDropped(s, ip, dp, k), d)
  {
    var r := LinkDropped(s, ip, dp, k);
    assert NamesUnique(r[d].entries);
    assert r[d].entries[0] == s[d].entries[0] && r[d].entries[1] == s[d].entries[1];
    assert DirOk(r, d) by {
      forall l | 0 <= l < |r[d].entries| && r[d].entries[l].inum != 0
        ensures r[d].entries[l].inum < |r| && r[r[d].entries[l].inum].nlink > 0 {
        assert r[d].entries[l] == s[d].entries[l];
        if r[d].entries[l].inum == ip { assert (d, l) in LinksTo(r, ip); }
      }
    }
    DroppedLinks(s, ip, dp, k, d);
    hide IsLink, DirOk, NamesUnique;
    forall p: nat, l: nat | l >= 2 ensures IsLink(r, p, l, d) <==> IsLink(s, p, l, d) {
      assert (p, l) in LinksTo(r, d) <==> (p, l) in LinksTo(s, d);
    }
  }

  /** sys_unlink of a name other than the dots, in a directory still linked. */
  lemma UnlinkKeeps(s: seq<Inode>, ip: nat, dp: nat, k: nat)
    requires Inv(s) && MayUnlink(s, ip, dp, k)
    ensures (s[ip].kind.Dir? ==> s[ip].nlink == 1) && Inv(LinkDropped(s, ip, dp, k))
  {
    hide IsLink, Sound, Inv, LinksTo;
    OfDir(s, dp);
    OfInode(s, ip);
    if s[ip].kind.Dir? { EmptyDirLinks(s, ip, dp, k); }
    var r := LinkDropped(s, ip, dp, k);
    forall j | 0 <= j < |r| ensures InodeOk(r, j) && RemovedOk(r, j) {
      OfInode(s, j);
      DroppedInode(s, ip, dp, k, j);
    }
    forall d | 0 <= d < |r| && LiveDir(r, d) ensures Sound(r, d) {
      OfDir(s, d);
      if s[ip].kind.Dir? { ParentHoldsChild(s, d); }
      DroppedDir(s, ip, dp, k, d);
    }
    InvFrom(r);
  }

  lemma ReclaimedDir(s: seq<Inode>, i: nat, d: nat)
    requires i < |s| && s[i].nlink == 0 && LiveDir(s, d) && Sound(s, d)
    requires LinksTo(Reclaimed(s, i), d) == LinksTo(s, d)
    ensures Sound(Reclaimed(s, i), d)
  {}

  /** iput of an inode without links that nobody holds. */
  lemma ReclaimKeeps(s: seq<Inode>, i: nat)
    requires Inv(s) && 0 < i < |s| && s[i].nlink == 0
    ensures Inv(Reclaimed(s, i))
  {
    var r := Reclaimed(s, i);
    assert forall d :: LiveDir(r, d) <==> LiveDir(s, d);
    forall j: nat ensures LinksTo(r, j) == LinksTo(s, j) {
      forall d: nat, l: nat ensures (d, l) in LinksTo(r, j) <==> (d, l) in LinksTo(s, j) {}
    }
    hide IsLink, Sound, Inv;
    forall j | 0 <= j < |r| ensures InodeOk(r, j) && RemovedOk(r, j) { OfInode(s, j); }
    forall d | 0 <= d < |r| && LiveDir(r, d) ensures Sound(r, d) {
      OfDir(s, d);
      ReclaimedDir(s, i, d);
    }
    OfInode(s, 0);
    InvFrom(r);
  }

  // ---------------------------------------------------------------- removed parents

  /** In a removed directory that is still held, a link adds to nlink and to no linked directory. */
  lemma LinkInRemoved(s: seq<Inode>, ip: nat, dp: nat, k: nat, name: string)
    requires Inv(s) && dp < |s| && s[dp].kind.Dir? && s[dp].nlink == 0 && SlotFor(s[dp].entries, k)
    requires ip < |s| && s[ip].nlink > 0 && !s[ip].kind.Dir?
    ensures !Inv(LinkAdded(s, ip, dp, k, name))
  {
    var r := LinkAdded(s, ip, dp, k, name);
    forall d: nat, l: nat ensures IsLink(r, d, l, ip) <==> IsLink(s, d, l, ip) {}
    assert LinksTo(r, ip) == LinksTo(s, ip);
    hide IsLink, DirsOk;
    OfInode(s, ip);
    assert !InodeOk(r, ip);
  }

  lemma NotInv(r: seq<Inode>, j: nat)
    requires j < |r| && !InodeOk(r, j)
    ensures !Inv(r)
  {}

  lemma MoreLinks<T>(a: set<T>, b: set<T>, x: T)
    requires a <= b && x in b && x !in a
    ensures |b| > |a|
  {
    assert a <= b - {x};
    SubsetSize(a, b - {x});
  }

  /** A new file there has one link by its count and none by the directories. */
  lemma FileInRemoved(s: seq<Inode>, dp: nat, k: nat, name: string, i: nat, kind: Kind)
    requires dp < |s| && s[dp].nlink == 0 && SlotFor(s[dp].entries, k) && i < |s| && s[i].nlink == 0 && !kind.Dir?
      && dp != i
    requires LinksTo(s, i) == {}
    ensures LinksTo(Created(s, dp, k, name, i, kind), i) == {}
  {}

  /** A new directory there makes dp count as linked again, and with it dp's ".." that nobody counted. */
  lemma DirInRemoved(s: seq<Inode>, dp: nat, k: nat, name: string, i: nat)
    requires 0 < dp < |s| && s[dp].kind.Dir? && s[dp].nlink == 0 && SlotFor(s[dp].entries, k) && 0 < i < |s|
      && s[i].nlink == 0 && dp != i
    requires RemovedOk(s, dp)
    ensures var r, p := Created(s, dp, k, name, i, Dir), s[dp].entries[1].inum;
      (dp, 1) in LinksTo(r, p) && (dp, 1) !in LinksTo(s, p) && LinksTo(s, p) <= LinksTo(r, p)
        && (dp, k) in LinksTo(r, i) && k >= 2
  {}

  lemma CreateInRemoved(s: seq<Inode>, dp: nat, k: nat, name: string, i: nat, kind: Kind)
    requires Inv(s) && dp < |s| && s[dp].kind.Dir? && s[dp].nlink == 0 && SlotFor(s[dp].entries, k)
    requires 0 < i < |s| && s[i].kind.Free? && !kind.Free?
    ensures !Inv(Created(s, dp, k, name, i, kind))
  {
    hide Inv, IsLink;
    OfInode(s, i);
    OfInode(s, dp);
    var r, p := Created(s, dp, k, name, i, kind), s[dp].entries[1].inum;
    if kind.Dir? {
      OfInode(s, p);
      DirInRemoved(s, dp, k, name, i);
      if p == i {
        assert (dp, 1) in LinksTo(r, i) && (dp, k) in LinksTo(r, i) && k != 1;
        TwoIn(LinksTo(r, i), (dp, 1), (dp, k));
      } else {
        MoreLinks(LinksTo(s, p), LinksTo(r, p), (dp, 1));
      }
      assert !InodeOk(r, p);
      NotInv(r, p);
    } else {
      FileInRemoved(s, dp, k, name, i, kind);
      assert !InodeOk(r, i);
      NotInv(r, i);
    }
  }

  /** create keeps the law exactly when the parent is still linked. */
  lemma CreateKeepsIff(s: seq<Inode>, dp: nat, k: nat, name: string, i: nat, kind: Kind)
    requires Inv(s) && dp < |s| && s[dp].kind.Dir? && SlotFor(s[dp].entries, k) && NameFree(s[dp].entries, name)
    requires 0 < i < |s| && s[i].kind.Free? && !kind.Free?
    ensures Inv(Created(s, dp, k, name, i, kind)) <==> s[dp].nlink > 0
  {
    if s[dp].nlink > 0 { CreateKeeps(s, dp, k, name, i, kind); } else { CreateInRemoved(s, dp, k, name, i, kind); }
  }

  /** So does sys_link. */
  lemma LinkKeepsIff(s: seq<Inode>, ip: nat, dp: nat, k: nat, name: string)
    requires Inv(s) && dp < |s| && s[dp].kind.Dir? && SlotFor(s[dp].entries, k) && NameFree(s[dp].entries, name)
    requires ip < |s| && s[ip].nlink > 0 && !s[ip].kind.Dir?
    ensures Inv(LinkAdded(s, ip, dp, k, name)) <==> s[dp].nlink > 0
  {
    if s[dp].nlink > 0 { LinkKeeps(s, ip, dp, k, name); } else { LinkInRemoved(s, ip, dp, k, name); }
  }

  /** The file system mkfs makes. */
  lemma RootAlone(s: seq<Inode>)
    requires |s| > ROOTINO && s[ROOTINO] == Inode(Dir, 1, [Dirent(ROOTINO, "."), Dirent(ROOTINO, "..")])
    requires forall i :: 0 <= i < |s| && i != ROOTINO ==> s[i] == Inode(Free, 0, [])
    ensures Inv(s)
  {
    forall i | 0 <= i < |s| ensures InodeOk(s, i) {
      assert forall d: nat, k: nat :: IsLink(s, d, k, i) <==> i == ROOTINO && d == ROOTINO && k == 1;
      assert LinksTo(s, i) == if i == ROOTINO then {(ROOTINO, 1)} else {};
    }
    assert Sound(s, ROOTINO);
    InvFrom(s);
  }
}
