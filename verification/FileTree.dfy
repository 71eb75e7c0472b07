/** sysfile.c's create, sys_link and sys_unlink with fs.c's directory operations, one system call at a
    time over the inodes in memory. */
module FileTree {
  import opened Wrappers
  import opened Links
  import opened Paths

  const MAXENTRIES: nat := 4480     // MAXFILE * BSIZE / sizeof(struct dirent)

  datatype Outcome = Done | Refused | Panic
  datatype Made = New(inum: nat) | Existing(inum: nat) | NotMade | NoRoom

  lemma ParentStep(s: seq<Inode>, i: nat, names: seq<string>)
    requires |names| >= 2
    ensures Parent(s, i, names) ==
      if i < |s| && s[i].kind.Dir? && Slot(s[i].entries, names[0]).Some?
      then Parent(s, s[i].entries[Slot(s[i].entries, names[0]).value].inum, names[1..]) else None
  {
    assert names[..|names| - 1][0] == names[0];
    assert names[..|names| - 1][1..] == names[1..][..|names| - 2];
  }

  lemma SlotFrom(es: seq<Dirent>, k: nat, name: string)
    requires k < |es|
    ensures Slot(es[k..], name) == if es[k].inum != 0 && es[k].name == name then Some(0)
            else match Slot(es[k + 1..], name) case Some(l) => Some(l + 1) case None => None
  {}

  /** Walks do not read link counts. */
  lemma WalkAnyCount(s: seq<Inode>, t: seq<Inode>, start: nat, e: seq<string>)
    requires |s| == |t| && forall i :: 0 <= i < |s| ==> s[i].kind == t[i].kind && s[i].entries == t[i].entries
    ensures Walk(t, start, e) == Walk(s, start, e) && Parent(t, start, e) == Parent(s, start, e)
  {
    WalkStays(s, t, start, e);
    WalkStays(t, s, start, e);
    if e != [] {
      WalkStays(s, t, start, e[..|e| - 1]);
      WalkStays(t, s, start, e[..|e| - 1]);
    }
  }

  /** Only these two inodes may differ. */
  ghost predicate OthersSame(s: seq<Inode>, r: seq<Inode>, a: nat, b: nat) {
    |s| == |r| && forall i :: 0 <= i < |s| && i != a && i != b ==> r[i] == s[i]
  }

  /** The directory of the path's last element has that name for inode i, so many links more, and is
      otherwise as it was. */
  ghost predicate NameAdded(s: seq<Inode>, r: seq<Inode>, start: nat, e: seq<string>, i: nat, links: nat) {
    && e != [] && Parent(s, start, e).Some?
    && var dp := Parent(s, start, e).value;
    && dp < |s| && dp < |r| && NamesPlus(s, r, dp, e[|e| - 1], i)
    && r[dp].kind == s[dp].kind && r[dp].nlink == s[dp].nlink + links
  }

  /** The reverse. */
  ghost predicate NameRemoved(s: seq<Inode>, t: seq<Inode>, start: nat, e: seq<string>, i: nat, links: nat) {
    && e != [] && Parent(s, start, e).Some?
    && var dp := Parent(s, start, e).value;
    && dp < |s| && dp < |t| && NamesPlus(t, s, dp, e[|e| - 1], i)
    && t[dp].kind == s[dp].kind && t[dp].nlink + links == s[dp].nlink
  }

  /** Inode 0 is never linked. */
  lemma NotZero(s: seq<Inode>, ip: nat)
    requires Inv(s) && ip < |s| && s[ip].nlink > 0
    ensures ip != 0
  {
    OfInode(s, ip);
  }

  lemma CreateDone(s: seq<Inode>, dp: nat, k: nat, name: string, i: nat, kind: Kind, start: nat, e: seq<string>)
    requires Inv(s) && LiveDir(s, dp) && SlotFor(s[dp].entries, k) && 0 < i < |s| && s[i].kind.Free? && !kind.Free?
    requires NameFree(s[dp].entries, name) && e != [] && Parent(s, start, e) == Some(dp) && name == e[|e| - 1]
    ensures var r := Created(s, dp, k, name, i, kind);
      && Inv(r) && Walk(s, start, e) == None && Walk(r, start, e) == Some(i)
      && PathsKept(s, r, start) && OthersSame(s, r, i, dp)
      && r[i] == Inode(kind, 1, if kind.Dir? then [Dirent(i, "."), Dirent(dp, "..")] else [])
      && NameAdded(s, r, start, e, i, if kind.Dir? then 1 else 0)
  {
    hide Inv;
    PutNames(s, Created(s, dp, k, name, i, kind), dp, k, name, i);
    var names := e[..|e| - 1];
    assert e == names + [name];
    OfDir(s, dp);
    OfInode(s, i);
    CreateKeeps(s, dp, k, name, i, kind);
    CreatedPath(s, dp, k, name, i, kind, start, names);
    WalkSplits(s, start, names, name);
    WalkByName(s, dp, [name]);
  }

  /** What sys_unlink leaves: dropped, and reclaimed if that was the last link and nobody holds it. */
  function Unlinked(s: seq<Inode>, ip: nat, dp: nat, k: nat, held: bool): (t: seq<Inode>)
    requires dp < |s| && ip < |s| && k < |s[dp].entries| && s[ip].nlink > 0 && (s[ip].kind.Dir? ==> s[dp].nlink > 0)
  {
    if s[ip].nlink == 1 && !held then Reclaimed(LinkDropped(s, ip, dp, k), ip) else LinkDropped(s, ip, dp, k)
  }

  lemma UnlinkDone(s: seq<Inode>, ip: nat, dp: nat, k: nat, held: bool, name: string, start: nat, e: seq<string>)
    requires Inv(s) && MayUnlink(s, ip, dp, k) && s[dp].entries[k].name == name
    requires e != [] && Parent(s, start, e) == Some(dp) && name == e[|e| - 1]
    ensures var t := Unlinked(s, ip, dp, k, held);
      && Inv(t) && Walk(t, start, e) == None && PathsKept(t, s, start) && OthersSame(s, t, ip, dp)
      && NameRemoved(s, t, start, e, ip, if s[ip].kind.Dir? then 1 else 0)
      && t[ip] == if s[ip].nlink == 1 && !held then Inode(Free, 0, []) else s[ip].(nlink := s[ip].nlink - 1)
  {
    hide Inv;
    var names := e[..|e| - 1];
    assert e == names + [name];
    OfDir(s, dp);
    UnlinkKeeps(s, ip, dp, k);
    var t := LinkDropped(s, ip, dp, k);
    if t[ip].nlink == 0 { ReclaimKeeps(t, ip); }
    ClearedNames(s, Unlinked(s, ip, dp, k, held), dp, k, name, ip);
    UnlinkedPath(s, ip, dp, k, start, names, name, Unlinked(s, ip, dp, k, held));
  }

  lemma LinkDone(s: seq<Inode>, ip: nat, dp: nat, k: nat, name: string, start: nat, e: seq<string>)
    requires Inv(s) && LiveDir(s, dp) && SlotFor(s[dp].entries, k) && ip < |s| && s[ip].nlink > 0 && !s[ip].kind.Dir?
    requires NameFree(s[dp].entries, name) && e != [] && Parent(s, start, e) == Some(dp) && name == e[|e| - 1]
    ensures var r := LinkAdded(s, ip, dp, k, name);
      && Inv(r) && Walk(s, start, e) == None && Walk(r, start, e) == Some(ip)
      && PathsKept(s, r, start) && OthersSame(s, r, ip, dp) && r[ip] == s[ip].(nlink := s[ip].nlink + 1)
      && NameAdded(s, r, start, e, ip, 0)
  {
    hide Inv;
    NotZero(s, ip);
    PutNames(s, LinkAdded(s, ip, dp, k, name), dp, k, name, ip);
    ghost var names := e[..|e| - 1];
    assert e == names + [name];
    OfInode(s, ip);
    LinkKeeps(s, ip, dp, k, name);
    LinkedPath(s, ip, dp, k, name, start, names);
    WalkSplits(s, start, names, name);
    WalkByName(s, dp, [name]);
  }

  lemma UnlinkIsPossible(s: seq<Inode>, ip: nat, dp: nat, k: nat, name: string)
    requires Inv(s) && LiveDir(s, dp) && k < |s[dp].entries| && s[dp].entries[k] == Dirent(ip, name) && name != "."
      && name != ".."
    requires ip != 0 && ip < |s| && s[ip].nlink > 0 && (s[ip].kind.Dir? ==> OnlyDots(s[ip].entries))
    ensures MayUnlink(s, ip, dp, k)
  {}

  /** No slot that a write could still reach. */
  predicate Full(es: seq<Dirent>) {
    |es| >= MAXENTRIES && forall l :: 0 <= l < MAXENTRIES ==> es[l].inum != 0
  }

  predicate NoFreeInode(s: seq<Inode>) { forall i :: 1 <= i < |s| ==> !s[i].kind.Free? }

  /** ialloc scans upwards from inode 1. */
  predicate FirstFreeInode(s: seq<Inode>, i: nat) {
    1 <= i < |s| && s[i].kind.Free? && forall j :: 1 <= j < i ==> !s[j].kind.Free?
  }

  /** The new name's directory exists, and the name is not in it. */
  predicate Fresh(s: seq<Inode>, start: nat, e: seq<string>) {
    Parent(s, start, e).Some? && Parent(s, start, e).value < |s| && Walk(s, start, e) == None
  }

  /** The old path leads to something other than a directory. */
  predicate Linkable(s: seq<Inode>, ip: Option<nat>) { ip.Some? && ip.value < |s| && !s[ip.value].kind.Dir? }

  class Tree {
    const inodes: array<Inode>
    var held: set<nat>                // inodes referenced outside the call under way

    ghost predicate Valid()
      reads inodes
    {
      Inv(inodes[..])
    }

    /** mkfs: a root directory and free inodes. */
    constructor (ninodes: nat)
      requires ninodes > ROOTINO
      ensures Valid() && fresh(inodes) && held == {} && inodes.Length == ninodes
    {
      var root := Inode(Dir, 1, [Dirent(ROOTINO, "."), Dirent(ROOTINO, "..")]);
      inodes := new Inode[ninodes](i => if i == ROOTINO then root else Inode(Free, 0, []));
      held := {};
      new;
      RootAlone(inodes[..]);
    }

    /** dirlookup; other than a directory is its panic. */
    method Dirlookup(dp: nat, name: string) returns (off: Option<nat>)
      requires dp < inodes.Length && inodes[dp].kind.Dir?
      ensures off == Slot(inodes[dp].entries, name)
    {
      var es := inodes[dp].entries;
      var k := 0;
      while k < |es|
        invariant k <= |es|
        invariant Slot(es, name) == match Slot(es[k..], name) case Some(l) => Some(k + l) case None => None
      {
        SlotFrom(es, k, name);
        if es[k].inum != 0 && es[k].name == name { return Some(k); }
        k := k + 1;
      }
      return None;
    }

    /** dirlink. */
    method Dirlink(dp: nat, name: string, inum: nat) returns (r: Outcome, ghost k: nat)
      requires dp < inodes.Length && inodes[dp].kind.Dir? && inum != 0
      modifies inodes
      ensures r.Refused? <==> !NameFree(old(inodes[dp].entries), name)
      ensures !r.Done? ==> inodes[..] == old(inodes[..])
      ensures r.Panic? <==> NameFree(old(inodes[dp].entries), name) && Full(old(inodes[dp].entries))
      ensures r.Done? ==> SlotFor(old(inodes[dp].entries), k)
                          && forall l :: 0 <= l < k ==> old(inodes[dp].entries)[l].inum != 0
      ensures r.Done? ==>
        inodes[..] == old(inodes[..])[dp := old(inodes[dp]).(entries :=
          Put(old(inodes[dp].entries), k, Dirent(inum, name)))]
    {
      var found := Dirlookup(dp, name);
      if found.Some? { return Refused, 0; }
      var es := inodes[dp].entries;
      var off := 0;
      while off < |es| && es[off].inum != 0
        invariant off <= |es| && forall l :: 0 <= l < off ==> es[l].inum != 0
      {
        off := off + 1;
      }
      if off >= MAXENTRIES { return Panic, 0; }
      inodes[dp] := inodes[dp].(entries := Put(es, off, Dirent(inum, name)));
      return Done, off;
    }

    /** isdirempty. */
    method Isdirempty(dp: nat) returns (empty: bool)
      requires dp < inodes.Length && |inodes[dp].entries| >= 2
      ensures empty <==> OnlyDots(inodes[dp].entries)
    {
      var es := inodes[dp].entries;
      var k := 2;
      while k < |es|
        invariant 2 <= k <= |es| && forall l :: 2 <= l < k ==> es[l].inum == 0
      {
        if es[k].inum != 0 { return false; }
        k := k + 1;
      }
      return true;
    }

    /** namex: the walk of the path from a linked inode, to its end or to the parent of its last element.
        No inode on the way is a freed one (ilock's panic). */
    method Namex(start: nat, path: string, parent: bool) returns (r: Option<nat>, name: string)
      requires Tidy(inodes[..]) && start < inodes.Length && inodes[start].nlink > 0
      ensures !parent ==> r == Walk(inodes[..], start, Elements(path))
      ensures parent ==> r == Parent(inodes[..], start, Elements(path))
      ensures parent && r.Some? ==> Elements(path) != [] && name == Elements(path)[|Elements(path)| - 1]
    {
      ghost var s, e := inodes[..], Elements(path);
      var ip: nat, rest := start, path;
      name := "";
      while true
        invariant ip < |s| && s[ip].nlink > 0
        invariant Walk(s, ip, Elements(rest)) == Walk(s, start, e)
          && (parent ==> Parent(s, ip, Elements(rest)) == Parent(s, start, e))
        invariant Elements(rest) != [] ==> e != [] && Elements(rest)[|Elements(rest)| - 1] == e[|e| - 1]
        decreases |rest|
      {
        var next := Skipelem(rest);
        if next.None? { break; }
        ghost var names := Elements(rest);
        name, rest := next.value.0, next.value.1;
        assert !inodes[ip].kind.Free?;
        if !inodes[ip].kind.Dir? {
          if |names| >= 2 { ParentStep(s, ip, names); }
          return None, name;
        }
        if parent && rest == "" { return Some(ip), name; }
        if |names| >= 2 { ParentStep(s, ip, names); }
        var off := Dirlookup(ip, name);
        if off.None? { return None, name; }
        OfDir(s, ip);
        ip := inodes[ip].entries[off.value].inum;
      }
      if parent { return None, name; }
      return Some(ip), name;
    }

    /** ialloc: the first free inode, or None for its panic. */
    method Ialloc(kind: Kind) returns (r: Option<nat>)
      requires !kind.Free?
      modifies inodes
      ensures r.None? ==> inodes[..] == old(inodes[..]) && NoFreeInode(inodes[..])
      ensures r.Some? ==>
        FirstFreeInode(old(inodes[..]), r.value) && inodes[..] == old(inodes[..])[r.value := Inode(kind, 0, [])]
    {
      var inum := 1;
      while inum < inodes.Length
        invariant forall i :: 1 <= i < inum && i < inodes.Length ==> !inodes[i].kind.Free?
        invariant inodes[..] == old(inodes[..]) && 1 <= inum
      {
        if inodes[inum].kind.Free? {
          inodes[inum] := Inode(kind, 0, []);
          return Some(inum);
        }
        inum := inum + 1;
      }
      return None;
    }

    /** The on-disk part of iput: an inode without links that nobody else holds is freed. */
    method Iput(i: nat)
      requires i < inodes.Length
      modifies inodes
      ensures inodes[..] == if old(inodes[i]).nlink == 0 && i !in held then Reclaimed(old(inodes[..]), i)
        else old(inodes[..])
    {
      if inodes[i].nlink == 0 && i !in held {
        inodes[i] := Inode(Free, 0, []);
      }
    }

    /** The entries of a new directory, and dp's link more. */
    method MakeDots(ip: nat, dp: nat)
      requires ip < inodes.Length && dp < inodes.Length && ip != dp && inodes[ip] == Inode(Dir, 1, []) && ip != 0
        && dp != 0
      modifies inodes
      ensures inodes[..] == old(inodes[..])[ip := Inode(Dir, 1, [Dirent(ip, "."), Dirent(dp, "..")])]
                                           [dp := old(inodes[dp]).(nlink := old(inodes[dp]).nlink + 1)]
    {
      hide Slot;
      inodes[dp] := inodes[dp].(nlink := inodes[dp].nlink + 1);
      var dot, k0 := Dirlink(ip, ".", ip);
      assert NameFree([], ".") && inodes[ip].entries == [Dirent(ip, ".")];
      var dotdot, k1 := Dirlink(ip, "..", dp);
      assert inodes[ip].entries == [Dirent(ip, "."), Dirent(dp, "..")];
    }

    /** create's writes once the name is known to be new: the new inode, its dots, and dp's entry. */
    method MakeInode(dp: nat, name: string, kind: Kind) returns (r: Option<nat>, ghost k: nat)
      requires Valid() && LiveDir(inodes[..], dp) && NameFree(inodes[dp].entries, name) && !kind.Free?
      modifies inodes
      ensures r.None? <==> Full(old(inodes[dp]).entries) || NoFreeInode(old(inodes[..]))
      ensures r.Some? ==> var s := old(inodes[..]);
        && 0 < r.value < |s| && s[r.value].kind.Free? && SlotFor(s[dp].entries, k)
        && inodes[..] == Created(s, dp, k, name, r.value, kind)
        && FirstFreeInode(s, r.value)
    {
      hide Inv, Sound, DirOk, PlaceOk, IsLink, NamesUnique, LinksTo;
      ghost var s := inodes[..];
      OfDir(s, dp);
      r := Ialloc(kind);
      if r.None? { return None, 0; }
      OfInode(s, r.value);
      var ip := r.value;
      inodes[ip] := inodes[ip].(nlink := 1);
      if kind.Dir? {
        MakeDots(ip, dp);
      }
      var done, k2 := Dirlink(dp, name, ip);
      if !done.Done? { return None, 0; }
      k := k2;
      assert inodes[..] == Created(s, dp, k, name, ip, kind);
    }

    /** create. */
    method Create(start: nat, path: string, kind: Kind) returns (r: Made)
      requires Valid() && start < inodes.Length && inodes[start].nlink > 0 && !kind.Free?
      modifies inodes
      ensures !r.NoRoom? ==> Valid()
      ensures r.Existing? || r.NotMade? ==> inodes[..] == old(inodes[..])
      ensures r.Existing? ==> Walk(old(inodes[..]), start, Elements(path)) == Some(r.inum)
      ensures r.Existing? ==> r.inum < inodes.Length && kind.File? && inodes[r.inum].kind.File?
      ensures r.NotMade? <==> var s, ip := old(inodes[..]), Walk(old(inodes[..]), start, Elements(path));
        || Parent(s, start, Elements(path)) == None
        || (ip.Some? && !(kind.File? && ip.value < |s| && s[ip.value].kind.File?))
      ensures r.NoRoom? <==> var s, e := old(inodes[..]), Elements(path);
        && Fresh(s, start, e) && (NoFreeInode(s) || Full(s[Parent(s, start, e).value].entries))
      ensures r.New? ==>
        Walk(old(inodes[..]), start, Elements(path)) == None && Walk(inodes[..], start, Elements(path)) == Some(r.inum)
      ensures r.New? ==> FirstFreeInode(old(inodes[..]), r.inum)
      ensures r.New? ==> var dp := Parent(old(inodes[..]), start, Elements(path));
        && dp.Some?
        && inodes[r.inum] ==
             Inode(kind, 1, if kind.Dir? then [Dirent(r.inum, "."), Dirent(dp.value, "..")] else [])
      ensures r.New? ==> PathsKept(old(inodes[..]), inodes[..], start)
      ensures r.New? ==>
        NameAdded(old(inodes[..]), inodes[..], start, Elements(path), r.inum, if kind.Dir? then 1 else 0)
      ensures r.New? ==> Parent(old(inodes[..]), start, Elements(path)).Some?
                         && OthersSame(old(inodes[..]), inodes[..], r.inum,
                            Parent(old(inodes[..]), start, Elements(path)).value)
    {
      hide Inv, Tidy, Sound, IsLink, DirOk, PlaceOk, NamesUnique, LinksTo, Elements, PathsKept, OthersSame, NameAdded,
        NameRemoved;
      ghost var s, e := inodes[..], Elements(path);
      InvIsTidy(s);
      var dp, name := Namex(start, path, true);
      if dp.None? { return NotMade; }
      ParentIsLive(s, start, e);
      ghost var names := e[..|e| - 1];
      assert e == names + [name];
      WalkSplits(s, start, names, name);
      WalkByName(s, dp.value, [name]);
      var off := Dirlookup(dp.value, name);
      if off.Some? {
        OfDir(s, dp.value);
        var ip := inodes[dp.value].entries[off.value].inum;
        if kind.File? && inodes[ip].kind.File? { return Existing(ip); }
        return NotMade;
      }
      var i, k := MakeInode(dp.value, name, kind);
      if i.None? { return NoRoom; }
      CreateDone(s, dp.value, k, name, i.value, kind, start, e);
      r := New(i.value);
    }

    /** sys_link. */
    method SysLink(start: nat, oldPath: string, newPath: string) returns (r: Outcome)
      requires Valid() && start < inodes.Length && inodes[start].nlink > 0
      modifies inodes
      ensures !r.Panic? ==> Valid()
      ensures r.Refused? ==> inodes[..] == old(inodes[..])
      ensures !r.Refused? <==> var s, e := old(inodes[..]), Elements(newPath);
        Linkable(s, Walk(s, start, Elements(oldPath))) && Fresh(s, start, e)
      ensures r.Panic? <==> var s, e := old(inodes[..]), Elements(newPath);
        && Linkable(s, Walk(s, start, Elements(oldPath))) && Fresh(s, start, e)
        && Full(s[Parent(s, start, e).value].entries)
      ensures r.Done? ==> var s, ip := old(inodes[..]), Walk(old(inodes[..]), start, Elements(oldPath));
        && ip.Some? && ip.value < |s| && !s[ip.value].kind.Dir?
        && inodes[ip.value] == s[ip.value].(nlink := s[ip.value].nlink + 1)
        && NameAdded(s, inodes[..], start, Elements(newPath), ip.value, 0)
        && Walk(s, start, Elements(newPath)) == None && Walk(inodes[..], start, Elements(newPath)) == ip
        && PathsKept(s, inodes[..], start)
        && Parent(s, start, Elements(newPath)).Some? && OthersSame(s, inodes[..], ip.value,
           Parent(s, start, Elements(newPath)).value)
    {
      hide Inv, Tidy, Sound, IsLink, DirOk, PlaceOk, NamesUnique, LinksTo, Elements, PathsKept, OthersSame, NameAdded,
        NameRemoved, Slot, Named, Full;
      ghost var s, e := inodes[..], Elements(newPath);
      InvIsTidy(s);
      var ip, last := Namex(start, oldPath, false);
      if ip.None? { return Refused; }
      WalkStaysLinked(s, start, Elements(oldPath));
      var i := ip.value;
      if inodes[i].kind.Dir? { return Refused; }
      CountKeepsTidy(s, i, s[i].nlink + 1);
      inodes[i] := inodes[i].(nlink := inodes[i].nlink + 1);
      ghost var t := inodes[..];
      assert t == s[i := s[i].(nlink := s[i].nlink + 1)];
      OfInode(s, 0);
      WalkAnyCount(s, t, start, e);
      var dp, name := Namex(start, newPath, true);
      r := Refused;
      if dp.Some? {
        ghost var k;
        ParentIsLive(s, start, e);
        ghost var names := e[..|e| - 1];
        assert e == names + [name];
        WalkSplits(s, start, names, name);
        WalkByName(s, dp.value, [name]);
        r, k := Dirlink(dp.value, name, i);
        if r.Done? {
          assert inodes[..] == LinkAdded(s, i, dp.value, k, name);
          LinkDone(s, i, dp.value, k, name, start, e);
        }
      }
      if r.Refused? {
        inodes[i] := inodes[i].(nlink := inodes[i].nlink - 1);
        assert inodes[..] == s;
      }
    }

    /** sys_unlink's writes: the entry cleared, the links counted down, and iput. */
    method DropEntry(d: nat, k: nat, ip: nat)
      requires MayUnlink(inodes[..], ip, d, k) && (inodes[ip].kind.Dir? ==> inodes[d].nlink > 0)
      modifies inodes
      ensures inodes[..] == Unlinked(old(inodes[..]), ip, d, k, ip in held)
    {
      hide Inv, Sound, IsLink, LinksTo;
      ghost var s := inodes[..];
      inodes[d] := inodes[d].(entries := inodes[d].entries[k := EMPTY]);
      if inodes[ip].kind.Dir? {
        inodes[d] := inodes[d].(nlink := inodes[d].nlink - 1);
      }
      inodes[ip] := inodes[ip].(nlink := inodes[ip].nlink - 1);
      ghost var t := LinkDropped(s, ip, d, k);
      assert inodes[..] == t;
      Iput(ip);
    }

    /** sys_unlink; it always finds nlink at least 1. */
    method SysUnlink(start: nat, path: string) returns (ok: bool)
      requires Valid() && start < inodes.Length && inodes[start].nlink > 0
      modifies inodes
      ensures Valid()
      ensures !ok ==> inodes[..] == old(inodes[..])
      ensures ok ==>
        Walk(old(inodes[..]), start, Elements(path)).Some? && Walk(inodes[..], start, Elements(path)) == None
      ensures ok ==> PathsKept(inodes[..], old(inodes[..]), start)
      ensures ok ==> var s, ip := old(inodes[..]), Walk(old(inodes[..]), start, Elements(path)).value;
        ip < |s| && NameRemoved(s, inodes[..], start, Elements(path), ip, if s[ip].kind.Dir? then 1 else 0)
      ensures ok ==> var s, ip := old(inodes[..]), Walk(old(inodes[..]), start, Elements(path)).value;
        && Parent(s, start, Elements(path)).Some? && OthersSame(s, inodes[..], ip,
           Parent(s, start, Elements(path)).value)
        && ip < |s| && s[ip].nlink > 0 && inodes[ip] == (if s[ip].nlink == 1 && ip !in held then Inode(Free, 0, [])
           else s[ip].(nlink := s[ip].nlink - 1))
      ensures ok <==> var s, e := old(inodes[..]), Elements(path);
        && Parent(s, start, e).Some? && e[|e| - 1] != "." && e[|e| - 1] != ".." && var ip := Walk(s, start, e);
        && ip.Some? && ip.value < |s| && (s[ip.value].kind.Dir? ==> OnlyDots(s[ip.value].entries))
    {
      hide Inv, Tidy, Sound, IsLink, DirOk, PlaceOk, NamesUnique, LinksTo, Elements, PathsKept, OthersSame, NameAdded,
        NameRemoved;
      ghost var s, e := inodes[..], Elements(path);
      InvIsTidy(s);
      var dp, name := Namex(start, path, true);
      if dp.None? { return false; }
      var d := dp.value;
      ParentIsLive(s, start, e);
      if name == "." || name == ".." { return false; }
      ghost var names := e[..|e| - 1];
      assert e == names + [name];
      WalkSplits(s, start, names, name);
      WalkByName(s, d, [name]);
      WalkStaysLinked(s, start, e);
      var off := Dirlookup(d, name);
      if off.None? { return false; }
      var k := off.value;
      var ip := inodes[d].entries[k].inum;
      assert Walk(s, start, e) == Some(ip) && inodes[ip].nlink >= 1;
      if inodes[ip].kind.Dir? { OfDir(s, ip); }
      if inodes[ip].kind.Dir? {
        var empty := Isdirempty(ip);
        if !empty { return false; }
      }
      UnlinkIsPossible(s, ip, d, k, name);
      UnlinkDone(s, ip, d, k, ip in held, name, start, e);
      DropEntry(d, k, ip);
      ok := true;
    }
  }
}
