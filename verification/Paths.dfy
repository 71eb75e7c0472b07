/** Path names: skipelem's splitting, and the walk of namex over the directories of Links. */
module Paths {
  import opened Wrappers
  import opened Links

  /** A name as skipelem stores it. */
  function Trunc(name: string): (r: string) { if |name| >= DIRSIZ then name[..DIRSIZ] else name }

  /** Characters before the first slash. */
  function ElemLen(path: string): (n: nat)
    ensures n <= |path| && '/' !in path[..n] && (n < |path| ==> path[n] == '/')
  {
    if path == "" || path[0] == '/' then 0 else
      var n := 1 + ElemLen(path[1..]);
      assert path[..n] == [path[0]] + path[1..][..n - 1];
      n
  }

  /** The elements of a path, however many slashes separate them. */
  function Elements(path: string): (e: seq<string>)
  {
    if path == "" then [] else if path[0] == '/' then Elements(path[1..]) else
      [Trunc(path[..ElemLen(path)])] + Elements(path[ElemLen(path)..])
  }

  lemma SkipSlash(path: string, i: nat)
    requires i < |path| && path[i] == '/'
    ensures Elements(path[i..]) == Elements(path[i + 1..])
  {}

  lemma SkipLetter(path: string, i: nat)
    requires i < |path| && path[i] != '/'
    ensures ElemLen(path[i..]) == 1 + ElemLen(path[i + 1..])
  {}

  lemma FirstElement(path: string, s: nat, i: nat)
    requires s < i <= |path| && path[s] != '/' && ElemLen(path[s..]) == i - s
    ensures Elements(path[s..]) == [Trunc(path[s..i])] + Elements(path[i..])
  {
    assert path[s..][..i - s] == path[s..i] && path[s..][i - s..] == path[i..];
  }

  /** The loops over slashes in front of an element. */
  method SkipSlashes(path: string, start: nat) returns (i: nat)
    requires start <= |path|
    ensures start <= i <= |path| && Elements(path[i..]) == Elements(path[start..])
    ensures i < |path| ==> path[i] != '/' && Elements(path[i..]) != []
  {
    i := start;
    while i < |path| && path[i] == '/'
      invariant start <= i <= |path| && Elements(path[i..]) == Elements(path[start..])
    {
      SkipSlash(path, i);
      i := i + 1;
    }
  }

  /** skipelem: the first element and the rest of the path, without slashes before it. */
  method Skipelem(path: string) returns (r: Option<(string, string)>)
    ensures r.None? <==> Elements(path) == []
    ensures r.Some? ==> Elements(path) == [r.value.0] + Elements(r.value.1) && |r.value.1| < |path|
    ensures r.Some? ==> (r.value.1 == "" <==> Elements(r.value.1) == [])
  {
    var i := SkipSlashes(path, 0);
    if i == |path| { return None; }
    var s := i;
    while i < |path| && path[i] != '/'
      invariant s <= i <= |path| && ElemLen(path[s..]) == i - s + ElemLen(path[i..])
    {
      SkipLetter(path, i);
      i := i + 1;
    }
    FirstElement(path, s, i);
    var name := if i - s >= DIRSIZ then path[s..s + DIRSIZ] else path[s..i];
    assert name == Trunc(path[s..i]);
    i := SkipSlashes(path, i);
    return Some((name, path[i..]));
  }

  /** Names that a path can spell and skipelem keeps whole. */
  predicate Spellable(name: string) { 0 < |name| <= DIRSIZ && '/' !in name }

  /** Each name after a slash. */
  function Spell(names: seq<string>): (path: string) {
    if names == [] then "" else "/" + names[0] + Spell(names[1..])
  }

  lemma {:induction false} ElemLenOfName(name: string, rest: string)
    requires '/' !in name && (rest == "" || rest[0] == '/')
    ensures ElemLen(name + rest) == |name|
  {
    if name != "" {
      assert name[0] in name;
      assert (name + rest)[1..] == name[1..] + rest;
      ElemLenOfName(name[1..], rest);
    } else {
      assert name + rest == rest;
    }
  }

  predicate Slashes(p: string) { forall k :: 0 <= k < |p| ==> p[k] == '/' }

  /** What may stand between slashes. */
  predicate IsElement(w: string) { w != "" && '/' !in w }

  predicate EndsElement(rest: string) { rest == "" || rest[0] == '/' }

  /** Slashes in front change nothing. */
  lemma {:induction false} SlashesSkipped(sl: string, p: string)
    requires Slashes(sl)
    ensures Elements(sl + p) == Elements(p)
  {
    if sl == "" {
      assert sl + p == p;
    } else {
      assert (sl + p)[1..] == sl[1..] + p;
      SlashesSkipped(sl[1..], p);
    }
  }

  /** However long an element is and however many slashes precede it, its first DIRSIZ characters
      are what is looked up, and all of it if it is shorter. */
  lemma ElementKept(sl: string, w: string, rest: string)
    requires Slashes(sl) && IsElement(w) && EndsElement(rest)
    ensures var e := Elements(sl + w + rest);
      && |e| >= 1 && e[0] <= w && |e[0]| == (if |w| < DIRSIZ then |w| else DIRSIZ)
      && e[1..] == Elements(rest)
  {
    var p := w + rest;
    assert sl + w + rest == sl + p;
    SlashesSkipped(sl, p);
    ElemLenOfName(w, rest);
    assert w[0] in w && p[0] == w[0];
    assert p[..|w|] == w && p[|w|..] == rest;
    assert Elements(p) == [Trunc(w)] + Elements(rest);
  }

  /** Only slashes: no element. */
  lemma SlashesOnly(sl: string)
    requires Slashes(sl)
    ensures Elements(sl) == []
  {
    assert sl + "" == sl;
    SlashesSkipped(sl, "");
  }

  lemma ElementsOfOne(name: string, rest: string)
    requires Spellable(name) && EndsElement(rest)
    ensures Elements("/" + name + rest) == [name] + Elements(rest)
  {
    ElementKept("/", name, rest);
    var e := Elements("/" + name + rest);
    assert |name| <= DIRSIZ && |e[0]| == |name|;
    assert e[0] == name;
    assert e == [e[0]] + e[1..];
  }

  /** Splitting a spelled path gives the names back. */
  lemma {:induction false} ElementsOfSpell(names: seq<string>)
    requires forall i :: 0 <= i < |names| ==> Spellable(names[i])
    ensures Elements(Spell(names)) == names
  {
    if names != [] {
      ElementsOfSpell(names[1..]);
      ElementsOfOne(names[0], Spell(names[1..]));
    }
  }

  /** The two names cannot be told apart by their first DIRSIZ characters. */
  predicate SameName(w: string, v: string) {
    w == v || (|w| >= DIRSIZ && |v| >= DIRSIZ && forall k :: 0 <= k < DIRSIZ ==> w[k] == v[k])
  }

  lemma PrefixesMatch(w: string, v: string, a: string, b: string)
    requires a <= w && |a| == (if |w| < DIRSIZ then |w| else DIRSIZ)
    requires b <= v && |b| == (if |v| < DIRSIZ then |v| else DIRSIZ)
    ensures a == b <==> SameName(w, v)
  {
    assert forall k :: 0 <= k < |a| ==> a[k] == w[k];
    assert forall k :: 0 <= k < |b| ==> b[k] == v[k];
  }

  lemma SpellOne(ws: seq<string>)
    requires ws != [] && IsElement(ws[0])
    ensures var e := Elements(Spell(ws));
      && |e| >= 1 && e[0] <= ws[0] && |e[0]| == (if |ws[0]| < DIRSIZ then |ws[0]| else DIRSIZ)
      && e[1..] == Elements(Spell(ws[1..]))
  {
    ElementKept("/", ws[0], Spell(ws[1..]));
  }

  /** Two paths have the same elements exactly when their words agree in the first DIRSIZ characters. */
  lemma {:induction false} SameElementsIff(ws: seq<string>, vs: seq<string>)
    requires forall i :: 0 <= i < |ws| ==> IsElement(ws[i])
    requires forall i :: 0 <= i < |vs| ==> IsElement(vs[i])
    ensures Elements(Spell(ws)) == Elements(Spell(vs)) <==>
      |ws| == |vs| && forall i :: 0 <= i < |ws| ==> SameName(ws[i], vs[i])
    decreases |ws|
  {
    if ws != [] { SpellOne(ws); }
    if vs != [] { SpellOne(vs); }
    if ws != [] && vs != [] {
      var e, d := Elements(Spell(ws)), Elements(Spell(vs));
      SameElementsIff(ws[1..], vs[1..]);
      PrefixesMatch(ws[0], vs[0], e[0], d[0]);
      assert e == [e[0]] + e[1..] && d == [d[0]] + d[1..];
      assert forall i :: 1 <= i < |ws| ==> ws[i] == ws[1..][i - 1];
      assert forall i :: 1 <= i < |vs| ==> vs[i] == vs[1..][i - 1];
      hide SameName, Elements, Spell;
      if |ws| == |vs| && forall i :: 0 <= i < |ws| ==> SameName(ws[i], vs[i]) {
        forall i | 0 <= i < |ws| - 1 ensures SameName(ws[1..][i], vs[1..][i]) {
          assert SameName(ws[i + 1], vs[i + 1]);
        }
      }
    }
  }

  // ---------------------------------------------------------------- the walk

  /** dirlookup: the first slot in use with the name. */
  function Slot(es: seq<Dirent>, name: string): (k: Option<nat>)
    ensures k.Some? ==> k.value < |es| && es[k.value].inum != 0 && es[k.value].name == name
    ensures k.None? <==> NameFree(es, name)
  {
    if es == [] then None
    else if es[0].inum != 0 && es[0].name == name then Some(0)
    else match Slot(es[1..], name) case Some(k) => Some(k + 1) case None => None
  }

  /** The inode the elements lead to from i. */
  function Walk(s: seq<Inode>, i: nat, names: seq<string>): (r: Option<nat>)
    decreases |names|
  {
    if names == [] then Some(i)
    else if i >= |s| || !s[i].kind.Dir? then None
    else match Slot(s[i].entries, names[0])
      case Some(k) => Walk(s, s[i].entries[k].inum, names[1..])
      case None => None
  }

  /** nameiparent: the directory that would hold the last element. */
  function Parent(s: seq<Inode>, i: nat, names: seq<string>): (r: Option<nat>) {
    if names == [] then None else
      match Walk(s, i, names[..|names| - 1])
      case Some(d) => if d < |s| && s[d].kind.Dir? then Some(d) else None
      case None => None
  }

  /** Such paths lead to the same inode, and their last elements to the same directory. */
  lemma SameNamesResolve(s: seq<Inode>, i: nat, ws: seq<string>, vs: seq<string>)
    requires |ws| == |vs| && forall k :: 0 <= k < |ws| ==> SameName(ws[k], vs[k])
    requires forall k :: 0 <= k < |ws| ==> IsElement(ws[k]) && IsElement(vs[k])
    ensures Walk(s, i, Elements(Spell(ws))) == Walk(s, i, Elements(Spell(vs)))
    ensures Parent(s, i, Elements(Spell(ws))) == Parent(s, i, Elements(Spell(vs)))
  {
    SameElementsIff(ws, vs);
  }

  /** From a linked inode only linked ones are reached: no walk meets a freed inode. */
  lemma {:induction false} WalkStaysLinked(s: seq<Inode>, i: nat, names: seq<string>)
    requires Tidy(s) && i < |s| && s[i].nlink > 0
    ensures Walk(s, i, names).Some? ==> Walk(s, i, names).value < |s| && s[Walk(s, i, names).value].nlink > 0
    decreases |names|
  {
    if names != [] && s[i].kind.Dir? && Slot(s[i].entries, names[0]).Some? {
      OfDir(s, i);
      WalkStaysLinked(s, s[i].entries[Slot(s[i].entries, names[0]).value].inum, names[1..]);
    }
  }

  lemma ParentIsLive(s: seq<Inode>, i: nat, names: seq<string>)
    requires Tidy(s) && i < |s| && s[i].nlink > 0 && Parent(s, i, names).Some?
    ensures LiveDir(s, Parent(s, i, names).value)
  {
    WalkStaysLinked(s, i, names[..|names| - 1]);
  }

  /** A walk is the walk to the parent and one lookup there. */
  lemma {:induction false} WalkSplits(s: seq<Inode>, i: nat, names: seq<string>, last: string)
    ensures Walk(s, i, names + [last]) ==
      match Walk(s, i, names) case None => None case Some(d) => Walk(s, d, [last])
    decreases |names|
  {
    if names == [] {
      assert names + [last] == [last];
    } else {
      assert (names + [last])[0] == names[0] && (names + [last])[1..] == names[1..] + [last];
      if i < |s| && s[i].kind.Dir? && Slot(s[i].entries, names[0]).Some? {
        WalkSplits(s, s[i].entries[Slot(s[i].entries, names[0]).value].inum, names[1..], last);
      }
    }
  }

  /** The first place a directory gives a name. */
  function Named(s: seq<Inode>, d: nat, name: string): (i: Option<nat>) {
    if d < |s| && s[d].kind.Dir? && Slot(s[d].entries, name).Some?
      then Some(s[d].entries[Slot(s[d].entries, name).value].inum) else None
  }

  lemma WalkByName(s: seq<Inode>, i: nat, names: seq<string>)
    requires names != []
    ensures Walk(s, i, names) == match Named(s, i, names[0]) case Some(n) => Walk(s, n, names[1..]) case None => None
  {}

  /** What every directory still names is still reached. */
  lemma {:induction false} WalkStays(s: seq<Inode>, r: seq<Inode>, i: nat, names: seq<string>)
    requires forall d, name :: Named(s, d, name).Some? ==> Named(r, d, name) == Named(s, d, name)
    ensures Walk(s, i, names).Some? ==> Walk(r, i, names) == Walk(s, i, names)
    decreases |names|
  {
    if names != [] {
      WalkByName(s, i, names);
      WalkByName(r, i, names);
      if Named(s, i, names[0]).Some? { WalkStays(s, r, Named(s, i, names[0]).value, names[1..]); }
    }
  }

  lemma {:induction false} SlotOfPut(es: seq<Dirent>, k: nat, e: Dirent, name: string)
    requires SlotFor(es, k) && e.inum != 0
    ensures name != e.name ==> Slot(Put(es, k, e), name) == Slot(es, name)
    ensures NameFree(es, e.name) ==> Slot(Put(es, k, e), e.name) == Some(k)
    decreases |es|
  {
    var p := Put(es, k, e);
    if es != [] && k > 0 {
      SlotOfPut(es[1..], k - 1, e, name);
      assert p[1..] == Put(es[1..], k - 1, e) && p[0] == es[0];
      assert NameFree(es, e.name) ==> NameFree(es[1..], e.name);
    } else if es != [] {
      assert p[1..] == es[1..] && es[0].inum == 0;
    }
  }

  lemma {:induction false} SlotOfCleared(es: seq<Dirent>, k: nat, name: string)
    requires k < |es| && name != es[k].name
    ensures Slot(es[k := EMPTY], name) == Slot(es, name)
    decreases |es|
  {
    if k > 0 {
      SlotOfCleared(es[1..], k - 1, name);
      assert es[k := EMPTY][1..] == es[1..][k - 1 := EMPTY];
    } else {
      assert es[k := EMPTY][1..] == es[1..];
    }
  }

  lemma PutKeepsEntries(es: seq<Dirent>, k: nat, e: Dirent, name: string)
    requires SlotFor(es, k) && Slot(es, name).Some?
    ensures Put(es, k, e)[Slot(es, name).value] == es[Slot(es, name).value]
  {}

  /** Directory d of r gives the name to inode i, and every other name to what it is in s. */
  ghost predicate NamesPlus(s: seq<Inode>, r: seq<Inode>, d: nat, name: string, i: nat) {
    forall nm :: Named(r, d, nm) == if nm == name then Some(i) else Named(s, d, nm)
  }

  lemma PutFinds(es: seq<Dirent>, k: nat, e: Dirent, nm: string)
    requires SlotFor(es, k) && NameFree(es, e.name) && e.inum != 0
    ensures Slot(Put(es, k, e), nm).Some? <==> nm == e.name || Slot(es, nm).Some?
    ensures Slot(Put(es, k, e), nm).Some? ==>
      Put(es, k, e)[Slot(Put(es, k, e), nm).value].inum == if nm == e.name then e.inum else es[Slot(es, nm).value].inum
  {
    SlotOfPut(es, k, e, nm);
    if Slot(es, nm).Some? { PutKeepsEntries(es, k, e, nm); }
  }

  lemma PutNames(s: seq<Inode>, r: seq<Inode>, d: nat, k: nat, name: string, i: nat)
    requires d < |s| && d < |r| && s[d].kind.Dir? && r[d].kind.Dir? && SlotFor(s[d].entries, k) && i != 0
    requires NameFree(s[d].entries, name) && r[d].entries == Put(s[d].entries, k, Dirent(i, name))
    ensures NamesPlus(s, r, d, name, i)
  {
    hide Slot, Put, SlotFor, NameFree;
    forall nm ensures Named(r, d, nm) == if nm == name then Some(i) else Named(s, d, nm) {
      PutFinds(s[d].entries, k, Dirent(i, name), nm);
    }
  }

  lemma UniqueSlot(es: seq<Dirent>, k: nat)
    requires k < |es| && es[k].inum != 0 && NamesUnique(es)
    ensures Slot(es, es[k].name) == Some(k)
  {
    var j := Slot(es, es[k].name);
    assert j.Some?;
  }

  lemma ClearedNames(s: seq<Inode>, r: seq<Inode>, d: nat, k: nat, name: string, i: nat)
    requires d < |s| && d < |r| && s[d].kind.Dir? && r[d].kind.Dir? && k < |s[d].entries| && i != 0
    requires NamesUnique(s[d].entries) && s[d].entries[k] == Dirent(i, name)
    requires r[d].entries == s[d].entries[k := EMPTY]
    ensures NamesPlus(r, s, d, name, i)
  {
    forall nm ensures Named(s, d, nm) == if nm == name then Some(i) else Named(r, d, nm) {
      if nm == name { UniqueSlot(s[d].entries, k); } else { SlotOfCleared(s[d].entries, k, nm); }
    }
  }

  /** Every path that led somewhere still leads there. */
  ghost predicate PathsKept(s: seq<Inode>, r: seq<Inode>, start: nat) {
    forall e :: Walk(s, start, e).Some? ==> Walk(r, start, e) == Walk(s, start, e)
  }

  lemma PathsStay(s: seq<Inode>, r: seq<Inode>, start: nat)
    requires forall d, name :: Named(s, d, name).Some? ==> Named(r, d, name) == Named(s, d, name)
    ensures PathsKept(s, r, start)
  {
    forall e | Walk(s, start, e).Some? ensures Walk(r, start, e) == Walk(s, start, e) { WalkStays(s, r, start, e); }
  }

  /** After create the path leads to the new inode, and every path that led somewhere still does. */
  lemma CreatedPath(s: seq<Inode>, dp: nat, k: nat, name: string, i: nat, kind: Kind, start: nat, names: seq<string>)
    requires Inv(s) && LiveDir(s, dp) && SlotFor(s[dp].entries, k) && 0 < i < |s| && s[i].kind.Free?
    requires NameFree(s[dp].entries, name) && Walk(s, start, names) == Some(dp)
    ensures Walk(Created(s, dp, k, name, i, kind), start, names + [name]) == Some(i)
    ensures PathsKept(s, Created(s, dp, k, name, i, kind), start)
  {
    var r := Created(s, dp, k, name, i, kind);
    SlotOfPut(s[dp].entries, k, Dirent(i, name), name);
    forall d, nm | Named(s, d, nm).Some? ensures Named(r, d, nm) == Named(s, d, nm) {
      if d == dp {
        SlotOfPut(s[dp].entries, k, Dirent(i, name), nm);
        PutKeepsEntries(s[dp].entries, k, Dirent(i, name), nm);
      }
    }
    PathsStay(s, r, start);
    WalkSplits(r, start, names, name);
    assert Walk(r, dp, [name]) == Some(i) by { WalkByName(r, dp, [name]); }
  }

  /** After link the new path leads to the old inode, and every path that led somewhere still does. */
  lemma LinkedPath(s: seq<Inode>, ip: nat, dp: nat, k: nat, name: string, start: nat, names: seq<string>)
    requires LiveDir(s, dp) && SlotFor(s[dp].entries, k) && 0 < ip < |s| && !s[ip].kind.Dir?
    requires NameFree(s[dp].entries, name) && Walk(s, start, names) == Some(dp)
    ensures Walk(LinkAdded(s, ip, dp, k, name), start, names + [name]) == Some(ip)
    ensures PathsKept(s, LinkAdded(s, ip, dp, k, name), start)
  {
    var r := LinkAdded(s, ip, dp, k, name);
    SlotOfPut(s[dp].entries, k, Dirent(ip, name), name);
    forall d, nm | Named(s, d, nm).Some? ensures Named(r, d, nm) == Named(s, d, nm) {
      if d == dp {
        SlotOfPut(s[dp].entries, k, Dirent(ip, name), nm);
        PutKeepsEntries(s[dp].entries, k, Dirent(ip, name), nm);
      }
    }
    PathsStay(s, r, start);
    WalkSplits(r, start, names, name);
    assert Walk(r, dp, [name]) == Some(ip) by { WalkByName(r, dp, [name]); }
  }

  /** After unlink the path leads nowhere, and a path that still leads somewhere leads where it did. */
  lemma UnlinkedPath(s: seq<Inode>, ip: nat, dp: nat, k: nat, start: nat, names: seq<string>, name: string,
                     t: seq<Inode>)
    requires MayUnlink(s, ip, dp, k) && NamesUnique(s[dp].entries) && s[dp].entries[k].name == name
    requires t == LinkDropped(s, ip, dp, k) || t == Reclaimed(LinkDropped(s, ip, dp, k), ip)
    requires Walk(s, start, names) == Some(dp)
    ensures Walk(t, start, names + [name]) == None
    ensures PathsKept(t, s, start)
  {
    assert NameFree(t[dp].entries, name);
    forall d, nm | Named(t, d, nm).Some? ensures Named(s, d, nm) == Named(t, d, nm) {
      if d == dp { SlotOfCleared(s[dp].entries, k, nm); }
    }
    PathsStay(t, s, start);
    WalkSplits(t, start, names, name);
    WalkByName(t, dp, [name]);
  }
}
