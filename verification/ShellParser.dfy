/** sh.c's parser over the command line in memory: a cursor moved along the text, and at the end NULs
    written after every word. */
module ShellParser {
  import opened Shell
  import opened ShellGrammar

  // ---------------------------------------------------------------- C strings

  /** The string that starts at q. */
  function CString(b: seq<char>, q: nat): (w: string)
    decreases |b| - q
  {
    if q < |b| && b[q] != '\0' then [b[q]] + CString(b, q + 1) else ""
  }

  lemma {:induction false} CStringIs(b: seq<char>, q: nat, e: nat)
    requires q <= e < |b| && b[e] == '\0' && forall k :: q <= k < e ==> b[k] != '\0'
    ensures CString(b, q) == b[q..e]
    decreases e - q
  {
    if q < e {
      CStringIs(b, q + 1, e);
      assert b[q..e] == [b[q]] + b[q + 1..e];
    }
  }

  /** The places nulterminate writes to. */
  function Ends(c: Cmd): (e: set<nat>) {
    match c
    case ExecCmd(argv) => set k | 0 <= k < |argv| :: argv[k].eq
    case RedirCmd(d, f, m) => Ends(d) + {f.eq}
    case PipeCmd(l, r) => Ends(l) + Ends(r)
    case ListCmd(l, r) => Ends(l) + Ends(r)
    case BackCmd(d) => Ends(d)
  }

  /** The command with its strings read as C strings. */
  function CTree(b: seq<char>, c: Cmd): (t: Tree) {
    match c
    case ExecCmd(argv) => TExec(seq(|argv|, i requires 0 <= i < |argv| => CString(b, argv[i].q)))
    case RedirCmd(d, f, m) => TRedir(CTree(b, d), CString(b, f.q), m)
    case PipeCmd(l, r) => TPipe(CTree(b, l), CTree(b, r))
    case ListCmd(l, r) => TList(CTree(b, l), CTree(b, r))
    case BackCmd(d) => TBack(CTree(b, d))
  }

  /** NULs go right after words, never into one. */
  lemma {:induction false} EndsAreNoWords(s: string, c: Cmd, e: nat)
    requires WordsOf(s, c) && e in Ends(c)
    ensures e <= |s| && (e < |s| ==> !IsWord(s[e]))
  {
    match c
    case ExecCmd(argv) =>
      var k :| 0 <= k < |argv| && argv[k].eq == e;
      assert WordAt(s, argv[k]);
    case RedirCmd(d, f, m) => if e in Ends(d) { EndsAreNoWords(s, d, e); }
    case PipeCmd(l, r) => if e in Ends(l) { EndsAreNoWords(s, l, e); } else { EndsAreNoWords(s, r, e); }
    case ListCmd(l, r) => if e in Ends(l) { EndsAreNoWords(s, l, e); } else { EndsAreNoWords(s, r, e); }
    case BackCmd(d) => EndsAreNoWords(s, d, e);
  }

  /** b is the text with NULs at places that are not inside words, and one at each place in es. */
  ghost predicate Cut(s: string, b: seq<char>, es: set<nat>) {
    && |b| > |s| && (forall k :: 0 <= k < |s| ==> s[k] != '\0')
    && (forall k :: 0 <= k < |s| && IsWord(s[k]) ==> b[k] == s[k])
    && (forall e :: e in es ==> e < |b| && b[e] == '\0')
  }

  lemma CutWord(s: string, b: seq<char>, es: set<nat>, t: Tok)
    requires Cut(s, b, es) && WordAt(s, t) && t.eq in es
    ensures CString(b, t.q) == TextOf(s, t)
  {
    forall k | t.q <= k < t.eq ensures b[k] == s[k] && b[k] != '\0' { assert IsWord(s[k]); }
    CStringIs(b, t.q, t.eq);
    assert b[t.q..t.eq] == s[t.q..t.eq];
  }

  /** After nulterminate every argument and file is the word that was typed. */
  lemma {:induction false} CutTree(s: string, b: seq<char>, es: set<nat>, c: Cmd)
    requires Cut(s, b, es) && WordsOf(s, c) && Ends(c) <= es
    ensures CTree(b, c) == TreeOf(s, c)
  {
    match c
    case ExecCmd(argv) =>
      forall k | 0 <= k < |argv| ensures CString(b, argv[k].q) == TextOf(s, argv[k]) {
        assert argv[k].eq in Ends(c);
        CutWord(s, b, es, argv[k]);
      }
    case RedirCmd(d, f, m) =>
      CutTree(s, b, es, d);
      CutWord(s, b, es, f);
    case PipeCmd(l, r) => CutTree(s, b, es, l); CutTree(s, b, es, r);
    case ListCmd(l, r) => CutTree(s, b, es, l); CutTree(s, b, es, r);
    case BackCmd(d) => CutTree(s, b, es, d);
  }

  // ---------------------------------------------------------------- tokens

  method SkipSpace(s: string, start: nat) returns (i: nat)
    requires start <= |s|
    ensures i == Skip(s, start)
  {
    i := start;
    while i < |s| && IsSpace(s[i])
      invariant start <= i <= |s| && Skip(s, i) == Skip(s, start)
    {
      i := i + 1;
    }
  }

  /** gettoken. */
  method Gettoken(s: string, ps: nat) returns (t: Token)
    requires ps <= |s|
    ensures t == GetToken(s, ps)
  {
    var q := SkipSpace(s, ps);
    var e, kind := q, 'a';
    if q == |s| {
      return Token('\0', q, q, q);
    } else if IsSymbol(s[q]) && s[q] != '>' {
      e, kind := q + 1, s[q];
    } else if s[q] == '>' {
      e, kind := q + 1, '>';
      if e < |s| && s[e] == '>' {
        e, kind := q + 2, '+';
      }
    } else {
      while e < |s| && !IsSpace(s[e]) && !IsSymbol(s[e])
        invariant q <= e <= |s| && WordEnd(s, e) == WordEnd(s, q)
      {
        e := e + 1;
      }
    }
    var next := SkipSpace(s, e);
    return Token(kind, q, e, next);
  }

  /** peek: the cursor moved over blanks, and whether one of the characters is there. */
  method PeekAt(s: string, ps: nat, toks: set<char>) returns (found: bool, next: nat)
    requires ps <= |s|
    ensures next == Skip(s, ps) && found == Peek(s, next, toks)
  {
    next := SkipSpace(s, ps);
    found := next < |s| && s[next] in toks;
  }

  // ---------------------------------------------------------------- the parser

  lemma SkipTwice(s: string, i: nat)
    requires i <= |s|
    ensures Skip(s, Skip(s, i)) == Skip(s, i)
  {}

  /** parseredirs. */
  method Parseredirs(s: string, cmd: Cmd, start: nat) returns (r: Parsed)
    requires start <= |s| && WordsOf(s, cmd)
    ensures r == ParseRedirs(s, cmd, start)
  {
    hide WordEnd, IsWord, IsSpace, IsSymbol, GetToken;
    var c, ps := cmd, start;
    var found;
    found, ps := PeekAt(s, ps, {'<', '>'});
    SkipTwice(s, start);
    while found
      invariant ps <= |s| && WordsOf(s, c) && Skip(s, ps) == ps && found == Peek(s, ps, {'<', '>'})
      invariant ParseRedirs(s, c, ps) == ParseRedirs(s, cmd, start)
      decreases |s| - ps
    {
      var t := Gettoken(s, ps);
      var f := Gettoken(s, t.next);
      if f.kind != 'a' { return Panic("missing file for redirection"); }
      c := RedirCmd(c, Tok(f.q, f.eq), if t.kind == '<' then In else Out);
      SkipTwice(s, f.next);
      found, ps := PeekAt(s, f.next, {'<', '>'});
    }
    return Ok(c, ps);
  }

  /** parseblock. */
  method Parseblock(s: string, ps: nat) returns (r: Parsed)
    requires ps <= |s|
    ensures r == ParseBlock(s, ps)
    decreases |s| - ps, 0
  {
    var found, p := PeekAt(s, ps, {'('});
    if !found { return Panic("parseblock"); }
    var t := Gettoken(s, p);
    r := Parseline(s, t.next);
    if r.Panic? { return; }
    var c := r.cmd;
    found, p := PeekAt(s, r.pos, {')'});
    if !found { return Panic("syntax - missing )"); }
    t := Gettoken(s, p);
    r := Parseredirs(s, c, t.next);
  }

  /** parseexec's loop over the words. */
  method ParseexecLoop(s: string, c: Cmd, start: nat) returns (r: Parsed)
    requires start <= |s| && WordsOf(s, c)
    ensures r == ParseArgs(s, c, 0, start)
  {
    var ret, argc, ps := c, 0, start;
    var found;
    found, ps := PeekAt(s, ps, {'|', ')', '&', ';'});
    SkipTwice(s, start);
    while !found
      invariant ps <= |s| && WordsOf(s, ret) && Skip(s, ps) == ps && found == Peek(s, ps, {'|', ')', '&', ';'})
      invariant ParseArgs(s, ret, argc, ps) == ParseArgs(s, c, 0, start)
      decreases |s| - ps, !found
    {
      var t := Gettoken(s, ps);
      if t.kind == '\0' {
        ps := t.next;
        break;
      }
      if t.kind != 'a' { return Panic("syntax"); }
      AddArgKeepsWords(s, ret, Tok(t.q, t.eq));
      var d := AddArg(ret, Tok(t.q, t.eq));
      if argc + 1 >= MAXARGS { return Panic("too many args"); }
      r := Parseredirs(s, d, t.next);
      if r.Panic? { return; }
      ret, argc := r.cmd, argc + 1;
      SkipTwice(s, r.pos);
      found, ps := PeekAt(s, r.pos, {'|', ')', '&', ';'});
    }
    return Ok(ret, ps);
  }

  /** parseexec. */
  method Parseexec(s: string, start: nat) returns (r: Parsed)
    requires start <= |s|
    ensures r == ParseExec(s, start)
    decreases |s| - start, 1
  {
    var found, ps := PeekAt(s, start, {'('});
    if found {
      r := Parseblock(s, ps);
      return;
    }
    r := Parseredirs(s, ExecCmd([]), ps);
    if r.Panic? { return; }
    r := ParseexecLoop(s, r.cmd, r.pos);
  }

  /** parsepipe. */
  method Parsepipe(s: string, start: nat) returns (r: Parsed)
    requires start <= |s|
    ensures r == ParsePipe(s, start)
    decreases |s| - start, 2
  {
    r := Parseexec(s, start);
    if r.Panic? { return; }
    var cmd := r.cmd;
    var found, ps := PeekAt(s, r.pos, {'|'});
    if !found { return Ok(cmd, ps); }
    var t := Gettoken(s, ps);
    r := Parsepipe(s, t.next);
    if r.Ok? { r := Ok(PipeCmd(cmd, r.cmd), r.pos); }
  }

  /** parseline's loop over '&'. */
  method ParselineBacks(s: string, c: Cmd, start: nat) returns (cmd: Cmd, ps: nat)
    requires start <= |s| && WordsOf(s, c)
    ensures Ok(cmd, ps) == ParseBacks(s, c, start)
  {
    cmd := c;
    var found;
    found, ps := PeekAt(s, start, {'&'});
    SkipTwice(s, start);
    while found
      invariant ps <= |s| && WordsOf(s, cmd) && Skip(s, ps) == ps && found == Peek(s, ps, {'&'})
      invariant ParseBacks(s, cmd, ps) == ParseBacks(s, c, start)
      decreases |s| - ps
    {
      var t := Gettoken(s, ps);
      cmd := BackCmd(cmd);
      SkipTwice(s, t.next);
      found, ps := PeekAt(s, t.next, {'&'});
    }
  }

  /** parseline. */
  method Parseline(s: string, start: nat) returns (r: Parsed)
    requires start <= |s|
    ensures r == ParseLine(s, start)
    decreases |s| - start, 3
  {
    r := Parsepipe(s, start);
    if r.Panic? { return; }
    var cmd, ps := ParselineBacks(s, r.cmd, r.pos);
    var found;
    found, ps := PeekAt(s, ps, {';'});
    if !found { return Ok(cmd, ps); }
    var t := Gettoken(s, ps);
    r := Parseline(s, t.next);
    if r.Ok? { r := Ok(ListCmd(cmd, r.cmd), r.pos); }
  }

  // ---------------------------------------------------------------- nulterminate

  /** nulterminate. */
  method Nulterminate(buf: array<char>, cmd: Cmd)
    requires forall e :: e in Ends(cmd) ==> e < buf.Length
    modifies buf
    ensures forall k :: 0 <= k < buf.Length ==> buf[k] == if k in Ends(cmd) then '\0' else old(buf[k])
    decreases cmd
  {
    match cmd {
      case ExecCmd(argv) =>
        var i := 0;
        while i < |argv|
          invariant i <= |argv|
          invariant forall k :: 0 <= k < buf.Length ==>
            buf[k] == if exists l :: 0 <= l < i && argv[l].eq == k then '\0' else old(buf[k])
        {
          assert argv[i].eq in Ends(cmd);
          buf[argv[i].eq] := '\0';
          i := i + 1;
        }
      case RedirCmd(d, f, m) =>
        assert Ends(d) <= Ends(cmd) && f.eq in Ends(cmd);
        Nulterminate(buf, d);
        buf[f.eq] := '\0';
      case PipeCmd(l, r) =>
        assert Ends(l) <= Ends(cmd) && Ends(r) <= Ends(cmd);
        Nulterminate(buf, l);
        Nulterminate(buf, r);
      case ListCmd(l, r) =>
        assert Ends(l) <= Ends(cmd) && Ends(r) <= Ends(cmd);
        Nulterminate(buf, l);
        Nulterminate(buf, r);
      case BackCmd(d) =>
        assert Ends(d) <= Ends(cmd);
        Nulterminate(buf, d);
    }
  }

  /** What Parse makes of every text: the grammar is accepted with its meaning, nothing else is. */
  lemma ParseMeans(s: string)
    ensures Parse(s).Ok? <==> InGrammar(s)
    ensures forall l, tail :: GoodLine(l) && Blanks(tail) && s == LineText(l) + tail ==>
      if LineFits(l) then Parse(s).Ok? && TreeOf(s, Parse(s).cmd) == LineTree(l) else Parse(s) == Panic("too many args")
    ensures forall t :: Typeable(t) && s == Print(t) ==> Parse(s).Ok? && TreeOf(s, Parse(s).cmd) == t
  {
    hide *;
    ParseAcceptsIff(s);
    forall l, tail | GoodLine(l) && Blanks(tail) && s == LineText(l) + tail
      ensures if LineFits(l) then Parse(s).Ok? && TreeOf(s, Parse(s).cmd) == LineTree(l)
              else Parse(s) == Panic("too many args")
    {
      GrammarIsRead(l, tail);
    }
    forall t | Typeable(t) && s == Print(t) ensures Parse(s).Ok? && TreeOf(s, Parse(s).cmd) == t { ParseOfPrint(t); }
  }

  method ParseAndCut(buf: array<char>, n: nat) returns (r: Parsed)
    requires n < buf.Length && buf[n] == '\0' && forall k :: 0 <= k < n ==> buf[k] != '\0'
    modifies buf
    ensures r == Parse(old(buf[..n]))
    ensures r.Ok? ==> CTree(buf[..], r.cmd) == TreeOf(old(buf[..n]), r.cmd)
  {
    var s := buf[..n];
    r := Parseline(s, 0);
    if r.Ok? {
      var found, ps := PeekAt(s, r.pos, {});
      if ps != |s| {
        r := Panic("syntax");
      } else {
        var c := r.cmd;
        forall e | e in Ends(c) ensures e <= |s| && (e < |s| ==> !IsWord(s[e])) { EndsAreNoWords(s, c, e); }
        Nulterminate(buf, c);
        assert Cut(s, buf[..], Ends(c));
        CutTree(s, buf[..], Ends(c), c);
        r := Ok(c, n);
      }
    }
  }

  /** parsecmd on a NUL-terminated line of n characters: the parsed command, whose strings are C strings
      in the line and spell exactly the words that were typed. */
  method Parsecmd(buf: array<char>, n: nat) returns (r: Parsed)
    requires n < buf.Length && buf[n] == '\0' && forall k :: 0 <= k < n ==> buf[k] != '\0'
    modifies buf
    ensures r == Parse(old(buf[..n]))
    ensures r.Ok? ==> CTree(buf[..], r.cmd) == TreeOf(old(buf[..n]), r.cmd)
    ensures r.Ok? <==> InGrammar(old(buf[..n]))
    ensures forall l, tail :: GoodLine(l) && Blanks(tail) && old(buf[..n]) == LineText(l) + tail ==>
      if LineFits(l) then r.Ok? && CTree(buf[..], r.cmd) == LineTree(l) else r == Panic("too many args")
    ensures forall t :: Typeable(t) && old(buf[..n]) == Print(t) ==> r.Ok? && CTree(buf[..], r.cmd) == t
  {
    hide *;
    ParseMeans(buf[..n]);
    r := ParseAndCut(buf, n);
  }
}
