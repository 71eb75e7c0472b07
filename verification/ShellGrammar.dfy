/** The shell's concrete syntax: lines of words, redirections, pipes, lists, background marks and
    parentheses with blanks anywhere between them, and the tree each of them means. The parser reads
    every such line as its tree, and accepts no other text. */
module ShellGrammar {
  import opened Shell

  /** A word or a redirection, with the blanks before it and inside it. */
  datatype Item = Arg(gap: string, word: string) | Redir(gap: string, sign: string, mid: string, file: string)

  datatype Exec = Simple(items: seq<Item>) | Block(gap: string, body: Line, post: string, redirs: seq<Item>)

  datatype Pipe = Single(exec: Exec) | Piped(exec: Exec, gap: string, rest: Pipe)

  /** backs: one '&' each, with the blanks before it. */
  datatype Line = Last(pipe: Pipe, backs: seq<string>) | Then(pipe: Pipe, backs: seq<string>, gap: string, rest: Line)

  // ---------------------------------------------------------------- what is typed

  function ItemText(t: Item): (s: string) {
    match t
    case Arg(g, w) => g + w
    case Redir(g, sign, mid, f) => g + (sign + (mid + f))
  }

  function ItemsText(ts: seq<Item>): (s: string) {
    if ts == [] then "" else ItemText(ts[0]) + ItemsText(ts[1..])
  }

  function BacksText(bs: seq<string>): (s: string) {
    if bs == [] then "" else bs[0] + ("&" + BacksText(bs[1..]))
  }

  function ExecText(e: Exec): (s: string) {
    match e
    case Simple(ts) => ItemsText(ts)
    case Block(g, l, post, rs) => g + ("(" + (LineText(l) + (post + (")" + ItemsText(rs)))))
  }

  function PipeText(p: Pipe): (s: string) {
    match p
    case Single(e) => ExecText(e)
    case Piped(e, g, r) => ExecText(e) + (g + ("|" + PipeText(r)))
  }

  function LineText(l: Line): (s: string) {
    match l
    case Last(p, bs) => PipeText(p) + BacksText(bs)
    case Then(p, bs, g, r) => PipeText(p) + (BacksText(bs) + (g + (";" + LineText(r))))
  }

  predicate Blanks(g: string) { forall k :: 0 <= k < |g| ==> IsSpace(g[k]) }

  predicate GoodItem(t: Item) {
    match t
    case Arg(g, w) => Blanks(g) && IsName(w)
    case Redir(g, sign, mid, f) => Blanks(g) && (sign == "<" || sign == ">" || sign == ">>") && Blanks(mid) && IsName(f)
  }

  /** A word that follows another word needs a blank between them. */
  predicate GoodItems(ts: seq<Item>, follows: bool) {
    ts != [] ==>
      && GoodItem(ts[0]) && (follows && ts[0].Arg? ==> ts[0].gap != "")
      && GoodItems(ts[1..], true)
  }

  predicate OnlyRedirs(ts: seq<Item>) { forall k :: 0 <= k < |ts| ==> ts[k].Redir? }

  predicate GoodBacks(bs: seq<string>) { forall k :: 0 <= k < |bs| ==> Blanks(bs[k]) }

  /** Everything the grammar asks for, but for the number of words in a command. */
  predicate GoodExec(e: Exec) {
    match e
    case Simple(ts) => GoodItems(ts, false)
    case Block(g, l, post, rs) => Blanks(g) && GoodLine(l) && Blanks(post) && GoodItems(rs, false) && OnlyRedirs(rs)
  }

  predicate GoodPipe(p: Pipe) {
    match p
    case Single(e) => GoodExec(e)
    case Piped(e, g, r) => GoodExec(e) && Blanks(g) && GoodPipe(r)
  }

  predicate GoodLine(l: Line) {
    match l
    case Last(p, bs) => GoodPipe(p) && GoodBacks(bs)
    case Then(p, bs, g, r) => GoodPipe(p) && GoodBacks(bs) && Blanks(g) && GoodLine(r)
  }

  // ---------------------------------------------------------------- what it means

  /** The words of a simple command, in order. */
  function Words(ts: seq<Item>): (ws: seq<string>) {
    if ts == [] then [] else (if ts[0].Arg? then [ts[0].word] else []) + Words(ts[1..])
  }

  /** Its redirections, in order. */
  function Redirs(ts: seq<Item>): (rs: seq<(string, Mode)>) {
    if ts == [] then [] else
      (if ts[0].Redir? then [(ts[0].file, if ts[0].sign == "<" then In else Out)] else []) + Redirs(ts[1..])
  }

  /** A command inside redirections: the first one typed is the innermost. */
  function Wrapped(t: Tree, rs: seq<(string, Mode)>): (r: Tree) {
    if rs == [] then t else TRedir(Wrapped(t, rs[..|rs| - 1]), rs[|rs| - 1].0, rs[|rs| - 1].1)
  }

  function Backed(t: Tree, n: nat): (r: Tree) { if n == 0 then t else TBack(Backed(t, n - 1)) }

  function ExecTree(e: Exec): (t: Tree) {
    match e
    case Simple(ts) => Wrapped(TExec(Words(ts)), Redirs(ts))
    case Block(g, l, post, rs) => Wrapped(LineTree(l), Redirs(rs))
  }

  function PipeTree(p: Pipe): (t: Tree) {
    match p
    case Single(e) => ExecTree(e)
    case Piped(e, g, r) => TPipe(ExecTree(e), PipeTree(r))
  }

  function LineTree(l: Line): (t: Tree) {
    match l
    case Last(p, bs) => Backed(PipeTree(p), |bs|)
    case Then(p, bs, g, r) => TList(Backed(PipeTree(p), |bs|), LineTree(r))
  }

  /** No simple command has MAXARGS words or more. */
  predicate ExecFits(e: Exec) {
    match e
    case Simple(ts) => |Words(ts)| < MAXARGS
    case Block(g, l, post, rs) => LineFits(l)
  }

  predicate PipeFits(p: Pipe) {
    match p
    case Single(e) => ExecFits(e)
    case Piped(e, g, r) => ExecFits(e) && PipeFits(r)
  }

  predicate LineFits(l: Line) {
    match l
    case Last(p, bs) => PipeFits(p)
    case Then(p, bs, g, r) => PipeFits(p) && LineFits(r)
  }

  // ---------------------------------------------------------------- text at a place

  predicate At(s: string, i: nat, p: string) { i + |p| <= |s| && s[i..i + |p|] == p }

  lemma AtSplit(s: string, i: nat, a: string, b: string)
    requires At(s, i, a + b)
    ensures At(s, i, a) && At(s, i + |a|, b)
  {
    assert s[i..i + |a + b|][..|a|] == a && s[i..i + |a + b|][|a|..] == b;
    assert s[i..i + |a|] == s[i..i + |a + b|][..|a|];
    assert s[i + |a|..i + |a| + |b|] == s[i..i + |a + b|][|a|..];
  }

  lemma AtChar(s: string, i: nat, p: string, k: nat)
    requires At(s, i, p) && k < |p|
    ensures i + k < |s| && s[i + k] == p[k]
  {}

  lemma {:induction false} WordEndIs(s: string, i: nat, e: nat)
    requires i <= e <= |s| && (forall k :: i <= k < e ==> IsWord(s[k])) && (e < |s| ==> !IsWord(s[e]))
    ensures WordEnd(s, i) == e
    decreases e - i
  {}

  /** A name followed by something else is one token. */
  lemma WordToken(s: string, i: nat, w: string)
    requires IsName(w) && At(s, i, w) && (i + |w| < |s| ==> !IsWord(s[i + |w|]))
    ensures i < |s| && IsWord(s[i]) && GetToken(s, i) == Token('a', i, i + |w|, Skip(s, i + |w|))
      && TextOf(s, Tok(i, i + |w|)) == w
  {
    forall k | i <= k < i + |w| ensures IsWord(s[k]) { AtChar(s, i, w, k - i); }
    WordEndIs(s, i, i + |w|);
  }

  // ---------------------------------------------------------------- blanks

  /** After blanks the text ends here or goes on with one of these. */
  predicate Stops(s: string, e: nat, next: set<char>) {
    e <= |s| && var p := Skip(s, e); p == |s| || s[p] in next
  }

  lemma {:induction false} BlanksSkipped(s: string, i: nat, g: string)
    requires At(s, i, g) && Blanks(g)
    ensures i + |g| <= |s| && Skip(s, i) == Skip(s, i + |g|)
    decreases |g|
  {
    if g != "" {
      AtSplit(s, i, g[..1], g[1..]);
      assert g[..1] + g[1..] == g;
      AtChar(s, i, g, 0);
      BlanksSkipped(s, i + 1, g[1..]);
    }
  }

  lemma SkipStops(s: string, i: nat)
    requires i <= |s|
    ensures Skip(s, Skip(s, i)) == Skip(s, i)
    ensures i < |s| && !IsSpace(s[i]) ==> Skip(s, i) == i
  {}

  /** Every parsing function begins by skipping blanks. */
  lemma TokenAlike(s: string, i: nat, j: nat)
    requires i <= |s| && j <= |s| && Skip(s, i) == Skip(s, j)
    ensures GetToken(s, i) == GetToken(s, j)
  {}

  lemma RedirsAlike(s: string, c: Cmd, i: nat, j: nat)
    requires i <= |s| && j <= |s| && Skip(s, i) == Skip(s, j) && WordsOf(s, c)
    ensures ParseRedirs(s, c, i) == ParseRedirs(s, c, j)
  {
    hide GetToken, Skip, WordsOf;
  }

  lemma ArgsAlike(s: string, c: Cmd, argc: nat, i: nat, j: nat)
    requires i <= |s| && j <= |s| && Skip(s, i) == Skip(s, j) && WordsOf(s, c)
    ensures ParseArgs(s, c, argc, i) == ParseArgs(s, c, argc, j)
  {
    hide GetToken, Skip, WordsOf, ParseRedirs, AddArg;
  }

  lemma BacksAlike(s: string, c: Cmd, i: nat, j: nat)
    requires i <= |s| && j <= |s| && Skip(s, i) == Skip(s, j) && WordsOf(s, c)
    ensures ParseBacks(s, c, i) == ParseBacks(s, c, j)
  {
    hide GetToken, Skip, WordsOf;
  }

  lemma LineAlike(s: string, i: nat, j: nat)
    requires i <= |s| && j <= |s| && Skip(s, i) == Skip(s, j)
    ensures ParseExec(s, i) == ParseExec(s, j) && ParsePipe(s, i) == ParsePipe(s, j)
    ensures ParseLine(s, i) == ParseLine(s, j)
  {
    hide GetToken, Skip, WordsOf, ParseRedirs, ParseArgs, ParseBlock, ParseBacks;
    assert ParseExec(s, i) == ParseExec(s, j);
    hide ParseExec;
    assert ParsePipe(s, i) == ParsePipe(s, j);
  }

  // ---------------------------------------------------------------- items

  const ENDS: set<char> := {'|', ')', '&', ';'}

  predicate NoWord(s: string, e: nat) { e <= |s| && (e < |s| ==> !IsWord(s[e])) }

  /** What follows an item is no word character. */
  lemma ItemEnds(s: string, e: nat, ts: seq<Item>)
    requires At(s, e, ItemsText(ts)) && GoodItems(ts, true) && Stops(s, e + |ItemsText(ts)|, ENDS)
    ensures NoWord(s, e)
  {
    if ts == [] {
      SkipStops(s, e);
    } else {
      AtSplit(s, e, ItemText(ts[0]), ItemsText(ts[1..]));
      var g := ts[0].gap;
      assert ts[0].Redir? ==> ts[0].sign[0] == '<' || ts[0].sign[0] == '>';
      AtChar(s, e, ItemText(ts[0]), 0);
      assert g != "" ==> ItemText(ts[0])[0] == g[0];
      assert g == "" ==> ts[0].Redir? && ItemText(ts[0])[0] == ts[0].sign[0];
    }
  }

  /** parseredirs and then the loop of parseexec. */
  function Rest(s: string, c: Cmd, argc: nat, i: nat): (r: Parsed)
    requires i <= |s| && WordsOf(s, c)
  {
    match ParseRedirs(s, c, i)
    case Ok(d, j) => ParseArgs(s, d, argc, j)
    case Panic(m) => Panic(m)
  }

  lemma ArgPlace(s: string, i: nat, g: string, w: string)
    requires At(s, i, g + w) && Blanks(g) && IsName(w) && NoWord(s, i + |g + w|)
    ensures var p, e := i + |g|, i + |g + w|;
      && p < e <= |s| && Skip(s, i) == p && IsWord(s[p]) && GetToken(s, p) == Token('a', p, e, Skip(s, e))
      && TextOf(s, Tok(p, e)) == w
  {
    AtSplit(s, i, g, w);
    BlanksSkipped(s, i, g);
    WordToken(s, i + |g|, w);
    SkipStops(s, i + |g|);
  }

  lemma WordChar(c: char)
    requires IsWord(c)
    ensures c !in {'<', '>'} && c !in ENDS && c != '('
  {}

  lemma NoRedirs(s: string, c: Cmd, i: nat)
    requires i <= |s| && WordsOf(s, c) && (Skip(s, i) < |s| ==> s[Skip(s, i)] !in {'<', '>'})
    ensures ParseRedirs(s, c, i) == Ok(c, Skip(s, i))
  {
    hide WordsOf, Skip, GetToken;
  }

  lemma ArgTaken(s: string, c: Cmd, argc: nat, i: nat, p: nat, e: nat)
    requires i <= |s| && p < e <= |s| && Skip(s, i) == p && IsWord(s[p])
      && GetToken(s, p) == Token('a', p, e, Skip(s, e))
    requires WordsOf(s, c) && WordsOf(s, AddArg(c, Tok(p, e)))
    ensures ParseArgs(s, c, argc, p) ==
      if argc + 1 >= MAXARGS then Panic("too many args") else Rest(s, AddArg(c, Tok(p, e)), argc + 1, Skip(s, e))
  {
    WordChar(s[p]);
    SkipStops(s, i);
    hide WordsOf, Skip, GetToken, ParseRedirs, AddArg, IsWord;
  }

  /** A word is one more argument. */
  lemma ArgStep(s: string, c: Cmd, argc: nat, i: nat, g: string, w: string)
    requires At(s, i, g + w) && Blanks(g) && IsName(w) && NoWord(s, i + |g + w|) && WordsOf(s, c)
    ensures var a, e := Tok(i + |g|, i + |g + w|), i + |g + w|;
      && e <= |s| && WordsOf(s, AddArg(c, a)) && TextOf(s, a) == w
      && Rest(s, c, argc, i) == if argc + 1 >= MAXARGS then Panic("too many args")
         else Rest(s, AddArg(c, a), argc + 1, e)
  {
    var p, e := i + |g|, i + |g + w|;
    ArgPlace(s, i, g, w);
    assert WordAt(s, Tok(p, e));
    hide GetToken, Skip, IsName, Blanks, At, TextOf, WordAt, ParseRedirs, ParseArgs, AddArg, WordsOf, IsWord;
    AddArgKeepsWords(s, c, Tok(p, e));
    WordChar(s[p]);
    NoRedirs(s, c, i);
    ArgTaken(s, c, argc, i, p, e);
    SkipStops(s, e);
    RedirsAlike(s, AddArg(c, Tok(p, e)), Skip(s, e), e);
  }

  lemma SignPlace(s: string, p: nat, sign: string, rest: string)
    requires At(s, p, sign + rest) && rest != "" && (IsSpace(rest[0]) || IsWord(rest[0]))
    requires sign == "<" || sign == ">" || sign == ">>"
    ensures p < |s| && s[p] in {'<', '>'} && Skip(s, p) == p && p + |sign| <= |s|
    ensures GetToken(s, p) == Token(if sign == ">>" then '+' else sign[0], p, p + |sign|, Skip(s, p + |sign|))
  {
    AtSplit(s, p, sign, rest);
    AtChar(s, p, sign, 0);
    AtChar(s, p + |sign|, rest, 0);
    if sign == ">>" { AtChar(s, p, sign, 1); }
    hide At;
  }

  lemma RedirTaken(s: string, c: Cmd, i: nat, p: nat, t: Token, f: Token)
    requires i <= |s| && p < |s| && Skip(s, i) == p && s[p] in {'<', '>'} && GetToken(s, p) == t && t.next <= |s|
    requires GetToken(s, t.next) == f && f.kind == 'a' && f.next <= |s| && WordsOf(s, c)
    ensures var d := RedirCmd(c, Tok(f.q, f.eq), if t.kind == '<' then In else Out);
      WordsOf(s, d) && ParseRedirs(s, c, i) == ParseRedirs(s, d, f.next)
  {
    hide Skip;
  }

  lemma RedirText(g: string, sign: string, mid: string, w: string)
    ensures ItemText(Redir(g, sign, mid, w)) == g + (sign + (mid + w))
    ensures GoodItem(Redir(g, sign, mid, w)) ==>
      Blanks(g) && Blanks(mid) && IsName(w) && (sign == "<" || sign == ">" || sign == ">>")
  {}

  lemma RedirParts(s: string, i: nat, g: string, sign: string, mid: string, w: string)
    requires At(s, i, g + (sign + (mid + w)))
    ensures |g + (sign + (mid + w))| == |g| + |sign| + |mid| + |w| && |mid + w| == |mid| + |w|
    ensures At(s, i, g) && At(s, i + |g|, sign + (mid + w)) && At(s, i + |g| + |sign|, mid + w)
    ensures At(s, i + |g| + |sign|, mid)
  {
    AtSplit(s, i, g, sign + (mid + w));
    AtSplit(s, i + |g|, sign, mid + w);
    AtSplit(s, i + |g| + |sign|, mid, w);
  }

  lemma RestStart(mid: string, w: string)
    requires Blanks(mid) && IsName(w)
    ensures mid + w != "" && (IsSpace((mid + w)[0]) || IsWord((mid + w)[0]))
  {
    assert (mid + w)[0] == if mid != "" then mid[0] else w[0];
  }

  lemma RedirPlace(s: string, i: nat, g: string, sign: string, mid: string, w: string)
    requires Blanks(g) && Blanks(mid) && IsName(w) && (sign == "<" || sign == ">" || sign == ">>")
    requires At(s, i, g + (sign + (mid + w))) && NoWord(s, i + |g| + |sign| + |mid| + |w|)
    ensures var p, b := i + |g|, i + |g| + |sign|;
      var n, e := b + |mid|, b + |mid| + |w|;
      && p < |s| && Skip(s, i) == p && s[p] in {'<', '>'} && b <= n < e <= |s|
      && GetToken(s, p) == Token(if sign == ">>" then '+' else sign[0], p, b, Skip(s, b))
      && GetToken(s, Skip(s, b)) == Token('a', n, e, Skip(s, e)) && TextOf(s, Tok(n, e)) == w
  {
    hide *;
    RedirParts(s, i, g, sign, mid, w);
    RestStart(mid, w);
    var p, b := i + |g|, i + |g| + |sign|;
    SignPlace(s, p, sign, mid + w);
    BlanksSkipped(s, i, g);
    BlanksSkipped(s, b, mid);
    ArgPlace(s, b, mid, w);
    SkipStops(s, b);
    TokenAlike(s, Skip(s, b), b + |mid|);
  }

  /** A redirection wraps the command read so far. */
  lemma RedirStep(s: string, c: Cmd, i: nat, g: string, sign: string, mid: string, w: string)
    requires GoodItem(Redir(g, sign, mid, w)) && WordsOf(s, c)
    requires At(s, i, ItemText(Redir(g, sign, mid, w))) && NoWord(s, i + |ItemText(Redir(g, sign, mid, w))|)
    ensures var e := i + |ItemText(Redir(g, sign, mid, w))|;
      && i <= e - |w| && e <= |s|
      && var d := RedirCmd(c, Tok(e - |w|, e), if sign == "<" then In else Out);
      && WordsOf(s, d) && TextOf(s, Tok(e - |w|, e)) == w && ParseRedirs(s, c, i) == ParseRedirs(s, d, e)
  {
    hide *;
    RedirText(g, sign, mid, w);
    RedirParts(s, i, g, sign, mid, w);
    RedirPlace(s, i, g, sign, mid, w);
    var p, b := i + |g|, i + |g| + |sign|;
    var n, e := b + |mid|, b + |mid| + |w|;
    RedirTaken(s, c, i, p, GetToken(s, p), GetToken(s, Skip(s, b)));
    SkipStops(s, e);
    RedirsAlike(s, RedirCmd(c, Tok(n, e), if sign == "<" then In else Out), Skip(s, e), e);
  }

  lemma WrappedMore(t: Tree, rs: seq<(string, Mode)>, f: string, m: Mode)
    ensures Wrapped(t, rs + [(f, m)]) == TRedir(Wrapped(t, rs), f, m)
  {
    assert (rs + [(f, m)])[..|rs|] == rs;
  }

  /** An argument goes to the command inside, however many redirections were read before it. */
  lemma {:induction false} AddArgMeans(s: string, c: Cmd, a: Tok, ws: seq<string>, rs: seq<(string, Mode)>)
    requires TreeOf(s, c) == Wrapped(TExec(ws), rs)
    ensures TreeOf(s, AddArg(c, a)) == Wrapped(TExec(ws + [TextOf(s, a)]), rs)
    decreases |rs|
  {
    if rs == [] {
      assert c.ExecCmd?;
    } else {
      AddArgMeans(s, c.cmd, a, ws, rs[..|rs| - 1]);
    }
  }

  lemma NoItems()
    ensures ItemsText([]) == "" && Words([]) == [] && Redirs([]) == []
  {}

  lemma ItemsCons(ts: seq<Item>, follows: bool)
    requires ts != [] && GoodItems(ts, follows)
    ensures ItemsText(ts) == ItemText(ts[0]) + ItemsText(ts[1..])
    ensures |ItemsText(ts)| == |ItemText(ts[0])| + |ItemsText(ts[1..])|
    ensures GoodItem(ts[0]) && GoodItems(ts[1..], true)
    ensures Words(ts) == (if ts[0].Arg? then [ts[0].word] else []) + Words(ts[1..])
    ensures Redirs(ts) ==
      (if ts[0].Redir? then [(ts[0].file, if ts[0].sign == "<" then In else Out)] else []) + Redirs(ts[1..])
    ensures OnlyRedirs(ts) ==> ts[0].Redir? && OnlyRedirs(ts[1..])
  {
    hide ItemText, GoodItem;
  }

  /** The first item, and that what follows it is no word character. */
  lemma FirstItem(s: string, i: nat, ts: seq<Item>, follows: bool)
    requires At(s, i, ItemsText(ts)) && GoodItems(ts, follows) && Stops(s, i + |ItemsText(ts)|, ENDS) && ts != []
    ensures At(s, i, ItemText(ts[0])) && NoWord(s, i + |ItemText(ts[0])|)
    ensures At(s, i + |ItemText(ts[0])|, ItemsText(ts[1..]))
  {
    hide *;
    ItemsCons(ts, follows);
    AtSplit(s, i, ItemText(ts[0]), ItemsText(ts[1..]));
    ItemEnds(s, i + |ItemText(ts[0])|, ts[1..]);
  }

  lemma EndsNoRedir(s: string, e: nat)
    requires Stops(s, e, ENDS)
    ensures e <= |s| && (Skip(s, e) < |s| ==> s[Skip(s, e)] !in {'<', '>'})
  {}

  lemma RedirTreeOf(s: string, c: Cmd, f: Tok, m: Mode)
    ensures TreeOf(s, RedirCmd(c, f, m)) == TRedir(TreeOf(s, c), TextOf(s, f), m)
  {}

  /** parseredirs goes on alike. */
  predicate SameRest(s: string, c: Cmd, i: nat, d: Cmd, j: nat) {
    && i <= |s| && j <= |s| && WordsOf(s, c) && WordsOf(s, d)
    && ParseRedirs(s, c, i) == ParseRedirs(s, d, j)
  }

  lemma RestOf(s: string, c: Cmd, i: nat, d: Cmd, j: nat, argc: nat)
    requires SameRest(s, c, i, d, j)
    ensures i <= |s| && j <= |s| && WordsOf(s, c) && WordsOf(s, d)
    ensures ParseRedirs(s, c, i) == ParseRedirs(s, d, j) && Rest(s, c, argc, i) == Rest(s, d, argc, j)
  {
    hide WordsOf, ParseRedirs, ParseArgs;
  }

  lemma AtWithin(s: string, i: nat, p: string)
    requires At(s, i, p)
    ensures i + |p| <= |s|
  {}

  lemma RedirItemRead(s: string, c: Cmd, i: nat, r: Item, t: Tree, rs: seq<(string, Mode)>)
    requires r.Redir? && At(s, i, ItemText(r)) && GoodItem(r) && NoWord(s, i + |ItemText(r)|)
    requires WordsOf(s, c) && TreeOf(s, c) == Wrapped(t, rs)
    ensures var e, m := i + |ItemText(r)|, if r.sign == "<" then In else Out;
      && i <= e - |r.file|
      && var d := RedirCmd(c, Tok(e - |r.file|, e), m);
      SameRest(s, c, i, d, e) && TreeOf(s, d) == Wrapped(t, rs + [(r.file, m)])
  {
    hide At, GoodItem, NoWord, ItemText, WordsOf, TreeOf, Wrapped, ParseRedirs;
    assert r == Redir(r.gap, r.sign, r.mid, r.file);
    RedirStep(s, c, i, r.gap, r.sign, r.mid, r.file);
    var e, m := i + |ItemText(r)|, if r.sign == "<" then In else Out;
    WrappedMore(t, rs, r.file, m);
    RedirTreeOf(s, c, Tok(e - |r.file|, e), m);
    AtWithin(s, i, ItemText(r));
  }

  /** parseredirs, up to where the command ends. */
  lemma {:induction false} RedirsRead(s: string, c: Cmd, i: nat, ts: seq<Item>, follows: bool,
                                      t: Tree, rs: seq<(string, Mode)>)
    requires At(s, i, ItemsText(ts)) && GoodItems(ts, follows) && OnlyRedirs(ts)
    requires Stops(s, i + |ItemsText(ts)|, ENDS) && WordsOf(s, c) && TreeOf(s, c) == Wrapped(t, rs)
    ensures var r := ParseRedirs(s, c, i);
      r.Ok? && r.pos == Skip(s, i + |ItemsText(ts)|) && TreeOf(s, r.cmd) == Wrapped(t, rs + Redirs(ts))
    decreases |ts|
  {
    hide *;
    NoItems();
    if ts == [] {
      EndsNoRedir(s, i);
      NoRedirs(s, c, i);
      assert rs + [] == rs;
    } else {
      ItemsCons(ts, follows);
      FirstItem(s, i, ts, follows);
      var r := ts[0];
      var e, m := i + |ItemText(r)|, if r.sign == "<" then In else Out;
      RedirItemRead(s, c, i, r, t, rs);
      RestOf(s, c, i, RedirCmd(c, Tok(e - |r.file|, e), m), e, 0);
      RedirsRead(s, RedirCmd(c, Tok(e - |r.file|, e), m), e, ts[1..], true, t, rs + [(r.file, m)]);
      assert rs + Redirs(ts) == rs + [(r.file, m)] + Redirs(ts[1..]);
    }
  }

  lemma ArgsEnd(s: string, c: Cmd, argc: nat, i: nat)
    requires Stops(s, i, ENDS) && WordsOf(s, c)
    ensures Rest(s, c, argc, i) == Ok(c, Skip(s, i))
  {
    EndsNoRedir(s, i);
    NoRedirs(s, c, i);
    SkipStops(s, i);
    hide ParseRedirs, WordsOf, AddArg;
  }

  lemma ArgItemRead(s: string, c: Cmd, i: nat, g: string, w: string, ws: seq<string>, rs: seq<(string, Mode)>)
    requires At(s, i, ItemText(Arg(g, w))) && GoodItem(Arg(g, w)) && NoWord(s, i + |ItemText(Arg(g, w))|)
    requires WordsOf(s, c) && TreeOf(s, c) == Wrapped(TExec(ws), rs)
    ensures var e := i + |ItemText(Arg(g, w))|;
      var d := AddArg(c, Tok(i + |g|, e));
      && e <= |s| && WordsOf(s, d) && TreeOf(s, d) == Wrapped(TExec(ws + [w]), rs)
      && Rest(s, c, |ws|, i) == if |ws| + 1 >= MAXARGS then Panic("too many args") else Rest(s, d, |ws| + 1, e)
  {
    hide At, IsName, Blanks, TextOf, AddArg, WordsOf, TreeOf, Wrapped, Rest, NoWord;
    ArgStep(s, c, |ws|, i, g, w);
    AddArgMeans(s, c, Tok(i + |g|, i + |g + w|), ws, rs);
  }

  /** The loop of parseexec reads every word into argv and every redirection around the command, in
      whatever order they come; too many words are a panic. */
  lemma {:induction false} ItemsRead(s: string, c: Cmd, i: nat, ts: seq<Item>, follows: bool,
                                     ws: seq<string>, rs: seq<(string, Mode)>)
    requires At(s, i, ItemsText(ts)) && GoodItems(ts, follows)
    requires Stops(s, i + |ItemsText(ts)|, ENDS) && WordsOf(s, c) && TreeOf(s, c) == Wrapped(TExec(ws), rs)
    requires |ws| < MAXARGS
    ensures var r := Rest(s, c, |ws|, i);
      if |ws| + |Words(ts)| >= MAXARGS then r == Panic("too many args")
      else r.Ok? && r.pos == Skip(s, i + |ItemsText(ts)|)
           && TreeOf(s, r.cmd) == Wrapped(TExec(ws + Words(ts)), rs + Redirs(ts))
    decreases |ts|
  {
    hide *;
    NoItems();
    if ts == [] {
      ArgsEnd(s, c, |ws|, i);
      assert rs + [] == rs && ws + [] == ws;
    } else {
      ItemsCons(ts, follows);
      FirstItem(s, i, ts, follows);
      var r := ts[0];
      var e := i + |ItemText(r)|;
      if r.Arg? {
        ArgItemRead(s, c, i, r.gap, r.word, ws, rs);
        if |ws| + 1 < MAXARGS {
          ItemsRead(s, AddArg(c, Tok(i + |r.gap|, e)), e, ts[1..], true, ws + [r.word], rs);
          assert ws + [r.word] + Words(ts[1..]) == ws + Words(ts);
          assert rs + Redirs(ts) == rs + Redirs(ts[1..]);
        }
      } else {
        var m := if r.sign == "<" then In else Out;
        RedirItemRead(s, c, i, r, TExec(ws), rs);
        RestOf(s, c, i, RedirCmd(c, Tok(e - |r.file|, e), m), e, |ws|);
        ItemsRead(s, RedirCmd(c, Tok(e - |r.file|, e), m), e, ts[1..], true, ws, rs + [(r.file, m)]);
        assert rs + Redirs(ts) == rs + [(r.file, m)] + Redirs(ts[1..]);
        assert ws + Words(ts) == ws + Words(ts[1..]);
      }
    }
  }

  // ---------------------------------------------------------------- commands and lines

  lemma ArgFirst(s: string, i: nat, r: Item)
    requires r.Arg? && GoodItem(r) && At(s, i, ItemText(r)) && NoWord(s, i + |ItemText(r)|)
    ensures i <= |s| && Skip(s, i) < |s| && s[Skip(s, i)] != '('
  {
    hide At, IsName, Blanks, NoWord, Skip;
    ArgPlace(s, i, r.gap, r.word);
  }

  lemma RedirFirst(s: string, i: nat, r: Item)
    requires r.Redir? && GoodItem(r) && At(s, i, ItemText(r)) && NoWord(s, i + |ItemText(r)|)
    ensures i <= |s| && Skip(s, i) < |s| && s[Skip(s, i)] != '('
  {
    hide *;
    RedirText(r.gap, r.sign, r.mid, r.file);
    RedirParts(s, i, r.gap, r.sign, r.mid, r.file);
    RedirPlace(s, i, r.gap, r.sign, r.mid, r.file);
  }

  lemma NoParen(s: string, i: nat, ts: seq<Item>)
    requires At(s, i, ItemsText(ts)) && GoodItems(ts, false) && Stops(s, i + |ItemsText(ts)|, ENDS)
    ensures i <= |s| && !Peek(s, Skip(s, i), {'('})
  {
    hide GoodItem, GoodItems, ItemsText, Skip;
    if ts == [] {
      NoItems();
    } else {
      ItemsCons(ts, false);
      FirstItem(s, i, ts, false);
      var r := ts[0];
      if r.Arg? {
        ArgFirst(s, i, r);
      } else {
        RedirFirst(s, i, r);
      }
    }
  }

  /** What the parser must make of a text of this meaning that ends before e. */
  predicate Reads(s: string, r: Parsed, fits: bool, t: Tree, e: nat) {
    e <= |s| && if fits then r.Ok? && r.pos == Skip(s, e) && TreeOf(s, r.cmd) == t else r == Panic("too many args")
  }

  lemma EmptyExec(s: string)
    ensures WordsOf(s, ExecCmd([])) && TreeOf(s, ExecCmd([])) == Wrapped(TExec([]), [])
  {}

  lemma ExecIsRest(s: string, i: nat)
    requires i <= |s| && !Peek(s, Skip(s, i), {'('}) && WordsOf(s, ExecCmd([]))
    ensures ParseExec(s, i) == Rest(s, ExecCmd([]), 0, Skip(s, i))
  {
    hide Skip, ParseRedirs, ParseArgs, ParseBlock, WordsOf, Peek;
  }

  lemma RestAlike(s: string, c: Cmd, argc: nat, i: nat)
    requires i <= |s| && WordsOf(s, c)
    ensures Rest(s, c, argc, i) == Rest(s, c, argc, Skip(s, i))
  {
    SkipStops(s, i);
    hide Skip, ParseRedirs, ParseArgs, WordsOf;
    RedirsAlike(s, c, i, Skip(s, i));
  }

  lemma EndsWithin(s: string, e: nat, next: set<char>)
    requires Stops(s, e, next)
    ensures e <= |s| && (Skip(s, e) == |s| || s[Skip(s, e)] in next)
  {}

  /** A simple command. */
  lemma SimpleRead(s: string, i: nat, ts: seq<Item>)
    requires At(s, i, ItemsText(ts)) && GoodItems(ts, false) && Stops(s, i + |ItemsText(ts)|, ENDS)
    ensures i <= |s| && Reads(s, ParseExec(s, i), |Words(ts)| < MAXARGS, Wrapped(TExec(Words(ts)), Redirs(ts)),
                              i + |ItemsText(ts)|)
  {
    hide At, GoodItems, Stops, Skip, ItemsText, ParseExec, Rest, WordsOf, TreeOf, Wrapped, Words, Redirs, Peek;
    NoParen(s, i, ts);
    EmptyExec(s);
    ExecIsRest(s, i);
    RestAlike(s, ExecCmd([]), 0, i);
    ItemsRead(s, ExecCmd([]), i, ts, false, [], []);
    assert [] + Words(ts) == Words(ts) && [] + Redirs(ts) == Redirs(ts);
    EndsWithin(s, i + |ItemsText(ts)|, ENDS);
  }

  lemma SymbolFacts(s: string, p: nat)
    requires p < |s| && s[p] in {'(', ')', '|', '&', ';'} && Skip(s, p) == p
    ensures GetToken(s, p) == Token(s[p], p, p + 1, Skip(s, p + 1))
  {}

  lemma Slices(s: string, i: nat, p: nat, e: nat)
    requires i <= p <= e <= |s|
    ensures s[i..p] + s[p..e] == s[i..e]
  {}

  lemma SymbolSlice(s: string, p: nat, e: nat)
    requires p < e <= |s|
    ensures [s[p]] + s[p + 1..e] == s[p..e]
  {}

  lemma ItemsMore(t: Item, ts: seq<Item>, follows: bool)
    requires GoodItem(t) && (follows && t.Arg? ==> t.gap != "") && GoodItems(ts, true)
    ensures GoodItems([t] + ts, follows) && ItemsText([t] + ts) == ItemText(t) + ItemsText(ts)
    ensures |Words([t] + ts)| == |Words(ts)| + if t.Arg? then 1 else 0
    ensures OnlyRedirs(ts) && t.Redir? ==> OnlyRedirs([t] + ts)
  {
    assert ([t] + ts)[1..] == ts;
  }

  lemma SymbolChar(c: char)
    requires c in {'(', ')', '|', '&', ';'}
    ensures !IsSpace(c)
  {}

  /** Blanks and then a symbol other than '>'. */
  lemma SymbolPlace(s: string, i: nat, g: string, c: char, rest: string)
    requires At(s, i, g + ([c] + rest)) && Blanks(g) && c in {'(', ')', '|', '&', ';'}
    ensures var p := i + |g|;
      && p < |s| && s[p] == c && Skip(s, i) == p && At(s, p + 1, rest)
      && GetToken(s, p) == Token(c, p, p + 1, Skip(s, p + 1))
  {
    hide *;
    AtSplit(s, i, g, [c] + rest);
    AtSplit(s, i + |g|, [c], rest);
    AtChar(s, i + |g|, [c], 0);
    BlanksSkipped(s, i, g);
    SymbolChar(c);
    SkipStops(s, i + |g|);
    SymbolFacts(s, i + |g|);
  }

  lemma BlockTaken(s: string, i: nat, p: nat, c: Cmd, k: nat)
    requires i <= |s| && p < |s| && Skip(s, i) == p && s[p] == '(' && GetToken(s, p).next == Skip(s, p + 1)
    requires ParseLine(s, Skip(s, p + 1)) == Ok(c, k) && k < |s| && s[k] == ')' && GetToken(s, k).next == Skip(s, k + 1)
    ensures WordsOf(s, c) && ParseExec(s, i) == ParseRedirs(s, c, Skip(s, k + 1))
  {
    assert Skip(s, p) == p && Skip(s, k) == k;
    assert WordsOf(s, c);
    hide Skip, GetToken, ParseRedirs, ParseArgs, ParseLine, WordsOf;
    assert ParseBlock(s, p) == ParseRedirs(s, c, Skip(s, k + 1));
  }

  lemma BlockFails(s: string, i: nat, p: nat, m: string)
    requires i <= |s| && p < |s| && Skip(s, i) == p && s[p] == '(' && GetToken(s, p).next == Skip(s, p + 1)
    requires ParseLine(s, Skip(s, p + 1)) == Panic(m)
    ensures ParseExec(s, i) == Panic(m)
  {
    assert Skip(s, p) == p;
    hide Skip, GetToken, ParseRedirs, ParseArgs, ParseLine, WordsOf;
    assert ParseBlock(s, p) == Panic(m);
  }

  lemma PipeOn(s: string, i: nat, c: Cmd, p: nat)
    requires i <= |s| && ParseExec(s, i) == Ok(c, p) && p <= |s| && Skip(s, p) == p
    ensures p < |s| && s[p] == '|' && GetToken(s, p).next == Skip(s, p + 1) ==>
      ParsePipe(s, i) == match ParsePipe(s, Skip(s, p + 1)) case Panic(m) => Panic(m)
        case Ok(d, k) => Ok(PipeCmd(c, d), k)
    ensures p == |s| || s[p] != '|' ==> ParsePipe(s, i) == Ok(c, p)
  {
    hide Skip, GetToken, ParseExec, WordsOf;
  }

  lemma PipeFails(s: string, i: nat, m: string)
    requires i <= |s| && ParseExec(s, i) == Panic(m)
    ensures ParsePipe(s, i) == Panic(m)
  {}

  lemma LineOn(s: string, i: nat, c: Cmd, j: nat, d: Cmd, p: nat)
    requires i <= |s| && ParsePipe(s, i) == Ok(c, j) && j <= |s| && WordsOf(s, c)
    requires ParseBacks(s, c, j) == Ok(d, p) && p <= |s| && Skip(s, p) == p
    ensures p < |s| && s[p] == ';' && GetToken(s, p).next == Skip(s, p + 1) ==>
      ParseLine(s, i) == match ParseLine(s, Skip(s, p + 1)) case Panic(m) => Panic(m)
        case Ok(e, k) => Ok(ListCmd(d, e), k)
    ensures p == |s| || s[p] != ';' ==> ParseLine(s, i) == Ok(d, p)
  {
    hide Skip, GetToken, ParsePipe, ParseBacks, WordsOf;
  }

  lemma LineFails(s: string, i: nat, m: string)
    requires i <= |s| && ParsePipe(s, i) == Panic(m)
    ensures ParseLine(s, i) == Panic(m)
  {}

  lemma {:induction false} BackedMore(t: Tree, n: nat)
    ensures Backed(TBack(t), n) == TBack(Backed(t, n))
  {
    if n > 0 { BackedMore(t, n - 1); }
  }

  lemma BackStep(s: string, c: Cmd, i: nat, p: nat)
    requires i <= |s| && WordsOf(s, c) && Skip(s, i) == p
    ensures p < |s| && s[p] == '&' && GetToken(s, p).next == Skip(s, p + 1) ==>
      WordsOf(s, BackCmd(c)) && ParseBacks(s, c, i) == ParseBacks(s, BackCmd(c), Skip(s, p + 1))
    ensures p == |s| || s[p] != '&' ==> ParseBacks(s, c, i) == Ok(c, p)
  {
    hide Skip, GetToken;
  }

  lemma BacksCons(bs: seq<string>)
    requires GoodBacks(bs)
    ensures bs == [] ==> BacksText(bs) == ""
    ensures bs != [] ==> BacksText(bs) == bs[0] + (['&'] + BacksText(bs[1..])) && Blanks(bs[0]) && GoodBacks(bs[1..])
    ensures bs != [] ==> |BacksText(bs)| == |bs[0]| + 1 + |BacksText(bs[1..])|
  {}

  /** parseline's loop over '&'. */
  lemma {:induction false} BacksRead(s: string, c: Cmd, i: nat, bs: seq<string>)
    requires At(s, i, BacksText(bs)) && GoodBacks(bs) && Stops(s, i + |BacksText(bs)|, {')', ';'}) && WordsOf(s, c)
    ensures i <= |s| && Reads(s, ParseBacks(s, c, i), true, Backed(TreeOf(s, c), |bs|), i + |BacksText(bs)|)
    decreases |bs|
  {
    hide At, Stops, Skip, GetToken, BacksText, GoodBacks, WordsOf, ParseBacks, Blanks;
    BacksCons(bs);
    EndsWithin(s, i + |BacksText(bs)|, {')', ';'});
    if bs == [] {
      BackStep(s, c, i, Skip(s, i));
    } else {
      SymbolPlace(s, i, bs[0], '&', BacksText(bs[1..]));
      var p := i + |bs[0]|;
      BackStep(s, c, i, p);
      SkipStops(s, p + 1);
      BacksAlike(s, BackCmd(c), Skip(s, p + 1), p + 1);
      BacksRead(s, BackCmd(c), p + 1, bs[1..]);
      BackedMore(TreeOf(s, c), |bs| - 1);
    }
  }

  lemma ExecParts(e: Exec)
    requires GoodExec(e)
    ensures e.Simple? ==> GoodItems(e.items, false) && ExecText(e) == ItemsText(e.items)
    ensures e.Simple? ==>
      ExecFits(e) == (|Words(e.items)| < MAXARGS) && ExecTree(e) == Wrapped(TExec(Words(e.items)), Redirs(e.items))
    ensures e.Block? ==>
      && ExecText(e) == e.gap + (['('] + (LineText(e.body) + (e.post + ([')'] + ItemsText(e.redirs)))))
      && |ExecText(e)| == |e.gap| + 1 + |LineText(e.body)| + |e.post| + 1 + |ItemsText(e.redirs)|
    ensures e.Block? ==>
      && Blanks(e.gap) && GoodLine(e.body) && Blanks(e.post) && GoodItems(e.redirs, false) && OnlyRedirs(e.redirs)
      && ExecFits(e) == LineFits(e.body) && ExecTree(e) == Wrapped(LineTree(e.body), Redirs(e.redirs))
  {
    hide GoodItems, Blanks, OnlyRedirs, GoodLine, Wrapped, Words, Redirs, LineText, ItemsText;
  }

  lemma PipeParts(p: Pipe)
    requires GoodPipe(p)
    ensures GoodExec(p.exec)
    ensures p.Single? ==> PipeText(p) == ExecText(p.exec)
    ensures p.Single? ==> PipeTree(p) == ExecTree(p.exec) && PipeFits(p) == ExecFits(p.exec)
    ensures p.Piped? ==> PipeText(p) == ExecText(p.exec) + (p.gap + (['|'] + PipeText(p.rest)))
    ensures p.Piped? ==> |PipeText(p)| == |ExecText(p.exec)| + |p.gap| + 1 + |PipeText(p.rest)|
    ensures p.Piped? ==> Blanks(p.gap) && GoodPipe(p.rest) && PipeFits(p) == (ExecFits(p.exec) && PipeFits(p.rest))
    ensures p.Piped? ==> PipeTree(p) == TPipe(ExecTree(p.exec), PipeTree(p.rest))
  {
    hide GoodExec, Blanks, ExecText, ExecTree, ExecFits;
  }

  lemma LineParts(l: Line)
    requires GoodLine(l)
    ensures GoodPipe(l.pipe) && GoodBacks(l.backs)
    ensures l.Last? ==> LineText(l) == PipeText(l.pipe) + BacksText(l.backs)
    ensures l.Last? ==> |LineText(l)| == |PipeText(l.pipe)| + |BacksText(l.backs)|
    ensures l.Last? ==> LineTree(l) == Backed(PipeTree(l.pipe), |l.backs|) && LineFits(l) == PipeFits(l.pipe)
    ensures l.Then? ==> LineText(l) == PipeText(l.pipe) + (BacksText(l.backs) + (l.gap + ([';'] + LineText(l.rest))))
    ensures l.Then? ==> |LineText(l)| == |PipeText(l.pipe)| + |BacksText(l.backs)| + |l.gap| + 1 + |LineText(l.rest)|
    ensures l.Then? ==> Blanks(l.gap) && GoodLine(l.rest) && LineFits(l) == (PipeFits(l.pipe) && LineFits(l.rest))
    ensures l.Then? ==> LineTree(l) == TList(Backed(PipeTree(l.pipe), |l.backs|), LineTree(l.rest))
  {
    hide GoodPipe, GoodBacks, Blanks, PipeText, BacksText, PipeTree, PipeFits, Backed;
  }

  lemma EndsAt(s: string, i: nat, next: set<char>)
    requires i <= |s| && (Skip(s, i) == |s| || s[Skip(s, i)] in next)
    ensures Stops(s, i, next)
  {}

  lemma EndsMore(s: string, i: nat, some: set<char>, more: set<char>)
    requires Stops(s, i, some) && some <= more
    ensures Stops(s, i, more)
  {}

  lemma ReadsMeans(s: string, r: Parsed, fits: bool, t: Tree, e: nat)
    ensures Reads(s, r, fits, t, e) <==>
      e <= |s| && if fits then r.Ok? && r.pos == Skip(s, e) && TreeOf(s, r.cmd) == t else r == Panic("too many args")
  {}

  const LINEENDS: set<char> := {')'}
  const BACKENDS: set<char> := {')', ';'}
  const PIPEENDS: set<char> := {')', ';', '&'}

  lemma EndSets()
    ensures LINEENDS <= BACKENDS <= PIPEENDS <= ENDS && LINEENDS == {')'} && BACKENDS == {')', ';'}
    ensures '|' in ENDS && '|' !in PIPEENDS && '&' in PIPEENDS && ';' in BACKENDS && ';' !in LINEENDS && ')' in LINEENDS
  {}

  lemma WrappedNone(t: Tree)
    ensures Wrapped(t, []) == t
  {}

  lemma ReadExec(s: string, i: nat, e: Exec)
    requires GoodExec(e) && At(s, i, ExecText(e)) && Stops(s, i + |ExecText(e)|, ENDS)
    ensures i <= |s| && Reads(s, ParseExec(s, i), ExecFits(e), ExecTree(e), i + |ExecText(e)|)
    decreases e, 0
  {
    hide *;
    ExecParts(e);
    if e.Simple? {
      SimpleRead(s, i, e.items);
    } else {
      var p := i + |e.gap|;
      var q := p + 1 + |LineText(e.body)|;
      var k := q + |e.post|;
      SymbolPlace(s, i, e.gap, '(', LineText(e.body) + (e.post + ([')'] + ItemsText(e.redirs))));
      AtSplit(s, p + 1, LineText(e.body), e.post + ([')'] + ItemsText(e.redirs)));
      SymbolPlace(s, q, e.post, ')', ItemsText(e.redirs));
      EndSets();
      EndsAt(s, q, LINEENDS);
      ReadLine(s, p + 1, e.body);
      SkipStops(s, p + 1);
      LineAlike(s, Skip(s, p + 1), p + 1);
      var r := ParseLine(s, p + 1);
      ReadsMeans(s, r, LineFits(e.body), LineTree(e.body), q);
      if r.Ok? {
        BlockTaken(s, i, p, r.cmd, k);
        SkipStops(s, k + 1);
        RedirsAlike(s, r.cmd, Skip(s, k + 1), k + 1);
        WrappedNone(LineTree(e.body));
        RedirsRead(s, r.cmd, k + 1, e.redirs, false, LineTree(e.body), []);
        assert [] + Redirs(e.redirs) == Redirs(e.redirs);
      } else {
        BlockFails(s, i, p, r.message);
      }
      EndsWithin(s, i + |ExecText(e)|, ENDS);
      ReadsMeans(s, ParseExec(s, i), ExecFits(e), ExecTree(e), i + |ExecText(e)|);
    }
  }

  lemma PipeTreeOf(s: string, c: Cmd, r: Parsed)
    ensures r.Ok? ==> TreeOf(s, PipeCmd(c, r.cmd)) == TPipe(TreeOf(s, c), TreeOf(s, r.cmd))
    ensures r.Ok? ==> TreeOf(s, ListCmd(c, r.cmd)) == TList(TreeOf(s, c), TreeOf(s, r.cmd))
  {}

  lemma ReadPipe(s: string, i: nat, p: Pipe)
    requires GoodPipe(p) && At(s, i, PipeText(p)) && Stops(s, i + |PipeText(p)|, PIPEENDS)
    ensures i <= |s| && Reads(s, ParsePipe(s, i), PipeFits(p), PipeTree(p), i + |PipeText(p)|)
    decreases p, 0
  {
    hide *;
    PipeParts(p);
    EndSets();
    var q := i + |ExecText(p.exec)|;
    EndsWithin(s, i + |PipeText(p)|, PIPEENDS);
    if p.Single? {
      EndsMore(s, q, PIPEENDS, ENDS);
    } else {
      AtSplit(s, i, ExecText(p.exec), p.gap + (['|'] + PipeText(p.rest)));
      SymbolPlace(s, q, p.gap, '|', PipeText(p.rest));
      EndsAt(s, q, ENDS);
    }
    ReadExec(s, i, p.exec);
    var r := ParseExec(s, i);
    ReadsMeans(s, r, ExecFits(p.exec), ExecTree(p.exec), q);
    ReadsMeans(s, ParsePipe(s, i), PipeFits(p), PipeTree(p), i + |PipeText(p)|);
    SkipStops(s, q);
    if !r.Ok? {
      PipeFails(s, i, r.message);
    } else {
      PipeOn(s, i, r.cmd, Skip(s, q));
      if p.Piped? {
        var k := q + |p.gap|;
        ReadPipe(s, k + 1, p.rest);
        SkipStops(s, k + 1);
        LineAlike(s, Skip(s, k + 1), k + 1);
        ReadsMeans(s, ParsePipe(s, k + 1), PipeFits(p.rest), PipeTree(p.rest), i + |PipeText(p)|);
        PipeTreeOf(s, r.cmd, ParsePipe(s, k + 1));
      }
    }
  }

  /** Where the pipeline of a line ends. */
  lemma PipeEndsHere(s: string, q: nat, bs: seq<string>, after: set<char>)
    requires At(s, q, BacksText(bs)) && GoodBacks(bs) && Stops(s, q + |BacksText(bs)|, after) && after <= PIPEENDS
    ensures Stops(s, q, PIPEENDS)
  {
    hide *;
    BacksCons(bs);
    EndSets();
    if bs == [] {
      EndsMore(s, q, after, PIPEENDS);
    } else {
      SymbolPlace(s, q, bs[0], '&', BacksText(bs[1..]));
      EndsAt(s, q, PIPEENDS);
    }
  }

  lemma FineWords(s: string, i: nat)
    requires i <= |s|
    ensures ParsePipe(s, i).Ok? ==> WordsOf(s, ParsePipe(s, i).cmd)
  {}

  predicate ReadsBacked(s: string, i: nat, p: Pipe, bs: seq<string>, b: nat) {
    && i <= |s|
    && var r := ParsePipe(s, i);
    if PipeFits(p)
    then r.Ok? && r.pos <= |s| && b <= |s| && WordsOf(s, r.cmd)
         && Reads(s, ParseBacks(s, r.cmd, r.pos), true, Backed(PipeTree(p), |bs|), b)
    else r == Panic("too many args")
  }

  lemma BackedMeans(s: string, i: nat, p: Pipe, bs: seq<string>, b: nat)
    requires ReadsBacked(s, i, p, bs, b)
    ensures i <= |s| && (!PipeFits(p) ==> ParsePipe(s, i) == Panic("too many args"))
    ensures PipeFits(p) ==>
      && b <= |s| && ParsePipe(s, i).Ok? && ParsePipe(s, i).pos <= |s| && WordsOf(s, ParsePipe(s, i).cmd)
      && var d := ParseBacks(s, ParsePipe(s, i).cmd, ParsePipe(s, i).pos);
      && d.Ok? && d.pos == Skip(s, b) && TreeOf(s, d.cmd) == Backed(PipeTree(p), |bs|)
  {
    hide WordsOf, ParsePipe, ParseBacks, PipeTree, PipeFits, Backed, Skip, TreeOf;
  }

  lemma LastRead(s: string, i: nat, l: Line, b: nat)
    requires l.Last? && GoodLine(l) && ReadsBacked(s, i, l.pipe, l.backs, b) && Stops(s, b, LINEENDS)
    ensures i <= |s| && Reads(s, ParseLine(s, i), LineFits(l), LineTree(l), b)
  {
    hide *;
    LineParts(l);
    EndSets();
    EndsWithin(s, b, LINEENDS);
    BackedMeans(s, i, l.pipe, l.backs, b);
    ReadsMeans(s, ParseLine(s, i), LineFits(l), LineTree(l), b);
    var r := ParsePipe(s, i);
    if !PipeFits(l.pipe) {
      LineFails(s, i, r.message);
    } else {
      SkipStops(s, b);
      var d := ParseBacks(s, r.cmd, r.pos);
      LineOn(s, i, r.cmd, r.pos, d.cmd, Skip(s, b));
    }
  }

  lemma ThenRead(s: string, i: nat, l: Line, b: nat)
    requires l.Then? && GoodLine(l) && ReadsBacked(s, i, l.pipe, l.backs, b)
    requires b + |l.gap| < |s| && Skip(s, b) == b + |l.gap| && s[b + |l.gap|] == ';'
    requires GetToken(s, b + |l.gap|).next == Skip(s, b + |l.gap| + 1)
    requires Reads(s, ParseLine(s, b + |l.gap| + 1), LineFits(l.rest), LineTree(l.rest), i + |LineText(l)|)
    ensures Reads(s, ParseLine(s, i), LineFits(l), LineTree(l), i + |LineText(l)|)
  {
    hide *;
    LineParts(l);
    BackedMeans(s, i, l.pipe, l.backs, b);
    var r, k := ParsePipe(s, i), b + |l.gap|;
    ReadsMeans(s, ParseLine(s, k + 1), LineFits(l.rest), LineTree(l.rest), i + |LineText(l)|);
    ReadsMeans(s, ParseLine(s, i), LineFits(l), LineTree(l), i + |LineText(l)|);
    if !PipeFits(l.pipe) {
      LineFails(s, i, r.message);
    } else {
      SkipStops(s, b);
      var d := ParseBacks(s, r.cmd, r.pos);
      LineOn(s, i, r.cmd, r.pos, d.cmd, Skip(s, b));
      SkipStops(s, k + 1);
      LineAlike(s, Skip(s, k + 1), k + 1);
      PipeTreeOf(s, d.cmd, ParseLine(s, k + 1));
    }
  }

  /** A pipeline and the marks after it. */
  lemma ReadBacked(s: string, i: nat, p: Pipe, bs: seq<string>)
    requires GoodPipe(p) && GoodBacks(bs) && At(s, i, PipeText(p)) && At(s, i + |PipeText(p)|, BacksText(bs))
    requires Stops(s, i + |PipeText(p)| + |BacksText(bs)|, BACKENDS)
    ensures ReadsBacked(s, i, p, bs, i + |PipeText(p)| + |BacksText(bs)|)
    decreases p, 1
  {
    hide PipeText, BacksText, GoodPipe, GoodBacks, At, Stops, ParsePipe, ParseBacks, WordsOf, Backed, PipeTree, Skip,
      TreeOf;
    EndSets();
    var q := i + |PipeText(p)|;
    PipeEndsHere(s, q, bs, BACKENDS);
    ReadPipe(s, i, p);
    var r := ParsePipe(s, i);
    ReadsMeans(s, r, PipeFits(p), PipeTree(p), q);
    if r.Ok? {
      FineWords(s, i);
      SkipStops(s, q);
      BacksAlike(s, r.cmd, Skip(s, q), q);
      BacksRead(s, r.cmd, q, bs);
    }
  }

  /** Every line of the grammar is read as the tree it means, wherever it stands before the end of the
      text or a closing parenthesis; the only error is a command of too many words. */
  lemma ReadLine(s: string, i: nat, l: Line)
    requires GoodLine(l) && At(s, i, LineText(l)) && Stops(s, i + |LineText(l)|, LINEENDS)
    ensures i <= |s| && Reads(s, ParseLine(s, i), LineFits(l), LineTree(l), i + |LineText(l)|)
    decreases l, 0
  {
    hide *;
    LineParts(l);
    EndSets();
    var q := i + |PipeText(l.pipe)|;
    var b := q + |BacksText(l.backs)|;
    EndsWithin(s, i + |LineText(l)|, LINEENDS);
    if l.Last? {
      AtSplit(s, i, PipeText(l.pipe), BacksText(l.backs));
      EndsMore(s, b, LINEENDS, BACKENDS);
      ReadBacked(s, i, l.pipe, l.backs);
      LastRead(s, i, l, b);
    } else {
      var rest := l.gap + ([';'] + LineText(l.rest));
      AtSplit(s, i, PipeText(l.pipe), BacksText(l.backs) + rest);
      AtSplit(s, q, BacksText(l.backs), rest);
      SymbolPlace(s, b, l.gap, ';', LineText(l.rest));
      EndsAt(s, b, BACKENDS);
      ReadBacked(s, i, l.pipe, l.backs);
      ReadLine(s, b + |l.gap| + 1, l.rest);
      ThenRead(s, i, l, b);
    }
  }

  /** Every text of the grammar parses to what it means, and only too many words are refused. */
  lemma GrammarIsRead(l: Line, tail: string)
    requires GoodLine(l) && Blanks(tail)
    ensures var s := LineText(l) + tail;
      if LineFits(l) then Parse(s).Ok? && TreeOf(s, Parse(s).cmd) == LineTree(l) else Parse(s) == Panic("too many args")
  {
    var s := LineText(l) + tail;
    assert s[..|LineText(l)|] == LineText(l) && s[|LineText(l)|..] == tail;
    hide LineText, LineTree, LineFits, GoodLine, TreeOf, ParseLine;
    BlanksSkipped(s, |LineText(l)|, tail);
    EndsAt(s, |LineText(l)|, LINEENDS);
    ReadLine(s, 0, l);
    hide Skip, Blanks;
  }

  // ---------------------------------------------------------------- nothing else is accepted

  lemma {:induction false} SkippedBlanks(s: string, i: nat)
    requires i <= |s|
    ensures i <= Skip(s, i) <= |s| && Blanks(s[i..Skip(s, i)]) && Skip(s, Skip(s, i)) == Skip(s, i)
    decreases |s| - i
  {
    if i < |s| && IsSpace(s[i]) {
      SkippedBlanks(s, i + 1);
      assert s[i..Skip(s, i)] == [s[i]] + s[i + 1..Skip(s, i)];
    }
  }

  /** A word token is a name that ends where its word characters do. */
  lemma WordFacts(s: string, i: nat)
    requires i <= |s| && GetToken(s, i).kind == 'a'
    ensures var t := GetToken(s, i);
      && t.q == Skip(s, i) && i <= t.q < t.eq <= |s| && IsName(s[t.q..t.eq]) && NoWord(s, t.eq)
      && t.next == Skip(s, t.eq) && IsWord(s[t.q])
  {
    assert WordAt(s, Tok(GetToken(s, i).q, GetToken(s, i).eq));
  }

  lemma SignFacts(s: string, p: nat)
    requires p < |s| && s[p] in {'<', '>'} && Skip(s, p) == p
    ensures var t := GetToken(s, p);
      && p < t.eq <= |s| && t.next == Skip(s, t.eq) && (t.kind == '<' <==> s[p..t.eq] == "<")
      && (s[p..t.eq] == "<" || s[p..t.eq] == ">" || s[p..t.eq] == ">>")
  {}

  lemma FileNamed(s: string, c: Cmd, i: nat)
    requires i <= |s| && WordsOf(s, c) && Peek(s, Skip(s, i), {'<', '>'}) && ParseRedirs(s, c, i).Ok?
    ensures GetToken(s, GetToken(s, Skip(s, i)).next).kind == 'a'
  {
    hide Skip, GetToken;
  }

  /** The redirection at i, which parseredirs has taken. */
  lemma RedirAt(s: string, c: Cmd, i: nat) returns (r: Item, d: Cmd, e: nat)
    requires i <= |s| && WordsOf(s, c) && Peek(s, Skip(s, i), {'<', '>'}) && ParseRedirs(s, c, i).Ok?
    ensures i < e <= |s| && r.Redir? && GoodItem(r) && ItemText(r) == s[i..e] && NoWord(s, e)
    ensures WordsOf(s, d) && ParseRedirs(s, c, i) == ParseRedirs(s, d, e)
  {
    var p := Skip(s, i);
    SkippedBlanks(s, i);
    SignFacts(s, p);
    var t := GetToken(s, p);
    var f := GetToken(s, t.next);
    FileNamed(s, c, i);
    WordFacts(s, t.next);
    SkippedBlanks(s, t.eq);
    hide Skip, GetToken, IsName, Blanks;
    e := f.eq;
    r := Redir(s[i..p], s[p..t.eq], s[t.eq..f.q], s[f.q..e]);
    d := RedirCmd(c, Tok(f.q, e), if t.kind == '<' then In else Out);
    RedirTaken(s, c, i, p, t, f);
    SkipStops(s, e);
    hide ParseRedirs, WordsOf;
    RedirsAlike(s, d, f.next, e);
    Slices(s, t.eq, f.q, e);
    Slices(s, p, t.eq, e);
    Slices(s, i, p, e);
  }

  lemma NothingTyped(s: string, i: nat, follows: bool)
    requires i <= |s|
    ensures GoodItems([], follows) && OnlyRedirs([]) && ItemsText([]) == s[i..i] && Words([]) == []
  {}

  /** The redirections that parseredirs has taken. */
  lemma {:induction false} RedirsAt(s: string, c: Cmd, i: nat, follows: bool) returns (ts: seq<Item>, e: nat)
    requires i <= |s| && WordsOf(s, c) && ParseRedirs(s, c, i).Ok?
    ensures i <= e <= |s| && GoodItems(ts, follows) && OnlyRedirs(ts) && ItemsText(ts) == s[i..e]
    ensures Skip(s, e) == ParseRedirs(s, c, i).pos
    decreases |s| - i
  {
    hide Skip, ParseRedirs, WordsOf, GoodItem, GoodItems, ItemText, ItemsText, OnlyRedirs;
    if Peek(s, Skip(s, i), {'<', '>'}) {
      var r, d, k := RedirAt(s, c, i);
      ts, e := RedirsAt(s, d, k, true);
      ItemsMore(r, ts, follows);
      Slices(s, i, k, e);
      ts := [r] + ts;
    } else {
      NoRedirs(s, c, i);
      ts, e := [], i;
      NothingTyped(s, i, follows);
    }
  }

  lemma ArgNext(s: string, c: Cmd, argc: nat, p: nat)
    requires p <= |s| && Skip(s, p) == p && WordsOf(s, c) && ParseArgs(s, c, argc, p).Ok?
    ensures Peek(s, p, ENDS) || p == |s| || GetToken(s, p).kind == 'a'
    ensures Peek(s, p, ENDS) || p == |s| ==> ParseArgs(s, c, argc, p).pos == p
    ensures !Peek(s, p, ENDS) && p < |s| ==> argc + 1 < MAXARGS
    ensures p == |s| ==> GetToken(s, p).kind != 'a'
  {
    hide WordsOf, ParseRedirs, AddArg, IsWord, IsSymbol;
  }

  /** The word at i, which parseexec's loop has taken, or the end of its command. */
  lemma ArgAt(s: string, c: Cmd, argc: nat, i: nat) returns (more: bool, r: Item, d: Cmd, e: nat)
    requires i <= |s| && WordsOf(s, c) && !Peek(s, Skip(s, i), {'<', '>'}) && Rest(s, c, argc, i).Ok?
    ensures !more ==> Rest(s, c, argc, i).pos == Skip(s, i) && Stops(s, i, ENDS)
    ensures more ==> i < e <= |s| && r.Arg? && GoodItem(r) && ItemText(r) == s[i..e] && NoWord(s, e)
    ensures more ==> (NoWord(s, i) ==> r.gap != "") && argc + 1 < MAXARGS
    ensures more ==> WordsOf(s, d) && Rest(s, c, argc, i) == Rest(s, d, argc + 1, e)
  {
    var p := Skip(s, i);
    SkippedBlanks(s, i);
    NoRedirs(s, c, i);
    var t := GetToken(s, p);
    ArgNext(s, c, argc, p);
    if t.kind != 'a' || Peek(s, p, ENDS) {
      more, r, d, e := false, Arg("", ""), c, i;
      return;
    }
    WordFacts(s, p);
    more, e := true, t.eq;
    r := Arg(s[i..p], s[p..e]);
    d := AddArg(c, Tok(p, e));
    assert WordAt(s, Tok(p, e));
    hide Skip, GetToken, IsName, Blanks, ParseRedirs, ParseArgs, WordsOf, AddArg;
    AddArgKeepsWords(s, c, Tok(p, e));
    ArgTaken(s, c, argc, i, p, e);
    SkipStops(s, e);
    RestAlike(s, d, argc + 1, e);
    Slices(s, i, p, e);
  }

  /** The items that a command read from i on consists of. */
  lemma {:induction false} ItemsAt(s: string, c: Cmd, argc: nat, i: nat, follows: bool) returns (ts: seq<Item>, e: nat)
    requires i <= |s| && WordsOf(s, c) && Rest(s, c, argc, i).Ok? && (follows ==> NoWord(s, i)) && argc < MAXARGS
    ensures i <= e <= |s| && GoodItems(ts, follows) && ItemsText(ts) == s[i..e] && argc + |Words(ts)| < MAXARGS
    ensures Skip(s, e) == Rest(s, c, argc, i).pos
    decreases |s| - i
  {
    hide Skip, ParseRedirs, ParseArgs, WordsOf, GoodItem, GoodItems, ItemText, ItemsText, Words, Stops, NoWord, AddArg;
    if Peek(s, Skip(s, i), {'<', '>'}) {
      var r, d, k := RedirAt(s, c, i);
      ts, e := ItemsAt(s, d, argc, k, true);
      ItemsMore(r, ts, follows);
      Slices(s, i, k, e);
      ts := [r] + ts;
    } else {
      var more, r, d, k := ArgAt(s, c, argc, i);
      if more {
        ts, e := ItemsAt(s, d, argc + 1, k, true);
        ItemsMore(r, ts, follows);
        Slices(s, i, k, e);
        ts := [r] + ts;
      } else {
        ts, e := [], i;
        NothingTyped(s, i, follows);
      }
    }
  }

  lemma BacksMore(g: string, bs: seq<string>)
    requires Blanks(g) && GoodBacks(bs)
    ensures GoodBacks([g] + bs) && BacksText([g] + bs) == g + (['&'] + BacksText(bs))
  {
    assert ([g] + bs)[1..] == bs;
  }

  lemma {:induction false} BacksAt(s: string, c: Cmd, i: nat) returns (bs: seq<string>, e: nat)
    requires i <= |s| && WordsOf(s, c)
    ensures i <= e <= |s| && GoodBacks(bs) && BacksText(bs) == s[i..e] && Skip(s, e) == ParseBacks(s, c, i).pos
    decreases |s| - i
  {
    var p := Skip(s, i);
    SkippedBlanks(s, i);
    if p < |s| && s[p] == '&' {
      SymbolFacts(s, p);
      hide Skip, GetToken, ParseBacks, WordsOf, GoodBacks, BacksText, Blanks;
      BackStep(s, c, i, p);
      SkipStops(s, p + 1);
      BacksAlike(s, BackCmd(c), Skip(s, p + 1), p + 1);
      bs, e := BacksAt(s, BackCmd(c), p + 1);
      BacksMore(s[i..p], bs);
      SymbolSlice(s, p, e);
      Slices(s, i, p, e);
      bs := [s[i..p]] + bs;
    } else {
      BackStep(s, c, i, p);
      bs, e := [], i;
    }
  }

  /** How parseexec, parsepipe and parseline come to accept. */
  lemma ExecCases(s: string, i: nat)
    requires i <= |s| && ParseExec(s, i).Ok? && Peek(s, Skip(s, i), {'('})
    ensures var p := Skip(s, i);
      && GetToken(s, p).next <= |s|
      && var l := ParseLine(s, GetToken(s, p).next);
      && l.Ok? && l.pos <= |s| && WordsOf(s, l.cmd)
      && var k := Skip(s, l.pos);
      && k < |s| && s[k] == ')' && GetToken(s, k).next <= |s|
      && ParseExec(s, i) == ParseRedirs(s, l.cmd, GetToken(s, k).next)
  {
    var p := Skip(s, i);
    assert Skip(s, p) == p;
    hide Skip, GetToken, ParseLine, ParseRedirs, ParseArgs, WordsOf;
    assert ParseExec(s, i) == ParseBlock(s, p);
  }

  lemma PipeCases(s: string, i: nat)
    requires i <= |s| && ParsePipe(s, i).Ok?
    ensures ParseExec(s, i).Ok? && ParseExec(s, i).pos <= |s|
    ensures var p := Skip(s, ParseExec(s, i).pos);
      if p < |s| && s[p] == '|'
      then GetToken(s, p).next <= |s| && ParsePipe(s, GetToken(s, p).next).Ok?
           && ParsePipe(s, i).pos == ParsePipe(s, GetToken(s, p).next).pos
      else ParsePipe(s, i).pos == p
  {
    hide Skip, GetToken, ParseExec, WordsOf;
  }

  lemma LineCases(s: string, i: nat)
    requires i <= |s| && ParseLine(s, i).Ok?
    ensures ParsePipe(s, i).Ok? && ParsePipe(s, i).pos <= |s| && WordsOf(s, ParsePipe(s, i).cmd)
    ensures var b := ParseBacks(s, ParsePipe(s, i).cmd, ParsePipe(s, i).pos);
      && b.Ok? && b.pos <= |s|
      && var p := Skip(s, b.pos);
      if p < |s| && s[p] == ';'
      then GetToken(s, p).next <= |s| && ParseLine(s, GetToken(s, p).next).Ok?
           && ParseLine(s, i).pos == ParseLine(s, GetToken(s, p).next).pos
      else ParseLine(s, i).pos == p
  {
    hide Skip, GetToken, ParsePipe, ParseBacks, WordsOf;
  }

  lemma BlockSlices(s: string, i: nat, p: nat, q: nat, k: nat, e: nat)
    requires i <= p < q <= k < e <= |s| && s[p] == '(' && s[k] == ')'
    ensures s[i..p] + ("(" + (s[p + 1..q] + (s[q..k] + (")" + s[k + 1..e])))) == s[i..e]
  {
    SymbolSlice(s, k, e);
    Slices(s, q, k, e);
    Slices(s, p + 1, q, e);
    SymbolSlice(s, p, e);
    Slices(s, i, p, e);
    assert "(" == [s[p]] && ")" == [s[k]];
  }

  /** The text parseexec has taken is a command of the grammar. */
  lemma ExecAt(s: string, i: nat) returns (x: Exec, e: nat)
    requires i <= |s| && ParseExec(s, i).Ok?
    ensures i <= e <= |s| && GoodExec(x) && ExecFits(x) && ExecText(x) == s[i..e] && Skip(s, e) == ParseExec(s, i).pos
    decreases |s| - i, 1
  {
    hide Skip, GetToken, ParseExec, ParseLine, ParseRedirs, ParseArgs, WordsOf, GoodItems, ItemsText, Words, OnlyRedirs,
      GoodLine, LineText, LineFits, Blanks;
    var p := Skip(s, i);
    SkippedBlanks(s, i);
    if Peek(s, p, {'('}) {
      ExecCases(s, i);
      SymbolFacts(s, p);
      SkipStops(s, p + 1);
      LineAlike(s, Skip(s, p + 1), p + 1);
      var l, q := LineAt(s, p + 1);
      var k := Skip(s, q);
      SkippedBlanks(s, q);
      SymbolFacts(s, k);
      var c := ParseLine(s, p + 1).cmd;
      SkipStops(s, k + 1);
      RedirsAlike(s, c, Skip(s, k + 1), k + 1);
      var rs, r := RedirsAt(s, c, k + 1, false);
      x, e := Block(s[i..p], l, s[q..k], rs), r;
      BlockSlices(s, i, p, q, k, e);
    } else {
      EmptyExec(s);
      ExecIsRest(s, i);
      RestAlike(s, ExecCmd([]), 0, i);
      var ts, r := ItemsAt(s, ExecCmd([]), 0, i, false);
      x, e := Simple(ts), r;
    }
  }

  lemma PipeAt(s: string, i: nat) returns (x: Pipe, e: nat)
    requires i <= |s| && ParsePipe(s, i).Ok?
    ensures i <= e <= |s| && GoodPipe(x) && PipeFits(x) && PipeText(x) == s[i..e] && Skip(s, e) == ParsePipe(s, i).pos
    decreases |s| - i, 2
  {
    hide Skip, GetToken, ParseExec, ParsePipe, WordsOf, GoodExec, ExecText, ExecFits, Blanks;
    PipeCases(s, i);
    var y, q := ExecAt(s, i);
    var p := Skip(s, q);
    SkippedBlanks(s, q);
    if p < |s| && s[p] == '|' {
      SymbolFacts(s, p);
      SkipStops(s, p + 1);
      LineAlike(s, Skip(s, p + 1), p + 1);
      var z, r := PipeAt(s, p + 1);
      x, e := Piped(y, s[q..p], z), r;
      SymbolSlice(s, p, e);
      Slices(s, q, p, e);
      Slices(s, i, q, e);
      assert "|" == [s[p]];
    } else {
      x, e := Single(y), q;
    }
  }

  /** The text parseline has taken is a line of the grammar. */
  lemma LineAt(s: string, i: nat) returns (x: Line, e: nat)
    requires i <= |s| && ParseLine(s, i).Ok?
    ensures i <= e <= |s| && GoodLine(x) && LineFits(x) && LineText(x) == s[i..e] && Skip(s, e) == ParseLine(s, i).pos
    decreases |s| - i, 3
  {
    hide Skip, GetToken, ParsePipe, ParseLine, ParseBacks, WordsOf, GoodPipe, PipeText, PipeFits, GoodBacks, BacksText,
      Blanks;
    LineCases(s, i);
    var y, q := PipeAt(s, i);
    var c := ParsePipe(s, i).cmd;
    SkipStops(s, q);
    BacksAlike(s, c, Skip(s, q), q);
    var bs, b := BacksAt(s, c, q);
    var p := Skip(s, b);
    SkippedBlanks(s, b);
    if p < |s| && s[p] == ';' {
      SymbolFacts(s, p);
      SkipStops(s, p + 1);
      LineAlike(s, Skip(s, p + 1), p + 1);
      var z, r := LineAt(s, p + 1);
      x, e := Then(y, bs, s[b..p], z), r;
      SymbolSlice(s, p, e);
      Slices(s, b, p, e);
      Slices(s, q, b, e);
      Slices(s, i, q, e);
      assert ";" == [s[p]];
    } else {
      x, e := Last(y, bs), b;
      Slices(s, i, q, b);
    }
  }

  /** The text is that of a line whose commands have fewer than MAXARGS words, and blanks after it. */
  ghost predicate InGrammar(s: string) {
    exists l: Line, tail: string :: GoodLine(l) && LineFits(l) && Blanks(tail) && s == LineText(l) + tail
  }

  /** The parser accepts exactly the grammar. */
  lemma ParseAcceptsIff(s: string)
    ensures Parse(s).Ok? <==> InGrammar(s)
  {
    if Parse(s).Ok? {
      hide LineText, LineFits, GoodLine, ParseLine;
      var l, e := LineAt(s, 0);
      SkippedBlanks(s, e);
      SkipStops(s, e);
      assert s == s[..e] + s[e..] && s[0..e] == s[..e] && s[e..|s|] == s[e..];
      assert GoodLine(l) && LineFits(l) && Blanks(s[e..]) && s == LineText(l) + s[e..];
    }
    if InGrammar(s) {
      var l: Line, tail: string :| GoodLine(l) && LineFits(l) && Blanks(tail) && s == LineText(l) + tail;
      GrammarIsRead(l, tail);
    }
  }

  // ---------------------------------------------------------------- printing

  /** Commands that can be typed: words of word characters, fewer than MAXARGS of them to a command. */
  predicate Typeable(t: Tree) {
    match t
    case TExec(argv) => |argv| < MAXARGS && forall k :: 0 <= k < |argv| ==> IsName(argv[k])
    case TRedir(d, f, m) => IsName(f) && Typeable(d)
    case TPipe(l, r) => Typeable(l) && Typeable(r)
    case TList(l, r) => Typeable(l) && Typeable(r)
    case TBack(d) => Typeable(d)
  }

  function Join(ws: seq<string>): (s: string) {
    if ws == [] then "" else ws[0] + " " + Join(ws[1..])
  }

  /** Fully parenthesised. */
  function Print(t: Tree): (s: string) {
    match t
    case TExec(argv) => Join(argv)
    case TRedir(d, f, m) => "(" + Print(d) + ")" + (if m.In? then "<" else ">") + f
    case TPipe(l, r) => "(" + Print(l) + ")|(" + Print(r) + ")"
    case TList(l, r) => "(" + Print(l) + ");(" + Print(r) + ")"
    case TBack(d) => "(" + Print(d) + ")&"
  }

  function ArgItems(ws: seq<string>, gap: string): (ts: seq<Item>) {
    if ws == [] then [] else [Arg(gap, ws[0])] + ArgItems(ws[1..], " ")
  }

  function Sign(m: Mode): (s: string) { if m.In? then "<" else ">" }

  /** Join leaves a blank after the last word. */
  function Tail(t: Tree): (s: string) { if t.TExec? && t.argv != [] then " " else "" }

  /** What Print writes, as a line of the grammar. */
  function Typed(t: Tree): (l: Line) {
    match t
    case TExec(argv) => Last(Single(Simple(ArgItems(argv, ""))), [])
    case TRedir(d, f, m) => Last(Single(Block("", Typed(d), Tail(d), [Redir("", Sign(m), "", f)])), [])
    case TPipe(l, r) => Last(Piped(Block("", Typed(l), Tail(l), []), "", Single(Block("", Typed(r), Tail(r), []))), [])
    case TList(l, r) =>
      Then(Single(Block("", Typed(l), Tail(l), [])), [], "", Last(Single(Block("", Typed(r), Tail(r), [])), []))
    case TBack(d) => Last(Single(Block("", Typed(d), Tail(d), [])), [""])
  }

  lemma {:induction false} ArgItemsPrint(ws: seq<string>, gap: string)
    requires Blanks(gap) && forall k :: 0 <= k < |ws| ==> IsName(ws[k])
    ensures GoodItems(ArgItems(ws, gap), gap != "")
    ensures Words(ArgItems(ws, gap)) == ws && Redirs(ArgItems(ws, gap)) == []
    ensures ItemsText(ArgItems(ws, gap)) + (if ws == [] then "" else " ") == (if ws == [] then "" else gap) + Join(ws)
    decreases |ws|
  {
    if ws != [] {
      ArgItemsPrint(ws[1..], " ");
      var ts := ArgItems(ws, gap);
      assert ts[1..] == ArgItems(ws[1..], " ");
      assert [ws[0]] + ws[1..] == ws;
      hide IsName, Blanks;
      var rest := ItemsText(ts[1..]);
      assert rest + (if ws[1..] == [] then "" else " ") == (if ws[1..] == [] then "" else " ") + Join(ws[1..]);
      assert rest + " " == " " + Join(ws[1..]);
      assert (gap + ws[0] + rest) + " " == gap + ws[0] + (rest + " ");
      assert gap + ws[0] + (" " + Join(ws[1..])) == gap + (ws[0] + " " + Join(ws[1..]));
    }
  }

  /** A parenthesised command of the printing. */
  lemma SubPrints(d: Tree, rs: seq<Item>)
    requires GoodLine(Typed(d)) && LineText(Typed(d)) + Tail(d) == Print(d) && GoodItems(rs, false) && OnlyRedirs(rs)
    ensures var b := Block("", Typed(d), Tail(d), rs);
      && GoodExec(b) && ExecText(b) == "(" + Print(d) + ")" + ItemsText(rs)
      && ExecFits(b) == LineFits(Typed(d)) && ExecTree(b) == Wrapped(LineTree(Typed(d)), Redirs(rs))
  {
    var x := LineText(Typed(d));
    assert "" + ("(" + (x + (Tail(d) + (")" + ItemsText(rs))))) == "(" + (x + Tail(d)) + ")" + ItemsText(rs);
  }

  lemma NoRedirItems()
    ensures GoodItems([], false) && OnlyRedirs([]) && ItemsText([]) == "" && Redirs([]) == []
    ensures forall t :: Wrapped(t, []) == t
  {}

  lemma OneRedir(m: Mode, f: string)
    requires IsName(f)
    ensures var rs := [Redir("", Sign(m), "", f)];
      && GoodItems(rs, false) && OnlyRedirs(rs) && ItemsText(rs) == Sign(m) + f && Redirs(rs) == [(f, m)]
    ensures forall t :: Wrapped(t, [(f, m)]) == TRedir(t, f, m)
  {
    var rs := [Redir("", Sign(m), "", f)];
    assert rs[1..] == [] && [(f, m)][..0] == [];
    assert "" + (Sign(m) + ("" + f)) == Sign(m) + f;
  }

  lemma PipedOnce(a: Exec, b: Exec)
    ensures var p := Piped(a, "", Single(b));
      && (GoodPipe(p) <==> GoodExec(a) && GoodExec(b)) && (PipeFits(p) <==> ExecFits(a) && ExecFits(b))
      && PipeText(p) == ExecText(a) + ("" + ("|" + ExecText(b))) && PipeTree(p) == TPipe(ExecTree(a), ExecTree(b))
  {
    hide GoodExec, ExecFits, ExecText, ExecTree;
    var q := Single(b);
    assert GoodPipe(q) == GoodExec(b) && PipeFits(q) == ExecFits(b);
    assert PipeText(q) == ExecText(b) && PipeTree(q) == ExecTree(b);
  }

  lemma NoBacks()
    ensures GoodBacks([]) && BacksText([]) == "" && GoodBacks([""]) && BacksText([""]) == "&"
    ensures forall t :: Backed(t, 0) == t && Backed(t, 1) == TBack(t)
  {
    assert [""][1..] == [];
  }

  lemma ThenOnce(a: Exec, b: Exec)
    ensures var l := Then(Single(a), [], "", Last(Single(b), []));
      && (GoodLine(l) <==> GoodExec(a) && GoodExec(b)) && (LineFits(l) <==> ExecFits(a) && ExecFits(b))
      && LineText(l) == ExecText(a) + ("" + ("" + (";" + (ExecText(b) + ""))))
         && LineTree(l) == TList(ExecTree(a), ExecTree(b))
  {
    hide GoodExec, ExecFits, ExecText, ExecTree;
    NoBacks();
    var q := Last(Single(b), []);
    assert GoodPipe(Single(a)) == GoodExec(a) && PipeText(Single(a)) == ExecText(a);
    assert GoodLine(q) == GoodExec(b) && LineFits(q) == ExecFits(b);
    assert LineText(q) == ExecText(b) + "" && LineTree(q) == ExecTree(b);
  }

  lemma EmptyIsBlank()
    ensures Blanks("")
  {}

  lemma RedirPrinted(d: Tree, f: string, m: Mode)
    ensures "(" + Print(d) + ")" + (Sign(m) + f) + "" + "" == "(" + Print(d) + ")" + (if m.In? then "<" else ">") + f
  {}

  lemma TwoPrinted(p: string, q: string, op: string, mid: string)
    requires mid == ")" + op + "("
    ensures ("(" + p + ")" + "") + ("" + (op + ("(" + q + ")" + ""))) + "" + "" == "(" + p + mid + q + ")"
    ensures ("(" + p + ")" + "") + ("" + ("" + (op + (("(" + q + ")" + "") + "")))) + "" == "(" + p + mid + q + ")"
  {}

  lemma BackPrinted(p: string)
    ensures ("(" + p + ")" + "") + "&" + "" == "(" + p + ")&"
  {}

  /** The line has the tree's text and meaning. */
  predicate Prints(t: Tree) {
    GoodLine(Typed(t)) && LineFits(Typed(t)) && LineTree(Typed(t)) == t && LineText(Typed(t)) + Tail(t) == Print(t)
  }

  lemma LastOnce(a: Exec)
    ensures var l := Last(Single(a), []);
      && (GoodLine(l) <==> GoodExec(a)) && (LineFits(l) <==> ExecFits(a))
      && LineText(l) == ExecText(a) + "" && LineTree(l) == ExecTree(a)
    ensures var l := Last(Single(a), [""]);
      && (GoodLine(l) <==> GoodExec(a)) && (LineFits(l) <==> ExecFits(a))
      && LineText(l) == ExecText(a) + "&" && LineTree(l) == TBack(ExecTree(a))
  {
    hide GoodExec, ExecFits, ExecText, ExecTree;
    NoBacks();
    assert GoodPipe(Single(a)) == GoodExec(a) && PipeText(Single(a)) == ExecText(a);
    assert PipeTree(Single(a)) == ExecTree(a) && PipeFits(Single(a)) == ExecFits(a);
  }

  lemma ExecPrints(argv: seq<string>)
    requires Typeable(TExec(argv))
    ensures Prints(TExec(argv))
  {
    var a := Simple(ArgItems(argv, ""));
    EmptyIsBlank();
    ArgItemsPrint(argv, "");
    NoRedirItems();
    hide ItemsText, Words, Redirs, IsName, Join, Wrapped, ArgItems, Blanks, LineText, GoodLine, LineFits, LineTree,
      GoodItems;
    LastOnce(a);
    assert "" + Join(argv) == Join(argv);
  }

  lemma RedirPrints(d: Tree, f: string, m: Mode)
    requires IsName(f) && Prints(d)
    ensures Prints(TRedir(d, f, m))
  {
    OneRedir(m, f);
    SubPrints(d, [Redir("", Sign(m), "", f)]);
    hide LineText, GoodLine, LineFits, LineTree, GoodExec, ExecText, ExecFits, ExecTree, IsName, GoodItems, ItemsText,
      Wrapped, Redirs;
    LastOnce(Block("", Typed(d), Tail(d), [Redir("", Sign(m), "", f)]));
    RedirPrinted(d, f, m);
  }

  lemma PipePrints(l: Tree, r: Tree)
    requires Prints(l) && Prints(r)
    ensures Prints(TPipe(l, r))
  {
    NoRedirItems();
    NoBacks();
    SubPrints(l, []);
    SubPrints(r, []);
    var a, b := Block("", Typed(l), Tail(l), []), Block("", Typed(r), Tail(r), []);
    PipedOnce(a, b);
    hide GoodExec, ExecText, ExecFits, ExecTree, GoodItems, ItemsText, Wrapped, Redirs, PipeText, GoodPipe, PipeFits,
      PipeTree, BacksText, GoodBacks, Backed;
    TwoPrinted(Print(l), Print(r), "|", ")|(");
  }

  lemma ListPrints(l: Tree, r: Tree)
    requires Prints(l) && Prints(r)
    ensures Prints(TList(l, r))
  {
    NoRedirItems();
    SubPrints(l, []);
    SubPrints(r, []);
    hide LineText, GoodLine, LineFits, LineTree, GoodExec, ExecText, ExecFits, ExecTree, GoodItems, ItemsText, Wrapped,
      Redirs;
    ThenOnce(Block("", Typed(l), Tail(l), []), Block("", Typed(r), Tail(r), []));
    TwoPrinted(Print(l), Print(r), ";", ");(");
  }

  lemma BackPrints(d: Tree)
    requires Prints(d)
    ensures Prints(TBack(d))
  {
    NoRedirItems();
    SubPrints(d, []);
    hide LineText, GoodLine, LineFits, LineTree, GoodExec, ExecText, ExecFits, ExecTree, GoodItems, ItemsText, Wrapped,
      Redirs;
    LastOnce(Block("", Typed(d), Tail(d), []));
    BackPrinted(Print(d));
  }

  lemma {:induction false} TypedPrints(t: Tree)
    requires Typeable(t)
    ensures Prints(t)
  {
    hide Prints, IsName;
    match t
    case TExec(argv) => ExecPrints(argv);
    case TRedir(d, f, m) =>
      TypedPrints(d);
      RedirPrints(d, f, m);
    case TPipe(l, r) =>
      TypedPrints(l);
      TypedPrints(r);
      PipePrints(l, r);
    case TList(l, r) =>
      TypedPrints(l);
      TypedPrints(r);
      ListPrints(l, r);
    case TBack(d) =>
      TypedPrints(d);
      BackPrints(d);
  }

  /** Parsing inverts printing: every command that can be typed is read back from its printing. */
  lemma ParseOfPrint(t: Tree)
    requires Typeable(t)
    ensures Parse(Print(t)).Ok? && TreeOf(Print(t), Parse(Print(t)).cmd) == t
  {
    hide Print, Typeable, TreeOf, Parse, LineText, LineTree, GoodLine, LineFits, Typed;
    TypedPrints(t);
    assert Blanks(Tail(t));
    GrammarIsRead(Typed(t), Tail(t));
  }
}
