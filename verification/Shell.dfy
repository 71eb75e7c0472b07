/** The shell's command language: tokens, the recursive-descent parser as a function of the text, and the
    trees its results stand for. */
module Shell {
  const MAXARGS: nat := 10

  predicate IsSpace(c: char) { c == ' ' || c == '\t' || c == '\r' || c == '\n' || c == '\U{0B}' }
  predicate IsSymbol(c: char) { c == '<' || c == '|' || c == '>' || c == '&' || c == ';' || c == '(' || c == ')' }
  predicate IsWord(c: char) { !IsSpace(c) && !IsSymbol(c) }

  /** A token's place: from q up to eq. */
  datatype Tok = Tok(q: nat, eq: nat)

  /** O_RDONLY on descriptor 0, or O_WRONLY|O_CREATE on descriptor 1. */
  datatype Mode = In | Out

  /** struct cmd, with places in the text for its strings. */
  datatype Cmd = ExecCmd(argv: seq<Tok>) | RedirCmd(cmd: Cmd, file: Tok, mode: Mode) | PipeCmd(left: Cmd, right: Cmd)
               | ListCmd(left: Cmd, right: Cmd) | BackCmd(cmd: Cmd)

  datatype Parsed = Ok(cmd: Cmd, pos: nat) | Panic(message: string)

  // ---------------------------------------------------------------- tokens

  function Skip(s: string, i: nat): (j: nat)
    requires i <= |s|
    ensures i <= j <= |s| && (j < |s| ==> !IsSpace(s[j]))
    decreases |s| - i
  {
    if i < |s| && IsSpace(s[i]) then Skip(s, i + 1) else i
  }

  function WordEnd(s: string, i: nat): (j: nat)
    requires i <= |s|
    ensures i <= j <= |s| && (forall k :: i <= k < j ==> IsWord(s[k])) && (j < |s| ==> !IsWord(s[j]))
    decreases |s| - i
  {
    if i < |s| && IsWord(s[i]) then WordEnd(s, i + 1) else i
  }

  datatype Token = Token(kind: char, q: nat, eq: nat, next: nat)

  /** A whole word of the text: word characters with none after them. */
  predicate WordAt(s: string, t: Tok) {
    t.q < t.eq <= |s| && (forall k :: t.q <= k < t.eq ==> IsWord(s[k])) && (t.eq < |s| ==> !IsWord(s[t.eq]))
  }

  /** gettoken; kind is '\0' at the end, '+' for ">>", 'a' for a word, else the symbol. */
  function GetToken(s: string, i: nat): (t: Token)
    requires i <= |s|
    ensures i <= t.q <= t.eq <= t.next <= |s| && (t.q < |s| ==> t.q < t.eq) && (t.kind == '\0' <==> t.q == |s|)
    ensures t.kind == 'a' ==> WordAt(s, Tok(t.q, t.eq))
  {
    var q := Skip(s, i);
    if q == |s| then Token('\0', q, q, q)
    else if IsSymbol(s[q]) && s[q] != '>' then Token(s[q], q, q + 1, Skip(s, q + 1))
    else if s[q] == '>' then
      if q + 1 < |s| && s[q + 1] == '>' then Token('+', q, q + 2, Skip(s, q + 2))
        else Token('>', q, q + 1, Skip(s, q + 1))
    else var e := WordEnd(s, q); Token('a', q, e, Skip(s, e))
  }

  predicate Peek(s: string, p: nat, toks: set<char>) { p < |s| && s[p] in toks }

  // ---------------------------------------------------------------- the parser

  /** Every string of the command is a word of the text. */
  predicate WordsOf(s: string, c: Cmd) {
    match c
    case ExecCmd(argv) => forall k :: 0 <= k < |argv| ==> WordAt(s, argv[k])
    case RedirCmd(d, f, m) => WordAt(s, f) && WordsOf(s, d)
    case PipeCmd(l, r) => WordsOf(s, l) && WordsOf(s, r)
    case ListCmd(l, r) => WordsOf(s, l) && WordsOf(s, r)
    case BackCmd(d) => WordsOf(s, d)
  }

  /** One more argument for the command inside the redirections. */
  function AddArg(c: Cmd, a: Tok): (r: Cmd)
  {
    match c
    case ExecCmd(argv) => ExecCmd(argv + [a])
    case RedirCmd(d, f, m) => RedirCmd(AddArg(d, a), f, m)
    case _ => c
  }

  lemma {:induction false} AddArgKeepsWords(s: string, c: Cmd, a: Tok)
    requires WordsOf(s, c) && WordAt(s, a)
    ensures WordsOf(s, AddArg(c, a))
  {
    match c
    case RedirCmd(d, f, m) => AddArgKeepsWords(s, d, a);
    case _ =>
  }

  predicate Fine(s: string, i: nat, r: Parsed) {
    r.Ok? ==> i <= r.pos <= |s| && WordsOf(s, r.cmd)
  }

  function ParseRedirs(s: string, c: Cmd, i: nat): (r: Parsed)
    requires i <= |s| && WordsOf(s, c)
    ensures Fine(s, i, r) && (r.Ok? && r.pos < |s| ==> !IsSpace(s[r.pos]))
    decreases |s| - i
  {
    var p := Skip(s, i);
    if !Peek(s, p, {'<', '>'}) then Ok(c, p) else
      var t := GetToken(s, p);
      var f := GetToken(s, t.next);
      if f.kind != 'a' then Panic("missing file for redirection")
      else ParseRedirs(s, RedirCmd(c, Tok(f.q, f.eq), if t.kind == '<' then In else Out), f.next)
  }

  /** parseexec's loop. */
  function ParseArgs(s: string, c: Cmd, argc: nat, i: nat): (r: Parsed)
    requires i <= |s| && WordsOf(s, c)
    ensures Fine(s, i, r)
    decreases |s| - i
  {
    var p := Skip(s, i);
    if Peek(s, p, {'|', ')', '&', ';'}) then Ok(c, p) else
      var t := GetToken(s, p);
      if t.kind == '\0' then Ok(c, t.next)
      else if t.kind != 'a' then Panic("syntax")
      else if argc + 1 >= MAXARGS then Panic("too many args")
      else
        AddArgKeepsWords(s, c, Tok(t.q, t.eq));
        match ParseRedirs(s, AddArg(c, Tok(t.q, t.eq)), t.next)
        case Ok(d, j) => ParseArgs(s, d, argc + 1, j)
        case Panic(m) => Panic(m)
  }

  function ParseBlock(s: string, i: nat): (r: Parsed)
    requires i <= |s|
    ensures Fine(s, i, r) && (r.Ok? ==> i < r.pos)
    decreases |s| - i, 0
  {
    var p := Skip(s, i);
    if !Peek(s, p, {'('}) then Panic("parseblock") else
      match ParseLine(s, GetToken(s, p).next)
      case Panic(m) => Panic(m)
      case Ok(c, j) =>
        var k := Skip(s, j);
        if !Peek(s, k, {')'}) then Panic("syntax - missing )") else ParseRedirs(s, c, GetToken(s, k).next)
  }

  function ParseExec(s: string, i: nat): (r: Parsed)
    requires i <= |s|
    ensures Fine(s, i, r)
    decreases |s| - i, 1
  {
    var p := Skip(s, i);
    if Peek(s, p, {'('}) then ParseBlock(s, p) else
      match ParseRedirs(s, ExecCmd([]), p)
      case Panic(m) => Panic(m)
      case Ok(c, j) => ParseArgs(s, c, 0, j)
  }

  function ParsePipe(s: string, i: nat): (r: Parsed)
    requires i <= |s|
    ensures Fine(s, i, r)
    decreases |s| - i, 2
  {
    match ParseExec(s, i)
    case Panic(m) => Panic(m)
    case Ok(c, j) =>
      var p := Skip(s, j);
      if !Peek(s, p, {'|'}) then Ok(c, p) else
        match ParsePipe(s, GetToken(s, p).next)
        case Panic(m) => Panic(m)
        case Ok(d, k) => Ok(PipeCmd(c, d), k)
  }

  /** parseline's loop over '&'. */
  function ParseBacks(s: string, c: Cmd, i: nat): (r: Parsed)
    requires i <= |s| && WordsOf(s, c)
    ensures r.Ok? && Fine(s, i, r)
    decreases |s| - i
  {
    var p := Skip(s, i);
    if Peek(s, p, {'&'}) then ParseBacks(s, BackCmd(c), GetToken(s, p).next) else Ok(c, p)
  }

  function ParseLine(s: string, i: nat): (r: Parsed)
    requires i <= |s|
    ensures Fine(s, i, r)
    decreases |s| - i, 3
  {
    match ParsePipe(s, i)
    case Panic(m) => Panic(m)
    case Ok(c, j) =>
      var b := ParseBacks(s, c, j);
      var p := Skip(s, b.pos);
      if !Peek(s, p, {';'}) then Ok(b.cmd, p) else
        match ParseLine(s, GetToken(s, p).next)
        case Panic(m) => Panic(m)
        case Ok(d, k) => Ok(ListCmd(b.cmd, d), k)
  }

  /** parsecmd before nulterminate. */
  function Parse(s: string): (r: Parsed)
    ensures r.Ok? ==> r.pos == |s| && WordsOf(s, r.cmd)
  {
    match ParseLine(s, 0)
    case Panic(m) => Panic(m)
    case Ok(c, j) => if Skip(s, j) == |s| then Ok(c, |s|) else Panic("syntax")
  }

  // ---------------------------------------------------------------- meaning

  /** A command with its strings. */
  datatype Tree =
    | TExec(argv: seq<string>)
    | TRedir(cmd: Tree, file: string, mode: Mode)
    | TPipe(left: Tree, right: Tree)
    | TList(left: Tree, right: Tree)
    | TBack(cmd: Tree)

  function TextOf(s: string, t: Tok): (w: string) {
    if t.q <= t.eq <= |s| then s[t.q..t.eq] else ""
  }

  /** The command a parse result stands for. */
  function TreeOf(s: string, c: Cmd): (t: Tree) {
    match c
    case ExecCmd(argv) => TExec(seq(|argv|, i requires 0 <= i < |argv| => TextOf(s, argv[i])))
    case RedirCmd(d, f, m) => TRedir(TreeOf(s, d), TextOf(s, f), m)
    case PipeCmd(l, r) => TPipe(TreeOf(s, l), TreeOf(s, r))
    case ListCmd(l, r) => TList(TreeOf(s, l), TreeOf(s, r))
    case BackCmd(d) => TBack(TreeOf(s, d))
  }

  predicate IsName(w: string) { w != "" && forall k :: 0 <= k < |w| ==> IsWord(w[k]) }
}
