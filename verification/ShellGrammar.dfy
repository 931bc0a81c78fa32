/**
 The shell's recursive-descent parser (sh.c) as functions of the line and the cursor, and the
 proof that printing a command tree and parsing the text gives the tree back.

 A line is a string without NUL; the cursor runs to its length, where C finds the NUL.
 */
module ShellGrammar {
  const MAXARGS: nat := 10

  /** The two ways a redirection opens its file: O_RDONLY on fd 0, O_WRONLY|O_CREATE on fd 1. */
  datatype Mode = In | Out

  /** struct cmd and its variants; W is what stands for a word. */
  datatype Cmd<W> =
    | Exec(argv: seq<W>)
    | Redir(cmd: Cmd<W>, file: W, mode: Mode)
    | Pipe(left: Cmd<W>, right: Cmd<W>)
    | List(left: Cmd<W>, right: Cmd<W>)
    | Back(cmd: Cmd<W>)

  /** The pair of pointers q, eq that gettoken stores. */
  datatype Span = Span(start: nat, end: nat)

  datatype Result<T> = Ok(v: T, i: nat) | Panic

  // ---- The lexer -------------------------------------------------------------------------

  predicate IsWs(c: char) { c == ' ' || c == '\t' || c == '\r' || c == '\n' || c as int == 11 }

  predicate IsSym(c: char) {
    c == '<' || c == '|' || c == '>' || c == '&' || c == ';' || c == '(' || c == ')'
  }

  predicate WordChar(c: char) { !IsWs(c) && !IsSym(c) && c != '\0' }

  /** C strings hold no NUL before their end. */
  predicate Clean(s: string) { '\0' !in s }

  function SkipWs(s: string, i: nat): (j: nat)
    requires i <= |s|
    ensures i <= j <= |s| && (j < |s| ==> !IsWs(s[j]))
    decreases |s| - i
  {
    if i < |s| && IsWs(s[i]) then SkipWs(s, i + 1) else i
  }

  function WordEnd(s: string, i: nat): (j: nat)
    requires i <= |s|
    ensures i <= j <= |s|
    decreases |s| - i
  {
    if i < |s| && !IsWs(s[i]) && !IsSym(s[i]) then WordEnd(s, i + 1) else i
  }

  /** gettoken's answer: 0, a symbol, '+' for >>, or 'a' for a word. */
  datatype Token = Eof | Sym(c: char) | Append | Word

  /** The token at the cursor, its span, and the cursor after the blanks that follow. */
  function GetToken(s: string, i: nat): (r: (Token, Span, nat))
    requires i <= |s|
    ensures i <= r.2 <= |s| && (r.0 != Eof ==> i < r.2)
  {
    var q := SkipWs(s, i);
    if q == |s| then (Eof, Span(q, q), q)
    else if s[q] == '>' && q + 1 < |s| && s[q + 1] == '>' then (Append, Span(q, q + 2), SkipWs(s, q + 2))
    else if IsSym(s[q]) then (Sym(s[q]), Span(q, q + 1), SkipWs(s, q + 1))
    else (Word, Span(q, WordEnd(s, q)), SkipWs(s, WordEnd(s, q)))
  }

  predicate Peek(s: string, i: nat, toks: set<char>)
    requires i <= |s|
  {
    var j := SkipWs(s, i);
    j < |s| && s[j] in toks
  }

  // ---- The parser --------------------------------------------------------------------------

  /** The redirections in the order they are wrapped around a command. */
  type Redirs<W> = seq<(W, Mode)>

  function Wrap<W>(c: Cmd<W>, rs: Redirs<W>): Cmd<W>
    decreases |rs|
  {
    if rs == [] then c else Wrap(Redir(c, rs[0].0, rs[0].1), rs[1..])
  }

  /** parseredirs, returning the redirections to wrap. */
  function ParseRedirs(s: string, i: nat): (r: Result<Redirs<Span>>)
    requires i <= |s|
    ensures r.Ok? ==> i <= r.i <= |s|
    decreases |s| - i
  {
    if !Peek(s, i, {'<', '>'}) then Ok([], SkipWs(s, i))
    else
      var (tok, _, k) := GetToken(s, i);
      var (w, sp, l) := GetToken(s, k);
      if w != Word then Panic
      else
        var rest := ParseRedirs(s, l);
        if rest.Panic? then Panic
        else Ok([(sp, if tok == Sym('<') then In else Out)] + rest.v, rest.i)
  }

  /** The loop of parseexec, with the words and redirections met so far. */
  function ParseArgs(s: string, i: nat, argv: seq<Span>, rs: Redirs<Span>): (r: Result<Cmd<Span>>)
    requires i <= |s|
    ensures r.Ok? ==> i <= r.i <= |s|
    decreases |s| - i
  {
    if Peek(s, i, {'|', ')', '&', ';'}) then Ok(Wrap(Exec(argv), rs), SkipWs(s, i))
    else
      var (tok, sp, k) := GetToken(s, i);
      if tok == Eof then Ok(Wrap(Exec(argv), rs), k)
      else if tok != Word then Panic
      else if |argv| + 1 >= MAXARGS then Panic
      else
        var more := ParseRedirs(s, k);
        if more.Panic? then Panic else ParseArgs(s, more.i, argv + [sp], rs + more.v)
  }

  function ParseExec(s: string, i: nat): (r: Result<Cmd<Span>>)
    requires i <= |s|
    ensures r.Ok? ==> i <= r.i <= |s|
    decreases |s| - i, 1
  {
    if Peek(s, i, {'('}) then ParseBlock(s, i)
    else
      var rs := ParseRedirs(s, i);
      if rs.Panic? then Panic else ParseArgs(s, rs.i, [], rs.v)
  }

  function ParseBlock(s: string, i: nat): (r: Result<Cmd<Span>>)
    requires i <= |s| && Peek(s, i, {'('})
    ensures r.Ok? ==> i <= r.i <= |s|
    decreases |s| - i, 0
  {
    var (_, _, j) := GetToken(s, i);
    var c := ParseLine(s, j);
    if c.Panic? then Panic
    else if !Peek(s, c.i, {')'}) then Panic
    else
      var (_, _, k) := GetToken(s, c.i);
      var rs := ParseRedirs(s, k);
      if rs.Panic? then Panic else Ok(Wrap(c.v, rs.v), rs.i)
  }

  function ParsePipe(s: string, i: nat): (r: Result<Cmd<Span>>)
    requires i <= |s|
    ensures r.Ok? ==> i <= r.i <= |s|
    decreases |s| - i, 2
  {
    var c := ParseExec(s, i);
    if c.Panic? then Panic
    else if Peek(s, c.i, {'|'}) then
      var (_, _, j) := GetToken(s, c.i);
      var d := ParsePipe(s, j);
      if d.Panic? then Panic else Ok(Pipe(c.v, d.v), d.i)
    else Ok(c.v, SkipWs(s, c.i))
  }

  /** while(peek {'&'}) cmd = backcmd(cmd) */
  function ParseBacks(s: string, i: nat, c: Cmd<Span>): (r: (Cmd<Span>, nat))
    requires i <= |s|
    ensures i <= r.1 <= |s|
    decreases |s| - i
  {
    if Peek(s, i, {'&'}) then
      var (_, _, k) := GetToken(s, i);
      ParseBacks(s, k, Back(c))
    else (c, SkipWs(s, i))
  }

  function ParseLine(s: string, i: nat): (r: Result<Cmd<Span>>)
    requires i <= |s|
    ensures r.Ok? ==> i <= r.i <= |s|
    decreases |s| - i, 3
  {
    var c := ParsePipe(s, i);
    if c.Panic? then Panic
    else
      var (d, j) := ParseBacks(s, c.i, c.v);
      if Peek(s, j, {';'}) then
        var (_, _, k) := GetToken(s, j);
        var e := ParseLine(s, k);
        if e.Panic? then Panic else Ok(List(d, e.v), e.i)
      else Ok(d, j)
  }

  /** parsecmd, before nulterminate: the whole line or a panic. */
  function ParseCmd(s: string): (r: Result<Cmd<Span>>) {
    var c := ParseLine(s, 0);
    if c.Panic? then Panic
    else if SkipWs(s, c.i) != |s| then Panic
    else Ok(c.v, |s|)
  }

  // ---- Trees of strings --------------------------------------------------------------------

  predicate WordOk(w: string) {
    w != "" && forall k :: 0 <= k < |w| ==> WordChar(w[k])
  }

  predicate Printable(t: Cmd<string>) {
    match t
    case Exec(argv) => |argv| < MAXARGS && forall k :: 0 <= k < |argv| ==> WordOk(argv[k])
    case Redir(c, f, _) => Printable(c) && WordOk(f)
    case Pipe(l, r) => Printable(l) && Printable(r)
    case List(l, r) => Printable(l) && Printable(r)
    case Back(c) => Printable(c)
  }

  function Words(ws: seq<string>): string {
    if ws == [] then "" else ws[0] + " " + Words(ws[1..])
  }

  function RedirText(f: string, m: Mode): string {
    (if m == In then "< " else "> ") + f + " "
  }

  /** A compound command at the level of its own operator. */
  function Inner(t: Cmd<string>): string
    requires t.Pipe? || t.List? || t.Back?
    decreases t, 0
  {
    match t
    case Pipe(l, r) => ExecText(l) + "| " + PipeText(r)
    case List(l, r) => BackText(l) + "; " + LineText(r)
    case Back(c) => BackText(c) + "& "
  }

  function ExecText(t: Cmd<string>): string
    decreases t, 1
  {
    match t
    case Exec(argv) => Words(argv)
    case Redir(c, f, m) => ExecText(c) + RedirText(f, m)
    case _ => "( " + Inner(t) + ") "
  }

  function PipeText(t: Cmd<string>): string
    decreases t, 2
  {
    if t.Pipe? then Inner(t) else ExecText(t)
  }

  function BackText(t: Cmd<string>): string
    decreases t, 3
  {
    if t.Back? then Inner(t) else PipeText(t)
  }

  /** The text of a command, with parentheses only where the grammar needs them. */
  function LineText(t: Cmd<string>): string
    decreases t, 4
  {
    if t.List? then Inner(t) else BackText(t)
  }

  /** What a tree of spans means over the line. */
  function Str(s: string, w: Span): string {
    if w.start <= w.end <= |s| then s[w.start..w.end] else ""
  }

  function Strs(s: string, ws: seq<Span>): (r: seq<string>)
    ensures |r| == |ws|
  {
    seq(|ws|, k requires 0 <= k < |ws| => Str(s, ws[k]))
  }

  function Read(s: string, t: Cmd<Span>): Cmd<string> {
    match t
    case Exec(argv) => Exec(Strs(s, argv))
    case Redir(c, f, m) => Redir(Read(s, c), Str(s, f), m)
    case Pipe(l, r) => Pipe(Read(s, l), Read(s, r))
    case List(l, r) => List(Read(s, l), Read(s, r))
    case Back(c) => Back(Read(s, c))
  }

  function ReadRedirs(s: string, rs: Redirs<Span>): (r: Redirs<string>)
    ensures |r| == |rs|
  {
    seq(|rs|, k requires 0 <= k < |rs| => (Str(s, rs[k].0), rs[k].1))
  }

  // ---- Lexing printed text -------------------------------------------------------------------

  /** The line from i to j is the text a. */
  ghost predicate Text(s: string, i: nat, a: string, j: nat) {
    i + |a| == j <= |s| && s[i..j] == a
  }

  lemma Split(s: string, i: nat, a: string, b: string, j: nat)
    requires Text(s, i, a + b, j)
    ensures Text(s, i, a, i + |a|) && Text(s, i + |a|, b, j)
  {
    var w := s[i..j];
    assert s[i..i + |a|] == w[..|a|] == a;
    assert s[i + |a|..j] == w[|a|..] == b;
  }

  /** A text a, an operator c and a text b. */
  lemma OpSplit(s: string, i: nat, a: string, c: char, b: string, j: nat) returns (l: nat)
    requires Text(s, i, a + [c, ' '] + b, j)
    ensures Text(s, i, a, l) && Text(s, l, [c, ' '], l + 2) && Text(s, l + 2, b, j)
  {
    assert a + [c, ' '] + b == a + ([c, ' '] + b);
    l := i + |a|;
    Split(s, i, a, [c, ' '] + b, j);
    Split(s, l, [c, ' '], b, j);
  }

  lemma FirstChar(s: string, i: nat, a: string, j: nat)
    requires Text(s, i, a, j) && a != ""
    ensures i < |s| && s[i] == a[0]
  {
    assert s[i] == s[i..j][0];
  }

  /** A token or the end of the line is at i. */
  ghost predicate TokenAt(s: string, i: nat) {
    i <= |s| && (i < |s| ==> !IsWs(s[i]))
  }

  /** What may follow a command: an operator, a closing parenthesis, or the end of the line. */
  ghost predicate StopAt(s: string, i: nat, ops: set<char>) {
    i <= |s| && (i < |s| ==> !IsWs(s[i]) && s[i] in ops)
  }

  const STOPS: set<char> := {'|', ')', '&', ';'}

  lemma PeekAt(s: string, i: nat, toks: set<char>)
    requires TokenAt(s, i)
    ensures SkipWs(s, i) == i && Peek(s, i, toks) == (i < |s| && s[i] in toks)
  {
  }

  lemma {:induction false} WordEndIs(s: string, i: nat, e: nat)
    requires i <= e < |s| && IsWs(s[e]) && forall k :: i <= k < e ==> WordChar(s[k])
    ensures WordEnd(s, i) == e
    decreases e - i
  {
    if i < e { WordEndIs(s, i + 1, e); }
  }

  /** A word and its blank, then a token. */
  ghost predicate WordAt(s: string, i: nat, sp: Span, k: nat) {
    && i < |s| && WordChar(s[i]) && i < k <= |s| && TokenAt(s, k)
    && GetToken(s, i) == (Word, sp, k) && sp.start <= sp.end <= |s|
  }

  lemma WordLexed(s: string, i: nat, w: string, k: nat) returns (sp: Span)
    requires Text(s, i, w + " ", k) && WordOk(w) && TokenAt(s, k)
    ensures WordAt(s, i, sp, k) && Str(s, sp) == w && TokenAt(s, i)
  {
    Split(s, i, w, " ", k);
    var e := i + |w|;
    sp := Span(i, e);
    FirstChar(s, e, " ", k);
    FirstChar(s, i, w, e);
    forall k | i <= k < e ensures s[k] == w[k - i] { assert s[i..e][k - i] == w[k - i]; }
    WordEndIs(s, i, e);
    assert SkipWs(s, e) == SkipWs(s, e + 1) == e + 1;
  }

  /** A one-character token and its blank, then a token. */
  ghost predicate SymAt(s: string, i: nat, c: char, k: nat) {
    i < |s| && s[i] == c && IsSym(c) && i < k <= |s| && GetToken(s, i) == (Sym(c), Span(i, i + 1), k) && TokenAt(s, k)
  }

  lemma SymLexed(s: string, i: nat, c: char, k: nat)
    requires Text(s, i, [c, ' '], k) && IsSym(c) && TokenAt(s, k)
    ensures SymAt(s, i, c, k) && TokenAt(s, i)
  {
    assert s[i] == s[i..k][0] && s[i + 1] == s[i..k][1];
    assert SkipWs(s, i + 1) == SkipWs(s, i + 2) == i + 2;
  }

  // ---- Redirections ------------------------------------------------------------------------

  function RedirsText(rs: Redirs<string>): string
    decreases |rs|
  {
    if rs == [] then "" else RedirText(rs[0].0, rs[0].1) + RedirsText(rs[1..])
  }

  predicate RedirsOk(rs: Redirs<string>) {
    forall k :: 0 <= k < |rs| ==> WordOk(rs[k].0)
  }

  /** parseredirs on one redirection. */
  lemma RedirStep(s: string, i: nat, k: nat, l: nat, sp: Span, m: Mode, rest: Result<Redirs<Span>>)
    requires SymAt(s, i, if m == In then '<' else '>', k) && WordAt(s, k, sp, l)
    requires rest == ParseRedirs(s, l) && rest.Ok?
    ensures ParseRedirs(s, i) == Ok([(sp, m)] + rest.v, rest.i)
  {
    assert Peek(s, i, {'<', '>'});
  }

  /** parseredirs where there is none. */
  lemma NoRedirs(s: string, i: nat)
    requires TokenAt(s, i) && (i < |s| ==> s[i] != '<' && s[i] != '>')
    ensures ParseRedirs(s, i) == Ok([], i)
  {
  }

  lemma ReadRedirsCons(s: string, sp: Span, m: Mode, rs: Redirs<Span>)
    ensures ReadRedirs(s, [(sp, m)] + rs) == [(Str(s, sp), m)] + ReadRedirs(s, rs)
  {
  }

  lemma RedirSplit(s: string, i: nat, rs: Redirs<string>, j: nat) returns (k: nat, l: nat)
    requires rs != [] && Text(s, i, RedirsText(rs), j)
    ensures Text(s, i, [if rs[0].1 == In then '<' else '>', ' '], k)
    ensures Text(s, k, rs[0].0 + " ", l) && Text(s, l, RedirsText(rs[1..]), j)
  {
    var (f, m) := rs[0];
    var c, more := if m == In then '<' else '>', RedirsText(rs[1..]);
    assert RedirsText(rs) == [c, ' '] + ((f + " ") + more);
    k, l := i + 2, i + 2 + |f + " "|;
    Split(s, i, [c, ' '], (f + " ") + more, j);
    Split(s, k, f + " ", more, j);
  }

  lemma {:induction false} RedirsParsed(s: string, i: nat, rs: Redirs<string>, j: nat) returns (v: Redirs<Span>)
    requires Text(s, i, RedirsText(rs), j) && RedirsOk(rs) && StopAt(s, j, STOPS)
    ensures ParseRedirs(s, i) == Ok(v, j) && ReadRedirs(s, v) == rs
    ensures TokenAt(s, i) && (i < |s| ==> s[i] != '(')
    decreases |rs|
  {
    if rs == [] {
      v := [];
      NoRedirs(s, i);
      assert ReadRedirs(s, []) == [];
    } else {
      var k, l := RedirSplit(s, i, rs, j);
      var rest := RedirsParsed(s, l, rs[1..], j);
      var sp := WordLexed(s, k, rs[0].0, l);
      SymLexed(s, i, if rs[0].1 == In then '<' else '>', k);
      RedirStep(s, i, k, l, sp, rs[0].1, Ok(rest, j));
      v := [(sp, rs[0].1)] + rest;
      ReadRedirsCons(s, sp, rs[0].1, rest);
      assert [rs[0]] + rs[1..] == rs;
    }
  }

  // ---- Simple commands -----------------------------------------------------------------------

  lemma StrsSnoc(s: string, ws: seq<Span>, w: Span)
    ensures Strs(s, ws + [w]) == Strs(s, ws) + [Str(s, w)]
  {
  }

  lemma {:induction false} ReadWrap(s: string, c: Cmd<Span>, rs: Redirs<Span>)
    ensures Read(s, Wrap(c, rs)) == Wrap(Read(s, c), ReadRedirs(s, rs))
    decreases |rs|
  {
    if rs == [] {
      assert ReadRedirs(s, rs) == [];
    } else {
      ReadWrap(s, Redir(c, rs[0].0, rs[0].1), rs[1..]);
      assert ReadRedirs(s, rs) == [(Str(s, rs[0].0), rs[0].1)] + ReadRedirs(s, rs[1..]);
    }
  }

  predicate WordsOk(ws: seq<string>) {
    forall k :: 0 <= k < |ws| ==> WordOk(ws[k])
  }

  /** One word at the cursor inside parseexec's loop. */
  lemma ArgStep(s: string, i: nat, k: nat, sp: Span, argv: seq<Span>, more: Redirs<Span>, l: nat)
    requires WordAt(s, i, sp, k) && |argv| + 1 < MAXARGS && ParseRedirs(s, k) == Ok(more, l) && l <= |s|
    ensures ParseArgs(s, i, argv, []) == ParseArgs(s, l, argv + [sp], more)
  {
    assert !Peek(s, i, {'|', ')', '&', ';'});
    assert [] + more == more;
  }

  lemma ArgsStop(s: string, i: nat, argv: seq<Span>, rs: Redirs<Span>)
    requires StopAt(s, i, STOPS)
    ensures ParseArgs(s, i, argv, rs) == Ok(Wrap(Exec(argv), rs), i)
  {
  }

  lemma ArgSplit(s: string, i: nat, ws: seq<string>, rs: Redirs<string>, j: nat) returns (k: nat)
    requires ws != [] && Text(s, i, Words(ws) + RedirsText(rs), j)
    ensures Text(s, i, ws[0] + " ", k) && Text(s, k, Words(ws[1..]) + RedirsText(rs), j)
    ensures |ws| == 1 ==> Text(s, k, RedirsText(rs), j)
  {
    assert Words(ws) + RedirsText(rs) == (ws[0] + " ") + (Words(ws[1..]) + RedirsText(rs));
    k := i + |ws[0] + " "|;
    Split(s, i, ws[0] + " ", Words(ws[1..]) + RedirsText(rs), j);
    if |ws| == 1 { Split(s, k, "", RedirsText(rs), j); }
  }

  /** parseexec's loop on the last word and the redirections after it. */
  lemma LastArg(s: string, i: nat, argv: seq<Span>, w: string, k: nat, rs: Redirs<string>, j: nat)
    returns (av: seq<Span>, v: Redirs<Span>)
    requires WordOk(w) && RedirsOk(rs) && |argv| + 1 < MAXARGS
    requires Text(s, i, w + " ", k) && Text(s, k, RedirsText(rs), j) && StopAt(s, j, STOPS)
    ensures ParseArgs(s, i, argv, []) == Ok(Wrap(Exec(av), v), j)
    ensures Strs(s, av) == Strs(s, argv) + [w] && ReadRedirs(s, v) == rs
  {
    v := RedirsParsed(s, k, rs, j);
    var sp := WordLexed(s, i, w, k);
    ArgStep(s, i, k, sp, argv, v, j);
    av := argv + [sp];
    ArgsStop(s, j, av, v);
    StrsSnoc(s, argv, sp);
  }

  /** parseexec's loop on a word that another word follows. */
  lemma NextArg(s: string, i: nat, argv: seq<Span>, w: string, k: nat) returns (av: seq<Span>)
    requires WordOk(w) && |argv| + 1 < MAXARGS
    requires Text(s, i, w + " ", k) && TokenAt(s, k) && k < |s| && WordChar(s[k])
    ensures ParseArgs(s, i, argv, []) == ParseArgs(s, k, av, [])
    ensures |av| == |argv| + 1 && Strs(s, av) == Strs(s, argv) + [w]
  {
    var sp := WordLexed(s, i, w, k);
    NoRedirs(s, k);
    ArgStep(s, i, k, sp, argv, [], k);
    av := argv + [sp];
    StrsSnoc(s, argv, sp);
  }

  /** parseexec's loop reads the remaining words and then the redirections after the last one. */
  lemma {:induction false} ArgsParsed(s: string, i: nat, argv: seq<Span>, ws: seq<string>, rs: Redirs<string>, j: nat)
    returns (av: seq<Span>, v: Redirs<Span>)
    requires ws != [] && WordsOk(ws) && RedirsOk(rs) && |argv| + |ws| < MAXARGS
    requires Text(s, i, Words(ws) + RedirsText(rs), j) && StopAt(s, j, STOPS)
    ensures ParseArgs(s, i, argv, []) == Ok(Wrap(Exec(av), v), j)
    ensures Strs(s, av) == Strs(s, argv) + ws && ReadRedirs(s, v) == rs
    decreases |ws|
  {
    var k := ArgSplit(s, i, ws, rs, j);
    if |ws| == 1 {
      assert ws == [ws[0]];
      av, v := LastArg(s, i, argv, ws[0], k, rs, j);
    } else {
      WordFirst(s, k, ws[1..], rs, j);
      var more := NextArg(s, i, argv, ws[0], k);
      av, v := ArgsParsed(s, k, more, ws[1..], rs, j);
      Regroup(Strs(s, argv), ws);
    }
  }

  lemma Regroup<T>(a: seq<T>, b: seq<T>)
    requires b != []
    ensures (a + [b[0]]) + b[1..] == a + b
  {
  }

  lemma WordFirst(s: string, i: nat, ws: seq<string>, rs: Redirs<string>, j: nat)
    requires ws != [] && WordsOk(ws) && Text(s, i, Words(ws) + RedirsText(rs), j)
    ensures TokenAt(s, i) && i < |s| && WordChar(s[i])
  {
    FirstChar(s, i, Words(ws) + RedirsText(rs), j);
    assert (Words(ws) + RedirsText(rs))[0] == ws[0][0];
  }

  /** parseexec where no block begins. */
  lemma ExecStep(s: string, i: nat, v: Redirs<Span>, j: nat)
    requires TokenAt(s, i) && (i < |s| ==> s[i] != '(') && ParseRedirs(s, i) == Ok(v, j) && j <= |s|
    ensures ParseExec(s, i) == ParseArgs(s, j, [], v)
  {
    PeekAt(s, i, {'('});
  }

  /** Parsing gives the tree t and stops at j. */
  ghost predicate Yields(s: string, r: Result<Cmd<Span>>, t: Cmd<string>, j: nat) {
    r.Ok? && r.i == j && Read(s, r.v) == t
  }

  /** parseexec on a simple command. */
  lemma SimpleParsed(s: string, i: nat, ws: seq<string>, rs: Redirs<string>, j: nat)
    requires WordsOk(ws) && RedirsOk(rs) && |ws| < MAXARGS
    requires Text(s, i, Words(ws) + RedirsText(rs), j) && StopAt(s, j, STOPS)
    ensures TokenAt(s, i) && Yields(s, ParseExec(s, i), Wrap(Exec(ws), rs), j)
  {
    var av, v;
    if ws == [] {
      assert Words(ws) + RedirsText(rs) == RedirsText(rs);
      v := RedirsParsed(s, i, rs, j);
      av := [];
      ExecStep(s, i, v, j);
      ArgsStop(s, j, av, v);
      assert Strs(s, []) == [];
    } else {
      WordFirst(s, i, ws, rs, j);
      av, v := ArgsParsed(s, i, [], ws, rs, j);
      NoRedirs(s, i);
      ExecStep(s, i, [], i);
      assert Strs(s, []) + ws == ws;
    }
    ReadWrap(s, Exec(av), v);
  }

  // ---- A command and its redirections ---------------------------------------------------------

  function Base(t: Cmd<string>): Cmd<string> {
    if t.Redir? then Base(t.cmd) else t
  }

  function Redirections(t: Cmd<string>): Redirs<string> {
    if t.Redir? then Redirections(t.cmd) + [(t.file, t.mode)] else []
  }

  lemma {:induction false} WrapSnoc<W>(c: Cmd<W>, rs: Redirs<W>, r: (W, Mode))
    ensures Wrap(c, rs + [r]) == Redir(Wrap(c, rs), r.0, r.1)
    decreases |rs|
  {
    if rs != [] {
      assert (rs + [r])[1..] == rs[1..] + [r];
      WrapSnoc(Redir(c, rs[0].0, rs[0].1), rs[1..], r);
    }
  }

  lemma {:induction false} RedirsTextSnoc(rs: Redirs<string>, r: (string, Mode))
    ensures RedirsText(rs + [r]) == RedirsText(rs) + RedirText(r.0, r.1)
    decreases |rs|
  {
    if rs != [] {
      assert (rs + [r])[1..] == rs[1..] + [r];
      RedirsTextSnoc(rs[1..], r);
    } else {
      assert rs + [r] == [r];
    }
  }

  /** A redirected command is its base wrapped in its redirections, in the tree and in the text. */
  lemma {:induction false} Unwrapped(t: Cmd<string>)
    requires Printable(t)
    ensures t == Wrap(Base(t), Redirections(t)) && !Base(t).Redir? && Printable(Base(t)) && RedirsOk(Redirections(t))
    ensures ExecText(t) == ExecText(Base(t)) + RedirsText(Redirections(t))
    ensures Base(t) == t || Base(t) < t
  {
    if t.Redir? {
      Unwrapped(t.cmd);
      var rs, r := Redirections(t.cmd), (t.file, t.mode);
      WrapSnoc(Base(t), rs, r);
      RedirsTextSnoc(rs, r);
      assert ExecText(Base(t)) + (RedirsText(rs) + RedirText(t.file, t.mode))
          == (ExecText(Base(t)) + RedirsText(rs)) + RedirText(t.file, t.mode);
    }
  }

  // ---- One step of each level ------------------------------------------------------------------

  lemma BlockSplit(s: string, i: nat, b: Cmd<string>, rs: Redirs<string>, j: nat) returns (k: nat)
    requires (b.Pipe? || b.List? || b.Back?) && Text(s, i, ExecText(b) + RedirsText(rs), j)
    ensures Text(s, i, ['(', ' '], i + 2) && Text(s, i + 2, Inner(b), k)
    ensures Text(s, k, [')', ' '], k + 2) && Text(s, k + 2, RedirsText(rs), j)
  {
    var inner, after := Inner(b), RedirsText(rs);
    assert ExecText(b) + after == ['(', ' '] + (inner + [')', ' '] + after);
    Split(s, i, ['(', ' '], inner + [')', ' '] + after, j);
    k := OpSplit(s, i + 2, inner, ')', after, j);
  }

  lemma BlockStep(s: string, i: nat, c: Cmd<Span>, k: nat, v: Redirs<Span>, j: nat)
    requires SymAt(s, i, '(', i + 2) && ParseLine(s, i + 2) == Ok(c, k)
    requires SymAt(s, k, ')', k + 2) && ParseRedirs(s, k + 2) == Ok(v, j)
    ensures ParseExec(s, i) == Ok(Wrap(c, v), j)
  {
    assert Peek(s, i, {'('}) && Peek(s, k, {')'});
  }

  lemma PipeStep(s: string, i: nat, c: Cmd<Span>, k: nat, d: Cmd<Span>, j: nat)
    requires i <= |s| && ParseExec(s, i) == Ok(c, k) && SymAt(s, k, '|', k + 2) && ParsePipe(s, k + 2) == Ok(d, j)
    ensures ParsePipe(s, i) == Ok(Pipe(c, d), j)
  {
    assert Peek(s, k, {'|'});
  }

  lemma PipeStop(s: string, i: nat, c: Cmd<Span>, j: nat)
    requires i <= |s| && ParseExec(s, i) == Ok(c, j) && StopAt(s, j, {')', '&', ';'})
    ensures ParsePipe(s, i) == Ok(c, j)
  {
    PeekAt(s, j, {'|'});
  }

  lemma BackStep(s: string, i: nat, c: Cmd<Span>)
    requires SymAt(s, i, '&', i + 2)
    ensures ParseBacks(s, i, c) == ParseBacks(s, i + 2, Back(c))
  {
    assert Peek(s, i, {'&'});
  }

  lemma BackStop(s: string, i: nat, c: Cmd<Span>)
    requires StopAt(s, i, {')', ';'})
    ensures ParseBacks(s, i, c) == (c, i)
  {
  }

  lemma ListStep(s: string, i: nat, c: Cmd<Span>, k: nat, d: Cmd<Span>, l: nat, e: Cmd<Span>, j: nat)
    requires i <= |s| && ParsePipe(s, i) == Ok(c, k) && k <= |s| && ParseBacks(s, k, c) == (d, l)
    requires SymAt(s, l, ';', l + 2) && ParseLine(s, l + 2) == Ok(e, j)
    ensures ParseLine(s, i) == Ok(List(d, e), j)
  {
    assert Peek(s, l, {';'});
  }

  lemma ListStop(s: string, i: nat, c: Cmd<Span>, k: nat, d: Cmd<Span>, j: nat)
    requires i <= |s| && ParsePipe(s, i) == Ok(c, k) && k <= |s| && ParseBacks(s, k, c) == (d, j) && StopAt(s, j, {')'})
    ensures ParseLine(s, i) == Ok(d, j)
  {
    PeekAt(s, j, {';'});
  }

  // ---- The round trip ----------------------------------------------------------------------

  /** parseline on a compound command at the level of its own operator. */
  lemma {:induction false} InnerRoundTrip(s: string, i: nat, t: Cmd<string>, j: nat) returns (c: Cmd<Span>)
    requires Printable(t) && (t.Pipe? || t.List? || t.Back?) && Text(s, i, Inner(t), j) && StopAt(s, j, {')'})
    ensures TokenAt(s, i) && ParseLine(s, i) == Ok(c, j) && Read(s, c) == t
    decreases t, 1
  {
    match t
    case List(left, right) =>
      c := ListRoundTrip(s, i, left, right, j);
    case Back(cmd) =>
      var p, k, d := AndRoundTrip(s, i, cmd, j);
      BackStop(s, j, d);
      ListStop(s, i, p, k, d, j);
      c := d;
    case Pipe(left, right) =>
      c := BarRoundTrip(s, i, left, right, j);
      BackStop(s, j, c);
      ListStop(s, i, c, j, c, j);
  }

  lemma {:induction false} ListRoundTrip(s: string, i: nat, left: Cmd<string>, right: Cmd<string>, j: nat) returns (c: Cmd<Span>)
    requires Printable(left) && Printable(right) && Text(s, i, Inner(List(left, right)), j) && StopAt(s, j, {')'})
    ensures TokenAt(s, i) && ParseLine(s, i) == Ok(c, j) && Read(s, c) == List(left, right)
    decreases List(left, right), 0
  {
    var a, b := BackText(left), LineText(right);
    assert Inner(List(left, right)) == a + [';', ' '] + b;
    var l := OpSplit(s, i, a, ';', b, j);
    var e := LineRoundTrip(s, l + 2, right, j);
    SymLexed(s, l, ';', l + 2);
    var p, k, d := BackRoundTrip(s, i, left, l);
    BackStop(s, l, d);
    ListStep(s, i, p, k, d, l, e, j);
    c := List(d, e);
  }

  lemma {:induction false} BarRoundTrip(s: string, i: nat, left: Cmd<string>, right: Cmd<string>, j: nat) returns (c: Cmd<Span>)
    requires Printable(left) && Printable(right) && Text(s, i, Inner(Pipe(left, right)), j) && StopAt(s, j, {')', '&', ';'})
    ensures TokenAt(s, i) && ParsePipe(s, i) == Ok(c, j) && Read(s, c) == Pipe(left, right)
    decreases Pipe(left, right), 0
  {
    var a, b := ExecText(left), PipeText(right);
    assert Inner(Pipe(left, right)) == a + ['|', ' '] + b;
    var k := OpSplit(s, i, a, '|', b, j);
    var d := PipeRoundTrip(s, k + 2, right, j);
    SymLexed(s, k, '|', k + 2);
    var e := ExecRoundTrip(s, i, left, k);
    PipeStep(s, i, e, k, d, j);
    c := Pipe(e, d);
  }

  lemma AndSplit(s: string, i: nat, cmd: Cmd<string>, j: nat) returns (l: nat)
    requires Text(s, i, Inner(Back(cmd)), j) && TokenAt(s, j)
    ensures Text(s, i, BackText(cmd), l) && SymAt(s, l, '&', l + 2) && TokenAt(s, l) && j == l + 2
  {
    var a := BackText(cmd);
    assert Inner(Back(cmd)) == a + ['&', ' '];
    Split(s, i, a, ['&', ' '], j);
    l := i + |a|;
    SymLexed(s, l, '&', j);
  }

  lemma {:induction false} AndRoundTrip(s: string, i: nat, cmd: Cmd<string>, j: nat) returns (c: Cmd<Span>, k: nat, d: Cmd<Span>)
    requires Printable(cmd) && Text(s, i, Inner(Back(cmd)), j) && StopAt(s, j, {')', '&', ';'})
    ensures TokenAt(s, i) && ParsePipe(s, i) == Ok(c, k) && k <= |s|
    ensures ParseBacks(s, k, c) == ParseBacks(s, j, d) && Read(s, d) == Back(cmd)
    decreases Back(cmd), 0
  {
    var l := AndSplit(s, i, cmd, j);
    var e;
    c, k, e := BackRoundTrip(s, i, cmd, l);
    BackStep(s, l, e);
    d := Back(e);
  }

  lemma BlockTail(s: string, k: nat, rs: Redirs<string>, j: nat) returns (v: Redirs<Span>)
    requires RedirsOk(rs) && StopAt(s, j, STOPS)
    requires Text(s, k, [')', ' '], k + 2) && Text(s, k + 2, RedirsText(rs), j)
    ensures SymAt(s, k, ')', k + 2) && StopAt(s, k, {')'})
    ensures ParseRedirs(s, k + 2) == Ok(v, j) && ReadRedirs(s, v) == rs
  {
    v := RedirsParsed(s, k + 2, rs, j);
    SymLexed(s, k, ')', k + 2);
  }

  /** parseexec on a block in parentheses with its redirections. */
  lemma {:induction false} BlockRoundTrip(s: string, i: nat, b: Cmd<string>, rs: Redirs<string>, j: nat) returns (c: Cmd<Span>)
    requires Printable(b) && (b.Pipe? || b.List? || b.Back?) && RedirsOk(rs)
    requires Text(s, i, ExecText(b) + RedirsText(rs), j) && StopAt(s, j, STOPS)
    ensures TokenAt(s, i) && ParseExec(s, i) == Ok(c, j) && Read(s, c) == Wrap(b, rs)
    decreases b, 2
  {
    var k := BlockSplit(s, i, b, rs, j);
    var v := BlockTail(s, k, rs, j);
    var d := InnerRoundTrip(s, i + 2, b, k);
    SymLexed(s, i, '(', i + 2);
    BlockStep(s, i, d, k, v, j);
    ReadWrap(s, d, v);
    c := Wrap(d, v);
  }

  /** parseexec: a simple command or a block. */
  lemma {:induction false} ExecRoundTrip(s: string, i: nat, t: Cmd<string>, j: nat) returns (c: Cmd<Span>)
    requires Printable(t) && Text(s, i, ExecText(t), j) && StopAt(s, j, STOPS)
    ensures TokenAt(s, i) && ParseExec(s, i) == Ok(c, j) && Read(s, c) == t
    decreases t, 3
  {
    var b, rs := Base(t), Redirections(t);
    Unwrapped(t);
    if b.Exec? {
      SimpleParsed(s, i, b.argv, rs, j);
      c := ParseExec(s, i).v;
    } else {
      c := BlockRoundTrip(s, i, b, rs, j);
    }
  }

  /** parsepipe. */
  lemma {:induction false} PipeRoundTrip(s: string, i: nat, t: Cmd<string>, j: nat) returns (c: Cmd<Span>)
    requires Printable(t) && Text(s, i, PipeText(t), j) && StopAt(s, j, {')', '&', ';'})
    ensures TokenAt(s, i) && ParsePipe(s, i) == Ok(c, j) && Read(s, c) == t
    decreases t, 4
  {
    if t.Pipe? {
      c := BarRoundTrip(s, i, t.left, t.right, j);
    } else {
      c := ExecRoundTrip(s, i, t, j);
      PipeStop(s, i, c, j);
    }
  }

  /** parsepipe and then as many & as t has at its end; more may follow. */
  lemma {:induction false} BackRoundTrip(s: string, i: nat, t: Cmd<string>, j: nat) returns (c: Cmd<Span>, k: nat, d: Cmd<Span>)
    requires Printable(t) && Text(s, i, BackText(t), j) && StopAt(s, j, {')', '&', ';'})
    ensures TokenAt(s, i) && ParsePipe(s, i) == Ok(c, k) && k <= |s|
    ensures ParseBacks(s, k, c) == ParseBacks(s, j, d) && Read(s, d) == t
    decreases t, 5
  {
    if t.Back? {
      c, k, d := AndRoundTrip(s, i, t.cmd, j);
    } else {
      c := PipeRoundTrip(s, i, t, j);
      k, d := j, c;
    }
  }

  /** parseline. */
  lemma {:induction false} LineRoundTrip(s: string, i: nat, t: Cmd<string>, j: nat) returns (c: Cmd<Span>)
    requires Printable(t) && Text(s, i, LineText(t), j) && StopAt(s, j, {')'})
    ensures TokenAt(s, i) && ParseLine(s, i) == Ok(c, j) && Read(s, c) == t
    decreases t, 6
  {
    if t.List? {
      c := ListRoundTrip(s, i, t.left, t.right, j);
    } else {
      var p, k, d := BackRoundTrip(s, i, t, j);
      BackStop(s, j, d);
      ListStop(s, i, p, k, d, j);
      c := d;
    }
  }

  /** Printing a command tree and parsing the text rebuilds the tree, for every tree the shell can run. */
  lemma RoundTrip(t: Cmd<string>)
    requires Printable(t)
    ensures var r := ParseCmd(LineText(t)); r.Ok? && Read(LineText(t), r.v) == t
  {
    var s := LineText(t);
    assert s[0..|s|] == s;
    var c := LineRoundTrip(s, 0, t, |s|);
  }
}
