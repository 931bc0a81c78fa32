/**
 The language of the shell's command lines, without the parser: which tokens a line consists of, and
 which command a sequence of tokens stands for. The parser of sh.c accepts exactly this language.
 */
module ShellLanguage {
  import opened ShellGrammar

  // ---- Lines and tokens ----------------------------------------------------------------------------

  const BLANKS: set<char> := {' ', '\t', '\r', '\n', 11 as char}
  const SYMBOLS: set<char> := {'<', '|', '>', '&', ';', '(', ')'}

  /** A word, a symbol, or >>. */
  datatype Lex = W(w: string) | Op(c: char) | Twice

  predicate Letter(c: char) { c !in BLANKS && c !in SYMBOLS }

  ghost predicate Blank(s: string, i: nat, j: nat) {
    i <= j <= |s| && forall x :: i <= x < j ==> s[x] in BLANKS
  }

  /** After blanks from i to j, the token t takes the line from j to k: words and >> as long as they can be. */
  ghost predicate Piece(s: string, i: nat, j: nat, k: nat, t: Lex) {
    && j < k <= |s| && Blank(s, i, j)
    && match t
       case W(w) => s[j..k] == w && (forall x :: j <= x < k ==> Letter(s[x])) && (k < |s| ==> !Letter(s[k]))
       case Op(c) => c in SYMBOLS && k == j + 1 && s[j] == c && (c == '>' && k < |s| ==> s[k] != '>')
       case Twice => k == j + 2 && s[j] == '>' && s[j + 1] == '>'
  }

  /** The xth of the tokens, or the blanks after the last one: token x has the place at[x]. */
  ghost predicate PieceAt(s: string, i: nat, ts: seq<Lex>, at: seq<Span>, x: nat)
    requires |at| == |ts| && x <= |ts|
  {
    var from := if x == 0 then i else at[x - 1].end;
    if x < |ts| then Piece(s, from, at[x].start, at[x].end, ts[x]) else Blank(s, from, |s|)
  }

  ghost predicate Placed(s: string, i: nat, ts: seq<Lex>, at: seq<Span>) {
    |at| == |ts| && forall x: nat {:trigger PieceAt(s, i, ts, at, x)} :: x <= |ts| ==> PieceAt(s, i, ts, at, x)
  }

  /** The line from i on consists of these tokens, with any blanks around them. */
  ghost predicate Lexes(s: string, i: nat, ts: seq<Lex>) {
    i <= |s| && exists at :: Placed(s, i, ts, at)
  }

  // ---- Tokens and commands ---------------------------------------------------------------------------

  predicate RedirOp(t: Lex) { t == Op('<') || t == Op('>') || t == Twice }

  /** Words and redirections, in any order. */
  ghost predicate ArgsG(ts: seq<Lex>, ws: seq<string>, rs: Redirs<string>)
    decreases |ts|
  {
    if ts == [] then ws == [] && rs == []
    else if ts[0].W? then ws != [] && ws[0] == ts[0].w && ArgsG(ts[1..], ws[1..], rs)
    else
      && RedirOp(ts[0]) && |ts| > 1 && ts[1].W?
      && rs != [] && rs[0] == (ts[1].w, if ts[0] == Op('<') then In else Out) && ArgsG(ts[2..], ws, rs[1..])
  }

  ghost predicate SimpleG(ts: seq<Lex>, t: Cmd<string>) {
    exists ws, rs :: ArgsG(ts, ws, rs) && |ws| < MAXARGS && t == Wrap(Exec(ws), rs)
  }

  /** A line in parentheses, the closing one at k, and its redirections. */
  ghost predicate BlockG(ts: seq<Lex>, k: nat, c: Cmd<string>, rs: Redirs<string>)
    decreases |ts|, 0
  {
    0 < k < |ts| && ts[0] == Op('(') && ts[k] == Op(')') && LineG(ts[1..k], c) && ArgsG(ts[k + 1..], [], rs)
  }

  ghost predicate ExecG(ts: seq<Lex>, t: Cmd<string>)
    decreases |ts|, 1
  {
    SimpleG(ts, t) || exists k: nat, c, rs :: BlockG(ts, k, c, rs) && t == Wrap(c, rs)
  }

  /** The operator op at k, what is left of it and what is right of it. */
  ghost predicate SplitAt(ts: seq<Lex>, k: nat, op: char) {
    k < |ts| && ts[k] == Op(op)
  }

  ghost predicate PipeG(ts: seq<Lex>, t: Cmd<string>)
    decreases |ts|, 2
  {
    || ExecG(ts, t)
    || (t.Pipe? && exists k: nat :: SplitAt(ts, k, '|') && ExecG(ts[..k], t.left) && PipeG(ts[k + 1..], t.right))
  }

  ghost predicate BackG(ts: seq<Lex>, t: Cmd<string>)
    decreases |ts|, 3
  {
    || PipeG(ts, t)
    || (t.Back? && ts != [] && ts[|ts| - 1] == Op('&') && BackG(ts[..|ts| - 1], t.cmd))
  }

  ghost predicate LineG(ts: seq<Lex>, t: Cmd<string>)
    decreases |ts|, 4
  {
    || BackG(ts, t)
    || (t.List? && exists k: nat :: SplitAt(ts, k, ';') && BackG(ts[..k], t.left) && LineG(ts[k + 1..], t.right))
  }

  /** The line s is a way to write the command t. */
  ghost predicate Denotes(s: string, t: Cmd<string>) {
    exists ts :: Lexes(s, 0, ts) && LineG(ts, t)
  }

  // ---- gettoken and peek ---------------------------------------------------------------------------------

  lemma Classes(c: char)
    ensures IsWs(c) <==> c in BLANKS
    ensures IsSym(c) <==> c in SYMBOLS
  {
  }

  lemma {:induction false} SkipIs(s: string, i: nat, j: nat)
    requires Blank(s, i, j) && (j < |s| ==> s[j] !in BLANKS)
    ensures SkipWs(s, i) == j
    decreases j - i
  {
    if i < |s| { Classes(s[i]); }
    if i < j { SkipIs(s, i + 1, j); }
  }

  lemma {:induction false} EndIs(s: string, i: nat, k: nat)
    requires i <= k <= |s| && (forall x :: i <= x < k ==> Letter(s[x])) && (k < |s| ==> !Letter(s[k]))
    ensures WordEnd(s, i) == k
    decreases k - i
  {
    if i < |s| { Classes(s[i]); }
    if i < k { EndIs(s, i + 1, k); }
  }

  lemma {:induction false} SkipBlank(s: string, i: nat)
    requires i <= |s|
    ensures Blank(s, i, SkipWs(s, i)) && (SkipWs(s, i) < |s| ==> s[SkipWs(s, i)] !in BLANKS)
    decreases |s| - i
  {
    if i < |s| {
      Classes(s[i]);
      if IsWs(s[i]) { SkipBlank(s, i + 1); }
    }
  }

  /** Taking the first token off, and putting one in front. */
  lemma FirstPiece(s: string, i: nat, ts: seq<Lex>) returns (j: nat, k: nat)
    requires Lexes(s, i, ts) && ts != []
    ensures Piece(s, i, j, k, ts[0]) && Lexes(s, k, ts[1..])
  {
    var at: seq<Span> :| Placed(s, i, ts, at);
    assert PieceAt(s, i, ts, at, 0);
    j, k := at[0].start, at[0].end;
    forall x: nat | x <= |ts| - 1 ensures PieceAt(s, k, ts[1..], at[1..], x) {
      assert PieceAt(s, i, ts, at, x + 1);
    }
    assert Placed(s, k, ts[1..], at[1..]);
  }

  lemma PutPiece(s: string, i: nat, j: nat, k: nat, t: Lex, ts: seq<Lex>)
    requires Piece(s, i, j, k, t) && Lexes(s, k, ts)
    ensures Lexes(s, i, [t] + ts)
  {
    var at: seq<Span> :| Placed(s, k, ts, at);
    var all: seq<Span> := [Span.Span(j, k)] + at;
    forall x: nat | x <= |ts| + 1 ensures PieceAt(s, i, [t] + ts, all, x) {
      if x > 0 { assert PieceAt(s, k, ts, at, x - 1); }
    }
    assert Placed(s, i, [t] + ts, all);
  }

  /** A line of no tokens is blank. */
  lemma OnlyBlanks(s: string, i: nat)
    ensures Lexes(s, i, []) <==> Blank(s, i, |s|)
  {
    if Blank(s, i, |s|) {
      assert PieceAt(s, i, [], [], 0);
      assert Placed(s, i, [], []);
    }
    if Lexes(s, i, []) {
      var at: seq<Span> :| Placed(s, i, [], at);
      assert PieceAt(s, i, [], at, 0);
    }
  }

  /** Blanks more or less in front make no difference. */
  lemma LexesSkip(s: string, i: nat, ts: seq<Lex>)
    requires Lexes(s, i, ts)
    ensures Lexes(s, SkipWs(s, i), ts)
  {
    SkipBlank(s, i);
    var i' := SkipWs(s, i);
    if ts == [] {
      OnlyBlanks(s, i);
      OnlyBlanks(s, i');
    } else {
      var j, k := FirstPiece(s, i, ts);
      PieceStart(s, i, j, k, ts[0]);
      assert Piece(s, i', j, k, ts[0]);
      PutPiece(s, i', j, k, ts[0], ts[1..]);
      assert [ts[0]] + ts[1..] == ts;
    }
  }

  /** A token begins where the blanks end. */
  lemma PieceStart(s: string, i: nat, j: nat, k: nat, t: Lex)
    requires Piece(s, i, j, k, t)
    ensures SkipWs(s, i) == j
  {
    if t.W? { assert Letter(s[j]); }
    SkipIs(s, i, j);
  }

  function Kind(t: Lex): Token {
    match t
    case W(_) => Word
    case Op(c) => Sym(c)
    case Twice => Append
  }

  /** The token starts with one of these symbols. */
  predicate Starts(t: Lex, toks: set<char>) {
    match t
    case W(_) => false
    case Op(c) => c in toks
    case Twice => '>' in toks
  }

  /** The first token of ts, if there is one, starts with one of these symbols. */
  predicate Heads(ts: seq<Lex>, toks: set<char>) {
    ts != [] && Starts(ts[0], toks)
  }

  /** What gettoken and peek see at the beginning of the tokens ts. */
  ghost predicate Sees(s: string, i: nat, ts: seq<Lex>) {
    i <= |s| &&
    var (tok, sp, k) := GetToken(s, i);
    if ts == [] then tok == Eof && k == SkipWs(s, i) == |s|
    else tok == Kind(ts[0]) && Lexes(s, k, ts[1..]) && (ts[0].W? ==> Str(s, sp) == ts[0].w)
  }

  lemma Peeks(s: string, i: nat, ts: seq<Lex>, toks: set<char>)
    requires Lexes(s, i, ts) && toks <= SYMBOLS
    ensures Peek(s, i, toks) <==> Heads(ts, toks)
  {
    if ts == [] {
      OnlyBlanks(s, i);
      SkipIs(s, i, |s|);
    } else {
      var j, k := FirstPiece(s, i, ts);
      PieceStart(s, i, j, k, ts[0]);
      if ts[0].W? { assert Letter(s[j]); }
    }
  }

  lemma Head(s: string, i: nat, ts: seq<Lex>)
    requires Lexes(s, i, ts)
    ensures Sees(s, i, ts)
  {
    if ts == [] {
      OnlyBlanks(s, i);
      SkipIs(s, i, |s|);
    } else {
      var j, k := FirstPiece(s, i, ts);
      PieceStart(s, i, j, k, ts[0]);
      Classes(s[j]);
      if ts[0].W? {
        assert Letter(s[j]);
        EndIs(s, j, k);
      }
      LexesSkip(s, k, ts[1..]);
    }
  }

  lemma {:induction false} WordEndLetters(s: string, i: nat)
    requires i <= |s|
    ensures forall x :: i <= x < WordEnd(s, i) ==> Letter(s[x])
    ensures WordEnd(s, i) < |s| ==> !Letter(s[WordEnd(s, i)])
    decreases |s| - i
  {
    if i < |s| {
      Classes(s[i]);
      if !IsWs(s[i]) && !IsSym(s[i]) { WordEndLetters(s, i + 1); }
    }
  }

  /** Every line consists of tokens. */
  lemma {:induction false} LexAll(s: string, i: nat) returns (ts: seq<Lex>)
    requires i <= |s|
    ensures Lexes(s, i, ts)
    decreases |s| - i
  {
    SkipBlank(s, i);
    var j := SkipWs(s, i);
    if j == |s| {
      OnlyBlanks(s, i);
      return [];
    }
    Classes(s[j]);
    var k, t;
    if s[j] == '>' && j + 1 < |s| && s[j + 1] == '>' {
      k, t := j + 2, Twice;
    } else if s[j] in SYMBOLS {
      k, t := j + 1, Op(s[j]);
    } else {
      WordEndLetters(s, j);
      k := WordEnd(s, j);
      t := W(s[j..k]);
    }
    var rest := LexAll(s, k);
    ts := [t] + rest;
    PutPiece(s, i, j, k, t, rest);
  }

  // ---- Words and redirections --------------------------------------------------------------------------

  const REDIRS: set<char> := {'<', '>'}

  /** parseexec from where it looks for redirections on, with the words and redirections it has met. */
  function Rest(s: string, i: nat, argv: seq<Span>, rs: Redirs<Span>): Result<Cmd<Span>>
    requires i <= |s|
  {
    var r := ParseRedirs(s, i);
    if r.Panic? then Panic else ParseArgs(s, r.i, argv, rs + r.v)
  }

  lemma NoRedir(s: string, i: nat, ts: seq<Lex>)
    requires Lexes(s, i, ts) && !Heads(ts, REDIRS)
    ensures ParseRedirs(s, i) == Ok([], SkipWs(s, i)) && Lexes(s, SkipWs(s, i), ts)
  {
    Peeks(s, i, ts, REDIRS);
    LexesSkip(s, i, ts);
  }

  function ModeOf(t: Lex): Mode { if t == Op('<') then In else Out }

  /** One redirection at the cursor; anything but a word after its operator is a panic. */
  lemma OneRedir(s: string, i: nat, ts: seq<Lex>) returns (sp: Span, l: nat)
    requires Lexes(s, i, ts) && Heads(ts, REDIRS)
    ensures RedirOp(ts[0])
    ensures if |ts| > 1 && ts[1].W?
            then i < l <= |s| && Lexes(s, l, ts[2..]) && Str(s, sp) == ts[1].w
              && var r := ParseRedirs(s, l);
                 ParseRedirs(s, i) == if r.Panic? then Panic else Ok([(sp, ModeOf(ts[0]))] + r.v, r.i)
            else ParseRedirs(s, i) == Panic
  {
    Peeks(s, i, ts, REDIRS);
    Head(s, i, ts);
    var k := GetToken(s, i).2;
    Head(s, k, ts[1..]);
    sp, l := GetToken(s, k).1, GetToken(s, k).2;
    if |ts| > 1 { assert ts[1..][0] == ts[1] && ts[1..][1..] == ts[2..]; }
  }

  lemma RestStops(s: string, i: nat, ts: seq<Lex>, argv: seq<Span>, rs: Redirs<Span>) returns (j: nat)
    requires Lexes(s, i, ts) && (ts == [] || Heads(ts, STOPS))
    ensures Rest(s, i, argv, rs) == Ok(Wrap(Exec(argv), rs), j) && Lexes(s, j, ts)
  {
    NoRedir(s, i, ts);
    var i' := SkipWs(s, i);
    assert rs + [] == rs;
    Peeks(s, i', ts, STOPS);
    Head(s, i', ts);
    LexesSkip(s, i', ts);
    j := SkipWs(s, i');
  }

  lemma RestWord(s: string, i: nat, ts: seq<Lex>, argv: seq<Span>, rs: Redirs<Span>) returns (sp: Span, k: nat)
    requires Lexes(s, i, ts) && ts != [] && ts[0].W?
    ensures i < k <= |s| && Lexes(s, k, ts[1..]) && Str(s, sp) == ts[0].w
    ensures Rest(s, i, argv, rs) == if |argv| + 1 >= MAXARGS then Panic else Rest(s, k, argv + [sp], rs)
  {
    NoRedir(s, i, ts);
    var i' := SkipWs(s, i);
    assert rs + [] == rs;
    Peeks(s, i', ts, STOPS);
    Head(s, i', ts);
    sp, k := GetToken(s, i').1, GetToken(s, i').2;
  }

  lemma RestRedir(s: string, i: nat, ts: seq<Lex>, argv: seq<Span>, rs: Redirs<Span>) returns (r: (Span, Mode), l: nat)
    requires Lexes(s, i, ts) && Heads(ts, REDIRS)
    ensures if |ts| > 1 && ts[1].W?
            then i < l <= |s| && Lexes(s, l, ts[2..]) && Str(s, r.0) == ts[1].w && r.1 == ModeOf(ts[0])
              && Rest(s, i, argv, rs) == Rest(s, l, argv, rs + [r])
            else Rest(s, i, argv, rs) == Panic
  {
    var sp;
    sp, l := OneRedir(s, i, ts);
    r := (sp, ModeOf(ts[0]));
    if |ts| > 1 && ts[1].W? {
      var more := ParseRedirs(s, l);
      if more.Ok? { OneBetween(rs, r, more.v); }
    }
  }

  lemma OneBetween<T>(a: seq<T>, x: T, b: seq<T>)
    ensures a + ([x] + b) == (a + [x]) + b
  {
  }

  lemma RestPanics(s: string, i: nat, ts: seq<Lex>, argv: seq<Span>, rs: Redirs<Span>)
    requires Lexes(s, i, ts) && ts != [] && !ts[0].W? && !Heads(ts, REDIRS) && !Heads(ts, STOPS)
    ensures Rest(s, i, argv, rs) == Panic
  {
    NoRedir(s, i, ts);
    var i' := SkipWs(s, i);
    Peeks(s, i', ts, STOPS);
    Head(s, i', ts);
  }

  lemma ReadSnoc(s: string, rs: Redirs<Span>, r: (Span, Mode))
    ensures ReadRedirs(s, rs + [r]) == ReadRedirs(s, rs) + [(Str(s, r.0), r.1)]
  {
  }

  lemma TakeWord(ts: seq<Lex>, n: nat, ws: seq<string>, rs: Redirs<string>)
    requires 0 < n <= |ts| && ts[0].W? && ArgsG(ts[..n], ws, rs)
    ensures ws != [] && ws[0] == ts[0].w && ArgsG(ts[1..][..n - 1], ws[1..], rs) && ts[1..][n - 1..] == ts[n..]
  {
    assert ts[1..][..n - 1] == ts[..n][1..];
  }

  lemma TakeRedir(ts: seq<Lex>, n: nat, ws: seq<string>, rs: Redirs<string>)
    requires 0 < n <= |ts| && !ts[0].W? && ArgsG(ts[..n], ws, rs)
    ensures 1 < n && Heads(ts, REDIRS) && ts[1].W? && rs != [] && rs[0] == (ts[1].w, ModeOf(ts[0]))
    ensures ArgsG(ts[2..][..n - 2], ws, rs[1..]) && ts[2..][n - 2..] == ts[n..]
  {
    assert ts[2..][..n - 2] == ts[..n][2..];
  }

  /** Words and redirections before the end of a command are read. */
  lemma {:induction false} ArgsComplete(s: string, i: nat, ts: seq<Lex>, n: nat, argv: seq<Span>, rs0: Redirs<Span>,
                                        ws: seq<string>, rs: Redirs<string>) returns (av: seq<Span>, v: Redirs<Span>, j: nat)
    requires Lexes(s, i, ts) && n <= |ts| && ArgsG(ts[..n], ws, rs) && |argv| + |ws| < MAXARGS
    requires ts[n..] == [] || Heads(ts[n..], STOPS)
    ensures Rest(s, i, argv, rs0) == Ok(Wrap(Exec(av), v), j) && Lexes(s, j, ts[n..])
    ensures Strs(s, av) == Strs(s, argv) + ws && ReadRedirs(s, v) == ReadRedirs(s, rs0) + rs
    decreases n
  {
    if n == 0 {
      assert ts[0..] == ts;
      j := RestStops(s, i, ts, argv, rs0);
      av, v := argv, rs0;
    } else if ts[0].W? {
      var sp, k := RestWord(s, i, ts, argv, rs0);
      TakeWord(ts, n, ws, rs);
      av, v, j := ArgsComplete(s, k, ts[1..], n - 1, argv + [sp], rs0, ws[1..], rs);
      StrsSnoc(s, argv, sp);
      Regroup(Strs(s, argv), ws);
    } else {
      TakeRedir(ts, n, ws, rs);
      var r, l := RestRedir(s, i, ts, argv, rs0);
      av, v, j := ArgsComplete(s, l, ts[2..], n - 2, argv, rs0 + [r], ws, rs[1..]);
      ReadSnoc(s, rs0, r);
      Regroup(ReadRedirs(s, rs0), rs);
    }
  }

  /** What is read was words and redirections. */
  lemma {:induction false} ArgsSound(s: string, i: nat, ts: seq<Lex>, argv: seq<Span>, rs0: Redirs<Span>)
    returns (n: nat, av: seq<Span>, v: Redirs<Span>, ws: seq<string>, rs: Redirs<string>)
    requires Lexes(s, i, ts) && Rest(s, i, argv, rs0).Ok? && |argv| < MAXARGS
    ensures n <= |ts| && ArgsG(ts[..n], ws, rs) && |argv| + |ws| < MAXARGS
    ensures var r := Rest(s, i, argv, rs0); r.v == Wrap(Exec(av), v) && Lexes(s, r.i, ts[n..])
    ensures Strs(s, av) == Strs(s, argv) + ws && ReadRedirs(s, v) == ReadRedirs(s, rs0) + rs
    decreases |ts|
  {
    if ts == [] || Heads(ts, STOPS) {
      var j := RestStops(s, i, ts, argv, rs0);
      n, av, v, ws, rs := 0, argv, rs0, [], [];
      assert ts[0..] == ts;
    } else if ts[0].W? {
      var sp, k := RestWord(s, i, ts, argv, rs0);
      n, av, v, ws, rs := ArgsSound(s, k, ts[1..], argv + [sp], rs0);
      StrsSnoc(s, argv, sp);
      PutWord(ts, n, ws, rs);
      n, ws := n + 1, [ts[0].w] + ws;
      Regroup(Strs(s, argv), ws);
    } else if Heads(ts, REDIRS) {
      var r, l := RestRedir(s, i, ts, argv, rs0);
      n, av, v, ws, rs := ArgsSound(s, l, ts[2..], argv, rs0 + [r]);
      ReadSnoc(s, rs0, r);
      PutRedir(ts, n, ws, rs);
      n, rs := n + 2, [(ts[1].w, ModeOf(ts[0]))] + rs;
      Regroup(ReadRedirs(s, rs0), rs);
    } else {
      RestPanics(s, i, ts, argv, rs0);
    }
  }

  lemma PutWord(ts: seq<Lex>, n: nat, ws: seq<string>, rs: Redirs<string>)
    requires ts != [] && ts[0].W? && n <= |ts| - 1 && ArgsG(ts[1..][..n], ws, rs)
    ensures ArgsG(ts[..n + 1], [ts[0].w] + ws, rs) && ts[1..][n..] == ts[n + 1..]
  {
    assert ts[..n + 1][1..] == ts[1..][..n] && ([ts[0].w] + ws)[1..] == ws;
  }

  lemma PutRedir(ts: seq<Lex>, n: nat, ws: seq<string>, rs: Redirs<string>)
    requires |ts| > 1 && RedirOp(ts[0]) && ts[1].W? && n <= |ts| - 2 && ArgsG(ts[2..][..n], ws, rs)
    ensures ArgsG(ts[..n + 2], ws, [(ts[1].w, ModeOf(ts[0]))] + rs) && ts[2..][n..] == ts[n + 2..]
  {
    assert ts[..n + 2][2..] == ts[2..][..n] && ([(ts[1].w, ModeOf(ts[0]))] + rs)[1..] == rs;
  }

  lemma NoWord(ts: seq<Lex>, n: nat, rs: Redirs<string>)
    requires 0 < n <= |ts| && ArgsG(ts[..n], [], rs)
    ensures !ts[0].W?
  {
  }

  lemma {:induction false} RedirsComplete(s: string, i: nat, ts: seq<Lex>, n: nat, rs: Redirs<string>) returns (v: Redirs<Span>, j: nat)
    requires Lexes(s, i, ts) && n <= |ts| && ArgsG(ts[..n], [], rs) && !Heads(ts[n..], REDIRS)
    ensures ParseRedirs(s, i) == Ok(v, j) && Lexes(s, j, ts[n..]) && ReadRedirs(s, v) == rs
    decreases n
  {
    if n == 0 {
      assert ts[0..] == ts;
      NoRedir(s, i, ts);
      v, j := [], SkipWs(s, i);
      assert ReadRedirs(s, v) == [];
    } else {
      NoWord(ts, n, rs);
      TakeRedir(ts, n, [], rs);
      var sp, l := OneRedir(s, i, ts);
      var more;
      more, j := RedirsComplete(s, l, ts[2..], n - 2, rs[1..]);
      v := [(sp, ModeOf(ts[0]))] + more;
      ReadRedirsCons(s, sp, ModeOf(ts[0]), more);
      assert [rs[0]] + rs[1..] == rs;
    }
  }

  lemma {:induction false} RedirsSound(s: string, i: nat, ts: seq<Lex>) returns (n: nat, rs: Redirs<string>)
    requires Lexes(s, i, ts) && ParseRedirs(s, i).Ok?
    ensures n <= |ts| && ArgsG(ts[..n], [], rs)
    ensures var r := ParseRedirs(s, i); ReadRedirs(s, r.v) == rs && Lexes(s, r.i, ts[n..])
    decreases |ts|
  {
    if Heads(ts, REDIRS) {
      var sp, l := OneRedir(s, i, ts);
      n, rs := RedirsSound(s, l, ts[2..]);
      ReadRedirsCons(s, sp, ModeOf(ts[0]), ParseRedirs(s, l).v);
      PutRedir(ts, n, [], rs);
      n, rs := n + 2, [(ts[1].w, ModeOf(ts[0]))] + rs;
    } else {
      NoRedir(s, i, ts);
      n, rs := 0, [];
      assert ts[0..] == ts && ReadRedirs(s, []) == [];
    }
  }

  // ---- Every line of the language is parsed ----------------------------------------------------------------

  const PIPE_STOPS: set<char> := {')', '&', ';'}

  /** No tokens are left, or the first of them starts with one of these symbols. */
  predicate Ends(ts: seq<Lex>, toks: set<char>) {
    ts == [] || Heads(ts, toks)
  }

  /** Parsing gives t, and the tokens ts come next. */
  ghost predicate Gives(s: string, r: Result<Cmd<Span>>, t: Cmd<string>, ts: seq<Lex>) {
    r.Ok? && Read(s, r.v) == t && Lexes(s, r.i, ts)
  }

  lemma OpAt(s: string, i: nat, ts: seq<Lex>, op: char) returns (l: nat)
    requires Lexes(s, i, ts) && Heads(ts, {op}) && op in SYMBOLS && op != '>'
    ensures Peek(s, i, {op}) && l == GetToken(s, i).2 && i < l <= |s| && Lexes(s, l, ts[1..]) && ts[0] == Op(op)
  {
    Peeks(s, i, ts, {op});
    Head(s, i, ts);
    l := GetToken(s, i).2;
  }

  /** A part of a prefix of ts is a prefix of what is left of ts. */
  lemma Parts<T>(ts: seq<T>, k: nat, n: nat)
    requires k <= n <= |ts|
    ensures ts[..n][..k] == ts[..k] && ts[..n][k..] == ts[k..][..n - k] && ts[k..][n - k..] == ts[n..]
    ensures k < n ==> ts[k..][1..] == ts[k + 1..] && ts[k..][0] == ts[k]
  {
  }

  lemma SimpleComplete(s: string, i: nat, ts: seq<Lex>, n: nat, t: Cmd<string>)
    requires Lexes(s, i, ts) && n <= |ts| && SimpleG(ts[..n], t) && Ends(ts[n..], STOPS)
    ensures Gives(s, ParseExec(s, i), t, ts[n..])
  {
    var ws, rs :| ArgsG(ts[..n], ws, rs) && |ws| < MAXARGS && t == Wrap(Exec(ws), rs);
    if n == 0 { assert ts[0..] == ts; }
    assert !Heads(ts, {'('});
    Peeks(s, i, ts, {'('});
    RestIsExec(s, i);
    var av, v, j := ArgsComplete(s, i, ts, n, [], [], ws, rs);
    ReadWrap(s, Exec(av), v);
    Nothing(s, ws, rs);
  }

  lemma RestIsExec(s: string, i: nat)
    requires i <= |s| && !Peek(s, i, {'('})
    ensures ParseExec(s, i) == Rest(s, i, [], [])
  {
    var r := ParseRedirs(s, i);
    if r.Ok? { assert [] + r.v == r.v; }
  }

  lemma Nothing(s: string, ws: seq<string>, rs: Redirs<string>)
    ensures Strs(s, []) + ws == ws && ReadRedirs(s, []) + rs == rs
  {
  }

  lemma {:induction false} BlockComplete(s: string, i: nat, ts: seq<Lex>, n: nat, k: nat, c: Cmd<string>, rs: Redirs<string>)
    requires Lexes(s, i, ts) && n <= |ts| && BlockG(ts[..n], k, c, rs) && Ends(ts[n..], STOPS)
    ensures Gives(s, ParseExec(s, i), Wrap(c, rs), ts[n..])
    decreases n, 0
  {
    TakeBlock(ts, n, k, c, rs);
    var l := OpAt(s, i, ts, '(');
    LineComplete(s, l, ts[1..], k - 1, c);
    var r := ParseLine(s, l);
    var l2 := OpAt(s, r.i, ts[k..], ')');
    var v, j := RedirsComplete(s, l2, ts[k + 1..], n - k - 1, rs);
    BlockParsed(s, i, l, r.v, r.i, l2, v, j);
    ReadWrap(s, r.v, v);
  }

  lemma TakeBlock(ts: seq<Lex>, n: nat, k: nat, c: Cmd<string>, rs: Redirs<string>)
    requires n <= |ts| && BlockG(ts[..n], k, c, rs)
    ensures 0 < k < n && Heads(ts, {'('}) && LineG(ts[1..][..k - 1], c) && ts[1..][k - 1..] == ts[k..]
    ensures Heads(ts[k..], {')'}) && ts[k..][1..] == ts[k + 1..]
    ensures ArgsG(ts[k + 1..][..n - k - 1], [], rs) && ts[k + 1..][n - k - 1..] == ts[n..]
  {
    assert ts[..n][1..k] == ts[1..][..k - 1];
    assert ts[..n][k + 1..] == ts[k + 1..][..n - k - 1];
  }

  lemma BlockParsed(s: string, i: nat, l: nat, c: Cmd<Span>, k: nat, l2: nat, v: Redirs<Span>, j: nat)
    requires i <= |s| && Peek(s, i, {'('}) && l == GetToken(s, i).2 && ParseLine(s, l) == Ok(c, k)
    requires Peek(s, k, {')'}) && l2 == GetToken(s, k).2 && ParseRedirs(s, l2) == Ok(v, j)
    ensures ParseExec(s, i) == Ok(Wrap(c, v), j)
  {
  }

  lemma {:induction false} ExecComplete(s: string, i: nat, ts: seq<Lex>, n: nat, t: Cmd<string>)
    requires Lexes(s, i, ts) && n <= |ts| && ExecG(ts[..n], t) && Ends(ts[n..], STOPS)
    ensures Gives(s, ParseExec(s, i), t, ts[n..])
    decreases n, 1
  {
    if SimpleG(ts[..n], t) {
      SimpleComplete(s, i, ts, n, t);
    } else {
      var k: nat, c, rs :| BlockG(ts[..n], k, c, rs) && t == Wrap(c, rs);
      BlockComplete(s, i, ts, n, k, c, rs);
    }
  }

  lemma {:induction false} PipeComplete(s: string, i: nat, ts: seq<Lex>, n: nat, t: Cmd<string>)
    requires Lexes(s, i, ts) && n <= |ts| && PipeG(ts[..n], t) && Ends(ts[n..], PIPE_STOPS)
    ensures Gives(s, ParsePipe(s, i), t, ts[n..])
    decreases n, 2
  {
    if ExecG(ts[..n], t) {
      ExecComplete(s, i, ts, n, t);
      var j := ParseExec(s, i).i;
      Peeks(s, j, ts[n..], {'|'});
      LexesSkip(s, j, ts[n..]);
    } else {
      var k := TakePipe(ts, n, t);
      ExecComplete(s, i, ts, k, t.left);
      var l := OpAt(s, ParseExec(s, i).i, ts[k..], '|');
      PipeComplete(s, l, ts[k + 1..], n - k - 1, t.right);
    }
  }

  lemma TakePipe(ts: seq<Lex>, n: nat, t: Cmd<string>) returns (k: nat)
    requires n <= |ts| && PipeG(ts[..n], t) && !ExecG(ts[..n], t)
    ensures k < n && t.Pipe? && Heads(ts[k..], {'|'}) && ExecG(ts[..k], t.left) && ts[k..][1..] == ts[k + 1..]
    ensures PipeG(ts[k + 1..][..n - k - 1], t.right) && ts[k + 1..][n - k - 1..] == ts[n..]
  {
    k :| SplitAt(ts[..n], k, '|') && ExecG(ts[..n][..k], t.left) && PipeG(ts[..n][k + 1..], t.right);
    Parts(ts, k, n);
    Parts(ts, k + 1, n);
  }

  /** parsepipe and then as many & as t has at its end; more may follow. */
  lemma {:induction false} BackComplete(s: string, i: nat, ts: seq<Lex>, n: nat, t: Cmd<string>) returns (j: nat, d: Cmd<Span>)
    requires Lexes(s, i, ts) && n <= |ts| && BackG(ts[..n], t) && Ends(ts[n..], PIPE_STOPS)
    ensures var r := ParsePipe(s, i);
      r.Ok? && j <= |s| && ParseBacks(s, r.i, r.v) == ParseBacks(s, j, d) && Read(s, d) == t && Lexes(s, j, ts[n..])
    decreases n, 3
  {
    if PipeG(ts[..n], t) {
      PipeComplete(s, i, ts, n, t);
      j, d := ParsePipe(s, i).i, ParsePipe(s, i).v;
    } else {
      Parts(ts, n - 1, n);
      j, d := BackComplete(s, i, ts, n - 1, t.cmd);
      var l := OpAt(s, j, ts[n - 1..], '&');
      j, d := l, Back(d);
    }
  }

  lemma {:induction false} LineComplete(s: string, i: nat, ts: seq<Lex>, n: nat, t: Cmd<string>)
    requires Lexes(s, i, ts) && n <= |ts| && LineG(ts[..n], t) && Ends(ts[n..], {')'})
    ensures Gives(s, ParseLine(s, i), t, ts[n..])
    decreases n, 4
  {
    if BackG(ts[..n], t) {
      var j, d := BackComplete(s, i, ts, n, t);
      BacksEnd(s, j, d, ts[n..]);
      Peeks(s, SkipWs(s, j), ts[n..], {';'});
      LineParsed(s, i, j, d);
    } else {
      var k := TakeList(ts, n, t);
      var j, d := BackComplete(s, i, ts, k, t.left);
      BacksEnd(s, j, d, ts[k..]);
      var l := OpAt(s, SkipWs(s, j), ts[k..], ';');
      LineComplete(s, l, ts[k + 1..], n - k - 1, t.right);
      LineParsed(s, i, j, d);
    }
  }

  lemma TakeList(ts: seq<Lex>, n: nat, t: Cmd<string>) returns (k: nat)
    requires n <= |ts| && LineG(ts[..n], t) && !BackG(ts[..n], t)
    ensures k < n && t.List? && Heads(ts[k..], {';'}) && BackG(ts[..k], t.left) && ts[k..][1..] == ts[k + 1..]
    ensures LineG(ts[k + 1..][..n - k - 1], t.right) && ts[k + 1..][n - k - 1..] == ts[n..]
  {
    k :| SplitAt(ts[..n], k, ';') && BackG(ts[..n][..k], t.left) && LineG(ts[..n][k + 1..], t.right);
    Parts(ts, k, n);
    Parts(ts, k + 1, n);
  }

  lemma LineParsed(s: string, i: nat, j: nat, d: Cmd<Span>)
    requires i <= |s| && j <= |s| && ParsePipe(s, i).Ok?
    requires var r := ParsePipe(s, i); ParseBacks(s, r.i, r.v) == ParseBacks(s, j, d) == (d, SkipWs(s, j))
    ensures if !Peek(s, SkipWs(s, j), {';'}) then ParseLine(s, i) == Ok(d, SkipWs(s, j))
            else var e := ParseLine(s, GetToken(s, SkipWs(s, j)).2);
                 ParseLine(s, i) == if e.Panic? then Panic else Ok(List(d, e.v), e.i)
  {
  }

  lemma BacksEnd(s: string, j: nat, d: Cmd<Span>, ts: seq<Lex>)
    requires Lexes(s, j, ts) && !Heads(ts, {'&'})
    ensures ParseBacks(s, j, d) == (d, SkipWs(s, j)) && Lexes(s, SkipWs(s, j), ts)
  {
    Peeks(s, j, ts, {'&'});
    LexesSkip(s, j, ts);
  }

  // ---- Every line that is parsed is in the language ----------------------------------------------------------

  lemma {:induction false} ExecSound(s: string, i: nat, ts: seq<Lex>) returns (n: nat)
    requires Lexes(s, i, ts) && ParseExec(s, i).Ok?
    ensures n <= |ts| && var r := ParseExec(s, i); ExecG(ts[..n], Read(s, r.v)) && Lexes(s, r.i, ts[n..])
    decreases |ts|, 1
  {
    Peeks(s, i, ts, {'('});
    if Peek(s, i, {'('}) {
      n := BlockSound(s, i, ts);
    } else {
      RestIsExec(s, i);
      var av, v, ws, rs;
      n, av, v, ws, rs := ArgsSound(s, i, ts, [], []);
      ReadWrap(s, Exec(av), v);
      Nothing(s, ws, rs);
    }
  }

  lemma {:induction false} BlockSound(s: string, i: nat, ts: seq<Lex>) returns (n: nat)
    requires Lexes(s, i, ts) && Heads(ts, {'('}) && ParseExec(s, i).Ok?
    ensures n <= |ts| && var r := ParseExec(s, i); ExecG(ts[..n], Read(s, r.v)) && Lexes(s, r.i, ts[n..])
    decreases |ts|, 0
  {
    var l := OpAt(s, i, ts, '(');
    var c := ParseLine(s, l);
    var k := LineSound(s, l, ts[1..]);
    Dropped(ts, 1, k);
    Peeks(s, c.i, ts[k + 1..], {')'});
    var l2 := OpAt(s, c.i, ts[k + 1..], ')');
    Dropped(ts, k + 1, 1);
    var m := AfterBlock(s, i, ts, l, k, l2);
    n := k + 2 + m;
  }

  lemma Dropped<T>(ts: seq<T>, a: nat, b: nat)
    requires a + b <= |ts|
    ensures ts[a..][b..] == ts[a + b..] && (b > 0 ==> ts[a..][0] == ts[a])
  {
  }

  /** The redirections after a block. */
  lemma AfterBlock(s: string, i: nat, ts: seq<Lex>, l: nat, k: nat, l2: nat) returns (m: nat)
    requires i <= |s| && k + 1 < |ts| && ts[0] == Op('(') && ts[k + 1] == Op(')')
    requires Peek(s, i, {'('}) && l == GetToken(s, i).2 && ParseLine(s, l).Ok? && LineG(ts[1..][..k], Read(s, ParseLine(s, l).v))
    requires Peek(s, ParseLine(s, l).i, {')'}) && l2 == GetToken(s, ParseLine(s, l).i).2 && Lexes(s, l2, ts[k + 2..])
    requires ParseExec(s, i).Ok?
    ensures m <= |ts| - k - 2
    ensures var r := ParseExec(s, i); ExecG(ts[..k + 2 + m], Read(s, r.v)) && Lexes(s, r.i, ts[k + 2 + m..])
  {
    var c, v := ParseLine(s, l), ParseRedirs(s, l2);
    var rs;
    m, rs := RedirsSound(s, l2, ts[k + 2..]);
    BlockParsed(s, i, l, c.v, c.i, l2, v.v, v.i);
    ReadWrap(s, c.v, v.v);
    PutBlock(ts, k, m, Read(s, c.v), rs);
  }

  lemma PutBlock(ts: seq<Lex>, k: nat, m: nat, c: Cmd<string>, rs: Redirs<string>)
    requires k + 1 < |ts| && ts[0] == Op('(') && ts[k + 1] == Op(')') && m <= |ts| - k - 2
    requires LineG(ts[1..][..k], c) && ArgsG(ts[k + 2..][..m], [], rs)
    ensures ExecG(ts[..k + 2 + m], Wrap(c, rs)) && ts[k + 2..][m..] == ts[k + 2 + m..]
  {
    var ts' := ts[..k + 2 + m];
    assert ts'[1..k + 1] == ts[1..][..k] && ts'[k + 2..] == ts[k + 2..][..m];
    assert BlockG(ts', k + 1, c, rs);
  }

  lemma {:induction false} PipeSound(s: string, i: nat, ts: seq<Lex>) returns (n: nat)
    requires Lexes(s, i, ts) && ParsePipe(s, i).Ok?
    ensures n <= |ts| && var r := ParsePipe(s, i); PipeG(ts[..n], Read(s, r.v)) && Lexes(s, r.i, ts[n..])
    decreases |ts|, 2
  {
    var k := ExecSound(s, i, ts);
    var c := ParseExec(s, i);
    Peeks(s, c.i, ts[k..], {'|'});
    if Peek(s, c.i, {'|'}) {
      var l := OpAt(s, c.i, ts[k..], '|');
      var m := PipeSound(s, l, ts[k..][1..]);
      PutPipe(ts, k, m, Read(s, c.v), Read(s, ParsePipe(s, l).v));
      n := k + 1 + m;
    } else {
      n := k;
      LexesSkip(s, c.i, ts[k..]);
    }
  }

  lemma Around(ts: seq<Lex>, k: nat, m: nat)
    requires k < |ts| && m <= |ts| - k - 1
    ensures ts[k..][1..] == ts[k + 1..] && ts[k..][0] == ts[k] == ts[..k + 1 + m][k]
    ensures ts[..k + 1 + m][..k] == ts[..k] && ts[..k + 1 + m][k + 1..] == ts[k + 1..][..m] && ts[k + 1..][m..] == ts[k + 1 + m..]
  {
  }

  lemma PutPipe(ts: seq<Lex>, k: nat, m: nat, l: Cmd<string>, r: Cmd<string>)
    requires k < |ts| && m <= |ts| - k - 1 && ts[k..][0] == Op('|') && ExecG(ts[..k], l) && PipeG(ts[k..][1..][..m], r)
    ensures PipeG(ts[..k + 1 + m], Pipe(l, r)) && ts[k..][1..][m..] == ts[k + 1 + m..]
  {
    Around(ts, k, m);
    assert SplitAt(ts[..k + 1 + m], k, '|');
  }

  lemma PutList(ts: seq<Lex>, k: nat, m: nat, l: Cmd<string>, r: Cmd<string>)
    requires k < |ts| && m <= |ts| - k - 1 && ts[k..][0] == Op(';') && BackG(ts[..k], l) && LineG(ts[k..][1..][..m], r)
    ensures LineG(ts[..k + 1 + m], List(l, r)) && ts[k..][1..][m..] == ts[k + 1 + m..]
  {
    Around(ts, k, m);
    assert SplitAt(ts[..k + 1 + m], k, ';');
  }

  lemma PutBack(ts: seq<Lex>, k: nat, c: Cmd<string>)
    requires k < |ts| && ts[k..][0] == Op('&') && BackG(ts[..k], c)
    ensures BackG(ts[..k + 1], Back(c)) && ts[k..][1..] == ts[k + 1..]
  {
    Around(ts, k, 0);
    assert ts[..k + 1][..|ts[..k + 1]| - 1] == ts[..k];
  }

  lemma {:induction false} BacksSound(s: string, i: nat, c: Cmd<Span>, ts: seq<Lex>, k: nat) returns (n: nat)
    requires k <= |ts| && Lexes(s, i, ts[k..]) && BackG(ts[..k], Read(s, c))
    ensures n <= |ts| && var (d, j) := ParseBacks(s, i, c); BackG(ts[..n], Read(s, d)) && Lexes(s, j, ts[n..])
    decreases |ts| - k
  {
    Peeks(s, i, ts[k..], {'&'});
    if Peek(s, i, {'&'}) {
      var l := OpAt(s, i, ts[k..], '&');
      PutBack(ts, k, Read(s, c));
      n := BacksSound(s, l, Back(c), ts, k + 1);
    } else {
      n := k;
      LexesSkip(s, i, ts[k..]);
    }
  }

  lemma {:induction false} LineSound(s: string, i: nat, ts: seq<Lex>) returns (n: nat)
    requires Lexes(s, i, ts) && ParseLine(s, i).Ok?
    ensures n <= |ts| && var r := ParseLine(s, i); LineG(ts[..n], Read(s, r.v)) && Lexes(s, r.i, ts[n..])
    decreases |ts|, 3
  {
    var k := PipeSound(s, i, ts);
    var c := ParsePipe(s, i);
    k := BacksSound(s, c.i, c.v, ts, k);
    var (d, j) := ParseBacks(s, c.i, c.v);
    Peeks(s, j, ts[k..], {';'});
    if Peek(s, j, {';'}) {
      var l := OpAt(s, j, ts[k..], ';');
      var m := LineSound(s, l, ts[k..][1..]);
      PutList(ts, k, m, Read(s, d), Read(s, ParseLine(s, l).v));
      n := k + 1 + m;
    } else {
      n := k;
    }
  }

  /**
   The parser accepts exactly the language: a line is parsed to the command t if and only if it is a way to
   write t, and panics if it is a way to write none.
   */
  lemma ParsesIff(s: string, t: Cmd<string>)
    ensures Denotes(s, t) <==> ParseCmd(s).Ok? && Read(s, ParseCmd(s).v) == t
  {
    if Denotes(s, t) { DenotedParses(s, t); }
    if ParseCmd(s).Ok? { ParsedDenotes(s); }
  }

  lemma DenotedParses(s: string, t: Cmd<string>)
    requires Denotes(s, t)
    ensures ParseCmd(s).Ok? && Read(s, ParseCmd(s).v) == t
  {
    var ts :| Lexes(s, 0, ts) && LineG(ts, t);
    assert ts[..|ts|] == ts && ts[|ts|..] == [];
    LineComplete(s, 0, ts, |ts|, t);
    OnlyBlanks(s, ParseLine(s, 0).i);
    SkipIs(s, ParseLine(s, 0).i, |s|);
  }

  lemma ParsedDenotes(s: string)
    requires ParseCmd(s).Ok?
    ensures Denotes(s, Read(s, ParseCmd(s).v))
  {
    var ts := LexAll(s, 0);
    var n := LineSound(s, 0, ts);
    Head(s, ParseLine(s, 0).i, ts[n..]);
    assert ts[..n] == ts;
  }
}
