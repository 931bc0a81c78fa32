/**
 The shell's parser as it runs (sh.c): a cursor that every function advances, command nodes that
 are filled in after other nodes point to them, and the pass that cuts the line into C strings in
 place. Each method is proved against the grammar of ShellGrammar.
 */
module ShellParser {
  import opened ShellGrammar
  import ShellLanguage

  // ---- Words of an accepted line -------------------------------------------------------------

  /** A whole word: word characters from start to end, and none at end. */
  predicate WholeWord(s: string, w: Span) {
    && w.start < w.end <= |s|
    && (forall k :: w.start <= k < w.end ==> WordChar(s[k]))
    && (w.end < |s| ==> !WordChar(s[w.end]))
  }

  /** Every word of a command tree is a whole word of the line. */
  predicate WholeWords(s: string, t: Cmd<Span>) {
    match t
    case Exec(argv) => forall k :: 0 <= k < |argv| ==> WholeWord(s, argv[k])
    case Redir(c, f, _) => WholeWords(s, c) && WholeWord(s, f)
    case Pipe(l, r) => WholeWords(s, l) && WholeWords(s, r)
    case List(l, r) => WholeWords(s, l) && WholeWords(s, r)
    case Back(c) => WholeWords(s, c)
  }

  predicate WholeFiles(s: string, rs: Redirs<Span>) {
    forall k :: 0 <= k < |rs| ==> WholeWord(s, rs[k].0)
  }

  lemma {:induction false} WordEndStops(s: string, i: nat)
    requires i <= |s| && Clean(s)
    ensures var e := WordEnd(s, i); (e < |s| ==> !WordChar(s[e])) && forall k :: i <= k < e ==> WordChar(s[k])
    decreases |s| - i
  {
    if i < |s| && !IsWs(s[i]) && !IsSym(s[i]) { WordEndStops(s, i + 1); }
  }

  lemma TokenIsWholeWord(s: string, i: nat)
    requires i <= |s| && Clean(s) && GetToken(s, i).0 == Word
    ensures WholeWord(s, GetToken(s, i).1)
  {
    WordEndStops(s, SkipWs(s, i));
  }

  lemma {:induction false} WrapWholeWords(s: string, c: Cmd<Span>, rs: Redirs<Span>)
    requires WholeWords(s, c) && WholeFiles(s, rs)
    ensures WholeWords(s, Wrap(c, rs))
    decreases |rs|
  {
    if rs != [] { WrapWholeWords(s, Redir(c, rs[0].0, rs[0].1), rs[1..]); }
  }

  lemma {:induction false} RedirsWholeFiles(s: string, i: nat)
    requires i <= |s| && Clean(s) && ParseRedirs(s, i).Ok?
    ensures WholeFiles(s, ParseRedirs(s, i).v)
    decreases |s| - i
  {
    if Peek(s, i, {'<', '>'}) {
      var k := GetToken(s, i).2;
      TokenIsWholeWord(s, k);
      RedirsWholeFiles(s, GetToken(s, k).2);
    }
  }

  lemma {:induction false} ArgsWholeWords(s: string, i: nat, argv: seq<Span>, rs: Redirs<Span>)
    requires i <= |s| && Clean(s) && ParseArgs(s, i, argv, rs).Ok?
    requires WholeWords(s, Exec(argv)) && WholeFiles(s, rs)
    ensures WholeWords(s, ParseArgs(s, i, argv, rs).v)
    decreases |s| - i
  {
    var (tok, sp, k) := GetToken(s, i);
    if Peek(s, i, {'|', ')', '&', ';'}) || tok == Eof {
      WrapWholeWords(s, Exec(argv), rs);
    } else {
      TokenIsWholeWord(s, i);
      RedirsWholeFiles(s, k);
      var more := ParseRedirs(s, k);
      ArgsWholeWords(s, more.i, argv + [sp], rs + more.v);
    }
  }

  lemma {:induction false} ExecWholeWords(s: string, i: nat)
    requires i <= |s| && Clean(s) && ParseExec(s, i).Ok?
    ensures WholeWords(s, ParseExec(s, i).v)
    decreases |s| - i, 1
  {
    if Peek(s, i, {'('}) {
      BlockWholeWords(s, i);
    } else {
      RedirsWholeFiles(s, i);
      ArgsWholeWords(s, ParseRedirs(s, i).i, [], ParseRedirs(s, i).v);
    }
  }

  lemma {:induction false} BlockWholeWords(s: string, i: nat)
    requires i <= |s| && Clean(s) && Peek(s, i, {'('}) && ParseBlock(s, i).Ok?
    ensures WholeWords(s, ParseBlock(s, i).v)
    decreases |s| - i, 0
  {
    var j := GetToken(s, i).2;
    var c := ParseLine(s, j);
    LineWholeWords(s, j);
    var k := GetToken(s, c.i).2;
    RedirsWholeFiles(s, k);
    WrapWholeWords(s, c.v, ParseRedirs(s, k).v);
  }

  lemma {:induction false} PipeWholeWords(s: string, i: nat)
    requires i <= |s| && Clean(s) && ParsePipe(s, i).Ok?
    ensures WholeWords(s, ParsePipe(s, i).v)
    decreases |s| - i, 2
  {
    ExecWholeWords(s, i);
    var c := ParseExec(s, i);
    if Peek(s, c.i, {'|'}) { PipeWholeWords(s, GetToken(s, c.i).2); }
  }

  lemma {:induction false} BacksWholeWords(s: string, i: nat, c: Cmd<Span>)
    requires i <= |s| && WholeWords(s, c)
    ensures WholeWords(s, ParseBacks(s, i, c).0)
    decreases |s| - i
  {
    if Peek(s, i, {'&'}) { BacksWholeWords(s, GetToken(s, i).2, Back(c)); }
  }

  lemma {:induction false} LineWholeWords(s: string, i: nat)
    requires i <= |s| && Clean(s) && ParseLine(s, i).Ok?
    ensures WholeWords(s, ParseLine(s, i).v)
    decreases |s| - i, 3
  {
    PipeWholeWords(s, i);
    var c := ParsePipe(s, i);
    BacksWholeWords(s, c.i, c.v);
    var j := ParseBacks(s, c.i, c.v).1;
    if Peek(s, j, {';'}) { LineWholeWords(s, GetToken(s, j).2); }
  }

  // ---- C strings --------------------------------------------------------------------------------

  /** The C string at i. */
  function CString(a: seq<char>, i: nat): string
    decreases |a| - i
  {
    if i < |a| && a[i] != '\0' then [a[i]] + CString(a, i + 1) else ""
  }

  /** The tree with each word read as the C string at its start. */
  function ReadC(a: seq<char>, t: Cmd<Span>): Cmd<string> {
    match t
    case Exec(argv) => Exec(seq(|argv|, k requires 0 <= k < |argv| => CString(a, argv[k].start)))
    case Redir(c, f, m) => Redir(ReadC(a, c), CString(a, f.start), m)
    case Pipe(l, r) => Pipe(ReadC(a, l), ReadC(a, r))
    case List(l, r) => List(ReadC(a, l), ReadC(a, r))
    case Back(c) => Back(ReadC(a, c))
  }

  /** A word of t ends at k. */
  predicate EndsAt(t: Cmd<Span>, k: nat) {
    match t
    case Exec(argv) => exists n :: 0 <= n < |argv| && argv[n].end == k
    case Redir(c, f, _) => EndsAt(c, k) || f.end == k
    case Pipe(l, r) => EndsAt(l, k) || EndsAt(r, k)
    case List(l, r) => EndsAt(l, k) || EndsAt(r, k)
    case Back(c) => EndsAt(c, k)
  }

  /** The buffer a is the line s with NULs only where no word has a character, and at every end of t. */
  ghost predicate CutBy(a: seq<char>, s: string, t: Cmd<Span>) {
    && |s| < |a|
    && (forall k :: 0 <= k < |s| && WordChar(s[k]) ==> a[k] == s[k])
    && (forall k: nat :: k <= |s| && EndsAt(t, k) ==> a[k] == '\0')
  }

  lemma {:induction false} CStringIs(a: seq<char>, s: string, i: nat, e: nat)
    requires i <= e <= |s| < |a| && a[e] == '\0'
    requires forall k :: i <= k < e ==> WordChar(s[k]) && a[k] == s[k]
    ensures CString(a, i) == s[i..e]
    decreases e - i
  {
    if i < e {
      CStringIs(a, s, i + 1, e);
      assert s[i..e] == [s[i]] + s[i + 1..e];
    }
  }

  lemma WordReads(a: seq<char>, s: string, w: Span)
    requires WholeWord(s, w) && |s| < |a| && a[w.end] == '\0'
    requires forall k :: 0 <= k < |s| && WordChar(s[k]) ==> a[k] == s[k]
    ensures CString(a, w.start) == Str(s, w)
  {
    CStringIs(a, s, w.start, w.end);
  }

  /** Reading the words of the cut line as C strings gives the words the parser marked. */
  lemma {:induction false} CutReads(a: seq<char>, s: string, t: Cmd<Span>)
    requires WholeWords(s, t) && CutBy(a, s, t)
    ensures ReadC(a, t) == Read(s, t)
    decreases t
  {
    match t
    case Exec(argv) =>
      forall k | 0 <= k < |argv| ensures CString(a, argv[k].start) == Str(s, argv[k]) {
        assert EndsAt(t, argv[k].end);
        WordReads(a, s, argv[k]);
      }
      assert ReadC(a, t).argv == Read(s, t).argv;
    case Redir(c, f, _) =>
      CutReads(a, s, c);
      assert EndsAt(t, f.end);
      WordReads(a, s, f);
    case Pipe(l, r) => CutReads(a, s, l); CutReads(a, s, r);
    case List(l, r) => CutReads(a, s, l); CutReads(a, s, r);
    case Back(c) => CutReads(a, s, c);
  }

  /** Where a word of an accepted tree ends the line has no word character. */
  lemma {:induction false} EndsBetweenWords(s: string, t: Cmd<Span>, k: nat)
    requires WholeWords(s, t) && EndsAt(t, k)
    ensures k <= |s| && (k < |s| ==> !WordChar(s[k]))
    decreases t
  {
    match t
    case Exec(argv) =>
      var n :| 0 <= n < |argv| && argv[n].end == k;
      assert WholeWord(s, argv[n]);
    case Redir(c, f, _) => if EndsAt(c, k) { EndsBetweenWords(s, c, k); }
    case Pipe(l, r) => if EndsAt(l, k) { EndsBetweenWords(s, l, k); } else { EndsBetweenWords(s, r, k); }
    case List(l, r) => if EndsAt(l, k) { EndsBetweenWords(s, l, k); } else { EndsBetweenWords(s, r, k); }
    case Back(c) => EndsBetweenWords(s, c, k);
  }

  // ---- Command nodes -----------------------------------------------------------------------------

  /** An allocated struct cmd; other nodes are named by their place in the order of allocation. */
  datatype Node =
    | ExecNode(argv: seq<Span>)
    | RedirNode(cmd: nat, file: Span, mode: Mode)
    | PipeNode(left: nat, right: nat)
    | ListNode(left: nat, right: nat)
    | BackNode(cmd: nat)

  predicate Below(n: Node, p: nat) {
    match n
    case ExecNode(_) => true
    case RedirNode(c, _, _) => c < p
    case PipeNode(l, r) => l < p && r < p
    case ListNode(l, r) => l < p && r < p
    case BackNode(c) => c < p
  }

  /** A node points only to nodes allocated before it. */
  predicate Rooted(nodes: seq<Node>) {
    forall p :: 0 <= p < |nodes| ==> Below(nodes[p], p)
  }

  function Tree(nodes: seq<Node>, p: nat): Cmd<Span>
    requires Rooted(nodes) && p < |nodes|
    decreases p
  {
    match nodes[p]
    case ExecNode(argv) => Exec(argv)
    case RedirNode(c, f, m) => Redir(Tree(nodes, c), f, m)
    case PipeNode(l, r) => Pipe(Tree(nodes, l), Tree(nodes, r))
    case ListNode(l, r) => List(Tree(nodes, l), Tree(nodes, r))
    case BackNode(c) => Back(Tree(nodes, c))
  }

  /** The nodes of a are there unchanged in b. */
  predicate Keeps(a: seq<Node>, b: seq<Node>) {
    |a| <= |b| && forall q :: 0 <= q < |a| ==> b[q] == a[q]
  }

  /** The nodes below n are the same in a and b. */
  predicate KeepsTo(n: nat, a: seq<Node>, b: seq<Node>) {
    n <= |a| && n <= |b| && forall q :: 0 <= q < n ==> b[q] == a[q]
  }

  lemma {:induction false} TreeSame(a: seq<Node>, b: seq<Node>, p: nat)
    requires Rooted(a) && Rooted(b) && p < |a| && p < |b| && forall q :: 0 <= q <= p ==> b[q] == a[q]
    ensures Tree(b, p) == Tree(a, p)
    decreases p
  {
    match a[p]
    case ExecNode(_) =>
    case RedirNode(c, _, _) => TreeSame(a, b, c);
    case PipeNode(l, r) => TreeSame(a, b, l); TreeSame(a, b, r);
    case ListNode(l, r) => TreeSame(a, b, l); TreeSame(a, b, r);
    case BackNode(c) => TreeSame(a, b, c);
  }

  /** From p down to the exec node n there are exactly the redirections rs, the last one outermost. */
  predicate Chain(nodes: seq<Node>, p: nat, n: nat, rs: Redirs<Span>)
    decreases |rs|
  {
    if rs == [] then p == n
    else
      var (f, m) := rs[|rs| - 1];
      n < p < |nodes| && nodes[p].RedirNode? && nodes[p].file == f && nodes[p].mode == m
      && n <= nodes[p].cmd < p && Chain(nodes, nodes[p].cmd, n, rs[..|rs| - 1])
  }

  lemma {:induction false} ChainTree(nodes: seq<Node>, p: nat, n: nat, rs: Redirs<Span>)
    requires Rooted(nodes) && n < |nodes| && Chain(nodes, p, n, rs)
    ensures p < |nodes| && Tree(nodes, p) == Wrap(Tree(nodes, n), rs)
    decreases |rs|
  {
    if rs != [] {
      var front, last := rs[..|rs| - 1], rs[|rs| - 1];
      ChainTree(nodes, nodes[p].cmd, n, front);
      WrapSnoc(Tree(nodes, n), front, last);
      assert front + [last] == rs;
    }
  }

  /** Changing the node n, or adding nodes, keeps a chain above n. */
  lemma {:induction false} ChainSame(a: seq<Node>, b: seq<Node>, p: nat, n: nat, rs: Redirs<Span>)
    requires Chain(a, p, n, rs) && |a| <= |b| && forall q :: n < q < |a| ==> b[q] == a[q]
    ensures Chain(b, p, n, rs)
    decreases |rs|
  {
    if rs != [] { ChainSame(a, b, a[p].cmd, n, rs[..|rs| - 1]); }
  }

  lemma {:induction false} ChainJoin(nodes: seq<Node>, p: nat, m: nat, n: nat, xs: Redirs<Span>, ys: Redirs<Span>)
    requires Chain(nodes, m, n, xs) && Chain(nodes, p, m, ys) && n <= m
    ensures Chain(nodes, p, n, xs + ys)
    decreases |ys|
  {
    if ys == [] {
      assert xs + ys == xs;
    } else {
      ChainJoin(nodes, nodes[p].cmd, m, n, xs, ys[..|ys| - 1]);
      assert (xs + ys)[..|xs + ys| - 1] == xs + ys[..|ys| - 1];
    }
  }

  // ---- Skipping blanks twice -----------------------------------------------------------------------

  lemma SkipTwice(s: string, i: nat)
    requires i <= |s|
    ensures var j := SkipWs(s, i); SkipWs(s, j) == j && GetToken(s, j) == GetToken(s, i)
    ensures forall toks :: Peek(s, SkipWs(s, i), toks) == Peek(s, i, toks)
  {
  }

  lemma SkipRedirs(s: string, i: nat)
    requires i <= |s|
    ensures ParseRedirs(s, SkipWs(s, i)) == ParseRedirs(s, i)
  {
    SkipTwice(s, i);
  }

  /** The redirections rs and then those of r. */
  function After(rs: Redirs<Span>, r: Result<Redirs<Span>>): Result<Redirs<Span>> {
    if r.Ok? then Ok(rs + r.v, r.i) else Panic
  }

  lemma SkipArgs(s: string, i: nat, argv: seq<Span>, rs: Redirs<Span>)
    requires i <= |s|
    ensures ParseArgs(s, SkipWs(s, i), argv, rs) == ParseArgs(s, i, argv, rs)
  {
    SkipTwice(s, i);
  }

  lemma SkipBacks(s: string, i: nat, c: Cmd<Span>)
    requires i <= |s|
    ensures ParseBacks(s, SkipWs(s, i), c) == ParseBacks(s, i, c)
  {
    SkipTwice(s, i);
  }

  lemma OneMore(s: string, i: nat, rs: Redirs<Span>, l: nat)
    requires i <= |s| && Peek(s, i, {'<', '>'})
    requires var (w, _, e) := GetToken(s, GetToken(s, i).2); w == Word && e == l
    ensures var r := (GetToken(s, GetToken(s, i).2).1, if GetToken(s, i).0 == Sym('<') then In else Out);
      After(rs, ParseRedirs(s, i)) == After(rs + [r], ParseRedirs(s, l))
  {
    var r := (GetToken(s, GetToken(s, i).2).1, if GetToken(s, i).0 == Sym('<') then In else Out);
    var rest := ParseRedirs(s, l);
    if rest.Ok? { assert (rs + [r]) + rest.v == rs + ([r] + rest.v); }
  }

  /** The parser's state during parsecmd: the line, its end es, the cursor *ps, and the nodes allocated. */
  class Parser {
    const line: array<char>
    const es: nat
    var ps: nat
    var nodes: seq<Node>

    ghost predicate Valid()
      reads this
    {
      es < line.Length && ps <= es && Rooted(nodes)
    }

    /** The text of the line. */
    ghost function S(): (s: string)
      requires es < line.Length
      reads line
      ensures |s| == es
    {
      line[..es]
    }

    constructor (buf: array<char>, n: nat)
      requires n < buf.Length
      ensures Valid() && line == buf && es == n && ps == 0 && nodes == []
    {
      line, es, ps, nodes := buf, n, 0, [];
    }

    /** This outcome of a parse function is the grammar's. */
    ghost predicate Answers(r: Result<Cmd<Span>>, ok: bool, p: nat)
      requires Valid()
      reads this
    {
      ok == r.Ok? && (ok ==> ps == r.i && p < |nodes| && Tree(nodes, p) == r.v)
    }

    method SkipBlanks(from: nat) returns (j: nat)
      requires Valid() && from <= es
      ensures j == SkipWs(S(), from)
    {
      j := from;
      while j < es && IsWs(line[j])
        invariant from <= j <= es && SkipWs(S(), j) == SkipWs(S(), from)
      {
        j := j + 1;
      }
    }

    /** gettoken */
    method Gettoken() returns (tok: Token, w: Span)
      requires Valid()
      modifies `ps
      ensures Valid() && (tok, w, ps) == GetToken(S(), old(ps))
    {
      var q := SkipBlanks(ps);
      var j := q;
      if q == es {
        tok := Eof;
      } else if line[q] == '>' && q + 1 < es && line[q + 1] == '>' {
        tok, j := Append, q + 2;
      } else if IsSym(line[q]) {
        tok, j := Sym(line[q]), q + 1;
      } else {
        tok := Word;
        while j < es && !IsWs(line[j]) && !IsSym(line[j])
          invariant q <= j <= es && WordEnd(S(), j) == WordEnd(S(), q)
        {
          j := j + 1;
        }
      }
      w := Span(q, j);
      ps := SkipBlanks(j);
    }

    /** peek, which leaves the cursor after the blanks. */
    method LookFor(toks: set<char>) returns (b: bool)
      requires Valid()
      modifies `ps
      ensures Valid() && ps == SkipWs(S(), old(ps)) && b == Peek(S(), old(ps), toks)
    {
      ps := SkipBlanks(ps);
      b := ps < es && line[ps] in toks;
    }

    /** malloc of a command node. */
    method NewNode(n: Node) returns (p: nat)
      requires Valid() && Below(n, |nodes|)
      modifies `nodes
      ensures Valid() && nodes == old(nodes) + [n] && p == |old(nodes)|
    {
      p := |nodes|;
      nodes := nodes + [n];
    }

    /** parseredirs: wraps the node cmd in the redirections at the cursor. */
    method Parseredirs(cmd: nat) returns (ok: bool, p: nat, ghost rs: Redirs<Span>)
      requires Valid() && cmd < |nodes|
      modifies `ps, `nodes
      ensures Valid() && Keeps(old(nodes), nodes) && old(ps) <= ps
      ensures ok == ParseRedirs(S(), old(ps)).Ok?
      ensures ok ==> ParseRedirs(S(), old(ps)) == Ok(rs, ps) && cmd <= p < |nodes| && Chain(nodes, p, cmd, rs)
    {
      p, rs := cmd, [];
      assert forall v: Redirs<Span> :: [] + v == v;
      SkipTwice(S(), ps);
      SkipRedirs(S(), ps);
      var more := LookFor({'<', '>'});
      while more
        invariant Valid() && Keeps(old(nodes), nodes) && old(ps) <= ps
        invariant more == Peek(S(), ps, {'<', '>'}) && ps == SkipWs(S(), ps)
        invariant After(rs, ParseRedirs(S(), ps)) == ParseRedirs(S(), old(ps))
        invariant cmd <= p < |nodes| && Chain(nodes, p, cmd, rs)
        decreases es - ps
      {
        ghost var at, before := ps, rs;
        var tok, _ := Gettoken();
        var w, file := Gettoken();
        if w != Word { return false, p, rs; }
        var mode := if tok == Sym('<') then In else Out;
        p := WrapIn(cmd, p, rs, file, mode);
        rs := rs + [(file, mode)];
        OneMore(S(), at, before, ps);
        SkipTwice(S(), ps);
        SkipRedirs(S(), ps);
        more := LookFor({'<', '>'});
      }
      ok := true;
      assert rs + [] == rs;
    }

    /** redircmd, around the end of a chain. */
    method WrapIn(cmd: nat, c: nat, ghost rs: Redirs<Span>, file: Span, mode: Mode) returns (p: nat)
      requires Valid() && cmd <= c < |nodes| && Chain(nodes, c, cmd, rs)
      modifies `nodes
      ensures Valid() && Keeps(old(nodes), nodes) && cmd <= p < |nodes| && Chain(nodes, p, cmd, rs + [(file, mode)])
    {
      p := NewNode(RedirNode(c, file, mode));
      ChainSame(old(nodes), nodes, c, cmd, rs);
      assert (rs + [(file, mode)])[..|rs|] == rs;
    }

    /** parseexec */
    method Parseexec() returns (ok: bool, p: nat)
      requires Valid()
      modifies `ps, `nodes
      ensures Valid() && Keeps(old(nodes), nodes)
      ensures Answers(ParseExec(S(), old(ps)), ok, p)
      decreases es - ps, 1
    {
      SkipTwice(S(), ps);
      var block := LookFor({'('});
      if block {
        ok, p := Parseblock();
        return;
      }
      ghost var start := ps;
      var n := NewNode(ExecNode([]));
      ghost var rs;
      ok, p, rs := Parseredirs(n);
      SkipRedirs(S(), old(ps));
      if ok {
        assert ParseExec(S(), old(ps)) == ParseArgs(S(), ps, [], rs);
        ok, p := ParseWords(n, p, rs);
      }
    }

    /** argv[argc] = q, in the exec node n that the chain from p already leads to. */
    method AddWord(n: nat, p: nat, ghost rs: Redirs<Span>, w: Span)
      requires Valid() && n < |nodes| && nodes[n].ExecNode? && Chain(nodes, p, n, rs)
      modifies `nodes
      ensures Valid() && nodes == old(nodes)[n := ExecNode(old(nodes[n].argv) + [w])] && Chain(nodes, p, n, rs)
    {
      nodes := nodes[n := ExecNode(nodes[n].argv + [w])];
      ChainSame(old(nodes), nodes, p, n, rs);
    }

    /** parseexec's step on the word w: record it, and wrap the redirections that follow. */
    method TakeWord(n: nat, ret: nat, ghost argv: seq<Span>, ghost rs: Redirs<Span>, w: Span)
      returns (ok: bool, p: nat, ghost more: Redirs<Span>)
      requires Valid() && n <= ret < |nodes| && nodes[n] == ExecNode(argv) && Chain(nodes, ret, n, rs)
      modifies `ps, `nodes
      ensures Valid() && KeepsTo(n, old(nodes), nodes) && old(ps) <= ps
      ensures ok == (|argv| + 1 < MAXARGS && ParseRedirs(S(), old(ps)).Ok?)
      ensures ok ==> ParseRedirs(S(), old(ps)) == Ok(more, ps)
      ensures ok ==> n <= p < |nodes| && nodes[n] == ExecNode(argv + [w]) && Chain(nodes, p, n, rs + more)
    {
      AddWord(n, ret, rs, w);
      if |nodes[n].argv| >= MAXARGS { return false, ret, []; }
      ghost var added := nodes;
      ok, p, more := Parseredirs(ret);
      if ok {
        ChainSame(added, nodes, ret, n, rs);
        ChainJoin(nodes, p, ret, n, rs, more);
      }
    }

    /** One turn of parseexec's loop, at a token that does not end the command; done when it ends anyway. */
    method OneWord(n: nat, ret: nat, ghost argv: seq<Span>, ghost rs: Redirs<Span>)
      returns (done: bool, ok: bool, p: nat, ghost argv': seq<Span>, ghost rs': Redirs<Span>)
      requires Valid() && n <= ret < |nodes| && nodes[n] == ExecNode(argv) && Chain(nodes, ret, n, rs)
      requires !Peek(S(), ps, {'|', ')', '&', ';'})
      modifies `ps, `nodes
      ensures Valid() && KeepsTo(n, old(nodes), nodes)
      ensures done ==> Answers(ParseArgs(S(), old(ps), argv, rs), ok, p)
      ensures !done ==> old(ps) < ps && ParseArgs(S(), ps, argv', rs') == ParseArgs(S(), old(ps), argv, rs)
      ensures !done ==> n <= p < |nodes| && nodes[n] == ExecNode(argv') && Chain(nodes, p, n, rs')
    {
      argv', rs' := argv, rs;
      var tok, w := Gettoken();
      if tok == Eof {
        ChainTree(nodes, ret, n, rs);
        return true, true, ret, argv, rs;
      }
      if tok != Word { return true, false, ret, argv, rs; }
      ghost var more;
      ok, p, more := TakeWord(n, ret, argv, rs, w);
      done, argv', rs' := !ok, argv + [w], rs + more;
    }

    /** The loop of parseexec. */
    method ParseWords(n: nat, ret: nat, ghost redirs: Redirs<Span>) returns (ok: bool, p: nat)
      requires Valid() && n <= ret < |nodes| && nodes[n] == ExecNode([]) && Chain(nodes, ret, n, redirs)
      modifies `ps, `nodes
      ensures Valid() && KeepsTo(n, old(nodes), nodes)
      ensures Answers(ParseArgs(S(), old(ps), [], redirs), ok, p)
    {
      p := ret;
      ghost var rs, argv := redirs, [];
      SkipTwice(S(), ps);
      SkipArgs(S(), ps, [], rs);
      var stop := LookFor({'|', ')', '&', ';'});
      while !stop
        invariant Valid() && KeepsTo(n, old(nodes), nodes) && ps == SkipWs(S(), ps)
        invariant stop == Peek(S(), ps, {'|', ')', '&', ';'})
        invariant n <= p < |nodes| && nodes[n] == ExecNode(argv) && Chain(nodes, p, n, rs)
        invariant ParseArgs(S(), ps, argv, rs) == ParseArgs(S(), old(ps), [], redirs)
        decreases es - ps
      {
        var done;
        done, ok, p, argv, rs := OneWord(n, p, argv, rs);
        if done { return; }
        SkipTwice(S(), ps);
        SkipArgs(S(), ps, argv, rs);
        stop := LookFor({'|', ')', '&', ';'});
      }
      ok := true;
      ChainTree(nodes, p, n, rs);
    }

    /** parseblock, at an opening parenthesis. */
    method Parseblock() returns (ok: bool, p: nat)
      requires Valid() && Peek(S(), ps, {'('})
      modifies `ps, `nodes
      ensures Valid() && Keeps(old(nodes), nodes)
      ensures Answers(ParseBlock(S(), old(ps)), ok, p)
      decreases es - ps, 0
    {
      var _, _ := Gettoken();
      ok, p := Parseline();
      if !ok { return; }
      SkipTwice(S(), ps);
      var closed := LookFor({')'});
      if !closed { return false, p; }
      var _, _ := Gettoken();
      ghost var c, inner, rs := p, nodes, [];
      ok, p, rs := Parseredirs(p);
      if ok {
        TreeSame(inner, nodes, c);
        ChainTree(nodes, p, c, rs);
      }
    }

    /** parsepipe */
    method Parsepipe() returns (ok: bool, p: nat)
      requires Valid()
      modifies `ps, `nodes
      ensures Valid() && Keeps(old(nodes), nodes)
      ensures Answers(ParsePipe(S(), old(ps)), ok, p)
      decreases es - ps, 2
    {
      ok, p := Parseexec();
      if !ok { return; }
      SkipTwice(S(), ps);
      var bar := LookFor({'|'});
      if bar {
        var _, _ := Gettoken();
        ghost var left := nodes;
        var right;
        ok, right := Parsepipe();
        if ok { p := Join(left, p, right, PipeNode(p, right)); }
      }
    }

    /** pipecmd or listcmd of the node l, from before the right side was parsed, and the node r. */
    method Join(ghost before: seq<Node>, l: nat, r: nat, n: Node) returns (p: nat)
      requires Valid() && Rooted(before) && l < |before| && Keeps(before, nodes) && r < |nodes|
      requires n == PipeNode(l, r) || n == ListNode(l, r)
      modifies `nodes
      ensures Valid() && Keeps(old(nodes), nodes) && p < |nodes|
      ensures n.PipeNode? ==> Tree(nodes, p) == Pipe(Tree(before, l), Tree(old(nodes), r))
      ensures n.ListNode? ==> Tree(nodes, p) == List(Tree(before, l), Tree(old(nodes), r))
    {
      p := NewNode(n);
      TreeSame(before, nodes, l);
      TreeSame(old(nodes), nodes, r);
    }

    /** The loop of parseline over trailing & signs. */
    method WrapBacks(c: nat) returns (p: nat)
      requires Valid() && c < |nodes|
      modifies `ps, `nodes
      ensures Valid() && Keeps(old(nodes), nodes) && p < |nodes|
      ensures (Tree(nodes, p), ps) == ParseBacks(S(), old(ps), Tree(old(nodes), c)) && ps == SkipWs(S(), ps)
    {
      p := c;
      SkipTwice(S(), ps);
      SkipBacks(S(), ps, Tree(nodes, c));
      var more := LookFor({'&'});
      while more
        invariant Valid() && Keeps(old(nodes), nodes) && p < |nodes|
        invariant ps == SkipWs(S(), ps) && more == Peek(S(), ps, {'&'})
        invariant ParseBacks(S(), ps, Tree(nodes, p)) == ParseBacks(S(), old(ps), Tree(old(nodes), c))
        decreases es - ps
      {
        ghost var before, q := nodes, p;
        var _, _ := Gettoken();
        p := NewNode(BackNode(p));
        TreeSame(before, nodes, q);
        SkipTwice(S(), ps);
        SkipBacks(S(), ps, Tree(nodes, p));
        more := LookFor({'&'});
      }
    }

    /** parseline */
    method Parseline() returns (ok: bool, p: nat)
      requires Valid()
      modifies `ps, `nodes
      ensures Valid() && Keeps(old(nodes), nodes)
      ensures Answers(ParseLine(S(), old(ps)), ok, p)
      decreases es - ps, 3
    {
      ok, p := Parsepipe();
      if !ok { return; }
      p := WrapBacks(p);
      SkipTwice(S(), ps);
      var semi := LookFor({';'});
      if semi {
        var _, _ := Gettoken();
        ghost var left := nodes;
        var right;
        ok, right := Parseline();
        if ok { p := Join(left, p, right, ListNode(p, right)); }
      }
    }

    /** nulterminate: writes a NUL at the end of every word below p, and changes nothing else. */
    method Nulterminate(p: nat, ghost s: string)
      requires Valid() && p < |nodes| && |s| == es && WholeWords(s, Tree(nodes, p))
      modifies line
      ensures forall k :: 0 <= k < line.Length ==> line[k] == if EndsAt(Tree(nodes, p), k) then '\0' else old(line[k])
      decreases p
    {
      match nodes[p]
      case ExecNode(argv) => CutArgs(argv, s);
      case RedirNode(c, f, _) =>
        Nulterminate(c, s);
        line[f.end] := '\0';
      case PipeNode(l, r) =>
        Nulterminate(l, s);
        Nulterminate(r, s);
      case ListNode(l, r) =>
        Nulterminate(l, s);
        Nulterminate(r, s);
      case BackNode(c) => Nulterminate(c, s);
    }

    method CutArgs(argv: seq<Span>, ghost s: string)
      requires Valid() && |s| == es && WholeWords(s, Exec(argv))
      modifies line
      ensures forall k :: 0 <= k < line.Length ==> line[k] == if EndsAt(Exec(argv), k) then '\0' else old(line[k])
    {
      var i := 0;
      while i < |argv|
        invariant 0 <= i <= |argv|
        invariant forall k :: 0 <= k < line.Length ==> line[k] == if EndsAt(Exec(argv[..i]), k) then '\0' else old(line[k])
      {
        assert WholeWord(s, argv[i]);
        line[argv[i].end] := '\0';
        forall k: nat ensures EndsAt(Exec(argv[..i + 1]), k) == (EndsAt(Exec(argv[..i]), k) || argv[i].end == k) {
          assert argv[..i + 1] == argv[..i] + [argv[i]];
          if argv[i].end == k { assert argv[..i + 1][i].end == k; }
          if EndsAt(Exec(argv[..i]), k) {
            var n :| 0 <= n < i && argv[..i][n].end == k;
            assert argv[..i + 1][n].end == k;
          }
        }
        i := i + 1;
      }
      assert argv[..|argv|] == argv;
    }

    /** parsecmd once es is known: parse the whole line, then cut it into C strings. */
    method ParseAll() returns (ok: bool, root: nat)
      requires Valid() && ps == 0 && nodes == [] && Clean(S()) && line[es] == '\0'
      modifies this`ps, this`nodes, line
      ensures Valid() && ok == ParseCmd(old(S())).Ok?
      ensures ok ==> root < |nodes| && Tree(nodes, root) == ParseCmd(old(S())).v
      ensures ok ==> ReadC(line[..], Tree(nodes, root)) == Read(old(S()), Tree(nodes, root))
      ensures forall k :: 0 <= k < line.Length ==>
        line[k] == if ok && EndsAt(Tree(nodes, root), k) then '\0' else old(line[k])
    {
      ok, root := Parseline();
      if !ok { return; }
      var _ := LookFor({});
      if ps != es { return false, root; }
      ghost var s, t := S(), Tree(nodes, root);
      LineWholeWords(s, 0);
      forall k: nat | EndsAt(t, k) ensures k <= es && (k < es ==> !WordChar(s[k])) { EndsBetweenWords(s, t, k); }
      Nulterminate(root, s);
      CutReads(line[..], s, t);
    }
  }

  lemma {:induction false} CStringEnd(a: seq<char>, i: nat, n: nat)
    requires i <= n < |a| && a[n] == '\0' && forall k :: i <= k < n ==> a[k] != '\0'
    ensures CString(a, i) == a[i..n]
    decreases n - i
  {
    if i < n {
      CStringEnd(a, i + 1, n);
      assert a[i..n] == [a[i]] + a[i + 1..n];
    }
  }

  /**
   parsecmd: the line in buf, up to its NUL, is parsed and cut in place. Read as C strings out of the
   cut buffer, the tree is the one command that the line is a way to write; a line that writes no command
   is a panic. In particular a line that prints a command tree gives that tree back.
   */
  method Parsecmd(buf: array<char>) returns (ok: bool, parser: Parser, root: nat)
    requires '\0' in buf[..]
    modifies buf
    ensures parser.line == buf && Rooted(parser.nodes) && ok == ParseCmd(CString(old(buf[..]), 0)).Ok?
    ensures ok ==> root < |parser.nodes|
    ensures ok ==> ReadC(buf[..], Tree(parser.nodes, root)) == Read(CString(old(buf[..]), 0), ParseCmd(CString(old(buf[..]), 0)).v)
    ensures forall t :: ShellLanguage.Denotes(CString(old(buf[..]), 0), t) <==> ok && ReadC(buf[..], Tree(parser.nodes, root)) == t
    ensures forall t :: Printable(t) && CString(old(buf[..]), 0) == LineText(t) ==>
      ok && ReadC(buf[..], Tree(parser.nodes, root)) == t
  {
    var n := 0;
    while buf[n] != '\0'
      invariant 0 <= n < buf.Length && forall k :: 0 <= k < n ==> buf[k] != '\0'
      invariant exists k :: n <= k < buf.Length && buf[k] == '\0'
      decreases buf.Length - n
    {
      n := n + 1;
    }
    CStringEnd(buf[..], 0, n);
    parser := new Parser(buf, n);
    assert parser.S() == CString(buf[..], 0);
    ok, root := parser.ParseAll();
    ghost var s := CString(old(buf[..]), 0);
    forall t ensures ShellLanguage.Denotes(s, t) <==> ok && ReadC(buf[..], Tree(parser.nodes, root)) == t {
      ShellLanguage.ParsesIff(s, t);
    }
    forall t | Printable(t) && CString(old(buf[..]), 0) == LineText(t)
      ensures ok && ReadC(buf[..], Tree(parser.nodes, root)) == t
    {
      RoundTrip(t);
    }
  }
}
