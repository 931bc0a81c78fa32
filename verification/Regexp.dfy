/**
 grep's matcher (grep.c) and the language its patterns denote.

 Patterns and texts are C strings without their NUL, so "*text is NUL" reads "text is empty".
 */
module Regexp {

  // ---- What a pattern means --------------------------------------------------------------------

  /** An element of a pattern: one character, any number of them, or the end of the text. */
  datatype Item = One(c: char) | Star(c: char) | End

  /** The elements of a pattern without its leading ^. */
  function Items(re: string): seq<Item> {
    if re == "" then []
    else if |re| > 1 && re[1] == '*' then [Star(re[0])] + Items(re[2..])
    else if re == "$" then [End]
    else [One(re[0])] + Items(re[1..])
  }

  predicate Fits(c: char, x: char) { c == '.' || c == x }

  /** The piece w of the text is an instance of the element. */
  predicate Instance(item: Item, w: string) {
    match item
    case One(c) => |w| == 1 && Fits(c, w[0])
    case Star(c) => forall k :: 0 <= k < |w| ==> Fits(c, w[k])
    case End => w == ""
  }

  function Join(ws: seq<string>): string {
    if ws == [] then "" else ws[0] + Join(ws[1..])
  }

  /** ws cuts a beginning of the text, or all of it before an End, into instances of the elements. */
  ghost predicate Cuts(items: seq<Item>, ws: seq<string>, text: string) {
    && |ws| == |items|
    && (forall k :: 0 <= k < |items| ==> Instance(items[k], ws[k]))
    && Join(ws) <= text
    && (End in items ==> Join(ws) == text)
  }

  /** The text begins with a word of the pattern's language. */
  ghost predicate Begins(re: string, text: string) {
    exists ws :: Cuts(Items(re), ws, text)
  }

  // ---- The matcher's recursion --------------------------------------------------------------------

  function MatchHere(re: string, text: string): bool
    decreases |re|, 0, |text|
  {
    if re == "" then true
    else if |re| > 1 && re[1] == '*' then MatchStar(re[0], re[2..], text)
    else if re == "$" then text == ""
    else text != "" && Fits(re[0], text[0]) && MatchHere(re[1..], text[1..])
  }

  function MatchStar(c: char, re: string, text: string): bool
    decreases |re|, 1, |text|
  {
    MatchHere(re, text) || (text != "" && Fits(c, text[0]) && MatchStar(c, re, text[1..]))
  }

  /** matchstar takes the first k characters, each an instance of c, and matches the rest. */
  lemma {:induction false} StarTakes(c: char, re: string, text: string) returns (k: nat)
    requires MatchStar(c, re, text)
    ensures k <= |text| && Instance(Star(c), text[..k]) && MatchHere(re, text[k..])
    decreases |text|
  {
    if MatchHere(re, text) {
      k := 0;
      assert text[0..] == text;
    } else {
      var j := StarTakes(c, re, text[1..]);
      k := j + 1;
      assert text[..k] == [text[0]] + text[1..][..j] && text[k..] == text[1..][j..];
    }
  }

  lemma {:induction false} StarFinds(c: char, re: string, text: string, k: nat)
    requires k <= |text| && Instance(Star(c), text[..k]) && MatchHere(re, text[k..])
    ensures MatchStar(c, re, text)
    decreases k
  {
    if k == 0 {
      assert text[0..] == text;
    } else {
      assert text[..k][0] == text[0];
      assert text[1..][..k - 1] == text[..k][1..] && text[k..] == text[1..][k - 1..];
      StarFinds(c, re, text[1..], k - 1);
    }
  }

  // ---- Soundness and completeness ------------------------------------------------------------------

  /** Putting a piece in front of a cut. */
  lemma CutsCons(item: Item, w: string, items: seq<Item>, ws: seq<string>, text: string)
    requires !item.End? && Instance(item, w) && Cuts(items, ws, text)
    ensures Cuts([item] + items, [w] + ws, w + text)
  {
    assert ([w] + ws)[1..] == ws;
  }

  /** Taking the first piece off a cut. */
  lemma CutsTail(item: Item, items: seq<Item>, ws: seq<string>, text: string)
    requires !item.End? && Cuts([item] + items, ws, text)
    ensures Instance(item, ws[0]) && ws[0] <= text && Cuts(items, ws[1..], text[|ws[0]|..])
  {
    var all, w, rest := [item] + items, ws[0], ws[1..];
    assert all[0] == item && all[1..] == items && Join(ws) == w + Join(rest);
    assert text[..|w|] == Join(ws)[..|w|] == w;
    assert Join(rest) == Join(ws)[|w|..];
    forall k | 0 <= k < |items| ensures Instance(items[k], rest[k]) { assert Instance(all[k + 1], ws[k + 1]); }
    if End in items { assert End in all; }
  }

  lemma {:induction false} HereSound(re: string, text: string) returns (ws: seq<string>)
    requires MatchHere(re, text)
    ensures Cuts(Items(re), ws, text)
    decreases |re|
  {
    if re == "" {
      ws := [];
    } else if |re| > 1 && re[1] == '*' {
      var k := StarTakes(re[0], re[2..], text);
      var rest := HereSound(re[2..], text[k..]);
      ws := [text[..k]] + rest;
      CutsCons(Star(re[0]), text[..k], Items(re[2..]), rest, text[k..]);
      assert text[..k] + text[k..] == text;
    } else if re == "$" {
      ws := [""];
    } else {
      var rest := HereSound(re[1..], text[1..]);
      ws := [[text[0]]] + rest;
      CutsCons(One(re[0]), [text[0]], Items(re[1..]), rest, text[1..]);
      assert [text[0]] + text[1..] == text;
    }
  }

  lemma {:induction false} HereComplete(re: string, text: string, ws: seq<string>)
    requires Cuts(Items(re), ws, text)
    ensures MatchHere(re, text)
    decreases |re|
  {
    if re == "" {
    } else if |re| > 1 && re[1] == '*' {
      CutsTail(Star(re[0]), Items(re[2..]), ws, text);
      var k := |ws[0]|;
      HereComplete(re[2..], text[k..], ws[1..]);
      assert text[..k] == ws[0];
      StarFinds(re[0], re[2..], text, k);
    } else if re == "$" {
      assert End in Items(re) && Items(re)[0] == End;
      assert ws[1..] == [];
    } else {
      CutsTail(One(re[0]), Items(re[1..]), ws, text);
      assert text[..1] == ws[0];
      HereComplete(re[1..], text[1..], ws[1..]);
    }
  }

  /** matchhere succeeds exactly on the texts that begin with a word of the pattern. */
  lemma HereIsBegins(re: string, text: string)
    ensures MatchHere(re, text) <==> Begins(re, text)
  {
    if MatchHere(re, text) { var ws := HereSound(re, text); }
    if Begins(re, text) {
      var ws :| Cuts(Items(re), ws, text);
      HereComplete(re, text, ws);
    }
  }

  // ---- Patterns whose meaning is plain --------------------------------------------------------------

  /** No character of the pattern is special. */
  predicate Plain(re: string) {
    forall k :: 0 <= k < |re| ==> re[k] != '.' && re[k] != '*' && re[k] != '$' && re[k] != '^'
  }

  /** A pattern of ordinary characters matches itself and nothing else. */
  lemma {:induction false} PlainIsPrefix(re: string, text: string)
    requires Plain(re)
    ensures Begins(re, text) <==> re <= text
    decreases |re|
  {
    HereIsBegins(re, text);
    if re != "" {
      assert re[0] != '$' && "$"[0] == '$';
      if text != "" {
        PlainIsPrefix(re[1..], text[1..]);
        HereIsBegins(re[1..], text[1..]);
        assert re == [re[0]] + re[1..] && text == [text[0]] + text[1..];
      }
    }
  }

  /** n dots, which each match any one character. */
  function Dots(n: nat): (s: string)
    ensures |s| == n && forall k :: 0 <= k < n ==> s[k] == '.'
  {
    if n == 0 then "" else "." + Dots(n - 1)
  }

  lemma {:induction false} DotsAreAny(n: nat, text: string)
    ensures Begins(Dots(n), text) <==> |text| >= n
    decreases n
  {
    HereIsBegins(Dots(n), text);
    if n > 0 && text != "" {
      DotsAreAny(n - 1, text[1..]);
      HereIsBegins(Dots(n - 1), text[1..]);
      assert Dots(n)[1..] == Dots(n - 1);
    }
  }

  /** c*$ matches the texts of nothing but c. */
  lemma StarThenEnd(c: char, text: string)
    requires c != '.'
    ensures Begins([c, '*', '$'], text) <==> forall k :: 0 <= k < |text| ==> text[k] == c
  {
    var re := [c, '*', '$'];
    HereIsBegins(re, text);
    assert re[2..] == "$";
    if MatchStar(c, "$", text) {
      var k := StarTakes(c, "$", text);
      assert text[k..] == "" && MatchHere("$", text[k..]);
      assert text == text[..k] + text[k..];
    }
    if forall k :: 0 <= k < |text| ==> text[k] == c {
      assert text[..|text|] == text && text[|text|..] == "";
      StarFinds(c, "$", text, |text|);
    }
  }

  // ---- The code --------------------------------------------------------------------------------------

  /** match */
  method Match(re: string, text: string) returns (found: bool)
    ensures re != "" && re[0] == '^' ==> found == Begins(re[1..], text)
    ensures !(re != "" && re[0] == '^') ==> found == exists k :: 0 <= k <= |text| && Begins(re, text[k..])
  {
    if re != "" && re[0] == '^' {
      found := Matchhere(re[1..], text);
      return;
    }
    var k := 0;
    found := false;
    while !found && k <= |text|
      invariant 0 <= k <= |text| + 1
      invariant found ==> k <= |text| && Begins(re, text[k..])
      invariant !found ==> forall j :: 0 <= j < k ==> !Begins(re, text[j..])
      decreases |text| - k, !found
    {
      found := Matchhere(re, text[k..]);
      if !found { k := k + 1; }
    }
  }

  /** matchhere */
  method Matchhere(re: string, text: string) returns (found: bool)
    ensures found == Begins(re, text) == MatchHere(re, text)
    decreases |re|, 0
  {
    HereIsBegins(re, text);
    if re == "" {
      return true;
    } else if |re| > 1 && re[1] == '*' {
      found := Matchstar(re[0], re[2..], text);
    } else if re == "$" {
      return text == "";
    } else if text != "" && Fits(re[0], text[0]) {
      found := Matchhere(re[1..], text[1..]);
    } else {
      return false;
    }
  }

  /** matchstar */
  method Matchstar(c: char, re: string, text: string) returns (found: bool)
    ensures found == MatchStar(c, re, text)
    decreases |re|, 1
  {
    var k := 0;
    found := Matchhere(re, text[0..]);
    assert text[0..] == text;
    while !found && k < |text| && Fits(c, text[k])
      invariant 0 <= k <= |text| && found == MatchHere(re, text[k..])
      invariant MatchStar(c, re, text) == MatchStar(c, re, text[k..])
    {
      assert text[k..][1..] == text[k + 1..];
      k := k + 1;
      found := Matchhere(re, text[k..]);
    }
  }
}
