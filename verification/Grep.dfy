/**
 The regular-expression matcher of user/grep.c: `match`, `matchhere` and `matchstar`.

 A C string is modelled by the characters before its terminating NUL, so every
 `string` is a legal pattern and a legal text.  A pattern denotes a language that is
 defined without reference to the matcher: a text is in the language when it can be
 cut into one segment per pattern item, each segment belonging to its item.
 */
module Grep {

  datatype Symbol = Any | Literal(c: char)

  datatype Item = One(sym: Symbol) | Many(sym: Symbol)

  /** The part of a pattern after an optional `^`: items, then perhaps a final `$`. */
  datatype Pattern = Pattern(items: seq<Item>, toEnd: bool)

  predicate SymbolMatches(sym: Symbol, c: char) {
    sym == Any || sym == Literal(c)
  }

  function SymbolOf(c: char): Symbol {
    if c == '.' then Any else Literal(c)
  }

  /** The concrete syntax: `x*` repeats, `$` ends only in last position, `.` is any character. */
  function Parse(re: string): Pattern {
    if re == "" then
      Pattern([], false)
    else if |re| >= 2 && re[1] == '*' then
      Prepend(Many(SymbolOf(re[0])), Parse(re[2..]))
    else if re == "$" then
      Pattern([], true)
    else
      Prepend(One(SymbolOf(re[0])), Parse(re[1..]))
  }

  function Prepend(item: Item, p: Pattern): Pattern {
    Pattern([item] + p.items, p.toEnd)
  }

  /** How a pattern is written */
  function Show(items: seq<Item>, toEnd: bool): string {
    if items == [] then (if toEnd then "$" else "")
    else ShowItem(items[0]) + Show(items[1..], toEnd)
  }

  function ShowItem(item: Item): string {
    var c := if item.sym.Any? then '.' else item.sym.c;
    if item.One? then [c] else [c, '*']
  }

  /** The patterns that can be written: no item is a literal `.`; no `*` comes right after an item that
      stands for one character; and a final `$` is not a character. */
  predicate Writable(items: seq<Item>, toEnd: bool) {
    items != [] ==>
      && items[0].sym != Literal('.')
      && (items[0].One? && |items| > 1 ==> items[1].sym != Literal('*'))
      && (items[0].One? && |items| == 1 && !toEnd ==> items[0].sym != Literal('$'))
      && Writable(items[1..], toEnd)
  }

  /** Every string is the writing of just the pattern it is parsed to. */
  lemma {:induction false} ParseThenShow(re: string)
    ensures Show(Parse(re).items, Parse(re).toEnd) == re
    ensures Writable(Parse(re).items, Parse(re).toEnd)
    decreases |re|
  {
    if re != "" && re != "$" {
      var star := |re| >= 2 && re[1] == '*';
      var rest := if star then re[2..] else re[1..];
      var p := Parse(rest);
      ParseThenShow(rest);
      assert Parse(re).items[1..] == p.items;
      assert re == ShowItem(Parse(re).items[0]) + rest;
    }
  }

  lemma {:induction false} ShowThenParse(items: seq<Item>, toEnd: bool)
    requires Writable(items, toEnd)
    ensures Parse(Show(items, toEnd)) == Pattern(items, toEnd)
    decreases |items|
  {
    if items != [] {
      var rest, re := Show(items[1..], toEnd), Show(items, toEnd);
      ShowThenParse(items[1..], toEnd);
      assert re[|ShowItem(items[0])|..] == rest;
      if |items| > 1 {
        assert rest[0] == ShowItem(items[1])[0];
      }
      assert items == [items[0]] + items[1..];
    }
  }

  // ----- Denotation -----

  predicate AllMatch(sym: Symbol, s: string) {
    forall k :: 0 <= k < |s| ==> SymbolMatches(sym, s[k])
  }

  predicate InItem(item: Item, s: string) {
    match item
    case One(sym) => |s| == 1 && SymbolMatches(sym, s[0])
    case Many(sym) => AllMatch(sym, s)
  }

  function Concat(segments: seq<string>): string {
    if segments == [] then "" else segments[0] + Concat(segments[1..])
  }

  ghost predicate CutInto(items: seq<Item>, segments: seq<string>, s: string) {
    && |segments| == |items|
    && Concat(segments) == s
    && forall k :: 0 <= k < |items| ==> InItem(items[k], segments[k])
  }

  ghost predicate InLanguage(items: seq<Item>, s: string) {
    exists segments :: CutInto(items, segments, s)
  }

  /** The text between positions `from` and `to` is an occurrence of the pattern. */
  ghost predicate OccursAt(p: Pattern, text: string, from: int, to: int) {
    && 0 <= from <= to <= |text|
    && InLanguage(p.items, text[from..to])
    && (p.toEnd ==> to == |text|)
  }

  /** What `match` has to decide: an occurrence anywhere, or at the start if anchored by `^`. */
  ghost predicate Accepts(re: string, text: string) {
    if re != "" && re[0] == '^' then
      exists to :: OccursAt(Parse(re[1..]), text, 0, to)
    else
      exists from, to :: OccursAt(Parse(re), text, from, to)
  }

  ghost predicate OccursFirst(p: Pattern, text: string) {
    exists to :: OccursAt(p, text, 0, to)
  }

  // ----- How the denotation unfolds, one item at a time -----

  lemma LanguageCons(item: Item, items: seq<Item>, s: string)
    ensures InLanguage([item] + items, s)
            <==> exists k :: 0 <= k <= |s| && InItem(item, s[..k]) && InLanguage(items, s[k..])
  {
    var all := [item] + items;
    if InLanguage(all, s) {
      var segments :| CutInto(all, segments, s);
      var k := |segments[0]|;
      assert s[..k] == segments[0] && s[k..] == Concat(segments[1..]);
      assert InItem(all[0], segments[0]);
      assert forall i :: 0 <= i < |items| ==> items[i] == all[i + 1] && segments[1..][i] == segments[i + 1];
      assert CutInto(items, segments[1..], s[k..]);
    }
    if k :| 0 <= k <= |s| && InItem(item, s[..k]) && InLanguage(items, s[k..]) {
      var rest :| CutInto(items, rest, s[k..]);
      var segments := [s[..k]] + rest;
      assert segments[1..] == rest;
      assert s[..k] + s[k..] == s;
      assert CutInto(all, segments, s);
    }
  }

  lemma LanguageEmpty(s: string)
    ensures InLanguage([], s) <==> s == ""
  {
    if s == "" {
      assert CutInto([], [], s);
    }
  }

  /** Occurrences at the start of the text peel off item by item. */
  lemma OccursCons(item: Item, p: Pattern, text: string)
    ensures OccursFirst(Prepend(item, p), text)
            <==> exists k :: 0 <= k <= |text| && InItem(item, text[..k]) && OccursFirst(p, text[k..])
  {
    if OccursFirst(Prepend(item, p), text) {
      var to :| OccursAt(Prepend(item, p), text, 0, to);
      LanguageCons(item, p.items, text[0..to]);
      var k :| 0 <= k <= to && InItem(item, text[0..to][..k]) && InLanguage(p.items, text[0..to][k..]);
      assert text[0..to][..k] == text[..k] && text[0..to][k..] == text[k..][0..to - k];
      assert OccursAt(p, text[k..], 0, to - k);
    }
    if k :| 0 <= k <= |text| && InItem(item, text[..k]) && OccursFirst(p, text[k..]) {
      var to :| OccursAt(p, text[k..], 0, to);
      var s := text[0..k + to];
      assert s[..k] == text[..k] && s[k..] == text[k..][0..to];
      LanguageCons(item, p.items, s);
      assert OccursAt(Prepend(item, p), text, 0, k + to);
    }
  }

  lemma OccursOne(sym: Symbol, p: Pattern, text: string)
    ensures OccursFirst(Prepend(One(sym), p), text)
            <==> text != "" && SymbolMatches(sym, text[0]) && OccursFirst(p, text[1..])
  {
    OccursCons(One(sym), p, text);
    if text != "" && SymbolMatches(sym, text[0]) && OccursFirst(p, text[1..]) {
      assert InItem(One(sym), text[..1]);
    }
  }

  lemma OccursNone(p: Pattern, text: string)
    requires p.items == []
    ensures OccursFirst(p, text) <==> (p.toEnd ==> text == "")
  {
    LanguageEmpty(text[0..0]);
    if p.toEnd ==> text == "" {
      assert OccursAt(p, text, 0, 0);
    }
    forall to | OccursAt(p, text, 0, to) ensures to == 0 {
      LanguageEmpty(text[0..to]);
    }
  }

  lemma OccursShift(p: Pattern, text: string, i: nat)
    requires i <= |text|
    ensures OccursFirst(p, text[i..]) <==> exists to :: OccursAt(p, text, i, to)
  {
    if OccursFirst(p, text[i..]) {
      var to :| OccursAt(p, text[i..], 0, to);
      assert text[i..][0..to] == text[i..i + to];
      assert OccursAt(p, text, i, i + to);
    }
    if to :| OccursAt(p, text, i, to) {
      assert text[i..][0..to - i] == text[i..to];
      assert OccursAt(p, text[i..], 0, to - i);
    }
  }

  // ----- The matcher -----

  /** `match`: search for the pattern anywhere in the text. */
  method Match(re: string, text: string) returns (found: bool)
    ensures found <==> Accepts(re, text)
    ensures re != "" && re[0] == '^' ==> (found <==> exists to :: OccursAt(Parse(re[1..]), text, 0, to))
    ensures re == "" || re[0] != '^' ==> (found <==> exists from, to :: OccursAt(Parse(re), text, from, to))
  {
    if re != "" && re[0] == '^' {
      found := MatchHere(re[1..], text);
      return;
    }
    var i := 0;
    while true  // must look at empty string
      invariant 0 <= i <= |text|
      invariant forall from, to :: OccursAt(Parse(re), text, from, to) ==> from >= i
      decreases |text| - i
    {
      found := MatchHere(re, text[i..]);
      OccursShift(Parse(re), text, i);
      if found {
        return;
      }
      if i == |text| {
        break;
      }
      i := i + 1;
    }
    found := false;
  }

  /** `matchhere`: does the pattern occur at the beginning of the text? */
  method MatchHere(re: string, text: string) returns (found: bool)
    ensures found <==> OccursFirst(Parse(re), text)
    decreases |re|, 0
  {
    if re == "" {
      OccursNone(Parse(re), text);
      return true;
    }
    if |re| >= 2 && re[1] == '*' {
      found := MatchStar(re[0], re[2..], text);
      return;
    }
    if re[0] == '$' && |re| == 1 {
      OccursNone(Parse(re), text);
      return text == "";
    }
    OccursOne(SymbolOf(re[0]), Parse(re[1..]), text);
    if text != "" && (re[0] == '.' || re[0] == text[0]) {
      found := MatchHere(re[1..], text[1..]);
      return;
    }
    found := false;
  }

  /** `matchstar`: does `c*` followed by the pattern occur at the beginning of the text? */
  method MatchStar(c: char, re: string, text: string) returns (found: bool)
    ensures found <==> OccursFirst(Prepend(Many(SymbolOf(c)), Parse(re)), text)
    decreases |re|, 1
  {
    var sym := SymbolOf(c);
    OccursCons(Many(sym), Parse(re), text);
    var i := 0;
    while true  // a * matches zero or more instances
      invariant 0 <= i <= |text|
      invariant AllMatch(sym, text[..i])
      invariant forall k :: 0 <= k < i ==> !OccursFirst(Parse(re), text[k..])
      decreases |text| - i
    {
      found := MatchHere(re, text[i..]);
      if found {
        assert InItem(Many(sym), text[..i]);
        return;
      }
      if i == |text| || !(text[i] == c || c == '.') {
        assert forall k :: i < k <= |text| && InItem(Many(sym), text[..k]) ==> SymbolMatches(sym, text[..k][i]);
        break;
      }
      i := i + 1;
    }
    found := false;
  }
}
