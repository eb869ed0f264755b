/** The regular-expression matcher of user/grep.c.

    A C string is a NUL-free `string`; the terminating NUL is the end of the sequence. The three
    methods keep the source's recursion and its two do-while loops. What they are proved against is
    declarative: a pattern denotes a sequence of items, and a text matches when it can be cut into
    one part per item. */
module Grep {

  predicate NulFree(s: string) {
    forall i :: 0 <= i < |s| ==> s[i] != '\0'
  }

  // ----- Declarative semantics -----

  /** One element of a pattern. `Star('.')` repeats any character. `End` is a final `$`. */
  datatype Item = One(c: char) | Any | Star(c: char) | End

  /** The items a pattern (after an optional leading `^`) stands for. `*` binds before anything
      else, so "$*" repeats a dollar sign and "**" repeats an asterisk; a `$` that is not last, a
      `^` that is not first and a `*` that has nothing before it are ordinary characters. */
  function Items(re: string): seq<Item> {
    if re == "" then []
    else if |re| >= 2 && re[1] == '*' then [Star(re[0])] + Items(re[2..])
    else if re == "$" then [End]
    else [if re[0] == '.' then Any else One(re[0])] + Items(re[1..])
  }

  /** How an item is written. */
  function Shown(item: Item): string {
    match item case One(c) => [c] case Any => "." case Star(c) => [c, '*'] case End => "$"
  }

  function ShownAll(items: seq<Item>): string {
    if items == [] then "" else Shown(items[0]) + ShownAll(items[1..])
  }

  /** The items can be written side by side and read back: `.` alone is not an ordinary character, nor is a last `$`,
      which comes last; and no `*` follows what it would repeat. */
  predicate Proper(items: seq<Item>) {
    items == [] ||
    (&& items[0] != One('.') && (items[0] == One('$') ==> |items| > 1) && (items[0] == End ==> |items| == 1)
     && (|items| > 1 && !items[0].Star? ==> Shown(items[1])[0] != '*')
     && Proper(items[1..]))
  }

  /** The first item of a pattern and how much of it that takes. */
  lemma FirstItem(re: string) returns (n: nat, item: Item)
    requires re != "" && re != "$"
    ensures 0 < n <= |re| && Items(re) == [item] + Items(re[n..]) && Shown(item) == re[..n]
    ensures item != One('.') && (item == One('$') ==> |re| > 1) && item != End
    ensures !item.Star? ==> n == 1 && (|re| > 1 ==> re[1] != '*')
  {
    n, item := if |re| >= 2 && re[1] == '*' then 2 else 1, Items(re)[0];
  }

  /** A pattern is the writing of the items it stands for, */
  lemma {:induction false} ItemsShow(re: string)
    ensures Proper(Items(re)) && ShownAll(Items(re)) == re
    decreases |re|
  {
    if re == "$" {
      assert [End][1..] == [];
    } else if re != "" {
      var n, item := FirstItem(re);
      hide Items, Shown;
      ItemsShow(re[n..]);
      var items, rest := Items(re), Items(re[n..]);
      assert re == re[..n] + re[n..] && items[1..] == rest;
      FirstShown(rest);
    }
  }

  lemma FirstShown(items: seq<Item>)
    ensures items != [] ==> ShownAll(items) != "" && ShownAll(items)[0] == Shown(items[0])[0]
  {
  }

  /** and of no others. */
  lemma {:induction false} ItemsOfShown(items: seq<Item>)
    requires Proper(items)
    ensures Items(ShownAll(items)) == items
    decreases |items|
  {
    if items != [] {
      var rest := items[1..];
      ItemsOfShown(rest);
      FirstShown(rest);
      var re, n := ShownAll(items), |Shown(items[0])|;
      assert re[n..] == ShownAll(rest) && items == [items[0]] + rest;
      if rest == [] {
        assert re == Shown(items[0]);
      }
    }
  }

  /** `part` consists of repetitions of `c`, where '.' stands for any character. */
  ghost predicate Repeats(c: char, part: string) {
    c == '.' || forall i :: 0 <= i < |part| ==> part[i] == c
  }

  ghost predicate Fits(item: Item, part: string) {
    match item
    case One(c) => part == [c]
    case Any => |part| == 1
    case Star(c) => Repeats(c, part)
    case End => part == ""
  }

  ghost predicate FitsAll(items: seq<Item>, parts: seq<string>) {
    |parts| == |items| && forall i :: 0 <= i < |items| ==> Fits(items[i], parts[i])
  }

  ghost function Join(parts: seq<string>): string {
    if parts == [] then "" else parts[0] + Join(parts[1..])
  }

  /** The parts, one per item, spell `text[..k]`; a final `$` requires that to be all of `text`. */
  ghost predicate SpellsPrefix(items: seq<Item>, parts: seq<string>, text: string) {
    && FitsAll(items, parts)
    && Join(parts) <= text
    && (End in items ==> Join(parts) == text)
  }

  /** Some prefix of `text` matches the items. */
  ghost predicate PrefixMatch(items: seq<Item>, text: string) {
    exists parts :: SpellsPrefix(items, parts, text)
  }

  /** What the whole matcher decides: a match starting anywhere, or at the start after `^`. */
  ghost predicate Found(re: string, text: string) {
    if re != "" && re[0] == '^' then PrefixMatch(Items(re[1..]), text)
    else exists i :: 0 <= i <= |text| && PrefixMatch(Items(re), text[i..])
  }

  // ----- How the declarative semantics unfolds -----

  lemma EmptyMatches(text: string)
    ensures PrefixMatch([], text)
  {
    assert SpellsPrefix([], [], text);
  }

  lemma EndMatches(text: string)
    ensures PrefixMatch([End], text) <==> text == ""
  {
    if PrefixMatch([End], text) {
      var parts :| SpellsPrefix([End], parts, text);
      assert Fits(End, parts[0]) && parts[1..] == [];
    } else if text == "" {
      assert Join([""]) == "" + Join([]);
      assert SpellsPrefix([End], [""], text);
    }
  }

  /** The first item takes `text[..m]` and the others match what follows. */
  lemma ConsMatches(item: Item, rest: seq<Item>, text: string, m: nat)
    requires m <= |text| && Fits(item, text[..m]) && item != End
    requires PrefixMatch(rest, text[m..])
    ensures PrefixMatch([item] + rest, text)
  {
    var parts :| SpellsPrefix(rest, parts, text[m..]);
    var all := [text[..m]] + parts;
    assert all[1..] == parts;
    assert Join(all) == text[..m] + Join(parts);
    assert text == text[..m] + text[m..];
    assert SpellsPrefix([item] + rest, all, text);
  }

  lemma MatchesCons(item: Item, rest: seq<Item>, text: string) returns (m: nat)
    requires item != End && PrefixMatch([item] + rest, text)
    ensures m <= |text| && Fits(item, text[..m]) && PrefixMatch(rest, text[m..])
  {
    var items := [item] + rest;
    var parts :| SpellsPrefix(items, parts, text);
    m := |parts[0]|;
    assert items[1..] == rest;
    assert Fits(items[0], parts[0]);
    assert Join(parts) == parts[0] + Join(parts[1..]);
    assert text[..m] == parts[0];
    assert Join(parts)[m..] == Join(parts[1..]);
    assert SpellsPrefix(rest, parts[1..], text[m..]);
  }

  /** The one-character step of `matchhere`. */
  lemma CharStep(item: Item, rest: seq<Item>, text: string)
    requires item.One? || item.Any?
    ensures PrefixMatch([item] + rest, text) <==>
            text != "" && (item.Any? || text[0] == item.c) && PrefixMatch(rest, text[1..])
  {
    if PrefixMatch([item] + rest, text) {
      var m := MatchesCons(item, rest, text);
      assert m == 1;
    } else if text != "" && (item.Any? || text[0] == item.c) && PrefixMatch(rest, text[1..]) {
      ConsMatches(item, rest, text, 1);
    }
  }

  /** Some repetition of `c` of length at least `from` is followed by a match of `rest`. */
  ghost predicate StarMatch(c: char, rest: seq<Item>, text: string, from: nat) {
    exists m :: from <= m <= |text| && Repeats(c, text[..m]) && PrefixMatch(rest, text[m..])
  }

  lemma StarStep(c: char, rest: seq<Item>, text: string)
    ensures PrefixMatch([Star(c)] + rest, text) <==> StarMatch(c, rest, text, 0)
  {
    if PrefixMatch([Star(c)] + rest, text) {
      var m := MatchesCons(Star(c), rest, text);
    } else if StarMatch(c, rest, text, 0) {
      var m :| 0 <= m <= |text| && Repeats(c, text[..m]) && PrefixMatch(rest, text[m..]);
      ConsMatches(Star(c), rest, text, m);
    }
  }

  // ----- The matcher -----

  /** `match`: a leading `^` tests the start of the text only; otherwise the loop tries every
      suffix, including the empty one. */
  method Match(re: string, text: string) returns (found: bool)
    requires NulFree(re) && NulFree(text)
    ensures found <==> Found(re, text)
  {
    if re != "" && re[0] == '^' {
      found := MatchHere(re[1..], text);
      return;
    }
    var t := 0;
    while true
      invariant 0 <= t <= |text|
      invariant forall i :: 0 <= i < t ==> !PrefixMatch(Items(re), text[i..])
      decreases |text| - t
    {
      found := MatchHere(re, text[t..]);
      if found {
        return;
      }
      if t == |text| {
        return false;
      }
      t := t + 1;
    }
  }

  /** `matchhere`: search for `re` at the beginning of `text`. */
  method MatchHere(re: string, text: string) returns (found: bool)
    requires NulFree(re) && NulFree(text)
    ensures found <==> PrefixMatch(Items(re), text)
    decreases |re|, 0
  {
    if re == "" {
      EmptyMatches(text);
      return true;
    }
    if |re| >= 2 && re[1] == '*' {
      StarStep(re[0], Items(re[2..]), text);
      found := MatchStar(re[0], re[2..], text);
      return;
    }
    if re[0] == '$' && |re| == 1 {
      assert Items(re) == [End];
      EndMatches(text);
      return text == "";
    }
    CharStep(if re[0] == '.' then Any else One(re[0]), Items(re[1..]), text);
    if text != "" && (re[0] == '.' || re[0] == text[0]) {
      found := MatchHere(re[1..], text[1..]);
    } else {
      found := false;
    }
  }

  /** `matchstar`: search for `c*re` at the beginning of `text`, shortest repetition first. */
  method MatchStar(c: char, re: string, text: string) returns (found: bool)
    requires NulFree(re) && NulFree(text)
    ensures found <==> StarMatch(c, Items(re), text, 0)
    decreases |re|, 1
  {
    var t := 0;
    while true
      invariant 0 <= t <= |text|
      invariant Repeats(c, text[..t])
      invariant StarMatch(c, Items(re), text, 0) <==> StarMatch(c, Items(re), text, t)
      decreases |text| - t
    {
      found := MatchHere(re, text[t..]);
      if found {
        return;
      }
      if t == |text| || !(text[t] == c || c == '.') {
        assert forall m :: t < m <= |text| ==> text[..m][t] == text[t];
        return false;
      }
      t := t + 1;
    }
  }
}
