/** The regular-expression matcher of grep.

    A C string is modelled by the characters before its terminating NUL, so that "at the
    end of the string" is "the sequence is empty". The matcher is specified by a language:
    a pattern is a sequence of items, each item denotes a set of words, and a pattern
    matches a text when the text splits into one word per item. */
module Regex {

  /** `One(c)` is a single character and `Many(c)` is `c*`; `'.'` stands for any character. */
  datatype Item = One(c: char) | Many(c: char)

  datatype Pattern = Pattern(items: seq<Item>, atEnd: bool)

  /** The items a pattern string denotes, a leading `'^'` excepted. A `'*'` with nothing
      before it and a `'$'` with something after it are ordinary characters. */
  function Parse(re: string): Pattern {
    if re == "" then Pattern([], false)
    else if |re| >= 2 && re[1] == '*' then
      var p := Parse(re[2..]);
      Pattern([Many(re[0])] + p.items, p.atEnd)
    else if re == "$" then Pattern([], true)
    else
      var p := Parse(re[1..]);
      Pattern([One(re[0])] + p.items, p.atEnd)
  }

  predicate Accepts(c: char, x: char) {
    c == '.' || c == x
  }

  ghost predicate AllAccepted(c: char, w: string) {
    forall i :: 0 <= i < |w| ==> Accepts(c, w[i])
  }

  /** The words of one item. */
  ghost predicate ItemWord(item: Item, w: string) {
    match item
    case One(c) => |w| == 1 && Accepts(c, w[0])
    case Many(c) => AllAccepted(c, w)
  }

  ghost function Join(words: seq<string>): string {
    if words == [] then "" else words[0] + Join(words[1..])
  }

  ghost predicate Spells(words: seq<string>, items: seq<Item>) {
    |words| == |items| && forall i :: 0 <= i < |items| ==> ItemWord(items[i], words[i])
  }

  /** `w` is the concatenation of one word for each item. */
  ghost predicate InLanguage(items: seq<Item>, w: string) {
    exists words :: Spells(words, items) && Join(words) == w
  }

  ghost predicate MatchesPrefix(p: Pattern, text: string, m: nat) {
    m <= |text| && InLanguage(p.items, text[..m]) && (p.atEnd ==> m == |text|)
  }

  /** Some prefix of `text` is in the language of `re`; the whole of it, under `'$'`. */
  ghost predicate MatchesHere(re: string, text: string) {
    exists m: nat :: MatchesPrefix(Parse(re), text, m)
  }

  /** `re` occurs in `text`: at its beginning, under `'^'`. */
  ghost predicate Occurs(re: string, text: string) {
    if re != "" && re[0] == '^' then MatchesHere(re[1..], text)
    else exists k :: 0 <= k <= |text| && MatchesHere(re, text[k..])
  }

  // ---------------------------------------------------------------- the language, item by item

  lemma InLanguageCons(item: Item, items: seq<Item>, w: string)
    ensures InLanguage([item] + items, w)
            <==> exists j :: 0 <= j <= |w| && ItemWord(item, w[..j]) && InLanguage(items, w[j..])
  {
    var all := [item] + items;
    if InLanguage(all, w) {
      var words :| Spells(words, all) && Join(words) == w;
      var j := |words[0]|;
      assert w[..j] == words[0] && w[j..] == Join(words[1..]);
      assert ItemWord(all[0], words[0]);
      assert Spells(words[1..], items) by {
        forall i | 0 <= i < |items| ensures ItemWord(items[i], words[1..][i]) {
          assert all[i + 1] == items[i];
        }
      }
    }
    if j :| 0 <= j <= |w| && ItemWord(item, w[..j]) && InLanguage(items, w[j..]) {
      var rest :| Spells(rest, items) && Join(rest) == w[j..];
      var words := [w[..j]] + rest;
      assert words[1..] == rest;
      assert Join(words) == w[..j] + w[j..] == w;
      assert Spells(words, all);
    }
  }

  /** A pattern whose first item is `item` matches exactly when a word of that item can be
      taken off the text and the remaining pattern matches what is left. */
  lemma HereCons(re: string, item: Item, rest: string, text: string)
    requires Parse(re) == Pattern([item] + Parse(rest).items, Parse(rest).atEnd)
    ensures MatchesHere(re, text)
            <==> exists j :: 0 <= j <= |text| && ItemWord(item, text[..j]) && MatchesHere(rest, text[j..])
  {
    hide Parse, InLanguage, ItemWord;
    var p, q := Parse(re), Parse(rest);
    if MatchesHere(re, text) {
      var m: nat :| MatchesPrefix(p, text, m);
      InLanguageCons(item, q.items, text[..m]);
      var j :| 0 <= j <= m && ItemWord(item, text[..m][..j]) && InLanguage(q.items, text[..m][j..]);
      assert text[..m][..j] == text[..j];
      assert text[..m][j..] == text[j..][..m - j];
      assert MatchesPrefix(q, text[j..], m - j);
    }
    if j :| 0 <= j <= |text| && ItemWord(item, text[..j]) && MatchesHere(rest, text[j..]) {
      var m: nat :| MatchesPrefix(q, text[j..], m);
      assert text[..j + m][..j] == text[..j];
      assert text[..j + m][j..] == text[j..][..m];
      InLanguageCons(item, q.items, text[..j + m]);
      assert MatchesPrefix(p, text, j + m);
    }
  }

  lemma HereEmpty(text: string)
    ensures MatchesHere("", text)
    ensures MatchesHere("$", text) <==> text == ""
  {
    assert Spells([], []) && Join([]) == "";
    assert text[..0] == "";
    assert MatchesPrefix(Parse(""), text, 0);
    if text == "" {
      assert MatchesPrefix(Parse("$"), text, 0);
    }
    if MatchesHere("$", text) {
      var m: nat :| MatchesPrefix(Parse("$"), text, m);
      assert text[..m] == text;
      var words :| Spells(words, []) && Join(words) == text;
    }
  }

  lemma HereOne(re: string, text: string)
    requires re != "" && !(|re| >= 2 && re[1] == '*') && re != "$"
    ensures MatchesHere(re, text)
            <==> text != "" && Accepts(re[0], text[0]) && MatchesHere(re[1..], text[1..])
  {
    HereCons(re, One(re[0]), re[1..], text);
    if text != "" && Accepts(re[0], text[0]) {
      assert ItemWord(One(re[0]), text[..1]);
    }
  }

  lemma HereMany(re: string, text: string)
    requires |re| >= 2 && re[1] == '*'
    ensures MatchesHere(re, text)
            <==> exists j :: 0 <= j <= |text| && AllAccepted(re[0], text[..j]) && MatchesHere(re[2..], text[j..])
  {
    HereCons(re, Many(re[0]), re[2..], text);
    forall j | 0 <= j <= |text|
      ensures ItemWord(Many(re[0]), text[..j]) <==> AllAccepted(re[0], text[..j])
    {}
  }

  /** One character of a pattern: `.` is in every text but the empty one, and any other character,
      but `$` at the end and `^`, is in the texts that it occurs in. */
  lemma SingleCharacter(c: char, text: string)
    requires c != '$'
    ensures MatchesHere([c], text) <==> text != "" && (c == '.' || text[0] == c)
    ensures c != '^' ==> (Occurs([c], text) <==> if c == '.' then text != "" else c in text)
  {
    hide MatchesHere;
    assert [c][0] == c && [c][1..] == "";
    HereOne([c], text);
    if text != "" {
      HereEmpty(text[1..]);
    }
    if c != '^' {
      forall k | 0 <= k <= |text|
        ensures MatchesHere([c], text[k..]) <==> k < |text| && (c == '.' || text[k] == c)
      {
        HereOne([c], text[k..]);
        if k < |text| {
          HereEmpty(text[k..][1..]);
        }
      }
      if text != "" && c == '.' {
        assert MatchesHere([c], text[0..]);
      }
      if k :| 0 <= k < |text| && text[k] == c {
        assert MatchesHere([c], text[k..]);
      }
    }
  }

  /** A pattern of ordinary characters is in exactly the texts that start with it. */
  lemma {:induction false} LiteralHere(re: string, text: string)
    requires forall i :: 0 <= i < |re| ==> re[i] != '.' && re[i] != '*' && re[i] != '$'
    ensures MatchesHere(re, text) <==> re <= text
  {
    hide MatchesHere;
    HereEmpty(text);
    if re != "" {
      assert re[0] != '$';
      HereOne(re, text);
      if text != "" {
        LiteralHere(re[1..], text[1..]);
        assert re == [re[0]] + re[1..] && text == [text[0]] + text[1..];
      }
    }
  }

  /** With `$` it is in that text only; anywhere, in the texts that have it somewhere; and under
      `^`, in those that start with it. */
  lemma {:induction false} LiteralWhole(re: string, text: string)
    requires forall i :: 0 <= i < |re| ==> re[i] != '.' && re[i] != '*' && re[i] != '$'
    ensures MatchesHere(re + "$", text) <==> re == text
  {
    hide MatchesHere;
    if re == "" {
      assert re + "$" == "$";
      HereEmpty(text);
    } else {
      assert (re + "$")[0] == re[0] && (re + "$")[1..] == re[1..] + "$" && re[0] != '$';
      assert |re| == 1 ==> (re + "$")[1] == '$';
      HereOne(re + "$", text);
      if text != "" {
        LiteralWhole(re[1..], text[1..]);
        assert re == [re[0]] + re[1..] && text == [text[0]] + text[1..];
      }
    }
  }

  lemma LiteralOccurs(re: string, text: string)
    requires forall i :: 0 <= i < |re| ==> re[i] != '.' && re[i] != '*' && re[i] != '$'
    ensures Occurs("^" + re, text) <==> re <= text
    ensures (re != "" ==> re[0] != '^') ==> (Occurs(re, text) <==> exists k :: 0 <= k <= |text| && re <= text[k..])
  {
    hide MatchesHere;
    assert ("^" + re)[1..] == re;
    LiteralHere(re, text);
    forall k | 0 <= k <= |text| ensures MatchesHere(re, text[k..]) <==> re <= text[k..] {
      LiteralHere(re, text[k..]);
    }
  }

  /** A starred character takes any run of that character, or with `.` anything at all. */
  lemma StarHere(c: char, text: string)
    ensures MatchesHere([c, '*', '$'], text) <==> c == '.' || forall i :: 0 <= i < |text| ==> text[i] == c
  {
    hide MatchesHere;
    var re := [c, '*', '$'];
    HereMany(re, text);
    assert re[2..] == "$";
    forall j | 0 <= j <= |text| ensures MatchesHere("$", text[j..]) <==> j == |text| {
      HereEmpty(text[j..]);
    }
    assert text[..|text|] == text;
    assert AllAccepted(c, text) <==> c == '.' || forall i :: 0 <= i < |text| ==> text[i] == c;
  }

  // ---------------------------------------------------------------- the matcher

  /** Search for `re` at the beginning of `text`. */
  method MatchHere(re: string, text: string) returns (r: bool)
    ensures r <==> MatchesHere(re, text)
    decreases |re|, 0
  {
    HereEmpty(text);
    if |re| == 0 {
      return true;
    }
    if |re| >= 2 && re[1] == '*' {
      HereMany(re, text);
      r := MatchStar(re[0], re[2..], text);
      return;
    }
    if re[0] == '$' && |re| == 1 {
      return |text| == 0;
    }
    HereOne(re, text);
    if |text| != 0 && (re[0] == '.' || re[0] == text[0]) {
      r := MatchHere(re[1..], text[1..]);
      return;
    }
    return false;
  }

  /** Search for `c*` followed by `re` at the beginning of `text`. */
  method MatchStar(c: char, re: string, text: string) returns (r: bool)
    ensures r <==> exists j :: 0 <= j <= |text| && AllAccepted(c, text[..j]) && MatchesHere(re, text[j..])
    decreases |re|, 1
  {
    var k := 0;
    while true
      invariant 0 <= k <= |text|
      invariant AllAccepted(c, text[..k])
      invariant forall j :: 0 <= j < k ==> !MatchesHere(re, text[j..])
      decreases |text| - k
    {
      r := MatchHere(re, text[k..]);
      if r {
        return;
      }
      if k == |text| || !(text[k] == c || c == '.') {
        break;
      }
      k := k + 1;
    }
    forall j | k < j <= |text| ensures !AllAccepted(c, text[..j]) {
      assert text[..j][k] == text[k];
    }
  }

  /** Search for `re` anywhere in `text`. */
  method Match(re: string, text: string) returns (r: bool)
    ensures r <==> Occurs(re, text)
  {
    if |re| != 0 && re[0] == '^' {
      r := MatchHere(re[1..], text);
      return;
    }
    var k := 0;
    while true
      invariant 0 <= k <= |text|
      invariant forall j :: 0 <= j < k ==> !MatchesHere(re, text[j..])
      decreases |text| - k
    {
      r := MatchHere(re, text[k..]);
      if r {
        return;
      }
      if k == |text| {
        break;
      }
      k := k + 1;
    }
  }
}
