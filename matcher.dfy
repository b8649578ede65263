/**
 * The matcher: every string in the flattened word list is compiled to a
 * pattern, each pattern is matched once against the text, and the
 * non-empty first matches are collected in word-list order.
 */
module Matcher {
  import opened PhpArrays
  import opened Compiler

  /**
   * The first match of a compiled pattern in a text (`preg_match` followed
   * by `$matches[0]`), or "" when the pattern does not match or the regex
   * engine fails. The engine itself is not part of this model.
   */
  type FirstMatch = (string, string) -> string

  /** The word list flattened to its leaves, keeping only the strings. */
  function WordsToTest(badWords: seq<Item>): seq<string>
  {
    Strings(Flatten(badWords))
  }

  /** One compiled pattern per word, in the same order. */
  function Profanities(words: seq<string>, exprs: seq<(char, string)>, separator: string): (r: seq<string>)
    ensures |r| == |words|
    ensures forall i :: 0 <= i < |r| ==> r[i] == ProfanityExpression(words[i], exprs, separator)
  {
    seq(|words|, i requires 0 <= i < |words| => ProfanityExpression(words[i], exprs, separator))
  }

  /** The non-empty first matches of the patterns, in pattern order. */
  function Matches(patterns: seq<string>, text: string, firstMatch: FirstMatch): (r: seq<string>)
    ensures |r| <= |patterns|
    ensures forall j :: 0 <= j < |r| ==> r[j] != ""
  {
    if patterns == [] then []
    else
      var m := firstMatch(patterns[0], text);
      (if m == "" then [] else [m]) + Matches(patterns[1..], text, firstMatch)
  }

  /** The positions of the patterns that match, in increasing order. */
  function MatchingPositions(patterns: seq<string>, text: string, firstMatch: FirstMatch): seq<nat>
  {
    if patterns == [] then []
    else
      (if firstMatch(patterns[0], text) == "" then [] else [0])
      + Shift(MatchingPositions(patterns[1..], text, firstMatch))
  }

  function Shift(s: seq<nat>): (r: seq<nat>)
    ensures |r| == |s| && forall j :: 0 <= j < |s| ==> r[j] == s[j] + 1
  {
    seq(|s|, j requires 0 <= j < |s| => s[j] + 1)
  }

  predicate StrictlyIncreasing(s: seq<nat>)
  {
    forall j, k :: 0 <= j < k < |s| ==> s[j] < s[k]
  }

  /** Each listed position's match is the entry at the same place. */
  predicate MatchedAt(pos: seq<nat>, r: seq<string>, patterns: seq<string>, text: string, firstMatch: FirstMatch)
  {
    |pos| == |r| && forall j :: 0 <= j < |pos| ==> pos[j] < |patterns| && r[j] == firstMatch(patterns[pos[j]], text)
  }

  lemma {:induction false} PositionsMatch(patterns: seq<string>, text: string, firstMatch: FirstMatch)
    ensures MatchedAt(MatchingPositions(patterns, text, firstMatch), Matches(patterns, text, firstMatch),
                      patterns, text, firstMatch)
  {
    if patterns != [] {
      PositionsMatch(patterns[1..], text, firstMatch);
      PositionsMatchStep(patterns, text, firstMatch);
    }
  }

  /** One more pattern in front: the positions of the rest move up by one. */
  lemma PositionsMatchStep(patterns: seq<string>, text: string, firstMatch: FirstMatch)
    requires patterns != []
    requires MatchedAt(MatchingPositions(patterns[1..], text, firstMatch), Matches(patterns[1..], text, firstMatch),
                       patterns[1..], text, firstMatch)
    ensures MatchedAt(MatchingPositions(patterns, text, firstMatch), Matches(patterns, text, firstMatch),
                      patterns, text, firstMatch)
  {
    var tail := patterns[1..];
    var pos' := MatchingPositions(tail, text, firstMatch);
    var r' := Matches(tail, text, firstMatch);
    var m := firstMatch(patterns[0], text);
    ShiftedMatchedAt(pos', r', patterns, text, firstMatch);
    if m == "" {
      assert MatchingPositions(patterns, text, firstMatch) == [] + Shift(pos') == Shift(pos');
      assert Matches(patterns, text, firstMatch) == [] + r' == r';
    } else {
      assert MatchingPositions(patterns, text, firstMatch) == [0] + Shift(pos');
      assert Matches(patterns, text, firstMatch) == [m] + r';
      ConsMatchedAt(Shift(pos'), r', patterns, text, firstMatch);
    }
  }

  lemma ShiftedMatchedAt(pos: seq<nat>, r: seq<string>, patterns: seq<string>, text: string, firstMatch: FirstMatch)
    requires patterns != [] && MatchedAt(pos, r, patterns[1..], text, firstMatch)
    ensures MatchedAt(Shift(pos), r, patterns, text, firstMatch)
  {
    forall j | 0 <= j < |pos| ensures Shift(pos)[j] < |patterns| && r[j] == firstMatch(patterns[Shift(pos)[j]], text) {
      assert patterns[1..][pos[j]] == patterns[pos[j] + 1];
    }
  }

  lemma ConsMatchedAt(pos: seq<nat>, r: seq<string>, patterns: seq<string>, text: string, firstMatch: FirstMatch)
    requires patterns != [] && MatchedAt(pos, r, patterns, text, firstMatch)
    ensures MatchedAt([0] + pos, [firstMatch(patterns[0], text)] + r, patterns, text, firstMatch)
  {
    assert forall j :: 1 <= j <= |pos| ==> ([0] + pos)[j] == pos[j - 1];
    assert forall j :: 1 <= j <= |pos| ==> ([firstMatch(patterns[0], text)] + r)[j] == r[j - 1];
  }

  /** Positions are listed in increasing order. */
  lemma {:induction false} PositionsIncrease(patterns: seq<string>, text: string, firstMatch: FirstMatch)
    ensures StrictlyIncreasing(MatchingPositions(patterns, text, firstMatch))
  {
    if patterns != [] {
      PositionsIncrease(patterns[1..], text, firstMatch);
    }
  }

  /** A position is listed if and only if its pattern yields a non-empty match. */
  lemma {:induction false} PositionsComplete(patterns: seq<string>, text: string, firstMatch: FirstMatch)
    ensures forall i :: 0 <= i < |patterns| ==>
      (i in MatchingPositions(patterns, text, firstMatch) <==> firstMatch(patterns[i], text) != "")
  {
    if patterns != [] {
      var tail := patterns[1..];
      PositionsComplete(tail, text, firstMatch);
      var pos' := MatchingPositions(tail, text, firstMatch);
      var sh := Shift(pos');
      var head: seq<nat> := if firstMatch(patterns[0], text) == "" then [] else [0];
      var pos := MatchingPositions(patterns, text, firstMatch);
      assert pos == head + sh;
      assert 0 !in sh;
      forall i | 1 <= i < |patterns| ensures (i in pos <==> firstMatch(patterns[i], text) != "") {
        assert tail[i - 1] == patterns[i];
        assert i in sh <==> i - 1 in pos';
        assert i !in head;
      }
    }
  }

  /**
   * The matches are exactly the non-empty first matches of the patterns,
   * at most one per pattern and in pattern order: they are the matches of
   * a strictly increasing list of positions, and a position is listed if
   * and only if its pattern yields a non-empty match.
   */
  lemma MatchesInOrder(patterns: seq<string>, text: string, firstMatch: FirstMatch)
    ensures var pos := MatchingPositions(patterns, text, firstMatch);
      var r := Matches(patterns, text, firstMatch);
      |pos| == |r| && StrictlyIncreasing(pos)
      && (forall j :: 0 <= j < |pos| ==> pos[j] < |patterns| && r[j] == firstMatch(patterns[pos[j]], text))
      && (forall i :: 0 <= i < |patterns| ==> (i in pos <==> firstMatch(patterns[i], text) != ""))
  {
    PositionsMatch(patterns, text, firstMatch);
    PositionsIncrease(patterns, text, firstMatch);
    PositionsComplete(patterns, text, firstMatch);
  }

  /** No match means no entry, and every entry is the match of one pattern. */
  lemma {:induction false} MatchesEmpty(patterns: seq<string>, text: string, firstMatch: FirstMatch)
    ensures Matches(patterns, text, firstMatch) == []
            <==> forall i :: 0 <= i < |patterns| ==> firstMatch(patterns[i], text) == ""
  {
    if patterns != [] {
      MatchesEmpty(patterns[1..], text, firstMatch);
      assert forall i :: 1 <= i < |patterns| ==> patterns[1..][i - 1] == patterns[i];
    }
  }

  lemma {:induction false} MatchesAppend(a: seq<string>, b: seq<string>, text: string, firstMatch: FirstMatch)
    ensures Matches(a + b, text, firstMatch) == Matches(a, text, firstMatch) + Matches(b, text, firstMatch)
  {
    if a == [] {
      assert a + b == b;
    } else {
      assert (a + b)[1..] == a[1..] + b;
      MatchesAppend(a[1..], b, text, firstMatch);
    }
  }

  /** One more entry of the flattened list: a pattern is added exactly when the entry is a string. */
  lemma ProfanitiesStep(vals: seq<Value>, i: nat, exprs: seq<(char, string)>, separator: string)
    requires i < |vals|
    ensures Profanities(Strings(vals[..i + 1]), exprs, separator)
            == Profanities(Strings(vals[..i]), exprs, separator)
               + (if vals[i].Str? then [ProfanityExpression(vals[i].s, exprs, separator)] else [])
  {
    assert vals[..i + 1] == vals[..i] + [vals[i]];
    StringsAppend(vals[..i], [vals[i]]);
    assert [vals[i]][1..] == [];
    assert Strings([vals[i]]) == (if vals[i].Str? then [vals[i].s] else []);
  }

  /** One more pattern: its match is added exactly when it is not empty. */
  lemma MatchesStep(patterns: seq<string>, i: nat, text: string, firstMatch: FirstMatch)
    requires i < |patterns|
    ensures Matches(patterns[..i + 1], text, firstMatch)
            == Matches(patterns[..i], text, firstMatch)
               + (if firstMatch(patterns[i], text) == "" then [] else [firstMatch(patterns[i], text)])
  {
    assert patterns[..i + 1] == patterns[..i] + [patterns[i]];
    MatchesAppend(patterns[..i], [patterns[i]], text, firstMatch);
    assert [patterns[i]][1..] == [];
  }

  /** `getDirtyWordsFromString`: the matches of the patterns of the string words. */
  function DirtyWords(badWords: seq<Item>, exprs: seq<(char, string)>, separator: string,
                      text: string, firstMatch: FirstMatch): seq<string>
  {
    Matches(Profanities(WordsToTest(badWords), exprs, separator), text, firstMatch)
  }

  /** `isADirtyString` / `strContainsBadWords`: the list of dirty words is not empty. */
  predicate IsDirtyString(badWords: seq<Item>, exprs: seq<(char, string)>, separator: string,
                          text: string, firstMatch: FirstMatch)
  {
    DirtyWords(badWords, exprs, separator, text, firstMatch) != []
  }

  /**
   * A text is dirty exactly when some string of the word list has a
   * compiled pattern with a non-empty first match in it.
   */
  lemma IsDirtyIffSomeWordMatches(badWords: seq<Item>, exprs: seq<(char, string)>, separator: string,
                                  text: string, firstMatch: FirstMatch)
    ensures var words := WordsToTest(badWords);
      IsDirtyString(badWords, exprs, separator, text, firstMatch)
      <==> exists i :: 0 <= i < |words| && firstMatch(ProfanityExpression(words[i], exprs, separator), text) != ""
  {
    var words := WordsToTest(badWords);
    var pats := Profanities(words, exprs, separator);
    MatchesEmpty(pats, text, firstMatch);
    if !IsDirtyString(badWords, exprs, separator, text, firstMatch) {
      forall i | 0 <= i < |words|
        ensures firstMatch(ProfanityExpression(words[i], exprs, separator), text) == ""
      {
        assert pats[i] == ProfanityExpression(words[i], exprs, separator);
      }
    } else {
      var i :| 0 <= i < |pats| && firstMatch(pats[i], text) != "";
      assert firstMatch(ProfanityExpression(words[i], exprs, separator), text) != "";
    }
  }

  /** The strings among a list of leaves are exactly its `Str` values, in order. */
  lemma {:induction false} StringsAreTheStrValues(vals: seq<Value>)
    ensures forall w :: w in Strings(vals) <==> Str(w) in vals
  {
    if vals != [] {
      StringsAreTheStrValues(vals[1..]);
      assert vals == [vals[0]] + vals[1..];
    }
  }

  /**
   * Entries of the word list that are not strings contribute no pattern:
   * adding one anywhere in the list changes nothing the matcher reports.
   */
  lemma NonStringsIgnored(before: seq<Item>, k: Key, blank: bool, after: seq<Item>,
                          exprs: seq<(char, string)>, separator: string, text: string, firstMatch: FirstMatch)
    ensures DirtyWords(before + [Item(k, Other(blank))] + after, exprs, separator, text, firstMatch)
            == DirtyWords(before + after, exprs, separator, text, firstMatch)
  {
    var x := [Item(k, Other(blank))];
    assert x[1..] == [];
    assert Flatten(x) == [Other(blank)];
    assert [Other(blank)][1..] == [];
    assert Strings([Other(blank)]) == [];
    FlattenAppend(before + x, after);
    FlattenAppend(before, x);
    FlattenAppend(before, after);
    StringsAppend(Flatten(before) + [Other(blank)], Flatten(after));
    StringsAppend(Flatten(before), [Other(blank)]);
    StringsAppend(Flatten(before), Flatten(after));
    assert Strings(Flatten(before) + [Other(blank)]) == Strings(Flatten(before));
    assert WordsToTest(before + x + after) == WordsToTest(before + after);
  }
}
