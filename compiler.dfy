/**
 * The pattern compiler: turns a word into the obfuscation-tolerant regular
 * expression the filter matches it with. Each lower-case letter becomes a
 * character class of its look-alike glyphs followed by a lazy run of
 * separator characters; everything else in the word is kept as it is.
 */
module Compiler {
  import opened PhpArrays
  import opened Text

  /** Marks where the separator expression goes in a letter's fragment. */
  const Placeholder: string := "{!!}"

  /** Separator pieces that are already regex syntax. */
  const EscapedSeparatorCharacters: seq<string> := ["\\s"]

  /** Characters allowed between the letters of a disguised word. */
  const SeparatorCharacters: seq<char> := "@#%&_;'\",~`|!$^*()-+={}[]:<>?./"

  /** Each letter with the glyphs a writer may use instead (one character each). */
  const CharacterSubstitutions: seq<(char, string)> := [
    ('a', "a4@ÁáÀÂàÂâÄäÃãÅåæÆαΔΛλ"),
    ('b', "b8\\3ßΒβ"),
    ('c', "cÇçćĆčČ¢€<({©"),
    ('d', "d\\)ÞþÐð"),
    ('e', "e3€ÈèÉéÊêëËēĒėĖęĘ∑"),
    ('f', "fƒ"),
    ('g', "g69"),
    ('h', "hΗ"),
    ('i', "i!|][1∫ÌÍÎÏìíîïīĪįĮ"),
    ('j', "j"),
    ('k', "kΚκ"),
    ('l', "l!|][£∫ÌÍÎÏłŁ"),
    ('m', "m"),
    ('n', "nηΝΠñÑńŃ"),
    ('o', "o0ΟοΦ¤°øôÔöÖòÒóÓœŒøØōŌõÕ"),
    ('p', "pρΡ¶þ"),
    ('q', "q"),
    ('r', "r®"),
    ('s', "s5$§ßŚśŠš"),
    ('t', "tΤτ"),
    ('u', "uυµûüùúūÛÜÙÚŪ"),
    ('v', "vυν"),
    ('w', "wωψΨ"),
    ('x', "xΧχ"),
    ('y', "y¥γÿýŸÝ"),
    ('z', "zΖžŽźŹżŻ")
  ]

  predicate IsLower(c: char)
  {
    'a' <= c <= 'z'
  }

  // ---------------------------------------------------------------------
  // preg_quote

  /** The characters `preg_quote($s, '/')` puts a backslash before. */
  predicate RegexSpecial(c: char)
  {
    || c == '.' || c == '\\' || c == '+' || c == '*' || c == '?' || c == '[' || c == '^'
    || c == ']' || c == '$' || c == '(' || c == ')' || c == '{' || c == '}' || c == '='
    || c == '!' || c == '<' || c == '>' || c == '|' || c == ':' || c == '-' || c == '#'
    || c == '/'
  }

  /** `preg_quote` of one character. */
  function QuoteChar(c: char): string
  {
    if c == '\0' then "\\000" else if RegexSpecial(c) then ['\\', c] else [c]
  }

  /** `preg_quote` of every character, concatenated. */
  function QuoteAll(s: string): string
  {
    if s == [] then [] else QuoteChar(s[0]) + QuoteAll(s[1..])
  }

  predicate IsOctal(c: char)
  {
    '0' <= c <= '7'
  }

  /** How many octal digits (at most three) open `s`. */
  function OctalRun(s: string): (n: nat)
    requires |s| >= 1 && IsOctal(s[0])
    ensures 1 <= n <= 3 && n <= |s|
    ensures forall i :: 0 <= i < n ==> IsOctal(s[i])
  {
    if |s| >= 2 && IsOctal(s[1]) then (if |s| >= 3 && IsOctal(s[2]) then 3 else 2) else 1
  }

  /** The number one to three octal digits denote. */
  function OctalValue(d: string): (v: nat)
    requires 1 <= |d| <= 3 && forall i :: 0 <= i < |d| ==> IsOctal(d[i])
    ensures v < 512
  {
    assert IsOctal(d[0]);
    var a := d[0] as int - '0' as int;
    if |d| == 1 then a
    else
      assert IsOctal(d[1]);
      var b := d[1] as int - '0' as int;
      if |d| == 2 then 8 * a + b
      else
        assert IsOctal(d[2]);
        64 * a + 8 * b + (d[2] as int - '0' as int)
  }

  /**
   * The characters a PCRE character-class body lists, read as PCRE reads it:
   * a backslash and up to three octal digits stand for the character with
   * that code, a backslash and any other character for that character, and
   * every other character for itself. (Letter escapes such as `\s`, which
   * stand for whole classes, do not occur in the bodies read here.)
   */
  function ClassMembers(q: string): string
    decreases |q|
  {
    if q == [] then []
    else if q[0] == '\\' && |q| >= 2 && IsOctal(q[1]) then
      var n := OctalRun(q[1..]);
      [OctalValue(q[1..1 + n]) as char] + ClassMembers(q[1 + n..])
    else if q[0] == '\\' && |q| >= 2 then [q[1]] + ClassMembers(q[2..])
    else [q[0]] + ClassMembers(q[1..])
  }

  /** PCRE reads one quoted character back and goes on with the rest. */
  lemma ClassMembersQuoteChar(c: char, rest: string)
    ensures ClassMembers(QuoteChar(c) + rest) == [c] + ClassMembers(rest)
  {
    var q := QuoteChar(c) + rest;
    if c == '\0' {
      assert q[1..][..3] == "000";
      assert OctalRun(q[1..]) == 3;
      assert q[1..4] == "000" && q[4..] == rest;
    } else if RegexSpecial(c) {
      assert q[0] == '\\' && q[1] == c && q[2..] == rest;
    } else {
      assert q[0] == c && q[1..] == rest;
    }
  }

  /** `preg_quote` loses nothing: PCRE reads back exactly the quoted characters. */
  lemma {:induction false} ClassMembersQuoteAll(s: string)
    ensures ClassMembers(QuoteAll(s)) == s
  {
    if s != [] {
      ClassMembersQuoteChar(s[0], QuoteAll(s[1..]));
      ClassMembersQuoteAll(s[1..]);
    }
  }

  /** Every `!` of a quoted string stands right after a backslash. */
  predicate BangsEscaped(q: string)
  {
    forall i :: 0 <= i < |q| && q[i] == '!' ==> i > 0 && q[i - 1] == '\\'
  }

  /** The lower-case letters of a string. */
  predicate LettersWithin(q: string, s: string)
  {
    forall i :: 0 <= i < |q| && IsLower(q[i]) ==> q[i] in s
  }

  /** Quoting escapes every `!` and adds no letter. */
  lemma {:induction false} QuoteAllShape(s: string)
    ensures BangsEscaped(QuoteAll(s))
    ensures LettersWithin(QuoteAll(s), s)
  {
    if s != [] {
      QuoteAllShape(s[1..]);
      var head, rest := QuoteChar(s[0]), QuoteAll(s[1..]);
      var q := head + rest;
      forall i | 0 <= i < |q| && q[i] == '!' ensures i > 0 && q[i - 1] == '\\' {
        if i >= |head| {
          assert rest[i - |head|] == '!';
        }
      }
      forall i | 0 <= i < |q| && IsLower(q[i]) ensures q[i] in s {
        if i >= |head| {
          assert rest[i - |head|] == q[i];
          assert q[i] in s[1..];
        }
      }
    }
  }

  // ---------------------------------------------------------------------
  // Character classes

  function Concat(parts: seq<string>): string
  {
    if parts == [] then [] else parts[0] + Concat(parts[1..])
  }

  /** `generateEscapedExpression`: a character class and its quantifier. */
  function EscapedExpression(chars: seq<char>, escaped: seq<string>, quantifier: string): string
  {
    "[" + Concat(escaped) + QuoteAll(chars) + "]" + quantifier
  }

  /** The separator class: whitespace or any separator character, lazily repeated. */
  function SeparatorExpression(): string
  {
    EscapedExpression(SeparatorCharacters, EscapedSeparatorCharacters, "*?")
  }

  /** The class of one letter's glyphs, at least once, lazily. */
  function LetterClass(subs: string): (r: string)
    ensures |r| >= 4 && r[0] == '[' && r[|r| - 3..] == "]+?"
    ensures ClassMembers(r[1..|r| - 3]) == subs
  {
    var q := QuoteAll(subs);
    var r := EscapedExpression(subs, [], "+?");
    assert r == "[" + q + "]+?";
    assert r[1..|r| - 3] == q;
    ClassMembersQuoteAll(subs);
    r
  }

  /** One entry of `generateCharacterExpressions`: the class, then the placeholder. */
  function CharacterExpression(subs: string): string
  {
    LetterClass(subs) + Placeholder
  }

  /** `generateCharacterExpressions`: one fragment per letter of the table, in order. */
  function CharacterExpressions(table: seq<(char, string)>): (r: seq<(char, string)>)
    ensures |r| == |table|
    ensures forall i :: 0 <= i < |r| ==> r[i] == (table[i].0, CharacterExpression(table[i].1))
  {
    if table == [] then []
    else [(table[0].0, CharacterExpression(table[0].1))] + CharacterExpressions(table[1..])
  }

  // ---------------------------------------------------------------------
  // Rewriting a word letter by letter

  /** The first fragment the table gives for `c`, if any. */
  function FragmentFor(c: char, table: seq<(char, string)>): Option<string>
  {
    if table == [] then None
    else if table[0].0 == c then Some(table[0].1)
    else FragmentFor(c, table[1..])
  }

  /** Each character of `w` replaced by its fragment, or kept when it has none. */
  function PerChar(w: string, table: seq<(char, string)>): string
  {
    if w == [] then []
    else
      (match FragmentFor(w[0], table) case Some(e) => e case None => [w[0]]) + PerChar(w[1..], table)
  }

  /** Replacing one letter literally by a fixed text. */
  function ReplaceChar(s: string, x: char, e: string): string
  {
    PerChar(s, [(x, e)])
  }

  /**
   * The table applied one entry after another, each to the output of the
   * one before (`preg_replace` with arrays of patterns and replacements),
   * with every replacement taken literally.
   */
  function RewriteSequential(s: string, table: seq<(char, string)>): string
    decreases |table|
  {
    if table == [] then s
    else RewriteSequential(ReplaceChar(s, table[0].0, table[0].1), table[1..])
  }

  /** No fragment contains a letter that a later entry rewrites. */
  predicate LaterKeysAbsent(table: seq<(char, string)>)
  {
    forall i, j :: 0 <= i < j < |table| ==> table[j].0 !in table[i].1
  }

  lemma {:induction false} PerCharAppend(a: string, b: string, table: seq<(char, string)>)
    ensures PerChar(a + b, table) == PerChar(a, table) + PerChar(b, table)
  {
    if a == [] {
      assert a + b == b;
    } else {
      assert (a + b)[0] == a[0] && (a + b)[1..] == a[1..] + b;
      PerCharAppend(a[1..], b, table);
    }
  }

  lemma {:induction false} FragmentForAbsent(c: char, table: seq<(char, string)>)
    requires forall j :: 0 <= j < |table| ==> table[j].0 != c
    ensures FragmentFor(c, table) == None
  {
    if table != [] {
      FragmentForAbsent(c, table[1..]);
    }
  }

  /** A text none of whose characters has a fragment is left as it is. */
  lemma {:induction false} PerCharIdentity(t: string, table: seq<(char, string)>)
    requires forall j :: 0 <= j < |table| ==> table[j].0 !in t
    ensures PerChar(t, table) == t
  {
    if t != [] {
      FragmentForAbsent(t[0], table);
      PerCharIdentity(t[1..], table);
    }
  }

  /** Rewriting with the first entry, then the rest, is rewriting with all. */
  lemma {:induction false} PerCharStep(s: string, table: seq<(char, string)>)
    requires |table| > 0 && LaterKeysAbsent(table)
    ensures PerChar(ReplaceChar(s, table[0].0, table[0].1), table[1..]) == PerChar(s, table)
  {
    if s != [] {
      var k, e := table[0].0, table[0].1;
      var head := if s[0] == k then e else [s[0]];
      assert FragmentFor(s[0], [(k, e)]) == if s[0] == k then Some(e) else None;
      assert ReplaceChar(s, k, e) == head + ReplaceChar(s[1..], k, e);
      PerCharAppend(head, ReplaceChar(s[1..], k, e), table[1..]);
      PerCharStep(s[1..], table);
      if s[0] == k {
        PerCharIdentity(e, table[1..]);
      } else {
        assert [s[0]][1..] == [];
      }
    }
  }

  /**
   * Applying the table entry by entry equals mapping each character once,
   * provided no fragment contains a letter a later entry would rewrite.
   */
  lemma {:induction false} SequentialIsPerChar(s: string, table: seq<(char, string)>)
    requires LaterKeysAbsent(table)
    ensures RewriteSequential(s, table) == PerChar(s, table)
    decreases |table|
  {
    if table == [] {
      PerCharIdentity(s, table);
    } else {
      SequentialIsPerChar(ReplaceChar(s, table[0].0, table[0].1), table[1..]);
      PerCharStep(s, table);
    }
  }

  // ---------------------------------------------------------------------
  // The substitution table is well formed

  /** `s` names no lower-case letter other than `c`. */
  predicate OwnLetters(c: char, s: string)
  {
    forall i :: 0 <= i < |s| && IsLower(s[i]) ==> s[i] == c
  }

  /**
   * Entry `i` is keyed by a lower-case letter that is below the next entry's
   * key, and its glyph list names no lower-case letter but its own.
   */
  predicate EntryWellFormed(table: seq<(char, string)>, i: int)
    requires 0 <= i < |table|
  {
    IsLower(table[i].0) && OwnLetters(table[i].0, table[i].1)
    && (i + 1 < |table| ==> table[i].0 < table[i + 1].0)
  }

  /** Every entry is well formed; the keys therefore strictly ascend. */
  predicate WellFormedTable(table: seq<(char, string)>)
  {
    forall i :: 0 <= i < |table| ==> EntryWellFormed(table, i)
  }

  lemma GlyphsWellFormedAC()
    ensures forall i :: 0 <= i < 3 ==> EntryWellFormed(CharacterSubstitutions, i)
  {
    GlyphsWellFormedA();
    GlyphsWellFormedBC();
  }

  lemma GlyphsWellFormedA()
    ensures EntryWellFormed(CharacterSubstitutions, 0)
  {
  }

  lemma GlyphsWellFormedBC()
    ensures EntryWellFormed(CharacterSubstitutions, 1) && EntryWellFormed(CharacterSubstitutions, 2)
  {
  }

  lemma GlyphsWellFormedDF()
    ensures forall i :: 3 <= i < 6 ==> EntryWellFormed(CharacterSubstitutions, i)
  {
    assert EntryWellFormed(CharacterSubstitutions, 3);
    assert EntryWellFormed(CharacterSubstitutions, 4);
    assert EntryWellFormed(CharacterSubstitutions, 5);
  }

  lemma GlyphsWellFormedGI()
    ensures forall i :: 6 <= i < 9 ==> EntryWellFormed(CharacterSubstitutions, i)
  {
    assert EntryWellFormed(CharacterSubstitutions, 6);
    assert EntryWellFormed(CharacterSubstitutions, 7);
    assert EntryWellFormed(CharacterSubstitutions, 8);
  }

  lemma GlyphsWellFormedJL()
    ensures forall i :: 9 <= i < 12 ==> EntryWellFormed(CharacterSubstitutions, i)
  {
    assert EntryWellFormed(CharacterSubstitutions, 9);
    assert EntryWellFormed(CharacterSubstitutions, 10);
    assert EntryWellFormed(CharacterSubstitutions, 11);
  }

  lemma GlyphsWellFormedMO()
    ensures forall i :: 12 <= i < 15 ==> EntryWellFormed(CharacterSubstitutions, i)
  {
    assert EntryWellFormed(CharacterSubstitutions, 12);
    assert EntryWellFormed(CharacterSubstitutions, 13);
    assert EntryWellFormed(CharacterSubstitutions, 14);
  }

  lemma GlyphsWellFormedPR()
    ensures forall i :: 15 <= i < 18 ==> EntryWellFormed(CharacterSubstitutions, i)
  {
    assert EntryWellFormed(CharacterSubstitutions, 15);
    assert EntryWellFormed(CharacterSubstitutions, 16);
    assert EntryWellFormed(CharacterSubstitutions, 17);
  }

  lemma GlyphsWellFormedSX()
    ensures forall i :: 18 <= i < 24 ==> EntryWellFormed(CharacterSubstitutions, i)
  {
    assert EntryWellFormed(CharacterSubstitutions, 18);
    assert EntryWellFormed(CharacterSubstitutions, 19);
    assert EntryWellFormed(CharacterSubstitutions, 20);
    assert EntryWellFormed(CharacterSubstitutions, 21);
    assert EntryWellFormed(CharacterSubstitutions, 22);
    assert EntryWellFormed(CharacterSubstitutions, 23);
  }

  lemma GlyphsWellFormedYZ()
    ensures forall i :: 24 <= i < 26 ==> EntryWellFormed(CharacterSubstitutions, i)
  {
    assert EntryWellFormed(CharacterSubstitutions, 24);
    assert EntryWellFormed(CharacterSubstitutions, 25);
  }

  lemma SubstitutionTableWellFormed()
    ensures WellFormedTable(CharacterSubstitutions)
  {
    GlyphsWellFormedAC();
    GlyphsWellFormedDF();
    GlyphsWellFormedGI();
    GlyphsWellFormedJL();
    GlyphsWellFormedMO();
    GlyphsWellFormedPR();
    GlyphsWellFormedSX();
    GlyphsWellFormedYZ();
  }

  /** The keys of a well-formed table ascend, so no two entries share a key. */
  lemma {:induction false} KeysAscend(table: seq<(char, string)>, i: int, j: int)
    requires WellFormedTable(table) && 0 <= i < j < |table|
    ensures table[i].0 < table[j].0
    decreases j - i
  {
    assert EntryWellFormed(table, i);
    if i + 1 < j {
      KeysAscend(table, i + 1, j);
    }
  }

  lemma WellFormedAt(table: seq<(char, string)>, i: int)
    requires WellFormedTable(table) && 0 <= i < |table|
    ensures IsLower(table[i].0)
    ensures forall k :: 0 <= k < |table[i].1| && IsLower(table[i].1[k]) ==> table[i].1[k] == table[i].0
    ensures forall j :: 0 <= j < |table| && j != i ==> table[j].0 != table[i].0
  {
    assert EntryWellFormed(table, i);
    forall j | 0 <= j < |table| && j != i ensures table[j].0 != table[i].0 {
      if i < j {
        KeysAscend(table, i, j);
      } else {
        KeysAscend(table, j, i);
      }
    }
  }

  /** A letter class with its placeholder names no lower-case letter beyond its glyphs. */
  lemma CharacterExpressionLetters(subs: string)
    ensures LettersWithin(CharacterExpression(subs), subs)
  {
    var q := QuoteAll(subs);
    QuoteAllShape(subs);
    var e := CharacterExpression(subs);
    assert e == "[" + q + "]+?" + Placeholder;
    forall k | 0 <= k < |e| && IsLower(e[k]) ensures e[k] in subs {
      assert 1 <= k <= |q| && e[k] == q[k - 1];
    }
  }

  /** A letter that is not `own` is absent from a text whose letters all come from `own`'s glyphs. */
  lemma ForeignLetterAbsent(e: string, subs: string, own: char, x: char)
    requires LettersWithin(e, subs) && OwnLetters(own, subs)
    requires IsLower(x) && x != own
    ensures x !in e
  {
    forall k | 0 <= k < |e| ensures e[k] != x {
      if IsLower(e[k]) {
        var m :| 0 <= m < |subs| && subs[m] == e[k];
      }
    }
  }

  /** The fragments of a well-formed table may be applied one after another. */
  lemma CharacterExpressionsSequential(table: seq<(char, string)>)
    requires WellFormedTable(table)
    ensures LaterKeysAbsent(CharacterExpressions(table))
  {
    var exprs := CharacterExpressions(table);
    forall i, j | 0 <= i < j < |exprs| ensures exprs[j].0 !in exprs[i].1 {
      WellFormedAt(table, i);
      WellFormedAt(table, j);
      CharacterExpressionLetters(table[i].1);
      ForeignLetterAbsent(exprs[i].1, table[i].1, table[i].0, table[j].0);
    }
  }

  /** A one-character text other than `{` does not half-end with the placeholder. */
  lemma NoPartialSuffixSingle(c: char)
    requires c != '{'
    ensures NoPartialSuffix([c], Placeholder)
  {
    assert [c][1 - 1..] == [c];
    assert Placeholder[..1] == "{";
  }

  // ---------------------------------------------------------------------
  // The compiled pattern

  /**
   * `generateProfanityExpression` with the letter fragments substituted
   * literally: the word rewritten, wrapped in `/.../i`, and every
   * placeholder replaced by the separator expression.
   */
  function ProfanityExpression(word: string, exprs: seq<(char, string)>, separator: string): string
  {
    ReplaceAll("/" + RewriteSequential(word, exprs) + "/i", Placeholder, separator)
  }

  /** What a letter becomes in the finished pattern: its class, then the separators. */
  function Fragments(table: seq<(char, string)>, separator: string): (r: seq<(char, string)>)
    ensures |r| == |table|
    ensures forall i :: 0 <= i < |r| ==> r[i] == (table[i].0, LetterClass(table[i].1) + separator)
  {
    if table == [] then []
    else [(table[0].0, LetterClass(table[0].1) + separator)] + Fragments(table[1..], separator)
  }

  lemma {:induction false} FragmentForMaps(c: char, table: seq<(char, string)>, separator: string)
    ensures FragmentFor(c, CharacterExpressions(table)).None? <==> FragmentFor(c, table).None?
    ensures FragmentFor(c, Fragments(table, separator)).None? <==> FragmentFor(c, table).None?
    ensures FragmentFor(c, table).Some? ==>
      FragmentFor(c, CharacterExpressions(table)) == Some(CharacterExpression(FragmentFor(c, table).value))
      && FragmentFor(c, Fragments(table, separator)) == Some(LetterClass(FragmentFor(c, table).value) + separator)
  {
    if table != [] {
      FragmentForMaps(c, table[1..], separator);
      assert CharacterExpressions(table)[1..] == CharacterExpressions(table[1..]);
      assert Fragments(table, separator)[1..] == Fragments(table[1..], separator);
    }
  }

  /** A letter class holds no placeholder and no partial one at its end. */
  lemma LetterClassHasNoPlaceholder(subs: string)
    ensures !Occurs(LetterClass(subs), Placeholder)
    ensures NoPartialSuffix(LetterClass(subs), Placeholder)
  {
    var q := QuoteAll(subs);
    assert LetterClass(subs) == ("[" + q) + "]+?";
    QuoteAllShape(subs);
    ClassWithoutPlaceholder(q);
    EndsWithQuantifier("[" + q);
  }

  /** A bracketed class whose every `!` is escaped holds no placeholder. */
  lemma ClassWithoutPlaceholder(q: string)
    requires BangsEscaped(q)
    ensures !Occurs("[" + q + "]+?", Placeholder)
  {
    var c := "[" + q + "]+?";
    forall i | 0 <= i <= |c| - 4 ensures !OccursAt(c, Placeholder, i) {
      assert c[i..i + 4][0] == c[i] && c[i..i + 4][1] == c[i + 1];
      if c[i + 1] == '!' {
        assert 1 <= i + 1 <= |q| && q[i] == c[i + 1];
        assert c[i] == q[i - 1] == '\\';
      }
    }
  }

  /** A text ending with the lazy quantifier `]+?` does not half-end with the placeholder. */
  lemma EndsWithQuantifier(x: string)
    ensures NoPartialSuffix(x + "]+?", Placeholder)
  {
    var e := x + "]+?";
    forall k | 1 <= k < |Placeholder| && k <= |e| ensures e[|e| - k..] != Placeholder[..k] {
      assert e[|e| - k..][0] == "]+?"[3 - k] != '{';
      assert Placeholder[..k][0] == '{';
    }
  }

  /** The placeholder following a letter class becomes the separator expression. */
  lemma FragmentPlaceholder(subs: string, separator: string)
    ensures ReplaceAll(CharacterExpression(subs), Placeholder, separator) == LetterClass(subs) + separator
    ensures NoPartialSuffix(CharacterExpression(subs), Placeholder)
  {
    var c := LetterClass(subs);
    LetterClassHasNoPlaceholder(subs);
    ReplaceAllSplit(c, Placeholder, Placeholder, separator);
    ReplaceAllAbsent(c, Placeholder, separator);
    ReplaceAllLeading(Placeholder, "", separator);
    assert Placeholder + "" == Placeholder;
    EndsWithPlaceholder(c);
  }

  /** A text that ends with the placeholder does not half-end with it. */
  lemma EndsWithPlaceholder(x: string)
    ensures NoPartialSuffix(x + Placeholder, Placeholder)
  {
    var e := x + Placeholder;
    forall k | 1 <= k < |Placeholder| && k <= |e| ensures e[|e| - k..] != Placeholder[..k] {
      assert e[|e| - k..][0] == Placeholder[4 - k] != '{';
      assert Placeholder[..k][0] == '{';
    }
  }

  /**
   * Substituting the placeholders in the per-letter rewrite of a word in
   * which the placeholder text does not occur: each letter's placeholder
   * becomes the separator expression, and nothing else changes.
   */
  lemma {:induction false} PlaceholdersResolved(w: string, table: seq<(char, string)>, separator: string)
    requires !Occurs(w, Placeholder)
    ensures ReplaceAll(PerChar(w, CharacterExpressions(table)), Placeholder, separator)
            == PerChar(w, Fragments(table, separator))
  {
    var exprs := CharacterExpressions(table);
    if w != [] {
      FragmentForMaps(w[0], table, separator);
      var head := match FragmentFor(w[0], exprs) case Some(e) => e case None => [w[0]];
      var rest := PerChar(w[1..], exprs);
      assert PerChar(w, exprs) == head + rest;
      if FragmentFor(w[0], table).Some? {
        FragmentPlaceholder(FragmentFor(w[0], table).value, separator);
        assert head == CharacterExpression(FragmentFor(w[0], table).value);
        ReplaceAllSplit(head, rest, Placeholder, separator);
      } else {
        assert head == [w[0]];
        assert !Occurs(head, Placeholder);
        ReplaceAllAbsent(head, Placeholder, separator);
        LeadingPlaceholder(w, table);
        assert !OccursAt(w, Placeholder, 0);
        ReplaceAllSplitUnstraddled(head, rest, Placeholder, separator);
      }
      forall i | 0 <= i <= |w[1..]| - |Placeholder| ensures !OccursAt(w[1..], Placeholder, i) {
        OccursShift(w, 1, Placeholder, i);
      }
      PlaceholdersResolved(w[1..], table, separator);
    }
  }

  /**
   * A character kept as it is, followed by the rewrite of the rest, starts
   * a placeholder only where the word itself starts with one.
   */
  lemma LeadingPlaceholder(w: string, table: seq<(char, string)>)
    requires w != []
    ensures OccursAt([w[0]] + PerChar(w[1..], CharacterExpressions(table)), Placeholder, 0) ==> OccursAt(w, Placeholder, 0)
  {
    var rest := PerChar(w[1..], CharacterExpressions(table));
    var s := [w[0]] + rest;
    if OccursAt(s, Placeholder, 0) {
      assert s[1..4] == rest[..3] == "!!}";
      PerCharStartsWith(w[1..], table, "!!}");
      assert w[..4] == [w[0]] + w[1..][..3];
    }
  }

  /** What one character of a word becomes: a letter class, or the character itself. */
  lemma PerCharHead(c: char, table: seq<(char, string)>)
    ensures var h := match FragmentFor(c, CharacterExpressions(table)) case Some(e) => e case None => [c];
      (|h| > 0 && h[0] == '[') || h == [c]
  {
    FragmentForMaps(c, table, "");
  }

  /**
   * The rewrite of a word starts with a text free of `[` only where the
   * word itself does: a letter class always opens with `[`.
   */
  lemma {:induction false} PerCharStartsWith(t: string, table: seq<(char, string)>, x: string)
    requires '[' !in x
    ensures |PerChar(t, CharacterExpressions(table))| >= |x| && PerChar(t, CharacterExpressions(table))[..|x|] == x
            ==> |t| >= |x| && t[..|x|] == x
  {
    var exprs := CharacterExpressions(table);
    if x != [] && |PerChar(t, exprs)| >= |x| && PerChar(t, exprs)[..|x|] == x {
      assert t != [];
      PerCharHead(t[0], table);
      var head := match FragmentFor(t[0], exprs) case Some(e) => e case None => [t[0]];
      var rest := PerChar(t[1..], exprs);
      assert PerChar(t, exprs) == head + rest;
      assert x[0] == head[0] && x[0] in x;
      assert head == [t[0]];
      assert rest[..|x| - 1] == x[1..];
      PerCharStartsWith(t[1..], table, x[1..]);
      assert t[..|x|] == [t[0]] + t[1..][..|x| - 1];
    }
  }

  /**
   * The compiled pattern of a word in which the placeholder text does not
   * occur: `/`, then each lower-case letter with a table entry as its glyph
   * class (which lists exactly that letter's glyphs), a lazy `+?` and the
   * separator expression, every other character unchanged, then `/i`.
   */
  lemma ProfanityExpressionShape(w: string, table: seq<(char, string)>, separator: string)
    requires WellFormedTable(table) && !Occurs(w, Placeholder)
    ensures ProfanityExpression(w, CharacterExpressions(table), separator)
            == "/" + PerChar(w, Fragments(table, separator)) + "/i"
  {
    var exprs := CharacterExpressions(table);
    CharacterExpressionsSequential(table);
    SequentialIsPerChar(w, exprs);
    ReplaceInsideDelimiters(PerChar(w, exprs), separator);
    PlaceholdersResolved(w, table, separator);
  }

  /**
   * The placeholder text written in a word is not kept: it is replaced by
   * the separator expression like the placeholders of the letter classes.
   */
  lemma PlaceholderInWord(table: seq<(char, string)>, separator: string)
    requires WellFormedTable(table)
    ensures ProfanityExpression(Placeholder, CharacterExpressions(table), separator) == "/" + separator + "/i"
  {
    var exprs := CharacterExpressions(table);
    CharacterExpressionsSequential(table);
    SequentialIsPerChar(Placeholder, exprs);
    forall j | 0 <= j < |exprs| ensures exprs[j].0 !in Placeholder {
      WellFormedAt(table, j);
    }
    PerCharIdentity(Placeholder, exprs);
    ReplaceInsideDelimiters(Placeholder, separator);
    ReplaceAllLeading(Placeholder, [], separator);
    assert Placeholder + [] == Placeholder;
  }

  /** Replacing placeholders in `/body/i` leaves the delimiters and the flag alone. */
  lemma ReplaceInsideDelimiters(body: string, separator: string)
    ensures ReplaceAll("/" + body + "/i", Placeholder, separator)
            == "/" + ReplaceAll(body, Placeholder, separator) + "/i"
  {
    NoPartialSuffixSingle('/');
    ReplaceAllSplit("/", body + "/i", Placeholder, separator);
    ReplaceAllAbsent("/", Placeholder, separator);
    assert "/" + body + "/i" == "/" + (body + "/i");
    ClosingDelimiter(body);
    ReplaceAllSplitUnstraddled(body, "/i", Placeholder, separator);
    ReplaceAllAbsent("/i", Placeholder, separator);
  }

  /** No placeholder runs into the closing `/i`: its first character is `/`, not `!` or `}`. */
  lemma ClosingDelimiter(body: string)
    ensures Unstraddled(body, "/i", Placeholder)
  {
    var s := body + "/i";
    forall i | 0 <= i < |body| < i + |Placeholder| ensures !OccursAt(s, Placeholder, i) {
      if i + |Placeholder| <= |s| {
        assert s[i..i + |Placeholder|][|body| - i] == s[|body|] == '/';
      }
    }
  }

  // ---------------------------------------------------------------------
  // As written: `preg_replace` reads its replacement text

  /**
   * A back-reference at the start of a replacement text that opens with `\`
   * or `$`: `\d`, `\dd`, `$d`, `$dd`, `${d}` or `${dd}`. Gives the group
   * number and how many characters the reference takes.
   */
  function Backref(rep: string): (r: Option<(nat, nat)>)
    requires |rep| > 0
    ensures r.Some? ==> 2 <= r.value.1 <= |rep|
  {
    var brace := rep[0] == '$' && |rep| > 1 && rep[1] == '{';
    var i := if brace then 2 else 1;
    if i < |rep| && IsDigit(rep[i]) then
      var d1 := rep[i] as int - '0' as int;
      var two := i + 1 < |rep| && IsDigit(rep[i + 1]);
      var n := if two then d1 * 10 + (rep[i + 1] as int - '0' as int) else d1;
      var j := if two then i + 2 else i + 1;
      if !brace then Some((n, j))
      else if j < |rep| && rep[j] == '}' then Some((n, j + 1))
      else None
    else None
  }

  /**
   * The text `preg_replace` writes for one match of a pattern without
   * capture groups: `\\` and `\$` become `\` and `$`, a back-reference to
   * group 0 becomes the matched text `m` and one to any other group becomes
   * nothing, and every other character is copied.
   */
  function Expand(rep: string, m: string): string
    decreases |rep|
  {
    if rep == [] then []
    else if (rep[0] == '\\' || rep[0] == '$') && Backref(rep).Some? then
      var (n, len) := Backref(rep).value;
      (if n == 0 then m else []) + Expand(rep[len..], m)
    else if rep[0] == '\\' && |rep| >= 2 && (rep[1] == '\\' || rep[1] == '$') then
      [rep[1]] + Expand(rep[2..], m)
    else [rep[0]] + Expand(rep[1..], m)
  }

  /**
   * The table applied one entry after another as `preg_replace` applies
   * it: pattern `/x/` matches the letter `x`, and each replacement text is
   * read as above.
   */
  function RewriteAsWritten(s: string, table: seq<(char, string)>): string
    decreases |table|
  {
    if table == [] then s
    else RewriteAsWritten(ReplaceChar(s, table[0].0, Expand(table[0].1, [table[0].0])), table[1..])
  }

  /** `generateProfanityExpression` exactly as written. */
  function ProfanityExpressionAsWritten(word: string, exprs: seq<(char, string)>, separator: string): string
  {
    ReplaceAll("/" + RewriteAsWritten(word, exprs) + "/i", Placeholder, separator)
  }

  /** The table with every replacement text read the way `preg_replace` reads it. */
  function ExpandedTable(table: seq<(char, string)>): (r: seq<(char, string)>)
    ensures |r| == |table|
    ensures forall i :: 0 <= i < |r| ==> r[i] == (table[i].0, Expand(table[i].1, [table[i].0]))
  {
    if table == [] then []
    else [(table[0].0, Expand(table[0].1, [table[0].0]))] + ExpandedTable(table[1..])
  }

  lemma {:induction false} RewriteAsWrittenIsSequential(s: string, table: seq<(char, string)>)
    ensures RewriteAsWritten(s, table) == RewriteSequential(s, ExpandedTable(table))
    decreases |table|
  {
    if table != [] {
      assert ExpandedTable(table)[1..] == ExpandedTable(table[1..]);
      RewriteAsWrittenIsSequential(ReplaceChar(s, table[0].0, Expand(table[0].1, [table[0].0])), table[1..]);
    }
  }

  /** A text with neither `\` nor `$` is copied unchanged. */
  lemma {:induction false} ExpandPlain(a: string, b: string, m: string)
    requires '\\' !in a && '$' !in a
    ensures Expand(a + b, m) == a + Expand(b, m)
  {
    if a == [] {
      assert a + b == b;
    } else {
      var rep := a + b;
      assert rep[0] == a[0] && rep[1..] == a[1..] + b;
      assert a[0] in a;
      assert '\\' !in a[1..] && '$' !in a[1..] by {
        assert forall x :: x in a[1..] ==> x in a;
      }
      ExpandPlain(a[1..], b, m);
      assert Expand(rep, m) == [a[0]] + Expand(rep[1..], m);
    }
  }

  /** `\\` and `\$` lose their backslash. */
  lemma ExpandPair(c: char, b: string, m: string)
    requires c == '\\' || c == '$'
    ensures Expand(['\\', c] + b, m) == [c] + Expand(b, m)
  {
    var rep := ['\\', c] + b;
    assert Backref(rep).None?;
    assert rep[2..] == b;
  }

  /** A backslash before a character that is neither a digit, `\` nor `$` is kept. */
  lemma ExpandLoneBackslash(c: char, b: string, m: string)
    requires !IsDigit(c) && c != '\\' && c != '$'
    ensures Expand(['\\', c] + b, m) == ['\\'] + Expand([c] + b, m)
  {
    var rep := ['\\', c] + b;
    assert Backref(rep).None?;
    assert rep[1..] == [c] + b;
  }

  /** Text that `preg_quote` leaves alone and `preg_replace` copies as it is. */
  predicate Plain(s: string)
  {
    forall i :: 0 <= i < |s| ==> !RegexSpecial(s[i]) && s[i] != '\0'
  }

  lemma PlainHasNoEscape(s: string)
    requires Plain(s)
    ensures '\\' !in s && '$' !in s
  {
    forall i | 0 <= i < |s| ensures s[i] != '\\' && s[i] != '$' {
      assert !RegexSpecial(s[i]);
    }
  }

  /** The quoted form of glyphs with one special character inside. */
  lemma QuoteSplice(pre: string, c: char, post: string)
    requires Plain(pre) && Plain(post) && RegexSpecial(c)
    ensures QuoteAll(pre + [c] + post) == pre + ['\\', c] + post
  {
    assert pre + [c] + post == pre + ([c] + post);
    QuoteAllPlain(pre, [c] + post);
    assert ([c] + post)[1..] == post;
    QuoteAllPlain(post, []);
    assert post + [] == post;
  }

  /** A letter class around a given body, followed by the placeholder. */
  function Bracketed(body: string): (r: string)
    ensures r == "[" + body + "]+?" + Placeholder
  {
    "[" + body + "]+?" + Placeholder
  }

  /** A letter's fragment is its quoted glyphs in brackets. */
  lemma CharacterExpressionBracketed(subs: string)
    ensures CharacterExpression(subs) == Bracketed(QuoteAll(subs))
  {
    assert Concat([]) == "";
    assert EscapedExpression(subs, [], "+?") == "[" + QuoteAll(subs) + "]+?";
  }

  /** `\\` or `\$` amid text without `\` or `$` collapses to its second character. */
  lemma ExpandCollapse(pre: string, c: char, post: string, m: string)
    requires '\\' !in pre && '$' !in pre && '\\' !in post && '$' !in post
    requires c == '\\' || c == '$'
    ensures Expand(pre + ['\\', c] + post, m) == pre + [c] + post
  {
    assert pre + ['\\', c] + post == pre + (['\\', c] + post);
    ExpandPlain(pre, ['\\', c] + post, m);
    ExpandPair(c, post, m);
    ExpandPlain(post, [], m);
    assert post + [] == post;
    assert pre + [c] + post == pre + ([c] + post);
  }

  /** PCRE reads `\` and an octal digit in a class as the character with that code. */
  lemma MembersOctal(pre: string, d: char, post: string)
    requires '\\' !in pre && '\\' !in post && IsOctal(d)
    requires post == [] || !IsOctal(post[0])
    ensures ClassMembers(pre + ['\\', d] + post) == pre + [OctalValue([d]) as char] + post
  {
    var q := ['\\', d] + post;
    var c := OctalValue([d]) as char;
    assert pre + ['\\', d] + post == pre + q;
    ClassMembersPlain(pre, q);
    MembersOctalHead(d, post);
    ClassMembersNoEscape(post);
    assert pre + [c] + post == pre + ([c] + post);
  }

  /** A text without backslashes is read back as itself. */
  lemma ClassMembersNoEscape(s: string)
    requires '\\' !in s
    ensures ClassMembers(s) == s
  {
    ClassMembersPlain(s, []);
    assert s + [] == s;
  }

  /** PCRE reads `\` and a character that is not an octal digit as that character. */
  lemma MembersEscaped(pre: string, c: char, post: string)
    requires '\\' !in pre && '\\' !in post && !IsOctal(c)
    ensures ClassMembers(pre + ['\\', c] + post) == pre + [c] + post
  {
    var q := ['\\', c] + post;
    assert pre + ['\\', c] + post == pre + q;
    ClassMembersPlain(pre, q);
    assert q[2..] == post;
    ClassMembersNoEscape(post);
    assert pre + [c] + post == pre + ([c] + post);
  }

  /**
   * As written, a fragment whose glyphs hold one `\` or `$` differs from the
   * intended fragment only by losing the backslash that quoting put before it.
   */
  lemma FragmentWithEscape(pre: string, c: char, post: string, x: char)
    requires Plain(pre) && Plain(post) && (c == '\\' || c == '$')
    ensures CharacterExpression(pre + [c] + post) == Bracketed(pre + ['\\', c] + post)
    ensures Expand(CharacterExpression(pre + [c] + post), [x]) == Bracketed(pre + [c] + post)
  {
    var head := "[" + pre;
    var tail := post + "]+?" + Placeholder;
    assert CharacterExpression(pre + [c] + post) == Bracketed(pre + ['\\', c] + post) by {
      CharacterExpressionBracketed(pre + [c] + post);
      QuoteSplice(pre, c, post);
    }
    Wrap(pre, ['\\', c], post);
    Wrap(pre, [c], post);
    assert '\\' !in head && '$' !in head by {
      PlainHasNoEscape(pre);
    }
    assert '\\' !in tail && '$' !in tail by {
      PlainHasNoEscape(post);
    }
    ExpandCollapse(head, c, tail, [x]);
  }

  lemma Splice(pre: string, a: string, b: string, post: string)
    ensures pre + a + (b + post) == pre + (a + b) + post
  {
  }

  lemma SpliceTwo(pre: string, c: char, d: char, post: string)
    ensures pre + [c] + ([d] + post) == pre + [c, d] + post
  {
  }

  /**
   * A backslash followed by an octal digit among a letter's glyphs: as
   * written, `preg_replace` turns the quoted `\\` into a single `\`, and
   * PCRE then reads that `\` and the digit as the character with the
   * digit's code, so neither glyph stands for the letter any more.
   */
  lemma AsWrittenBackslashDigit(pre: string, d: char, post: string, x: char)
    requires Plain(pre) && Plain(post) && IsOctal(d)
    requires post == [] || !IsOctal(post[0])
    ensures Expand(CharacterExpression(pre + ['\\', d] + post), [x]) == Bracketed(pre + ['\\', d] + post)
    ensures ClassMembers(pre + ['\\', d] + post) == pre + [OctalValue([d]) as char] + post
  {
    var rest := [d] + post;
    assert Plain(rest) by {
      assert forall i :: 1 <= i < |rest| ==> rest[i] == post[i - 1];
    }
    assert pre + ['\\', d] + post == pre + ['\\'] + rest;
    FragmentWithEscape(pre, '\\', rest, x);
    MembersOctal(pre, d, post);
  }

  /** An escaped backslash before an escaped `)`: the first pair collapses, the second stays. */
  lemma ExpandBackslashParen(pre: string, tail: string, m: string)
    requires '\\' !in pre && '$' !in pre && '\\' !in tail && '$' !in tail
    ensures Expand(pre + ['\\', '\\', '\\', ')'] + tail, m) == pre + ['\\', '\\', ')'] + tail
  {
    ExpandPlain(pre, ['\\', '\\', '\\', ')'] + tail, m);
    ExpandBackslashParenHead(tail, m);
    assert pre + ['\\', '\\', '\\', ')'] + tail == pre + (['\\', '\\', '\\', ')'] + tail);
    assert pre + ['\\', '\\', ')'] + tail == pre + (['\\', '\\', ')'] + tail);
  }

  /** The same with nothing before the backslashes. */
  lemma ExpandBackslashParenHead(tail: string, m: string)
    requires '\\' !in tail && '$' !in tail
    ensures Expand(['\\', '\\', '\\', ')'] + tail, m) == ['\\', '\\', ')'] + tail
  {
    assert ['\\', '\\', '\\', ')'] + tail == ['\\', '\\'] + (['\\', ')'] + tail);
    ExpandPair('\\', ['\\', ')'] + tail, m);
    ExpandLoneBackslash(')', tail, m);
    assert '\\' !in [')'] + tail && '$' !in [')'] + tail;
    ExpandPlain([')'] + tail, [], m);
    assert [')'] + tail + [] == [')'] + tail;
    assert ['\\', '\\', ')'] + tail == ['\\'] + (['\\'] + ([')'] + tail));
  }

  /** The glyphs of `b`, `d` and `s`: the entries whose quoted form holds `\` or `$`. */
  const GlyphsB: string := "b8\\3ßΒβ"
  const GlyphsD: string := "d\\)ÞþÐð"
  const GlyphsS: string := "s5$§ßŚśŠš"

  /**
   * As written, the fragment for `b` keeps only one backslash before the
   * glyph `3`.
   */
  lemma AsWrittenFragmentOfB()
    ensures GlyphsB == "b8" + ['\\', '3'] + "ßΒβ"
    ensures Expand(CharacterExpression(GlyphsB), "b") == Bracketed(GlyphsB)
  {
    assert GlyphsB == "b8" + ['\\', '3'] + "ßΒβ";
    AsWrittenBackslashDigit("b8", '3', "ßΒβ", 'b');
  }

  /**
   * So the fragment for `b` loses two of its glyphs: PCRE reads the class
   * as `b`, `8`, the character with code 3, `ß`, `Β` and `β`, and neither a
   * backslash nor a `3` stands for `b` any more.
   */
  lemma AsWrittenLosesGlyphsOfB()
    ensures ClassMembers("b8" + ['\\', '3'] + "ßΒβ") == "b8" + [3 as char] + "ßΒβ"
    ensures '\\' in GlyphsB && '3' in GlyphsB
    ensures '\\' !in "b8" + [3 as char] + "ßΒβ" && '3' !in "b8" + [3 as char] + "ßΒβ"
  {
    MembersOctal("b8", '3', "ßΒβ");
    assert OctalValue(['3']) == 3;
    assert GlyphsB[2] == '\\' && GlyphsB[3] == '3';
  }

  /**
   * A backslash followed by `)` among a letter's glyphs: as written, the
   * quoted `\\` collapses to `\`, which then escapes the backslash quoting
   * put before `)`. The text changes; the glyphs PCRE reads do not.
   */
  lemma AsWrittenBackslashParen(pre: string, post: string, x: char)
    requires Plain(pre) && Plain(post)
    ensures Expand(CharacterExpression(pre + ['\\', ')'] + post), [x]) == Bracketed(pre + ['\\', '\\', ')'] + post)
    ensures ClassMembers(pre + ['\\', '\\', ')'] + post) == pre + ['\\', ')'] + post
  {
    ExpandBackslashParenFragment(pre, post, x);
    MembersBackslashParen(pre, post);
  }

  lemma ExpandBackslashParenFragment(pre: string, post: string, x: char)
    requires Plain(pre) && Plain(post)
    ensures Expand(CharacterExpression(pre + ['\\', ')'] + post), [x]) == Bracketed(pre + ['\\', '\\', ')'] + post)
  {
    QuoteSpliceTwo(pre, '\\', ')', post);
    PlainHasNoEscape(pre);
    PlainHasNoEscape(post);
    var subs := pre + ['\\', ')'] + post;
    CharacterExpressionBracketed(subs);
    var tail := post + "]+?" + Placeholder;
    assert '\\' !in tail && '$' !in tail;
    ExpandBackslashParen("[" + pre, tail, [x]);
    Wrap(pre, ['\\', '\\', '\\', ')'], post);
    Wrap(pre, ['\\', '\\', ')'], post);
  }

  lemma MembersBackslashParen(pre: string, post: string)
    requires Plain(pre) && Plain(post)
    ensures ClassMembers(pre + ['\\', '\\', ')'] + post) == pre + ['\\', ')'] + post
  {
    PlainHasNoEscape(pre);
    PlainHasNoEscape(post);
    assert '\\' !in [')'] + post;
    MembersEscaped(pre, '\\', [')'] + post);
    Splice(pre, ['\\', '\\'], [')'], post);
    assert ['\\', '\\'] + [')'] == ['\\', '\\', ')'];
    SpliceTwo(pre, '\\', ')', post);
  }

  /** The fragment for `d` changes text but not meaning. */
  lemma AsWrittenKeepsGlyphsOfD()
    ensures GlyphsD == "d" + ['\\', ')'] + "ÞþÐð"
    ensures Expand(CharacterExpression(GlyphsD), "d") == Bracketed("d" + ['\\', '\\', ')'] + "ÞþÐð")
    ensures ClassMembers("d" + ['\\', '\\', ')'] + "ÞþÐð") == GlyphsD
  {
    assert GlyphsD == "d" + ['\\', ')'] + "ÞþÐð";
    AsWrittenBackslashParen("d", "ÞþÐð", 'd');
  }

  /** The quoted form of glyphs with two special characters in a row. */
  lemma QuoteSpliceTwo(pre: string, c1: char, c2: char, post: string)
    requires Plain(pre) && Plain(post) && RegexSpecial(c1) && RegexSpecial(c2)
    ensures QuoteAll(pre + [c1, c2] + post) == pre + ['\\', c1, '\\', c2] + post
  {
    QuoteAllAppend(pre + [c1, c2], post);
    QuoteAllAppend(pre, [c1, c2]);
    QuotePlain(pre);
    QuotePlain(post);
    QuotePair(c1, c2);
  }

  lemma QuotePlain(s: string)
    requires Plain(s)
    ensures QuoteAll(s) == s
  {
    QuoteAllPlain(s, []);
    assert s + [] == s;
  }

  lemma QuotePair(c1: char, c2: char)
    requires RegexSpecial(c1) && RegexSpecial(c2)
    ensures QuoteAll([c1, c2]) == ['\\', c1, '\\', c2]
  {
    assert [c1, c2][1..] == [c2];
    assert [c2][1..] == [];
    assert QuoteAll([c2]) == ['\\', c2] + QuoteAll([]);
    assert QuoteAll([c1, c2]) == ['\\', c1] + QuoteAll([c2]);
  }

  lemma {:induction false} QuoteAllAppend(a: string, b: string)
    ensures QuoteAll(a + b) == QuoteAll(a) + QuoteAll(b)
  {
    if a == [] {
      assert a + b == b;
    } else {
      assert (a + b)[0] == a[0] && (a + b)[1..] == a[1..] + b;
      QuoteAllAppend(a[1..], b);
    }
  }

  /** Regrouping a letter class around the part of its body that changes. */
  lemma Wrap(pre: string, mid: string, post: string)
    ensures Bracketed(pre + mid + post) == ("[" + pre) + mid + (post + "]+?" + Placeholder)
  {
  }

  /** Likewise the fragment for `s`, whose quoted `\$` becomes a bare `$`. */
  lemma AsWrittenKeepsGlyphsOfS()
    ensures GlyphsS == "s5" + ['$'] + "§ßŚśŠš"
    ensures Expand(CharacterExpression(GlyphsS), "s") == Bracketed(GlyphsS)
    ensures ClassMembers(GlyphsS) == GlyphsS
  {
    var pre, post := "s5", "§ßŚśŠš";
    assert GlyphsS == pre + ['$'] + post;
    PlainAroundDollar();
    FragmentWithEscape(pre, '$', post, 's');
    MembersOfS();
  }

  /** PCRE reads the unquoted glyphs of `s` as exactly those glyphs. */
  lemma MembersOfS()
    ensures ClassMembers(GlyphsS) == GlyphsS
  {
    assert '\\' !in GlyphsS;
    ClassMembersNoEscape(GlyphsS);
  }

  /** The glyphs of `s` on either side of its `$` need no quoting. */
  lemma PlainAroundDollar()
    ensures Plain("s5") && Plain("§ßŚśŠš")
  {
  }

  /** Quoting leaves characters that are neither special nor NUL as they are. */
  lemma {:induction false} QuoteAllPlain(a: string, b: string)
    requires forall i :: 0 <= i < |a| ==> !RegexSpecial(a[i]) && a[i] != '\0'
    ensures QuoteAll(a + b) == a + QuoteAll(b)
  {
    if a == [] {
      assert a + b == b;
    } else {
      assert (a + b)[0] == a[0] && (a + b)[1..] == a[1..] + b;
      assert QuoteChar(a[0]) == [a[0]];
      QuoteAllPlain(a[1..], b);
    }
  }

  /** PCRE reads characters other than `\` in a class as themselves. */
  lemma {:induction false} ClassMembersPlain(a: string, b: string)
    requires '\\' !in a
    ensures ClassMembers(a + b) == a + ClassMembers(b)
  {
    if a == [] {
      assert a + b == b;
    } else {
      var q := a + b;
      assert q[0] == a[0] && q[1..] == a[1..] + b;
      assert a[0] in a;
      assert '\\' !in a[1..] by {
        assert forall x :: x in a[1..] ==> x in a;
      }
      ClassMembersPlain(a[1..], b);
      assert ClassMembers(q) == [a[0]] + ClassMembers(q[1..]);
    }
  }


  /** A lone octal digit is a one-digit escape. */
  lemma OctalRunSingle(d: char, post: string)
    requires IsOctal(d)
    requires post == [] || !IsOctal(post[0])
    ensures OctalRun([d] + post) == 1
  {
    var r := [d] + post;
    assert |r| >= 2 ==> r[1] == post[0];
  }
  lemma MembersOctalHead(d: char, post: string)
    requires IsOctal(d)
    requires post == [] || !IsOctal(post[0])
    ensures ClassMembers(['\\', d] + post) == [OctalValue([d]) as char] + ClassMembers(post)
  {
    var q := ['\\', d] + post;
    OctalRunSingle(d, post);
    assert q[1..] == [d] + post;
    assert q[1..2] == [d] && q[2..] == post;
  }

}
