/**
 * The filter object itself: its configuration, the word list it assembles
 * once, the expressions it compiles once, and the operations that check
 * and clean strings and nested arrays with them.
 */
module Filter {
  import opened PhpArrays
  import opened Text
  import opened Compiler
  import opened WordList
  import opened Matcher
  import opened Masking
  import opened Walker

  /** Whether a string is dirty for a given word list and set of expressions. */
  function DirtyTest(badWords: seq<Item>, exprs: seq<(char, string)>, separator: string,
                     firstMatch: FirstMatch): string -> bool
  {
    s => IsDirtyString(badWords, exprs, separator, s, firstMatch)
  }

  /** `cleanString` for a given word list, set of expressions and replacement policy. */
  function Cleaner(badWords: seq<Item>, exprs: seq<(char, string)>, separator: string,
                   replaceWith: string, firstMatch: FirstMatch): string -> string
  {
    s => CleanWith(s, DirtyWords(badWords, exprs, separator, s, firstMatch), replaceWith)
  }

  /**
   * A text in which no word matches comes back from cleaning unchanged,
   * whatever the replacement policy.
   */
  lemma CleanTextUnchangedWhenNotDirty(badWords: seq<Item>, exprs: seq<(char, string)>, separator: string,
                                       replaceWith: string, firstMatch: FirstMatch, text: string)
    requires !DirtyTest(badWords, exprs, separator, firstMatch)(text)
    ensures Cleaner(badWords, exprs, separator, replaceWith, firstMatch)(text) == text
  {
  }

  lemma {:induction false} ConcatAppend(a: seq<string>, b: seq<string>)
    ensures Concat(a + b) == Concat(a) + Concat(b)
  {
    if a == [] {
      assert a + b == b;
    } else {
      assert (a + b)[0] == a[0] && (a + b)[1..] == a[1..] + b;
      ConcatAppend(a[1..], b);
    }
  }

  class BadWordFilter {
    /** The package defaults the options are merged into. */
    const defaults: Options
    const escapedSeparatorCharacters: seq<string>
    const separatorCharacters: seq<char>
    /** The glyph table, one entry per lower-case letter. */
    const characterSubstitutions: seq<(char, string)>
    var config: Options
    var isUsingCustomDefinedWordList: bool
    var badWords: seq<Item>
    var separatorExpression: string
    var characterExpressions: seq<(char, string)>

    /**
     * The constructor's work apart from the word list: the custom-list flag,
     * the merged configuration and the compiled expressions. The separator
     * characters and the glyph table are protected properties, which a
     * subclass may override; this class's own values are
     * `SeparatorCharacters`, `EscapedSeparatorCharacters` and
     * `CharacterSubstitutions`.
     */
    constructor Configure(defaults: Options, options: Options, separators: seq<char>,
                          escapedSeparators: seq<string>, substitutions: seq<(char, string)>)
      ensures this.defaults == defaults
      ensures isUsingCustomDefinedWordList == IsCustom(options, defaults)
      ensures config == WordList.Configure(defaults, options)
      ensures badWords == []
      ensures escapedSeparatorCharacters == escapedSeparators
      ensures separatorCharacters == separators
      ensures characterSubstitutions == substitutions
      ensures separatorExpression == EscapedExpression(separatorCharacters, escapedSeparatorCharacters, "*?")
      ensures characterExpressions == CharacterExpressions(characterSubstitutions)
    {
      this.defaults := defaults;
      escapedSeparatorCharacters := escapedSeparators;
      separatorCharacters := separators;
      characterSubstitutions := substitutions;
      isUsingCustomDefinedWordList := IsCustom(options, defaults);
      config := WordList.Configure(defaults, options);
      badWords := [];
      new;
      separatorExpression := GenerateSeparatorExpression();
      characterExpressions := GenerateCharacterExpressions();
    }

    /**
     * `new BadWordFilter($options)`: construction fails with the error the
     * word list raises, and otherwise holds the assembled word list.
     */
    static method Create(defaults: Options, options: Options, files: map<string, seq<Item>>,
                         separators: seq<char>, escapedSeparators: seq<string>, substitutions: seq<(char, string)>)
      returns (r: Result<BadWordFilter, Error>)
      ensures var assembled := Assemble(WordList.Configure(defaults, options), files, IsCustom(options, defaults));
        (r.Ok? <==> assembled.Ok?)
        && (r.Err? ==> r.error == assembled.error)
        && (r.Ok? ==> fresh(r.value) && r.value.badWords == assembled.value
                      && r.value.isUsingCustomDefinedWordList == IsCustom(options, defaults)
                      && r.value.separatorExpression == EscapedExpression(separators, escapedSeparators, "*?")
                      && r.value.characterExpressions == CharacterExpressions(substitutions))
    {
      var f := new BadWordFilter.Configure(defaults, options, separators, escapedSeparators, substitutions);
      var words := f.GetBadWords(files);
      if words.Err? {
        return Err(words.error);
      }
      return Ok(f);
    }

    /**
     * `generateEscapedExpression`: the escaped entries as they are, then
     * each character quoted, inside one class, then the quantifier.
     */
    static method GenerateEscapedExpression(characters: seq<char>, escapedCharacters: seq<string>, quantifier: string)
      returns (r: string)
      ensures r == EscapedExpression(characters, escapedCharacters, quantifier)
    {
      var regex := escapedCharacters;
      for i := 0 to |characters|
        invariant Concat(regex) == Concat(escapedCharacters) + QuoteAll(characters[..i])
      {
        EscapedLoopStep(regex, escapedCharacters, characters, i);
        regex := regex + [QuoteChar(characters[i])];
      }
      assert characters[..|characters|] == characters;
      r := "[" + Concat(regex) + "]" + quantifier;
    }

    /** `generateSeparatorExpression`. */
    method GenerateSeparatorExpression() returns (r: string)
      ensures r == EscapedExpression(separatorCharacters, escapedSeparatorCharacters, "*?")
    {
      r := GenerateEscapedExpression(separatorCharacters, escapedSeparatorCharacters, "*?");
    }

    /** `generateCharacterExpressions`: one letter class and placeholder per table entry, in table order. */
    method GenerateCharacterExpressions() returns (exprs: seq<(char, string)>)
      ensures exprs == CharacterExpressions(characterSubstitutions)
    {
      var table := characterSubstitutions;
      exprs := [];
      for i := 0 to |table|
        invariant exprs == CharacterExpressions(table[..i])
      {
        var e := GenerateEscapedExpression(table[i].1, [], "+?");
        CharacterLoopStep(table, i, exprs, e);
        exprs := exprs + [(table[i].0, e + Placeholder)];
      }
      assert table[..|table|] == table;
    }

    /**
     * `getBadWordsByKey`: the non-empty tiers of the current word list
     * named by `keys`, in the order of `keys`.
     */
    method GetBadWordsByKey(keys: seq<string>) returns (bw: seq<Value>)
      ensures bw == SelectTiers(badWords, keys)
    {
      bw := [];
      for i := 0 to |keys|
        invariant bw == SelectTiers(badWords, keys[..i])
      {
        assert keys[..i + 1] == keys[..i] + [keys[i]];
        SelectTiersAppend(badWords, keys[..i], [keys[i]]);
        assert SelectTiers(badWords, [keys[i]]) == Tier(badWords, keys[i]) + SelectTiers(badWords, []);
        var v := Lookup(badWords, keys[i]);
        if v.Some? && !Blank(v.value) {
          bw := bw + [v.value];
        }
      }
      assert keys[..|keys|] == keys;
    }

    /**
     * `getBadWords`: on first use, load the configured source, narrow it
     * by strictness unless a custom list is in use, and add the
     * `also_check` words (storing a lone `also_check` value back as a
     * one-element list); once the list is non-empty it is returned as it is.
     */
    method GetBadWords(files: map<string, seq<Item>>) returns (r: Result<seq<Item>, Error>)
      modifies this
      ensures isUsingCustomDefinedWordList == old(isUsingCustomDefinedWordList)
      ensures separatorExpression == old(separatorExpression)
      ensures characterExpressions == old(characterExpressions)
      ensures old(badWords) != [] ==> r == Ok(badWords) && badWords == old(badWords) && config == old(config)
      ensures old(badWords) == [] ==> r == Assemble(old(config), files, isUsingCustomDefinedWordList)
      ensures old(badWords) == [] && r.Ok? ==> badWords == r.value
      ensures old(badWords) == [] && r.Err? ==> badWords == [] && config == old(config)
      ensures old(badWords) == [] && r.Ok? ==>
        config == (if BlankAt(old(config), "also_check") then old(config)
                   else old(config)["also_check" := Node(AlsoCheckArray(old(config)["also_check"]))])
    {
      if badWords != [] {
        return Ok(badWords);
      }
      var loaded := LoadSource(config, files);
      if loaded.Err? {
        return Err(loaded.error);
      }
      badWords := loaded.value;
      if !isUsingCustomDefinedWordList {
        var bw := GetBadWordsByKey(TierKeys(Get(config, "strictness")));
        badWords := List(bw);
      }
      assert Assemble(config, files, isUsingCustomDefinedWordList) == Ok(WithAlsoCheck(badWords, Get(config, "also_check")));
      if !BlankAt(config, "also_check") {
        AlsoCheckStored(config, badWords);
        var also := config["also_check"];
        if !also.Node? {
          config := config["also_check" := Node(List([also]))];
        }
        badWords := ArrayMerge(badWords, config["also_check"].items);
      }
      r := Ok(badWords);
    }

    /**
     * `getDirtyWordsFromString`: one pattern per string of the flattened
     * word list, then the non-empty first match of each pattern, in
     * word-list order (`getMatchedString` is `firstMatch`).
     */
    method GetDirtyWordsFromString(text: string, firstMatch: FirstMatch) returns (found: seq<string>)
      ensures found == DirtyWords(badWords, characterExpressions, separatorExpression, text, firstMatch)
    {
      var wordsToTest := Flatten(badWords);
      var profanities: seq<string> := [];
      for i := 0 to |wordsToTest|
        invariant profanities == Profanities(Strings(wordsToTest[..i]), characterExpressions, separatorExpression)
      {
        ProfanitiesStep(wordsToTest, i, characterExpressions, separatorExpression);
        if wordsToTest[i].Str? {
          profanities := profanities + [ProfanityExpression(wordsToTest[i].s, characterExpressions, separatorExpression)];
        }
      }
      assert wordsToTest[..|wordsToTest|] == wordsToTest;
      found := [];
      for i := 0 to |profanities|
        invariant found == Matches(profanities[..i], text, firstMatch)
      {
        var matchedString := firstMatch(profanities[i], text);
        MatchesStep(profanities, i, text, firstMatch);
        if matchedString != "" {
          found := found + [matchedString];
        }
      }
      assert profanities[..|profanities|] == profanities;
    }

    /** `isADirtyString`: some word of the list matches. */
    method IsADirtyString(text: string, firstMatch: FirstMatch) returns (dirty: bool)
      ensures dirty == IsDirtyString(badWords, characterExpressions, separatorExpression, text, firstMatch)
    {
      var found := GetDirtyWordsFromString(text, firstMatch);
      dirty := found != [];
    }

    /**
     * `cleanString`: every non-empty dirty word, in the order they were
     * found, is replaced everywhere in the text by its mask or by the
     * replacement text; a text with no dirty word comes back unchanged.
     */
    method CleanString(text: string, replaceWith: string, firstMatch: FirstMatch) returns (r: string)
      ensures r == Cleaner(badWords, characterExpressions, separatorExpression, replaceWith, firstMatch)(text)
      ensures !IsDirtyString(badWords, characterExpressions, separatorExpression, text, firstMatch) ==> r == text
    {
      var words := GetDirtyWordsFromString(text, firstMatch);
      r := text;
      if words != [] {
        for i := 0 to |words|
          invariant CleanWith(r, words[i..], replaceWith) == CleanWith(text, words, replaceWith)
        {
          assert words[i..][0] == words[i] && words[i..][1..] == words[i + 1..];
          var word := words[i];
          if word != [] {
            var newWord := Mask(word, replaceWith);
            r := ReplaceAll(r, word, newWord);
          }
        }
      }
    }

    /**
     * `findBadWordsInArray`: the keys of the dirty strings, each joined to
     * its parent's key with a dot, depth first; the keys found inside a
     * nested array take its place in the list.
     */
    method FindBadWordsInArray(input: seq<Item>, previousKey: Option<string>, firstMatch: FirstMatch)
      returns (dirtyKeys: seq<string>)
      ensures dirtyKeys
              == DirtyKeys(input, previousKey, DirtyTest(badWords, characterExpressions, separatorExpression, firstMatch))
      decreases input
    {
      var dirty := DirtyTest(badWords, characterExpressions, separatorExpression, firstMatch);
      dirtyKeys := [];
      for i := 0 to |input|
        invariant dirtyKeys + DirtyKeys(input[i..], previousKey, dirty) == DirtyKeys(input, previousKey, dirty)
      {
        var entry := FindInEntry(input[i], previousKey, firstMatch);
        KeysLoopStep(input, i, previousKey, dirty, dirtyKeys, entry);
        dirtyKeys := dirtyKeys + entry;
      }
      assert input[|input|..] == [];
    }

    /** The body of `findBadWordsInArray`'s loop for one entry. */
    method FindInEntry(it: Item, previousKey: Option<string>, firstMatch: FirstMatch) returns (keys: seq<string>)
      ensures keys
              == EntryKeys(it, previousKey, DirtyTest(badWords, characterExpressions, separatorExpression, firstMatch))
      decreases it
    {
      var key := Extend(previousKey, it.key);
      match it.val {
        case Node(children) =>
          keys := FindBadWordsInArray(children, Some(key), firstMatch);
        case Str(s) =>
          var isDirty := IsADirtyString(s, firstMatch);
          keys := if isDirty then [key] else [];
        case Other(_) =>
          keys := [];
      }
    }

    /** `getDirtyKeysFromArray`. */
    method GetDirtyKeysFromArray(input: seq<Item>, firstMatch: FirstMatch) returns (dirtyKeys: seq<string>)
      ensures dirtyKeys == DirtyKeys(input, None, DirtyTest(badWords, characterExpressions, separatorExpression, firstMatch))
    {
      dirtyKeys := FindBadWordsInArray(input, None, firstMatch);
    }

    /** `isADirtyArray`: the walk lists at least one key, that is, some string leaf is dirty. */
    method IsADirtyArray(input: seq<Item>, firstMatch: FirstMatch) returns (dirty: bool)
      ensures dirty <==> DirtyPaths(input, DirtyTest(badWords, characterExpressions, separatorExpression, firstMatch)) != []
    {
      var keys := FindBadWordsInArray(input, None, firstMatch);
      NoDirtyKeysNoDirtyPaths(input, DirtyTest(badWords, characterExpressions, separatorExpression, firstMatch));
      dirty := keys != [];
    }

    /**
     * The walk of `findBadWordsInArray` with each key path kept as its list
     * of keys rather than joined with dots, as `cleanArray` needs it.
     */
    method FindDirtyPaths(input: seq<Item>, firstMatch: FirstMatch) returns (paths: seq<Path>)
      ensures paths == DirtyPaths(input, DirtyTest(badWords, characterExpressions, separatorExpression, firstMatch))
      decreases input
    {
      var dirty := DirtyTest(badWords, characterExpressions, separatorExpression, firstMatch);
      paths := [];
      for i := 0 to |input|
        invariant paths + DirtyPaths(input[i..], dirty) == DirtyPaths(input, dirty)
      {
        var entry := FindPathsInEntry(input[i], firstMatch);
        PathsLoopStep(input, i, dirty, paths, entry);
        paths := paths + entry;
      }
      assert input[|input|..] == [];
    }

    method FindPathsInEntry(it: Item, firstMatch: FirstMatch) returns (paths: seq<Path>)
      ensures paths == EntryPaths(it, DirtyTest(badWords, characterExpressions, separatorExpression, firstMatch))
      decreases it
    {
      match it.val {
        case Node(children) =>
          var nested := FindDirtyPaths(children, firstMatch);
          paths := Under(it.key, nested);
        case Str(s) =>
          var isDirty := IsADirtyString(s, firstMatch);
          paths := if isDirty then [[it.key]] else [];
        case Other(_) =>
          paths := [];
      }
    }

    /**
     * `cleanArrayKey`: follow the path down the array one key at a time
     * (`$array = &$array[$k]`), clean the string found at its end and store
     * it there. A key that is missing, a value on the way that is not an
     * array, or an end that is not a string gives `None`. In PHP an end that
     * is an int, float or boolean is converted to a string and stored
     * instead; the model reports a failure there too.
     */
    method CleanArrayKey(path: Path, arr: seq<Item>, replaceWith: string, firstMatch: FirstMatch)
      returns (r: Option<seq<Item>>)
      ensures StringAt(arr, path)
              ==> r == Some(UpdateAt(arr, path, Cleaner(badWords, characterExpressions, separatorExpression,
                                                        replaceWith, firstMatch)))
      ensures !StringAt(arr, path) ==> r == None
    {
      var levels, positions, reached := FollowPath(path, arr);
      if reached.None? || !reached.value.Str? {
        return None;
      }
      var cleaned := CleanString(reached.value.s, replaceWith, firstMatch);
      var updated := StoreAlongPath(arr, path, levels, positions, cleaned,
                                    Cleaner(badWords, characterExpressions, separatorExpression, replaceWith, firstMatch));
      r := Some(updated);
    }

    /** The way down of `cleanArrayKey`: the arrays passed through and what the path reaches. */
    static method FollowPath(path: Path, arr: seq<Item>)
      returns (levels: seq<seq<Item>>, positions: seq<nat>, reached: Option<Value>)
      ensures reached == At(arr, path)
      ensures reached.Some? && |path| > 0 ==>
        Trail(arr, path, levels, positions) && reached.value == levels[|path| - 1][positions[|path| - 1]].val
    {
      levels, positions := [], [];
      var current := Node(arr);
      for i := 0 to |path|
        invariant |levels| == |positions| == i
        invariant At(arr, path[..i]) == Some(current)
        invariant Trail(arr, path[..i], levels, positions)
        invariant i > 0 ==> current == levels[i - 1][positions[i - 1]].val
      {
        AtSnoc(arr, path[..i], path[i]);
        assert path[..i] + [path[i]] == path[..i + 1];
        if !current.Node? {
          AtNonePersists(arr, path, i + 1);
          return levels, positions, None;
        }
        var found := IndexOf(current.items, path[i]);
        if found.None? {
          AtNonePersists(arr, path, i + 1);
          return levels, positions, None;
        }
        TrailStep(arr, path, i, levels, positions, current.items, found.value);
        levels := levels + [current.items];
        positions := positions + [found.value];
        current := current.items[found.value].val;
      }
      assert path[..|path|] == path;
      reached := Some(current);
    }

    /**
     * The way back up of `cleanArrayKey`: the cleaned string is stored at the
     * end of the path, and each array on the way gets the updated array below it.
     */
    static method StoreAlongPath(arr: seq<Item>, path: Path, levels: seq<seq<Item>>, positions: seq<nat>,
                                 cleaned: string, f: string -> string)
      returns (updated: seq<Item>)
      requires |path| > 0 && Trail(arr, path, levels, positions)
      requires levels[|path| - 1][positions[|path| - 1]].val.Str?
      requires cleaned == f(levels[|path| - 1][positions[|path| - 1]].val.s)
      ensures updated == UpdateAt(arr, path, f)
    {
      var value := Str(cleaned);
      var i := |path|;
      while i > 0
        invariant 0 <= i <= |path|
        invariant i == |path| ==> value == Str(cleaned)
        invariant i < |path| ==> value == Node(UpdateAt(levels[i], path[i..], f))
      {
        i := i - 1;
        UpdateAtStep(levels[i], path, i, positions[i], f);
        value := Node(levels[i][positions[i] := Item(path[i], value)]);
      }
      assert path[0..] == path;
      updated := value.items;
    }

    /**
     * `cleanArray`: clean the string at each dirty key path in turn. The
     * result is the arr with the paths applied one after the other.
     */
    method CleanArray(replaceWith: string, input: seq<Item>, firstMatch: FirstMatch) returns (r: Option<seq<Item>>)
      ensures r == ApplyPaths(input, DirtyPaths(input, DirtyTest(badWords, characterExpressions, separatorExpression, firstMatch)),
                              Cleaner(badWords, characterExpressions, separatorExpression, replaceWith, firstMatch))
    {
      var f := Cleaner(badWords, characterExpressions, separatorExpression, replaceWith, firstMatch);
      var paths := FindDirtyPaths(input, firstMatch);
      var arr := input;
      for i := 0 to |paths|
        invariant ApplyPaths(arr, paths[i..], f) == ApplyPaths(input, paths, f)
      {
        assert paths[i..][0] == paths[i] && paths[i..][1..] == paths[i + 1..];
        var cleaned := CleanArrayKey(paths[i], arr, replaceWith, firstMatch);
        if cleaned.None? {
          return None;
        }
        arr := cleaned.value;
      }
      assert paths[|paths|..] == [];
      r := Some(arr);
    }

    /**
     * `isDirty`: an array is dirty when one of its string leaves is, a
     * string when one of the words matches it.
     */
    method IsDirty(input: Value, firstMatch: FirstMatch) returns (dirty: bool)
      requires !input.Other?
      ensures input.Str? ==> dirty == IsDirtyString(badWords, characterExpressions, separatorExpression, input.s, firstMatch)
      ensures input.Node? ==>
        (dirty <==> DirtyPaths(input.items, DirtyTest(badWords, characterExpressions, separatorExpression, firstMatch)) != [])
    {
      if input.Node? {
        dirty := IsADirtyArray(input.items, firstMatch);
      } else {
        dirty := IsADirtyString(input.s, firstMatch);
      }
    }

    /**
     * `scrub` (and `clean`, which forwards to it): a string is cleaned by
     * `cleanString`, an array by `cleanArray`. With keys unique at every
     * level, as in any PHP array, an array comes back with exactly its dirty
     * strings cleaned and everything else as it was.
     */
    method Scrub(input: Value, replaceWith: string, firstMatch: FirstMatch) returns (r: Option<Value>)
      requires !input.Other?
      ensures input.Str? ==>
        r == Some(Str(Cleaner(badWords, characterExpressions, separatorExpression, replaceWith, firstMatch)(input.s)))
      ensures input.Node? && UniqueKeysDeep(input.items) ==>
        r == Some(Node(CleanTree(input.items, DirtyTest(badWords, characterExpressions, separatorExpression, firstMatch),
                                 Cleaner(badWords, characterExpressions, separatorExpression, replaceWith, firstMatch))))
      ensures input.Node? ==>
        var applied := ApplyPaths(input.items, DirtyPaths(input.items, DirtyTest(badWords, characterExpressions, separatorExpression, firstMatch)),
                                  Cleaner(badWords, characterExpressions, separatorExpression, replaceWith, firstMatch));
        r == if applied.Some? then Some(Node(applied.value)) else None
    {
      if input.Node? {
        var cleaned := CleanArray(replaceWith, input.items, firstMatch);
        if UniqueKeysDeep(input.items) {
          CleanArrayRewritesDirtyLeaves(input.items, DirtyTest(badWords, characterExpressions, separatorExpression, firstMatch),
                                        Cleaner(badWords, characterExpressions, separatorExpression, replaceWith, firstMatch));
        }
        r := if cleaned.Some? then Some(Node(cleaned.value)) else None;
      } else {
        var cleaned := CleanString(input.s, replaceWith, firstMatch);
        r := Some(Str(cleaned));
      }
    }
  }

  /** One more character quoted onto the list of class entries. */
  lemma EscapedLoopStep(regex: seq<string>, escaped: seq<string>, characters: seq<char>, i: nat)
    requires i < |characters|
    requires Concat(regex) == Concat(escaped) + QuoteAll(characters[..i])
    ensures Concat(regex + [QuoteChar(characters[i])]) == Concat(escaped) + QuoteAll(characters[..i + 1])
  {
    ConcatSnoc(regex, Concat(escaped), QuoteAll(characters[..i]), QuoteChar(characters[i]));
    QuoteAllSnoc(characters, i);
  }

  lemma ConcatSnoc(a: seq<string>, x: string, y: string, q: string)
    requires Concat(a) == x + y
    ensures Concat(a + [q]) == x + (y + q)
  {
    ConcatAppend(a, [q]);
    assert Concat([q]) == q + Concat([]);
  }

  lemma QuoteAllSnoc(characters: seq<char>, i: nat)
    requires i < |characters|
    ensures QuoteAll(characters[..i + 1]) == QuoteAll(characters[..i]) + QuoteChar(characters[i])
  {
    var c := characters[i];
    assert characters[..i + 1] == characters[..i] + [c];
    QuoteAllAppend(characters[..i], [c]);
    assert QuoteAll([c]) == QuoteChar(c) + QuoteAll([]);
  }

  /** One more entry of the glyph table compiled. */
  lemma CharacterLoopStep(table: seq<(char, string)>, i: nat, exprs: seq<(char, string)>, e: string)
    requires i < |table|
    requires exprs == CharacterExpressions(table[..i])
    requires e == EscapedExpression(table[i].1, [], "+?")
    ensures exprs + [(table[i].0, e + Placeholder)] == CharacterExpressions(table[..i + 1])
  {
    assert e + Placeholder == CharacterExpression(table[i].1);
    assert table[..i + 1] == table[..i] + [table[i]];
    CharacterExpressionsAppend(table[..i], [table[i]]);
  }

  lemma {:induction false} CharacterExpressionsAppend(a: seq<(char, string)>, b: seq<(char, string)>)
    ensures CharacterExpressions(a + b) == CharacterExpressions(a) + CharacterExpressions(b)
  {
    if a == [] {
      assert a + b == b;
    } else {
      assert (a + b)[0] == a[0] && (a + b)[1..] == a[1..] + b;
      CharacterExpressionsAppend(a[1..], b);
    }
  }
}
