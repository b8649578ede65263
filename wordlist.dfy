/**
 * The word-list assembler: where the words come from (a word-list file, an
 * array in the options, or the unsupported database), how a tiered list is
 * narrowed by the strictness ladder, and how the `also_check` words are
 * added last.
 */
module WordList {
  import opened PhpArrays

  /** Why no word list can be built: each is an exception in the filter. */
  datatype Error =
    | InvalidSource
    | MissingFile(path: string)
    | BadArray
    | DatabaseUnsupported

  /** An options array: only its string keys are ever looked up. */
  type Options = map<string, Value>

  function Get(m: Options, k: string): (r: Option<Value>)
    ensures r.Some? <==> k in m
  {
    if k in m then Some(m[k]) else None
  }

  /**
   * PHP's `===` as far as the model can tell it: two strings with the same
   * characters, or two equal arrays. Scalars of other kinds are never taken
   * to be identical.
   */
  predicate Identical(a: Value, b: Value)
  {
    (a.Str? && b.Str? && a.s == b.s) || (a.Node? && b.Node? && a == b)
  }

  /** `!empty($options[$k]) && $options[$k] !== $defaults[$k]`. */
  predicate DiffersFromDefault(options: Options, defaults: Options, k: string)
  {
    !BlankAt(options, k) && (k !in defaults || !Identical(options[k], defaults[k]))
  }

  /** `hasAlternateSource`: the caller chose a source other than the default one. */
  predicate HasAlternateSource(options: Options, defaults: Options)
  {
    DiffersFromDefault(options, defaults, "source")
  }

  /** `hasAlternateSourceFile`: the caller named a word-list file other than the default one. */
  predicate HasAlternateSourceFile(options: Options, defaults: Options)
  {
    DiffersFromDefault(options, defaults, "source_file")
  }

  /** A custom word list is in use: strictness tiers are then not applied. */
  predicate IsCustom(options: Options, defaults: Options)
  {
    HasAlternateSource(options, defaults) || HasAlternateSourceFile(options, defaults)
  }

  /** `array_merge($defaults, $options)` as seen through string keys: options win. */
  function Configure(defaults: Options, options: Options): (r: Options)
    ensures forall k :: k in r <==> k in defaults || k in options
    ensures forall k :: k in options ==> r[k] == options[k]
    ensures forall k :: k in defaults && k !in options ==> r[k] == defaults[k]
  {
    defaults + options
  }

  /**
   * The path `file_exists` and `include` are given: a string as it is, and
   * anything else (null when the option is missing) as the empty path,
   * which names no file.
   */
  function PathOf(v: Option<Value>): string
  {
    if v.Some? && v.value.Str? then v.value.s else ""
  }

  /**
   * The raw word data the configured source yields (`getBadWordsFromConfigFile`,
   * `getBadWordsFromArray`, `getBadWordsFromDB`). `files` maps each existing
   * word-list file to the array its `include` returns.
   */
  function LoadSource(config: Options, files: map<string, seq<Item>>): Result<seq<Item>, Error>
  {
    var source := Get(config, "source");
    if source == Some(Str("file")) then
      var path := PathOf(Get(config, "source_file"));
      if path != "" && path in files then Ok(files[path]) else Err(MissingFile(path))
    else if source == Some(Str("array")) then
      if !BlankAt(config, "bad_words_array") && config["bad_words_array"].Node? then
        Ok(config["bad_words_array"].items)
      else Err(BadArray)
    else if source == Some(Str("database")) then Err(DatabaseUnsupported)
    else Err(InvalidSource)
  }

  // ---------------------------------------------------------------------
  // Strictness

  /** The tiers of the word list, from the mildest words to misspellings. */
  const Ladder: seq<string> := ["permissive", "lenient", "strict", "very_strict", "strictest", "misspellings"]

  /**
   * The tier names a strictness setting selects. `all` is `misspellings`;
   * an unknown, missing or non-string setting selects what `very_strict` does.
   */
  function TierKeys(strictness: Option<Value>): seq<string>
  {
    var name := if strictness.Some? && strictness.value.Str? then strictness.value.s else "";
    if name == "permissive" then ["permissive"]
    else if name == "lenient" then ["permissive", "lenient"]
    else if name == "strict" then ["permissive", "lenient", "strict"]
    else if name == "very_strict" then ["permissive", "lenient", "strict", "very_strict"]
    else if name == "strictest" then ["permissive", "lenient", "strict", "very_strict", "strictest"]
    else if name == "misspellings" || name == "all" then
      ["permissive", "lenient", "strict", "very_strict", "strictest", "misspellings"]
    else ["permissive", "lenient", "strict", "very_strict"]
  }

  /** How far up the ladder a strictness setting reaches. */
  function Level(strictness: Option<Value>): nat
  {
    var name := if strictness.Some? && strictness.value.Str? then strictness.value.s else "";
    if name in Ladder then
      (if name == "permissive" then 1 else if name == "lenient" then 2 else if name == "strict" then 3
       else if name == "very_strict" then 4 else if name == "strictest" then 5 else 6)
    else if name == "all" then 6
    else 4
  }

  /**
   * The tiers are cumulative: every setting selects the ladder up to its
   * own level, `all` selects what `misspellings` does, and a setting that
   * is not a tier name selects what `very_strict` does.
   */
  lemma TiersAreLadderPrefixes(strictness: Option<Value>)
    ensures 1 <= Level(strictness) <= |Ladder|
    ensures TierKeys(strictness) == Ladder[..Level(strictness)]
    ensures TierKeys(Some(Str("all"))) == TierKeys(Some(Str("misspellings"))) == Ladder
    ensures (strictness.Some? && strictness.value.Str? && strictness.value.s !in Ladder && strictness.value.s != "all")
            ==> TierKeys(strictness) == TierKeys(Some(Str("very_strict")))
    ensures strictness.None? ==> TierKeys(strictness) == TierKeys(Some(Str("very_strict")))
  {
    LadderPrefixes();
  }

  /** The prefixes of the ladder, written out. */
  lemma LadderPrefixes()
    ensures Ladder[..1] == ["permissive"]
    ensures Ladder[..2] == ["permissive", "lenient"]
    ensures Ladder[..3] == ["permissive", "lenient", "strict"]
    ensures Ladder[..4] == ["permissive", "lenient", "strict", "very_strict"]
    ensures Ladder[..5] == ["permissive", "lenient", "strict", "very_strict", "strictest"]
    ensures Ladder[..6] == Ladder
  {
  }

  /** The value stored under one tier name, unless it is missing or empty. */
  function Tier(raw: seq<Item>, key: string): seq<Value>
  {
    match Lookup(raw, key)
    case Some(v) => if Blank(v) then [] else [v]
    case None => []
  }

  /** `getBadWordsByKey`: the non-empty tiers named by `keys`, in the order of `keys`. */
  function SelectTiers(raw: seq<Item>, keys: seq<string>): seq<Value>
  {
    if keys == [] then [] else Tier(raw, keys[0]) + SelectTiers(raw, keys[1..])
  }

  lemma {:induction false} SelectTiersAppend(raw: seq<Item>, a: seq<string>, b: seq<string>)
    ensures SelectTiers(raw, a + b) == SelectTiers(raw, a) + SelectTiers(raw, b)
  {
    if a == [] {
      assert a + b == b;
    } else {
      assert (a + b)[0] == a[0] && (a + b)[1..] == a[1..] + b;
      SelectTiersAppend(raw, a[1..], b);
    }
  }

  /**
   * Exactly the non-empty tiers: every selected value is a non-empty value
   * stored under one of the keys, and every key whose value is present and
   * non-empty contributes that value.
   */
  lemma {:induction false} SelectTiersContents(raw: seq<Item>, keys: seq<string>)
    ensures forall v :: v in SelectTiers(raw, keys) ==>
              !Blank(v) && exists j :: 0 <= j < |keys| && Lookup(raw, keys[j]) == Some(v)
    ensures forall j :: 0 <= j < |keys| && Lookup(raw, keys[j]).Some? && !Blank(Lookup(raw, keys[j]).value)
              ==> Lookup(raw, keys[j]).value in SelectTiers(raw, keys)
  {
    if keys != [] {
      SelectTiersContents(raw, keys[1..]);
      var rest := SelectTiers(raw, keys[1..]);
      assert SelectTiers(raw, keys) == Tier(raw, keys[0]) + rest;
      forall v | v in SelectTiers(raw, keys)
        ensures !Blank(v) && exists j :: 0 <= j < |keys| && Lookup(raw, keys[j]) == Some(v)
      {
        if v in Tier(raw, keys[0]) {
          assert Lookup(raw, keys[0]) == Some(v);
        } else {
          assert v in rest;
          var j :| 0 <= j < |keys[1..]| && Lookup(raw, keys[1..][j]) == Some(v);
          assert keys[1..][j] == keys[j + 1];
        }
      }
      forall j | 0 <= j < |keys| && Lookup(raw, keys[j]).Some? && !Blank(Lookup(raw, keys[j]).value)
        ensures Lookup(raw, keys[j]).value in SelectTiers(raw, keys)
      {
        if j > 0 {
          assert keys[j] == keys[1..][j - 1];
        }
      }
    }
  }

  /** A stricter setting keeps every tier a milder one selects, in the same order, and adds to the end. */
  lemma StricterSelectsMore(raw: seq<Item>, milder: Option<Value>, stricter: Option<Value>)
    requires Level(milder) <= Level(stricter)
    ensures SelectTiers(raw, TierKeys(stricter))
            == SelectTiers(raw, TierKeys(milder)) + SelectTiers(raw, Ladder[Level(milder)..Level(stricter)])
  {
    TiersAreLadderPrefixes(milder);
    TiersAreLadderPrefixes(stricter);
    var m, s := Level(milder), Level(stricter);
    assert Ladder[..s] == Ladder[..m] + Ladder[m..s];
    SelectTiersAppend(raw, Ladder[..m], Ladder[m..s]);
  }

  // ---------------------------------------------------------------------
  // also_check and the whole assembly

  /** The `also_check` option as an array: a lone value becomes a one-element list. */
  function AlsoCheckArray(v: Value): (r: seq<Item>)
    ensures v.Node? ==> r == v.items
    ensures !v.Node? ==> Values(r) == [v] && IsList(r)
  {
    if v.Node? then v.items
    else
      var r := List([v]);
      DecimalIsIntKey(0);
      r
  }

  /** The words followed by the non-empty `also_check` words (`array_merge`). */
  function WithAlsoCheck(words: seq<Item>, alsoCheck: Option<Value>): seq<Item>
  {
    if alsoCheck.None? || Blank(alsoCheck.value) then words
    else ArrayMerge(words, AlsoCheckArray(alsoCheck.value))
  }

  /**
   * `getBadWords` on a fresh filter: load the source, narrow by strictness
   * unless a custom list is in use, then add the `also_check` words.
   */
  function Assemble(config: Options, files: map<string, seq<Item>>, custom: bool): Result<seq<Item>, Error>
  {
    match LoadSource(config, files)
    case Err(e) => Err(e)
    case Ok(raw) =>
      var words := if custom then raw else List(SelectTiers(raw, TierKeys(Get(config, "strictness"))));
      Ok(WithAlsoCheck(words, Get(config, "also_check")))
  }

  /**
   * A non-blank `also_check` value that is not an array is stored back as a
   * one-element list, and its entries are merged after the words.
   */
  lemma AlsoCheckStored(config: Options, words: seq<Item>)
    requires !BlankAt(config, "also_check")
    ensures var also := config["also_check"];
      var stored := if also.Node? then config else config["also_check" := Node(List([also]))];
      stored == config["also_check" := Node(AlsoCheckArray(also))]
      && stored["also_check"].Node?
      && ArrayMerge(words, stored["also_check"].items) == WithAlsoCheck(words, Get(config, "also_check"))
  {
    var also := config["also_check"];
    if also.Node? {
      assert config["also_check" := Node(also.items)] == config;
    }
  }

  /** Which configurations fail, and with which error. */
  lemma AssembleErrors(config: Options, files: map<string, seq<Item>>, custom: bool)
    ensures var source := Get(config, "source");
      ((source !in {Some(Str("file")), Some(Str("array")), Some(Str("database"))})
         ==> Assemble(config, files, custom) == Err(InvalidSource))
      && (source == Some(Str("database")) ==> Assemble(config, files, custom) == Err(DatabaseUnsupported))
      && (source == Some(Str("array")) ==>
            (Assemble(config, files, custom).Err?
             <==> BlankAt(config, "bad_words_array") || !config["bad_words_array"].Node?)
            && (Assemble(config, files, custom).Err? ==> Assemble(config, files, custom) == Err(BadArray)))
      && (source == Some(Str("file")) ==>
            var path := PathOf(Get(config, "source_file"));
            (Assemble(config, files, custom).Err? <==> path == "" || path !in files)
            && (Assemble(config, files, custom).Err? ==> Assemble(config, files, custom) == Err(MissingFile(path))))
  {
  }

  /**
   * With a custom list, every loaded word is kept, in order, and the
   * non-blank `also_check` words follow it, provided no string key of
   * `also_check` is also a key of the list (`array_merge` would overwrite it
   * in place).
   */
  lemma CustomListThenAlsoCheck(raw: seq<Item>, config: Options, files: map<string, seq<Item>>)
    requires LoadSource(config, files) == Ok(raw) && UniqueKeys(raw)
    requires !BlankAt(config, "also_check") ==>
      UniqueKeys(AlsoCheckArray(config["also_check"])) && FreshStringKeys(raw, AlsoCheckArray(config["also_check"]))
    ensures Assemble(config, files, true).Ok?
    ensures Values(Assemble(config, files, true).value)
            == Values(raw) + (if BlankAt(config, "also_check") then [] else Values(AlsoCheckArray(config["also_check"])))
  {
    if !BlankAt(config, "also_check") {
      ArrayMergeAppends(raw, AlsoCheckArray(config["also_check"]));
    } else {
      assert Values(raw) + [] == Values(raw);
    }
  }

  /**
   * A custom list is used as loaded: the strictness setting, whatever it is
   * and whether or not it is set, has no effect on the assembled list, and
   * only `also_check` is added.
   */
  lemma CustomListBypassesTiers(config: Options, files: map<string, seq<Item>>, strictness: Value)
    ensures Assemble(config["strictness" := strictness], files, true) == Assemble(config, files, true)
    ensures Assemble(config - {"strictness"}, files, true) == Assemble(config, files, true)
    ensures LoadSource(config, files).Ok? ==>
      Assemble(config, files, true) == Ok(WithAlsoCheck(LoadSource(config, files).value, Get(config, "also_check")))
  {
    StrictnessIgnoredByLoad(config, config["strictness" := strictness], files);
    StrictnessIgnoredByLoad(config, config - {"strictness"}, files);
  }

  /** Two configurations that agree on every option but the strictness load and extend alike. */
  lemma StrictnessIgnoredByLoad(config: Options, other: Options, files: map<string, seq<Item>>)
    requires forall k :: k != "strictness" ==> Get(other, k) == Get(config, k)
    ensures LoadSource(other, files) == LoadSource(config, files)
    ensures Get(other, "also_check") == Get(config, "also_check")
  {
    assert Get(other, "source") == Get(config, "source");
    assert Get(other, "source_file") == Get(config, "source_file");
    assert Get(other, "bad_words_array") == Get(config, "bad_words_array");
  }

  /** Flattening sees only the values of an array, never its keys. */
  lemma {:induction false} FlattenByValues(a: seq<Item>, b: seq<Item>)
    requires Values(a) == Values(b)
    ensures Flatten(a) == Flatten(b)
  {
    if a != [] {
      assert Values(a)[1..] == Values(a[1..]) && Values(b)[1..] == Values(b[1..]);
      FlattenByValues(a[1..], b[1..]);
    }
  }

  /**
   * The `also_check` words come last: after tier selection, the flattened
   * word list is the selected words followed by the `also_check` words,
   * whether `also_check` is one word or a list of them.
   */
  lemma AlsoCheckComesLast(raw: seq<Item>, config: Options, files: map<string, seq<Item>>)
    requires LoadSource(config, files) == Ok(raw)
    requires "also_check" in config && !Blank(config["also_check"])
    requires UniqueKeys(AlsoCheckArray(config["also_check"]))
    ensures var selected := List(SelectTiers(raw, TierKeys(Get(config, "strictness"))));
      Assemble(config, files, false).Ok?
      && Flatten(Assemble(config, files, false).value)
         == Flatten(selected) + Flatten(AlsoCheckArray(config["also_check"]))
  {
    var selected := List(SelectTiers(raw, TierKeys(Get(config, "strictness"))));
    var also := AlsoCheckArray(config["also_check"]);
    ListKeys(SelectTiers(raw, TierKeys(Get(config, "strictness"))), also);
    ArrayMergeAppends(selected, also);
    var merged := ArrayMerge(selected, also);
    var joined := selected + also;
    ValuesAppend(selected, also);
    FlattenByValues(merged, joined);
    FlattenAppend(selected, also);
  }
}
