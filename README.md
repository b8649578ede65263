# BadWordFilter, modelled in Dafny

This project models the profanity filter class `JCrowe\BadWordFilter\BadWordFilter`. The filter:

- assembles a word list from a word-list file or from an array in the options;
- narrows a tiered list by a strictness setting and adds the `also_check` words;
- compiles every word into a regular expression that tolerates look-alike glyphs and separator characters between letters;
- reports which words match a string, or which keys of a nested array hold dirty strings;
- masks each matched word (`shit` becomes `s**t`) or replaces it by a fixed text, in a string or in every dirty leaf of a nested array.

Modules, one per concern of the class:

- `PhpArrays`: PHP values, ordered keyed arrays, `empty()`, `array_merge`, integer keys and `Arr::flatten`.
- `Text`: literal search and replace, joining and `explode`.
- `Compiler`: `preg_quote`, the separator and letter classes, the glyph table, and the compiled word pattern. It also holds `preg_replace`'s reading of a replacement text, which is what the pattern compiler runs into as written.
- `WordList`: the word sources, the strictness ladder, `also_check`, and the whole assembly.
- `Matcher`: the patterns of the word list and their first matches in a text.
- `Masking`: the masking loop of `cleanString`.
- `Walker`: the dotted-key walk over nested arrays, and rewriting a leaf along a key path.
- `Filter`: the `BadWordFilter` class itself. Its fields are the ones the PHP object keeps. Its methods have the loops of the PHP methods, and each is proved against the functions of the modules above.

The regex engine is not modelled. `preg_match` followed by `$matches[0]` is a parameter `firstMatch` of the operations that match. The facts proved about matching hold for every such function.

## Model

| member | source | states |
|---|---|---|
| PhpArrays.Lookup | src/JCrowe/BadWordFilter/BadWordFilter.php:631-641 | `$array[$k]` finds a value exactly when some entry has key `k`, and the value found is that entry's |
| PhpArrays.Values | src/JCrowe/BadWordFilter/BadWordFilter.php:688-701 | the values of an array, one per entry, in entry order |
| PhpArrays.Flatten | src/JCrowe/BadWordFilter/BadWordFilter.php:688-701 | `flattenArray` yields only non-array leaves |
| PhpArrays.FlattenAppend | src/JCrowe/BadWordFilter/BadWordFilter.php:688-701 | flattening two arrays one after the other is flattening their concatenation |
| PhpArrays.FlattenLeaves | src/JCrowe/BadWordFilter/BadWordFilter.php:688-701 | an array of leaves flattens to its own values, in order |
| PhpArrays.FlattenIdempotent | src/JCrowe/BadWordFilter/BadWordFilter.php:688-701 | flattening an already flattened list changes nothing |
| PhpArrays.StringsAppend | src/JCrowe/BadWordFilter/BadWordFilter.php:330-333 | the `is_string` filter over two lists is the filter of each, concatenated |
| PhpArrays.ArrayMergeLists | src/JCrowe/BadWordFilter/BadWordFilter.php:617 | `array_merge` of two lists keeps all values of the first, then all values of the second, and is a list |
| PhpArrays.MergeIntoList | src/JCrowe/BadWordFilter/BadWordFilter.php:617 | merging list entries into an array appends their values, renumbered, and keeps a list a list |
| PhpArrays.PutAbsent | src/JCrowe/BadWordFilter/BadWordFilter.php:617 | storing under a string key the array does not hold appends the entry |
| PhpArrays.MergeIntoAppends | src/JCrowe/BadWordFilter/BadWordFilter.php:617 | merging entries whose string keys are new appends their values in order, and every key of the result is an integer key or a key of an input |
| PhpArrays.ArrayMergeAppends | src/JCrowe/BadWordFilter/BadWordFilter.php:617 | `array_merge` of two arrays sharing no string key gives the values of the first, then the values of the second |
| PhpArrays.DecimalIsIntKey | src/JCrowe/BadWordFilter/BadWordFilter.php:617 | the decimal spelling of `n` is read back by PHP as the integer key `n` |
| Text.ReplaceAllAbsent | src/JCrowe/BadWordFilter/BadWordFilter.php:264 | `str_replace` with a needle that does not occur returns the text unchanged |
| Text.ReplaceAllSplit | src/JCrowe/BadWordFilter/BadWordFilter.php:264 | replacing in `a + b` is replacing in each, when `a` does not end in a part of the needle |
| Text.ReplaceAllSplitUnstraddled | src/JCrowe/BadWordFilter/BadWordFilter.php:264 | replacing in `a + b` is replacing in each, when no occurrence of the needle starts in `a` and ends in `b` |
| Text.ReplaceAllLeading | src/JCrowe/BadWordFilter/BadWordFilter.php:264 | a leading needle is replaced and the scan goes on after it |
| Text.ReplaceEveryOccurrence | src/JCrowe/BadWordFilter/BadWordFilter.php:500 | every occurrence of the needle between needle-free pieces is replaced |
| Text.SplitJoin | src/JCrowe/BadWordFilter/BadWordFilter.php:466 | `explode` undoes joining with the delimiter when no piece holds the delimiter |
| Text.SplitNoDelimiter | src/JCrowe/BadWordFilter/BadWordFilter.php:466 | `explode` cuts exactly at the first delimiter; a text without it is one piece |
| Compiler.ClassMembersQuoteAll | src/JCrowe/BadWordFilter/BadWordFilter.php:239-250 | the characters PCRE reads from a `preg_quote`d class body are exactly the quoted characters |
| Compiler.QuoteAllShape | src/JCrowe/BadWordFilter/BadWordFilter.php:246 | `preg_quote` escapes every `!` and adds no letter |
| Compiler.LetterClass | src/JCrowe/BadWordFilter/BadWordFilter.php:272-284 | a letter's class is `[`, a body PCRE reads as exactly the letter's glyphs, then `]+?` |
| Compiler.CharacterExpressions | src/JCrowe/BadWordFilter/BadWordFilter.php:272-284 | one fragment per table entry, same letter, same order: the letter class followed by the placeholder |
| Compiler.SubstitutionTableWellFormed | src/JCrowe/BadWordFilter/BadWordFilter.php:111-186 | the glyph table's keys are the letters a to z in ascending order, and no glyph list names a letter other than its own |
| Compiler.KeysAscend | src/JCrowe/BadWordFilter/BadWordFilter.php:111-186 | in a well-formed table no two entries share a letter |
| Compiler.CharacterExpressionLetters | src/JCrowe/BadWordFilter/BadWordFilter.php:272-284 | a compiled fragment names no letter beyond its glyphs |
| Compiler.ForeignLetterAbsent | src/JCrowe/BadWordFilter/BadWordFilter.php:272-284 | a fragment holds no letter of another entry |
| Compiler.CharacterExpressionsSequential | src/JCrowe/BadWordFilter/BadWordFilter.php:256-265 | no fragment contains a letter that a later entry rewrites, so rewriting entry by entry is safe |
| Compiler.SequentialIsPerChar | src/JCrowe/BadWordFilter/BadWordFilter.php:258-263 | applying the table entry by entry equals mapping each character of the word once, under that condition |
| Compiler.FragmentForMaps | src/JCrowe/BadWordFilter/BadWordFilter.php:272-284 | a letter has a compiled fragment exactly when it has a table entry, and the fragment is built from that entry |
| Compiler.PlaceholdersResolved | src/JCrowe/BadWordFilter/BadWordFilter.php:264 | for a word in which the placeholder text `{!!}` does not occur, every placeholder of the rewritten word becomes the separator expression, and nothing else changes |
| Compiler.ReplaceInsideDelimiters | src/JCrowe/BadWordFilter/BadWordFilter.php:258-264 | replacing placeholders leaves the `/` delimiters and the `i` flag alone |
| Compiler.ProfanityExpressionShape | src/JCrowe/BadWordFilter/BadWordFilter.php:256-265 | for a word in which `{!!}` does not occur, the pattern is `/`, each letter as its glyph class, `+?` and the separator expression, other characters kept, then `/i` |
| Compiler.PlaceholderInWord | src/JCrowe/BadWordFilter/BadWordFilter.php:264 | the placeholder text `{!!}` written in a word is itself replaced by the separator expression |
| Compiler.RewriteAsWrittenIsSequential | src/JCrowe/BadWordFilter/BadWordFilter.php:258-263 | `preg_replace` as written applies the table with each replacement read as a replacement text |
| Compiler.AsWrittenBackslashDigit | src/JCrowe/BadWordFilter/BadWordFilter.php:258-263 | `preg_replace` reads the fragment as a replacement text, so the quoted `\\` before an octal digit collapses to one `\`; PCRE then reads that `\` and the digit inside the class as the octal escape for the character with the digit's code, so neither the `\` nor the digit is a glyph any more |
| Compiler.AsWrittenLosesGlyphsOfB | src/JCrowe/BadWordFilter/BadWordFilter.php:136 | as written, neither `\` nor `3` is a glyph of `b` any more |
| Compiler.AsWrittenKeepsGlyphsOfD | src/JCrowe/BadWordFilter/BadWordFilter.php:138 | as written, the fragment for `d` changes text but PCRE reads the same glyphs |
| Compiler.AsWrittenKeepsGlyphsOfS | src/JCrowe/BadWordFilter/BadWordFilter.php:178 | as written, the fragment for `s` loses its `\` before `$` but PCRE reads the same glyphs |
| Compiler.AsWrittenBackslashParen | src/JCrowe/BadWordFilter/BadWordFilter.php:258-263 | a quoted `\` before `)` is rewritten but keeps its meaning |
| WordList.Get | src/JCrowe/BadWordFilter/BadWordFilter.php:536 | an option is found exactly when it is set |
| WordList.Configure | src/JCrowe/BadWordFilter/BadWordFilter.php:212 | the options override the defaults key by key, and every other key keeps its default |
| WordList.TiersAreLadderPrefixes | src/JCrowe/BadWordFilter/BadWordFilter.php:557-609 | every strictness setting selects a prefix of the ladder permissive, lenient, strict, very_strict, strictest, misspellings; unknown settings select very_strict's tiers |
| WordList.SelectTiersContents | src/JCrowe/BadWordFilter/BadWordFilter.php:631-641 | `getBadWordsByKey` keeps exactly the non-empty tiers named by the keys |
| WordList.StricterSelectsMore | src/JCrowe/BadWordFilter/BadWordFilter.php:557-609 | a stricter setting selects the milder setting's words, in order, followed by the tiers in between |
| WordList.AlsoCheckArray | src/JCrowe/BadWordFilter/BadWordFilter.php:612-618 | an array `also_check` is used as it is; a lone value becomes a one-element list |
| WordList.AssembleErrors | src/JCrowe/BadWordFilter/BadWordFilter.php:536-555 | which sources fail and with which error: unknown source, database, an empty or non-array `bad_words_array`, a missing word-list file |
| WordList.AlsoCheckStored | src/JCrowe/BadWordFilter/BadWordFilter.php:612-618 | a lone `also_check` value is stored back as a one-element list, and its entries are merged after the words |
| WordList.CustomListThenAlsoCheck | src/JCrowe/BadWordFilter/BadWordFilter.php:557-618 | with a custom list, the word values are the loaded values, all of them and in order, followed by the `also_check` values when `also_check` is not empty |
| WordList.CustomListBypassesTiers | src/JCrowe/BadWordFilter/BadWordFilter.php:557-618 | with a custom list the strictness setting has no effect: setting it to any value or unsetting it leaves the assembled list the same, and a loaded list only gets the `also_check` words added |
| WordList.AlsoCheckComesLast | src/JCrowe/BadWordFilter/BadWordFilter.php:612-618 | the flattened word list is the selected words followed by the `also_check` words, whether `also_check` is one word, a list or an array with string keys |
| WordList.FlattenByValues | src/JCrowe/BadWordFilter/BadWordFilter.php:688-701 | flattening sees values only, never keys |
| Matcher.Profanities | src/JCrowe/BadWordFilter/BadWordFilter.php:329-341 | one compiled pattern per word, in word order |
| Matcher.Matches | src/JCrowe/BadWordFilter/BadWordFilter.php:343-352 | at most one match per pattern, and no empty match is kept |
| Matcher.PositionsMatch | src/JCrowe/BadWordFilter/BadWordFilter.php:343-352 | each collected match is the first match of the pattern at its listed position |
| Matcher.PositionsIncrease | src/JCrowe/BadWordFilter/BadWordFilter.php:343-352 | the matches are collected in pattern order |
| Matcher.PositionsComplete | src/JCrowe/BadWordFilter/BadWordFilter.php:343-352 | a pattern's position is listed if and only if it yields a non-empty match |
| Matcher.MatchesInOrder | src/JCrowe/BadWordFilter/BadWordFilter.php:324-356 | the matches are exactly the non-empty first matches, one per matching pattern, in pattern order |
| Matcher.MatchesEmpty | src/JCrowe/BadWordFilter/BadWordFilter.php:343-352 | no match is collected if and only if every pattern yields the empty match |
| Matcher.IsDirtyIffSomeWordMatches | src/JCrowe/BadWordFilter/BadWordFilter.php:512-525 | a string is dirty if and only if some string of the word list has a pattern with a non-empty match in it |
| Matcher.StringsAreTheStrValues | src/JCrowe/BadWordFilter/BadWordFilter.php:330-333 | the words tested are exactly the string leaves |
| Matcher.NonStringsIgnored | src/JCrowe/BadWordFilter/BadWordFilter.php:330-333 | a non-string word inserted anywhere in the word list changes nothing the matcher reports |
| Masking.Mask | src/JCrowe/BadWordFilter/BadWordFilter.php:489-497 | the mask keeps the first and last character and the length of a word longer than three, with stars between; a shorter word becomes its first character and `**`; another policy is the replacement itself |
| Masking.CleanWithoutWords | src/JCrowe/BadWordFilter/BadWordFilter.php:484-502 | with no non-empty dirty word the text is unchanged |
| Masking.CleanStepAbsent | src/JCrowe/BadWordFilter/BadWordFilter.php:500 | a word that is not in the text changes nothing |
| Masking.CustomReplacementEverywhere | src/JCrowe/BadWordFilter/BadWordFilter.php:496-500 | every occurrence of the word becomes the replacement text |
| Masking.CleanWholeWord | src/JCrowe/BadWordFilter/BadWordFilter.php:486-500 | a text that is the word becomes its mask or replacement |
| Masking.CleanFramedWord | src/JCrowe/BadWordFilter/BadWordFilter.php:486-500 | a word framed by text free of it is replaced and the frame is kept |
| Masking.MaskFourLetters | tests/BadWordFilterTest.php:27-31 | `shit` is cleaned to `s**t` |
| Masking.MaskThreeLetters | tests/BadWordFilterTest.php:34 | `ass` is cleaned to `a**` |
| Masking.CustomReplacementWholeText | tests/BadWordFilterTest.php:41-46 | `replace me` with replacement `#!<>*&` becomes that replacement |
| Masking.MaskAfterSeparator | tests/BadWordFilterTest.php:54-58 | `#replace me` is cleaned to `#r********e` |
| Walker.IndexOf | src/JCrowe/BadWordFilter/BadWordFilter.php:468-470 | the position found holds the key and is the first such; none is found exactly when no entry has the key |
| Walker.UpdateAt | src/JCrowe/BadWordFilter/BadWordFilter.php:464-473 | rewriting along a path keeps the array's length and keys |
| Walker.UpdateAtChangesOnlyItsPath | src/JCrowe/BadWordFilter/BadWordFilter.php:464-473 | the string at the path is rewritten, a path reaching no string changes nothing, and every path that does not enclose the rewritten one reaches what it reached before |
| Walker.DirtyKeysAreDottedPaths | src/JCrowe/BadWordFilter/BadWordFilter.php:412-441 | the dotted keys are the key paths of the dirty strings spelled with dots |
| Walker.DottedIsJoin | src/JCrowe/BadWordFilter/BadWordFilter.php:419-421 | a dotted key is the parent key, a dot and the path's keys joined by dots |
| Walker.CleanArrayRewritesDirtyLeaves | src/JCrowe/BadWordFilter/BadWordFilter.php:448-457 | visiting the dirty paths, in walk order, never fails and rewrites exactly the dirty strings, each once |
| Walker.CleanTreeWithoutDirtyPaths | src/JCrowe/BadWordFilter/BadWordFilter.php:448-457 | an array without dirty strings is returned as it is |
| Walker.NoDirtyKeysNoDirtyPaths | src/JCrowe/BadWordFilter/BadWordFilter.php:399-402 | the walk lists no dotted key if and only if there is no dirty path |
| Walker.DirtyPathsWithoutDots | src/JCrowe/BadWordFilter/BadWordFilter.php:412-441 | every dirty path is non-empty, and made of dot-free keys when the array's keys have no dots |
| Walker.SplittingRecoversPaths | src/JCrowe/BadWordFilter/BadWordFilter.php:466 | without dots in the keys, `explode('.')` gives back each dirty path |
| Walker.AsWrittenAgreesWithoutDots | src/JCrowe/BadWordFilter/BadWordFilter.php:448-473 | without dots in the keys, `cleanArray` as written cleans exactly the dirty strings |
| Walker.AsWrittenFailsOnDottedKey | src/JCrowe/BadWordFilter/BadWordFilter.php:466 | a dirty string under the key `a.b` makes `cleanArray` as written fail, while the corrected walk rewrites it |
| Walker.DirtyKeysOfList | tests/BadWordFilterTest.php:176-185 | the flat example lists the keys `1`, `2`, `filth` |
| Walker.DirtyKeysOfNestedArray | tests/BadWordFilterTest.php:191-207 | the nested example lists `filth.dirty`, `filth.clean.1` |
| Filter.CleanTextUnchangedWhenNotDirty | src/JCrowe/BadWordFilter/BadWordFilter.php:480-505 | a text in which no word matches is not changed by cleaning |
| Filter.BadWordFilter.Configure | src/JCrowe/BadWordFilter/BadWordFilter.php:204-218 | the constructor merges the options into the defaults, records whether a custom list is in use, and compiles the separator and character expressions |
| Filter.BadWordFilter.Create | src/JCrowe/BadWordFilter/BadWordFilter.php:204-218 | construction fails exactly when the word list cannot be assembled, with that error, and otherwise holds the assembled list |
| Filter.BadWordFilter.GenerateEscapedExpression | src/JCrowe/BadWordFilter/BadWordFilter.php:239-250 | the loop builds the escaped entries, then each character quoted, in one class, then the quantifier |
| Filter.BadWordFilter.GenerateSeparatorExpression | src/JCrowe/BadWordFilter/BadWordFilter.php:225-228 | the separator expression is the lazily repeated class of the separators |
| Filter.BadWordFilter.GenerateCharacterExpressions | src/JCrowe/BadWordFilter/BadWordFilter.php:272-284 | the loop compiles one fragment per table entry, in order |
| Filter.BadWordFilter.GetBadWordsByKey | src/JCrowe/BadWordFilter/BadWordFilter.php:631-641 | the loop collects the non-empty tiers named by the keys |
| Filter.BadWordFilter.GetBadWords | src/JCrowe/BadWordFilter/BadWordFilter.php:533-622 | the first call assembles and stores the word list, or fails leaving the object as it was; a later call returns the stored list |
| Filter.BadWordFilter.GetDirtyWordsFromString | src/JCrowe/BadWordFilter/BadWordFilter.php:324-356 | the two loops return the non-empty first matches of the words' patterns, in word order |
| Filter.BadWordFilter.IsADirtyString | src/JCrowe/BadWordFilter/BadWordFilter.php:512-525 | a string is dirty when some match is found |
| Filter.BadWordFilter.CleanString | src/JCrowe/BadWordFilter/BadWordFilter.php:480-505 | each dirty word is replaced everywhere in turn, and a text that is not dirty comes back unchanged |
| Filter.BadWordFilter.FindBadWordsInArray | src/JCrowe/BadWordFilter/BadWordFilter.php:412-441 | the loop lists the dotted keys of the dirty strings, depth first |
| Filter.BadWordFilter.GetDirtyKeysFromArray | src/JCrowe/BadWordFilter/BadWordFilter.php:377-380 | the dotted keys of the dirty strings from the top level |
| Filter.BadWordFilter.IsADirtyArray | src/JCrowe/BadWordFilter/BadWordFilter.php:399-402 | an array is dirty if and only if one of its string leaves is |
| Filter.BadWordFilter.FindDirtyPaths | src/JCrowe/BadWordFilter/BadWordFilter.php:412-441 | the same walk, keeping each key path as its list of keys |
| Filter.BadWordFilter.CleanArrayKey | src/JCrowe/BadWordFilter/BadWordFilter.php:464-473 | following the path and storing the cleaned string rewrites exactly the string at the path; a path that reaches no string is reported as a failure |
| Filter.BadWordFilter.FollowPath | src/JCrowe/BadWordFilter/BadWordFilter.php:468-470 | the loop reaches what the path reaches, and records the arrays on the way |
| Filter.BadWordFilter.StoreAlongPath | src/JCrowe/BadWordFilter/BadWordFilter.php:472 | storing back up the recorded arrays is rewriting the string at the path |
| Filter.BadWordFilter.CleanArray | src/JCrowe/BadWordFilter/BadWordFilter.php:448-457 | the loop applies the dirty paths one after the other |
| Filter.BadWordFilter.IsDirty | src/JCrowe/BadWordFilter/BadWordFilter.php:293-296 | an array is dirty when a string leaf is; a string when a word matches it |
| Filter.BadWordFilter.Scrub | src/JCrowe/BadWordFilter/BadWordFilter.php:306-319 | a string is cleaned; an array comes back with exactly its dirty strings cleaned and every other leaf as it was |

## Left out

- The regular-expression engine: `preg_match` and the `mb_convert_encoding` of its match are the parameter `firstMatch`. A pattern that makes the engine throw is a `firstMatch` that returns "".
- Strings are sequences of characters, not bytes. `strlen` and `$word[0]` in the masking code count bytes in PHP, so a word with a multi-byte character is masked by characters here.
- `cleanString` replaces with `preg_replace("/$word/", …)`. The model replaces the matched text literally, as the pattern means for a match without regex syntax. A match holding regex syntax, `/`, or replacement references is not modelled.
- Masking.Mask: the masked word has the word's length only for words longer than three characters. Shorter words become three characters, as the source does.
- An array-valued `replaceWith` is not modelled: the policy is a string.
- Filter.BadWordFilter.IsDirty: requires a string or an array. PHP's coercion of ints, floats and booleans to strings for `isADirtyString` is not modelled. `Scrub` has the same requirement, which is its declared `string|array` type.
- Filter.BadWordFilter.Scrub: the array result is the dirty strings cleaned, for arrays whose keys are unique at every level (every PHP array). Otherwise the result is stated as the paths applied in turn.
- The `switch` on the source and the strictness compare loosely in PHP. The model compares strings, so a non-string `source` is an invalid source and a non-string `strictness` selects the default tiers.
- Array keys are strings. An integer key is its decimal spelling, as `(string) $key` gives it.
- File I/O: `file_exists` and `include` of the word-list file are the map `files` from path to the array the file returns. A file that returns something other than an array is not modelled.
- Loading the package's default configuration file is not modelled: the defaults are a parameter.
- The separator characters and the glyph table are protected properties, which a subclass may override. They are constructor parameters here, and `SeparatorCharacters`, `EscapedSeparatorCharacters` and `CharacterSubstitutions` hold this class's values.
- The database source always fails, as `getBadWordsFromDB` does.
- The nested lists built by `findBadWordsInArray` are concatenated rather than flattened afterwards; for lists of strings the two agree.
- Filter.BadWordFilter.CleanArray: follows the key paths kept as lists of keys, which is the corrected walk of the second finding. `Walker.CleanArrayAsWritten` models the dot-splitting walk.
- PHP's `&$array[$k]` creates a missing key before `cleanString` rejects the null it finds. The model reports the failure as `None` and keeps no partial array.
- `Arr::flatten` belongs to the Laravel framework, which is not part of this model. It is specified here as the non-array leaves, depth first, in order.
- Compiler.PlaceholdersResolved: stated for words in which the placeholder text `{!!}` does not occur. In a word that contains it, that text is replaced by the separator expression as well. `Compiler.PlaceholderInWord` shows this for the word `{!!}`, and no lemma states the general shape for such words.
- Compiler.ProfanityExpressionShape: stated for words in which `{!!}` does not occur, for the reason given for `PlaceholdersResolved`.
- Compiler.ClassMembersQuoteAll: reads a class body character by character. The patterns carry the flag `i` without `u`, so PCRE reads the class byte by byte. A multi-byte glyph such as `ß` therefore enters the class as its separate UTF-8 bytes, each of which matches alone. "Exactly the quoted characters" holds for single-byte glyphs only.
- Compiler.LetterClass: "exactly the letter's glyphs" holds for single-byte glyphs only, as for `ClassMembersQuoteAll`.
- Matcher.Profanities: compiles each word with the corrected substitution of the first finding, in which each letter is replaced by its fragment literally. The compilation as written is `Compiler.ProfanityExpressionAsWritten`. The two differ for words containing `b`: as written, the custom word `bad` does not match `3ad`.
- Filter.BadWordFilter.GetDirtyWordsFromString: uses the corrected compilation, as `Matcher.Profanities` does.
- WordList.CustomListThenAlsoCheck: stated when no string key of `also_check` is also a key of the custom list. With a shared string key, `array_merge` overwrites that entry in place. `PhpArrays.Put` computes this, but no lemma states it.
- Filter.BadWordFilter.CleanArrayKey: a path that ends at an int, float or boolean is reported as a failure (`None`). The class does not declare strict types, so PHP converts such a value to a string, cleans it and stores the string there. Only a missing key, null or an array raises an error. `Other` does not carry the value, so the model cannot convert it. The corrected walk never meets this case, because every dirty path ends at a string.
- Walker.CleanArrayAsWritten: has the same difference. On `['a' => ['b' => 5], 'a.b' => 'shit']` PHP follows `a`, `b` to `5`, stores the string `"5"` there and returns normally, leaving `a.b` dirty. The model gives `None`. `Walker.ApplyPaths` reports failure for such a path in the same way.
- The Laravel service provider and the HTML wrapper in the tests are not part of this model.

## Findings

| source | as written | input that shows it | evidently intended | confidence | as-written member | corrected member |
|---|---|---|---|---|---|---|
| src/JCrowe/BadWordFilter/BadWordFilter.php:258-263 | the letter fragments are passed to `preg_replace` as replacement texts, so the quoted `\\3` in the fragment for `b` collapses to `\3`, which PCRE then reads inside the class as the octal escape for the character with code 3 | any word containing `b`: its class loses the glyphs `\` and `3` and instead names the character with code 3 | each letter replaced by its fragment literally, so that the class lists exactly the letter's glyphs | not executed | Compiler.AsWrittenLosesGlyphsOfB | Compiler.ProfanityExpressionShape |
| src/JCrowe/BadWordFilter/BadWordFilter.php:466 | `cleanArrayKey` splits the dotted key on every `.`, including dots inside the array's own keys | `['a.b' => 'shit']`: the path becomes `a`, `b`, which holds no string, and cleaning fails | the leaf under the key `a.b` is cleaned | not executed | Walker.AsWrittenFailsOnDottedKey | Walker.CleanArrayRewritesDirtyLeaves |
