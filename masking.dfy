/**
 * The masking engine of `cleanString`: each matched word is replaced,
 * everywhere in the text, either by a mask that keeps its first and last
 * character or by a fixed replacement text.
 */
module Masking {
  import opened Text

  /** The replacement policy that asks for a mask rather than a fixed text. */
  const MaskPolicy: string := "*"

  /**
   * The text a matched word is replaced with. Under the mask policy a word
   * longer than three characters keeps its length, its first and its last
   * character, with stars in between; a shorter word becomes its first
   * character and two stars. Any other policy is the replacement itself.
   */
  function Mask(w: string, replaceWith: string): (r: string)
    requires w != []
    ensures replaceWith != MaskPolicy ==> r == replaceWith
    ensures replaceWith == MaskPolicy && |w| > 3 ==>
      |r| == |w| && r[0] == w[0] && r[|r| - 1] == w[|w| - 1]
      && forall i :: 0 < i < |r| - 1 ==> r[i] == '*'
    ensures replaceWith == MaskPolicy && |w| <= 3 ==>
      |r| == 3 && r[0] == w[0] && r[1] == '*' && r[2] == '*'
  {
    if replaceWith == MaskPolicy then
      if |w| > 3 then [w[0]] + Repeat('*', |w| - 2) + [w[|w| - 1]]
      else [w[0]] + "**"
    else replaceWith
  }

  /** One round of the loop: an empty word is skipped, any other is replaced everywhere. */
  function CleanStep(s: string, w: string, replaceWith: string): string
  {
    if w == [] then s else ReplaceAll(s, w, Mask(w, replaceWith))
  }

  /** `cleanString` once the dirty words are known: the words are handled in order. */
  function CleanWith(s: string, words: seq<string>, replaceWith: string): string
    decreases |words|
  {
    if words == [] then s else CleanWith(CleanStep(s, words[0], replaceWith), words[1..], replaceWith)
  }

  /** With no dirty words, or only empty ones, the text comes back unchanged. */
  lemma {:induction false} CleanWithoutWords(s: string, words: seq<string>, replaceWith: string)
    requires forall i :: 0 <= i < |words| ==> words[i] == []
    ensures CleanWith(s, words, replaceWith) == s
    decreases |words|
  {
    if words != [] {
      CleanWithoutWords(s, words[1..], replaceWith);
    }
  }

  /**
   * A word that is not in the text leaves it as it is: only words that
   * occur change anything.
   */
  lemma CleanStepAbsent(s: string, w: string, replaceWith: string)
    requires !Occurs(s, w)
    ensures CleanStep(s, w, replaceWith) == s
  {
    if w != [] {
      ReplaceAllAbsent(s, w, Mask(w, replaceWith));
    }
  }

  /**
   * Under a policy other than the mask, every occurrence of the matched
   * word is replaced by the policy text, whatever the word's length: a text
   * made of pieces separated by the word (no piece containing it or ending
   * in a part of it) comes out as the same pieces separated by the policy text.
   */
  lemma CustomReplacementEverywhere(parts: seq<string>, w: string, replaceWith: string)
    requires |parts| > 0 && w != [] && replaceWith != MaskPolicy
    requires forall i :: 0 <= i < |parts| ==> !Occurs(parts[i], w) && NoPartialSuffix(parts[i], w)
    ensures CleanWith(Join(parts, w), [w], replaceWith) == Join(parts, replaceWith)
  {
    ReplaceEveryOccurrence(parts, w, replaceWith);
  }

  /** The whole text being the word: it becomes its replacement. */
  lemma CleanWholeWord(w: string, replaceWith: string)
    requires w != []
    ensures CleanWith(w, [w], replaceWith) == Mask(w, replaceWith)
  {
    ReplaceAllLeading(w, "", Mask(w, replaceWith));
    assert w + "" == w;
  }

  /** A word framed by text that does not contain it. */
  lemma CleanFramedWord(pre: string, w: string, post: string, replaceWith: string)
    requires w != [] && !Occurs(pre, w) && NoPartialSuffix(pre, w) && !Occurs(post, w)
    ensures CleanWith(pre + w + post, [w], replaceWith) == pre + Mask(w, replaceWith) + post
  {
    var m := Mask(w, replaceWith);
    ReplaceAllSplit(pre, w + post, w, m);
    ReplaceAllAbsent(pre, w, m);
    ReplaceAllLeading(w, post, m);
    ReplaceAllAbsent(post, w, m);
    assert pre + w + post == pre + (w + post);
  }

  /** "shit" is masked as "s**t". */
  lemma MaskFourLetters()
    ensures CleanWith("shit", ["shit"], MaskPolicy) == "s**t"
  {
    CleanWholeWord("shit", MaskPolicy);
    assert Repeat('*', 2) == "**";
  }

  /** "ass" is masked as "a**". */
  lemma MaskThreeLetters()
    ensures CleanWith("ass", ["ass"], MaskPolicy) == "a**"
  {
    CleanWholeWord("ass", MaskPolicy);
  }

  /** "replace me" with the replacement "#!<>*&" becomes exactly that replacement. */
  lemma CustomReplacementWholeText()
    ensures CleanWith("replace me", ["replace me"], "#!<>*&") == "#!<>*&"
  {
    CleanWholeWord("replace me", "#!<>*&");
  }

  /** A separator before the word stays where it is: "#replace me" becomes "#r********e". */
  lemma MaskAfterSeparator()
    ensures CleanWith("#replace me", ["replace me"], MaskPolicy) == "#r********e"
  {
    var w := "replace me";
    assert !Occurs("#", w) && !Occurs("", w);
    assert NoPartialSuffix("#", w) by {
      forall k | 1 <= k < |w| && k <= 1 ensures "#"[1 - k..] != w[..k] {
        assert w[..k][0] == 'r';
      }
    }
    CleanFramedWord("#", w, "", MaskPolicy);
    assert "#" + w + "" == "#replace me";
    assert Repeat('*', 8) == "********";
  }
}
