/** `grabTagged` and `removeTags` of WebSearch: keep the POS-tagged words `word_TAG` whose tag
    names a noun, adjective, cardinal number, adverb or third-person verb, then cut the tags off. */
module KeywordSelector {
  import opened JavaStrings
  import opened Seqs

  /** `word.substring(word.lastIndexOf("_") + 1)`: the text after the last underscore, or the
      whole word when it has none. */
  function Tag(w: string): string
  {
    w[LastIndexOf(w, '_') + 1..]
  }

  /** The tag is the underscore-free tail of the word, and when the word has an underscore the
      character just before the tag is one. */
  lemma TagIsSuffix(w: string)
    ensures |Tag(w)| <= |w| && w[|w| - |Tag(w)|..] == Tag(w)
    ensures '_' !in Tag(w)
    ensures '_' !in w ==> Tag(w) == w
    ensures '_' in w ==> |Tag(w)| < |w| && w[|w| - |Tag(w)| - 1] == '_'
  {
  }

  /** The tags grabTagged keeps: NN (noun), JJ (adjective), CD (cardinal number), RB (adverb)
      and VBZ (third-person singular present verb). */
  predicate IsKeywordTag(t: string)
  {
    t == "NN" || t == "JJ" || t == "CD" || t == "RB" || t == "VBZ"
  }

  predicate IsKeyword(w: string)
  {
    IsKeywordTag(Tag(w))
  }

  /** `grabTagged(text)`: every word of `text.split(" ")` whose tag is a keyword tag, each
      followed by one space. */
  method GrabTagged(text: string) returns (r: string)
    ensures r == Spaced(Filter(IsKeyword, Split(text)))
  {
    var textArray := Split(text);
    var sb := "";
    var i := 0;
    while i < |textArray|
      invariant 0 <= i <= |textArray|
      invariant sb == Spaced(Filter(IsKeyword, textArray[..i]))
    {
      var word := textArray[i];
      SpacedFilterStep(IsKeyword, textArray, i);
      var tag := word[LastIndexOf(word, '_') + 1..];
      assert tag == Tag(word);
      if IsKeywordTag(tag) {
        sb := sb + word + " ";
      }
      i := i + 1;
    }
    assert textArray[..i] == textArray;
    r := sb;
  }

  /** The selected words are exactly the input words with a keyword tag, each as often as in
      the input; the selection of a concatenation is the concatenation of the selections, so
      the input order is kept. */
  lemma SelectedWords(words: seq<string>, more: seq<string>, w: string)
    ensures multiset(Filter(IsKeyword, words))[w] == if IsKeywordTag(Tag(w)) then multiset(words)[w] else 0
    ensures Filter(IsKeyword, words + more) == Filter(IsKeyword, words) + Filter(IsKeyword, more)
  {
    FilterMultiset(IsKeyword, words, w);
    FilterConcat(IsKeyword, words, more);
  }

  /** The words of removeTags' output, in order: each word cut just before its last
      underscore. A word without one makes `substring(0, -1)` throw. */
  function Untagged(words: seq<string>): Result<seq<string>>
  {
    if words == [] then Success([])
    else
      match Untagged(words[..|words| - 1])
      case Failure(e) => Failure(e)
      case Success(done) =>
        var w := words[|words| - 1];
        var k := LastIndexOf(w, '_');
        if k < 0 then Failure(StringIndexOutOfBounds(k)) else Success(done + [w[..k]])
  }

  /** removeTags fails exactly when some word has no underscore; otherwise it yields one word
      per input word, the input word up to (not including) its last underscore. */
  lemma {:induction false} UntaggedSpec(words: seq<string>)
    ensures Untagged(words).Success? <==> forall i :: 0 <= i < |words| ==> '_' in words[i]
    ensures Untagged(words).Failure? ==> Untagged(words).error == StringIndexOutOfBounds(-1)
    ensures Untagged(words).Success? ==>
      var r := Untagged(words).value;
      |r| == |words| && forall i :: 0 <= i < |words| ==> r[i] == words[i][..LastIndexOf(words[i], '_')]
    decreases |words|
  {
    if words != [] {
      var init := words[..|words| - 1];
      UntaggedSpec(init);
      assert forall i :: 0 <= i < |init| ==> init[i] == words[i];
    }
  }

  /** Tagging then untagging gives the word back: for `w_T` with an underscore-free tag T,
      the tag is T and the untagged word is w. */
  lemma UntagTagged(w: string, t: string)
    requires '_' !in t
    ensures Tag(w + "_" + t) == t
    ensures Untagged([w + "_" + t]) == Success([w])
  {
    var s := w + "_" + t;
    assert s[|w|] == '_' && s[|w| + 1..] == t && s[..|w|] == w;
    var k := LastIndexOf(s, '_');
    assert k == |w|;
    var one: seq<string> := [s];
    var none: seq<string> := [];
    assert one[..0] == none;
    assert Untagged(one) == Success(none + [s[..k]]);
    assert none + [s[..k]] == [w];
  }

  /** `removeTags(text)`: every word of `text.split(" ")` with its tag removed, each followed
      by one space; the first word without an underscore raises the exception instead. */
  method RemoveTags(text: string) returns (r: Result<string>)
    ensures Untagged(Split(text)).Success? ==> r == Success(Spaced(Untagged(Split(text)).value))
    ensures Untagged(Split(text)).Failure? ==> r == Failure(Untagged(Split(text)).error)
  {
    var textArray := Split(text);
    var sb := "";
    var i := 0;
    while i < |textArray|
      invariant 0 <= i <= |textArray|
      invariant Untagged(textArray[..i]).Success?
      invariant sb == Spaced(Untagged(textArray[..i]).value)
    {
      var word := textArray[i];
      ghost var done := Untagged(textArray[..i]).value;
      assert textArray[..i + 1][..i] == textArray[..i];
      var k := LastIndexOf(word, '_');
      if k < 0 {
        FailurePersists(textArray, i + 1);
        return Failure(StringIndexOutOfBounds(k));
      }
      SpacedSnoc(done, word[..k]);
      sb := sb + word[..k] + " ";
      i := i + 1;
    }
    assert textArray[..i] == textArray;
    r := Success(sb);
  }

  /** Once a prefix of the words fails, so do all the words. */
  lemma {:induction false} FailurePersists(words: seq<string>, n: nat)
    requires n <= |words| && Untagged(words[..n]).Failure?
    ensures Untagged(words) == Untagged(words[..n])
    decreases |words| - n
  {
    if n < |words| {
      assert words[..n + 1][..n] == words[..n];
      FailurePersists(words, n + 1);
    } else {
      assert words[..n] == words;
    }
  }

  /** A page with no selected keyword crashes removeTags: grabTagged then yields the empty
      string, which splits to `[""]`, and `"".substring(0, -1)` throws. */
  lemma NoKeywordsFails()
    ensures Untagged(Split(Spaced([]))) == Failure(StringIndexOutOfBounds(-1))
  {
    assert Split("") == [""];
    assert [""][..0] == [];
  }
}
