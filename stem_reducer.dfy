/** The loop of `stemming` in WebSearch. The stemmer itself (Stanford CoreNLP's
    Morphology.stem) is not part of this model: it is the parameter `stem`. */
module StemReducer {
  import opened JavaStrings
  import opened Seqs

  /** `stemming(text)`: every word of `text.split(" ")` replaced by its stem, each followed by
      one space. */
  method Stemming(text: string, stem: string -> string) returns (r: string)
    ensures r == Spaced(Map(stem, Split(text)))
  {
    var textArray := Split(text);
    var sb := "";
    var i := 0;
    while i < |textArray|
      invariant 0 <= i <= |textArray|
      invariant sb == Spaced(Map(stem, textArray[..i]))
    {
      var word := textArray[i];
      SpacedMapStep(stem, textArray, i);
      sb := sb + stem(word) + " ";
      i := i + 1;
    }
    assert textArray[..i] == textArray;
    r := sb;
  }

  /** When no stem of an input word contains a space, splitting the output again (as calculateTF does) gives
      one stem per input word, in order, minus trailing empty stems. */
  lemma StemmedSplit(text: string, stem: string -> string)
    requires forall w <- Split(text) :: ' ' !in stem(w)
    ensures var stems := Map(stem, Split(text));
      Split(Spaced(stems)) == if stems == [] then [""] else DropTrailingEmpty(stems)
  {
    var words := Split(text);
    var stems := Map(stem, words);
    assert forall i :: 0 <= i < |stems| ==> ' ' !in stems[i] by {
      forall i | 0 <= i < |stems|
        ensures ' ' !in stems[i]
      {
        assert words[i] in words;
      }
    }
    SplitSpaced(stems);
  }
}
