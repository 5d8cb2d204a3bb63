/** `removeStopWords` of WebSearch: the words of the text are put in an array, every entry equal
    to a stop word is overwritten with the empty string, and the non-empty entries are joined
    back, each followed by one space. The stop list is a parameter here. */
module StopwordFilter {
  import opened JavaStrings
  import opened Seqs

  /** The content of a word's slot once the stop words `stops` have been compared with it. */
  function Blank(w: string, stops: seq<string>): string
  {
    if w in stops then "" else w
  }

  /** The array after the stop-list loop has run over `stops`. */
  function BlankStopWords(ws: seq<string>, stops: seq<string>): (r: seq<string>)
    ensures |r| == |ws|
  {
    seq(|ws|, i requires 0 <= i < |ws| => Blank(ws[i], stops))
  }

  predicate NonEmpty(w: string)
  {
    w != ""
  }

  /** The words removeStopWords emits, in order. */
  function Surviving(ws: seq<string>, stops: seq<string>): seq<string>
  {
    Filter(NonEmpty, BlankStopWords(ws, stops))
  }

  /** The nested loops of removeStopWords: for each stop word in turn, every array slot equal
      to it is overwritten with the empty string. */
  method BlankInPlace(textArray: array<string>, stoplist: seq<string>)
    modifies textArray
    ensures textArray[..] == BlankStopWords(old(textArray[..]), stoplist)
  {
    ghost var words := textArray[..];
    var k := 0;
    while k < |stoplist|
      invariant 0 <= k <= |stoplist|
      invariant forall j :: 0 <= j < |words| ==> textArray[j] == Blank(words[j], stoplist[..k])
    {
      var currentStopWord := stoplist[k];
      assert stoplist[..k + 1] == stoplist[..k] + [currentStopWord];
      var i := 0;
      while i < textArray.Length
        invariant 0 <= i <= textArray.Length
        invariant forall j :: 0 <= j < i ==> textArray[j] == Blank(words[j], stoplist[..k + 1])
        invariant forall j :: i <= j < textArray.Length ==> textArray[j] == Blank(words[j], stoplist[..k])
      {
        BlankStep(words[i], stoplist[..k], currentStopWord);
        if textArray[i] == currentStopWord {
          textArray[i] := "";
        }
        i := i + 1;
      }
      k := k + 1;
    }
    assert stoplist[..k] == stoplist;
  }

  /** `removeStopWords(text)` with the lines of the stop-list file as `stoplist`. */
  method RemoveStopWords(text: string, stoplist: seq<string>) returns (r: string)
    ensures r == Spaced(Surviving(Split(text), stoplist))
  {
    var words := Split(text);
    var textArray := new string[|words|](i requires 0 <= i < |words| => words[i]);
    assert textArray[..] == words;
    BlankInPlace(textArray, stoplist);
    ghost var blanked := textArray[..];

    var sb := "";
    var i := 0;
    while i < textArray.Length
      invariant 0 <= i <= textArray.Length
      invariant textArray[..] == blanked
      invariant sb == Spaced(Filter(NonEmpty, blanked[..i]))
    {
      var st := textArray[i];
      SpacedFilterStep(NonEmpty, blanked, i);
      if st != "" {
        sb := sb + st + " ";
      }
      i := i + 1;
    }
    assert blanked[..i] == blanked;
    r := sb;
  }

  /** One pass of the outer loop over one slot: the slot is emptied when it holds the
      current stop word. */
  lemma BlankStep(w: string, stops: seq<string>, stop: string)
    ensures Blank(w, stops + [stop]) == if Blank(w, stops) == stop then "" else Blank(w, stops)
  {
    assert w in stops + [stop] <==> w in stops || w == stop;
  }

  lemma BlankStopWordsConcat(a: seq<string>, b: seq<string>, stops: seq<string>)
    ensures BlankStopWords(a + b, stops) == BlankStopWords(a, stops) + BlankStopWords(b, stops)
  {
  }

  lemma {:induction false} BlankStopWordsCounts(ws: seq<string>, stops: seq<string>, w: string)
    requires w != ""
    ensures multiset(BlankStopWords(ws, stops))[w] == if w in stops then 0 else multiset(ws)[w]
    decreases |ws|
  {
    if ws != [] {
      var init, last := ws[..|ws| - 1], ws[|ws| - 1];
      assert ws == init + [last];
      BlankStopWordsConcat(init, [last], stops);
      BlankStopWordsCounts(init, stops, w);
    }
  }

  /** No emitted word is empty or a stop word, and every other word survives with its
      multiplicity. */
  lemma SurvivingCounts(ws: seq<string>, stops: seq<string>, w: string)
    ensures multiset(Surviving(ws, stops))[w] == if w == "" || w in stops then 0 else multiset(ws)[w]
  {
    FilterMultiset(NonEmpty, BlankStopWords(ws, stops), w);
    if w != "" {
      BlankStopWordsCounts(ws, stops, w);
    }
  }

  /** The output for a concatenation is the concatenation of the outputs: the input order
      is kept. */
  lemma SurvivingConcat(ws: seq<string>, more: seq<string>, stops: seq<string>)
    ensures Surviving(ws + more, stops) == Surviving(ws, stops) + Surviving(more, stops)
  {
    BlankStopWordsConcat(ws, more, stops);
    FilterConcat(NonEmpty, BlankStopWords(ws, stops), BlankStopWords(more, stops));
  }

  /** Splitting the output again (as calculateTF does) gives back exactly the surviving
      words — or `[""]` when none survived. */
  lemma SplitSurviving(ws: seq<string>, stops: seq<string>)
    requires forall w <- ws :: ' ' !in w
    ensures var s := Surviving(ws, stops);
      Split(Spaced(s)) == if s == [] then [""] else s
  {
    var b := BlankStopWords(ws, stops);
    var s := Surviving(ws, stops);
    assert forall x <- b :: x == "" || x in ws;
    FilterSubset(NonEmpty, b);
    SplitSpaced(s);
    if s != [] {
      assert s[|s| - 1] != "";
    }
  }
}
