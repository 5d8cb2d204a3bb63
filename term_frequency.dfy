/** `calculateTF` and `writeTF` of WebSearch: the term-frequency map kept in the `tfMap` field,
    and the fixed-width lines it is written out as. */
module TermFrequency {
  import opened JavaStrings
  import opened Seqs

  /** The count a map holds for w, 0 when w is absent. */
  function CountOf(m: map<string, int>, w: string): int
  {
    if w in m then m[w] else 0
  }

  /** The map after counting the words ws into m, one after the other: a word already present
      is incremented, a new word starts at 1. */
  function AddCounts(m: map<string, int>, ws: seq<string>): map<string, int>
  {
    if ws == [] then m
    else
      var prev := AddCounts(m, ws[..|ws| - 1]);
      var w := ws[|ws| - 1];
      if w in prev then prev[w := prev[w] + 1] else prev[w := 1]
  }

  /** Counting adds each word's number of occurrences to its old count (0 if absent); the
      keys gained are exactly the words counted; counts stay positive. */
  lemma AddCountsSpec(m: map<string, int>, ws: seq<string>)
    ensures forall w :: CountOf(AddCounts(m, ws), w) == CountOf(m, w) + multiset(ws)[w]
    ensures AddCounts(m, ws).Keys == m.Keys + set w | w in ws
    ensures (forall w :: w in m ==> m[w] >= 1) ==> forall w :: w in AddCounts(m, ws) ==> AddCounts(m, ws)[w] >= 1
  {
    AddCountsCounts(m, ws);
    AddCountsKeys(m, ws);
  }

  lemma {:induction false} AddCountsCounts(m: map<string, int>, ws: seq<string>)
    ensures forall w :: CountOf(AddCounts(m, ws), w) == CountOf(m, w) + multiset(ws)[w]
    decreases |ws|
  {
    if ws != [] {
      var init, last := ws[..|ws| - 1], ws[|ws| - 1];
      assert ws == init + [last];
      AddCountsCounts(m, init);
    }
  }

  lemma {:induction false} AddCountsKeys(m: map<string, int>, ws: seq<string>)
    ensures AddCounts(m, ws).Keys == m.Keys + set w | w in ws
    decreases |ws|
  {
    if ws != [] {
      var init, last := ws[..|ws| - 1], ws[|ws| - 1];
      assert ws == init + [last];
      AddCountsKeys(m, init);
      assert (set w | w in ws) == (set w | w in init) + {last};
    }
  }

  /** A word that does not occur in ws keeps its entry, present or absent, unchanged. */
  lemma AddCountsOthersUnchanged(m: map<string, int>, ws: seq<string>, w: string)
    requires w !in ws
    ensures w in AddCounts(m, ws) <==> w in m
    ensures w in m ==> AddCounts(m, ws)[w] == m[w]
  {
    AddCountsSpec(m, ws);
    assert multiset(ws)[w] == 0;
    assert CountOf(AddCounts(m, ws), w) == CountOf(m, w);
  }

  /** One line of the TF file: `String.format("%15s%5d%15s", word, count, docId)`, each field
      right-justified in its width. */
  function FormatTfLine(word: string, count: int, docId: int): string
  {
    PadLeft(word, 15) + PadLeft(IntToString(count), 5) + PadLeft(IntToString(docId), 15)
  }

  /** A sequence without repeated elements has as many distinct elements as entries. */
  lemma {:induction false} DistinctCard(s: seq<string>)
    requires forall i, j :: 0 <= i < j < |s| ==> s[i] != s[j]
    ensures |set x | x in s| == |s|
    decreases |s|
  {
    if s != [] {
      var init, last := s[..|s| - 1], s[|s| - 1];
      assert s == init + [last];
      DistinctCard(init);
      assert (set x | x in s) == (set x | x in init) + {last};
      assert last !in init;
    }
  }

  /** The loop of writeTF: one line per word of `order`, in that order, each made by `format`. */
  method FormatLines(order: seq<string>, format: string -> string) returns (lines: seq<string>)
    ensures lines == Map(format, order)
  {
    lines := [];
    var i := 0;
    while i < |order|
      invariant 0 <= i <= |order|
      invariant lines == Map(format, order[..i])
    {
      var word := order[i];
      assert order[..i + 1] == order[..i] + [word];
      MapSnoc(format, order[..i], word);
      lines := lines + [format(word)];
      i := i + 1;
    }
    assert order[..i] == order;
  }

  /** A duplicate-free enumeration of a map's keys has one entry per key. */
  lemma EnumerationSize(order: seq<string>, m: map<string, int>)
    requires forall w <- order :: w in m
    requires forall w :: w in m ==> w in order
    requires forall i, j :: 0 <= i < j < |order| ==> order[i] != order[j]
    ensures |order| == |m|
  {
    DistinctCard(order);
    assert (set x | x in order) == m.Keys;
  }

  class WebSearch {
    /** Term to count. Never cleared: counts accumulate over all documents indexed so far. */
    var tfMap: map<string, int>

    /** Every stored count is at least 1. */
    ghost predicate Valid()
      reads this
    {
      forall w :: w in tfMap ==> tfMap[w] >= 1
    }

    constructor ()
      ensures tfMap == map[] && Valid()
    {
      tfMap := map[];
    }

    /** `calculateTF(text)`: every word of `text.split(" ")` counted into tfMap. */
    method CalculateTF(text: string)
      requires Valid()
      modifies this
      ensures Valid()
      ensures tfMap == AddCounts(old(tfMap), Split(text))
      ensures forall w :: CountOf(tfMap, w) == CountOf(old(tfMap), w) + multiset(Split(text))[w]
      ensures tfMap.Keys == old(tfMap).Keys + set w | w in Split(text)
    {
      var textArray := Split(text);
      var i := 0;
      while i < |textArray|
        invariant 0 <= i <= |textArray|
        invariant tfMap == AddCounts(old(tfMap), textArray[..i])
      {
        var word := textArray[i];
        assert textArray[..i + 1][..i] == textArray[..i];
        if word in tfMap {
          tfMap := tfMap[word := tfMap[word] + 1];
        } else {
          tfMap := tfMap[word := 1];
        }
        i := i + 1;
      }
      assert textArray[..i] == textArray;
      AddCountsSpec(old(tfMap), textArray);
    }

    /** `writeTF()`: one formatted line per key of tfMap, in the map's iteration order, which
        Java leaves unspecified and is therefore the parameter `order` here. */
    method WriteTF(order: seq<string>, docId: int) returns (lines: seq<string>)
      requires forall w <- order :: w in tfMap
      requires forall w :: w in tfMap ==> w in order
      requires forall i, j :: 0 <= i < j < |order| ==> order[i] != order[j]
      ensures |lines| == |order| == |tfMap|
      ensures forall i :: 0 <= i < |order| ==> lines[i] == FormatTfLine(order[i], tfMap[order[i]], docId)
    {
      var m := tfMap;
      lines := FormatLines(order, w => FormatTfLine(w, CountOf(m, w), docId));
      EnumerationSize(order, tfMap);
    }
  }

  /** An empty text still counts one word, the empty string: `"".split(" ")` is `[""]`. */
  lemma EmptyTextCountsEmptyWord(m: map<string, int>)
    ensures CountOf(AddCounts(m, Split("")), "") == CountOf(m, "") + 1
  {
    assert Split("") == [""];
    AddCountsSpec(m, [""]);
  }
}
