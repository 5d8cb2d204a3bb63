/** The merge loop of `writeInvertedIndex` in WebSearch. It reads the current index file and
    a TF file line by line, in lock step: line i of the index gets ` <docId>` appended when
    its term (the text before its first space) equals the term of line i of the TF file, and
    once one file runs out the rest of the other is copied. It is a positional walk, not a
    sorted merge. The files are sequences of lines here. */
module IndexMerge {
  import opened Seqs
  import opened JavaStrings
  import opened TermFrequency

  /** `line.substring(0, line.indexOf(" "))`: the text before the first space, or the
      exception when the line has no space. */
  function TermOf(line: string): Result<string>
  {
    var k := IndexOf(line, ' ');
    if k < 0 then Failure(StringIndexOutOfBounds(k)) else Success(line[..k])
  }

  /** The text a matched index line gets appended: `" " + docId`. */
  function Stamp(docId: int): string
  {
    " " + IntToString(docId)
  }

  /** A failure propagates; a success gets `done` in front. */
  function Prepend(done: seq<string>, r: Result<seq<string>>): Result<seq<string>>
  {
    match r
    case Failure(e) => Failure(e)
    case Success(rest) => Success(done + rest)
  }

  /** The lines the merge writes to the new index file, or the exception it raises. `stamp`
      is what a matched line gets appended: a space and the document ID. */
  function MergeLines(index: seq<string>, tf: seq<string>, stamp: string): Result<seq<string>>
    decreases |index|
  {
    if index == [] then Success(tf)
    else if tf == [] then Success(index)
    else
      match TermOf(index[0])
      case Failure(e) => Failure(e)
      case Success(term) =>
        match TermOf(tf[0])
        case Failure(e) => Failure(e)
        case Success(checkTerm) =>
          var line := if term == checkTerm then index[0] + stamp else index[0];
          Prepend([line], MergeLines(index[1..], tf[1..], stamp))
  }

  /** The merge step of writeInvertedIndex for the document `docId`. */
  method MergeIndex(index: seq<string>, tf: seq<string>, docId: int) returns (r: Result<seq<string>>)
    ensures r == MergeLines(index, tf, Stamp(docId))
  {
    r := MergeWith(index, tf, Stamp(docId));
  }

  /** The lock-step merge loop, followed by the copy of whichever input has lines left. */
  method MergeWith(index: seq<string>, tf: seq<string>, stamp: string) returns (r: Result<seq<string>>)
    ensures r == MergeLines(index, tf, stamp)
  {
    var written: seq<string> := [];
    var i := 0;
    assert index[i..] == index && tf[i..] == tf;
    PrependNothing(MergeLines(index, tf, stamp));
    while i < |index| && i < |tf|
      invariant 0 <= i <= |index| && i <= |tf|
      invariant MergeLines(index, tf, stamp) == Prepend(written, MergeLines(index[i..], tf[i..], stamp))
    {
      var currentLine, checkLine := index[i], tf[i];
      var k := IndexOf(currentLine, ' ');
      if k < 0 {
        MergeFailsAt(index, tf, stamp, written, i);
        return Failure(StringIndexOutOfBounds(k));
      }
      var term := currentLine[..k];
      var c := IndexOf(checkLine, ' ');
      if c < 0 {
        MergeFailsAt(index, tf, stamp, written, i);
        return Failure(StringIndexOutOfBounds(c));
      }
      var line := if term == checkLine[..c] then currentLine + stamp else currentLine;
      MergeAdvances(index, tf, stamp, written, i, line);
      written := written + [line];
      i := i + 1;
    }
    MergeTail(index, tf, stamp, i);
    if i == |index| && i < |tf| {
      written := CopyRest(written, tf, i);
    } else if i < |index| && i == |tf| {
      written := CopyRest(written, index, i);
    } else {
      assert tf[i..] == [];
      assert written + [] == written;
    }
    r := Success(written);
  }

  /** The lock-step loop's invariant survives one step that writes `line`. */
  lemma MergeAdvances(index: seq<string>, tf: seq<string>, stamp: string, written: seq<string>, i: int, line: string)
    requires 0 <= i < |index| && i < |tf|
    requires TermOf(index[i]).Success? && TermOf(tf[i]).Success?
    requires line == MergedLine(index[i], tf[i], stamp)
    requires MergeLines(index, tf, stamp) == Prepend(written, MergeLines(index[i..], tf[i..], stamp))
    ensures MergeLines(index, tf, stamp) == Prepend(written + [line], MergeLines(index[i + 1..], tf[i + 1..], stamp))
  {
    assert index[i..][0] == index[i] && index[i..][1..] == index[i + 1..];
    assert tf[i..][0] == tf[i] && tf[i..][1..] == tf[i + 1..];
    MergeLinesStep(index[i..], tf[i..], stamp);
    PrependPrepend(written, [line], MergeLines(index[i + 1..], tf[i + 1..], stamp));
  }

  /** Once one input has run out, the merge of what is left is the other input's rest. */
  lemma MergeTail(index: seq<string>, tf: seq<string>, stamp: string, i: int)
    requires 0 <= i <= |index| && i <= |tf| && (i == |index| || i == |tf|)
    ensures MergeLines(index[i..], tf[i..], stamp) == Success(if i == |index| then tf[i..] else index[i..])
  {
    if i == |index| {
      assert index[i..] == [];
    } else {
      assert tf[i..] == [];
    }
  }

  /** A lock-step line without a space makes the whole merge fail. */
  lemma MergeFailsAt(index: seq<string>, tf: seq<string>, stamp: string, written: seq<string>, i: int)
    requires 0 <= i < |index| && i < |tf|
    requires ' ' !in index[i] || ' ' !in tf[i]
    requires MergeLines(index, tf, stamp) == Prepend(written, MergeLines(index[i..], tf[i..], stamp))
    ensures MergeLines(index, tf, stamp) == Failure(StringIndexOutOfBounds(-1))
  {
    assert index[i..][0] == index[i] && tf[i..][0] == tf[i];
    MergeLinesStep(index[i..], tf[i..], stamp);
  }

  /** The loop that copies the lines left in one input once the other has run out. */
  method CopyRest(written: seq<string>, lines: seq<string>, from: int) returns (out: seq<string>)
    requires 0 <= from <= |lines|
    ensures out == written + lines[from..]
  {
    out := written;
    var j := from;
    while j < |lines|
      invariant from <= j <= |lines|
      invariant out == written + lines[from..j]
    {
      assert lines[from..j + 1] == lines[from..j] + [lines[j]];
      assert written + (lines[from..j] + [lines[j]]) == (written + lines[from..j]) + [lines[j]];
      out := out + [lines[j]];
      j := j + 1;
    }
    assert lines[from..j] == lines[from..];
  }

  lemma PrependNothing(r: Result<seq<string>>)
    ensures Prepend([], r) == r
  {
    if r.Success? {
      assert [] + r.value == r.value;
    }
  }

  lemma PrependPrepend(a: seq<string>, b: seq<string>, r: Result<seq<string>>)
    ensures Prepend(a, Prepend(b, r)) == Prepend(a + b, r)
  {
    if r.Success? {
      assert a + (b + r.value) == (a + b) + r.value;
    }
  }

  /** The line written for index line `cur` read beside TF line `chk`: `stamp` is appended
      exactly when the two terms are equal. */
  function MergedLine(cur: string, chk: string, stamp: string): string
  {
    if TermOf(cur) == TermOf(chk) then cur + stamp else cur
  }

  /** One step of the merge: the first lines' terms, then the rest. */
  lemma MergeLinesStep(index: seq<string>, tf: seq<string>, stamp: string)
    requires index != [] && tf != []
    ensures TermOf(index[0]).Failure? ==> MergeLines(index, tf, stamp) == Failure(TermOf(index[0]).error)
    ensures TermOf(index[0]).Success? && TermOf(tf[0]).Failure? ==>
      MergeLines(index, tf, stamp) == Failure(TermOf(tf[0]).error)
    ensures TermOf(index[0]).Success? && TermOf(tf[0]).Success? ==>
      MergeLines(index, tf, stamp) ==
        Prepend([MergedLine(index[0], tf[0], stamp)], MergeLines(index[1..], tf[1..], stamp))
  {
  }

  /** One step of the merge, seen from a successful result. */
  lemma MergeLinesCons(index: seq<string>, tf: seq<string>, stamp: string)
    requires index != [] && tf != []
    requires MergeLines(index, tf, stamp).Success?
    ensures TermOf(index[0]).Success? && TermOf(tf[0]).Success?
    ensures MergeLines(index[1..], tf[1..], stamp).Success?
    ensures MergeLines(index, tf, stamp).value ==
      [MergedLine(index[0], tf[0], stamp)] + MergeLines(index[1..], tf[1..], stamp).value
  {
  }

  /** The merge fails exactly when one of the lines read in lock step has no space, and the
      failure is the exception of `substring(0, -1)`. */
  lemma {:induction false} MergeLinesSucceeds(index: seq<string>, tf: seq<string>, stamp: string)
    ensures MergeLines(index, tf, stamp).Success? <==>
      forall i :: 0 <= i < Min(|index|, |tf|) ==> ' ' in index[i] && ' ' in tf[i]
    ensures MergeLines(index, tf, stamp).Failure? ==>
      MergeLines(index, tf, stamp).error == StringIndexOutOfBounds(-1)
    decreases |index|
  {
    if index != [] && tf != [] {
      MergeLinesSucceeds(index[1..], tf[1..], stamp);
      assert forall i :: 1 <= i < Min(|index|, |tf|) ==> index[1..][i - 1] == index[i] && tf[1..][i - 1] == tf[i];
    }
  }

  /** The shape of a successful merge: as many lines as the longer input; line i, below the
      shorter length, is index line i with `stamp` appended exactly when its term equals the
      term of TF line i; the longer input's remaining lines follow unchanged. */
  lemma MergeLinesShape(index: seq<string>, tf: seq<string>, stamp: string)
    requires MergeLines(index, tf, stamp).Success?
    ensures var out, n := MergeLines(index, tf, stamp).value, Min(|index|, |tf|);
      |out| == Max(|index|, |tf|) &&
      (forall i :: 0 <= i < n ==> out[i] == MergedLine(index[i], tf[i], stamp)) &&
      out[n..] == if |index| > |tf| then index[n..] else tf[n..]
  {
    MergeLinesLength(index, tf, stamp);
    MergeLinesPointwise(index, tf, stamp);
    MergeLinesRest(index, tf, stamp);
  }

  /** A successful merge has as many lines as the longer input. */
  lemma {:induction false} MergeLinesLength(index: seq<string>, tf: seq<string>, stamp: string)
    requires MergeLines(index, tf, stamp).Success?
    ensures |MergeLines(index, tf, stamp).value| == Max(|index|, |tf|)
    decreases |index|
  {
    if index != [] && tf != [] {
      MergeLinesCons(index, tf, stamp);
      MergeLinesLength(index[1..], tf[1..], stamp);
    }
  }

  /** Line i of a successful merge, below the shorter length, is the merged line of the two
      inputs' lines i. */
  lemma {:induction false} MergeLinesPointwise(index: seq<string>, tf: seq<string>, stamp: string)
    requires MergeLines(index, tf, stamp).Success?
    ensures var out := MergeLines(index, tf, stamp).value;
      |out| >= Min(|index|, |tf|) &&
      forall i :: 0 <= i < Min(|index|, |tf|) ==> out[i] == MergedLine(index[i], tf[i], stamp)
    decreases |index|
  {
    if index != [] && tf != [] {
      MergeLinesCons(index, tf, stamp);
      MergeLinesPointwise(index[1..], tf[1..], stamp);
      ConsPointwise(index, tf, stamp, MergeLines(index[1..], tf[1..], stamp).value);
    }
  }

  /** Line-by-line merging carries over from the tails to the whole, one line in front. */
  lemma ConsPointwise(index: seq<string>, tf: seq<string>, stamp: string, rest: seq<string>)
    requires index != [] && tf != []
    requires |rest| >= Min(|index| - 1, |tf| - 1)
    requires forall i :: 0 <= i < Min(|index| - 1, |tf| - 1) ==>
      rest[i] == MergedLine(index[1..][i], tf[1..][i], stamp)
    ensures var out := [MergedLine(index[0], tf[0], stamp)] + rest;
      |out| >= Min(|index|, |tf|) &&
      forall i :: 0 <= i < Min(|index|, |tf|) ==> out[i] == MergedLine(index[i], tf[i], stamp)
  {
    var out := [MergedLine(index[0], tf[0], stamp)] + rest;
    forall i | 1 <= i < Min(|index|, |tf|)
      ensures out[i] == MergedLine(index[i], tf[i], stamp)
    {
      assert out[i] == rest[i - 1];
      assert index[1..][i - 1] == index[i] && tf[1..][i - 1] == tf[i];
    }
  }

  /** After the lock-step part, a successful merge holds the longer input's remaining lines. */
  lemma {:induction false} MergeLinesRest(index: seq<string>, tf: seq<string>, stamp: string)
    requires MergeLines(index, tf, stamp).Success?
    ensures var out, n := MergeLines(index, tf, stamp).value, Min(|index|, |tf|);
      |out| >= n && out[n..] == if |index| > |tf| then index[n..] else tf[n..]
    decreases |index|
  {
    if index != [] && tf != [] {
      MergeLinesCons(index, tf, stamp);
      MergeLinesRest(index[1..], tf[1..], stamp);
      var n := Min(|index|, |tf|);
      var rest := MergeLines(index[1..], tf[1..], stamp).value;
      ConsDrop(MergedLine(index[0], tf[0], stamp), rest, n);
      DropDrop(index, n);
      DropDrop(tf, n);
    } else {
      assert index[0..] == index && tf[0..] == tf;
    }
  }

  /** No index line is lost or reordered: output line i is index line i, verbatim or with
      `stamp` appended. */
  lemma MergePreservesIndex(index: seq<string>, tf: seq<string>, stamp: string)
    requires MergeLines(index, tf, stamp).Success?
    ensures var out := MergeLines(index, tf, stamp).value;
      |out| >= |index| && forall i :: 0 <= i < |index| ==> out[i] == index[i] || out[i] == index[i] + stamp
  {
    MergeLinesShape(index, tf, stamp);
    var out, n := MergeLines(index, tf, stamp).value, Min(|index|, |tf|);
    forall i | n <= i < |index|
      ensures out[i] == index[i]
    {
      assert out[n..][i - n] == index[n..][i - n];
    }
  }

  /** The TF line of a word shorter than 15 characters starts with padding (so it meets
      the premise of PaddedLinesAlwaysMatch), so its term is empty; a longer word whose count
      has at most four digits is its own term. */
  lemma TfLineTerm(word: string, count: int, docId: int)
    requires ' ' !in word
    ensures |word| < 15 ==> Padded(FormatTfLine(word, count, docId))
    ensures |word| < 15 ==> TermOf(FormatTfLine(word, count, docId)) == Success("")
    ensures |word| >= 15 && 0 <= count < 10000 ==> TermOf(FormatTfLine(word, count, docId)) == Success(word)
  {
    var line := FormatTfLine(word, count, docId);
    PadLeftSpec(word, 15);
    if |word| < 15 {
      assert line[0] == PadLeft(word, 15)[0] == ' ';
      IndexOfAt(line, ' ', 0);
    } else if 0 <= count < 10000 {
      assert PadLeft(word, 15) == word;
      assert Pow10(4) == 10000;
      NatToStringLength(count, 4);
      var countField := PadLeft(IntToString(count), 5);
      PadLeftSpec(IntToString(count), 5);
      assert countField[0] == ' ';
      assert line == word + countField + PadLeft(IntToString(docId), 15);
      assert line[|word|] == ' ' && line[..|word|] == word;
      IndexOfAt(line, ' ', |word|);
    }
  }

  /** Lines that start with a space (every TF line of a word shorter than 15 characters, and
      every index line made from one) all have the empty term, so every line read in lock
      step gets the stamp appended, whatever the words; the output lines start with a
      space again, so the next merge behaves the same way. */
  lemma PaddedLinesAlwaysMatch(index: seq<string>, tf: seq<string>, stamp: string)
    requires forall l <- index :: Padded(l)
    requires forall l <- tf :: Padded(l)
    ensures MergeLines(index, tf, stamp).Success?
    ensures var out := MergeLines(index, tf, stamp).value;
      |out| == Max(|index|, |tf|) &&
      (forall i :: 0 <= i < Min(|index|, |tf|) ==> out[i] == index[i] + stamp) &&
      (forall l <- out :: Padded(l))
  {
    PaddedPairs(index, tf, stamp);
    MergeLinesSucceeds(index, tf, stamp);
    MergeLinesShape(index, tf, stamp);
    PaddedOutput(MergeLines(index, tf, stamp).value, index, tf, stamp);
  }

  /** A line that starts with the padding of `%15s`. */
  predicate Padded(l: string)
  {
    |l| > 0 && l[0] == ' '
  }

  /** Lines read in lock step from padded inputs have a space and the same (empty) term. */
  lemma PaddedPairs(index: seq<string>, tf: seq<string>, stamp: string)
    requires forall l <- index :: Padded(l)
    requires forall l <- tf :: Padded(l)
    ensures forall i :: 0 <= i < Min(|index|, |tf|) ==>
      ' ' in index[i] && ' ' in tf[i] && MergedLine(index[i], tf[i], stamp) == index[i] + stamp
  {
    forall i | 0 <= i < Min(|index|, |tf|)
      ensures ' ' in index[i] && ' ' in tf[i] && MergedLine(index[i], tf[i], stamp) == index[i] + stamp
    {
      assert index[i] in index && tf[i] in tf;
      PaddedTerm(index[i]);
      PaddedTerm(tf[i]);
    }
  }

  /** Lines that are padded inputs, verbatim or with something appended, are padded. */
  lemma PaddedOutput(out: seq<string>, index: seq<string>, tf: seq<string>, stamp: string)
    requires forall l <- index :: Padded(l)
    requires forall l <- tf :: Padded(l)
    requires |out| == Max(|index|, |tf|)
    requires forall i :: 0 <= i < Min(|index|, |tf|) ==> out[i] == index[i] + stamp
    requires var n := Min(|index|, |tf|);
      out[n..] == if |index| > |tf| then index[n..] else tf[n..]
    ensures forall l <- out :: Padded(l)
  {
    var n := Min(|index|, |tf|);
    forall i | 0 <= i < |out|
      ensures Padded(out[i])
    {
      if i < n {
        assert index[i] in index;
      } else if |index| > |tf| {
        assert out[n..][i - n] == index[i];
        assert index[i] in index;
      } else {
        assert out[n..][i - n] == tf[i];
        assert tf[i] in tf;
      }
    }
  }

  /** A line that starts with a space has the empty term. */
  lemma PaddedTerm(l: string)
    requires Padded(l)
    ensures ' ' in l && TermOf(l) == Success("")
  {
    IndexOfAt(l, ' ', 0);
  }
}
