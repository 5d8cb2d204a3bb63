/** `urlToName` of WebSearch: a document's ID is the sum of the character codes of its
    tokenized URL, trailing spaces included. Java's `int` accumulator is unbounded here. */
module DocumentId {
  import opened JavaStrings
  import opened Seqs
  import opened TextNormalizer

  /** The sum of the character codes of s. */
  function CodeSum(s: string): int
  {
    if s == [] then 0 else CodeSum(s[..|s| - 1]) + s[|s| - 1] as int
  }

  /** The ID urlToName computes for a URL. */
  function DocId(url: string): int
  {
    CodeSum(Spaced(NormalizedTokens(url)))
  }

  /** `urlToName(url)`: tokenize the URL, then add up its character codes one by one. */
  method UrlToName(url: string) returns (id: int)
    ensures id == DocId(url)
  {
    var sName := Tokenize(url);
    var nName := 0;
    var i := 0;
    while i < |sName|
      invariant 0 <= i <= |sName|
      invariant nName == CodeSum(sName[..i])
    {
      assert sName[..i + 1][..i] == sName[..i];
      nName := nName + sName[i] as int;
      i := i + 1;
    }
    assert sName[..i] == sName;
    id := nName;
  }

  lemma {:induction false} CodeSumConcat(a: string, b: string)
    ensures CodeSum(a + b) == CodeSum(a) + CodeSum(b)
    decreases |b|
  {
    if b == [] {
      assert a + b == a;
    } else {
      var b' := b[..|b| - 1];
      assert (a + b)[..|a + b| - 1] == a + b';
      CodeSumConcat(a, b');
    }
  }

  /** The ID counts the space after every token: it is the code sum of the tokens' characters
      plus 32 per token. */
  lemma {:induction false} CodeSumSpaced(ws: seq<string>)
    ensures CodeSum(Spaced(ws)) == CodeSum(Concat(ws)) + 32 * |ws|
    decreases |ws|
  {
    if ws != [] {
      var w, rest := ws[0], ws[1..];
      assert ws == [w] + rest;
      SpacedCons(w, rest);
      CodeSumConcat(w + " ", Spaced(rest));
      CodeSumConcat(w, " ");
      assert CodeSum(" ") == 32 by {
        assert " "[..0] == "";
      }
      CodeSumSpaced(rest);
      CodeSumConcat(w, Concat(rest));
    }
  }

  /** The code sum ignores order: rearranging the characters keeps it. */
  lemma {:induction false} CodeSumPermutation(a: string, b: string)
    requires multiset(a) == multiset(b)
    ensures CodeSum(a) == CodeSum(b)
    decreases |a|
  {
    if a == [] {
      assert |b| == |multiset(b)| == 0;
    } else {
      var init, x := a[..|a| - 1], a[|a| - 1];
      assert a == init + [x];
      assert x in multiset(b);
      var j :| 0 <= j < |b| && b[j] == x;
      MultisetRemoveAt(init, x, b, j);
      CodeSumPermutation(init, b[..j] + b[j + 1..]);
      CutAt(b, j);
      CodeSumConcat(b[..j] + [x], b[j + 1..]);
      CodeSumConcat(b[..j], [x]);
      CodeSumConcat(b[..j], b[j + 1..]);
      assert CodeSum([x]) == x as int by {
        assert [x][..0] == "";
      }
    }
  }

  /** The ID is a weak hash: two URLs whose tokens have the same number and the same
      characters in any arrangement get the same ID. */
  lemma DocIdCollision(url1: string, url2: string)
    requires |NormalizedTokens(url1)| == |NormalizedTokens(url2)|
    requires multiset(Concat(NormalizedTokens(url1))) == multiset(Concat(NormalizedTokens(url2)))
    ensures DocId(url1) == DocId(url2)
  {
    CodeSumSpaced(NormalizedTokens(url1));
    CodeSumSpaced(NormalizedTokens(url2));
    CodeSumPermutation(Concat(NormalizedTokens(url1)), Concat(NormalizedTokens(url2)));
  }
}
