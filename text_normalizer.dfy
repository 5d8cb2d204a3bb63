/** `tokenize` and `checkASCII` of WebSearch: raw lower-cased page text becomes a stream of
    tokens, each followed by one space. */
module TextNormalizer {
  import opened JavaStrings
  import opened Seqs

  /** The delimiter set handed to java.util.StringTokenizer: space, tab, newline, carriage
      return, form feed, and `",.:;?![]'/`. */
  predicate IsDelimiter(c: char)
  {
    c == ' ' || c == '\t' || c == '\n' || c == '\r' || c == '\U{000C}' ||
    c == '"' || c == ',' || c == '.' || c == ':' || c == ';' || c == '?' || c == '!' ||
    c == '[' || c == ']' || c == '\'' || c == '/'
  }

  predicate IsWordChar(c: char)
  {
    !IsDelimiter(c)
  }

  /** Length of the run of non-delimiters that starts s. */
  function RunLength(s: string): (n: nat)
    ensures n <= |s|
    ensures forall i :: 0 <= i < n ==> IsWordChar(s[i])
    ensures n < |s| ==> IsDelimiter(s[n])
  {
    if s == [] || IsDelimiter(s[0]) then 0 else 1 + RunLength(s[1..])
  }

  /** The tokens StringTokenizer hands out over s: the maximal non-empty runs of
      non-delimiter characters, in order. */
  function Tokens(s: string): seq<string>
    decreases |s|
  {
    if s == [] then []
    else if IsDelimiter(s[0]) then Tokens(s[1..])
    else
      var n := RunLength(s);
      [s[..n]] + Tokens(s[n..])
  }

  /** Every token is non-empty and free of delimiters. */
  lemma {:induction false} TokensAreWords(s: string)
    ensures forall t <- Tokens(s) :: t != [] && forall c <- t :: IsWordChar(c)
    decreases |s|
  {
    if s != [] {
      if IsDelimiter(s[0]) {
        TokensAreWords(s[1..]);
      } else {
        var n := RunLength(s);
        TokensAreWords(s[n..]);
        assert forall c <- s[..n] :: IsWordChar(c);
      }
    }
  }

  /** The tokens hold every non-delimiter character of s, in order, and nothing else. */
  lemma {:induction false} TokensCoverText(s: string)
    ensures Concat(Tokens(s)) == Filter(IsWordChar, s)
    decreases |s|
  {
    if s != [] {
      assert s == [s[0]] + s[1..];
      FilterConcat(IsWordChar, [s[0]], s[1..]);
      assert Filter(IsWordChar, [s[0]]) == if IsWordChar(s[0]) then [s[0]] else [];
      if IsDelimiter(s[0]) {
        TokensCoverText(s[1..]);
      } else {
        var n := RunLength(s);
        assert s == s[..n] + s[n..];
        FilterConcat(IsWordChar, s[..n], s[n..]);
        FilterKeepsAll(IsWordChar, s[..n]);
        TokensCoverText(s[n..]);
        assert Tokens(s) == [s[..n]] + Tokens(s[n..]);
        assert Concat([s[..n]] + Tokens(s[n..])) == s[..n] + Concat(Tokens(s[n..]));
      }
    }
  }

  /** A delimiter always ends a token: the tokens on either side of one are tokenized
      independently. */
  lemma {:induction false} TokensSplitAtDelimiter(a: string, d: char, b: string)
    requires IsDelimiter(d)
    ensures Tokens(a + [d] + b) == Tokens(a) + Tokens(b)
    decreases |a|
  {
    var s := a + [d] + b;
    if a == [] {
      assert s == [d] + b;
      assert s[1..] == b;
    } else if IsDelimiter(a[0]) {
      assert s[1..] == a[1..] + [d] + b;
      TokensSplitAtDelimiter(a[1..], d, b);
    } else {
      RunLengthStopsAtDelimiter(a, [d] + b);
      assert s == a + ([d] + b);
      var n := RunLength(a);
      assert s[..n] == a[..n];
      assert s[n..] == a[n..] + [d] + b;
      TokensSplitAtDelimiter(a[n..], d, b);
    }
  }

  lemma {:induction false} RunLengthStopsAtDelimiter(a: string, rest: string)
    requires rest != [] && IsDelimiter(rest[0])
    ensures RunLength(a + rest) == RunLength(a)
    decreases |a|
  {
    if a != [] {
      assert (a + rest)[1..] == a[1..] + rest;
      RunLengthStopsAtDelimiter(a[1..], rest);
    } else {
      assert a + rest == rest;
    }
  }

  /** A stretch free of delimiters is one token. */
  lemma TokensOfWord(w: string)
    requires w != [] && forall c <- w :: IsWordChar(c)
    ensures Tokens(w) == [w]
  {
    assert IsWordChar(w[0]);
    RunLengthAll(w);
    assert w[..|w|] == w;
    assert w[|w|..] == [];
  }

  /** Without a delimiter, the run is the whole string. */
  lemma {:induction false} RunLengthAll(s: string)
    requires forall c <- s :: IsWordChar(c)
    ensures RunLength(s) == |s|
    decreases |s|
  {
    if s != [] {
      assert s[0] in s;
      assert forall c <- s[1..] :: c in s;
      RunLengthAll(s[1..]);
    }
  }

  /** checkASCII: the character code is 97 (`a`), 105 (`i`) or 48..57 (a decimal digit). */
  predicate CheckAscii(c: char)
  {
    c as int == 97 || c as int == 105 || (48 <= c as int && c as int <= 57)
  }

  /** `replace("(", "").replace(")", "")`: every parenthesis removed. */
  function StripParens(t: string): string
  {
    RemoveChar(RemoveChar(t, '('), ')')
  }

  /** Stripping leaves no parenthesis and adds no character. */
  lemma StripParensChars(t: string)
    ensures '(' !in StripParens(t) && ')' !in StripParens(t)
    ensures forall c <- StripParens(t) :: c in t
  {
    var once := RemoveChar(t, '(');
    RemoveCharCounts(t, '(');
    RemoveCharCounts(once, ')');
    var r := StripParens(t);
    assert forall c <- r :: multiset(r)[c] > 0;
    assert forall c <- once :: multiset(once)[c] > 0;
  }

  /** Stripping keeps every other character of the token, in order: it is the token filtered
      on "not `(`", then on "not `)`". */
  lemma StripParensKeeps(t: string)
    ensures StripParens(t) == Filter(c => c != ')', Filter(c => c != '(', t))
  {
    RemoveCharFilter(t, '(');
    RemoveCharFilter(RemoveChar(t, '('), ')');
  }

  /** The length test of tokenize: a one-character token survives only when checkASCII
      accepts it; every other length survives, including 0. */
  predicate KeepToken(t: string)
  {
    |t| != 1 || CheckAscii(t[0])
  }

  /** What tokenize keeps of a token sequence, in order: each token with its parentheses
      stripped, when it passes the length test. */
  function KeptTokens(tokens: seq<string>): seq<string>
  {
    if tokens == [] then []
    else
      var t := StripParens(tokens[|tokens| - 1]);
      KeptTokens(tokens[..|tokens| - 1]) + (if KeepToken(t) then [t] else [])
  }

  /** The tokens tokenize emits for a text, in order. */
  function NormalizedTokens(text: string): seq<string>
  {
    KeptTokens(Tokens(text))
  }

  /** `tokenize(docText)`: walks the StringTokenizer's tokens, strips parentheses and appends
      the survivors each followed by one space. */
  method Tokenize(docText: string) returns (r: string)
    ensures r == Spaced(NormalizedTokens(docText))
  {
    var tokens := Tokens(docText);
    var sb := "";
    var i := 0;
    assert tokens[..0] == [];
    while i < |tokens|
      invariant 0 <= i <= |tokens|
      invariant sb == Spaced(KeptTokens(tokens[..i]))
    {
      var currentToken := StripParens(tokens[i]);
      ghost var kept := KeptTokens(tokens[..i]);
      assert tokens[..i + 1][..i] == tokens[..i];
      ghost var next := KeptTokens(tokens[..i + 1]);
      assert next == kept + (if KeepToken(currentToken) then [currentToken] else []);
      if |currentToken| == 1 {
        if CheckAscii(currentToken[0]) {
          SpacedSnoc(kept, currentToken);
          sb := sb + currentToken + " ";
        } else {
          assert next == kept;
        }
      } else {
        SpacedSnoc(kept, currentToken);
        sb := sb + currentToken + " ";
      }
      assert sb == Spaced(next);
      i := i + 1;
    }
    assert tokens[..i] == tokens;
    r := sb;
  }

  /** Each kept token is a parenthesis-free part of some input token that passes the length test. */
  lemma {:induction false} KeptTokensFrom(tokens: seq<string>)
    ensures forall t <- KeptTokens(tokens) ::
      KeepToken(t) && '(' !in t && ')' !in t && exists u <- tokens :: forall c <- t :: c in u
    decreases |tokens|
  {
    if tokens != [] {
      var init := tokens[..|tokens| - 1];
      KeptTokensFrom(init);
      StripParensChars(tokens[|tokens| - 1]);
      assert forall u <- init :: u in tokens;
      assert tokens[|tokens| - 1] in tokens;
    }
  }

  /** Every emitted token is free of delimiters (so of spaces) and of parentheses, and a
      one-character token is `a`, `i` or a digit. */
  lemma NormalizedTokensClean(text: string)
    ensures forall t <- NormalizedTokens(text) ::
      (forall c <- t :: IsWordChar(c) && c != '(' && c != ')') && (|t| == 1 ==> t[0] == 'a' || t[0] == 'i' || '0' <= t[0] <= '9')
  {
    TokensAreWords(text);
    KeptTokensFrom(Tokens(text));
  }

  /** Keeping is exactly "strip every token, then keep those that pass the length test". */
  lemma {:induction false} KeptTokensFilterMap(tokens: seq<string>)
    ensures KeptTokens(tokens) == Filter(KeepToken, Map(StripParens, tokens))
    decreases |tokens|
  {
    if tokens != [] {
      var init, last := tokens[..|tokens| - 1], tokens[|tokens| - 1];
      KeptTokensFilterMap(init);
      assert tokens == init + [last];
      MapSnoc(StripParens, init, last);
      FilterSnoc(KeepToken, Map(StripParens, init), StripParens(last));
    }
  }

  /** Both directions of the length test: a stripped token that passes it is emitted as often
      as it arises from the input tokens, and one that fails it is never emitted. */
  lemma KeptTokensCounts(tokens: seq<string>, t: string)
    ensures multiset(KeptTokens(tokens))[t] ==
      if KeepToken(t) then multiset(Map(StripParens, tokens))[t] else 0
  {
    KeptTokensFilterMap(tokens);
    FilterMultiset(KeepToken, Map(StripParens, tokens), t);
  }

  /** Keeping commutes with concatenation: tokens keep their input order. */
  lemma {:induction false} KeptTokensConcat(a: seq<string>, b: seq<string>)
    ensures KeptTokens(a + b) == KeptTokens(a) + KeptTokens(b)
    decreases |b|
  {
    if b == [] {
      assert a + b == a;
    } else {
      var b' := b[..|b| - 1];
      assert (a + b)[..|a + b| - 1] == a + b';
      KeptTokensConcat(a, b');
    }
  }

  /** Normalization respects delimiters: what stands on either side of one is normalized
      independently and the results keep their order. */
  lemma NormalizedTokensSplit(a: string, d: char, b: string)
    requires IsDelimiter(d)
    ensures NormalizedTokens(a + [d] + b) == NormalizedTokens(a) + NormalizedTokens(b)
  {
    TokensSplitAtDelimiter(a, d, b);
    KeptTokensConcat(Tokens(a), Tokens(b));
  }

  /** A token made only of parentheses becomes the empty string, which is emitted: its
      length is 0, not 1. */
  lemma ParenthesesOnlyTokenEmitted()
    ensures NormalizedTokens("()") == [""]
    ensures Spaced(NormalizedTokens("()")) == " "
  {
    ParenthesesAreOneToken();
    ParenthesesStripToEmpty();
    assert ["()"][..0] == ["()"][1..];
    assert KeptTokens(["()"]) == [""];
    assert Spaced([""]) == Spaced([""][..0]) + "" + " ";
  }

  /** `()` has no delimiter, so it is a single token. */
  lemma ParenthesesAreOneToken()
    ensures Tokens("()") == ["()"]
  {
    var w := "()";
    assert IsWordChar('(') && IsWordChar(')');
    assert forall c <- w :: IsWordChar(c) by {
      assert forall c <- w :: c == '(' || c == ')';
    }
    TokensOfWord(w);
  }

  /** Stripping the parentheses of `()` leaves nothing. */
  lemma ParenthesesStripToEmpty()
    ensures StripParens("()") == ""
  {
    var w := "()";
    assert RemoveChar(w, '(') == ")" by {
      assert w[..1] == "(";
      assert "("[..0] == "";
    }
    assert RemoveChar(")", ')') == "" by {
      assert ")"[..0] == "";
    }
  }
}
