/** The java.lang.String, StringBuilder and Integer behaviour the indexer depends on:
    `indexOf`, `lastIndexOf`, `split(" ")`, `substring`'s failure, the builder idiom
    `append(w).append(" ")`, `Integer.toString` and the right-justifying `%<n>s`. */
module JavaStrings {
  import opened Seqs

  /** The one runtime failure the core can raise: `substring(0, -1)`, when `indexOf` or
      `lastIndexOf` found nothing. Java throws StringIndexOutOfBoundsException with the bad index. */
  datatype Error = StringIndexOutOfBounds(index: int)

  datatype Result<T> = Success(value: T) | Failure(error: Error)

  function Min(a: int, b: int): int { if a <= b then a else b }

  function Max(a: int, b: int): int { if a <= b then b else a }

  /** `s.indexOf(c)`: the first position of c in s, or -1. */
  function IndexOf(s: string, c: char): (r: int)
    ensures -1 <= r < |s|
    ensures r < 0 <==> c !in s
    ensures 0 <= r ==> s[r] == c && c !in s[..r]
  {
    if s == [] then -1
    else if s[0] == c then 0
    else
      var k := IndexOf(s[1..], c);
      assert s == [s[0]] + s[1..];
      if k < 0 then -1
      else
        assert s[..k + 1] == [s[0]] + s[1..][..k];
        k + 1
  }

  /** `s.lastIndexOf(c)`: the last position of c in s, or -1. */
  function LastIndexOf(s: string, c: char): (r: int)
    ensures -1 <= r < |s|
    ensures r < 0 <==> c !in s
    ensures 0 <= r ==> s[r] == c && c !in s[r + 1..]
  {
    if s == [] then -1
    else if s[|s| - 1] == c then |s| - 1
    else
      assert s == s[..|s| - 1] + [s[|s| - 1]];
      LastIndexOf(s[..|s| - 1], c)
  }

  /** `s.replace(String.valueOf(c), "")`: every occurrence of c deleted. */
  function RemoveChar(s: string, c: char): string
  {
    if s == [] then ""
    else RemoveChar(s[..|s| - 1], c) + (if s[|s| - 1] == c then "" else [s[|s| - 1]])
  }

  /** replace deletes exactly the occurrences of c and keeps every other character with
      its multiplicity. */
  lemma {:induction false} RemoveCharCounts(s: string, c: char)
    ensures multiset(RemoveChar(s, c)) == multiset(s)[c := 0]
    decreases |s|
  {
    if s != [] {
      var init, last := s[..|s| - 1], s[|s| - 1];
      assert s == init + [last];
      RemoveCharCounts(init, c);
    }
  }

  /** The text of a StringBuilder after `append(w).append(" ")` for every w of ws in turn:
      every word followed by exactly one space. */
  function Spaced(ws: seq<string>): string
  {
    if ws == [] then "" else Spaced(ws[..|ws| - 1]) + ws[|ws| - 1] + " "
  }

  /** One loop step of the builder idiom. */
  lemma SpacedSnoc(ws: seq<string>, w: string)
    ensures Spaced(ws + [w]) == Spaced(ws) + w + " "
  {
    assert (ws + [w])[..|ws|] == ws;
  }

  /** One step of a loop that appends exactly the words satisfying p. */
  lemma SpacedFilterStep(p: string -> bool, s: seq<string>, i: int)
    requires 0 <= i < |s|
    ensures p(s[i]) ==> Spaced(Filter(p, s[..i + 1])) == Spaced(Filter(p, s[..i])) + s[i] + " "
    ensures !p(s[i]) ==> Spaced(Filter(p, s[..i + 1])) == Spaced(Filter(p, s[..i]))
  {
    var kept := Filter(p, s[..i]);
    assert s[..i + 1] == s[..i] + [s[i]];
    FilterSnoc(p, s[..i], s[i]);
    if p(s[i]) {
      SpacedSnoc(kept, s[i]);
    } else {
      assert kept + [] == kept;
    }
  }

  /** One step of a loop that appends the image of every word. */
  lemma SpacedMapStep(f: string -> string, s: seq<string>, i: int)
    requires 0 <= i < |s|
    ensures Spaced(Map(f, s[..i + 1])) == Spaced(Map(f, s[..i])) + f(s[i]) + " "
  {
    assert s[..i + 1] == s[..i] + [s[i]];
    MapSnoc(f, s[..i], s[i]);
    SpacedSnoc(Map(f, s[..i]), f(s[i]));
  }

  lemma {:induction false} SpacedConcat(a: seq<string>, b: seq<string>)
    ensures Spaced(a + b) == Spaced(a) + Spaced(b)
    decreases |b|
  {
    if b == [] {
      assert a + b == a;
    } else {
      var b' := b[..|b| - 1];
      assert (a + b)[..|a + b| - 1] == a + b';
      SpacedConcat(a, b');
    }
  }

  /** The builder idiom seen from the front: the first word, one space, then the rest. */
  lemma SpacedCons(w: string, ws: seq<string>)
    ensures Spaced([w] + ws) == w + " " + Spaced(ws)
  {
    SpacedConcat([w], ws);
    assert Spaced([w]) == Spaced([]) + w + " ";
  }

  /** The pieces of s between single spaces, from the front: `n` spaces give `n + 1` pieces,
      consecutive spaces give empty pieces. */
  function Pieces(s: string): (r: seq<string>)
    ensures |r| >= 1
    decreases |s|
  {
    var k := IndexOf(s, ' ');
    if k < 0 then [s] else [s[..k]] + Pieces(s[k + 1..])
  }

  /** No piece contains a space. */
  lemma {:induction false} PiecesNoSpace(s: string)
    ensures forall p <- Pieces(s) :: ' ' !in p
    decreases |s|
  {
    var k := IndexOf(s, ' ');
    if k >= 0 {
      PiecesNoSpace(s[k + 1..]);
    }
  }

  /** The pieces glued back together with one space between neighbours. */
  function Joined(ps: seq<string>): string
    requires |ps| >= 1
  {
    if |ps| == 1 then ps[0] else ps[0] + " " + Joined(ps[1..])
  }

  /** Cutting at every space loses nothing: Joined is the inverse of Pieces. */
  lemma {:induction false} JoinedPieces(s: string)
    ensures Joined(Pieces(s)) == s
    decreases |s|
  {
    var k := IndexOf(s, ' ');
    if k >= 0 {
      var rest := Pieces(s[k + 1..]);
      assert Pieces(s) == [s[..k]] + rest;
      JoinedPieces(s[k + 1..]);
      JoinedCons(s[..k], rest);
      CutAtSpace(s, k);
    }
  }

  /** Joining a piece in front of at least one other puts a space between them. */
  lemma JoinedCons(p: string, ps: seq<string>)
    requires |ps| >= 1
    ensures Joined([p] + ps) == p + " " + Joined(ps)
  {
    assert ([p] + ps)[1..] == ps;
  }

  /** A string is what stands before a space, the space, and what follows it. */
  lemma CutAtSpace(s: string, k: int)
    requires 0 <= k < |s| && s[k] == ' '
    ensures s == s[..k] + " " + s[k + 1..]
  {
    assert s == s[..k] + s[k..];
    assert s[k..] == [s[k]] + s[k + 1..];
  }

  /** The result of a `limit == 0` split: trailing empty strings removed. */
  function DropTrailingEmpty(ps: seq<string>): (r: seq<string>)
    ensures |r| <= |ps| && r == ps[..|r|]
    ensures r == [] || r[|r| - 1] != ""
    ensures forall i :: |r| <= i < |ps| ==> ps[i] == ""
  {
    if ps == [] then []
    else if ps[|ps| - 1] == "" then DropTrailingEmpty(ps[..|ps| - 1])
    else ps
  }

  /** `s.split(" ")`. Java takes a fast path for a one-character pattern: when the space
      does not occur at all the result is `{s}` (so `""` splits to `[""]`); otherwise the
      pieces between spaces, with trailing empty pieces dropped (so `" "` splits to `[]`). */
  function Split(s: string): (r: seq<string>)
    ensures forall w <- r :: ' ' !in w
  {
    if ' ' !in s then [s] else PiecesNoSpace(s); DropTrailingEmpty(Pieces(s))
  }

  /** Splitting what the builder idiom produced gives its words back, minus trailing empty
      words — and `[""]` when there were no words at all. */
  lemma SplitSpaced(ws: seq<string>)
    requires forall w <- ws :: ' ' !in w
    ensures Split(Spaced(ws)) == if ws == [] then [""] else DropTrailingEmpty(ws)
  {
    var s := Spaced(ws);
    if ws == [] {
      assert s == "";
    } else {
      var init, last := ws[..|ws| - 1], ws[|ws| - 1];
      assert ws == init + [last];
      assert s == Spaced(init) + last + " ";
      assert s[|s| - 1] == ' ';
      assert ' ' in s;
      assert Split(s) == DropTrailingEmpty(Pieces(s));
      PiecesSpaced(ws);
      DropTrailingEmptyAppend(ws);
    }
  }

  lemma {:induction false} PiecesSpaced(ws: seq<string>)
    requires forall w <- ws :: ' ' !in w
    ensures Pieces(Spaced(ws)) == ws + [""]
    decreases |ws|
  {
    if ws != [] {
      var w, rest := ws[0], ws[1..];
      assert ws == [w] + rest;
      assert forall x <- rest :: x in ws;
      PiecesSpaced(rest);
      PiecesSpacedStep(w, rest);
    }
  }

  /** One step of PiecesSpaced: a word in front of the builder output becomes the first piece. */
  lemma PiecesSpacedStep(w: string, rest: seq<string>)
    requires ' ' !in w
    requires Pieces(Spaced(rest)) == rest + [""]
    ensures Pieces(Spaced([w] + rest)) == [w] + rest + [""]
  {
    SpacedCons(w, rest);
    PiecesCons(w, Spaced(rest));
    AppendAssoc([w], rest, [""]);
  }

  /** A space-free word followed by a space is the first piece. */
  lemma PiecesCons(w: string, t: string)
    requires ' ' !in w
    ensures Pieces(w + " " + t) == [w] + Pieces(t)
  {
    var s := w + " " + t;
    assert s[|w|] == ' ' && s[..|w|] == w;
    IndexOfAt(s, ' ', |w|);
    assert s[|w| + 1..] == t;
  }

  /** indexOf finds the first occurrence. */
  lemma IndexOfAt(s: string, c: char, j: int)
    requires 0 <= j < |s| && s[j] == c && c !in s[..j]
    ensures IndexOf(s, c) == j
  {
  }

  /** Removing every occurrence of c is filtering the string on "differs from c". */
  lemma {:induction false} RemoveCharFilter(s: string, c: char)
    ensures RemoveChar(s, c) == Filter(x => x != c, s)
    decreases |s|
  {
    if s != [] {
      RemoveCharFilter(s[..|s| - 1], c);
    }
  }

  lemma DropTrailingEmptyAppend(ws: seq<string>)
    ensures DropTrailingEmpty(ws + [""]) == DropTrailingEmpty(ws)
  {
    assert (ws + [""])[..|ws|] == ws;
  }

  function Digit(d: nat): (c: char)
    requires d < 10
    ensures '0' <= c <= '9'
  {
    (48 + d) as char
  }

  /** n divided by 10, rounded down, by repeated subtraction. */
  function DivTen(n: nat): (q: nat)
    ensures 10 * q <= n < 10 * q + 10
  {
    if n < 10 then 0 else 1 + DivTen(n - 10)
  }

  /** `Integer.toString` of a non-negative value: decimal digits, no leading zeros. */
  function NatToString(n: nat): string
  {
    if n < 10 then [Digit(n)] else NatToString(DivTen(n)) + [Digit(n - 10 * DivTen(n))]
  }

  /** `Integer.toString`, and `"" + n`: a minus sign for negative values. */
  function IntToString(n: int): string
  {
    if n < 0 then "-" + NatToString(-n) else NatToString(n)
  }

  /** The value a string of decimal digits denotes, read left to right (`Integer.parseInt`
      of an unsigned numeral). */
  function DigitsValue(s: string): int
  {
    if s == [] then 0 else 10 * DigitsValue(s[..|s| - 1]) + (s[|s| - 1] as int - 48)
  }

  /** Printing and reading back: the decimal form denotes the value it was printed from. */
  lemma {:induction false} NatToStringValue(n: nat)
    ensures DigitsValue(NatToString(n)) == n
    decreases n
  {
    var s := NatToString(n);
    if n < 10 {
      assert s[..0] == [];
    } else {
      var q := DivTen(n);
      NatToStringValue(q);
      assert s[..|s| - 1] == NatToString(q);
    }
  }

  /** A printed int reads back as itself: a minus sign before the digits of its magnitude. */
  lemma IntToStringValue(n: int)
    ensures n >= 0 ==> DigitsValue(IntToString(n)) == n
    ensures n < 0 ==> IntToString(n)[0] == '-' && DigitsValue(IntToString(n)[1..]) == -n
  {
    if n < 0 {
      NatToStringValue(-n);
      assert IntToString(n)[1..] == NatToString(-n);
    } else {
      NatToStringValue(n);
    }
  }

  /** The decimal form is non-empty and made of digits only. */
  lemma {:induction false} NatToStringDigits(n: nat)
    ensures 1 <= |NatToString(n)|
    ensures forall c <- NatToString(n) :: '0' <= c <= '9'
    decreases n
  {
    if n >= 10 {
      NatToStringDigits(DivTen(n));
    }
  }

  /** A printed integer is non-empty and has no space, so it never splits a line's fields. */
  lemma IntToStringNoSpace(n: int)
    ensures 1 <= |IntToString(n)| && ' ' !in IntToString(n)
  {
    if n < 0 {
      NatToStringDigits(-n);
    } else {
      NatToStringDigits(n);
    }
  }

  function Pow10(k: nat): nat
  {
    if k == 0 then 1 else 10 * Pow10(k - 1)
  }

  /** A value below 10^k prints in at most k digits. */
  lemma {:induction false} NatToStringLength(n: nat, k: nat)
    requires 1 <= k && n < Pow10(k)
    ensures |NatToString(n)| <= k
    decreases k
  {
    if n >= 10 {
      assert Pow10(1) == 10;
      NatToStringLength(DivTen(n), k - 1);
    }
  }

  /** `String.format("%<width>s", s)`: right-justified, padded with spaces on the left to
      `width` characters; a longer s is left as it is. */
  function PadLeft(s: string, width: nat): string
  {
    if |s| >= width then s else Spaces(width - |s|) + s
  }

  /** n spaces. */
  function Spaces(n: nat): string
  {
    if n == 0 then "" else Spaces(n - 1) + " "
  }

  lemma {:induction false} SpacesSpec(n: nat)
    ensures |Spaces(n)| == n && forall i :: 0 <= i < n ==> Spaces(n)[i] == ' '
    decreases n
  {
    if n > 0 {
      SpacesSpec(n - 1);
    }
  }

  /** The padded text is `width` long (or s itself, when longer), ends with s and has only
      spaces before it. */
  lemma PadLeftSpec(s: string, width: nat)
    ensures var r := PadLeft(s, width);
      |r| == Max(width, |s|) && r[|r| - |s|..] == s && forall i :: 0 <= i < |r| - |s| ==> r[i] == ' '
  {
    if |s| < width {
      SpacesSpec(width - |s|);
    }
  }
}
