/** Order-preserving sequence combinators shared by the pipeline stages: every stage walks
    a word array front to back and either keeps, drops or rewrites each entry. */
module Seqs {

  /** The elements of s satisfying p, in their original order. Defined from the back, the
      way a loop that appends to a StringBuilder builds it. */
  function Filter<T>(p: T -> bool, s: seq<T>): (r: seq<T>)
  {
    if s == [] then []
    else Filter(p, s[..|s| - 1]) + (if p(s[|s| - 1]) then [s[|s| - 1]] else [])
  }

  /** f applied to every element of s, in order. */
  function Map<T, U>(f: T -> U, s: seq<T>): (r: seq<U>)
    ensures |r| == |s|
    ensures forall i :: 0 <= i < |s| ==> r[i] == f(s[i])
  {
    if s == [] then [] else Map(f, s[..|s| - 1]) + [f(s[|s| - 1])]
  }

  /** The concatenation of all the sequences of ss. */
  function Concat<T>(ss: seq<seq<T>>): seq<T>
  {
    if ss == [] then [] else ss[0] + Concat(ss[1..])
  }

  /** One loop step of a filter: the next element is appended when p holds of it. */
  lemma FilterSnoc<T>(p: T -> bool, s: seq<T>, x: T)
    ensures Filter(p, s + [x]) == Filter(p, s) + (if p(x) then [x] else [])
  {
    assert (s + [x])[..|s|] == s;
  }

  /** One loop step of a map. */
  lemma MapSnoc<T, U>(f: T -> U, s: seq<T>, x: T)
    ensures Map(f, s + [x]) == Map(f, s) + [f(x)]
  {
    assert (s + [x])[..|s|] == s;
  }

  /** Filtering commutes with concatenation: the kept elements stay in input order. */
  lemma {:induction false} FilterConcat<T>(p: T -> bool, a: seq<T>, b: seq<T>)
    ensures Filter(p, a + b) == Filter(p, a) + Filter(p, b)
    decreases |b|
  {
    if b == [] {
      assert a + b == a;
    } else {
      var b' := b[..|b| - 1];
      assert (a + b)[..|a + b| - 1] == a + b';
      FilterConcat(p, a, b');
    }
  }

  /** Filtering keeps every element that satisfies p with its full multiplicity, and no other. */
  lemma {:induction false} FilterMultiset<T>(p: T -> bool, s: seq<T>, x: T)
    ensures multiset(Filter(p, s))[x] == if p(x) then multiset(s)[x] else 0
    decreases |s|
  {
    if s != [] {
      var init := s[..|s| - 1];
      assert s == init + [s[|s| - 1]];
      FilterMultiset(p, init, x);
    }
  }

  /** Every element kept satisfies p and comes from s. */
  lemma {:induction false} FilterSubset<T>(p: T -> bool, s: seq<T>)
    ensures forall x <- Filter(p, s) :: p(x) && x in s
    decreases |s|
  {
    if s != [] {
      var init, last := s[..|s| - 1], s[|s| - 1];
      FilterSubset(p, init);
      assert forall x <- init :: x in s;
    }
  }

  /** A sequence whose elements all satisfy p filters to itself. */
  lemma {:induction false} FilterKeepsAll<T>(p: T -> bool, s: seq<T>)
    requires forall i :: 0 <= i < |s| ==> p(s[i])
    ensures Filter(p, s) == s
    decreases |s|
  {
    if s != [] {
      var init, last := s[..|s| - 1], s[|s| - 1];
      assert forall i :: 0 <= i < |init| ==> init[i] == s[i];
      FilterKeepsAll(p, init);
      assert Filter(p, s) == init + [last];
      assert s == init + [last];
    }
  }

  /** Concatenation regroups. */
  lemma AppendAssoc<T>(a: seq<T>, b: seq<T>, c: seq<T>)
    ensures a + (b + c) == a + b + c
  {
  }

  /** Dropping from a sequence with one element in front. */
  lemma ConsDrop<T>(x: T, s: seq<T>, n: int)
    requires 1 <= n <= |s| + 1
    ensures ([x] + s)[n..] == s[n - 1..]
  {
  }

  /** Dropping one element, then n - 1 more, drops n. */
  lemma DropDrop<T>(s: seq<T>, n: int)
    requires 1 <= n <= |s|
    ensures s[1..][n - 1..] == s[n..]
  {
  }

  /** A sequence is what stands before position j, the element at j, and what follows. */
  lemma CutAt<T>(s: seq<T>, j: int)
    requires 0 <= j < |s|
    ensures s == s[..j] + [s[j]] + s[j + 1..]
  {
  }

  /** Removing one occurrence of x from b leaves the elements that, with x, made up b. */
  lemma MultisetRemoveAt<T>(rest: seq<T>, x: T, b: seq<T>, j: int)
    requires 0 <= j < |b| && b[j] == x
    requires multiset(rest) + multiset{x} == multiset(b)
    ensures multiset(b[..j] + b[j + 1..]) == multiset(rest)
  {
    CutAt(b, j);
    assert multiset(b) == multiset(b[..j]) + multiset{x} + multiset(b[j + 1..]);
    var without := b[..j] + b[j + 1..];
    forall y
      ensures multiset(without)[y] == multiset(rest)[y]
    {
      calc {
        multiset(without)[y];
        multiset(b[..j])[y] + multiset(b[j + 1..])[y];
        multiset(b)[y] - multiset{x}[y];
        multiset(rest)[y];
      }
    }
  }
}
