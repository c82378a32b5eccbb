/** Order-preserving selection over sequences: the behaviour of JavaScript's
    `Array.prototype.filter`, together with an independent description of it
    (a subsequence holding exactly the kept elements) and the proof that the
    description determines the result. */
module Seqs {

  /** `a` can be obtained from `b` by deleting elements, without reordering. */
  ghost predicate SubsequenceOf<T>(a: seq<T>, b: seq<T>)
    decreases |b|
  {
    || a == []
    || (&& b != []
        && (|| (a[0] == b[0] && SubsequenceOf(a[1..], b[1..]))
            || SubsequenceOf(a, b[1..])))
  }

  /** The elements of `s` for which `keep` holds, in their original order. */
  function Filter<T(==,!new)>(s: seq<T>, keep: T -> bool): (r: seq<T>)
    ensures |r| <= |s|
  {
    if s == [] then []
    else if keep(s[0]) then [s[0]] + Filter(s[1..], keep)
    else Filter(s[1..], keep)
  }

  /** Each kept element occurs in the selection as often as in `s`; no other
      element occurs in it. */
  lemma {:induction false} FilterCounts<T(!new)>(s: seq<T>, keep: T -> bool)
    ensures forall x :: multiset(Filter(s, keep))[x] == if keep(x) then multiset(s)[x] else 0
    ensures forall x :: x in Filter(s, keep) <==> x in s && keep(x)
  {
    if s != [] {
      FilterCounts(s[1..], keep);
      assert s == [s[0]] + s[1..];
    }
  }

  /** The selection keeps the order of `s`. */
  lemma {:induction false} FilterIsSubsequence<T(!new)>(s: seq<T>, keep: T -> bool)
    ensures SubsequenceOf(Filter(s, keep), s)
  {
    if s != [] {
      var rest := Filter(s[1..], keep);
      FilterIsSubsequence(s[1..], keep);
      if keep(s[0]) {
        assert ([s[0]] + rest)[1..] == rest;
      }
    }
  }

  /** The selection is the whole of `s`, or equally as long as `s`, exactly
      when every element is kept. */
  lemma {:induction false} FilterKeepsAll<T(!new)>(s: seq<T>, keep: T -> bool)
    ensures |Filter(s, keep)| == |s| <==> forall i :: 0 <= i < |s| ==> keep(s[i])
    ensures Filter(s, keep) == s <==> forall i :: 0 <= i < |s| ==> keep(s[i])
  {
    if s != [] {
      FilterKeepsAll(s[1..], keep);
      if keep(s[0]) {
        assert s == [s[0]] + s[1..];
        assert forall i :: 1 <= i < |s| ==> s[i] == s[1..][i - 1];
      }
    }
  }

  /** Selection distributes over concatenation. */
  lemma {:induction false} FilterAppend<T(!new)>(a: seq<T>, b: seq<T>, keep: T -> bool)
    ensures Filter(a + b, keep) == Filter(a, keep) + Filter(b, keep)
  {
    if a == [] {
      assert a + b == b;
    } else {
      assert (a + b)[0] == a[0];
      assert (a + b)[1..] == a[1..] + b;
      FilterAppend(a[1..], b, keep);
    }
  }

  /** A subsequence made only of kept elements is no longer than the selection. */
  lemma {:induction false} SubsequenceNoLonger<T(!new)>(r: seq<T>, s: seq<T>, keep: T -> bool)
    requires SubsequenceOf(r, s)
    requires forall i :: 0 <= i < |r| ==> keep(r[i])
    ensures |r| <= |Filter(s, keep)|
    decreases |s|
  {
    if r != [] {
      if r[0] == s[0] && SubsequenceOf(r[1..], s[1..]) {
        SubsequenceNoLonger(r[1..], s[1..], keep);
      } else {
        SubsequenceNoLonger(r, s[1..], keep);
      }
    }
  }

  /** The selection is the ONLY subsequence of `s` that consists of kept
      elements and is as long as the selection: the contract of `Filter`
      pins its result down completely. */
  lemma {:induction false} FilterIsUnique<T(!new)>(r: seq<T>, s: seq<T>, keep: T -> bool)
    requires SubsequenceOf(r, s)
    requires forall i :: 0 <= i < |r| ==> keep(r[i])
    requires |r| == |Filter(s, keep)|
    ensures r == Filter(s, keep)
    decreases |s|
  {
    if s != [] && r != [] {
      if keep(s[0]) {
        if !(r[0] == s[0] && SubsequenceOf(r[1..], s[1..])) {
          SubsequenceNoLonger(r, s[1..], keep);
          assert false;
        }
        FilterIsUnique(r[1..], s[1..], keep);
        assert r == [r[0]] + r[1..];
      } else {
        assert r[0] != s[0];
        FilterIsUnique(r, s[1..], keep);
      }
    }
  }

  /** The independent description determines the selection: a subsequence of
      `s` holding each kept element as often as `s` does, and nothing else,
      is the selection. */
  lemma FilterCharacterized<T(!new)>(r: seq<T>, s: seq<T>, keep: T -> bool)
    requires SubsequenceOf(r, s)
    requires forall x :: multiset(r)[x] == if keep(x) then multiset(s)[x] else 0
    ensures r == Filter(s, keep)
  {
    FilterCounts(s, keep);
    assert multiset(r) == multiset(Filter(s, keep));
    assert |r| == |multiset(r)| == |multiset(Filter(s, keep))| == |Filter(s, keep)|;
    forall i | 0 <= i < |r| ensures keep(r[i]) {
      assert r[i] in multiset(r);
    }
    FilterIsUnique(r, s, keep);
  }
}
