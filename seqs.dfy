/** Sequence helpers: the `Array.prototype.filter` the source relies on, and "subsequence". */
module Seqs {

  /** `s.filter(f)`: the elements of `s` that satisfy `f`, in their original order. */
  function Filter<T(!new)>(s: seq<T>, f: T -> bool): (r: seq<T>)
    ensures |r| <= |s|
    ensures forall x :: x in r <==> x in s && f(x)
    ensures forall x {:trigger multiset(r)[x]} :: multiset(r)[x] == if f(x) then multiset(s)[x] else 0
    decreases |s|
  {
    if s == [] then []
    else
      var init := Filter(s[..|s| - 1], f);
      assert s == s[..|s| - 1] + [s[|s| - 1]];
      if f(s[|s| - 1]) then init + [s[|s| - 1]] else init
  }

  /** Filtering a sequence extended by one element extends the filtered sequence by that element, or not. */
  lemma FilterAppend<T(!new)>(s: seq<T>, x: T, f: T -> bool)
    ensures Filter(s + [x], f) == Filter(s, f) + (if f(x) then [x] else [])
  {
    assert (s + [x])[..|s + [x]| - 1] == s;
  }

  /** Filtering a sequence with one more element in front. */
  lemma {:induction false} FilterCons<T(!new)>(x: T, s: seq<T>, f: T -> bool)
    ensures Filter([x] + s, f) == (if f(x) then [x] else []) + Filter(s, f)
    decreases |s|
  {
    if s == [] {
      FilterAppend([], x, f);
      assert [] + [x] == [x] + s;
    } else {
      var init, y := s[..|s| - 1], s[|s| - 1];
      assert s == init + [y];
      FilterCons(x, init, f);
      FilterConsStep(x, init, y, f);
    }
  }

  /** The step of `FilterCons`: one more element at the back keeps the front element's share. */
  lemma FilterConsStep<T(!new)>(x: T, init: seq<T>, y: T, f: T -> bool)
    requires Filter([x] + init, f) == (if f(x) then [x] else []) + Filter(init, f)
    ensures Filter([x] + (init + [y]), f) == (if f(x) then [x] else []) + Filter(init + [y], f)
  {
    assert [x] + (init + [y]) == ([x] + init) + [y];
    FilterAppend([x] + init, y, f);
    FilterAppend(init, y, f);
  }

  /** The positions of `s` whose element passes `f`. */
  function PassingIndices<T>(s: seq<T>, f: T -> bool): (ix: set<int>)
    ensures forall i :: i in ix <==> 0 <= i < |s| && f(s[i])
  {
    set i | 0 <= i < |s| && f(s[i])
  }

  /** The length of a filtered sequence is the number of positions whose element passes. */
  lemma {:induction false} FilterCountsIndices<T(!new)>(s: seq<T>, f: T -> bool)
    ensures |Filter(s, f)| == |PassingIndices(s, f)|
    decreases |s|
  {
    if s != [] {
      var init, y := s[..|s| - 1], s[|s| - 1];
      assert s == init + [y];
      FilterCountsIndices(init, f);
      FilterAppend(init, y, f);
      PassingIndicesAppend(init, y, f);
    }
  }

  /** One more element at the back adds its position when it passes, and nothing else. */
  lemma PassingIndicesAppend<T>(init: seq<T>, y: T, f: T -> bool)
    ensures |PassingIndices(init + [y], f)| == |PassingIndices(init, f)| + (if f(y) then 1 else 0)
  {
    var before := PassingIndices(init, f);
    var after := PassingIndices(init + [y], f);
    assert |init| !in before;
    forall i ensures i in after <==> i in before || (f(y) && i == |init|) {
      if 0 <= i < |init| {
        assert (init + [y])[i] == init[i];
      }
    }
    if f(y) {
      assert after == before + {|init|};
    } else {
      assert after == before;
    }
  }

  /** `a` can be obtained from `b` by deleting elements, keeping the order of the rest. */
  predicate IsSubseq<T(==)>(a: seq<T>, b: seq<T>)
    decreases |b|
  {
    if a == [] then true
    else if b == [] then false
    else if a[|a| - 1] == b[|b| - 1] then IsSubseq(a[..|a| - 1], b[..|b| - 1])
    else IsSubseq(a, b[..|b| - 1])
  }

  lemma {:induction false} SubseqExtend<T>(a: seq<T>, b: seq<T>, x: T)
    requires IsSubseq(a, b)
    ensures IsSubseq(a, b + [x])
    decreases |a| + |b|, 1
  {
    assert (b + [x])[..|b|] == b;
    if a != [] && a[|a| - 1] == x {
      SubseqDropLast(a, b);
    }
  }

  lemma {:induction false} SubseqDropLast<T>(a: seq<T>, b: seq<T>)
    requires a != [] && IsSubseq(a, b)
    ensures IsSubseq(a[..|a| - 1], b)
    decreases |a| + |b|, 0
  {
    var b', y := b[..|b| - 1], b[|b| - 1];
    assert b == b' + [y];
    if a[|a| - 1] != y {
      SubseqDropLast(a, b');
    }
    SubseqExtend(a[..|a| - 1], b', y);
  }

  /** What `filter` returns is a subsequence of its input. */
  lemma {:induction false} FilterIsSubseq<T(!new)>(s: seq<T>, f: T -> bool)
    ensures IsSubseq(Filter(s, f), s)
    decreases |s|
  {
    if s != [] {
      var init, x := s[..|s| - 1], s[|s| - 1];
      FilterIsSubseq(init, f);
      var r := Filter(s, f);
      if f(x) {
        assert r[..|r| - 1] == Filter(init, f);
      } else {
        SubseqExtend(Filter(init, f), init, x);
        assert init + [x] == s;
      }
    }
  }

  lemma {:induction false} SubseqReflexive<T>(s: seq<T>)
    ensures IsSubseq(s, s)
    decreases |s|
  {
    if s != [] {
      SubseqReflexive(s[..|s| - 1]);
    }
  }

  lemma {:induction false} SubseqTransitive<T>(a: seq<T>, b: seq<T>, c: seq<T>)
    requires IsSubseq(a, b) && IsSubseq(b, c)
    ensures IsSubseq(a, c)
    decreases |c|
  {
    if a != [] {
      var c', z := c[..|c| - 1], c[|c| - 1];
      assert c == c' + [z];
      if b[|b| - 1] == z {
        var b' := b[..|b| - 1];
        if a[|a| - 1] == z {
          SubseqTransitive(a[..|a| - 1], b', c');
        } else {
          SubseqTransitive(a, b', c');
          SubseqExtend(a, c', z);
        }
      } else {
        SubseqTransitive(a, b, c');
        SubseqExtend(a, c', z);
      }
    }
  }

  /** Taking one more element of `s` appends that element. */
  lemma TakeOneMore<T>(s: seq<T>, i: nat)
    requires i < |s|
    ensures s[..i + 1] == s[..i] + [s[i]]
  {
  }

  /** A prefix `r` of a suffix `t` of `s` is the slice of `s` it covers, followed by the rest of `t`. */
  lemma PrefixOfSuffix<T>(s: seq<T>, t: seq<T>, r: seq<T>)
    requires |t| <= |s| && t == s[|s| - |t|..]
    requires |r| <= |t| && r == t[..|r|]
    ensures r == s[|s| - |t|..|s| - |t| + |r|]
    ensures s[|s| - |t| + |r|..] == t[|r|..]
  {
  }
}
