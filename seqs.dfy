/** Order-preserving selection, the shape of a pandas boolean-mask filter
    (`df[mask]`), pandas' missing-cell comparison and `unique()`, and the
    small wrappers the model shares. */
module Seqs {

  datatype Option<T> = None | Some(value: T)

  datatype Result<T> = Success(value: T) | Failure(error: string)

  /** The elements of `s` that satisfy `p`, in their original order. */
  function Filter<T>(s: seq<T>, p: T -> bool): (r: seq<T>)
    ensures |r| <= |s|
    ensures forall x | x in r :: x in s && p(x)
    ensures forall x | x in s && p(x) :: x in r
  {
    if |s| == 0 then []
    else Filter(s[..|s| - 1], p) + (if p(s[|s| - 1]) then [s[|s| - 1]] else [])
  }

  /** `sub` is `s` with some elements left out, the rest in order: `idx`
      gives, for each kept element, its strictly increasing position in `s`. */
  ghost predicate SubsequenceBy<T>(sub: seq<T>, s: seq<T>, idx: seq<int>) {
    && |idx| == |sub|
    && (forall k | 0 <= k < |idx| :: 0 <= idx[k] < |s| && sub[k] == s[idx[k]])
    && (forall k, l | 0 <= k < l < |idx| :: idx[k] < idx[l])
  }

  ghost predicate IsSubsequence<T>(sub: seq<T>, s: seq<T>) {
    exists idx :: SubsequenceBy(sub, s, idx)
  }

  /** Appending an element to the sequence keeps a subsequence one, and so
      does appending it to both. */
  lemma SubsequenceExtend<T>(sub: seq<T>, s: seq<T>, idx: seq<int>, x: T)
    requires SubsequenceBy(sub, s, idx)
    ensures SubsequenceBy(sub, s + [x], idx)
    ensures SubsequenceBy(sub + [x], s + [x], idx + [|s|])
  {
    assert forall k | 0 <= k < |idx| :: (s + [x])[idx[k]] == s[idx[k]];
  }

  /** Filtering keeps the order: the result is a subsequence of the input. */
  lemma {:induction false} FilterIsSubsequence<T>(s: seq<T>, p: T -> bool)
    ensures IsSubsequence(Filter(s, p), s)
  {
    if |s| == 0 {
      assert SubsequenceBy<T>([], s, []);
    } else {
      var init, last := s[..|s| - 1], s[|s| - 1];
      assert s == init + [last];
      FilterIsSubsequence(init, p);
      var idx :| SubsequenceBy(Filter(init, p), init, idx);
      SubsequenceExtend(Filter(init, p), init, idx, last);
      if p(last) {
        assert SubsequenceBy(Filter(s, p), s, idx + [|init|]);
      } else {
        assert SubsequenceBy(Filter(s, p), s, idx);
      }
    }
  }

  /** Filtering distributes over concatenation. */
  lemma {:induction false} FilterAppend<T>(a: seq<T>, b: seq<T>, p: T -> bool)
    ensures Filter(a + b, p) == Filter(a, p) + Filter(b, p)
  {
    if |b| > 0 {
      var b' := b[..|b| - 1];
      assert (a + b)[..|a + b| - 1] == a + b';
      FilterAppend(a, b', p);
    } else {
      assert a + b == a;
    }
  }

  /** Filtering again with the same predicate changes nothing. */
  lemma {:induction false} FilterIdempotent<T>(s: seq<T>, p: T -> bool)
    ensures Filter(Filter(s, p), p) == Filter(s, p)
  {
    if |s| > 0 {
      var init := s[..|s| - 1];
      FilterIdempotent(init, p);
      var last := if p(s[|s| - 1]) then [s[|s| - 1]] else [];
      FilterAppend(Filter(init, p), last, p);
      assert Filter(last, p) == last by {
        if |last| > 0 { assert last[..0] == []; }
      }
    }
  }

  /** Everything is kept exactly when every element satisfies the predicate. */
  lemma {:induction false} FilterKeepsAll<T>(s: seq<T>, p: T -> bool)
    requires forall x | x in s :: p(x)
    ensures Filter(s, p) == s
  {
    if |s| > 0 {
      var init, last := s[..|s| - 1], s[|s| - 1];
      assert forall x | x in init :: x in s;
      FilterKeepsAll(init, p);
      assert last in s && p(last);
      assert init + [last] == s;
    }
  }

  // ---------------------------------------------------------------- pandas cells

  /** `column == value` for one cell, where `None` is a missing cell (NaN): it
      equals nothing, itself included. */
  predicate SameGene(a: Option<string>, b: Option<string>) {
    a.Some? && b.Some? && a.value == b.value
  }

  /** `Series.unique()`: each value once, in order of first appearance; all
      missing cells count as one value. */
  function Unique(s: seq<Option<string>>): (r: seq<Option<string>>)
    ensures forall x :: x in r <==> x in s
    ensures forall i, j | 0 <= i < j < |r| :: r[i] != r[j]
  {
    if |s| == 0 then []
    else
      var u := Unique(s[..|s| - 1]);
      assert s == s[..|s| - 1] + [s[|s| - 1]];
      if s[|s| - 1] in u then u else u + [s[|s| - 1]]
  }

  /** The position of the first occurrence of `x` in `s`. */
  function FirstIndex<T(==)>(s: seq<T>, x: T): (i: nat)
    requires x in s
    ensures i < |s| && s[i] == x
    ensures forall k | 0 <= k < i :: s[k] != x
  {
    if s[0] == x then 0 else 1 + FirstIndex(s[1..], x)
  }

  /** Appending elements does not move the first occurrence of a value
      that is already there. */
  lemma FirstIndexAppend<T>(a: seq<T>, b: seq<T>, x: T)
    requires x in a
    ensures x in a + b && FirstIndex(a + b, x) == FirstIndex(a, x)
  {
    var i := FirstIndex(a, x);
    assert (a + b)[i] == x;
  }

  /** The first occurrences of the values `unique()` lists come in the order
      it lists them. */
  lemma {:induction false} UniqueFirstOrder(s: seq<Option<string>>)
    ensures forall i, j | 0 <= i < j < |Unique(s)| ::
              FirstIndex(s, Unique(s)[i]) < FirstIndex(s, Unique(s)[j])
  {
    if |s| > 0 {
      var init, last := s[..|s| - 1], s[|s| - 1];
      assert s == init + [last];
      UniqueFirstOrder(init);
      var u, r := Unique(init), Unique(s);
      assert r == if last in u then u else u + [last];
      forall i, j | 0 <= i < j < |r|
        ensures FirstIndex(s, r[i]) < FirstIndex(s, r[j])
      {
        assert r[i] == u[i] && u[i] in init;
        FirstIndexAppend(init, [last], u[i]);
        if j < |u| {
          assert r[j] == u[j] && u[j] in init;
          FirstIndexAppend(init, [last], u[j]);
        } else {
          assert r[j] == last && last !in init;
        }
      }
    }
  }

  /** `unique()` lists the values in the order of their first appearance,
      so it is a subsequence of the column. */
  lemma UniqueOrder(s: seq<Option<string>>)
    ensures forall i, j | 0 <= i < j < |Unique(s)| ::
              FirstIndex(s, Unique(s)[i]) < FirstIndex(s, Unique(s)[j])
    ensures IsSubsequence(Unique(s), s)
  {
    var r := Unique(s);
    UniqueFirstOrder(s);
    var idx := seq(|r|, k requires 0 <= k < |r| => FirstIndex(s, r[k]));
    assert SubsequenceBy(r, s, idx);
  }

}
