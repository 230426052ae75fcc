/**
 `Array.prototype.filter` on sequences, with the facts the rest of the model
 needs about it: what it keeps, that it keeps input order, and how it composes.
 */
module Seqs {

  /** The elements of `s` that satisfy `p`, in their original order. */
  function Filter<T(!new)>(s: seq<T>, p: T -> bool): (r: seq<T>)
    ensures |r| <= |s|
  {
    if s == [] then []
    else (if p(s[0]) then [s[0]] else []) + Filter(s[1..], p)
  }

  /** The filter keeps exactly the elements that pass, and nothing more often than `s` has it. */
  lemma {:induction false} FilterContents<T(!new)>(s: seq<T>, p: T -> bool)
    ensures forall x :: x in Filter(s, p) <==> x in s && p(x)
    ensures multiset(Filter(s, p)) <= multiset(s)
  {
    if s != [] {
      FilterContents(s[1..], p);
      assert s == [s[0]] + s[1..];
    }
  }

  /** Filtering distributes over concatenation, which is what "keeps input order" means. */
  lemma {:induction false} FilterConcat<T(!new)>(a: seq<T>, b: seq<T>, p: T -> bool)
    ensures Filter(a + b, p) == Filter(a, p) + Filter(b, p)
  {
    if a == [] {
      assert a + b == b;
    } else {
      var head := if p(a[0]) then [a[0]] else [];
      assert (a + b)[0] == a[0] && (a + b)[1..] == a[1..] + b;
      assert Filter(a + b, p) == head + Filter(a[1..] + b, p);
      FilterConcat(a[1..], b, p);
      assert Filter(a, p) == head + Filter(a[1..], p);
    }
  }

  /** Filtering a one-element extension. */
  lemma FilterSnoc<T(!new)>(s: seq<T>, x: T, p: T -> bool)
    ensures Filter(s + [x], p) == Filter(s, p) + (if p(x) then [x] else [])
  {
    FilterConcat(s, [x], p);
  }

  /** Two filters in a row keep exactly what the conjunction keeps. */
  lemma {:induction false} FilterTwice<T(!new)>(s: seq<T>, p: T -> bool, q: T -> bool, pq: T -> bool)
    requires forall x :: pq(x) == (p(x) && q(x))
    ensures Filter(Filter(s, p), q) == Filter(s, pq)
  {
    if s != [] {
      var head := if p(s[0]) then [s[0]] else [];
      assert Filter(s, p) == head + Filter(s[1..], p);
      FilterConcat(head, Filter(s[1..], p), q);
      FilterTwice(s[1..], p, q, pq);
      if p(s[0]) {
        assert Filter(head, q) == (if q(s[0]) then [s[0]] else []) + Filter([], q);
      }
    }
  }

  /** A filter that every element passes is the identity. */
  lemma {:induction false} FilterAll<T(!new)>(s: seq<T>, p: T -> bool)
    requires forall k :: 0 <= k < |s| ==> p(s[k])
    ensures Filter(s, p) == s
  {
    if s != [] {
      FilterAll(s[1..], p);
      assert s == [s[0]] + s[1..];
    }
  }

  /** A filter that no element passes gives the empty sequence. */
  lemma {:induction false} FilterNone<T(!new)>(s: seq<T>, p: T -> bool)
    requires forall k :: 0 <= k < |s| ==> !p(s[k])
    ensures Filter(s, p) == []
  {
    if s != [] {
      FilterNone(s[1..], p);
    }
  }

  /** When only the element at `k` fails `p`, the filter drops exactly that element. */
  lemma FilterDropsOne<T(!new)>(s: seq<T>, k: int, p: T -> bool)
    requires 0 <= k < |s| && !p(s[k])
    requires forall j :: 0 <= j < |s| && j != k ==> p(s[j])
    ensures Filter(s, p) == s[..k] + s[k + 1..]
  {
    KeepsSlice(s, 0, k, p);
    assert s[0..k] == s[..k];
    KeepsSlice(s, k + 1, |s|, p);
    assert s[k + 1..|s|] == s[k + 1..];
    JoinAround(s, k, p);
  }

  lemma JoinAround<T(!new)>(s: seq<T>, k: int, p: T -> bool)
    requires 0 <= k < |s| && !p(s[k])
    requires Filter(s[..k], p) == s[..k]
    requires Filter(s[k + 1..], p) == s[k + 1..]
    ensures Filter(s, p) == s[..k] + s[k + 1..]
  {
    DropsOne(s[k], s[k + 1..], p);
    SplitAt(s, k);
    FilterConcat(s[..k], [s[k]] + s[k + 1..], p);
  }

  lemma SplitLast<T>(s: seq<T>)
    requires s != []
    ensures s == s[..|s| - 1] + [s[|s| - 1]]
  {
  }

  lemma SplitAt<T>(s: seq<T>, k: int)
    requires 0 <= k < |s|
    ensures s == s[..k] + ([s[k]] + s[k + 1..])
  {
  }

  lemma KeepsSlice<T(!new)>(s: seq<T>, i: int, j: int, p: T -> bool)
    requires 0 <= i <= j <= |s|
    requires forall m :: i <= m < j ==> p(s[m])
    ensures Filter(s[i..j], p) == s[i..j]
  {
    var a := s[i..j];
    forall m | 0 <= m < |a| ensures p(a[m]) {
      assert a[m] == s[i + m];
    }
    FilterAll(a, p);
  }

  lemma DropsOne<T(!new)>(x: T, b: seq<T>, p: T -> bool)
    requires !p(x) && Filter(b, p) == b
    ensures Filter([x] + b, p) == b
  {
    assert ([x] + b)[1..] == b;
  }
}
