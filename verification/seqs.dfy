/** Order-preserving filtering of sequences, the model of `Array.prototype.filter`. */
module Seqs {

  /** The elements of `s` that satisfy `p`, in their original order. */
  function Filter<T(==,!new)>(p: T -> bool, s: seq<T>): (r: seq<T>)
    ensures |r| <= |s|
    decreases |s|
  {
    if |s| == 0 then []
    else (if p(s[0]) then [s[0]] else []) + Filter(p, s[1..])
  }

  /** The filter keeps exactly the elements that satisfy `p`. */
  lemma {:induction false} FilterMembers<T(!new)>(p: T -> bool, s: seq<T>)
    ensures forall x :: x in Filter(p, s) <==> x in s && p(x)
    decreases |s|
  {
    if |s| > 0 {
      assert s == [s[0]] + s[1..];
      FilterMembers(p, s[1..]);
    }
  }

  /** Filtering three elements decides each in turn. */
  lemma FilterOfThree<T(!new)>(p: T -> bool, a: T, b: T, c: T)
    ensures Filter(p, [a, b, c])
         == (if p(a) then [a] else []) + (if p(b) then [b] else []) + (if p(c) then [c] else [])
  {
    var s := [a, b, c];
    assert s[0] == a && s[1..] == [b, c];
    assert s[1..][0] == b && s[1..][1..] == [c];
    assert s[1..][1..][0] == c && s[1..][1..][1..] == [];
    var fc := (if p(c) then [c] else []) + Filter(p, []);
    assert Filter(p, [c]) == fc;
    assert Filter(p, [b, c]) == (if p(b) then [b] else []) + fc;
    assert Filter(p, s) == (if p(a) then [a] else []) + ((if p(b) then [b] else []) + fc);
  }

  /** Filtering keeps every occurrence of a kept value and drops every
      occurrence of a rejected one. */
  lemma {:induction false} FilterCount<T(!new)>(p: T -> bool, s: seq<T>)
    ensures forall x :: multiset(Filter(p, s))[x] == if p(x) then multiset(s)[x] else 0
    decreases |s|
  {
    if |s| > 0 {
      assert s == [s[0]] + s[1..];
      FilterCount(p, s[1..]);
    }
  }

  /** Filtering a concatenation filters each part. */
  lemma {:induction false} FilterAppend<T(!new)>(p: T -> bool, a: seq<T>, b: seq<T>)
    ensures Filter(p, a + b) == Filter(p, a) + Filter(p, b)
    decreases |a|
  {
    if |a| == 0 {
      assert a + b == b;
    } else {
      var h := if p(a[0]) then [a[0]] else [];
      assert (a + b)[0] == a[0];
      assert (a + b)[1..] == a[1..] + b;
      assert Filter(p, a + b) == h + Filter(p, a[1..] + b);
      FilterAppend(p, a[1..], b);
      assert Filter(p, a) == h + Filter(p, a[1..]);
    }
  }

  /** A filter that keeps every element is the identity. */
  lemma {:induction false} FilterKeepsAll<T(!new)>(p: T -> bool, s: seq<T>)
    requires forall x | x in s :: p(x)
    ensures Filter(p, s) == s
    decreases |s|
  {
    if |s| > 0 {
      FilterKeepsAll(p, s[1..]);
    }
  }

  /** Two filters commute. */
  lemma {:induction false} FilterCommutes<T(!new)>(p: T -> bool, q: T -> bool, s: seq<T>)
    ensures Filter(p, Filter(q, s)) == Filter(q, Filter(p, s))
    decreases |s|
  {
    if |s| > 0 {
      var head := [s[0]];
      var tail := s[1..];
      assert s == head + tail;
      FilterAppend(q, head, tail);
      FilterAppend(p, head, tail);
      FilterAppend(p, Filter(q, head), Filter(q, tail));
      FilterAppend(q, Filter(p, head), Filter(p, tail));
      FilterCommutes(p, q, tail);
    }
  }
}
