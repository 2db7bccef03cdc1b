/** Order-preserving filtering of sequences: the model of a query-set `filter(...)`. */
module Seqs {

  /** The elements of `s` that satisfy `p`, kept in their order in `s`. */
  function Filter<T(!new)>(p: T -> bool, s: seq<T>): (r: seq<T>)
    ensures |r| <= |s|
    ensures forall x :: x in r <==> x in s && p(x)
  {
    if |s| == 0 then []
    else
      var init := Filter(p, s[..|s| - 1]);
      assert s == s[..|s| - 1] + [s[|s| - 1]];
      if p(s[|s| - 1]) then init + [s[|s| - 1]] else init
  }

  /** Filtering a sequence extended by one element extends the result by that element, if it qualifies. */
  lemma FilterSnoc<T(!new)>(p: T -> bool, s: seq<T>, x: T)
    ensures Filter(p, s + [x]) == Filter(p, s) + (if p(x) then [x] else [])
  {
    assert (s + [x])[..|s + [x]| - 1] == s;
  }

  /** Filtering distributes over concatenation: elements of `a` stay ahead of elements of `b`. */
  lemma {:induction false} FilterConcat<T(!new)>(p: T -> bool, a: seq<T>, b: seq<T>)
    ensures Filter(p, a + b) == Filter(p, a) + Filter(p, b)
    decreases |b|
  {
    if |b| == 0 {
      assert a + b == a;
    } else {
      var b' := b[..|b| - 1];
      var x := b[|b| - 1];
      assert b == b' + [x];
      assert a + b == (a + b') + [x];
      FilterConcat(p, a, b');
      FilterSnoc(p, a + b', x);
      FilterSnoc(p, b', x);
    }
  }

  /** A filter keeps the whole sequence, or as many elements, exactly when every element qualifies. */
  lemma {:induction false} FilterKeepsAll<T(!new)>(p: T -> bool, s: seq<T>)
    ensures Filter(p, s) == s <==> forall i :: 0 <= i < |s| ==> p(s[i])
    ensures |Filter(p, s)| == |s| <==> forall i :: 0 <= i < |s| ==> p(s[i])
    decreases |s|
  {
    if |s| == 0 {
    } else {
      var s' := s[..|s| - 1];
      var x := s[|s| - 1];
      assert s == s' + [x];
      FilterSnoc(p, s', x);
      FilterKeepsAll(p, s');
      if !p(x) {
        // Dropping the last element leaves at most |s| - 1 elements.
        assert |Filter(p, s)| <= |s'| < |s|;
      } else {
        assert Filter(p, s) == Filter(p, s') + [x];
      }
    }
  }

  /** A filter is empty exactly when no element qualifies. */
  lemma FilterEmpty<T(!new)>(p: T -> bool, s: seq<T>)
    ensures Filter(p, s) == [] <==> forall i :: 0 <= i < |s| ==> !p(s[i])
  {
    if Filter(p, s) != [] {
      assert Filter(p, s)[0] in Filter(p, s);
    }
    if exists i :: 0 <= i < |s| && p(s[i]) {
      var i :| 0 <= i < |s| && p(s[i]);
      assert s[i] in Filter(p, s);
    }
  }
}
