/**
 * The sequence building blocks both scripts lean on: keeping the elements
 * that satisfy a test (a generator's `if` clause, a boolean mask), applying
 * a function to every element, and concatenating a sequence of sequences
 * (`''.join`).
 */
module Seqs {

  /** The elements of `s` that satisfy `p`, in their original order. */
  function Filter<T>(p: T -> bool, s: seq<T>): (r: seq<T>)
    ensures |r| <= |s|
    ensures forall x :: x in r ==> x in s && p(x)
  {
    if s == [] then []
    else (if p(s[0]) then [s[0]] else []) + Filter(p, s[1..])
  }

  /** The positions of `s` whose element satisfies `p`, ascending. */
  function FilterIndices<T>(p: T -> bool, s: seq<T>): (idx: seq<nat>)
    ensures |idx| <= |s|
  {
    if s == [] then []
    else (if p(s[0]) then [0] else []) + Shift(FilterIndices(p, s[1..]))
  }

  /** Every index moved one position to the right. */
  function Shift(idx: seq<nat>): (r: seq<nat>)
    ensures |r| == |idx|
  {
    seq(|idx|, k requires 0 <= k < |idx| => idx[k] + 1)
  }

  function Map<T, U>(f: T -> U, s: seq<T>): (r: seq<U>)
  {
    seq(|s|, i requires 0 <= i < |s| => f(s[i]))
  }

  /** The concatenation of all parts, in order. */
  function Join<T>(parts: seq<seq<T>>): (r: seq<T>)
  {
    if parts == [] then [] else parts[0] + Join(parts[1..])
  }

  lemma {:induction false} FilterAppend<T>(p: T -> bool, a: seq<T>, b: seq<T>)
    ensures Filter(p, a + b) == Filter(p, a) + Filter(p, b)
  {
    if a == [] {
      assert a + b == b;
    } else {
      assert (a + b)[0] == a[0];
      assert (a + b)[1..] == a[1..] + b;
      FilterAppend(p, a[1..], b);
    }
  }

  lemma MapAppend<T, U>(f: T -> U, a: seq<T>, b: seq<T>)
    ensures Map(f, a + b) == Map(f, a) + Map(f, b)
  {
  }

  lemma {:induction false} JoinAppend<T>(a: seq<seq<T>>, b: seq<seq<T>>)
    ensures Join(a + b) == Join(a) + Join(b)
  {
    if a == [] {
      assert a + b == b;
    } else {
      assert (a + b)[0] == a[0];
      assert (a + b)[1..] == a[1..] + b;
      JoinAppend(a[1..], b);
    }
  }

  /** Mapping a function that never lengthens a part over the parts never
      lengthens their concatenation. */
  lemma {:induction false} JoinMapShorter<T>(f: seq<T> -> seq<T>, parts: seq<seq<T>>)
    requires forall x :: |f(x)| <= |x|
    ensures |Join(Map(f, parts))| <= |Join(parts)|
  {
    if parts != [] {
      assert Map(f, parts) == [f(parts[0])] + Map(f, parts[1..]);
      assert Join(Map(f, parts)) == f(parts[0]) + Join(Map(f, parts[1..]));
      JoinMapShorter(f, parts[1..]);
    }
  }

  /** Filtering, mapping and joining is joining every element's
      contribution, where an element the test rejects contributes nothing. */
  lemma {:induction false} JoinMapFilter<T, U>(p: T -> bool, f: T -> seq<U>, g: T -> seq<U>, s: seq<T>)
    requires forall x :: g(x) == if p(x) then f(x) else []
    ensures Join(Map(f, Filter(p, s))) == Join(Map(g, s))
  {
    if s != [] {
      var tail := Filter(p, s[1..]);
      var head := if p(s[0]) then [s[0]] else [];
      JoinMapFilter(p, f, g, s[1..]);
      assert Filter(p, s) == head + tail;
      MapAppend(f, head, tail);
      JoinAppend(Map(f, head), Map(f, tail));
      if p(s[0]) {
        assert Map(f, head) == [f(s[0])];
        assert Join([f(s[0])]) == f(s[0]) + Join([f(s[0])][1..]);
      }
      var parts := Map(g, s);
      assert parts[1..] == Map(g, s[1..]);
      assert Join(parts) == parts[0] + Join(parts[1..]);
    }
  }

  /** Dropping parts never lengthens the concatenation. */
  lemma {:induction false} JoinFilterShorter<T>(p: seq<T> -> bool, parts: seq<seq<T>>)
    ensures |Join(Filter(p, parts))| <= |Join(parts)|
  {
    if parts != [] {
      var head := if p(parts[0]) then [parts[0]] else [];
      JoinFilterShorter(p, parts[1..]);
      JoinAppend(head, Filter(p, parts[1..]));
      assert head == [] || Join(head) == parts[0] + [];
    }
  }

  /**
   * Filter keeps exactly the positions FilterIndices lists: each kept
   * element is the input element at its index, the indices ascend strictly
   * (so the order of the input is kept), and a position is listed if and
   * only if its element satisfies the test.
   */
  lemma FilterIndicesSpec<T>(p: T -> bool, s: seq<T>)
    ensures |FilterIndices(p, s)| == |Filter(p, s)|
    ensures forall k :: 0 <= k < |FilterIndices(p, s)| ==>
              FilterIndices(p, s)[k] < |s| && Filter(p, s)[k] == s[FilterIndices(p, s)[k]]
    ensures forall k, l :: 0 <= k < l < |FilterIndices(p, s)| ==>
              FilterIndices(p, s)[k] < FilterIndices(p, s)[l]
    ensures forall i :: 0 <= i < |s| ==> (p(s[i]) <==> i in FilterIndices(p, s))
  {
    FilterIndicesAt(p, s);
    FilterIndicesAscending(p, s);
    FilterIndicesExact(p, s);
  }

  lemma {:induction false} FilterIndicesAt<T>(p: T -> bool, s: seq<T>)
    ensures |FilterIndices(p, s)| == |Filter(p, s)|
    ensures forall k :: 0 <= k < |FilterIndices(p, s)| ==>
              FilterIndices(p, s)[k] < |s| && Filter(p, s)[k] == s[FilterIndices(p, s)[k]]
  {
    if s != [] {
      var tail := s[1..];
      FilterIndicesAt(p, tail);
      var rest := FilterIndices(p, tail);
      var idx := FilterIndices(p, s);
      var head: seq<nat> := if p(s[0]) then [0] else [];
      assert idx == head + Shift(rest);
      assert Filter(p, s) == (if p(s[0]) then [s[0]] else []) + Filter(p, tail);
      forall k | 0 <= k < |idx|
        ensures idx[k] < |s| && Filter(p, s)[k] == s[idx[k]]
      {
        if k >= |head| {
          assert idx[k] == rest[k - |head|] + 1;
          assert Filter(p, s)[k] == Filter(p, tail)[k - |head|];
        }
      }
    }
  }

  lemma {:induction false} FilterIndicesAscending<T>(p: T -> bool, s: seq<T>)
    ensures forall k, l :: 0 <= k < l < |FilterIndices(p, s)| ==>
              FilterIndices(p, s)[k] < FilterIndices(p, s)[l]
  {
    if s != [] {
      var tail := s[1..];
      FilterIndicesAscending(p, tail);
      var rest := FilterIndices(p, tail);
      var idx := FilterIndices(p, s);
      var head: seq<nat> := if p(s[0]) then [0] else [];
      assert idx == head + Shift(rest);
      forall k, l | 0 <= k < l < |idx|
        ensures idx[k] < idx[l]
      {
        if k >= |head| {
          assert idx[k] == rest[k - |head|] + 1 && idx[l] == rest[l - |head|] + 1;
        } else {
          assert idx[l] == rest[l - 1] + 1;
        }
      }
    }
  }

  lemma {:induction false} FilterIndicesExact<T>(p: T -> bool, s: seq<T>)
    ensures forall i :: 0 <= i < |s| ==> (p(s[i]) <==> i in FilterIndices(p, s))
  {
    if s != [] {
      var tail := s[1..];
      FilterIndicesExact(p, tail);
      var rest := FilterIndices(p, tail);
      var idx := FilterIndices(p, s);
      var head: seq<nat> := if p(s[0]) then [0] else [];
      assert idx == head + Shift(rest);
      forall i | 0 <= i < |s|
        ensures p(s[i]) <==> i in idx
      {
        if i == 0 {
          assert forall k :: 0 <= k < |rest| ==> Shift(rest)[k] != 0;
        } else {
          assert s[i] == tail[i - 1];
          if i - 1 in rest {
            var k :| 0 <= k < |rest| && rest[k] == i - 1;
            assert idx[|head| + k] == i;
          }
          if i in idx {
            var k :| 0 <= k < |idx| && idx[k] == i;
            assert k >= |head|;
            assert rest[k - |head|] == i - 1;
          }
        }
      }
    }
  }
}
