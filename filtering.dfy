/** Keeping the elements of a sequence that pass a test, in their original order: what a
    Python list comprehension with an `if`, or a `for` loop whose body starts with
    `continue` guards and ends with `append`, computes. */
module Filtering {

  /** The elements of `s` that satisfy `keep`, in order. Defined from the back, as a loop
      that appends survivors builds it. */
  function Filter<T>(keep: T -> bool, s: seq<T>): (r: seq<T>)
    ensures |r| <= |s|
    ensures forall k :: 0 <= k < |r| ==> keep(r[k]) && r[k] in s
  {
    if s == [] then []
    else Filter(keep, s[..|s| - 1]) + (if keep(s[|s| - 1]) then [s[|s| - 1]] else [])
  }

  /** One step of the loop: appending an element to the input appends it to the output
      exactly when it passes. */
  lemma FilterSnoc<T>(keep: T -> bool, s: seq<T>, x: T)
    ensures Filter(keep, s + [x]) == Filter(keep, s) + (if keep(x) then [x] else [])
  {
    assert (s + [x])[..|s|] == s;
  }

  /** Filtering commutes with concatenation: survivors of an earlier part precede those of
      a later part, so the relative order of the input is kept. */
  lemma {:induction false} FilterConcat<T>(keep: T -> bool, a: seq<T>, b: seq<T>)
    ensures Filter(keep, a + b) == Filter(keep, a) + Filter(keep, b)
    decreases |b|
  {
    if b == [] {
      assert a + b == a;
    } else {
      var b' := b[..|b| - 1];
      var x := b[|b| - 1];
      assert b == b' + [x];
      assert a + b == (a + b') + [x];
      FilterConcat(keep, a, b');
      FilterSnoc(keep, a + b', x);
      FilterSnoc(keep, b', x);
    }
  }

  /** An element is kept exactly when it occurs in the input and passes the test. */
  lemma {:induction false} FilterMembership<T>(keep: T -> bool, s: seq<T>, x: T)
    ensures x in Filter(keep, s) <==> x in s && keep(x)
  {
    if s != [] {
      var s' := s[..|s| - 1];
      assert s == s' + [s[|s| - 1]];
      FilterMembership(keep, s', x);
    }
  }

  /** The positions of `s` whose elements pass the test, in increasing order. */
  function KeptPositions<T>(keep: T -> bool, s: seq<T>): seq<nat> {
    if s == [] then []
    else KeptPositions(keep, s[..|s| - 1]) + (if keep(s[|s| - 1]) then [|s| - 1] else [])
  }

  /** Where every output element comes from: the k-th survivor is the input element at
      the k-th kept position; the positions increase strictly; and every position whose
      element passes the test is among them. So the output is exactly the passing
      elements, each once, in input order. */
  lemma {:induction false} FilterPositions<T>(keep: T -> bool, s: seq<T>)
    ensures |KeptPositions(keep, s)| == |Filter(keep, s)|
    ensures forall k :: 0 <= k < |Filter(keep, s)| ==>
      KeptPositions(keep, s)[k] < |s| && Filter(keep, s)[k] == s[KeptPositions(keep, s)[k]]
    ensures forall k, l :: 0 <= k < l < |KeptPositions(keep, s)| ==>
      KeptPositions(keep, s)[k] < KeptPositions(keep, s)[l]
    ensures forall i :: 0 <= i < |s| && keep(s[i]) ==> i in KeptPositions(keep, s)
  {
    if s != [] {
      var s' := s[..|s| - 1];
      FilterPositions(keep, s');
      var p, f := KeptPositions(keep, s'), Filter(keep, s');
      assert forall k :: 0 <= k < |p| ==> p[k] < |s'|;
      forall k | 0 <= k < |f|
        ensures f[k] == s[p[k]]
      {
        assert s'[p[k]] == s[p[k]];
      }
      forall i | 0 <= i < |s| && keep(s[i])
        ensures i in KeptPositions(keep, s)
      {
        if i < |s'| {
          assert s'[i] == s[i];
        }
      }
    }
  }

  /** A filter drops elements exactly when some input element fails the test; so it
      keeps as many elements as it was given only when it keeps them all. */
  lemma {:induction false} FilterKeepsAll<T>(keep: T -> bool, s: seq<T>)
    ensures Filter(keep, s) == s <==> forall i :: 0 <= i < |s| ==> keep(s[i])
    ensures |Filter(keep, s)| == |s| <==> forall i :: 0 <= i < |s| ==> keep(s[i])
  {
    if s != [] {
      var s' := s[..|s| - 1];
      FilterKeepsAll(keep, s');
      assert s == s' + [s[|s| - 1]];
      if !keep(s[|s| - 1]) {
        assert |Filter(keep, s)| < |s|;
      } else if |Filter(keep, s)| == |s| {
        assert |Filter(keep, s')| == |s'|;
        assert forall i :: 0 <= i < |s'| ==> s'[i] == s[i];
      } else {
        assert !(forall i :: 0 <= i < |s'| ==> keep(s'[i]));
      }
    }
  }
}
