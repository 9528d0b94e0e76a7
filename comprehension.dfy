/**
 * Python's filtering list comprehension `[f(x) for x in s if p(x)]`, the shape of
 * every selection the search performs. Its meaning is fixed once here: the result
 * is `f` applied to exactly the items that satisfy `p`, in their original order.
 */
module Comprehension {

  /** `[f(x) for x in s if p(x)]`. */
  function Comprehend<T, U>(s: seq<T>, p: T -> bool, f: T -> U): (r: seq<U>)
    ensures |r| <= |s|
  {
    if s == [] then []
    else
      var last := s[|s| - 1];
      Comprehend(s[..|s| - 1], p, f) + (if p(last) then [f(last)] else [])
  }

  /** The indices of the items of `s` that satisfy `p`, in increasing order. */
  function KeptIndices<T>(s: seq<T>, p: T -> bool): (r: seq<nat>)
    ensures forall j :: 0 <= j < |r| ==> r[j] < |s| && p(s[r[j]])
    ensures forall j, k :: 0 <= j < k < |r| ==> r[j] < r[k]
    ensures forall i :: 0 <= i < |s| && p(s[i]) ==> i in r
  {
    if s == [] then []
    else
      var rest := KeptIndices(s[..|s| - 1], p);
      if p(s[|s| - 1]) then rest + [|s| - 1] else rest
  }

  /** The comprehension is `f` at the kept indices, one for one and in order. */
  lemma {:induction false} ComprehendAt<T, U>(s: seq<T>, p: T -> bool, f: T -> U)
    ensures |Comprehend(s, p, f)| == |KeptIndices(s, p)|
    ensures forall j :: 0 <= j < |KeptIndices(s, p)| ==>
      Comprehend(s, p, f)[j] == f(s[KeptIndices(s, p)[j]])
  {
    if s != [] {
      var init := s[..|s| - 1];
      ComprehendAt(init, p, f);
      var r, K := Comprehend(s, p, f), KeptIndices(s, p);
      var r0, K0 := Comprehend(init, p, f), KeptIndices(init, p);
      forall j | 0 <= j < |K0|
        ensures r[j] == f(s[K[j]])
      {
        assert r[j] == r0[j] && K[j] == K0[j];
        assert s[K0[j]] == init[K0[j]];
      }
    }
  }

  /** `y` is in the comprehension iff it is `f(x)` for some item `x` satisfying `p`. */
  lemma ComprehendMembers<T, U>(s: seq<T>, p: T -> bool, f: T -> U)
    ensures forall y :: y in Comprehend(s, p, f) <==>
      exists i :: 0 <= i < |s| && p(s[i]) && f(s[i]) == y
  {
    ComprehendAt(s, p, f);
    var r, K := Comprehend(s, p, f), KeptIndices(s, p);
    forall y
      ensures y in r <==> exists i :: 0 <= i < |s| && p(s[i]) && f(s[i]) == y
    {
      if y in r {
        var j :| 0 <= j < |r| && r[j] == y;
        assert p(s[K[j]]) && f(s[K[j]]) == y;
      }
      if exists i :: 0 <= i < |s| && p(s[i]) && f(s[i]) == y {
        var i :| 0 <= i < |s| && p(s[i]) && f(s[i]) == y;
        var j :| 0 <= j < |K| && K[j] == i;
        assert r[j] == y;
      }
    }
  }

  /** The comprehension of a concatenation is the concatenation of the comprehensions. */
  lemma {:induction false} ComprehendAppend<T, U>(s: seq<T>, t: seq<T>, p: T -> bool, f: T -> U)
    ensures Comprehend(s + t, p, f) == Comprehend(s, p, f) + Comprehend(t, p, f)
  {
    if t == [] {
      assert s + t == s;
    } else {
      var t0 := t[..|t| - 1];
      ComprehendAppend(s, t0, p, f);
      assert (s + t)[..|s + t| - 1] == s + t0;
    }
  }

  /** When every item satisfies `p`, the comprehension is `f` applied to all of `s`. */
  lemma {:induction false} ComprehendAll<T, U>(s: seq<T>, p: T -> bool, f: T -> U)
    requires forall i :: 0 <= i < |s| ==> p(s[i])
    ensures |Comprehend(s, p, f)| == |s|
    ensures forall i :: 0 <= i < |s| ==> Comprehend(s, p, f)[i] == f(s[i])
  {
    if s != [] {
      ComprehendAll(s[..|s| - 1], p, f);
    }
  }

  /** The comprehension is empty iff no item satisfies `p`. */
  lemma ComprehendEmpty<T, U>(s: seq<T>, p: T -> bool, f: T -> U)
    ensures Comprehend(s, p, f) == [] <==> forall i :: 0 <= i < |s| ==> !p(s[i])
  {
    ComprehendAt(s, p, f);
    var K := KeptIndices(s, p);
    if exists i :: 0 <= i < |s| && p(s[i]) {
      var i :| 0 <= i < |s| && p(s[i]);
      assert i in K;
    }
  }

  /** `[y for x in s for y in f(x)]`: the blocks `f(x)` laid end to end, in the order of `s`. */
  function FlatMap<T, U>(s: seq<T>, f: T -> seq<U>): seq<U> {
    if s == [] then [] else FlatMap(s[..|s| - 1], f) + f(s[|s| - 1])
  }

  /** The flat map of a concatenation is the concatenation of the flat maps. */
  lemma {:induction false} FlatMapAppend<T, U>(s: seq<T>, t: seq<T>, f: T -> seq<U>)
    ensures FlatMap(s + t, f) == FlatMap(s, f) + FlatMap(t, f)
  {
    if t == [] {
      assert s + t == s;
    } else {
      var t0 := t[..|t| - 1];
      FlatMapAppend(s, t0, f);
      assert (s + t)[..|s + t| - 1] == s + t0;
    }
  }

  /** `y` is in the flat map iff it is in the block of some item. */
  lemma {:induction false} FlatMapMembers<T, U>(s: seq<T>, f: T -> seq<U>)
    ensures forall y :: y in FlatMap(s, f) <==> exists i :: 0 <= i < |s| && y in f(s[i])
  {
    if s != [] {
      var init := s[..|s| - 1];
      FlatMapMembers(init, f);
      forall y
        ensures y in FlatMap(s, f) <==> exists i :: 0 <= i < |s| && y in f(s[i])
      {
        if exists i :: 0 <= i < |s| && y in f(s[i]) {
          var i :| 0 <= i < |s| && y in f(s[i]);
          if i < |init| {
            assert init[i] == s[i];
          }
        }
        if y in FlatMap(init, f) {
          var i :| 0 <= i < |init| && y in f(init[i]);
          assert s[i] == init[i];
        }
      }
    }
  }

  /** Blocks of at least one item make the flat map at least as long as `s`. */
  lemma {:induction false} FlatMapLonger<T, U>(s: seq<T>, f: T -> seq<U>)
    requires forall i :: 0 <= i < |s| ==> |f(s[i])| >= 1
    ensures |FlatMap(s, f)| >= |s|
  {
    if s != [] {
      FlatMapLonger(s[..|s| - 1], f);
    }
  }

  /** When every block has exactly one item, the flat map takes that item from each. */
  lemma {:induction false} FlatMapSingletons<T, U>(s: seq<T>, f: T -> seq<U>)
    requires forall i :: 0 <= i < |s| ==> |f(s[i])| == 1
    ensures |FlatMap(s, f)| == |s|
    ensures forall i :: 0 <= i < |s| ==> FlatMap(s, f)[i] == f(s[i])[0]
  {
    if s != [] {
      FlatMapSingletons(s[..|s| - 1], f);
    }
  }
}
