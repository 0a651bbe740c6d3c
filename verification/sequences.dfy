/**
 * The array idioms the pages use on their state: `map` and `filter` keyed on the
 * element index, `find`, and `filter` by value. Each index-keyed operation has a
 * direct definition and the literal element-by-element reading of the JavaScript
 * callback it comes from, and the two are proved equal.
 */
module Sequences {
  import opened Wrappers

  /**
   * `s.map((x, i) => i === idx ? f(x) : x)`: only the element at `idx` is replaced;
   * an index outside `s` changes nothing.
   */
  function MapAt<T>(s: seq<T>, idx: int, f: T -> T): (r: seq<T>)
    ensures |r| == |s|
    ensures forall k :: 0 <= k < |s| && k != idx ==> r[k] == s[k]
    ensures 0 <= idx < |s| ==> r[idx] == f(s[idx])
  {
    if 0 <= idx < |s| then s[idx := f(s[idx])] else s
  }

  /** The callback of `map` applied element by element, the first element having index `from`. */
  function MapIndexed<T>(s: seq<T>, idx: int, f: T -> T, from: int): seq<T>
    decreases |s|
  {
    if s == [] then []
    else [if from == idx then f(s[0]) else s[0]] + MapIndexed(s[1..], idx, f, from + 1)
  }

  lemma {:induction false} MapIndexedShift<T>(s: seq<T>, idx: int, f: T -> T, from: int)
    ensures MapIndexed(s, idx, f, from) == MapAt(s, idx - from, f)
    decreases |s|
  {
    if s != [] {
      MapIndexedShift(s[1..], idx, f, from + 1);
      var r := MapIndexed(s, idx, f, from);
      assert |r| == |s|;
      forall k | 0 <= k < |s|
        ensures r[k] == MapAt(s, idx - from, f)[k]
      {
        if k > 0 {
          assert r[k] == MapAt(s[1..], idx - from - 1, f)[k - 1];
        }
      }
    }
  }

  /** The direct definition of the index-keyed map agrees with the element-by-element one. */
  lemma MapAtIsMapIndexed<T>(s: seq<T>, idx: int, f: T -> T)
    ensures MapAt(s, idx, f) == MapIndexed(s, idx, f, 0)
  {
    MapIndexedShift(s, idx, f, 0);
  }

  /**
   * `s.filter((_, i) => i !== idx)`: the element at `idx` is dropped and the rest
   * keep their order; an index outside `s` changes nothing.
   */
  function RemoveAt<T>(s: seq<T>, idx: int): (r: seq<T>)
    ensures 0 <= idx < |s| ==> |r| == |s| - 1 && multiset(r) + multiset{s[idx]} == multiset(s)
    ensures !(0 <= idx < |s|) ==> r == s
    ensures forall k :: 0 <= k < |r| && k < idx ==> r[k] == s[k]
    ensures forall k :: 0 <= idx <= k < |r| ==> r[k] == s[k + 1]
  {
    if 0 <= idx < |s| then
      assert s == s[..idx] + [s[idx]] + s[idx + 1..];
      s[..idx] + s[idx + 1..]
    else s
  }

  /** The callback of `filter` applied element by element, the first element having index `from`. */
  function FilterIndexed<T>(s: seq<T>, idx: int, from: int): seq<T>
    decreases |s|
  {
    if s == [] then []
    else (if from == idx then [] else [s[0]]) + FilterIndexed(s[1..], idx, from + 1)
  }

  lemma {:induction false} FilterIndexedShift<T>(s: seq<T>, idx: int, from: int)
    ensures FilterIndexed(s, idx, from) == RemoveAt(s, idx - from)
    decreases |s|
  {
    if s != [] {
      FilterIndexedShift(s[1..], idx, from + 1);
      var d := idx - from;
      if d == 0 {
        assert RemoveAt(s[1..], -1) == s[1..];
      } else if d > 0 {
        RemoveAtAfterHead(s, d);
      } else {
        assert RemoveAt(s[1..], d - 1) == s[1..];
        assert [s[0]] + s[1..] == s;
      }
    }
  }

  /** Removing past the head keeps the head and removes one place further back in the tail. */
  lemma RemoveAtAfterHead<T>(s: seq<T>, d: int)
    requires |s| > 0 && d > 0
    ensures RemoveAt(s, d) == [s[0]] + RemoveAt(s[1..], d - 1)
  {
    var tail := s[1..];
    if d < |s| {
      var front, back := s[1..d], s[d + 1..];
      assert RemoveAt(s, d) == s[..d] + back;
      assert RemoveAt(tail, d - 1) == tail[..d - 1] + tail[d..];
      assert tail[..d - 1] == front && tail[d..] == back;
      assert s[..d] == [s[0]] + front;
      assert ([s[0]] + front) + back == [s[0]] + (front + back);
    } else {
      assert [s[0]] + tail == s;
    }
  }

  /** The direct definition of the index-keyed filter agrees with the element-by-element one. */
  lemma RemoveAtIsFilterIndexed<T>(s: seq<T>, idx: int)
    ensures RemoveAt(s, idx) == FilterIndexed(s, idx, 0)
  {
    FilterIndexedShift(s, idx, 0);
  }

  /** `s.findIndex(p)`: the position of the first element satisfying `p`, if any. */
  function FindIndex<T>(s: seq<T>, p: T -> bool): (r: Option<nat>)
    ensures r.Some? ==> r.value < |s| && p(s[r.value])
    ensures r.Some? ==> forall j :: 0 <= j < r.value ==> !p(s[j])
    ensures r.None? <==> forall j :: 0 <= j < |s| ==> !p(s[j])
    decreases |s|
  {
    if s == [] then None
    else if p(s[0]) then Some(0)
    else match FindIndex(s[1..], p)
      case None => None
      case Some(i) => Some(i + 1)
  }

  /** `s.filter(y => y !== x)`: every occurrence of `x` is dropped, the rest keep their order. */
  function RemoveAll<T(==,!new)>(s: seq<T>, x: T): (r: seq<T>)
    ensures x !in r
    ensures forall y :: y != x ==> multiset(r)[y] == multiset(s)[y]
    ensures forall k :: 0 <= k < |r| ==> r[k] in s
    ensures x !in s ==> r == s
    ensures NoDuplicates(s) ==> NoDuplicates(r)
    ensures |s| == 1 ==> r == if s[0] == x then [] else s
    decreases |s|
  {
    if s == [] then []
    else
      var rest := RemoveAll(s[1..], x);
      var r := if s[0] == x then rest else [s[0]] + rest;
      RemoveAllStep(s, x, rest, r);
      r
  }

  /** One step of `RemoveAll`: its contract carries over from the tail to the whole sequence. */
  lemma RemoveAllStep<T(!new)>(s: seq<T>, x: T, rest: seq<T>, r: seq<T>)
    requires |s| > 0
    requires x !in rest
    requires forall y :: y != x ==> multiset(rest)[y] == multiset(s[1..])[y]
    requires forall k :: 0 <= k < |rest| ==> rest[k] in s[1..]
    requires x !in s[1..] ==> rest == s[1..]
    requires NoDuplicates(s[1..]) ==> NoDuplicates(rest)
    requires r == if s[0] == x then rest else [s[0]] + rest
    ensures x !in r
    ensures forall y :: y != x ==> multiset(r)[y] == multiset(s)[y]
    ensures forall k :: 0 <= k < |r| ==> r[k] in s
    ensures x !in s ==> r == s
    ensures NoDuplicates(s) ==> NoDuplicates(r)
  {
    assert s == [s[0]] + s[1..];
    assert multiset(s) == multiset([s[0]]) + multiset(s[1..]);
    if s[0] != x {
      assert multiset(r) == multiset([s[0]]) + multiset(rest);
      forall k | 0 <= k < |r|
        ensures r[k] in s
      {
        if k > 0 {
          assert r[k] == rest[k - 1];
        }
      }
      if NoDuplicates(s) {
        assert s[0] !in s[1..];
        assert s[0] !in rest;
        ConsNoDuplicates(s[0], rest);
      }
    }
  }

  lemma ConsNoDuplicates<T>(a: T, t: seq<T>)
    ensures a !in t && NoDuplicates(t) ==> NoDuplicates([a] + t)
  {
    if a !in t && NoDuplicates(t) {
      var s := [a] + t;
      forall i, j | 0 <= i < j < |s|
        ensures s[i] != s[j]
      {
        assert s[j] == t[j - 1];
        if i > 0 {
          assert s[i] == t[i - 1];
        }
      }
    }
  }

  /**
   * Dropping `x` from two sequences laid end to end is dropping it from each, in
   * the same order: with the one-element case, this fixes the order of what remains.
   */
  lemma {:induction false} RemoveAllConcat<T(!new)>(a: seq<T>, b: seq<T>, x: T)
    ensures RemoveAll(a + b, x) == RemoveAll(a, x) + RemoveAll(b, x)
    decreases |a|
  {
    if a == [] {
      assert a + b == b;
    } else {
      assert (a + b)[0] == a[0];
      assert (a + b)[1..] == a[1..] + b;
      RemoveAllConcat(a[1..], b, x);
    }
  }

  /** Dropping every occurrence of `x` from `s + [x]` is the same as dropping them from `s`. */
  lemma {:induction false} RemoveAllAppended<T(!new)>(s: seq<T>, x: T)
    ensures RemoveAll(s + [x], x) == RemoveAll(s, x)
  {
    if s != [] {
      assert (s + [x])[1..] == s[1..] + [x];
      RemoveAllAppended(s[1..], x);
    }
  }

  /** No element occurs twice. */
  predicate NoDuplicates<T(==)>(s: seq<T>) {
    forall i, j :: 0 <= i < j < |s| ==> s[i] != s[j]
  }
}
