/** The three `Array.prototype` operations the record store and the helpers
    build on: `filter`, `slice` (with its negative and out-of-range index
    rules) and `sort` by a comparator, all on immutable sequences. */
module JsArrays {

  // ---------------------------------------------------------------------------
  // filter

  /** `s.filter(p)`: the elements satisfying `p`, in their original order. */
  function Filter<T(!new)>(s: seq<T>, p: T -> bool): (r: seq<T>)
    ensures |r| <= |s|
    ensures forall x :: x in r <==> x in s && p(x)
    ensures multiset(r) <= multiset(s)
  {
    if s == [] then []
    else
      var rest := Filter(s[1..], p);
      assert s == [s[0]] + s[1..];
      if p(s[0]) then [s[0]] + rest else rest
  }

  /** Filtering keeps the relative order: it distributes over concatenation. */
  lemma {:induction false} FilterConcat<T(!new)>(a: seq<T>, b: seq<T>, p: T -> bool)
    ensures Filter(a + b, p) == Filter(a, p) + Filter(b, p)
  {
    if a == [] {
      assert a + b == b;
    } else {
      assert (a + b)[1..] == a[1..] + b;
      assert (a + b)[0] == a[0];
      FilterConcat(a[1..], b, p);
      if p(a[0]) {
        ConcatAssoc([a[0]], Filter(a[1..], p), Filter(b, p));
      }
    }
  }

  /** A predicate that holds everywhere keeps everything. */
  lemma {:induction false} FilterAll<T(!new)>(s: seq<T>, p: T -> bool)
    requires forall i :: 0 <= i < |s| ==> p(s[i])
    ensures Filter(s, p) == s
  {
    if s != [] {
      FilterAll(s[1..], p);
      assert s == [s[0]] + s[1..];
    }
  }

  lemma ConcatAssoc<T>(x: seq<T>, y: seq<T>, z: seq<T>)
    ensures x + y + z == x + (y + z)
  {
  }

  /** A common prefix can be cancelled. */
  lemma CancelPrefix<T>(p: seq<T>, a: seq<T>, b: seq<T>)
    requires p + a == p + b
    ensures a == b
  {
    assert a == (p + a)[|p|..];
  }

  /** `f` applied to every element, the results one after the other (what a
      loop pushing `...f(x)` for each `x` builds). */
  function FlatMap<A, B>(s: seq<A>, f: A -> seq<B>): seq<B>
    decreases |s|
  {
    if s == [] then [] else FlatMap(s[..|s| - 1], f) + f(s[|s| - 1])
  }

  lemma {:induction false} FlatMapConcat<A, B>(a: seq<A>, b: seq<A>, f: A -> seq<B>)
    ensures FlatMap(a + b, f) == FlatMap(a, f) + FlatMap(b, f)
    decreases |b|
  {
    if b == [] {
      assert a + b == a;
    } else {
      var last := |b| - 1;
      assert (a + b)[..|a + b| - 1] == a + b[..last];
      assert (a + b)[|a + b| - 1] == b[last];
      FlatMapConcat(a, b[..last], f);
      ConcatAssoc(FlatMap(a, f), FlatMap(b[..last], f), f(b[last]));
    }
  }

  /** The result is empty exactly when every element gives nothing. */
  lemma {:induction false} FlatMapEmpty<A, B>(s: seq<A>, f: A -> seq<B>)
    ensures FlatMap(s, f) == [] <==> forall i :: 0 <= i < |s| ==> f(s[i]) == []
    decreases |s|
  {
    if s != [] {
      var last := |s| - 1;
      FlatMapEmpty(s[..last], f);
      assert forall i :: 0 <= i < last ==> s[..last][i] == s[i];
    }
  }

  // ---------------------------------------------------------------------------
  // slice

  /** How `slice` reads one of its indices: a negative index counts from the
      end, and the result is clamped to `0..len`. */
  function ClampIndex(i: int, len: nat): (k: nat)
    ensures k <= len
  {
    if i < 0 then (if len + i < 0 then 0 else len + i)
    else if i < len then i else len
  }

  /** `s.slice(start, end)`. */
  function Slice<T>(s: seq<T>, start: int, end: int): (r: seq<T>)
    ensures |r| <= |s|
    ensures forall x :: x in r ==> x in s
  {
    var from := ClampIndex(start, |s|);
    var to := ClampIndex(end, |s|);
    if from < to then s[from..to] else []
  }

  /** With non-negative indices `slice` is the window `[start, end)` cut to the
      sequence: it holds `max(0, min(end, |s|) - start)` elements, starting at `start`. */
  lemma SliceNonNegative<T>(s: seq<T>, start: int, end: int)
    requires 0 <= start && 0 <= end
    ensures var to := if end < |s| then end else |s|;
            |Slice(s, start, end)| == (if start < to then to - start else 0)
    ensures forall k :: 0 <= k < |Slice(s, start, end)| ==> Slice(s, start, end)[k] == s[start + k]
  {
  }

  /** `slice(0, n)` is the prefix of length `min(n, |s|)`. */
  lemma SlicePrefix<T>(s: seq<T>, n: nat)
    ensures Slice(s, 0, n) == s[..if n < |s| then n else |s|]
  {
  }

  // ---------------------------------------------------------------------------
  // sort

  /** The order a comparator `(a, b) => before(a, b) ? -1 : 1` asks for: no
      element is followed by one that must come before it. */
  ghost predicate SortedBy<T>(s: seq<T>, before: (T, T) -> bool) {
    forall i, j :: 0 <= i < j < |s| ==> !before(s[j], s[i])
  }

  /** `before` is a strict order on the elements of `s`: irreflexive and transitive. */
  ghost predicate StrictOn<T(!new)>(s: seq<T>, before: (T, T) -> bool) {
    (forall a :: a in s ==> !before(a, a))
    && (forall a, b, c :: a in s && b in s && c in s && before(a, b) && before(b, c) ==> before(a, c))
  }

  /** Insert `x` into `s` in front of the first element it must precede. */
  function Insert<T>(s: seq<T>, x: T, before: (T, T) -> bool): (r: seq<T>)
    ensures multiset(r) == multiset(s) + multiset{x}
    ensures |r| == |s| + 1
  {
    if s == [] then [x]
    else if before(x, s[0]) then [x] + s
    else
      assert s == [s[0]] + s[1..];
      [s[0]] + Insert(s[1..], x, before)
  }

  /** `Array.prototype.sort` with a comparator that never answers 0, as a
      stable insertion sort: each element goes in front of the first one it
      must precede, otherwise behind everything placed so far. */
  function SortBy<T>(s: seq<T>, before: (T, T) -> bool): (r: seq<T>)
    ensures multiset(r) == multiset(s)
    ensures |r| == |s|
  {
    if s == [] then []
    else
      assert s == s[..|s| - 1] + [s[|s| - 1]];
      Insert(SortBy(s[..|s| - 1], before), s[|s| - 1], before)
  }

  /** Inserting into a sorted sequence keeps it sorted when `before` is a
      strict order on the elements involved. */
  lemma {:induction false} InsertSorted<T(!new)>(s: seq<T>, x: T, before: (T, T) -> bool)
    requires SortedBy(s, before)
    requires StrictOn(s + [x], before)
    ensures SortedBy(Insert(s, x, before), before)
  {
    if s == [] {
    } else if before(x, s[0]) {
      InsertInFront(s, x, before);
    } else {
      var rest := s[1..];
      assert SortedBy(rest, before);
      assert StrictOn(rest + [x], before) by {
        forall a | a in rest + [x] ensures a in s + [x] {
          if a in rest { var j := RestIndex(rest, a); assert s[j + 1] == a; }
        }
      }
      InsertSorted(rest, x, before);
      InsertBehindHead(s, x, before);
    }
  }

  lemma InsertInFront<T(!new)>(s: seq<T>, x: T, before: (T, T) -> bool)
    requires s != [] && before(x, s[0])
    requires SortedBy(s, before) && StrictOn(s + [x], before)
    ensures SortedBy([x] + s, before)
  {
    var r := [x] + s;
    assert s[0] in s + [x] && x in s + [x];
    forall i, j | 0 <= i < j < |r| ensures !before(r[j], r[i]) {
      if i == 0 {
        assert r[j] == s[j - 1] && r[j] in s + [x];
        if j - 1 > 0 {
          assert !before(s[j - 1], s[0]);
        }
      }
    }
  }

  lemma InsertBehindHead<T(!new)>(s: seq<T>, x: T, before: (T, T) -> bool)
    requires s != [] && !before(x, s[0])
    requires SortedBy(s, before) && SortedBy(Insert(s[1..], x, before), before)
    ensures SortedBy([s[0]] + Insert(s[1..], x, before), before)
  {
    var r := Insert(s[1..], x, before);
    NoneBeforeHead(s, x, before);
    var t := [s[0]] + r;
    forall i, j | 0 <= i < j < |t| ensures !before(t[j], t[i]) {
      if i == 0 {
        assert t[j] == r[j - 1];
      } else {
        assert t[i] == r[i - 1] && t[j] == r[j - 1];
      }
    }
  }

  lemma NoneBeforeHead<T(!new)>(s: seq<T>, x: T, before: (T, T) -> bool)
    requires s != [] && !before(x, s[0]) && SortedBy(s, before)
    ensures forall k :: 0 <= k < |Insert(s[1..], x, before)| ==> !before(Insert(s[1..], x, before)[k], s[0])
  {
    var rest := s[1..];
    var r := Insert(rest, x, before);
    forall k | 0 <= k < |r| ensures !before(r[k], s[0]) {
      assert r[k] in multiset(r);
      assert r[k] in multiset(rest) + multiset{x};
      if r[k] in rest {
        var j := RestIndex(rest, r[k]);
        assert s[j + 1] == r[k];
      }
    }
  }

  ghost function RestIndex<T>(s: seq<T>, x: T): (j: nat)
    requires x in s
    ensures j < |s| && s[j] == x
  {
    if s[0] == x then 0 else 1 + RestIndex(s[1..], x)
  }

  /** When the comparator is a strict order on the elements, the result is sorted. */
  lemma {:induction false} SortBySorted<T(!new)>(s: seq<T>, before: (T, T) -> bool)
    requires StrictOn(s, before)
    ensures SortedBy(SortBy(s, before), before)
  {
    if s != [] {
      var init := s[..|s| - 1];
      assert s == init + [s[|s| - 1]];
      assert StrictOn(init, before);
      SortBySorted(init, before);
      var sorted := SortBy(init, before);
      assert StrictOn(sorted + [s[|s| - 1]], before) by {
        forall a | a in sorted + [s[|s| - 1]] ensures a in s {
          if a in sorted {
            assert a in multiset(sorted);
            assert a in multiset(init);
          }
        }
      }
      InsertSorted(sorted, s[|s| - 1], before);
    }
  }

  /** When no element must precede another, sorting leaves the order as it was. */
  lemma {:induction false} SortByNoneBefore<T(!new)>(s: seq<T>, before: (T, T) -> bool)
    requires forall a, b :: a in s && b in s ==> !before(a, b)
    ensures SortBy(s, before) == s
  {
    if s != [] {
      var init := s[..|s| - 1];
      assert s == init + [s[|s| - 1]];
      SortByNoneBefore(init, before);
      InsertLast(init, s[|s| - 1], before);
    }
  }

  lemma {:induction false} InsertLast<T(!new)>(s: seq<T>, x: T, before: (T, T) -> bool)
    requires forall y :: y in s ==> !before(x, y)
    ensures Insert(s, x, before) == s + [x]
  {
    if s != [] {
      InsertLast(s[1..], x, before);
      assert s == [s[0]] + s[1..];
    }
  }
}
