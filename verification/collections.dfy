/** Sequence queries the catalogue's listings are built from: filtering,
    counting and ordering by a key. */
module Collections {

  /** `leq` relates every two elements and is transitive: the kind of order an
      `ORDER BY` clause induces, where ties are allowed. */
  ghost predicate TotalPreorder<T(!new)>(leq: (T, T) -> bool) {
    && (forall a, b :: leq(a, b) || leq(b, a))
    && (forall a, b, c :: leq(a, b) && leq(b, c) ==> leq(a, c))
  }

  predicate SortedBy<T>(s: seq<T>, leq: (T, T) -> bool) {
    forall i, j :: 0 <= i < j < |s| ==> leq(s[i], s[j])
  }

  /** The elements of `s` that satisfy `p`, each as often as in `s`. */
  function Filter<T(!new)>(s: seq<T>, p: T -> bool): (r: seq<T>)
    ensures forall x :: multiset(r)[x] == if p(x) then multiset(s)[x] else 0
    ensures |r| <= |s|
    decreases |s|
  {
    if |s| == 0 then []
    else
      assert s == [s[0]] + s[1..];
      (if p(s[0]) then [s[0]] else []) + Filter(s[1..], p)
  }

  /** The positions of `s` whose element satisfies `p`. */
  ghost function MatchingIndices<T>(s: seq<T>, p: T -> bool): set<nat> {
    set i: nat | i < |s| && p(s[i])
  }

  /** How many elements of `s` satisfy `p` (a `filter(...).count()`). */
  function Count<T>(s: seq<T>, p: T -> bool): (n: nat)
    ensures n == |MatchingIndices(s, p)|
    ensures n <= |s|
    decreases |s|
  {
    if |s| == 0 then
      assert MatchingIndices(s, p) == {};
      0
    else
      var init := s[..|s| - 1];
      var last := |s| - 1;
      assert MatchingIndices(s, p)
          == MatchingIndices(init, p) + (if p(s[last]) then {last} else {});
      assert last !in MatchingIndices(init, p);
      Count(init, p) + (if p(s[last]) then 1 else 0)
  }

  /** Places `x` into the sorted sequence `s`, before the first element it
      does not follow. */
  function Insert<T(!new)>(x: T, s: seq<T>, leq: (T, T) -> bool): (r: seq<T>)
    requires TotalPreorder(leq)
    requires SortedBy(s, leq)
    ensures SortedBy(r, leq)
    ensures multiset(r) == multiset(s) + multiset{x}
    decreases |s|
  {
    if |s| == 0 then [x]
    else if leq(x, s[0]) then [x] + s
    else
      var rest := Insert(x, s[1..], leq);
      assert s == [s[0]] + s[1..];
      LowerBoundKept(s[0], x, s[1..], rest, leq);
      [s[0]] + rest
  }

  /** If `lo` precedes `x` and every element of `t`, it precedes every element
      of any reordering of `t` with `x` added. */
  lemma LowerBoundKept<T(!new)>(lo: T, x: T, t: seq<T>, rest: seq<T>, leq: (T, T) -> bool)
    requires leq(lo, x)
    requires forall j :: 0 <= j < |t| ==> leq(lo, t[j])
    requires multiset(rest) == multiset(t) + multiset{x}
    ensures forall j :: 0 <= j < |rest| ==> leq(lo, rest[j])
  {
    forall j | 0 <= j < |rest|
      ensures leq(lo, rest[j])
    {
      assert rest[j] in multiset(rest);
      if rest[j] != x {
        assert rest[j] in multiset(t);
        var k :| 0 <= k < |t| && t[k] == rest[j];
      }
    }
  }

  /** Insertion sort: a reordering of `s` that is sorted by `leq`. */
  function Sort<T(!new)>(s: seq<T>, leq: (T, T) -> bool): (r: seq<T>)
    requires TotalPreorder(leq)
    ensures SortedBy(r, leq)
    ensures multiset(r) == multiset(s)
    decreases |s|
  {
    if |s| == 0 then []
    else
      assert s == [s[0]] + s[1..];
      Insert(s[0], Sort(s[1..], leq), leq)
  }
}
