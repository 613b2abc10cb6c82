/** Text helpers: the ", "-joined lists the catalogue renders, and the
    character-by-character order its name columns are sorted in. */
module Strings {
  import opened Optional

  /** What `', '.join(...)` and the author display put between two names. */
  const Separator: string := ", "

  /** A separator starts at position `k` of `s`. */
  predicate SeparatorAt(s: string, k: int) {
    0 <= k && k + 1 < |s| && s[k] == ',' && s[k + 1] == ' '
  }

  ghost predicate ContainsSeparator(s: string) {
    exists k :: SeparatorAt(s, k)
  }

  /** `', '.join(parts)`. */
  function Join(parts: seq<string>): string
    decreases |parts|
  {
    if |parts| == 0 then ""
    else if |parts| == 1 then parts[0]
    else parts[0] + Separator + Join(parts[1..])
  }

  /** A join begins with its first part. */
  lemma JoinStartsWithFirst(parts: seq<string>)
    ensures |parts| > 0 ==> parts[0] <= Join(parts)
  {
  }

  /** The position of the first separator in `s`, if any. */
  function FindSeparator(s: string): (r: Option<nat>)
    ensures r.None? <==> !ContainsSeparator(s)
    ensures r.Some? ==> SeparatorAt(s, r.value)
    ensures r.Some? ==> forall k :: 0 <= k < r.value ==> !SeparatorAt(s, k)
    decreases |s|
  {
    if |s| < 2 then None
    else if s[0] == ',' && s[1] == ' ' then
      assert SeparatorAt(s, 0);
      Some(0)
    else
      assert forall k :: 1 <= k ==> SeparatorAt(s, k) == SeparatorAt(s[1..], k - 1);
      match FindSeparator(s[1..])
      case None =>
        assert forall k :: !SeparatorAt(s, k) by {
          forall k ensures !SeparatorAt(s, k) {
            if 1 <= k { assert !SeparatorAt(s[1..], k - 1); }
          }
        }
        None
      case Some(i) =>
        assert SeparatorAt(s, i + 1);
        Some(i + 1)
  }

  /** Cuts `s` at every separator, reading left to right: the inverse of `Join`. */
  function Split(s: string): (parts: seq<string>)
    ensures |parts| > 0
    ensures Join(parts) == s
    ensures forall i :: 0 <= i < |parts| ==> !ContainsSeparator(parts[i])
    decreases |s|
  {
    match FindSeparator(s)
    case None => [s]
    case Some(i) =>
      var head := s[..i];
      assert forall k :: SeparatorAt(head, k) ==> SeparatorAt(s, k) && k < i;
      var rest := Split(s[i + 2..]);
      assert s == head + Separator + s[i + 2..];
      assert ([head] + rest)[1..] == rest;
      [head] + rest
  }

  /** A separator cannot straddle the end of a separator-free `p`, so the
      first separator of `p + ", " + rest` is the one just after `p`. */
  lemma FirstSeparatorFollows(p: string, rest: string)
    requires !ContainsSeparator(p)
    ensures FindSeparator(p + Separator + rest) == Some(|p|)
  {
    var s := p + Separator + rest;
    assert SeparatorAt(s, |p|);
    forall k | 0 <= k < |p|
      ensures !SeparatorAt(s, k)
    {
      if k + 1 < |p| {
        assert s[k] == p[k] && s[k + 1] == p[k + 1];
        assert !SeparatorAt(p, k);
      } else {
        assert s[k + 1] == ',';
      }
    }
  }

  /** Splitting a join gives back the parts, provided none of them contains
      the separator itself. */
  lemma {:induction false} SplitJoin(parts: seq<string>)
    requires |parts| > 0
    requires forall i :: 0 <= i < |parts| ==> !ContainsSeparator(parts[i])
    ensures Split(Join(parts)) == parts
    decreases |parts|
  {
    if |parts| == 1 {
      assert Join(parts) == parts[0];
    } else {
      var p := parts[0];
      var rest := Join(parts[1..]);
      var s := p + Separator + rest;
      assert Join(parts) == s;
      FirstSeparatorFollows(p, rest);
      assert s[..|p|] == p;
      assert s[|p| + 2..] == rest;
      SplitJoin(parts[1..]);
      assert parts == [p] + parts[1..];
    }
  }

  /** Code-point lexicographic order: `a` is a prefix of `b`, or `a` is
      smaller at the first position where they differ. */
  predicate StrLeq(a: string, b: string)
    decreases |a|
  {
    |a| == 0 || (|b| > 0 && (a[0] < b[0] || (a[0] == b[0] && StrLeq(a[1..], b[1..]))))
  }

  lemma {:induction false} StrLeqTotal(a: string, b: string)
    ensures StrLeq(a, b) || StrLeq(b, a)
    decreases |a|
  {
    if |a| > 0 && |b| > 0 && a[0] == b[0] {
      StrLeqTotal(a[1..], b[1..]);
    }
  }

  lemma {:induction false} StrLeqAntisymmetric(a: string, b: string)
    requires StrLeq(a, b) && StrLeq(b, a)
    ensures a == b
    decreases |a|
  {
    if |a| > 0 {
      StrLeqAntisymmetric(a[1..], b[1..]);
      assert a == [a[0]] + a[1..];
      assert b == [b[0]] + b[1..];
    }
  }

  lemma {:induction false} StrLeqTransitive(a: string, b: string, c: string)
    requires StrLeq(a, b) && StrLeq(b, c)
    ensures StrLeq(a, c)
    decreases |a|
  {
    if |a| > 0 && a[0] == b[0] && b[0] == c[0] {
      StrLeqTransitive(a[1..], b[1..], c[1..]);
    }
  }
}
