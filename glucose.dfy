/** Values shared by the history endpoint and the polling watcher: a glucose
    reading with an integer timestamp and an opaque measured value, and the
    ordering notions both parts speak about. */
module Glucose {

  datatype Option<+T> = None | Some(value: T)

  datatype Result<+T, +E> = Ok(value: T) | Err(error: E)

  /** One measurement from the upstream client. Timestamps are seconds on a
      common clock; the value (mmol/L, trend, ...) is never inspected by the core. */
  datatype Reading<V> = Reading(timestamp: int, value: V)

  /** Non-decreasing by timestamp. */
  ghost predicate SortedByTime<V>(s: seq<Reading<V>>)
  {
    forall i, j :: 0 <= i < j < |s| ==> s[i].timestamp <= s[j].timestamp
  }

  ghost predicate StrictlyIncreasing(s: seq<int>)
  {
    forall i, j :: 0 <= i < j < |s| ==> s[i] < s[j]
  }

  /** Appending something larger than the last element keeps strict increase. */
  lemma IncreasingSnoc(s: seq<int>, t: int)
    requires StrictlyIncreasing(s)
    requires s == [] || s[|s| - 1] < t
    ensures StrictlyIncreasing(s + [t])
  {
    var r := s + [t];
    forall i, j | 0 <= i < j < |r| ensures r[i] < r[j] {
      if j == |s| && i < |s| {
        assert r[i] == s[i] <= s[|s| - 1];
      }
    }
  }

  /** `a` can be obtained from `b` by deleting elements, keeping the order. */
  ghost predicate IsSubsequence<T>(a: seq<T>, b: seq<T>)
    decreases |b|
  {
    if a == [] then true
    else if b == [] then false
    else (a[0] == b[0] && IsSubsequence(a[1..], b[1..])) || IsSubsequence(a, b[1..])
  }

  lemma {:induction false} SubsequenceReflexive<T>(s: seq<T>)
    ensures IsSubsequence(s, s)
    decreases |s|
  {
    if s != [] {
      SubsequenceReflexive(s[1..]);
    }
  }

  /** Appending to the longer sequence keeps a subsequence. */
  lemma {:induction false} SubsequenceExtend<T>(a: seq<T>, b: seq<T>, c: seq<T>)
    requires IsSubsequence(a, b)
    ensures IsSubsequence(a, b + c)
    decreases |b|
  {
    if a != [] {
      assert (b + c)[1..] == b[1..] + c;
      if a[0] == b[0] && IsSubsequence(a[1..], b[1..]) {
        SubsequenceExtend(a[1..], b[1..], c);
      } else {
        SubsequenceExtend(a, b[1..], c);
      }
    }
  }

  /** Appending the same tail to both sides keeps a subsequence. */
  lemma {:induction false} SubsequenceAppend<T>(a: seq<T>, b: seq<T>, c: seq<T>)
    requires IsSubsequence(a, b)
    ensures IsSubsequence(a + c, b + c)
    decreases |b|
  {
    if a == [] {
      SubsequenceReflexive(c);
      assert (b + c)[|b|..] == c;
      SubsequenceOfSuffix(c, b + c, |b|);
      assert a + c == c;
    } else {
      assert (a + c)[0] == a[0] && (a + c)[1..] == a[1..] + c;
      assert (b + c)[1..] == b[1..] + c;
      if a[0] == b[0] && IsSubsequence(a[1..], b[1..]) {
        SubsequenceAppend(a[1..], b[1..], c);
      } else {
        SubsequenceAppend(a, b[1..], c);
      }
    }
  }

  /** A subsequence of a suffix of `b` is a subsequence of `b`. */
  lemma {:induction false} SubsequenceOfSuffix<T>(a: seq<T>, b: seq<T>, j: nat)
    requires j <= |b|
    requires IsSubsequence(a, b[j..])
    ensures IsSubsequence(a, b)
    decreases j
  {
    if j > 0 {
      assert b[1..][j - 1..] == b[j..];
      SubsequenceOfSuffix(a, b[1..], j - 1);
    } else {
      assert b[j..] == b;
    }
  }
}
