/** The history endpoint of the HTTP service (server.py): the patient
    selection and the window pipeline that keeps the readings of the last
    `hours` hours, sorts them by timestamp and thins them with a stride
    chosen for a target of `TargetPoints` points, which is not a cap (up to
    1999 points come back). Authentication, the upstream calls and the JSON
    projection of each point are outside this module. */
module Server {
  import opened Glucose

  /** The `target` the endpoint passes to the stride computation. */
  const TargetPoints: int := 1000
  /** The query bounds on `hours`. */
  const MinHours: int := 1
  const MaxHours: int := 168
  const SecondsPerHour: int := 3600
  /** The value of the `hours` query parameter when the request leaves it out. */
  const DefaultHours: int := 24

  datatype HttpError = HttpError(status: int, detail: string)

  /** The endpoint's body: the points, the echoed `hours` and the point count. */
  datatype HistoryResponse<V> = HistoryResponse(points: seq<Reading<V>>, hours: int, count: int)

  /** The first patient shared with the account, or a 404 when none is. */
  function GetPatient<P>(patients: seq<P>): (r: Result<P, HttpError>)
    ensures r.Ok? <==> |patients| > 0
    ensures r.Ok? ==> r.value == patients[0]
    ensures r.Err? ==> r.error.status == 404
  {
    if |patients| == 0 then Err(HttpError(404, "No shared patients on this account."))
    else Ok(patients[0])
  }

  function Max(a: int, b: int): int { if a < b then b else a }

  /** Every how many sorted points one is kept. `n // target` in the source
      floors; with a positive target that is Dafny's `/`. */
  function DownsampleStride(n: int, target: int): (stride: int)
    requires target > 0
    ensures stride >= 1
    ensures n <= target ==> stride == 1
    ensures n > target ==> stride * target <= n < (stride + 1) * target
  {
    if n <= target then 1 else Max(1, n / target)
  }

  function Cutoff(now: int, hours: int): int
  {
    now - hours * SecondsPerHour
  }

  /** The readings at or after `cutoff`, in their input order. */
  function KeepSince<V>(series: seq<Reading<V>>, cutoff: int): (kept: seq<Reading<V>>)
    ensures |kept| <= |series|
    ensures forall i :: 0 <= i < |kept| ==> kept[i].timestamp >= cutoff
  {
    if series == [] then []
    else if series[0].timestamp >= cutoff then [series[0]] + KeepSince(series[1..], cutoff)
    else KeepSince(series[1..], cutoff)
  }

  /** Every reading meeting the cutoff is kept as often as it occurs, and no other. */
  lemma {:induction false} KeepSinceExact<V>(series: seq<Reading<V>>, cutoff: int, x: Reading<V>)
    ensures multiset(KeepSince(series, cutoff))[x] ==
            if x.timestamp >= cutoff then multiset(series)[x] else 0
  {
    if series != [] {
      KeepSinceExact(series[1..], cutoff, x);
      assert series == [series[0]] + series[1..];
    }
  }

  /** The filter preserves the input's relative order. */
  lemma {:induction false} KeepSinceSubsequence<V>(series: seq<Reading<V>>, cutoff: int)
    ensures IsSubsequence(KeepSince(series, cutoff), series)
  {
    if series != [] {
      KeepSinceSubsequence(series[1..], cutoff);
      var kept := KeepSince(series, cutoff);
      if series[0].timestamp >= cutoff {
        assert kept[0] == series[0] && kept[1..] == KeepSince(series[1..], cutoff);
      }
    }
  }

  /** Inserts `x` into `s` after every element whose timestamp is not larger
      than x's: the step of a stable insertion sort, scanning from the back. */
  function InsertByTime<V>(s: seq<Reading<V>>, x: Reading<V>): (r: seq<Reading<V>>)
    ensures |r| == |s| + 1
  {
    if s == [] || s[|s| - 1].timestamp <= x.timestamp then s + [x]
    else
      assert s == s[..|s| - 1] + [s[|s| - 1]];
      InsertByTime(s[..|s| - 1], x) + [s[|s| - 1]]
  }

  /** The order `list.sort(key=timestamp)` produces: a stable sort. */
  function SortByTime<V>(s: seq<Reading<V>>): (sorted: seq<Reading<V>>)
    ensures |sorted| == |s|
  {
    if s == [] then []
    else
      assert s == s[..|s| - 1] + [s[|s| - 1]];
      InsertByTime(SortByTime(s[..|s| - 1]), s[|s| - 1])
  }

  lemma {:induction false} InsertByTimePermutation<V>(s: seq<Reading<V>>, x: Reading<V>)
    ensures multiset(InsertByTime(s, x)) == multiset(s) + multiset{x}
  {
    if !(s == [] || s[|s| - 1].timestamp <= x.timestamp) {
      var init, last := s[..|s| - 1], s[|s| - 1];
      InsertByTimePermutation(init, x);
      assert s == init + [last];
    }
  }

  /** The sorted list holds exactly the input readings. */
  lemma {:induction false} SortByTimePermutation<V>(s: seq<Reading<V>>)
    ensures multiset(SortByTime(s)) == multiset(s)
  {
    if s != [] {
      var init, last := s[..|s| - 1], s[|s| - 1];
      SortByTimePermutation(init);
      InsertByTimePermutation(SortByTime(init), last);
      assert s == init + [last];
    }
  }

  /** Sorting one more element is inserting it into the sorted prefix. */
  lemma SortByTimeSnoc<V>(s: seq<Reading<V>>, i: int)
    requires 0 <= i < |s|
    ensures SortByTime(s[..i + 1]) == InsertByTime(SortByTime(s[..i]), s[i])
  {
    assert s[..i + 1][..i] == s[..i];
  }

  ghost predicate AllAtMost<V>(s: seq<Reading<V>>, bound: int)
  {
    forall i :: 0 <= i < |s| ==> s[i].timestamp <= bound
  }

  lemma {:induction false} InsertByTimeBounded<V>(s: seq<Reading<V>>, x: Reading<V>, bound: int)
    requires AllAtMost(s, bound) && x.timestamp <= bound
    ensures AllAtMost(InsertByTime(s, x), bound)
  {
    if !(s == [] || s[|s| - 1].timestamp <= x.timestamp) {
      InsertByTimeBounded(s[..|s| - 1], x, bound);
    }
  }

  lemma {:induction false} InsertByTimeSorted<V>(s: seq<Reading<V>>, x: Reading<V>)
    requires SortedByTime(s)
    ensures SortedByTime(InsertByTime(s, x))
  {
    if !(s == [] || s[|s| - 1].timestamp <= x.timestamp) {
      var init, last := s[..|s| - 1], s[|s| - 1];
      InsertByTimeSorted(init, x);
      InsertByTimeBounded(init, x, last.timestamp);
    }
  }

  /** The sorted list is in non-decreasing timestamp order. */
  lemma {:induction false} SortByTimeSorted<V>(s: seq<Reading<V>>)
    ensures SortedByTime(SortByTime(s))
  {
    if s != [] {
      SortByTimeSorted(s[..|s| - 1]);
      InsertByTimeSorted(SortByTime(s[..|s| - 1]), s[|s| - 1]);
    }
  }

  /** The readings of `s` stamped `t`, in their order in `s`. */
  ghost function WithTimestamp<V>(s: seq<Reading<V>>, t: int): seq<Reading<V>>
    decreases |s|
  {
    if s == [] then []
    else WithTimestamp(s[..|s| - 1], t) + (if s[|s| - 1].timestamp == t then [s[|s| - 1]] else [])
  }

  lemma {:induction false} WithTimestampAppend<V>(a: seq<Reading<V>>, b: seq<Reading<V>>, t: int)
    ensures WithTimestamp(a + b, t) == WithTimestamp(a, t) + WithTimestamp(b, t)
    decreases |b|
  {
    if b == [] {
      assert a + b == a;
    } else {
      assert (a + b)[..|a + b| - 1] == a + b[..|b| - 1];
      WithTimestampAppend(a, b[..|b| - 1], t);
    }
  }

  lemma {:induction false} InsertByTimeStable<V>(s: seq<Reading<V>>, x: Reading<V>, t: int)
    ensures WithTimestamp(InsertByTime(s, x), t) == WithTimestamp(s, t) + WithTimestamp([x], t)
    decreases |s|
  {
    if s == [] || s[|s| - 1].timestamp <= x.timestamp {
      WithTimestampAppend(s, [x], t);
    } else {
      var init, last := s[..|s| - 1], s[|s| - 1];
      InsertByTimeStable(init, x, t);
      WithTimestampAppend(InsertByTime(init, x), [last], t);
      WithTimestampAppend(init, [last], t);
      assert init + [last] == s;
      assert [x][..0] == [] && [last][..0] == [];
    }
  }

  /** Stability: for every timestamp, the readings carrying it appear in the
      sorted list in the same order as in the input. */
  lemma {:induction false} SortByTimeStable<V>(s: seq<Reading<V>>, t: int)
    ensures WithTimestamp(SortByTime(s), t) == WithTimestamp(s, t)
  {
    if s != [] {
      var init, last := s[..|s| - 1], s[|s| - 1];
      SortByTimeStable(init, t);
      InsertByTimeStable(SortByTime(init), last, t);
      assert [last][..0] == [];
    }
  }

  /** The insertion lands right after the last reading that is not later
      than `x`: every reading after position `p` is later than `x`. */
  lemma {:induction false} InsertByTimeAt<V>(d: seq<Reading<V>>, p: int, x: Reading<V>)
    requires 0 <= p <= |d|
    requires p == 0 || d[p - 1].timestamp <= x.timestamp
    requires forall k :: p <= k < |d| ==> d[k].timestamp > x.timestamp
    ensures InsertByTime(d, x) == d[..p] + [x] + d[p..]
    decreases |d|
  {
    if p < |d| {
      var init, last := d[..|d| - 1], d[|d| - 1];
      InsertByTimeAt(init, p, x);
      assert init[..p] == d[..p];
      assert d[p..] == init[p..] + [last];
    } else {
      assert d[..p] == d && d[p..] == [];
    }
  }

  /** One pass of the insertion sort: moves `a[i]` left past every later
      reading, so that the prefix `a[..i + 1]` becomes the stable insertion
      of `a[i]` into `a[..i]`. */
  method InsertInPlace<V>(a: array<Reading<V>>, i: int)
    requires 0 <= i < a.Length
    modifies a
    ensures a[..] == InsertByTime(old(a[..i]), old(a[i])) + old(a[i + 1..])
  {
    var x := a[i];
    ghost var done := a[..i];
    ghost var rest := a[i + 1..];
    var j := i;
    while j > 0 && a[j - 1].timestamp > x.timestamp
      invariant 0 <= j <= i
      invariant forall k :: 0 <= k < j ==> a[k] == done[k]
      invariant forall k :: j < k <= i ==> a[k] == done[k - 1]
      invariant forall k :: i < k < a.Length ==> a[k] == rest[k - i - 1]
      invariant forall k :: j <= k < i ==> done[k].timestamp > x.timestamp
    {
      a[j] := a[j - 1];
      j := j - 1;
    }
    a[j] := x;
    InsertByTimeAt(done, j, x);
    ghost var result := done[..j] + [x] + done[j..] + rest;
    assert a[..] == result by {
      assert |result| == a.Length;
      forall k | 0 <= k < a.Length ensures a[k] == result[k] {
        if k < j {
          assert result[k] == done[k];
        } else if k == j {
          assert result[k] == x;
        } else if k <= i {
          assert result[k] == done[j..][k - j - 1] == done[k - 1];
        } else {
          assert result[k] == rest[k - i - 1];
        }
      }
    }
  }

  /** The state of the sort before pass `i`: the sorted prefix, then the
      untouched rest. */
  lemma SortedPrefixSplit<V>(cur: seq<Reading<V>>, orig: seq<Reading<V>>, i: int)
    requires 0 <= i < |orig|
    requires cur == SortByTime(orig[..i]) + orig[i..]
    ensures cur[..i] == SortByTime(orig[..i]) && cur[i] == orig[i] && cur[i + 1..] == orig[i + 1..]
  {
    assert cur[..i] == SortByTime(orig[..i]);
    assert cur[i..] == orig[i..];
  }

  /** The stable in-place sort of the kept readings by timestamp, as an
      insertion sort on the array. */
  method SortInPlace<V>(a: array<Reading<V>>)
    modifies a
    ensures a[..] == SortByTime(old(a[..]))
  {
    ghost var orig := a[..];
    var i := 0;
    assert orig[..0] == [] && orig[0..] == orig;
    while i < a.Length
      invariant 0 <= i <= a.Length
      invariant a[..] == SortByTime(orig[..i]) + orig[i..]
    {
      SortedPrefixSplit(a[..], orig, i);
      InsertInPlace(a, i);
      SortByTimeSnoc(orig, i);
      i := i + 1;
    }
    assert orig[..a.Length] == orig && orig[a.Length..] == [];
  }

  /** Python's extended slice with a step: the elements at indices 0,
      stride, 2*stride, ... */
  function EveryNth<T>(s: seq<T>, stride: int): (r: seq<T>)
    requires stride >= 1
    ensures |s| == 0 <==> |r| == 0
    ensures |r| <= |s|
    ensures |s| > 0 ==> r[0] == s[0]
    decreases |s|
  {
    if |s| == 0 then []
    else if |s| <= stride then [s[0]]
    else [s[0]] + EveryNth(s[stride..], stride)
  }

  lemma MulStep(k: int, stride: int)
    ensures k * stride + stride == (k + 1) * stride
  {
  }

  /** The slice has ceil(|s| / stride) elements. */
  lemma {:induction false} EveryNthLength<T>(s: seq<T>, stride: int)
    requires stride >= 1
    ensures var n := |EveryNth(s, stride)|;
      n > 0 ==> (n - 1) * stride < |s| <= n * stride
    decreases |s|
  {
    if |s| > stride {
      var rest := EveryNth(s[stride..], stride);
      EveryNthLength(s[stride..], stride);
      MulStep(|rest| - 1, stride);
      MulStep(|rest|, stride);
    }
  }

  /** Element `i` of the slice is `s[i * stride]`. */
  lemma {:induction false} EveryNthAt<T>(s: seq<T>, stride: int)
    requires stride >= 1
    ensures var r := EveryNth(s, stride);
      forall i :: 0 <= i < |r| ==> i * stride < |s| && r[i] == s[i * stride]
    decreases |s|
  {
    var r := EveryNth(s, stride);
    if |s| > stride {
      var rest := EveryNth(s[stride..], stride);
      EveryNthAt(s[stride..], stride);
      assert |r| == |rest| + 1;
      forall i | 1 <= i < |r|
        ensures i * stride < |s| && r[i] == s[i * stride]
      {
        var k := (i - 1) * stride;
        MulStep(i - 1, stride);
        assert k < |s| - stride && rest[i - 1] == s[stride..][k];
        assert r[i] == rest[i - 1];
      }
    }
  }

  lemma {:induction false} EveryNthSubsequence<T>(s: seq<T>, stride: int)
    requires stride >= 1
    ensures IsSubsequence(EveryNth(s, stride), s)
    decreases |s|
  {
    if |s| > stride {
      EveryNthSubsequence(s[stride..], stride);
      assert s[1..][stride - 1..] == s[stride..];
      SubsequenceOfSuffix(EveryNth(s[stride..], stride), s[1..], stride - 1);
    } else if |s| > 0 {
      assert EveryNth(s, stride)[1..] == [];
    }
  }

  /** `pts[::stride] if stride > 1 else pts`, with the stride computed for a
      target of `TargetPoints`: a stride of 1 keeps the list as it is. */
  function Thin<T>(pts: seq<T>): (r: seq<T>)
    ensures |r| <= |pts|
    ensures |pts| > 0 ==> |r| > 0 && r[0] == pts[0]
  {
    var stride := DownsampleStride(|pts|, TargetPoints);
    if stride > 1 then EveryNth(pts, stride) else pts
  }

  /** The points the history endpoint returns for a series fetched at `now`:
      filter, stable sort, thin. */
  function Window<V>(series: seq<Reading<V>>, now: int, hours: int): (w: seq<Reading<V>>)
    ensures |w| <= |series|
  {
    Thin(SortByTime(KeepSince(series, Cutoff(now, hours))))
  }

  lemma MulLe(a: int, b: int, q: int)
    requires a <= b && q >= 0
    ensures a * q <= b * q
  {
  }

  lemma MulLt(a: int, b: int, q: int)
    requires a < b && q > 0
    ensures a * q < b * q
  {
  }

  /** The ceiling-division bracket pins down the quotient. */
  lemma CeilDiv(m: int, q: int, n: int)
    requires q > 0 && m >= 0 && n >= 0
    requires n == 0 <==> m == 0
    requires n > 0 ==> (n - 1) * q < m <= n * q
    ensures n == (m + q - 1) / q
  {
    var d := (m + q - 1) / q;
    assert d * q <= m + q - 1 < (d + 1) * q;
    if n > 0 {
      MulStep(n - 1, q);
      assert n * q <= m + q - 1 < (n + 1) * q;
      if d < n { MulLe(d + 1, n, q); }
      if d > n { MulLe(n + 1, d, q); }
    } else {
      if d > 0 { MulLe(1, d, q); }
    }
  }

  /** Thinned point `i` is the point at `i * stride`. */
  lemma ThinAt<T>(pts: seq<T>, i: int)
    requires 0 <= i < |Thin(pts)|
    ensures var stride := DownsampleStride(|pts|, TargetPoints);
      i * stride < |pts| && Thin(pts)[i] == pts[i * stride]
  {
    var stride := DownsampleStride(|pts|, TargetPoints);
    if stride > 1 {
      EveryNthAt(pts, stride);
    } else {
      assert i * stride == i;
    }
  }

  /** Below twice the target the stride is 1 and nothing is dropped. */
  lemma ThinUnchanged<T>(pts: seq<T>)
    requires |pts| < 2 * TargetPoints
    ensures Thin(pts) == pts
  {
    if |pts| > TargetPoints {
      assert DownsampleStride(|pts|, TargetPoints) * TargetPoints < 2 * TargetPoints;
    }
  }

  /** Thinning m points keeps ceil(m / stride) of them: at most m, at most
      1999, and for m above the target at least the target. */
  lemma ThinCount<T>(pts: seq<T>)
    ensures var m := |pts|;
      var stride := DownsampleStride(m, TargetPoints);
      var n := |Thin(pts)|;
      n == (m + stride - 1) / stride && n <= m && n < 2 * TargetPoints &&
      (m > TargetPoints ==> n >= TargetPoints)
  {
    var m := |pts|;
    var stride := DownsampleStride(m, TargetPoints);
    var n := |Thin(pts)|;
    EveryNthLength(pts, stride);
    if stride == 1 {
      assert n == m;
      ThinUnchanged(pts);
    } else {
      assert n > 0 && (n - 1) * stride < m <= n * stride;
      MulLe(1, stride, n - 1);
      assert m < 1000 * stride + 1000;
      if n >= 2 * TargetPoints { MulLe(1999, n - 1, stride); }
      if n < TargetPoints { MulLe(n, 999, stride); }
    }
    CeilDiv(m, stride, n);
  }

  lemma ThinSubsequence<T>(pts: seq<T>)
    ensures IsSubsequence(Thin(pts), pts)
  {
    var stride := DownsampleStride(|pts|, TargetPoints);
    if stride > 1 {
      EveryNthSubsequence(pts, stride);
    } else {
      SubsequenceReflexive(pts);
    }
  }

  lemma ThinSorted<V>(pts: seq<Reading<V>>)
    requires SortedByTime(pts)
    ensures SortedByTime(Thin(pts))
  {
    var w := Thin(pts);
    var stride := DownsampleStride(|pts|, TargetPoints);
    forall i, j | 0 <= i < j < |w| ensures w[i].timestamp <= w[j].timestamp {
      ThinAt(pts, i);
      ThinAt(pts, j);
      MulLt(i, j, stride);
    }
  }

  /** The returned points are in non-decreasing timestamp order. */
  lemma WindowSorted<V>(series: seq<Reading<V>>, now: int, hours: int)
    ensures SortedByTime(Window(series, now, hours))
  {
    SortByTimeSorted(KeepSince(series, Cutoff(now, hours)));
    ThinSorted(SortByTime(KeepSince(series, Cutoff(now, hours))));
  }

  /** Below twice the target nothing is dropped: in particular up to
      `TargetPoints` filtered readings come back exactly, filtered and sorted,
      and 1999 of them come back as 1999 points. */
  lemma WindowUnthinned<V>(series: seq<Reading<V>>, now: int, hours: int)
    requires |KeepSince(series, Cutoff(now, hours))| < 2 * TargetPoints
    ensures Window(series, now, hours) == SortByTime(KeepSince(series, Cutoff(now, hours)))
  {
    ThinUnchanged(SortByTime(KeepSince(series, Cutoff(now, hours))));
  }

  /** Above the target, point `i` is the sorted reading at `i * stride` with
      `stride = m // TargetPoints`; the first point is the earliest kept reading. */
  lemma WindowThinned<V>(series: seq<Reading<V>>, now: int, hours: int)
    requires |KeepSince(series, Cutoff(now, hours))| > TargetPoints
    ensures var kept := KeepSince(series, Cutoff(now, hours));
      var sorted := SortByTime(kept);
      var stride := |kept| / TargetPoints;
      var w := Window(series, now, hours);
      |w| > 0 && w[0] == sorted[0] &&
      (forall i :: 0 <= i < |w| ==> i * stride < |sorted| && w[i] == sorted[i * stride]) &&
      (forall p :: p in kept ==> w[0].timestamp <= p.timestamp)
  {
    var kept := KeepSince(series, Cutoff(now, hours));
    var sorted := SortByTime(kept);
    var stride := |kept| / TargetPoints;
    var w := Window(series, now, hours);
    assert stride == DownsampleStride(|sorted|, TargetPoints);
    ThinCount(sorted);
    forall i | 0 <= i < |w| ensures i * stride < |sorted| && w[i] == sorted[i * stride] {
      ThinAt(sorted, i);
    }
    ThinAt(sorted, 0);
    forall p | p in kept ensures w[0].timestamp <= p.timestamp {
      SortedStartsWithEarliest(kept, p);
    }
  }

  /** The first sorted reading is no later than any reading of the input. */
  lemma SortedStartsWithEarliest<V>(s: seq<Reading<V>>, p: Reading<V>)
    requires p in s
    ensures |SortByTime(s)| > 0 && SortByTime(s)[0].timestamp <= p.timestamp
  {
    var sorted := SortByTime(s);
    SortByTimeSorted(s);
    SortByTimePermutation(s);
    assert p in multiset(sorted);
    var k :| 0 <= k < |sorted| && sorted[k] == p;
  }

  /** The number of points is ceil(m / stride) for the m filtered readings:
      never more than m, never more than 1999, and for m above the target
      never fewer than the target. */
  lemma WindowCount<V>(series: seq<Reading<V>>, now: int, hours: int)
    ensures var m := |KeepSince(series, Cutoff(now, hours))|;
      var stride := DownsampleStride(m, TargetPoints);
      var n := |Window(series, now, hours)|;
      n == (m + stride - 1) / stride && n <= m && n < 2 * TargetPoints &&
      (m > TargetPoints ==> n >= TargetPoints)
  {
    ThinCount(SortByTime(KeepSince(series, Cutoff(now, hours))));
  }

  /** The returned points are taken from the sorted kept readings, in order. */
  lemma WindowSubsequence<V>(series: seq<Reading<V>>, now: int, hours: int)
    ensures IsSubsequence(Window(series, now, hours), SortByTime(KeepSince(series, Cutoff(now, hours))))
  {
    ThinSubsequence(SortByTime(KeepSince(series, Cutoff(now, hours))));
  }

  /** A sorted kept reading is an input reading at or after the cutoff. */
  lemma SortedKeptWithinCutoff<V>(series: seq<Reading<V>>, cutoff: int, k: int)
    requires 0 <= k < |SortByTime(KeepSince(series, cutoff))|
    ensures var p := SortByTime(KeepSince(series, cutoff))[k];
      p in series && p.timestamp >= cutoff
  {
    var kept := KeepSince(series, cutoff);
    var p := SortByTime(kept)[k];
    SortByTimePermutation(kept);
    assert p in multiset(kept);
    var j :| 0 <= j < |kept| && kept[j] == p;
    KeepSinceExact(series, cutoff, p);
    assert p in multiset(series);
  }

  /** Every returned point is an input reading at or after the cutoff. */
  lemma WindowWithinCutoff<V>(series: seq<Reading<V>>, now: int, hours: int)
    ensures var w := Window(series, now, hours);
      forall i :: 0 <= i < |w| ==> w[i] in series && w[i].timestamp >= Cutoff(now, hours)
  {
    var sorted := SortByTime(KeepSince(series, Cutoff(now, hours)));
    var stride := DownsampleStride(|sorted|, TargetPoints);
    var w := Window(series, now, hours);
    forall i | 0 <= i < |w| ensures w[i] in series && w[i].timestamp >= Cutoff(now, hours) {
      ThinAt(sorted, i);
      SortedKeptWithinCutoff(series, Cutoff(now, hours), i * stride);
    }
  }

  /** The body of `history` after the `graph` call: filter, sort in place,
      thin, and build the response. */
  method History<V>(series: seq<Reading<V>>, now: int, hours: int) returns (resp: HistoryResponse<V>)
    requires MinHours <= hours <= MaxHours
    ensures resp.points == Window(series, now, hours)
    ensures resp.hours == hours
    ensures resp.count == |resp.points|
  {
    var cutoff := now - hours * SecondsPerHour;
    var pts := KeepSince(series, cutoff);
    var a := new Reading<V>[|pts|](i requires 0 <= i < |pts| => pts[i]);
    assert a[..] == pts;
    SortInPlace(a);
    var stride := DownsampleStride(a.Length, TargetPoints);
    var points := if stride > 1 then EveryNth(a[..], stride) else a[..];
    assert points == Thin(a[..]);
    resp := HistoryResponse(points, hours, |points|);
  }

  /** The whole `history` endpoint once the client is logged in: the query's
      `hours` or its default, the first patient or 404, then the series that
      `graph` returns for that patient, through `History`. */
  method HistoryEndpoint<P, V>(patients: seq<P>, graph: P -> seq<Reading<V>>, now: int, query: Option<int>)
    returns (r: Result<HistoryResponse<V>, HttpError>)
    requires query.None? || MinHours <= query.value <= MaxHours
    ensures patients == [] <==> r.Err?
    ensures r.Err? ==> r.error.status == 404
    ensures r.Ok? ==>
      var hours := if query.None? then DefaultHours else query.value;
      r.value.points == Window(graph(patients[0]), now, hours) &&
      r.value.hours == hours && r.value.count == |r.value.points|
  {
    var hours := if query.None? then DefaultHours else query.value;
    var patient := GetPatient(patients);
    match patient
    case Err(e) =>
      r := Err(e);
    case Ok(p) =>
      var resp := History(graph(p), now, hours);
      r := Ok(resp);
  }
}
