/** The in-memory gauge store: a timeline of samples per metric key, the
    collector step that appends a sample, the cleaner step that prunes old
    samples, and the hourly trimmed average over a time window.
    Instants are whole seconds; readings are reals. */
module Metrics {
  import opened Float64

  /** One gauge sample: instant `t` (seconds) and reading `v`. */
  datatype Value = Value(t: int, v: real)

  /** One entry of an hourly average: the start of the hour and the mean of
      its trimmed readings (NaN when trimming left no reading). */
  datatype HourAvg = HourAvg(t: int, v: F64)

  datatype Option<T> = None | Some(value: T)

  const HourSeconds: int := 3600

  /** Start of the hour that contains instant `t` (Go's Truncate(time.Hour)). */
  function Truncate(t: int): (h: int)
    ensures h % HourSeconds == 0 && h <= t < h + HourSeconds
  {
    t - t % HourSeconds
  }

  /** The hour start is the only whole hour within the hour before `t`. */
  lemma TruncateUnique(t: int, h: int)
    requires h % HourSeconds == 0 && h <= t < h + HourSeconds
    ensures h == Truncate(t)
  {
    var d := Truncate(t);
    assert (h - d) % HourSeconds == 0;
    assert -HourSeconds < h - d < HourSeconds;
  }

  // ---------------------------------------------------------------------
  // Series operations

  /** The series of `key`; an absent key reads as the empty (nil) series. */
  function SeriesOf(m: map<string, seq<Value>>, key: string): seq<Value>
  {
    if key in m then m[key] else []
  }

  /** The samples of `s` strictly after `cutoff`, in their original order. */
  function Kept(s: seq<Value>, cutoff: int): (r: seq<Value>)
    ensures |r| <= |s|
  {
    if s == [] then []
    else
      var init, last := s[..|s| - 1], s[|s| - 1];
      Kept(init, cutoff) + (if last.t > cutoff then [last] else [])
  }

  /** Pruning keeps a sample exactly when it is strictly after the cutoff. */
  lemma {:induction false} KeptMembers(s: seq<Value>, cutoff: int)
    ensures forall x :: x in Kept(s, cutoff) <==> x in s && x.t > cutoff
  {
    if s != [] {
      var init, last := s[..|s| - 1], s[|s| - 1];
      assert s == init + [last];
      KeptMembers(init, cutoff);
    }
  }

  /** Pruning distributes over concatenation: it keeps the relative order of
      the surviving samples and never moves one across another. */
  lemma {:induction false} KeptConcat(a: seq<Value>, b: seq<Value>, cutoff: int)
    ensures Kept(a + b, cutoff) == Kept(a, cutoff) + Kept(b, cutoff)
  {
    if b != [] {
      var init := b[..|b| - 1];
      assert (a + b)[..|a + b| - 1] == a + init;
      assert (a + b)[|a + b| - 1] == b[|b| - 1];
      KeptConcat(a, init, cutoff);
    } else {
      assert a + b == a;
    }
  }

  /** Pruning twice with the same cutoff prunes nothing more. */
  lemma {:induction false} KeptIdempotent(s: seq<Value>, cutoff: int)
    ensures Kept(Kept(s, cutoff), cutoff) == Kept(s, cutoff)
  {
    if s != [] {
      var init, last := s[..|s| - 1], s[|s| - 1];
      KeptIdempotent(init, cutoff);
      KeptConcat(Kept(init, cutoff), if last.t > cutoff then [last] else [], cutoff);
      if last.t > cutoff {
        assert Kept([last], cutoff) == Kept([], cutoff) + [last];
      } else {
        assert Kept([], cutoff) == [];
      }
    }
  }

  /** The samples of `s` strictly inside the open window (start, end), in
      their original order. */
  function Window(s: seq<Value>, start: int, end: int): (w: seq<Value>)
    ensures |w| <= |s|
  {
    if s == [] then []
    else
      var init, last := s[..|s| - 1], s[|s| - 1];
      Window(init, start, end) + (if start < last.t < end then [last] else [])
  }

  /** Both bounds of the window are exclusive: a sample is kept exactly
      when start < t < end. */
  lemma {:induction false} WindowMembers(s: seq<Value>, start: int, end: int)
    ensures forall x :: x in Window(s, start, end) <==> x in s && start < x.t < end
  {
    if s != [] {
      var init, last := s[..|s| - 1], s[|s| - 1];
      assert s == init + [last];
      WindowMembers(init, start, end);
    }
  }

  /** The hour starts present among the samples of `w`. */
  function Hours(w: seq<Value>): (hs: set<int>)
    ensures |hs| <= |w|
  {
    if w == [] then {}
    else
      var init, last := w[..|w| - 1], w[|w| - 1];
      Hours(init) + {Truncate(last.t)}
  }

  /** An hour is present exactly when some sample falls in it. */
  lemma {:induction false} HoursMembers(w: seq<Value>)
    ensures forall h :: h in Hours(w) <==> exists i :: 0 <= i < |w| && Truncate(w[i].t) == h
  {
    if w != [] {
      var init, last := w[..|w| - 1], w[|w| - 1];
      HoursMembers(init);
      forall h ensures h in Hours(w) <==> exists i :: 0 <= i < |w| && Truncate(w[i].t) == h {
        if h in Hours(init) {
          var i :| 0 <= i < |init| && Truncate(init[i].t) == h;
          assert w[i] == init[i];
        }
        if exists i :: 0 <= i < |w| && Truncate(w[i].t) == h {
          var i :| 0 <= i < |w| && Truncate(w[i].t) == h;
          if i < |init| { assert init[i] == w[i]; }
        }
      }
    }
  }

  /** The readings of the samples of `w` that fall in the hour starting at
      `h`, in the order of `w`. */
  function Bucket(w: seq<Value>, h: int): (b: seq<real>)
    ensures |b| <= |w|
    ensures b != [] <==> h in Hours(w)
    ensures h !in Hours(w) ==> b == []
  {
    if w == [] then []
    else
      var init, last := w[..|w| - 1], w[|w| - 1];
      Bucket(init, h) + (if Truncate(last.t) == h then [last.v] else [])
  }

  // ---------------------------------------------------------------------
  // Sums, means, sorting and the outlier trim

  /** Sum of the readings, accumulated front to back. */
  function Sum(s: seq<real>): real
  {
    if s == [] then 0.0 else Sum(s[..|s| - 1]) + s[|s| - 1]
  }

  /** Go's `sum / float64(len(v))`: NaN (0/0) for an empty slice. */
  function Mean(s: seq<real>): (m: F64)
    ensures m.NaN? <==> s == []
  {
    if s == [] then NaN else Num(Sum(s) / (|s| as real))
  }

  lemma {:induction false} SumConcat(a: seq<real>, b: seq<real>)
    ensures Sum(a + b) == Sum(a) + Sum(b)
  {
    if b != [] {
      assert (a + b)[..|a + b| - 1] == a + b[..|b| - 1];
      SumConcat(a, b[..|b| - 1]);
    } else {
      assert a + b == a;
    }
  }

  /** The sum of readings does not depend on their order. */
  lemma {:induction false} SumPermutation(a: seq<real>, b: seq<real>)
    requires multiset(a) == multiset(b)
    ensures Sum(a) == Sum(b)
    decreases |a|
  {
    if a != [] {
      var x := a[|a| - 1];
      assert x in multiset(b);
      var i :| 0 <= i < |b| && b[i] == x;
      var rest := b[..i] + b[i + 1..];
      assert b == b[..i] + [x] + b[i + 1..];
      assert a == a[..|a| - 1] + [x];
      assert multiset(b) == multiset(b[..i]) + multiset{x} + multiset(b[i + 1..]);
      assert multiset(rest) == multiset(b[..i]) + multiset(b[i + 1..]);
      calc {
        multiset(a[..|a| - 1]);
        multiset(a) - multiset{x};
        multiset(b) - multiset{x};
        multiset(rest);
      }
      SumPermutation(a[..|a| - 1], rest);
      SumConcat(b[..i] + [x], b[i + 1..]);
      SumConcat(b[..i], [x]);
      SumConcat(b[..i], b[i + 1..]);
      assert Sum([x]) == x by { assert [x][..0] == []; }
    } else {
      assert b == [];
    }
  }

  lemma {:induction false} SumBounds(s: seq<real>, lo: real, hi: real)
    requires forall i :: 0 <= i < |s| ==> lo <= s[i] <= hi
    ensures (|s| as real) * lo <= Sum(s) <= (|s| as real) * hi
  {
    if s != [] {
      SumBounds(s[..|s| - 1], lo, hi);
    }
  }

  /** A mean lies between any lower and upper bound of its readings. */
  lemma MeanBounds(s: seq<real>, lo: real, hi: real)
    requires s != []
    requires forall i :: 0 <= i < |s| ==> lo <= s[i] <= hi
    ensures lo <= Mean(s).r <= hi
  {
    SumBounds(s, lo, hi);
    QuotientBetween(Sum(s), |s| as real, lo, hi);
  }

  lemma QuotientBetween(x: real, n: real, lo: real, hi: real)
    requires n > 0.0 && n * lo <= x <= n * hi
    ensures lo <= x / n <= hi
  {
    var m := x / n;
    assert (m - lo) * n == x - n * lo;
    assert (hi - m) * n == n * hi - x;
  }

  ghost predicate Sorted(s: seq<real>)
  {
    forall i, j :: 0 <= i < j < |s| ==> s[i] <= s[j]
  }

  /** `x` inserted into sorted `s` at its place. */
  function Insert(x: real, s: seq<real>): (r: seq<real>)
    requires Sorted(s)
    ensures |r| == |s| + 1
    ensures Sorted(r) && multiset(r) == multiset(s) + multiset{x}
  {
    if s == [] || x <= s[0] then [x] + s
    else
      assert s == [s[0]] + s[1..];
      var rest := Insert(x, s[1..]);
      HeadBelow(x, s, rest);
      [s[0]] + rest
  }

  /** The head of sorted `s` is below every reading of `rest` when `rest`
      holds the tail of `s` and a larger `x`. */
  lemma HeadBelow(x: real, s: seq<real>, rest: seq<real>)
    requires Sorted(s) && s != [] && s[0] < x
    requires multiset(rest) == multiset(s[1..]) + multiset{x}
    ensures forall j :: 0 <= j < |rest| ==> s[0] <= rest[j]
  {
    forall j | 0 <= j < |rest| ensures s[0] <= rest[j] {
      assert rest[j] in multiset(rest);
      if rest[j] != x {
        assert rest[j] in s[1..];
      }
    }
  }

  /** The readings of `s` in ascending order (what sort.Float64s leaves). */
  function SortSeq(s: seq<real>): (r: seq<real>)
    ensures |r| == |s|
    ensures Sorted(r) && multiset(r) == multiset(s)
  {
    if s == [] then []
    else
      assert s == [s[0]] + s[1..];
      Insert(s[0], SortSeq(s[1..]))
  }

  /** Two sorted arrangements of the same readings are the same sequence. */
  lemma {:induction false} SortedPermutationUnique(a: seq<real>, b: seq<real>)
    requires Sorted(a) && Sorted(b) && multiset(a) == multiset(b)
    ensures a == b
    decreases |a|
  {
    assert |a| == |multiset(a)| == |multiset(b)| == |b|;
    if a != [] {
      HeadsAgree(a, b);
      SortedPermutationUnique(a[1..], b[1..]);
      assert a == [a[0]] + a[1..] && b == [b[0]] + b[1..];
    }
  }

  /** Two sorted arrangements of one multiset start alike and go on with
      sorted arrangements of one multiset. */
  lemma HeadsAgree(a: seq<real>, b: seq<real>)
    requires Sorted(a) && Sorted(b) && multiset(a) == multiset(b)
    requires a != [] && b != []
    ensures a[0] == b[0]
    ensures Sorted(a[1..]) && Sorted(b[1..]) && multiset(a[1..]) == multiset(b[1..])
  {
    MultisetTail(a);
    MultisetTail(b);
    SortedHeadLeast(b, a[0]);
    SortedHeadLeast(a, b[0]);
    SortedTail(a);
    SortedTail(b);
  }

  lemma MultisetTail(s: seq<real>)
    requires s != []
    ensures s[0] in multiset(s)
    ensures multiset(s[1..]) == multiset(s) - multiset{s[0]}
  {
    assert s == [s[0]] + s[1..];
  }

  lemma SortedTail(s: seq<real>)
    requires Sorted(s) && s != []
    ensures Sorted(s[1..])
  {
  }

  /** The head of a sorted sequence is its least reading. */
  lemma SortedHeadLeast(s: seq<real>, x: real)
    requires Sorted(s) && x in multiset(s)
    ensures s[0] <= x
  {
  }

  /** The outlier trim of one hour's readings: fewer than five pass through
      untouched; otherwise the sorted readings lose their two smallest and
      their three largest. */
  function Normalized(xs: seq<real>): (r: seq<real>)
    ensures |r| == if |xs| < 5 then |xs| else |xs| - 5
  {
    if |xs| < 5 then xs else SortSeq(xs)[2..|xs| - 3]
  }

  /** `kept` is what remains of `xs` once `lows` and `highs` are taken out,
      every reading of `lows` being no greater than every kept one and every
      reading of `highs` no smaller. */
  ghost predicate TrimsTo(xs: seq<real>, lows: seq<real>, kept: seq<real>, highs: seq<real>)
  {
    && multiset(xs) == multiset(lows) + multiset(kept) + multiset(highs)
    && (forall i, j :: 0 <= i < |lows| && 0 <= j < |kept| ==> lows[i] <= kept[j])
    && (forall i, j :: 0 <= i < |kept| && 0 <= j < |highs| ==> kept[i] <= highs[j])
  }

  /** Cutting a sorted arrangement of `xs` in three pieces trims `xs`. */
  lemma SortedSplitTrims(xs: seq<real>, s: seq<real>, lo: nat, hi: nat)
    requires Sorted(s) && multiset(s) == multiset(xs) && lo <= hi <= |s|
    ensures TrimsTo(xs, s[..lo], s[lo..hi], s[hi..])
  {
    assert s == s[..lo] + s[lo..hi] + s[hi..];
  }

  /** What the trim removes, stated without sorting: for five or more
      readings, exactly two readings at the bottom and three at the top,
      so n - 5 remain. */
  lemma NormalizedTrim(xs: seq<real>)
    requires |xs| >= 5
    ensures |Normalized(xs)| == |xs| - 5
    ensures exists lows, highs :: |lows| == 2 && |highs| == 3 && TrimsTo(xs, lows, Normalized(xs), highs)
  {
    var s := SortSeq(xs);
    var n := |xs|;
    SortedSplitTrims(xs, s, 2, n - 3);
    assert TrimsTo(xs, s[..2], Normalized(xs), s[n - 3..]);
  }

  /** A bucket of exactly five readings trims to nothing: its mean is 0/0. */
  lemma FiveTrimToNaN(xs: seq<real>)
    requires |xs| == 5
    ensures Normalized(xs) == [] && Mean(Normalized(xs)) == NaN
  {
    assert |SortSeq(xs)| == |multiset(SortSeq(xs))| == 5;
  }

  /** The trimmed mean depends only on which readings are in the bucket,
      not on their order. */
  lemma TrimmedMeanIgnoresOrder(xs: seq<real>, ys: seq<real>)
    requires multiset(xs) == multiset(ys)
    ensures Mean(Normalized(xs)) == Mean(Normalized(ys))
  {
    assert |xs| == |multiset(xs)| == |multiset(ys)| == |ys|;
    if |xs| < 5 {
      SumPermutation(xs, ys);
    } else {
      SortedPermutationUnique(SortSeq(xs), SortSeq(ys));
    }
  }

  /** normalize, in place: sorts the readings of `xs` when there are five
      or more and reports the kept range [lo, hi) of the array. */
  method Normalize(xs: array<real>) returns (lo: nat, hi: nat)
    modifies xs
    ensures lo <= hi <= xs.Length
    ensures xs[lo..hi] == Normalized(old(xs[..]))
    ensures xs.Length < 5 ==> xs[..] == old(xs[..])
    ensures xs.Length >= 5 ==> xs[..] == SortSeq(old(xs[..]))
  {
    if xs.Length < 5 {
      assert xs[0..xs.Length] == xs[..];
      return 0, xs.Length;
    }
    SortInPlace(xs);
    SortedPermutationUnique(xs[..], SortSeq(old(xs[..])));
    return 2, xs.Length - 3;
  }

  /** Stands for sort.Float64s, here as an insertion sort by adjacent
      swaps; SortedPermutationUnique makes the choice of algorithm
      irrelevant, since every sorted permutation is the same sequence. */
  method SortInPlace(a: array<real>)
    modifies a
    ensures Sorted(a[..])
    ensures multiset(a[..]) == multiset(old(a[..]))
  {
    var i := 0;
    while i < a.Length
      invariant 0 <= i <= a.Length
      invariant forall p, q :: 0 <= p < q < i ==> a[p] <= a[q]
      invariant multiset(a[..]) == multiset(old(a[..]))
    {
      SinkInto(a, i);
      i := i + 1;
    }
  }

  /** Moves `a[i]` down into the sorted prefix `a[..i]`, leaving `a[..i + 1]`
      sorted. */
  method SinkInto(a: array<real>, i: nat)
    requires i < a.Length
    requires forall p, q :: 0 <= p < q < i ==> a[p] <= a[q]
    modifies a
    ensures forall p, q :: 0 <= p < q <= i ==> a[p] <= a[q]
    ensures multiset(a[..]) == multiset(old(a[..]))
  {
    var j := i;
    assert SortedBut(a[..], i, j) && BelowFrom(a[..], i, j);
    while j > 0 && a[j - 1] > a[j]
      invariant 0 <= j <= i
      invariant SortedBut(a[..], i, j) && BelowFrom(a[..], i, j)
      invariant multiset(a[..]) == multiset(old(a[..]))
    {
      ghost var before := a[..];
      a[j - 1], a[j] := a[j], a[j - 1];
      assert a[..] == before[j - 1 := before[j]][j := before[j - 1]];
      SinkStep(before, i, j);
      j := j - 1;
    }
    SinkDone(a[..], i, j);
  }

  /** `s[..i + 1]` is sorted apart from the reading at `j`. */
  ghost predicate SortedBut(s: seq<real>, i: nat, j: nat)
    requires i < |s|
  {
    forall p, q :: 0 <= p < q <= i && p != j && q != j ==> s[p] <= s[q]
  }

  /** The reading at `j` is at most every reading after it up to `i`. */
  ghost predicate BelowFrom(s: seq<real>, i: nat, j: nat)
    requires j <= i < |s|
  {
    forall q :: j < q <= i ==> s[j] <= s[q]
  }

  /** One exchange moves the out-of-place reading one step down. */
  lemma SinkStep(s: seq<real>, i: nat, j: nat)
    requires 0 < j <= i < |s| && s[j - 1] > s[j]
    requires SortedBut(s, i, j) && BelowFrom(s, i, j)
    ensures SortedBut(s[j - 1 := s[j]][j := s[j - 1]], i, j - 1)
    ensures BelowFrom(s[j - 1 := s[j]][j := s[j - 1]], i, j - 1)
    ensures multiset(s[j - 1 := s[j]][j := s[j - 1]]) == multiset(s)
  {
    SwapPermutes(s, j - 1, j);
  }

  /** Once the reading at `j` is in place, the prefix is sorted. */
  lemma SinkDone(s: seq<real>, i: nat, j: nat)
    requires j <= i < |s| && SortedBut(s, i, j) && BelowFrom(s, i, j)
    requires j == 0 || s[j - 1] <= s[j]
    ensures forall p, q :: 0 <= p < q <= i ==> s[p] <= s[q]
  {
    forall p, q | 0 <= p < q <= i ensures s[p] <= s[q] {
      if p == j || q != j {
      } else if p < j - 1 {
        assert s[p] <= s[j - 1];
      }
    }
  }

  /** Exchanging two readings keeps the multiset of readings. */
  lemma SwapPermutes(s: seq<real>, i: nat, j: nat)
    requires i < j < |s|
    ensures multiset(s[i := s[j]][j := s[i]]) == multiset(s)
  {
  }

  // ---------------------------------------------------------------------
  // The hourly average

  /** `out` is the hourly average of the window samples `w`: ascending by
      hour, one entry per hour present in `w`, each the trimmed mean of
      that hour's readings. */
  ghost predicate IsHourlyAverage(w: seq<Value>, out: seq<HourAvg>)
  {
    && Ascending(out)
    && (forall i :: 0 <= i < |out| ==>
          out[i].t in Hours(w) && out[i].v == Mean(Normalized(Bucket(w, out[i].t))))
    && (forall h :: h in Hours(w) ==> exists i :: 0 <= i < |out| && out[i].t == h)
  }

  ghost predicate Ascending(out: seq<HourAvg>)
  {
    forall i, j :: 0 <= i < j < |out| ==> out[i].t < out[j].t
  }

  /** The hours of the entries of `out`. */
  ghost function TimesOf(out: seq<HourAvg>): set<int>
  {
    set i | 0 <= i < |out| :: out[i].t
  }

  /** The hours of an ascending sequence are its first hour, which is the
      least, and the hours of its tail. */
  lemma AscendingTail(out: seq<HourAvg>)
    requires Ascending(out) && out != []
    ensures Ascending(out[1..])
    ensures TimesOf(out) == {out[0].t} + TimesOf(out[1..])
    ensures forall h :: h in TimesOf(out[1..]) ==> out[0].t < h
  {
    forall h ensures h in TimesOf(out) <==> h == out[0].t || h in TimesOf(out[1..]) {
      if h in TimesOf(out) {
        var i :| 0 <= i < |out| && out[i].t == h;
        if i > 0 { assert out[1..][i - 1].t == h; }
      }
      if h in TimesOf(out[1..]) {
        var i :| 0 <= i < |out[1..]| && out[1..][i].t == h;
        assert out[i + 1].t == h;
      }
    }
    forall h | h in TimesOf(out[1..]) ensures out[0].t < h {
      var i :| 0 <= i < |out[1..]| && out[1..][i].t == h;
      assert out[i + 1].t == h;
    }
  }

  lemma {:induction false} AscendingTimesCount(out: seq<HourAvg>)
    requires Ascending(out)
    ensures |TimesOf(out)| == |out|
  {
    if out != [] {
      AscendingTail(out);
      AscendingTimesCount(out[1..]);
      assert out[0].t !in TimesOf(out[1..]);
    }
  }

  lemma TimesOfHourlyAverage(w: seq<Value>, out: seq<HourAvg>)
    requires IsHourlyAverage(w, out)
    ensures TimesOf(out) == Hours(w)
  {
    forall h | h in Hours(w) ensures h in TimesOf(out) {
      var i :| 0 <= i < |out| && out[i].t == h;
    }
  }

  /** One entry per distinct hour: the output is exactly as long as the
      number of hours present in the window. */
  lemma HourlyAverageLength(w: seq<Value>, out: seq<HourAvg>)
    requires IsHourlyAverage(w, out)
    ensures |out| == |Hours(w)|
  {
    TimesOfHourlyAverage(w, out);
    AscendingTimesCount(out);
  }

  /** Two ascending sequences over the same set of hours agree hour by
      hour. */
  lemma {:induction false} AscendingSameTimes(a: seq<HourAvg>, b: seq<HourAvg>)
    requires Ascending(a) && Ascending(b) && |a| == |b| && TimesOf(a) == TimesOf(b)
    ensures forall k :: 0 <= k < |a| ==> a[k].t == b[k].t
  {
    if a != [] {
      AscendingTail(a);
      AscendingTail(b);
      assert a[0].t == b[0].t by {
        assert a[0].t in TimesOf(b) && b[0].t in TimesOf(a);
      }
      assert TimesOf(a[1..]) == TimesOf(a) - {a[0].t};
      assert TimesOf(b[1..]) == TimesOf(b) - {b[0].t};
      AscendingSameTimes(a[1..], b[1..]);
      forall k | 0 <= k < |a| ensures a[k].t == b[k].t {
        if k > 0 { assert a[1..][k - 1] == a[k] && b[1..][k - 1] == b[k]; }
      }
    }
  }

  /** The three conditions of IsHourlyAverage admit exactly one output. */
  lemma HourlyAverageUnique(w: seq<Value>, a: seq<HourAvg>, b: seq<HourAvg>)
    requires IsHourlyAverage(w, a) && IsHourlyAverage(w, b)
    ensures a == b
  {
    HourlyAverageLength(w, a);
    HourlyAverageLength(w, b);
    TimesOfHourlyAverage(w, a);
    TimesOfHourlyAverage(w, b);
    AscendingSameTimes(a, b);
  }

  /** A present key whose window holds no sample averages to the empty
      (non-nil) sequence. */
  lemma EmptyWindowNoHours(out: seq<HourAvg>)
    requires IsHourlyAverage([], out)
    ensures out == []
  {
    HourlyAverageLength([], out);
  }

  lemma {:induction false} BucketConcat(a: seq<Value>, b: seq<Value>, h: int)
    ensures Bucket(a + b, h) == Bucket(a, h) + Bucket(b, h)
  {
    if b != [] {
      assert (a + b)[..|a + b| - 1] == a + b[..|b| - 1];
      BucketConcat(a, b[..|b| - 1], h);
    } else {
      assert a + b == a;
    }
  }

  /** Reordering the samples of a window reorders each hour's readings
      and nothing more. */
  lemma {:induction false} BucketPermutation(a: seq<Value>, b: seq<Value>, h: int)
    requires multiset(a) == multiset(b)
    ensures multiset(Bucket(a, h)) == multiset(Bucket(b, h))
    decreases |a|
  {
    if a != [] {
      var x := a[|a| - 1];
      assert x in multiset(b);
      var i :| 0 <= i < |b| && b[i] == x;
      var rest := b[..i] + b[i + 1..];
      assert b == b[..i] + [x] + b[i + 1..];
      assert a == a[..|a| - 1] + [x];
      assert multiset(b) == multiset(b[..i]) + multiset{x} + multiset(b[i + 1..]);
      assert multiset(rest) == multiset(b[..i]) + multiset(b[i + 1..]);
      calc {
        multiset(a[..|a| - 1]);
        multiset(a) - multiset{x};
        multiset(b) - multiset{x};
        multiset(rest);
      }
      BucketPermutation(a[..|a| - 1], rest, h);
      BucketConcat(b[..i] + [x], b[i + 1..], h);
      BucketConcat(b[..i], [x], h);
      BucketConcat(b[..i], b[i + 1..], h);
      BucketConcat(a[..|a| - 1], [x], h);
    } else {
      assert b == [];
    }
  }

  /** The source sorts the window's samples by time before grouping them;
      the hourly average does not depend on that order, so the model
      leaves the sort out. */
  lemma WindowOrderIrrelevant(a: seq<Value>, b: seq<Value>, out: seq<HourAvg>)
    requires multiset(a) == multiset(b)
    requires IsHourlyAverage(a, out)
    ensures IsHourlyAverage(b, out)
  {
    forall h ensures h in Hours(a) <==> h in Hours(b) {
      BucketPermutation(a, b, h);
      assert |Bucket(a, h)| == |multiset(Bucket(a, h))| == |multiset(Bucket(b, h))| == |Bucket(b, h)|;
    }
    forall i | 0 <= i < |out|
      ensures out[i].v == Mean(Normalized(Bucket(b, out[i].t)))
    {
      BucketPermutation(a, b, out[i].t);
      TrimmedMeanIgnoresOrder(Bucket(a, out[i].t), Bucket(b, out[i].t));
    }
  }

  /** sort.Slice of the averages by time, for entries whose hours differ:
      each entry is inserted at its place in a fresh sequence. */
  method SortByTime(s: seq<HourAvg>) returns (r: seq<HourAvg>)
    requires forall i, j :: 0 <= i < j < |s| ==> s[i].t != s[j].t
    ensures |r| == |s|
    ensures forall i, j :: 0 <= i < j < |r| ==> r[i].t < r[j].t
    ensures forall e :: e in r <==> e in s
  {
    r := [];
    var i := 0;
    while i < |s|
      invariant 0 <= i <= |s|
      invariant |r| == i
      invariant forall p, q :: 0 <= p < q < |r| ==> r[p].t < r[q].t
      invariant forall e :: e in r <==> e in s[..i]
    {
      var x := s[i];
      var p := 0;
      while p < |r| && r[p].t < x.t
        invariant 0 <= p <= |r|
        invariant forall q :: 0 <= q < p ==> r[q].t < x.t
      {
        p := p + 1;
      }
      if p < |r| {
        assert r[p] in s[..i];
        assert r[p].t != x.t;
      }
      assert s[..i + 1] == s[..i] + [x];
      r := r[..p] + [x] + r[p..];
      i := i + 1;
    }
    assert s[..|s|] == s;
  }

  // ---------------------------------------------------------------------
  // The store

  /** Total number of samples held in a timeline. */
  ghost function Total(m: map<string, seq<Value>>): nat
    decreases |m|
  {
    if |m| == 0 then 0
    else
      var k := AnyKey(m);
      |m[k]| + Total(m - {k})
  }

  /** Some key of a non-empty timeline. */
  ghost function AnyKey(m: map<string, seq<Value>>): (k: string)
    requires |m| != 0
    ensures k in m && |m - {k}| == |m| - 1
  {
    assert m.Keys != {};
    var k :| k in m;
    k
  }

  /** Any key can be counted first. */
  lemma {:induction false} TotalRemove(m: map<string, seq<Value>>, k: string)
    requires k in m
    ensures Total(m) == |m[k]| + Total(m - {k})
    decreases |m|
  {
    var k' := AnyKey(m);
    if k' != k {
      assert |m - {k'}| == |m| - 1 && |m - {k}| == |m| - 1;
      assert (m - {k'}) - {k} == (m - {k}) - {k'};
      TotalRemove(m - {k'}, k);
      TotalRemove(m - {k}, k');
    }
  }

  /** Replacing the series of a present key changes the total by the
      difference in length. */
  lemma TotalUpdate(m: map<string, seq<Value>>, k: string, s: seq<Value>)
    requires k in m
    ensures Total(m[k := s]) == Total(m) - |m[k]| + |s|
  {
    TotalRemove(m, k);
    TotalRemove(m[k := s], k);
    assert m[k := s] - {k} == m - {k};
  }

  /** The timeline during a sweep: the series of the keys in `todo` are
      still as they were, the others are pruned. */
  ghost function PrunedBut(m: map<string, seq<Value>>, todo: set<string>, cutoff: int): map<string, seq<Value>>
  {
    map k | k in m :: if k in todo then m[k] else Kept(m[k], cutoff)
  }

  /** Before the sweep nothing is pruned; after it every series is. */
  lemma PrunedEnds(m: map<string, seq<Value>>, cutoff: int)
    ensures PrunedBut(m, m.Keys, cutoff) == m
    ensures PrunedBut(m, {}, cutoff).Keys == m.Keys
    ensures forall k :: k in m ==> PrunedBut(m, {}, cutoff)[k] == Kept(m[k], cutoff)
  {
  }

  /** Pruning one more key of `todo`. */
  lemma PrunedStep(m: map<string, seq<Value>>, todo: set<string>, k: string, cutoff: int)
    requires k in todo && todo <= m.Keys
    ensures k in PrunedBut(m, todo, cutoff) && PrunedBut(m, todo, cutoff)[k] == m[k]
    ensures PrunedBut(m, todo - {k}, cutoff) == PrunedBut(m, todo, cutoff)[k := Kept(m[k], cutoff)]
  {
  }

  /** The inner loop of the cleaner: the samples of one series strictly
      after the cutoff, accumulated in order. */
  method PruneSeries(v: seq<Value>, cutoff: int) returns (newV: seq<Value>)
    ensures newV == Kept(v, cutoff)
  {
    newV := [];
    var j := 0;
    while j < |v|
      invariant 0 <= j <= |v|
      invariant newV == Kept(v[..j], cutoff)
    {
      assert v[..j + 1][..j] == v[..j];
      if v[j].t > cutoff {
        newV := newV + [v[j]];
      }
      j := j + 1;
    }
    assert v[..|v|] == v;
  }

  /** The first loop of Avg: the samples strictly inside (start, end). */
  method WindowOf(data: seq<Value>, start: int, end: int) returns (durData: seq<Value>)
    ensures durData == Window(data, start, end)
  {
    durData := [];
    var i := 0;
    while i < |data|
      invariant 0 <= i <= |data|
      invariant durData == Window(data[..i], start, end)
    {
      assert data[..i + 1][..i] == data[..i];
      if start < data[i].t < end {
        durData := durData + [data[i]];
      }
      i := i + 1;
    }
    assert data[..|data|] == data;
  }

  /** The second loop of Avg: the readings grouped by hour start. */
  method GroupByHour(durData: seq<Value>) returns (hAvg: map<int, seq<real>>)
    ensures hAvg.Keys == Hours(durData)
    ensures forall h :: h in hAvg ==> hAvg[h] == Bucket(durData, h)
  {
    hAvg := map[];
    var i := 0;
    while i < |durData|
      invariant 0 <= i <= |durData|
      invariant hAvg == Grouped(durData[..i])
    {
      assert durData[..i + 1][..i] == durData[..i];
      var h := Truncate(durData[i].t);
      hAvg := hAvg[h := (if h in hAvg then hAvg[h] else []) + [durData[i].v]];
      i := i + 1;
    }
    assert durData[..i] == durData;
    GroupedBuckets(durData);
  }

  /** The map the grouping loop builds from the samples `w`, one sample at
      a time. */
  ghost function Grouped(w: seq<Value>): map<int, seq<real>>
  {
    if w == [] then map[]
    else
      var m, last := Grouped(w[..|w| - 1]), w[|w| - 1];
      var h := Truncate(last.t);
      m[h := (if h in m then m[h] else []) + [last.v]]
  }

  /** The grouping has one key per hour present, holding that hour's
      bucket. */
  lemma {:induction false} GroupedBuckets(w: seq<Value>)
    ensures Grouped(w).Keys == Hours(w)
    ensures forall h :: h in Grouped(w) ==> Grouped(w)[h] == Bucket(w, h)
  {
    if w != [] {
      var init, last := w[..|w| - 1], w[|w| - 1];
      GroupedBuckets(init);
      var m, h := Grouped(init), Truncate(last.t);
      forall k | k in Grouped(w) ensures Grouped(w)[k] == Bucket(w, k) {
        if k == h && h !in m {
          assert Bucket(init, h) == [];
        }
      }
    }
  }

  /** The body of the third loop of Avg for one hour: normalize the
      hour's readings in place, sum what is kept, divide by its count. */
  method TrimmedMean(xs: seq<real>) returns (mean: F64)
    ensures mean == Mean(Normalized(xs))
  {
    var a := new real[|xs|](k requires 0 <= k < |xs| => xs[k]);
    assert a[..] == xs;
    var lo, hi := Normalize(a);
    var kept := a[lo..hi];
    var sum := SumOf(kept);
    mean := if hi - lo == 0 then NaN else Num(sum / ((hi - lo) as real));
    assert |kept| == hi - lo;
  }

  /** The summing loop of Avg over the kept readings of one hour. */
  method SumOf(v: seq<real>) returns (sum: real)
    ensures sum == Sum(v)
  {
    sum := 0.0;
    var k := 0;
    while k < |v|
      invariant 0 <= k <= |v|
      invariant sum == Sum(v[..k])
    {
      assert v[..k + 1][..k] == v[..k];
      sum := sum + v[k];
      k := k + 1;
    }
    assert v[..|v|] == v;
  }

  /** A set other than the empty one has an element to pick. */
  lemma NonEmptyHasHour(hs: set<int>)
    requires hs != {}
    ensures exists h :: h in hs
  {
    if forall h :: h !in hs {
      assert false;
    }
  }

  lemma NonEmptyHasKey(ks: set<string>)
    requires ks != {}
    ensures exists k :: k in ks
  {
    if forall k :: k !in ks {
      assert false;
    }
  }

  /** The third loop of Avg: one trimmed mean per hour, in the map's
      (unspecified) iteration order. */
  method MeansByHour(hAvg: map<int, seq<real>>) returns (avg: seq<HourAvg>)
    ensures forall p, q :: 0 <= p < q < |avg| ==> avg[p].t != avg[q].t
    ensures forall p :: 0 <= p < |avg| ==>
              avg[p].t in hAvg && avg[p].v == Mean(Normalized(hAvg[avg[p].t]))
    ensures TimesOf(avg) == hAvg.Keys
  {
    avg := [];
    var todo := hAvg.Keys;
    while todo != {}
      invariant todo <= hAvg.Keys
      invariant TimesOf(avg) == hAvg.Keys - todo
      invariant forall p :: 0 <= p < |avg| ==>
                  avg[p].t in hAvg && avg[p].v == Mean(Normalized(hAvg[avg[p].t]))
      invariant forall p, q :: 0 <= p < q < |avg| ==> avg[p].t != avg[q].t
      decreases todo
    {
      NonEmptyHasHour(todo);
      var h :| h in todo;
      var mean := TrimmedMean(hAvg[h]);
      TimesOfAppend(avg, HourAvg(h, mean));
      avg := avg + [HourAvg(h, mean)];
      todo := todo - {h};
    }
  }

  lemma TimesOfAppend(out: seq<HourAvg>, e: HourAvg)
    ensures TimesOf(out + [e]) == TimesOf(out) + {e.t}
  {
    forall h | h in TimesOf(out) ensures h in TimesOf(out + [e]) {
      var i :| 0 <= i < |out| && out[i].t == h;
      assert (out + [e])[i] == out[i];
    }
    assert (out + [e])[|out|] == e;
  }

  /** Sorting the per-hour means of a window's buckets by hour yields the
      window's hourly average. */
  lemma SortedMeansAreHourlyAverage(w: seq<Value>, hAvg: map<int, seq<real>>,
                                    avg: seq<HourAvg>, sorted: seq<HourAvg>)
    requires hAvg.Keys == Hours(w)
    requires forall h :: h in hAvg ==> hAvg[h] == Bucket(w, h)
    requires forall p :: 0 <= p < |avg| ==>
               avg[p].t in hAvg && avg[p].v == Mean(Normalized(hAvg[avg[p].t]))
    requires TimesOf(avg) == hAvg.Keys
    requires forall i, j :: 0 <= i < j < |sorted| ==> sorted[i].t < sorted[j].t
    requires forall e :: e in sorted <==> e in avg
    ensures IsHourlyAverage(w, sorted)
  {
    forall i | 0 <= i < |sorted|
      ensures sorted[i].t in Hours(w)
      ensures sorted[i].v == Mean(Normalized(Bucket(w, sorted[i].t)))
    {
      assert sorted[i] in avg;
    }
    forall h | h in Hours(w) ensures exists i :: 0 <= i < |sorted| && sorted[i].t == h {
      assert h in TimesOf(avg);
      var p :| 0 <= p < |avg| && avg[p].t == h;
      assert avg[p] in sorted;
    }
  }

  /** InMem: the gauge timeline, guarded in the source by a mutex and fed
      through a channel; here each step runs atomically. */
  class InMem {
    var gaugeTimeLine: map<string, seq<Value>>
    /** Retention period in seconds; 0 disables the cleaner. */
    const retention: int

    constructor (retention: int)
      ensures gaugeTimeLine == map[] && this.retention == retention
    {
      gaugeTimeLine := map[];
      this.retention := retention;
    }

    /** The collector's handling of one message (key, x): the sample is
        appended to the key's series; every other key is unchanged. */
    method Collect(key: string, x: Value)
      modifies this
      ensures gaugeTimeLine == old(gaugeTimeLine)[key := SeriesOf(old(gaugeTimeLine), key) + [x]]
      ensures forall k :: k != key ==> SeriesOf(gaugeTimeLine, k) == SeriesOf(old(gaugeTimeLine), k)
    {
      gaugeTimeLine := gaugeTimeLine[key := SeriesOf(gaugeTimeLine, key) + [x]];
    }

    /** One sweep of the cleaner at instant `now`: with retention 0 nothing
        is ever pruned; otherwise every series keeps exactly its samples
        strictly after now - retention, in order, and no key disappears.
        Returns the number of samples removed. */
    method Clean(now: int) returns (removed: int)
      modifies this
      ensures retention == 0 ==> gaugeTimeLine == old(gaugeTimeLine) && removed == 0
      ensures retention != 0 ==> gaugeTimeLine.Keys == old(gaugeTimeLine).Keys
      ensures retention != 0 ==> forall k :: k in gaugeTimeLine ==>
                gaugeTimeLine[k] == Kept(old(gaugeTimeLine)[k], now - retention)
      ensures removed == Total(old(gaugeTimeLine)) - Total(gaugeTimeLine)
    {
      if retention == 0 {
        return 0;
      }
      var cutoff := now - retention;
      PrunedEnds(gaugeTimeLine, cutoff);
      var totalVs, totalNewVs := Sweep(cutoff);
      removed := totalVs - totalNewVs;
    }

    /** The loop of a sweep: every series is replaced by its samples after
        `cutoff`, while the lengths before and after are added up. */
    method Sweep(cutoff: int) returns (totalVs: int, totalNewVs: int)
      modifies this
      ensures gaugeTimeLine == PrunedBut(old(gaugeTimeLine), {}, cutoff)
      ensures totalVs - totalNewVs == Total(old(gaugeTimeLine)) - Total(gaugeTimeLine)
    {
      ghost var m0 := gaugeTimeLine;
      totalVs, totalNewVs := 0, 0;
      var todo := gaugeTimeLine.Keys;
      PrunedEnds(m0, cutoff);
      while todo != {}
        invariant todo <= m0.Keys
        invariant gaugeTimeLine == PrunedBut(m0, todo, cutoff)
        invariant totalVs - totalNewVs == Total(m0) - Total(gaugeTimeLine)
        decreases todo
      {
        NonEmptyHasKey(todo);
        var k :| k in todo;
        var v := gaugeTimeLine[k];
        var newV := PruneSeries(v, cutoff);
        totalVs := totalVs + |v|;
        totalNewVs := totalNewVs + |newV|;
        TotalUpdate(gaugeTimeLine, k, newV);
        PrunedStep(m0, todo, k, cutoff);
        gaugeTimeLine := gaugeTimeLine[k := newV];
        todo := todo - {k};
      }
    }

    /** Avg(key, dur) at instant `now`: None (Go's nil) for an absent key;
        otherwise the hourly trimmed averages of the key's samples strictly
        inside (now - dur, now), oldest hour first. */
    method Avg(key: string, dur: int, now: int) returns (r: Option<seq<HourAvg>>)
      ensures key !in gaugeTimeLine <==> r == None
      ensures key in gaugeTimeLine ==>
                r.Some? && IsHourlyAverage(Window(gaugeTimeLine[key], now - dur, now), r.value)
    {
      if key !in gaugeTimeLine {
        return None;
      }
      var data := gaugeTimeLine[key];
      var durData := WindowOf(data, now - dur, now);
      var hAvg := GroupByHour(durData);
      var avg := MeansByHour(hAvg);
      var sorted := SortByTime(avg);
      SortedMeansAreHourlyAverage(durData, hAvg, avg, sorted);
      return Some(sorted);
    }
  }
}
