/**
 * The onset detection of the audio approximation: the frame-by-frame
 * feature pipeline on STFT norms (differences, rectification, collapsing,
 * normalisation, principal argument, sliding local averages), the loop
 * that turns normalised differences into debounced onsets, and the split
 * of a clip at its onsets. The transforms that produce the norms or phases
 * and the logarithmic compression are outside the model.
 */
module OnsetDetect {
  import opened Wrappers
  import opened AudioClips
  import opened Windowing
  import opened Fft

  /** c channels of b zeros: a silent frame. */
  function ZeroPlane(c: nat, b: nat): (r: seq<seq<real>>)
    ensures |r| == c && forall j :: 0 <= j < c ==> r[j] == Zeros(b)
  {
    seq(c, _ => Zeros(b))
  }

  /** `delta_fft_norm`: bin-by-bin difference of two frames of the same shape. */
  function DeltaPlane(curr: seq<seq<real>>, next: seq<seq<real>>): (r: seq<seq<real>>)
    requires |curr| == |next| && forall j :: 0 <= j < |curr| ==> |curr[j]| == |next[j]|
    ensures |r| == |curr| && forall j :: 0 <= j < |curr| ==> |r[j]| == |curr[j]|
    ensures forall j, k :: 0 <= j < |curr| && 0 <= k < |curr[j]| ==> r[j][k] == next[j][k] - curr[j][k]
  {
    seq(|curr|, j requires 0 <= j < |curr| => seq(|curr[j]|, k requires 0 <= k < |curr[j]| => next[j][k] - curr[j][k]))
  }

  /**
   * `find_diffs`. The first frame and its first channel must exist (the
   * silent first difference takes its dimensions from them), and `zip_eq`
   * demands that consecutive frames agree in shape, which is the same as
   * every frame having the first frame's shape.
   */
  function FindDiffs(stft: Norms): (r: Norms)
    requires |stft| > 0 && |stft[0]| > 0 && Cube(stft, |stft|, |stft[0]|, |stft[0][0]|)
    ensures Cube(r, |stft|, |stft[0]|, |stft[0][0]|)
    ensures forall c, b :: 0 <= c < |stft[0]| && 0 <= b < |stft[0][0]| ==> r[0][c][b] == 0.0
    ensures forall t, c, b :: 1 <= t < |stft| && 0 <= c < |stft[0]| && 0 <= b < |stft[0][0]| ==>
      r[t][c][b] == stft[t][c][b] - stft[t - 1][c][b]
  {
    [ZeroPlane(|stft[0]|, |stft[0][0]|)] +
      seq(|stft| - 1, i requires 0 <= i < |stft| - 1 => DeltaPlane(stft[i], stft[i + 1]))
  }

  /** The sum of bin (c, b) over frames 0..t. */
  function RunningSum(d: Norms, t: nat, c: nat, b: nat): real
    requires t < |d| && Spans(d, t + 1, c + 1, b + 1)
  {
    (if t == 0 then 0.0 else RunningSum(d, t - 1, c, b)) + d[t][c][b]
  }

  /**
   * The differences telescope: summing them over frames 0..t gives the
   * change of the bin from frame 0 to frame t, so the frames are recovered
   * from the first frame and the differences.
   */
  lemma {:induction false} DiffsTelescope(stft: Norms, t: nat, c: nat, b: nat)
    requires |stft| > 0 && |stft[0]| > 0 && Cube(stft, |stft|, |stft[0]|, |stft[0][0]|)
    requires t < |stft| && c < |stft[0]| && b < |stft[0][0]|
    ensures Spans(FindDiffs(stft), t + 1, c + 1, b + 1)
    ensures RunningSum(FindDiffs(stft), t, c, b) == stft[t][c][b] - stft[0][c][b]
  {
    var d := FindDiffs(stft);
    if t > 0 {
      DiffsTelescope(stft, t - 1, c, b);
      assert d[t][c][b] == stft[t][c][b] - stft[t - 1][c][b];
    } else {
      assert d[0][c][b] == 0.0;
    }
  }

  /** `Sample::max(v, 0.0)`. */
  function NonNeg(v: real): real
  {
    MaxSample(v, 0.0)
  }

  /**
   * `filter_non_negs_diffs`: the same shape, negative entries replaced by 0
   * and the others kept.
   */
  function FilterNonNegs(x: Norms): (r: Norms)
    ensures SameShape(r, x)
    ensures forall t, c, b :: 0 <= t < |x| && 0 <= c < |x[t]| && 0 <= b < |x[t][c]| ==>
      r[t][c][b] >= 0.0 && (x[t][c][b] >= 0.0 ==> r[t][c][b] == x[t][c][b]) && (x[t][c][b] < 0.0 ==> r[t][c][b] == 0.0)
  {
    seq(|x|, t requires 0 <= t < |x| =>
      seq(|x[t]|, c requires 0 <= c < |x[t]| =>
        seq(|x[t][c]|, b requires 0 <= b < |x[t][c]| => NonNeg(x[t][c][b]))))
  }

  /** Filtering is idempotent: rectified differences are left alone. */
  lemma FilterNonNegsIdempotent(x: Norms)
    ensures FilterNonNegs(FilterNonNegs(x)) == FilterNonNegs(x)
  {
    var r := FilterNonNegs(x);
    var rr := FilterNonNegs(r);
    forall t | 0 <= t < |x| ensures rr[t] == r[t] {
      forall c | 0 <= c < |x[t]| ensures rr[t][c] == r[t][c] {
        assert |rr[t][c]| == |r[t][c]|;
      }
      assert |rr[t]| == |r[t]|;
    }
  }

  /** `channel.iter().sum()`. */
  function Sum(s: seq<real>): real
  {
    if |s| == 0 then 0.0 else s[0] + Sum(s[1..])
  }

  /** The sum over all channels and bins of one frame. */
  function PlaneSum(p: seq<seq<real>>): real
  {
    if |p| == 0 then 0.0 else Sum(p[0]) + PlaneSum(p[1..])
  }

  /** `collapse_diffs`: one number per frame, the sum of all of its entries. */
  function CollapseDiffs(x: Norms): (r: seq<real>)
    ensures |r| == |x| && forall t :: 0 <= t < |x| ==> r[t] == PlaneSum(x[t])
  {
    seq(|x|, t requires 0 <= t < |x| => PlaneSum(x[t]))
  }

  /** A sum of non-negative numbers is non-negative, and it is 0 exactly when every term is. */
  lemma {:induction false} SumZeroIff(s: seq<real>)
    requires forall k :: 0 <= k < |s| ==> s[k] >= 0.0
    ensures Sum(s) >= 0.0
    ensures Sum(s) == 0.0 <==> forall k :: 0 <= k < |s| ==> s[k] == 0.0
  {
    if |s| > 0 {
      SumZeroIff(s[1..]);
      assert forall k :: 1 <= k < |s| ==> s[1..][k - 1] == s[k];
    }
  }

  lemma {:induction false} PlaneSumZeroIff(p: seq<seq<real>>)
    requires forall c, b :: 0 <= c < |p| && 0 <= b < |p[c]| ==> p[c][b] >= 0.0
    ensures PlaneSum(p) >= 0.0
    ensures PlaneSum(p) == 0.0 <==> forall c, b :: 0 <= c < |p| && 0 <= b < |p[c]| ==> p[c][b] == 0.0
  {
    if |p| > 0 {
      SumZeroIff(p[0]);
      PlaneSumZeroIff(p[1..]);
      assert forall c :: 1 <= c < |p| ==> p[1..][c - 1] == p[c];
    }
  }

  /**
   * After rectification a collapsed difference is non-negative, and it is
   * 0 exactly when no bin of the frame grew.
   */
  lemma CollapseRectified(x: Norms, t: nat)
    requires t < |x|
    ensures CollapseDiffs(FilterNonNegs(x))[t] >= 0.0
    ensures CollapseDiffs(FilterNonNegs(x))[t] == 0.0 <==>
      forall c, b :: 0 <= c < |x[t]| && 0 <= b < |x[t][c]| ==> x[t][c][b] <= 0.0
  {
    var r := FilterNonNegs(x);
    PlaneSumZeroIff(r[t]);
    assert forall c, b :: 0 <= c < |x[t]| && 0 <= b < |x[t][c]| ==> (r[t][c][b] == 0.0 <==> x[t][c][b] <= 0.0);
  }

  /** The first frame, which has no predecessor, never carries a difference. */
  lemma FirstFrameSilent(stft: Norms)
    requires |stft| > 0 && |stft[0]| > 0 && Cube(stft, |stft|, |stft[0]|, |stft[0][0]|)
    ensures CollapseDiffs(FilterNonNegs(FindDiffs(stft)))[0] == 0.0
  {
    var d := FindDiffs(stft);
    CollapseRectified(d, 0);
  }

  /** The largest of the differences, as `reduce` with `>` finds it. */
  function MaxOf(d: seq<real>): (m: real)
    requires |d| > 0
    ensures exists i :: 0 <= i < |d| && d[i] == m
    ensures forall i :: 0 <= i < |d| ==> d[i] <= m
  {
    Largest(d)
  }

  /** The fold behind `MaxOf`, element by element from the left. */
  function Largest(d: seq<real>): (m: real)
    requires |d| > 0
    ensures exists i :: 0 <= i < |d| && d[i] == m
    ensures forall i :: 0 <= i < |d| ==> d[i] <= m
  {
    if |d| == 1 then d[0]
    else
      var a := Largest(d[..|d| - 1]);
      assert forall i :: 0 <= i < |d| - 1 ==> d[..|d| - 1][i] == d[i];
      if a > d[|d| - 1] then a else d[|d| - 1]
  }

  /**
   * `normalize_diffs`: every difference divided by the largest, which must
   * exist and be positive. The results are at most 1, and exactly the
   * largest differences become 1.
   */
  function NormalizeDiffs(d: seq<real>): (r: seq<real>)
    requires |d| > 0 && MaxOf(d) > 0.0
    ensures |r| == |d|
    ensures forall i :: 0 <= i < |d| ==> r[i] <= 1.0
    ensures forall i :: 0 <= i < |d| ==> (r[i] == 1.0 <==> d[i] == MaxOf(d))
    ensures forall i :: 0 <= i < |d| ==> r[i] * MaxOf(d) == d[i]
  {
    var m := MaxOf(d);
    DivideAll(d, m);
    DivideBy(d, m)
  }

  /** Every element divided by m: each result times m gives the element back. */
  function DivideBy(d: seq<real>, m: real): (r: seq<real>)
    requires m > 0.0
    ensures |r| == |d|
    ensures forall i :: 0 <= i < |d| ==> r[i] * m == d[i]
  {
    seq(|d|, i requires 0 <= i < |d| => Quotient(d[i], m))
  }

  /** x / m, the number that m times gives x back. */
  function Quotient(x: real, m: real): (q: real)
    requires m > 0.0
    ensures q * m == x
  {
    x / m
  }

  /** Some normalised difference is 1: the one at the largest difference. */
  lemma NormalizeReachesOne(d: seq<real>)
    requires |d| > 0 && MaxOf(d) > 0.0
    ensures exists i :: 0 <= i < |d| && NormalizeDiffs(d)[i] == 1.0
  {
    var i :| 0 <= i < |d| && d[i] == MaxOf(d);
    assert NormalizeDiffs(d)[i] == 1.0;
  }

  /** Normalising keeps the order of the differences. */
  lemma NormalizeKeepsOrder(d: seq<real>, i: nat, j: nat)
    requires |d| > 0 && MaxOf(d) > 0.0 && i < |d| && j < |d|
    ensures d[i] <= d[j] <==> NormalizeDiffs(d)[i] <= NormalizeDiffs(d)[j]
  {
    var m := MaxOf(d);
    DivideMonotone(d[i], d[j], m);
  }

  lemma DivideMonotone(x: real, y: real, m: real)
    requires m > 0.0
    ensures x <= y <==> x / m <= y / m
  {
    if x <= y {
      assert x / m <= y / m;
    } else {
      assert y / m < x / m;
    }
  }

  lemma DivideBelow(x: real, m: real)
    requires m > 0.0 && x <= m
    ensures x / m <= 1.0 && (x / m) * m == x && (x / m == 1.0 <==> x == m)
  {
  }

  lemma DivideAll(d: seq<real>, m: real)
    requires m > 0.0 && forall i :: 0 <= i < |d| ==> d[i] <= m
    ensures forall i :: 0 <= i < |d| ==> d[i] / m <= 1.0 && (d[i] / m) * m == d[i] && (d[i] / m == 1.0 <==> d[i] == m)
  {
    forall i | 0 <= i < |d| ensures d[i] / m <= 1.0 && (d[i] / m) * m == d[i] && (d[i] / m == 1.0 <==> d[i] == m) {
      DivideBelow(d[i], m);
    }
  }

  /** `rem_euclid(x, 1.0)`: the fractional part, in [0, 1), differing from x by a whole number. */
  function RemEuclid1(x: real): (r: real)
    ensures 0.0 <= r < 1.0
    ensures (x - r).Floor as real == x - r
  {
    x - x.Floor as real
  }

  /**
   * The principal value of a phase difference: v shifted by a whole number
   * into [-0.5, 0.5).
   */
  function PrincipalValue(v: real): (r: real)
    ensures -0.5 <= r < 0.5
    ensures (v - r).Floor as real == v - r
  {
    RemEuclid1(v + 0.5) - 0.5
  }

  /** The principal value leaves exactly the values already in [-0.5, 0.5) unchanged. */
  lemma PrincipalValueFixed(v: real)
    ensures PrincipalValue(v) == v <==> -0.5 <= v < 0.5
  {
    if -0.5 <= v < 0.5 {
      assert (v + 0.5).Floor == 0;
    }
  }

  /** The principal value ignores whole turns. */
  lemma PrincipalValuePeriodic(v: real, k: int)
    ensures PrincipalValue(v + k as real) == PrincipalValue(v)
  {
    assert (v + k as real + 0.5).Floor == (v + 0.5).Floor + k;
  }

  /** `principal_argument`: the principal value of every entry. */
  function PrincipalArgument(x: Norms): (r: Norms)
    ensures SameShape(r, x)
    ensures forall t, c, b :: 0 <= t < |x| && 0 <= c < |x[t]| && 0 <= b < |x[t][c]| ==>
      -0.5 <= r[t][c][b] < 0.5 && r[t][c][b] == PrincipalValue(x[t][c][b])
  {
    seq(|x|, t requires 0 <= t < |x| =>
      seq(|x[t]|, c requires 0 <= c < |x[t]| =>
        seq(|x[t][c]|, b requires 0 <= b < |x[t][c]| => PrincipalValue(x[t][c][b]))))
  }

  /** Taking the principal argument twice changes nothing. */
  lemma PrincipalArgumentIdempotent(x: Norms)
    ensures PrincipalArgument(PrincipalArgument(x)) == PrincipalArgument(x)
  {
    var r := PrincipalArgument(x);
    var rr := PrincipalArgument(r);
    forall t | 0 <= t < |x| ensures rr[t] == r[t] {
      forall c | 0 <= c < |x[t]| ensures rr[t][c] == r[t][c] {
        assert |rr[t][c]| == |r[t][c]|;
        forall b | 0 <= b < |x[t][c]| ensures rr[t][c][b] == r[t][c][b] {
          PrincipalValueFixed(r[t][c][b]);
        }
      }
      assert |rr[t]| == |r[t]|;
    }
  }

  /** Appending a term adds it to the sum. */
  lemma {:induction false} SumSnoc(s: seq<real>, x: real)
    ensures Sum(s + [x]) == Sum(s) + x
  {
    if |s| > 0 {
      assert (s + [x])[1..] == s[1..] + [x];
      SumSnoc(s[1..], x);
    }
  }

  /** The average `find_local_avgs` reports at l: the window from l, cut at the end, divided by the full window size. */
  function LocalAvg(samples: seq<real>, windowSize: nat, l: nat): real
    requires windowSize > 0 && l < |samples|
  {
    Sum(samples[l..Min(l + windowSize, |samples|)]) / (windowSize as real)
  }

  /** The local average at every position, as `find_local_avgs` returns them. */
  function LocalAvgs(samples: seq<real>, windowSize: nat): (r: seq<real>)
    requires windowSize > 0 || |samples| == 0
    ensures |r| == |samples|
  {
    if |samples| == 0 then [] else seq(|samples|, l requires 0 <= l < |samples| => LocalAvg(samples, windowSize, l))
  }

  /** A constant run of w samples sums to w times the constant. */
  lemma {:induction false} SumConstant(s: seq<real>, v: real)
    requires forall k :: 0 <= k < |s| ==> s[k] == v
    ensures Sum(s) == (|s| as real) * v
  {
    if |s| > 0 {
      SumConstant(s[1..], v);
    }
  }

  /**
   * Where the samples are constant over a whole window, the local average
   * is that constant; near the end, where the window is cut short, it is
   * scaled down by the fraction of the window that remains.
   */
  lemma LocalAvgOfConstant(samples: seq<real>, windowSize: nat, l: nat, v: real)
    requires windowSize > 0 && l < |samples|
    requires forall k :: 0 <= k < |samples| ==> samples[k] == v
    ensures LocalAvg(samples, windowSize, l) * (windowSize as real) == ((Min(l + windowSize, |samples|) - l) as real) * v
    ensures l + windowSize <= |samples| ==> LocalAvg(samples, windowSize, l) == v
  {
    var w := samples[l..Min(l + windowSize, |samples|)];
    SumConstant(w, v);
    var sum := Sum(w);
    var ws := windowSize as real;
    assert sum / ws * ws == sum;
  }

  /**
   * `find_local_avgs`: a sliding window [l, r) over the samples whose sum
   * is kept up to date as r advances to min(l + window size, length) and l
   * steps past its sample. The window size must be positive unless there
   * are no samples (otherwise the window is empty and the program's
   * assertion `r - l > 0` fails).
   */
  method FindLocalAvgs(samples: seq<real>, windowSize: nat) returns (localDiffs: seq<real>)
    requires windowSize > 0 || |samples| == 0
    ensures localDiffs == LocalAvgs(samples, windowSize)
  {
    localDiffs := [];
    var r := 0;
    var windowSum := 0.0;
    var n := |samples|;
    for l := 0 to n
      invariant |localDiffs| == l && l <= r <= n
      invariant r <= l + windowSize
      invariant windowSum == Sum(samples[l..r])
      invariant forall i :: 0 <= i < l ==> localDiffs[i] == LocalAvg(samples, windowSize, i)
    {
      while r < n && r - l < windowSize
        invariant l <= r <= n && r <= l + windowSize
        invariant windowSum == Sum(samples[l..r])
      {
        SumExtend(samples, l, r);
        windowSum := windowSum + samples[r];
        r := r + 1;
      }
      assert r - l > 0;
      assert r == Min(l + windowSize, n);
      var avg := windowSum / (windowSize as real);
      assert avg == LocalAvg(samples, windowSize, l);
      ghost var before := localDiffs;
      localDiffs := localDiffs + [avg];
      assert forall i :: 0 <= i < l ==> localDiffs[i] == before[i];
      SumDropFirst(samples, l, r);
      windowSum := windowSum - samples[l];
    }
  }

  /** Moving the right end of the window one sample on adds that sample to the sum. */
  lemma SumExtend(samples: seq<real>, l: nat, r: nat)
    requires l <= r < |samples|
    ensures Sum(samples[l..r + 1]) == Sum(samples[l..r]) + samples[r]
  {
    SumSnoc(samples[l..r], samples[r]);
    assert samples[l..r + 1] == samples[l..r] + [samples[r]];
  }

  /** Moving the left end of the window one sample on takes that sample off the sum. */
  lemma SumDropFirst(samples: seq<real>, l: nat, r: nat)
    requires l < r <= |samples|
    ensures Sum(samples[l + 1..r]) == Sum(samples[l..r]) - samples[l]
  {
    assert samples[l..r][1..] == samples[l + 1..r];
  }

  /** What the debounce loop carries from frame to frame: the onsets so far and the last one, if still active. */
  datatype Debouncer = Debouncer(onsets: seq<nat>, last: Option<nat>)

  /**
   * One step of the onset loop at sample index `index`: with no active
   * onset, a difference above the threshold becomes an onset; otherwise an
   * onset more than `gap` samples back stops being active.
   */
  function DebounceStep(s: Debouncer, diff: real, index: nat, threshold: real, gap: nat): Debouncer
  {
    if s.last.None? && diff > threshold then Debouncer(s.onsets + [index], Some(index))
    else if index - (if s.last.Some? then s.last.value else 0) > gap then s.(last := None)
    else s
  }

  /** The loop's state after the first k frames, frame k at sample index k * hop. */
  function Debounce(diffs: seq<real>, hop: nat, threshold: real, gap: nat, k: nat): Debouncer
    requires k <= |diffs|
  {
    if k == 0 then Debouncer([], None)
    else DebounceStep(Debounce(diffs, hop, threshold, gap, k - 1), diffs[k - 1], (k - 1) * hop, threshold, gap)
  }

  /** Onset i is the start of a frame whose difference is above the threshold. */
  predicate OnsetAt(diffs: seq<real>, hop: nat, threshold: real, onset: nat)
  {
    exists j :: 0 <= j < |diffs| && onset == j * hop && diffs[j] > threshold
  }

  /**
   * The onsets after k frames: each the start of a frame before k whose
   * difference is above the threshold, consecutive ones more than `gap`
   * samples apart (so strictly increasing); the active onset is the last
   * one, and once it is dropped the next frame lies more than `gap`
   * samples past it. The program subtracts the active onset from the
   * current index as unsigned numbers; it is never larger.
   */
  lemma {:induction false} DebounceFacts(diffs: seq<real>, hop: nat, threshold: real, gap: nat, k: nat)
    requires hop > 0 && k <= |diffs|
    ensures var s := Debounce(diffs, hop, threshold, gap, k);
      (forall i :: 0 <= i < |s.onsets| ==> OnsetAt(diffs, hop, threshold, s.onsets[i]) && s.onsets[i] < k * hop) &&
      (forall i :: 0 <= i < |s.onsets| - 1 ==> s.onsets[i] + gap < s.onsets[i + 1]) &&
      (s.last.Some? ==> |s.onsets| > 0 && s.last.value == s.onsets[|s.onsets| - 1]) &&
      (s.last.None? && |s.onsets| > 0 ==> s.onsets[|s.onsets| - 1] + gap < k * hop)
  {
    if k > 0 {
      DebounceFacts(diffs, hop, threshold, gap, k - 1);
      var prev := Debounce(diffs, hop, threshold, gap, k - 1);
      var index := (k - 1) * hop;
      MulSucc(k - 1, hop);
      if prev.last.None? && diffs[k - 1] > threshold {
        assert OnsetAt(diffs, hop, threshold, index);
      }
    }
  }

  /**
   * The onset loop of `detect_onsets_spectrum`/`detect_onsets_phase`: the
   * normalised differences zipped with the frame starts 0, hop, 2 * hop,
   * ... below the sample count (`zip_eq`: one difference per frame).
   */
  method DebounceOnsets(diffs: seq<real>, numSamples: nat, hop: nat, threshold: real, gap: nat) returns (onsets: seq<nat>)
    requires hop > 0 && |diffs| == CeilDiv(numSamples, hop)
    ensures onsets == Debounce(diffs, hop, threshold, gap, |diffs|).onsets
    ensures forall i :: 0 <= i < |onsets| ==> OnsetAt(diffs, hop, threshold, onsets[i]) && onsets[i] < numSamples
    ensures forall i :: 0 <= i < |onsets| - 1 ==> onsets[i] + gap < onsets[i + 1]
  {
    onsets := [];
    var lastOnset: Option<nat> := None;
    var index := 0;
    for k := 0 to |diffs|
      invariant index == k * hop
      invariant Debouncer(onsets, lastOnset) == Debounce(diffs, hop, threshold, gap, k)
    {
      var diff := diffs[k];
      if lastOnset.None? && diff > threshold {
        onsets := onsets + [index];
        lastOnset := Some(index);
      } else if index - (if lastOnset.Some? then lastOnset.value else 0) > gap {
        lastOnset := None;
      }
      index := index + hop;
      MulSucc(k, hop);
    }
    DebounceFacts(diffs, hop, threshold, gap, |diffs|);
    forall i | 0 <= i < |onsets| ensures onsets[i] < numSamples {
      var j :| 0 <= j < |diffs| && onsets[i] == j * hop && diffs[j] > threshold;
      CeilDivIndex(numSamples, hop, j);
    }
  }

  /**
   * A worked run with hop 512 and a 600-sample gap: frame 1 starts an
   * onset, frame 2 is within its gap, frame 3 clears it, and frame 4
   * starts the next one.
   */
  lemma DebounceExample()
    ensures Debounce([0.0, 0.5, 0.5, 0.0, 0.5], 512, 0.2, 600, 5).onsets == [512, 2048]
  {
    var d := [0.0, 0.5, 0.5, 0.0, 0.5];
    assert Debounce(d, 512, 0.2, 600, 1) == Debouncer([], None);
    assert Debounce(d, 512, 0.2, 600, 2) == Debouncer([512], Some(512));
    assert Debounce(d, 512, 0.2, 600, 3) == Debouncer([512], Some(512));
    assert Debounce(d, 512, 0.2, 600, 4) == Debouncer([512], None);
  }

  predicate Nondecreasing(s: seq<nat>)
  {
    forall i, j :: 0 <= i <= j < |s| ==> s[i] <= s[j]
  }

  /**
   * The piece boundaries of `split_by_onsets`: the onsets with 0 put in
   * front when the first onset is later, and the sample count pushed at the
   * back when the last onset is earlier.
   */
  function Boundaries(onsets: seq<nat>, n: nat): (b: seq<nat>)
    requires |onsets| > 0
    ensures |b| > 0 && b[0] == 0
    ensures b[|b| - 1] == if onsets[|onsets| - 1] < n then n else onsets[|onsets| - 1]
    ensures |b| == |onsets| + (if onsets[0] > 0 then 1 else 0) + (if onsets[|onsets| - 1] < n then 1 else 0)
    ensures forall i :: 0 <= i < |onsets| ==> b[i + (if onsets[0] > 0 then 1 else 0)] == onsets[i]
    ensures Nondecreasing(onsets) && onsets[|onsets| - 1] <= n ==> Nondecreasing(b) && forall i :: 0 <= i < |b| ==> b[i] <= n
  {
    var front := if onsets[0] > 0 then [0] + onsets else onsets;
    PrependZeroBounded(onsets, n);
    AppendBoundBounded(front, n);
    if front[|front| - 1] < n then front + [n] else front
  }

  /** Putting 0 in front of nondecreasing onsets bounded by n keeps them nondecreasing and bounded. */
  lemma PrependZeroBounded(s: seq<nat>, n: nat)
    requires |s| > 0
    ensures Nondecreasing(s) && s[|s| - 1] <= n ==> forall i :: 0 <= i < |s| ==> s[i] <= n
    ensures Nondecreasing(s) && s[|s| - 1] <= n ==> Nondecreasing([0] + s) && forall i :: 0 <= i <= |s| ==> ([0] + s)[i] <= n
  {
  }

  /** Pushing a bound n after nondecreasing boundaries below it keeps them nondecreasing and bounded. */
  lemma AppendBoundBounded(s: seq<nat>, n: nat)
    requires |s| > 0
    ensures Nondecreasing(s) && s[|s| - 1] < n ==> Nondecreasing(s + [n]) && forall i :: 0 <= i <= |s| ==> (s + [n])[i] <= n
  {
  }

  /** The boundaries of nondecreasing onsets none of which lies past the end split the clip. */
  lemma BoundariesSplittable(c: Clip, onsets: seq<nat>)
    requires WellShaped(c) && |onsets| > 0 && Nondecreasing(onsets) && onsets[|onsets| - 1] <= c.numSamples
    ensures Splittable(c, Boundaries(onsets, c.numSamples))
  {
  }

  /** Boundaries every window between neighbours of which is defined. */
  predicate Splittable(c: Clip, b: seq<nat>)
  {
    WellShaped(c) && Nondecreasing(b) && forall i :: 0 <= i < |b| ==> b[i] <= c.numSamples
  }

  /** The clips between neighbouring boundaries (`tuple_windows` over the boundaries, each pair windowed). */
  function Pieces(c: Clip, b: seq<nat>): (r: seq<Clip>)
    requires Splittable(c, b) && |b| > 0
    ensures |r| == |b| - 1
    ensures forall k :: 0 <= k < |r| ==> r[k] == Window(c, b[k], b[k + 1])
  {
    seq(|b| - 1, k requires 0 <= k < |b| - 1 => Window(c, b[k], b[k + 1]))
  }

  /** Channel i of every clip, one after another. */
  function ConcatChannel(clips: seq<Clip>, i: nat): Channel
    requires forall k :: 0 <= k < |clips| ==> i < |clips[k].channels|
  {
    if clips == [] then [] else ConcatChannel(clips[..|clips| - 1], i) + clips[|clips| - 1].channels[i]
  }

  /** Piece k holds, in every channel, exactly the samples between its boundaries. */
  lemma PieceSamples(c: Clip, b: seq<nat>, k: nat, i: nat)
    requires Splittable(c, b) && k + 1 < |b| && i < c.numChannels
    ensures Pieces(c, b)[k].numSamples == b[k + 1] - b[k]
    ensures Pieces(c, b)[k].channels[i] == c.channels[i][b[k]..b[k + 1]]
  {
    var ch := c.channels[i];
    var w := Pieces(c, b)[k].channels[i];
    assert w == WindowChannel(ch, b[k], b[k + 1]);
    assert forall j :: 0 <= j < |w| ==> w[j] == ch[b[k]..b[k + 1]][j];
  }

  /** Clips spanning consecutive boundaries from 0: the first k of them hold b[k] samples. */
  lemma {:induction false} TotalOfSpans(p: seq<Clip>, b: seq<nat>, k: nat)
    requires |p| + 1 == |b| && b[0] == 0 && Nondecreasing(b) && k < |b|
    requires forall j :: 0 <= j < |p| ==> p[j].numSamples == b[j + 1] - b[j]
    ensures TotalSamples(p[..k]) == b[k]
  {
    if k > 0 {
      TotalOfSpans(p, b, k - 1);
      TotalSamplesSnoc(p, k);
    }
  }

  /** Clips whose channel i holds consecutive slices of ch from 0: the first k of them laid end to end are ch up to b[k]. */
  lemma {:induction false} ConcatOfSpans(p: seq<Clip>, b: seq<nat>, ch: Channel, i: nat, k: nat)
    requires |p| + 1 == |b| && b[0] == 0 && Nondecreasing(b) && k < |b|
    requires forall j :: 0 <= j < |b| ==> b[j] <= |ch|
    requires forall j :: 0 <= j < |p| ==> i < |p[j].channels| && p[j].channels[i] == ch[b[j]..b[j + 1]]
    ensures ConcatChannel(p[..k], i) == ch[..b[k]]
  {
    if k > 0 {
      ConcatOfSpans(p, b, ch, i, k - 1);
      assert p[..k][..k - 1] == p[..k - 1];
      assert ch[..b[k - 1]] + ch[b[k - 1]..b[k]] == ch[..b[k]];
    }
  }

  /**
   * The pieces between boundaries running from 0 to the sample count: their
   * lengths add up to the sample count and their channels laid end to end
   * give back the clip's channels. With `Boundaries` (which puts 0 in front
   * and the count at the back, so one piece more than the onsets when both
   * are added) this is what `split_by_onsets` promises.
   */
  lemma PiecesCoverClip(c: Clip, b: seq<nat>)
    requires Splittable(c, b) && |b| > 0 && b[0] == 0 && b[|b| - 1] == c.numSamples
    ensures TotalSamples(Pieces(c, b)) == c.numSamples
    ensures forall i :: 0 <= i < c.numChannels ==> ConcatChannel(Pieces(c, b), i) == c.channels[i]
  {
    PiecesTotal(c, b);
    forall i | 0 <= i < c.numChannels ensures ConcatChannel(Pieces(c, b), i) == c.channels[i] {
      PiecesConcat(c, b, i);
    }
  }

  /** The pieces' lengths add up to the sample count. */
  lemma PiecesTotal(c: Clip, b: seq<nat>)
    requires Splittable(c, b) && |b| > 0 && b[0] == 0 && b[|b| - 1] == c.numSamples
    ensures TotalSamples(Pieces(c, b)) == c.numSamples
  {
    var p := Pieces(c, b);
    assert p[..|b| - 1] == p;
    TotalOfSpans(p, b, |b| - 1);
  }

  /** Channel i of the pieces, laid end to end, is channel i of the clip. */
  lemma PiecesConcat(c: Clip, b: seq<nat>, i: nat)
    requires Splittable(c, b) && |b| > 0 && b[0] == 0 && b[|b| - 1] == c.numSamples && i < c.numChannels
    ensures ConcatChannel(Pieces(c, b), i) == c.channels[i]
  {
    var p := Pieces(c, b);
    var ch := c.channels[i];
    assert p[..|b| - 1] == p;
    forall j | 0 <= j < |p| ensures i < |p[j].channels| && p[j].channels[i] == ch[b[j]..b[j + 1]] {
      PieceSamples(c, b, j, i);
    }
    ConcatOfSpans(p, b, ch, i, |b| - 1);
    assert ch[..b[|b| - 1]] == ch;
  }

  /**
   * `AudioClip::split_by_onsets` on the onsets detection found: 0 is put
   * in front and the sample count pushed at the back where missing, then
   * the clip is windowed between neighbouring boundaries. The program
   * indexes the first onset, so there must be one; a last onset beyond the
   * sample count trips its assertion that the boundaries end there, which
   * is `None` here. Detection yields increasing onsets.
   */
  method SplitByOnsets(c: Clip, detected: seq<nat>) returns (r: Option<seq<Clip>>)
    requires WellShaped(c) && |detected| > 0 && Nondecreasing(detected)
    ensures r.None? <==> detected[|detected| - 1] > c.numSamples
    ensures r.Some? ==> r.value == Pieces(c, Boundaries(detected, c.numSamples))
  {
    var onsets := InsertBounds(detected, c.numSamples);
    if onsets[|onsets| - 1] != c.numSamples {
      return None;
    }
    BoundariesSplittable(c, detected);
    return Some(Pieces(c, onsets));
  }

  /** The first steps of `split_by_onsets`: 0 inserted in front and the sample count pushed where missing. */
  method InsertBounds(detected: seq<nat>, n: nat) returns (onsets: seq<nat>)
    requires |detected| > 0
    ensures onsets == Boundaries(detected, n)
  {
    onsets := detected;
    if onsets[0] > 0 {
      onsets := [0] + onsets;
    }
    if onsets[|onsets| - 1] < n {
      onsets := onsets + [n];
    }
  }
}
