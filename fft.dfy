/**
 * The index logic around the short-time Fourier transform of the audio
 * approximation: the frame loop of `stft`, the inverse's overlap-add, the
 * harmonic/percussive binary masks and their application, and the
 * reassembly after horizontal median filtering. The transforms themselves
 * (rustfft) and the median filter are parameters or outside the model.
 */
module Fft {
  import opened AudioClips
  import opened Windowing

  /** `Complex<f64>`, one FFT bin. */
  datatype Complex = Complex(re: real, im: real)

  /**
   * `FFTResult` without its `frequency_resolution`, which is the derived
   * ratio `sample_rate / num_samples`.
   */
  datatype FftResult = FftResult(channels: seq<seq<Complex>>, sampleRate: real, numSamples: nat)

  /** `make_odd`: the median filters need an odd window. */
  function MakeOdd(n: nat): (r: nat)
    ensures r % 2 == 1
    ensures n <= r <= n + 1
    ensures r == n <==> n % 2 == 1
  {
    if n % 2 == 0 then n + 1 else n
  }

  /** The window `stft` transforms for its k-th frame, starting at k * hop. */
  function StftWindow(c: Clip, windowSize: nat, hop: nat, k: nat): Clip
    requires hop > 0 && WellShaped(c) && k < CeilDiv(c.numSamples, hop)
  {
    CeilDivIndex(c.numSamples, hop, k);
    Window(c, k * hop, k * hop + windowSize)
  }

  /** The frames `stft` returns: one transformed window per start 0, hop, 2 * hop, ... below the sample count. */
  function StftFrames<F>(c: Clip, windowSize: nat, hop: nat, fft: Clip -> F): (r: seq<F>)
    requires hop > 0 && WellShaped(c)
    ensures |r| == CeilDiv(c.numSamples, hop)
  {
    seq(CeilDiv(c.numSamples, hop), k requires 0 <= k < CeilDiv(c.numSamples, hop) => fft(StftWindow(c, windowSize, hop, k)))
  }

  /**
   * A frame k exists exactly when its start k * hop lies inside the clip,
   * and it is the transform of the window of `windowSize` samples from
   * there, zero-padded past the end.
   */
  lemma StftFramesFacts<F>(c: Clip, windowSize: nat, hop: nat, fft: Clip -> F)
    requires hop > 0 && WellShaped(c)
    ensures forall k: nat :: k < |StftFrames(c, windowSize, hop, fft)| <==> k * hop < c.numSamples
    ensures forall k :: 0 <= k < |StftFrames(c, windowSize, hop, fft)| ==>
      k * hop < c.numSamples && StftFrames(c, windowSize, hop, fft)[k] == fft(Window(c, k * hop, k * hop + windowSize))
  {
    var r := StftFrames(c, windowSize, hop, fft);
    forall k: nat ensures k < |r| <==> k * hop < c.numSamples {
      CeilDivIndex(c.numSamples, hop, k);
    }
    forall k | 0 <= k < |r|
      ensures k * hop < c.numSamples && r[k] == fft(Window(c, k * hop, k * hop + windowSize))
    {
      CeilDivIndex(c.numSamples, hop, k);
      assert r[k] == fft(StftWindow(c, windowSize, hop, k));
    }
  }

  /**
   * The frame counts the program's own tests expect for a 1000-sample clip:
   * `num_samples / hop + 1` with hops 256 and 512.
   */
  lemma StftCountTests<F>(fft: Clip -> F)
    ensures |StftFrames(NewMonoamplitude(44100.0, 1000, 0.5, 1), 1024, 256, fft)| == 1000 / 256 + 1
    ensures |StftFrames(NewMonoamplitude(24100.0, 1000, 0.6, 1), 2048, 512, fft)| == 1000 / 512 + 1
  {
    assert CeilDiv(1000, 256) == 4;
    assert CeilDiv(1000, 512) == 2;
  }

  /**
   * `AudioClip::stft` with the rectangular windowing function: the
   * `step_by(hop)` loop pushing one transformed window per start.
   */
  method Stft<F>(c: Clip, windowSize: nat, hop: nat, fft: Clip -> F) returns (frames: seq<F>)
    requires hop > 0 && WellShaped(c)
    ensures frames == StftFrames(c, windowSize, hop, fft)
  {
    var n := c.numSamples;
    ghost var all := StftFrames(c, windowSize, hop, fft);
    frames := [];
    var current := 0;
    ghost var k := 0;
    while current < n
      invariant current == k * hop && k <= CeilDiv(n, hop)
      invariant frames == all[..k]
      decreases n - current
    {
      CeilDivIndex(n, hop, k);
      var window := Window(c, current, current + windowSize);
      assert all[k] == fft(StftWindow(c, windowSize, hop, k)) == fft(window);
      frames := frames + [fft(window)];
      assert all[..k + 1] == all[..k] + [all[k]];
      MulSucc(k, hop);
      current := current + hop;
      k := k + 1;
    }
    CeilDivIndex(n, hop, k);
    assert all[..k] == all;
  }

  /** `STFTNorms` and the masks: indexed by timestamp, channel, bin. */
  type Norms = seq<seq<seq<real>>>

  /** Every index below (t, c, b) exists in x (x may be larger or ragged beyond). */
  predicate Spans(x: Norms, t: nat, c: nat, b: nat)
  {
    |x| >= t && forall i :: 0 <= i < t ==> |x[i]| >= c && forall j :: 0 <= j < c ==> |x[i][j]| >= b
  }

  /** x is exactly t by c by b. */
  predicate Cube(x: Norms, t: nat, c: nat, b: nat)
  {
    |x| == t && forall i :: 0 <= i < t ==> |x[i]| == c && forall j :: 0 <= j < c ==> |x[i][j]| == b
  }

  /**
   * What `binary_mask` needs of its inputs: the timestamp counts agree, the
   * first frame has a channel, the first frame's channel and bin counts
   * agree, and both inputs have every index the loops visit (the dimensions
   * are read off the harmonic input's first frame and first channel).
   */
  predicate MaskInputs(h: Norms, v: Norms)
  {
    |h| > 0 && |v| == |h| && |h[0]| > 0 && |v[0]| == |h[0]| && |v[0][0]| == |h[0][0]|
    && Spans(h, |h|, |h[0]|, |h[0][0]|) && Spans(v, |h|, |h[0]|, |h[0][0]|)
  }

  /** One mask entry: the harmonic mask takes ties. */
  function Choose(hx: real, vx: real, harmonic: bool): real
  {
    if (hx >= vx) == harmonic then 1.0 else 0.0
  }

  function MaskRow(hr: seq<real>, vr: seq<real>, b: nat, harmonic: bool): (r: seq<real>)
    requires |hr| >= b && |vr| >= b
    ensures |r| == b
  {
    seq(b, i requires 0 <= i < b => Choose(hr[i], vr[i], harmonic))
  }

  function MaskPlane(hp: seq<seq<real>>, vp: seq<seq<real>>, c: nat, b: nat, harmonic: bool): (r: seq<seq<real>>)
    requires |hp| >= c && |vp| >= c && forall j :: 0 <= j < c ==> |hp[j]| >= b && |vp[j]| >= b
    ensures |r| == c && forall j :: 0 <= j < c ==> r[j] == MaskRow(hp[j], vp[j], b, harmonic)
  {
    seq(c, j requires 0 <= j < c => MaskRow(hp[j], vp[j], b, harmonic))
  }

  function MaskCube(h: Norms, v: Norms, t: nat, c: nat, b: nat, harmonic: bool): (r: Norms)
    requires Spans(h, t, c, b) && Spans(v, t, c, b)
    ensures |r| == t && forall i :: 0 <= i < t ==> r[i] == MaskPlane(h[i], v[i], c, b, harmonic)
  {
    seq(t, i requires 0 <= i < t => MaskPlane(h[i], v[i], c, b, harmonic))
  }

  /**
   * The pair `binary_mask` returns. Both masks have the harmonic input's
   * dimensions, and at every entry exactly one of them is 1 and the other
   * 0: the harmonic one exactly when the harmonic input is at least the
   * percussive one.
   */
  function Masks(h: Norms, v: Norms): (r: (Norms, Norms))
    requires MaskInputs(h, v)
    ensures Cube(r.0, |h|, |h[0]|, |h[0][0]|) && Cube(r.1, |h|, |h[0]|, |h[0][0]|)
    ensures forall t, c, b :: 0 <= t < |h| && 0 <= c < |h[0]| && 0 <= b < |h[0][0]| ==>
      ((r.0[t][c][b] == 1.0 && r.1[t][c][b] == 0.0) <==> h[t][c][b] >= v[t][c][b])
    ensures forall t, c, b :: 0 <= t < |h| && 0 <= c < |h[0]| && 0 <= b < |h[0][0]| ==>
      ((r.0[t][c][b] == 0.0 && r.1[t][c][b] == 1.0) <==> h[t][c][b] < v[t][c][b])
  {
    (MaskCube(h, v, |h|, |h[0]|, |h[0][0]|, true), MaskCube(h, v, |h|, |h[0]|, |h[0][0]|, false))
  }

  /** The two masks are complementary: their entries are 0 or 1 and add up to 1. */
  lemma MasksComplementary(h: Norms, v: Norms)
    requires MaskInputs(h, v)
    ensures forall t, c, b :: 0 <= t < |h| && 0 <= c < |h[0]| && 0 <= b < |h[0][0]| ==>
      (Masks(h, v).0[t][c][b] == 0.0 || Masks(h, v).0[t][c][b] == 1.0) &&
      Masks(h, v).0[t][c][b] + Masks(h, v).1[t][c][b] == 1.0
  {
    var r := Masks(h, v);
    forall t, c, b | 0 <= t < |h| && 0 <= c < |h[0]| && 0 <= b < |h[0][0]|
      ensures (r.0[t][c][b] == 0.0 || r.0[t][c][b] == 1.0) && r.0[t][c][b] + r.1[t][c][b] == 1.0
    {
      if h[t][c][b] >= v[t][c][b] {
        assert r.0[t][c][b] == 1.0 && r.1[t][c][b] == 0.0;
      } else {
        assert r.0[t][c][b] == 0.0 && r.1[t][c][b] == 1.0;
      }
    }
  }

  /** The innermost loop of `binary_mask`: writes one channel's bins of both masks. */
  method MaskBins(hr: seq<real>, vr: seq<real>, b: nat) returns (rh: seq<real>, rv: seq<real>)
    requires |hr| >= b && |vr| >= b
    ensures rh == MaskRow(hr, vr, b, true) && rv == MaskRow(hr, vr, b, false)
  {
    rh := Zeros(b);
    rv := Zeros(b);
    for i := 0 to b
      invariant |rh| == b && |rv| == b
      invariant forall j :: 0 <= j < i ==> rh[j] == Choose(hr[j], vr[j], true) && rv[j] == Choose(hr[j], vr[j], false)
    {
      var chooseH := hr[i] >= vr[i];
      rh := rh[i := if chooseH then 1.0 else 0.0];
      rv := rv[i := if chooseH then 0.0 else 1.0];
    }
  }

  /** The channel loop of `binary_mask` for one timestamp. */
  method MaskChannels(hp: seq<seq<real>>, vp: seq<seq<real>>, c: nat, b: nat) returns (rh: seq<seq<real>>, rv: seq<seq<real>>)
    requires |hp| >= c && |vp| >= c && forall j :: 0 <= j < c ==> |hp[j]| >= b && |vp[j]| >= b
    ensures rh == MaskPlane(hp, vp, c, b, true) && rv == MaskPlane(hp, vp, c, b, false)
  {
    rh := seq(c, _ => Zeros(b));
    rv := seq(c, _ => Zeros(b));
    for j := 0 to c
      invariant |rh| == c && |rv| == c
      invariant forall i :: 0 <= i < j ==> rh[i] == MaskRow(hp[i], vp[i], b, true) && rv[i] == MaskRow(hp[i], vp[i], b, false)
    {
      var rowH, rowV := MaskBins(hp[j], vp[j], b);
      rh := rh[j := rowH];
      rv := rv[j := rowV];
    }
  }

  /**
   * `binary_mask`: allocates two zero masks of the harmonic input's
   * dimensions and fills them timestamp by timestamp.
   */
  method BinaryMask(h: Norms, v: Norms) returns (mh: Norms, mv: Norms)
    requires MaskInputs(h, v)
    ensures (mh, mv) == Masks(h, v)
  {
    var numTimestamps := |h|;
    var numChannels := |h[0]|;
    var numBins := |h[0][0]|;
    mh := seq(numTimestamps, _ => seq(numChannels, _ => Zeros(numBins)));
    mv := seq(numTimestamps, _ => seq(numChannels, _ => Zeros(numBins)));
    for t := 0 to numTimestamps
      invariant |mh| == numTimestamps && |mv| == numTimestamps
      invariant forall i :: 0 <= i < t ==>
        mh[i] == MaskPlane(h[i], v[i], numChannels, numBins, true) &&
        mv[i] == MaskPlane(h[i], v[i], numChannels, numBins, false)
    {
      var planeH, planeV := MaskChannels(h[t], v[t], numChannels, numBins);
      mh := mh[t := planeH];
      mv := mv[t := planeV];
    }
    assert mh == MaskCube(h, v, numTimestamps, numChannels, numBins, true);
    assert mv == MaskCube(h, v, numTimestamps, numChannels, numBins, false);
  }

  /** `Complex *= f64`: scales both parts. */
  function ScaleBin(z: Complex, m: real): Complex
  {
    Complex(z.re * m, z.im * m)
  }

  function AddBins(x: Complex, y: Complex): Complex
  {
    Complex(x.re + y.re, x.im + y.im)
  }

  /** Every index below (t, c, b) exists in the frames' channels. */
  predicate FramesSpan(stft: seq<FftResult>, t: nat, c: nat, b: nat)
  {
    |stft| >= t && forall i :: 0 <= i < t ==> |stft[i].channels| >= c && forall j :: 0 <= j < c ==> |stft[i].channels[j]| >= b
  }

  function MaskedRow(row: seq<Complex>, m: seq<real>, b: nat): (r: seq<Complex>)
    requires |row| >= b && |m| >= b
    ensures |r| == |row|
  {
    seq(|row|, i requires 0 <= i < |row| => if i < b then ScaleBin(row[i], m[i]) else row[i])
  }

  function MaskedFrame(f: FftResult, m: seq<seq<real>>, c: nat, b: nat): (r: FftResult)
    requires |f.channels| >= c && |m| >= c && forall j :: 0 <= j < c ==> |f.channels[j]| >= b && |m[j]| >= b
    ensures |r.channels| == |f.channels| && r.sampleRate == f.sampleRate && r.numSamples == f.numSamples
  {
    f.(channels := seq(|f.channels|, j requires 0 <= j < |f.channels| =>
      if j < c then MaskedRow(f.channels[j], m[j], b) else f.channels[j]))
  }

  /**
   * The STFT after the masking loop of `separate_harmonic_percussion`:
   * every bin below the mask's dimensions multiplied by its mask entry,
   * everything else as it was.
   */
  function Masked(stft: seq<FftResult>, m: Norms, t: nat, c: nat, b: nat): (r: seq<FftResult>)
    requires FramesSpan(stft, t, c, b) && Spans(m, t, c, b)
    ensures |r| == |stft|
    ensures forall i, j, k :: 0 <= i < |stft| && 0 <= j < |stft[i].channels| && 0 <= k < |stft[i].channels[j]| ==>
      |r[i].channels| == |stft[i].channels| && |r[i].channels[j]| == |stft[i].channels[j]| &&
      r[i].channels[j][k] == if i < t && j < c && k < b then ScaleBin(stft[i].channels[j][k], m[i][j][k]) else stft[i].channels[j][k]
  {
    seq(|stft|, i requires 0 <= i < |stft| => if i < t then MaskedFrame(stft[i], m[i], c, b) else stft[i])
  }

  /**
   * Masking with the two complementary masks splits the STFT: within the
   * masks' dimensions (in the program, those of the STFT itself) the
   * harmonic and percussive parts add back up to the original, bin by bin,
   * and each bin goes wholly to one of them.
   */
  lemma MasksReassemble(stft: seq<FftResult>, h: Norms, v: Norms)
    requires MaskInputs(h, v) && FramesSpan(stft, |h|, |h[0]|, |h[0][0]|)
    ensures var (mh, mv) := Masks(h, v);
      var sh := Masked(stft, mh, |h|, |h[0]|, |h[0][0]|);
      var sv := Masked(stft, mv, |h|, |h[0]|, |h[0][0]|);
      |sh| == |stft| && |sv| == |stft| &&
      forall i, j, k :: 0 <= i < |h| && 0 <= j < |h[0]| && 0 <= k < |h[0][0]| ==>
        AddBins(sh[i].channels[j][k], sv[i].channels[j][k]) == stft[i].channels[j][k] &&
        (sh[i].channels[j][k] == stft[i].channels[j][k] || sv[i].channels[j][k] == stft[i].channels[j][k])
  {
    var (mh, mv) := Masks(h, v);
    var t, c, b := |h|, |h[0]|, |h[0][0]|;
    var sh := Masked(stft, mh, t, c, b);
    var sv := Masked(stft, mv, t, c, b);
    MasksComplementary(h, v);
    forall i, j, k | 0 <= i < t && 0 <= j < c && 0 <= k < b
      ensures AddBins(sh[i].channels[j][k], sv[i].channels[j][k]) == stft[i].channels[j][k]
      ensures sh[i].channels[j][k] == stft[i].channels[j][k] || sv[i].channels[j][k] == stft[i].channels[j][k]
    {
      var z := stft[i].channels[j][k];
      var zero := Complex(0.0, 0.0);
      if mh[i][j][k] == 1.0 {
        assert mv[i][j][k] == 0.0;
        assert sh[i].channels[j][k] == ScaleBin(z, 1.0) == z;
        assert sv[i].channels[j][k] == ScaleBin(z, 0.0) == zero;
        assert AddBins(z, zero) == z;
      } else {
        assert mh[i][j][k] == 0.0 && mv[i][j][k] == 1.0;
        assert sh[i].channels[j][k] == ScaleBin(z, 0.0) == zero;
        assert sv[i].channels[j][k] == ScaleBin(z, 1.0) == z;
        assert AddBins(zero, z) == z;
      }
    }
  }

  /** The innermost masking loop: scales one channel's first b bins in place. */
  method MaskRowInPlace(row: seq<Complex>, m: seq<real>, b: nat) returns (r: seq<Complex>)
    requires |row| >= b && |m| >= b
    ensures r == MaskedRow(row, m, b)
  {
    r := row;
    for k := 0 to b
      invariant |r| == |row|
      invariant forall i :: 0 <= i < |row| ==> r[i] == if i < k then ScaleBin(row[i], m[i]) else row[i]
    {
      r := r[k := ScaleBin(r[k], m[k])];
    }
  }

  /** The channel loop of the masking step for one frame. */
  method MaskFrameInPlace(f: FftResult, m: seq<seq<real>>, c: nat, b: nat) returns (r: FftResult)
    requires |f.channels| >= c && |m| >= c && forall j :: 0 <= j < c ==> |f.channels[j]| >= b && |m[j]| >= b
    ensures r == MaskedFrame(f, m, c, b)
  {
    var channels := f.channels;
    for j := 0 to c
      invariant |channels| == |f.channels|
      invariant forall i :: 0 <= i < |f.channels| ==> channels[i] == if i < j then MaskedRow(f.channels[i], m[i], b) else f.channels[i]
    {
      var row := MaskRowInPlace(channels[j], m[j], b);
      channels := channels[j := row];
    }
    r := f.(channels := channels);
  }

  /**
   * The masking loop of `separate_harmonic_percussion` for one mask: the
   * loop bounds are the mask's dimensions, read off its first timestamp
   * and first channel.
   */
  method ApplyMask(stft: seq<FftResult>, m: Norms) returns (r: seq<FftResult>)
    requires |m| > 0 && |m[0]| > 0 && Spans(m, |m|, |m[0]|, |m[0][0]|)
    requires FramesSpan(stft, |m|, |m[0]|, |m[0][0]|)
    ensures r == Masked(stft, m, |m|, |m[0]|, |m[0][0]|)
  {
    var numTimestamps, numChannels, numBins := |m|, |m[0]|, |m[0][0]|;
    r := stft;
    for t := 0 to numTimestamps
      invariant |r| == |stft|
      invariant forall i :: 0 <= i < |stft| ==> r[i] == if i < t then MaskedFrame(stft[i], m[i], numChannels, numBins) else stft[i]
    {
      var frame := MaskFrameInPlace(r[t], m[t], numChannels, numBins);
      r := r[t := frame];
    }
  }

  /**
   * Steps 4 and 5 of `separate_harmonic_percussion`: the binary masks of
   * the two filtered norms applied to clones of the STFT.
   */
  method SplitStft(stft: seq<FftResult>, filtH: Norms, filtV: Norms) returns (stftH: seq<FftResult>, stftV: seq<FftResult>)
    requires MaskInputs(filtH, filtV) && FramesSpan(stft, |filtH|, |filtH[0]|, |filtH[0][0]|)
    ensures stftH == Masked(stft, Masks(filtH, filtV).0, |filtH|, |filtH[0]|, |filtH[0][0]|)
    ensures stftV == Masked(stft, Masks(filtH, filtV).1, |filtH|, |filtH[0]|, |filtH[0][0]|)
  {
    var maskH, maskV := BinaryMask(filtH, filtV);
    assert |maskH[0]| == |filtH[0]| && |maskH[0][0]| == |filtH[0][0]|;
    stftH := ApplyMask(stft, maskH);
    stftV := ApplyMask(stft, maskV);
  }

  /**
   * What the overlap-add of `inverse_stft` needs of its frames (already
   * inverse-transformed and windowed): at least one frame, a positive hop,
   * and in every frame the first frame's channel count and enough samples
   * for the part of it that lands before the end of the output, which is
   * hop * (number of frames) samples long.
   */
  predicate OverlapInputs(clips: seq<Clip>, hop: nat)
  {
    hop > 0 && |clips| > 0 &&
    forall k :: 0 <= k < |clips| ==>
      |clips[k].channels| >= clips[0].numChannels &&
      forall ch :: 0 <= ch < clips[0].numChannels ==>
        |clips[k].channels[ch]| >= Min(k * hop + clips[0].numSamples, hop * |clips|) - k * hop
  }

  /** What frame k adds to sample s of channel ch: its sample s - k * hop when that lies inside the frame. */
  function Contribution(clips: seq<Clip>, hop: nat, ch: nat, s: nat, k: nat): real
    requires OverlapInputs(clips, hop) && k < |clips| && ch < clips[0].numChannels && s < hop * |clips|
  {
    var start := k * hop;
    if start <= s < start + clips[0].numSamples then clips[k].channels[ch][s - start] else 0.0
  }

  /** The sum of the contributions of the first `count` frames. */
  function OverlapSum(clips: seq<Clip>, hop: nat, ch: nat, s: nat, count: nat): real
    requires OverlapInputs(clips, hop) && count <= |clips| && ch < clips[0].numChannels && s < hop * |clips|
  {
    if count == 0 then 0.0 else OverlapSum(clips, hop, ch, s, count - 1) + Contribution(clips, hop, ch, s, count - 1)
  }

  /**
   * The clip `inverse_stft` returns: hop * (number of frames) samples in
   * the first frame's channel count and sample rate, sample s of channel ch
   * the sum over all frames of their contributions. It starts as a silent
   * `new_monoamplitude` clip, so its file name is empty and its maximum
   * amplitude stays 0.
   */
  function OverlapAdd(clips: seq<Clip>, hop: nat): (r: Clip)
    requires OverlapInputs(clips, hop)
    ensures WellShaped(r) && r.numSamples == hop * |clips| && r.numChannels == clips[0].numChannels
    ensures r.sampleRate == clips[0].sampleRate && r.maxAmplitude == 0.0 && r.fileName == ""
  {
    var n := hop * |clips|;
    var c := clips[0].numChannels;
    Clip(seq(c, ch requires 0 <= ch < c => seq(n, s requires 0 <= s < n => OverlapSum(clips, hop, ch, s, |clips|))),
         "", clips[0].sampleRate, 0.0, c, n)
  }

  /** The innermost loop of the overlap-add: one frame channel added into samples start..end. */
  method AddFrameChannel(acc: Channel, frame: Channel, start: nat, end: nat) returns (r: Channel)
    requires start <= end <= |acc| && end - start <= |frame|
    ensures |r| == |acc|
    ensures forall s :: 0 <= s < |acc| ==> r[s] == if start <= s < end then acc[s] + frame[s - start] else acc[s]
  {
    r := acc;
    for s := start to end
      invariant |r| == |acc|
      invariant forall i :: 0 <= i < |acc| ==> r[i] == if start <= i < s then acc[i] + frame[i - start] else acc[i]
    {
      r := r[s := r[s] + frame[s - start]];
    }
  }

  /** The channel loop of the overlap-add for one frame. */
  method AddFrame(acc: seq<Channel>, frame: Clip, start: nat, end: nat, numChannels: nat) returns (r: seq<Channel>)
    requires numChannels <= |acc| && numChannels <= |frame.channels|
    requires forall ch :: 0 <= ch < numChannels ==> end <= |acc[ch]| && end - start <= |frame.channels[ch]|
    requires start <= end
    ensures |r| == |acc|
    ensures forall ch :: 0 <= ch < |acc| ==> |r[ch]| == |acc[ch]|
    ensures forall ch, s :: 0 <= ch < numChannels && 0 <= s < |acc[ch]| ==>
      r[ch][s] == if start <= s < end then acc[ch][s] + frame.channels[ch][s - start] else acc[ch][s]
    ensures forall ch :: numChannels <= ch < |acc| ==> r[ch] == acc[ch]
  {
    r := acc;
    for ch := 0 to numChannels
      invariant |r| == |acc|
      invariant forall i :: 0 <= i < |acc| ==> |r[i]| == |acc[i]|
      invariant forall i, s :: 0 <= i < ch && 0 <= s < |acc[i]| ==>
        r[i][s] == if start <= s < end then acc[i][s] + frame.channels[i][s - start] else acc[i][s]
      invariant forall i :: ch <= i < |acc| ==> r[i] == acc[i]
    {
      var row := AddFrameChannel(r[ch], frame.channels[ch], start, end);
      r := r[ch := row];
    }
  }

  /** Frame k covers the output from k * hop up to the next window end or the output's end. */
  lemma FrameFits(clips: seq<Clip>, hop: nat, k: nat)
    requires OverlapInputs(clips, hop) && k < |clips|
    ensures k * hop <= Min(k * hop + clips[0].numSamples, hop * |clips|)
    ensures clips[0].numChannels <= |clips[k].channels|
    ensures forall ch :: 0 <= ch < clips[0].numChannels ==>
      Min(k * hop + clips[0].numSamples, hop * |clips|) - k * hop <= |clips[k].channels[ch]|
  {
    MulMono(k + 1, |clips|, hop);
  }

  /** Adding frame k's window into the sums of the first k frames gives the sums of the first k + 1. */
  lemma OverlapStep(clips: seq<Clip>, hop: nat, k: nat, before: seq<Channel>, after: seq<Channel>)
    requires OverlapInputs(clips, hop) && k < |clips|
    requires |before| == clips[0].numChannels && |after| == clips[0].numChannels
    requires forall ch :: 0 <= ch < clips[0].numChannels ==> |before[ch]| == hop * |clips| && |after[ch]| == hop * |clips|
    requires forall ch, s :: 0 <= ch < clips[0].numChannels && 0 <= s < hop * |clips| ==>
      before[ch][s] == OverlapSum(clips, hop, ch, s, k)
    requires forall ch, s :: 0 <= ch < clips[0].numChannels && 0 <= s < hop * |clips| ==>
      after[ch][s] == if k * hop <= s < Min(k * hop + clips[0].numSamples, hop * |clips|)
        then before[ch][s] + clips[k].channels[ch][s - k * hop] else before[ch][s]
    ensures forall ch, s :: 0 <= ch < clips[0].numChannels && 0 <= s < hop * |clips| ==>
      after[ch][s] == OverlapSum(clips, hop, ch, s, k + 1)
  {
  }

  /**
   * `inverse_stft`'s overlap-add, given the frames after the inverse
   * transform and the windowing: frame k, starting at k * hop, is added
   * into a silent clip of hop * (number of frames) samples, and its
   * samples past that end are dropped.
   */
  method InverseStft(clips: seq<Clip>, hop: nat) returns (r: Clip)
    requires OverlapInputs(clips, hop)
    ensures r == OverlapAdd(clips, hop)
  {
    var first := clips[0];
    var windowSize := first.numSamples;
    var numSamples := hop * |clips|;
    var finalClip := NewMonoamplitude(first.sampleRate, numSamples, 0.0, first.numChannels);
    var channels := finalClip.channels;
    var k := 0;
    var start := 0;
    while k < |clips|
      invariant k <= |clips| && start == k * hop
      invariant |channels| == first.numChannels
      invariant forall ch :: 0 <= ch < first.numChannels ==> |channels[ch]| == numSamples
      invariant forall ch, s :: 0 <= ch < first.numChannels && 0 <= s < numSamples ==>
        channels[ch][s] == OverlapSum(clips, hop, ch, s, k)
    {
      FrameFits(clips, hop, k);
      var end := Min(start + windowSize, numSamples);
      ghost var before := channels;
      channels := AddFrame(channels, clips[k], start, end, first.numChannels);
      OverlapStep(clips, hop, k, before, channels);
      MulSucc(k, hop);
      k := k + 1;
      start := start + hop;
    }
    r := finalClip.(channels := channels);
    OverlapAddFrom(clips, hop, channels);
  }

  /** Channels holding the complete overlap sums are those of `OverlapAdd`. */
  lemma OverlapAddFrom(clips: seq<Clip>, hop: nat, channels: seq<Channel>)
    requires OverlapInputs(clips, hop)
    requires |channels| == clips[0].numChannels
    requires forall ch :: 0 <= ch < clips[0].numChannels ==> |channels[ch]| == hop * |clips|
    requires forall ch, s :: 0 <= ch < clips[0].numChannels && 0 <= s < hop * |clips| ==>
      channels[ch][s] == OverlapSum(clips, hop, ch, s, |clips|)
    ensures OverlapAdd(clips, hop).channels == channels
  {
    var expected := OverlapAdd(clips, hop);
    forall ch | 0 <= ch < clips[0].numChannels ensures expected.channels[ch] == channels[ch] {
      assert |expected.channels[ch]| == |channels[ch]|;
    }
  }

  /** With s == q * hop + rem and rem < hop, sample s lies in block k of length hop exactly when k is q. */
  lemma BlockOf(s: nat, hop: nat, q: nat, rem: nat, k: nat)
    requires s == q * hop + rem && rem < hop
    ensures k * hop <= s < k * hop + hop <==> k == q
  {
    if k < q {
      MulMono(k + 1, q, hop);
    } else if k > q {
      MulMono(q + 1, k, hop);
    }
  }

  /**
   * Without overlap (frames exactly `hop` long) sample s == q * hop + rem
   * receives the contribution of frame q alone, its sample rem.
   */
  lemma {:induction false} NoOverlapSum(clips: seq<Clip>, hop: nat, ch: nat, s: nat, q: nat, rem: nat, count: nat)
    requires OverlapInputs(clips, hop) && clips[0].numSamples == hop
    requires count <= |clips| && ch < clips[0].numChannels && s < hop * |clips|
    requires s == q * hop + rem && rem < hop
    ensures q < count ==> rem < |clips[q].channels[ch]|
    ensures OverlapSum(clips, hop, ch, s, count) == if q < count then clips[q].channels[ch][rem] else 0.0
  {
    if count > 0 {
      var k := count - 1;
      NoOverlapSum(clips, hop, ch, s, q, rem, k);
      BlockOf(s, hop, q, rem, k);
      if k == q {
        FrameFits(clips, hop, k);
        assert Contribution(clips, hop, ch, s, k) == clips[k].channels[ch][rem];
      } else {
        assert Contribution(clips, hop, ch, s, k) == 0.0;
      }
    }
  }

  lemma DivMod(s: nat, hop: nat)
    requires hop > 0
    ensures s == (s / hop) * hop + s % hop && s % hop < hop
  {
  }

  /** hop * CeilDiv(n, hop) is n rounded up to a multiple of hop. */
  lemma RoundedUp(n: nat, hop: nat)
    requires hop > 0
    ensures n <= hop * CeilDiv(n, hop) < n + hop
  {
    var q := CeilDiv(n, hop);
    CeilDivBounds(n, hop);
    if q > 0 {
      MulSucc(q - 1, hop);
    }
  }

  lemma QuotientBelow(s: nat, hop: nat, q: nat, rem: nat, count: nat)
    requires s == q * hop + rem && s < hop * count
    ensures q < count
  {
    if q >= count {
      MulMono(count, q, hop);
    }
  }

  /**
   * When frame q is the clip's window from q * hop, sample q * hop + rem of
   * the overlap-add is the clip's own sample (or 0 past its end).
   */
  lemma WindowsOverlapAdd(c: Clip, hop: nat, clips: seq<Clip>, ch: nat, s: nat, q: nat, rem: nat)
    requires WellShaped(c) && OverlapInputs(clips, hop) && clips[0].numSamples == hop
    requires ch < c.numChannels == clips[0].numChannels && s < hop * |clips|
    requires s == q * hop + rem && rem < hop && q < |clips|
    requires q * hop < c.numSamples && SameSamples(clips[q], Window(c, q * hop, q * hop + hop))
    ensures OverlapAdd(clips, hop).channels[ch][s] == SampleOrZero(c.channels[ch], s)
  {
    NoOverlapSum(clips, hop, ch, s, q, rem, |clips|);
    var start := q * hop;
    assert clips[q].channels[ch] == WindowChannel(c.channels[ch], start, start + hop);
    assert clips[q].channels[ch][rem] == SampleOrZero(c.channels[ch], s);
  }

  /**
   * Two clips with the same samples: channels, channel count and sample
   * count agree. The file name, the rate and the recorded maximum may differ,
   * as they do after `ifft_to_audio_clip`.
   */
  predicate SameSamples(a: Clip, b: Clip)
  {
    a.channels == b.channels && a.numChannels == b.numChannels && a.numSamples == b.numSamples
  }

  /** Frames that are the clip's consecutive hop-long windows overlap-add back to the clip's samples. */
  lemma WindowsRoundTrip(c: Clip, hop: nat, clips: seq<Clip>)
    requires WellShaped(c) && OverlapInputs(clips, hop) && clips[0].numSamples == hop
    requires c.numChannels == clips[0].numChannels
    requires forall k :: 0 <= k < |clips| ==> k * hop < c.numSamples && SameSamples(clips[k], Window(c, k * hop, k * hop + hop))
    ensures forall ch, s :: 0 <= ch < c.numChannels && 0 <= s < hop * |clips| ==>
      OverlapAdd(clips, hop).channels[ch][s] == SampleOrZero(c.channels[ch], s)
  {
    forall ch, s | 0 <= ch < c.numChannels && 0 <= s < hop * |clips|
      ensures OverlapAdd(clips, hop).channels[ch][s] == SampleOrZero(c.channels[ch], s)
    {
      var q, rem := Blocks(s, hop, |clips|);
      WindowsOverlapAdd(c, hop, clips, ch, s, q, rem);
    }
  }

  /** A sample below hop * count lies in block q < count, at offset rem. */
  lemma Blocks(s: nat, hop: nat, count: nat) returns (q: nat, rem: nat)
    requires hop > 0 && s < hop * count
    ensures s == q * hop + rem && rem < hop && q < count
  {
    q, rem := s / hop, s % hop;
    DivMod(s, hop);
    QuotientBelow(s, hop, q, rem, count);
  }

  /**
   * The STFT and its inverse without overlap (window size equal to the hop,
   * as the program's own inverse test sets them up), with a transform pair
   * that inverts exactly: the result has the clip's channels, is the clip
   * zero-padded to the next multiple of the hop, and every sample is the
   * clip's own.
   */
  lemma StftInverseRoundTrip<F>(c: Clip, hop: nat, fft: Clip -> F, ifft: F -> Clip)
    requires hop > 0 && WellShaped(c) && c.numSamples > 0
    requires forall w :: SameSamples(ifft(fft(w)), w)
    ensures var frames := StftFrames(c, hop, hop, fft);
      var clips := seq(|frames|, k requires 0 <= k < |frames| => ifft(frames[k]));
      OverlapInputs(clips, hop) &&
      OverlapAdd(clips, hop).numChannels == c.numChannels &&
      c.numSamples <= OverlapAdd(clips, hop).numSamples < c.numSamples + hop &&
      forall ch, s :: 0 <= ch < c.numChannels && 0 <= s < OverlapAdd(clips, hop).numSamples ==>
        OverlapAdd(clips, hop).channels[ch][s] == SampleOrZero(c.channels[ch], s)
  {
    var frames := StftFrames(c, hop, hop, fft);
    var clips := seq(|frames|, k requires 0 <= k < |frames| => ifft(frames[k]));
    RoundedUp(c.numSamples, hop);
    InverseFramesAreWindows(c, hop, fft, ifft, frames, clips);
    WindowsOverlap(c, hop, clips);
    WindowsRoundTrip(c, hop, clips);
  }

  /** Inverting every frame of a hop-long STFT with an exact inverse gives the clip's consecutive windows. */
  lemma InverseFramesAreWindows<F>(c: Clip, hop: nat, fft: Clip -> F, ifft: F -> Clip, frames: seq<F>, clips: seq<Clip>)
    requires hop > 0 && WellShaped(c) && c.numSamples > 0
    requires forall w :: SameSamples(ifft(fft(w)), w)
    requires frames == StftFrames(c, hop, hop, fft)
    requires |clips| == |frames| && forall k :: 0 <= k < |frames| ==> clips[k] == ifft(frames[k])
    ensures |clips| > 0 && clips[0].numSamples == hop && clips[0].numChannels == c.numChannels
    ensures forall k :: 0 <= k < |clips| ==> k * hop < c.numSamples && SameSamples(clips[k], Window(c, k * hop, k * hop + hop))
  {
    assert |frames| > 0 by {
      StftFramesFacts(c, hop, hop, fft);
      assert 0 * hop < c.numSamples;
    }
    forall k | 0 <= k < |frames| ensures k * hop < c.numSamples && SameSamples(clips[k], Window(c, k * hop, k * hop + hop)) {
      InverseFrameIsWindow(c, hop, fft, ifft, frames, k);
    }
  }

  /** Inverting frame k of a hop-long STFT with an exact inverse gives the window at k * hop. */
  lemma InverseFrameIsWindow<F>(c: Clip, hop: nat, fft: Clip -> F, ifft: F -> Clip, frames: seq<F>, k: nat)
    requires hop > 0 && WellShaped(c)
    requires forall w :: SameSamples(ifft(fft(w)), w)
    requires frames == StftFrames(c, hop, hop, fft) && k < |frames|
    ensures k * hop < c.numSamples && SameSamples(ifft(frames[k]), Window(c, k * hop, k * hop + hop))
  {
    StftFramesFacts(c, hop, hop, fft);
    assert frames[k] == fft(Window(c, k * hop, k * hop + hop));
  }

  /** Consecutive hop-long windows of a clip are long enough for the overlap-add. */
  lemma WindowsOverlap(c: Clip, hop: nat, clips: seq<Clip>)
    requires hop > 0 && WellShaped(c) && |clips| > 0
    requires forall k :: 0 <= k < |clips| ==> k * hop < c.numSamples && SameSamples(clips[k], Window(c, k * hop, k * hop + hop))
    ensures OverlapInputs(clips, hop)
  {
    forall k | 0 <= k < |clips|
      ensures |clips[k].channels| >= clips[0].numChannels
      ensures forall ch :: 0 <= ch < clips[0].numChannels ==>
        |clips[k].channels[ch]| >= Min(k * hop + clips[0].numSamples, hop * |clips|) - k * hop
    {
      assert clips[k].numSamples == hop && clips[0].numSamples == hop;
      assert WellShaped(clips[k]) && clips[k].numChannels == clips[0].numChannels;
      WindowCovers(clips[k], hop, k, |clips|);
    }
  }

  /** A well-shaped window k of `hop` samples covers its part of the first `count` hops. */
  lemma WindowCovers(w: Clip, hop: nat, k: nat, count: nat)
    requires WellShaped(w) && w.numSamples == hop
    ensures forall ch :: 0 <= ch < w.numChannels ==> |w.channels[ch]| >= Min(k * hop + hop, hop * count) - k * hop
  {
    var start, total := k * hop, hop * count;
    assert Min(start + hop, total) - start <= hop;
  }

  /** x and y have the same timestamp, channel and bin counts everywhere. */
  predicate SameShape(x: Norms, y: Norms)
  {
    |x| == |y| && forall t :: 0 <= t < |x| ==> |x[t]| == |y[t]| && forall c :: 0 <= c < |x[t]| ==> |x[t][c]| == |y[t][c]|
  }

  /**
   * What `medfilt_h` needs: a first timestamp with a first channel (the
   * dimensions are read off them), every index below those dimensions in
   * the norms, and filtered series indexed channel, bin, timestamp.
   */
  predicate ReassemblyInputs(norms: Norms, filtered: Norms)
  {
    |norms| > 0 && |norms[0]| > 0 && Spans(norms, |norms|, |norms[0]|, |norms[0][0]|)
    && Spans(filtered, |norms[0]|, |norms[0][0]|, |norms|)
  }

  /** The time series of one channel and bin, as `medfilt_h` collects it before filtering. */
  function Columns(norms: Norms): (r: Norms)
    requires |norms| > 0 && |norms[0]| > 0 && Spans(norms, |norms|, |norms[0]|, |norms[0][0]|)
    ensures Spans(r, |norms[0]|, |norms[0][0]|, |norms|)
  {
    var numChannels, numBins := |norms[0]|, |norms[0][0]|;
    seq(numChannels, c requires 0 <= c < numChannels =>
      seq(numBins, b requires 0 <= b < numBins =>
        seq(|norms|, t requires 0 <= t < |norms| => norms[t][c][b])))
  }

  /**
   * The result of `medfilt_h`'s reassembly: a copy of the norms with entry
   * (t, c, b) replaced by filtered[c][b][t] for every channel and bin below
   * the first timestamp's dimensions.
   */
  function Reassembled(norms: Norms, filtered: Norms): (r: Norms)
    requires ReassemblyInputs(norms, filtered)
    ensures SameShape(r, norms)
    ensures forall t, c, b :: 0 <= t < |norms| && 0 <= c < |norms[0]| && 0 <= b < |norms[0][0]| ==>
      r[t][c][b] == filtered[c][b][t]
    ensures forall t, c, b ::
      (0 <= t < |norms| && 0 <= c < |norms[t]| && 0 <= b < |norms[t][c]| && (c >= |norms[0]| || b >= |norms[0][0]|)) ==>
        r[t][c][b] == norms[t][c][b]
  {
    var numChannels, numBins := |norms[0]|, |norms[0][0]|;
    seq(|norms|, t requires 0 <= t < |norms| =>
      seq(|norms[t]|, c requires 0 <= c < |norms[t]| =>
        seq(|norms[t][c]|, b requires 0 <= b < |norms[t][c]| =>
          if c < numChannels && b < numBins then filtered[c][b][t] else norms[t][c][b])))
  }

  /**
   * Reassembling the collected time series without filtering them gives
   * the norms back: the reassembly is the inverse of the collection.
   */
  lemma ReassembleColumns(norms: Norms)
    requires |norms| > 0 && |norms[0]| > 0 && Spans(norms, |norms|, |norms[0]|, |norms[0][0]|)
    ensures Reassembled(norms, Columns(norms)) == norms
  {
    var r := Reassembled(norms, Columns(norms));
    forall t | 0 <= t < |norms| ensures r[t] == norms[t] {
      forall c | 0 <= c < |norms[t]| ensures r[t][c] == norms[t][c] {
        assert |r[t][c]| == |norms[t][c]|;
      }
      assert |r[t]| == |norms[t]|;
    }
  }

  /**
   * The reassembly state after the loops have written every (c, b) before
   * (c0, b0) in channel-major order.
   */
  predicate ReassembledUpTo(fin: Norms, norms: Norms, filtered: Norms, c0: nat, b0: nat)
    requires ReassemblyInputs(norms, filtered)
  {
    SameShape(fin, norms) &&
    forall t, c, b {:trigger fin[t][c][b]} :: 0 <= t < |fin| && 0 <= c < |fin[t]| && 0 <= b < |fin[t][c]| ==>
      fin[t][c][b] == if c < |norms[0]| && b < |norms[0][0]| && (c < c0 || (c == c0 && b < b0))
        then filtered[c][b][t] else norms[t][c][b]
  }

  /** The innermost reassembly loop: writes one channel and bin across all timestamps. */
  method WriteColumn(fin: Norms, column: seq<real>, c: nat, b: nat) returns (r: Norms)
    requires |column| >= |fin| && forall t :: 0 <= t < |fin| ==> c < |fin[t]| && b < |fin[t][c]|
    ensures SameShape(r, fin)
    ensures forall t, c', b' :: 0 <= t < |r| && 0 <= c' < |r[t]| && 0 <= b' < |r[t][c']| ==>
      r[t][c'][b'] == if c' == c && b' == b then column[t] else fin[t][c'][b']
  {
    r := fin;
    for t := 0 to |fin|
      invariant SameShape(r, fin)
      invariant forall i, c', b' :: 0 <= i < |r| && 0 <= c' < |r[i]| && 0 <= b' < |r[i][c']| ==>
        r[i][c'][b'] == if i < t && c' == c && b' == b then column[i] else fin[i][c'][b']
    {
      r := r[t := r[t][c := r[t][c][b := column[t]]]];
    }
  }

  /**
   * The reassembly at the end of `medfilt_h`: a clone of the norms
   * overwritten, channel by channel and bin by bin, with the filtered time
   * series.
   */
  method ReassembleH(norms: Norms, filtered: Norms) returns (fin: Norms)
    requires ReassemblyInputs(norms, filtered)
    ensures fin == Reassembled(norms, filtered)
  {
    var numTimestamps, numChannels, numBins := |norms|, |norms[0]|, |norms[0][0]|;
    fin := norms;
    for c := 0 to numChannels
      invariant ReassembledUpTo(fin, norms, filtered, c, 0)
    {
      for b := 0 to numBins
        invariant ReassembledUpTo(fin, norms, filtered, c, b)
      {
        fin := WriteColumn(fin, filtered[c][b], c, b);
      }
      NextChannel(fin, norms, filtered, c);
    }
    ReassembledFrom(fin, norms, filtered);
  }

  lemma ReassembledFrom(fin: Norms, norms: Norms, filtered: Norms)
    requires ReassemblyInputs(norms, filtered)
    requires ReassembledUpTo(fin, norms, filtered, |norms[0]|, 0)
    ensures fin == Reassembled(norms, filtered)
  {
    var r := Reassembled(norms, filtered);
    forall t | 0 <= t < |norms| ensures fin[t] == r[t] {
      forall c | 0 <= c < |norms[t]| ensures fin[t][c] == r[t][c] {
        assert |fin[t][c]| == |r[t][c]|;
        forall b | 0 <= b < |r[t][c]| ensures fin[t][c][b] == r[t][c][b] {
          if c < |norms[0]| && b < |norms[0][0]| {
            assert fin[t][c][b] == filtered[c][b][t];
          } else {
            assert fin[t][c][b] == norms[t][c][b];
          }
        }
      }
      assert |fin[t]| == |r[t]|;
    }
  }

  /** Finishing every bin of channel c is reaching the start of channel c + 1. */
  lemma NextChannel(fin: Norms, norms: Norms, filtered: Norms, c: nat)
    requires ReassemblyInputs(norms, filtered)
    requires ReassembledUpTo(fin, norms, filtered, c, |norms[0][0]|)
    ensures ReassembledUpTo(fin, norms, filtered, c + 1, 0)
  {
    var numChannels, numBins := |norms[0]|, |norms[0][0]|;
    var c1: nat, b1: nat := c + 1, 0;
    forall t, c', b | 0 <= t < |fin| && 0 <= c' < |fin[t]| && 0 <= b < |fin[t][c']|
      ensures fin[t][c'][b] == if c' < numChannels && b < numBins && (c' < c1 || (c' == c1 && b < b1))
        then filtered[c'][b][t] else norms[t][c'][b]
    {
      assert fin[t][c'][b] == if c' < numChannels && b < numBins && (c' < c || (c' == c && b < numBins))
        then filtered[c'][b][t] else norms[t][c'][b];
    }
  }
}
