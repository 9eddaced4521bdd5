/**
 * The audio clip of the audio approximation: one sequence of samples per
 * channel plus the sample rate, the largest amplitude and the channel and
 * sample counts. Samples are real numbers; floating-point rounding, the
 * clip's duration and all file I/O are outside this model.
 */
module AudioClips {
  type Sample = real
  type Channel = seq<Sample>

  /** `f64::EPSILON`, the tolerance the program allows between two sample rates. */
  const F64Epsilon: real := 0.0000000000000002220446049250313080847263336181640625

  /** The value of an `AudioClip`: what `Clone` copies and what the non-mutating operations return. */
  datatype Clip = Clip(
    channels: seq<Channel>,
    fileName: string,
    sampleRate: real,
    maxAmplitude: Sample,
    numChannels: nat,
    numSamples: nat)

  /** The shape the program keeps: `num_channels` channels of `num_samples` samples each. */
  predicate WellShaped(c: Clip)
  {
    |c.channels| == c.numChannels && forall i :: 0 <= i < |c.channels| ==> |c.channels[i]| == c.numSamples
  }

  function Min(a: nat, b: nat): nat
  {
    if a <= b then a else b
  }

  /** `Sample::max`. */
  function MaxSample(a: Sample, b: Sample): (m: Sample)
    ensures m >= a && m >= b && (m == a || m == b)
  {
    if a >= b then a else b
  }

  function Zeros(n: nat): (r: Channel)
    ensures |r| == n && forall k :: 0 <= k < n ==> r[k] == 0.0
  {
    seq(n, _ => 0.0)
  }

  /** `Vec::resize(n, 0.0)`: keeps the first n samples, padding with zeros past the old end. */
  function Resize(ch: Channel, n: nat): (r: Channel)
    ensures |r| == n
    ensures forall k :: 0 <= k < n ==> r[k] == if k < |ch| then ch[k] else 0.0
  {
    if n <= |ch| then ch[..n] else ch + Zeros(n - |ch|)
  }

  /** `channel.get(k).unwrap_or(&0.0)`. */
  function SampleOrZero(ch: Channel, k: nat): Sample
  {
    if k < |ch| then ch[k] else 0.0
  }

  /** `AudioClip::new_monoamplitude`: `num_channels` channels, each `num_samples` copies of `amplitude`. */
  function NewMonoamplitude(sampleRate: real, numSamples: nat, amplitude: Sample, numChannels: nat): (c: Clip)
    ensures WellShaped(c) && c.numSamples == numSamples && c.numChannels == numChannels
    ensures forall i, k :: 0 <= i < numChannels && 0 <= k < numSamples ==> c.channels[i][k] == amplitude
    ensures c.maxAmplitude == amplitude && c.sampleRate == sampleRate && c.fileName == ""
  {
    Clip(seq(numChannels, _ => seq(numSamples, _ => amplitude)), "", sampleRate, amplitude, numChannels, numSamples)
  }

  /** The program's test: one channel of 44100 samples, all 0.5. */
  lemma MonoamplitudeTest()
    ensures var c := NewMonoamplitude(44100.0, 44100, 0.5, 1);
      c.numChannels > 0 && c.numSamples == 44100 &&
      (forall i :: 0 <= i < |c.channels| ==> |c.channels[i]| == c.numSamples) &&
      forall k :: 0 <= k < |c.channels[0]| ==> c.channels[0][k] == 0.5
  {
  }

  /** Every sample multiplied by `m`. */
  function ScaleChannel(ch: Channel, m: Sample): (r: Channel)
    ensures |r| == |ch| && forall k :: 0 <= k < |ch| ==> r[k] == ch[k] * m
  {
    seq(|ch|, k requires 0 <= k < |ch| => ch[k] * m)
  }

  /**
   * `AudioClip::scale_amplitude`: a copy whose samples and largest amplitude
   * are multiplied by `m`, with the same shape; the clip itself is a value
   * and is not changed.
   */
  function ScaleAmplitude(c: Clip, m: Sample): (r: Clip)
    ensures |r.channels| == |c.channels|
    ensures forall i :: 0 <= i < |c.channels| ==>
      |r.channels[i]| == |c.channels[i]| && forall k :: 0 <= k < |c.channels[i]| ==> r.channels[i][k] == c.channels[i][k] * m
    ensures r.maxAmplitude == c.maxAmplitude * m
    ensures r.numSamples == c.numSamples && r.numChannels == c.numChannels
    ensures r.sampleRate == c.sampleRate && r.fileName == c.fileName
    ensures WellShaped(c) ==> WellShaped(r)
  {
    c.(channels := seq(|c.channels|, i requires 0 <= i < |c.channels| => ScaleChannel(c.channels[i], m)),
       maxAmplitude := c.maxAmplitude * m)
  }

  /** Scaling by `m` and then by `1 / m` gives the clip back. */
  lemma ScaleRoundTrip(c: Clip, m: Sample)
    requires m != 0.0
    ensures ScaleAmplitude(ScaleAmplitude(c, m), 1.0 / m) == c
  {
    var r := ScaleAmplitude(ScaleAmplitude(c, m), 1.0 / m);
    forall i | 0 <= i < |c.channels| ensures r.channels[i] == c.channels[i] {
      assert |r.channels[i]| == |c.channels[i]|;
      forall k | 0 <= k < |c.channels[i]| ensures r.channels[i][k] == c.channels[i][k] {
        calc {
          r.channels[i][k];
          (c.channels[i][k] * m) * (1.0 / m);
          c.channels[i][k] * (m * (1.0 / m));
          c.channels[i][k];
        }
      }
    }
    assert r.maxAmplitude == (c.maxAmplitude * m) * (1.0 / m) == c.maxAmplitude * (m * (1.0 / m));
  }

  /** Scaling a constant clip scales the constant: the program's test, for every size and amplitude. */
  lemma ScaleMonoamplitude(sampleRate: real, numSamples: nat, amplitude: Sample, numChannels: nat, m: Sample)
    ensures ScaleAmplitude(NewMonoamplitude(sampleRate, numSamples, amplitude, numChannels), m) ==
      NewMonoamplitude(sampleRate, numSamples, amplitude * m, numChannels)
  {
    var r := ScaleAmplitude(NewMonoamplitude(sampleRate, numSamples, amplitude, numChannels), m);
    var e := NewMonoamplitude(sampleRate, numSamples, amplitude * m, numChannels);
    forall i | 0 <= i < numChannels ensures r.channels[i] == e.channels[i] {
      assert |r.channels[i]| == numSamples == |e.channels[i]|;
      forall k | 0 <= k < numSamples ensures r.channels[i][k] == e.channels[i][k] {
      }
    }
  }

  /**
   * `AudioClip::zero_pad`: every channel resized to m samples, the old
   * samples kept and the tail filled with zeros; the program asserts that m
   * is at least the sample count.
   */
  function ZeroPad(c: Clip, m: nat): (r: Clip)
    requires m >= c.numSamples
    ensures r.numSamples == m && |r.channels| == |c.channels|
    ensures forall i :: 0 <= i < |c.channels| ==> r.channels[i] == Resize(c.channels[i], m)
    ensures r.numChannels == c.numChannels && r.sampleRate == c.sampleRate
    ensures r.maxAmplitude == c.maxAmplitude && r.fileName == c.fileName
    ensures WellShaped(c) ==> WellShaped(r)
    ensures WellShaped(c) ==> forall i, k :: 0 <= i < |c.channels| && 0 <= k < m ==>
      r.channels[i][k] == (if k < c.numSamples then c.channels[i][k] else 0.0)
  {
    c.(channels := seq(|c.channels|, i requires 0 <= i < |c.channels| => Resize(c.channels[i], m)), numSamples := m)
  }

  /** The channels after `add_mut`: below `limit`, each of the first `count` channels gains `other`'s sample times `m`. */
  function AddedChannel(ch: Channel, other: Channel, limit: nat, m: Sample): (r: Channel)
    ensures |r| == |ch|
  {
    seq(|ch|, k requires 0 <= k < |ch| => if k < limit then ch[k] + SampleOrZero(other, k) * m else ch[k])
  }

  function AddedChannels(chs: seq<Channel>, others: seq<Channel>, count: nat, limit: nat, m: Sample): (r: seq<Channel>)
    requires count <= |chs| && count <= |others|
    ensures |r| == |chs|
  {
    seq(|chs|, i requires 0 <= i < |chs| => if i < count then AddedChannel(chs[i], others[i], limit, m) else chs[i])
  }

  /**
   * What `add_mut` computes: only the samples below `limit` of the first
   * `count` channels change, each by `other`'s sample (zero past its end)
   * times `m`; every other sample is unchanged.
   */
  lemma AddedChannelsSamples(chs: seq<Channel>, others: seq<Channel>, count: nat, limit: nat, m: Sample)
    requires count <= |chs| && count <= |others|
    ensures forall i, k :: 0 <= i < |chs| && 0 <= k < |chs[i]| ==>
      |AddedChannels(chs, others, count, limit, m)[i]| == |chs[i]| &&
      AddedChannels(chs, others, count, limit, m)[i][k] ==
        if i < count && k < limit then chs[i][k] + SampleOrZero(others[i], k) * m else chs[i][k]
  {
    var r := AddedChannels(chs, others, count, limit, m);
    forall i | 0 <= i < |chs|
      ensures |r[i]| == |chs[i]|
      ensures forall k :: 0 <= k < |chs[i]| ==>
        r[i][k] == if i < count && k < limit then chs[i][k] + SampleOrZero(others[i], k) * m else chs[i][k]
    {
      if i < count {
        assert r[i] == AddedChannel(chs[i], others[i], limit, m);
      } else {
        assert r[i] == chs[i];
      }
    }
  }

  /** Adding `other` times m and then times -m gives the channels back. */
  lemma AddThenSubtract(chs: seq<Channel>, others: seq<Channel>, count: nat, limit: nat, m: Sample)
    requires count <= |chs| && count <= |others|
    ensures AddedChannels(AddedChannels(chs, others, count, limit, m), others, count, limit, -m) == chs
  {
    var r := AddedChannels(AddedChannels(chs, others, count, limit, m), others, count, limit, -m);
    forall i | 0 <= i < |chs| ensures r[i] == chs[i] {
      if i < count {
        assert |r[i]| == |chs[i]|;
        forall k | 0 <= k < |chs[i]| ensures r[i][k] == chs[i][k] {
        }
      }
    }
  }

  /** The program's test: 0.25 everywhere plus 0.5 everywhere gives 0.75 everywhere. */
  lemma AddMutTest()
    ensures var a := NewMonoamplitude(44100.0, 1000, 0.25, 1);
      var b := NewMonoamplitude(44100.0, 1000, 0.5, 1);
      var r := AddedChannels(a.channels, b.channels, 1, Min(a.numSamples, b.numSamples), 1.0);
      forall k :: 0 <= k < |r[0]| ==> r[0][k] == 0.75
  {
  }

  /** The channels after `append_mut`: each of the first `count` channels followed by `other`'s. */
  function AppendedChannels(chs: seq<Channel>, others: seq<Channel>, count: nat): (r: seq<Channel>)
    requires count <= |chs| && count <= |others|
    ensures |r| == |chs|
    ensures forall i :: 0 <= i < |chs| ==> r[i] == if i < count then chs[i] + others[i] else chs[i]
  {
    seq(|chs|, i requires 0 <= i < |chs| => if i < count then chs[i] + others[i] else chs[i])
  }

  /** The channels after `add_new_channels_mut`, as written: the old channels, then silent ones. */
  function WithNewChannels(c: Clip, target: nat): (r: seq<Channel>)
    requires target >= c.numChannels
    ensures |r| == |c.channels| + (target - c.numChannels)
    ensures r[..|c.channels|] == c.channels
    ensures forall i :: |c.channels| <= i < |r| ==> r[i] == Zeros(c.numSamples)
  {
    c.channels + seq(target - c.numChannels, _ => Zeros(c.numSamples))
  }

  /** The mean over the first `count` channels of sample k. */
  function ChannelSum(chs: seq<Channel>, count: nat, k: nat): real
    requires count <= |chs| && forall i :: 0 <= i < count ==> k < |chs[i]|
  {
    if count == 0 then 0.0 else ChannelSum(chs, count - 1, k) + chs[count - 1][k]
  }

  /** The channel of per-sample means of the old channels, which the doc comment of `add_new_channels_mut` promises. */
  function AverageChannel(c: Clip): (r: Channel)
    requires WellShaped(c) && c.numChannels > 0
    ensures |r| == c.numSamples
    ensures forall k :: 0 <= k < c.numSamples ==> r[k] * (c.numChannels as real) == ChannelSum(c.channels, c.numChannels, k)
  {
    seq(c.numSamples, k requires 0 <= k < c.numSamples => ChannelSum(c.channels, c.numChannels, k) / (c.numChannels as real))
  }

  /** `add_new_channels_mut` corrected: the new channels hold the mean of the old ones. */
  function WithAveragedChannels(c: Clip, target: nat): (r: seq<Channel>)
    requires WellShaped(c) && c.numChannels > 0 && target >= c.numChannels
    ensures |r| == target && r[..c.numChannels] == c.channels
    ensures forall i :: c.numChannels <= i < target ==> r[i] == AverageChannel(c)
  {
    c.channels + seq(target - c.numChannels, _ => AverageChannel(c))
  }

  /** With the means as new channels, a clip whose channels all agree gains copies of that channel. */
  lemma AveragedChannelsCopy(c: Clip, target: nat)
    requires WellShaped(c) && c.numChannels > 0 && target >= c.numChannels
    requires forall i :: 0 <= i < c.numChannels ==> c.channels[i] == c.channels[0]
    ensures forall i :: 0 <= i < target ==> WithAveragedChannels(c, target)[i] == c.channels[0]
  {
    forall k | 0 <= k < c.numSamples
      ensures ChannelSum(c.channels, c.numChannels, k) == (c.numChannels as real) * c.channels[0][k]
    {
      ChannelSumOfCopies(c.channels, c.numChannels, k);
    }
    var avg := AverageChannel(c);
    var n := c.numChannels as real;
    forall k | 0 <= k < c.numSamples ensures avg[k] == c.channels[0][k] {
      var sum := ChannelSum(c.channels, c.numChannels, k);
      assert avg[k] * n == sum;
      assert n * c.channels[0][k] == sum;
      CancelFactor(avg[k], c.channels[0][k], n);
    }
  }

  /** A factor that is not zero cancels. */
  lemma CancelFactor(x: real, y: real, n: real)
    requires n > 0.0 && x * n == n * y
    ensures x == y
  {
    assert (x - y) * n == 0.0;
  }

  lemma {:induction false} ChannelSumOfCopies(chs: seq<Channel>, count: nat, k: nat)
    requires count <= |chs| && forall i :: 0 <= i < count ==> k < |chs[i]|
    requires forall i :: 0 <= i < count ==> chs[i][k] == chs[0][k]
    ensures ChannelSum(chs, count, k) == (count as real) * (if count == 0 then 0.0 else chs[0][k])
  {
    if count > 1 {
      ChannelSumOfCopies(chs, count - 1, k);
    }
  }

  /**
   * As written, the new channel of a one-channel clip holding 1.0 is silent,
   * although the mean it was meant to copy is 1.0.
   */
  lemma NewChannelsSilent()
    ensures var c := NewMonoamplitude(44100.0, 1, 1.0, 1);
      WithNewChannels(c, 2)[1] == [0.0] && WithAveragedChannels(c, 2)[1] == [1.0]
  {
    var c := NewMonoamplitude(44100.0, 1, 1.0, 1);
    AveragedChannelsCopy(c, 2);
  }

  /** An `AudioClip` whose `_mut` operations change it in place. */
  class AudioClip {
    var channels: seq<Channel>
    var fileName: string
    var sampleRate: real
    var maxAmplitude: Sample
    var numChannels: nat
    var numSamples: nat

    /** The clip's current value. */
    function Value(): Clip
      reads this
    {
      Clip(channels, fileName, sampleRate, maxAmplitude, numChannels, numSamples)
    }

    /** A clip holding the given value (the clips of the program come from files, which are not modelled). */
    constructor(c: Clip)
      ensures Value() == c
    {
      channels, fileName, sampleRate := c.channels, c.fileName, c.sampleRate;
      maxAmplitude, numChannels, numSamples := c.maxAmplitude, c.numChannels, c.numSamples;
    }

    /**
     * `AudioClip::add_mut`: with equal channel counts and sample rates within
     * `f64::EPSILON`, adds `rhs`'s samples times `multiplier` below the
     * smaller sample count; nothing else changes.
     */
    method AddMut(rhs: Clip, multiplier: Sample)
      requires numChannels == rhs.numChannels
      requires -F64Epsilon < sampleRate - rhs.sampleRate < F64Epsilon
      requires numChannels <= |channels| && numChannels <= |rhs.channels|
      requires forall i :: 0 <= i < numChannels ==> Min(numSamples, rhs.numSamples) <= |channels[i]|
      modifies this
      ensures fileName == old(fileName) && sampleRate == old(sampleRate) && maxAmplitude == old(maxAmplitude)
      ensures numChannels == old(numChannels) && numSamples == old(numSamples)
      ensures channels == AddedChannels(old(channels), rhs.channels, numChannels, Min(numSamples, rhs.numSamples), multiplier)
    {
      var limit := Min(numSamples, rhs.numSamples);
      ghost var before := channels;
      for i := 0 to numChannels
        invariant fileName == old(fileName) && sampleRate == old(sampleRate) && maxAmplitude == old(maxAmplitude)
        invariant numChannels == old(numChannels) && numSamples == old(numSamples)
        invariant |channels| == |before|
        invariant forall j :: 0 <= j < |before| ==>
          channels[j] == if j < i then AddedChannel(before[j], rhs.channels[j], limit, multiplier) else before[j]
      {
        var ch := AddIntoChannel(channels[i], rhs.channels[i], limit, multiplier);
        channels := channels[i := ch];
      }
      assert channels == AddedChannels(before, rhs.channels, numChannels, limit, multiplier);
    }

    /**
     * `AudioClip::append_mut`: with equal channel counts and sample rates
     * within `f64::EPSILON`, extends each channel by `rhs`'s, adds the sample
     * counts and keeps the larger amplitude.
     */
    method AppendMut(rhs: Clip)
      requires numChannels == rhs.numChannels
      requires -F64Epsilon < sampleRate - rhs.sampleRate < F64Epsilon
      requires numChannels <= |channels| && numChannels <= |rhs.channels|
      modifies this
      ensures fileName == old(fileName) && sampleRate == old(sampleRate) && numChannels == old(numChannels)
      ensures channels == AppendedChannels(old(channels), rhs.channels, numChannels)
      ensures numSamples == old(numSamples) + rhs.numSamples
      ensures maxAmplitude == MaxSample(old(maxAmplitude), rhs.maxAmplitude)
    {
      ghost var before := channels;
      for i := 0 to numChannels
        invariant fileName == old(fileName) && sampleRate == old(sampleRate) && maxAmplitude == old(maxAmplitude)
        invariant numChannels == old(numChannels) && numSamples == old(numSamples)
        invariant |channels| == |before|
        invariant forall j :: 0 <= j < |before| ==> channels[j] == if j < i then before[j] + rhs.channels[j] else before[j]
      {
        channels := channels[i := channels[i] + rhs.channels[i]];
      }
      numSamples := numSamples + rhs.numSamples;
      maxAmplitude := MaxSample(maxAmplitude, rhs.maxAmplitude);
    }

    /**
     * `AudioClip::add_new_channels_mut` as written: asserts the target is at
     * least the channel count and appends silent channels up to it. The loop
     * meant to fill them with the mean of the old channels writes into
     * `self.channels` past its last old channel, where there is none, and the
     * result is then replaced by the extended copy, so no sample is averaged.
     */
    method AddNewChannelsMut(target: nat)
      requires target >= numChannels && WellShaped(Value())
      modifies this
      ensures channels == WithNewChannels(old(Value()), target) && numChannels == target
      ensures WellShaped(Value())
      ensures fileName == old(fileName) && sampleRate == old(sampleRate)
      ensures maxAmplitude == old(maxAmplitude) && numSamples == old(numSamples)
    {
      if numChannels == target {
        return;
      }
      var extended := channels;
      var n := numSamples;
      for j := 0 to target - numChannels
        invariant extended == channels + seq(j, _ => Zeros(n))
      {
        extended := extended + [Zeros(n)];
      }
      assert extended == WithNewChannels(Value(), target);
      channels := extended;
      numChannels := target;
    }
  }

  /** One channel of `add_mut`: adds `other`'s samples times m below `limit`. */
  method AddIntoChannel(ch: Channel, other: Channel, limit: nat, m: Sample) returns (r: Channel)
    requires limit <= |ch|
    ensures r == AddedChannel(ch, other, limit, m)
  {
    r := ch;
    for k := 0 to limit
      invariant |r| == |ch|
      invariant forall j :: 0 <= j < |ch| ==> r[j] == if j < k then ch[j] + SampleOrZero(other, j) * m else ch[j]
    {
      var x := if k < |other| then other[k] else 0.0;
      r := r[k := r[k] + x * m];
    }
    assert forall j :: 0 <= j < |ch| ==> r[j] == AddedChannel(ch, other, limit, m)[j];
  }
}
