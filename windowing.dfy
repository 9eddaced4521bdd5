/**
 * Windows of an audio clip: a slice of every channel, zero-padded where it
 * runs past the end, and the runs of windows taken every `step` samples by
 * `split_by_duration` (and by the short-time transform in `Fft`).
 */
module Windowing {
  import opened AudioClips

  /** `(n + b - 1) / b`: the number of starts 0, b, 2b, ... below n. */
  function CeilDiv(n: nat, b: nat): nat
    requires b > 0
  {
    (n + b - 1) / b
  }

  lemma MulMono(a: nat, c: nat, b: nat)
    requires a <= c
    ensures a * b <= c * b
  {
  }

  /** `CeilDiv(n, b)` is the least q with q * b >= n. */
  lemma CeilDivBounds(n: nat, b: nat)
    requires b > 0
    ensures CeilDiv(n, b) * b >= n
    ensures CeilDiv(n, b) == 0 || (CeilDiv(n, b) - 1) * b < n
  {
    var q := CeilDiv(n, b);
    var r := (n + b - 1) % b;
    assert n + b - 1 == q * b + r;
    if q > 0 {
      assert (q - 1) * b == q * b - b;
    }
  }

  /** The index k of a start k * b that lies below n is below `CeilDiv(n, b)`, and conversely. */
  lemma CeilDivIndex(n: nat, b: nat, k: nat)
    requires b > 0
    ensures k < CeilDiv(n, b) <==> k * b < n
  {
    var q := CeilDiv(n, b);
    CeilDivBounds(n, b);
    if k < q {
      MulMono(k, q - 1, b);
    } else {
      MulMono(q, k, b);
    }
  }

  /** A count k whose starts all lie below n, with k * b reaching n, is `CeilDiv(n, b)`. */
  lemma CeilDivExit(n: nat, b: nat, k: nat)
    requires b > 0 && k * b >= n && (k == 0 || (k - 1) * b < n)
    ensures k == CeilDiv(n, b)
  {
    CeilDivIndex(n, b, k);
    if k > 0 {
      CeilDivIndex(n, b, k - 1);
    }
  }

  /** `CeilDiv(n, b)` is `n / b`, plus one when b does not divide n. */
  lemma CeilDivQuotient(n: nat, b: nat)
    requires b > 0
    ensures CeilDiv(n, b) == if n % b == 0 then n / b else n / b + 1
  {
    var q := n / b;
    assert n == q * b + n % b;
    if n % b == 0 {
      assert q * b >= n && (q == 0 || (q - 1) * b < n) by {
        if q > 0 {
          assert (q - 1) * b == q * b - b;
        }
      }
      CeilDivExit(n, b, q);
    } else {
      assert (q + 1) * b == q * b + b;
      CeilDivExit(n, b, q + 1);
    }
  }

  function Digit(d: nat): (ch: char)
    requires d < 10
    ensures '0' <= ch <= '9'
  {
    (48 + d) as char
  }

  /** `format!("{}", n)` for a `usize`: its decimal digits. */
  function DecimalString(n: nat): (s: string)
    ensures |s| >= 1 && forall i :: 0 <= i < |s| ==> '0' <= s[i] <= '9'
  {
    if n < 10 then [Digit(n)] else DecimalString(n / 10) + [Digit(n % 10)]
  }

  /** Reads a string of decimal digits back as a number. */
  function ParseDecimal(s: string): nat
    requires forall i :: 0 <= i < |s| ==> '0' <= s[i] <= '9'
  {
    if s == [] then 0 else ParseDecimal(s[..|s| - 1]) * 10 + (s[|s| - 1] as int - 48)
  }

  /** The decimal digits in a window's file name determine the number. */
  lemma {:induction false} DecimalRoundTrip(n: nat)
    ensures ParseDecimal(DecimalString(n)) == n
  {
    if n >= 10 {
      var s := DecimalString(n);
      assert s[..|s| - 1] == DecimalString(n / 10);
      DecimalRoundTrip(n / 10);
    }
  }

  /**
   * One channel of `AudioClip::window`: the samples from `start` to `end`,
   * cut at the channel's end and padded with zeros to `end - start`.
   */
  function WindowChannel(ch: Channel, start: nat, end: nat): (r: Channel)
    requires start <= end && start <= |ch|
    ensures |r| == end - start
    ensures forall k :: 0 <= k < end - start ==> r[k] == if start + k < |ch| then ch[start + k] else 0.0
  {
    Resize(ch[start..Min(end, |ch|)], end - start)
  }

  /** What `window` needs to neither panic nor underflow: start <= end and start within every channel. */
  predicate Windowable(c: Clip, start: nat, end: nat)
  {
    start <= end && forall i :: 0 <= i < |c.channels| ==> start <= |c.channels[i]|
  }

  /**
   * `AudioClip::window(start, end)`: every channel windowed, `end - start`
   * samples, the file name tagged with the bounds, the rest copied.
   */
  function Window(c: Clip, start: nat, end: nat): (r: Clip)
    requires Windowable(c, start, end)
    ensures r.numSamples == end - start && |r.channels| == |c.channels|
    ensures forall i :: 0 <= i < |c.channels| ==> r.channels[i] == WindowChannel(c.channels[i], start, end)
    ensures r.numChannels == c.numChannels && r.sampleRate == c.sampleRate && r.maxAmplitude == c.maxAmplitude
    ensures r.fileName == c.fileName + "_" + DecimalString(start) + "_" + DecimalString(end) + ".wav"
    ensures WellShaped(c) ==> WellShaped(r)
  {
    Clip(seq(|c.channels|, i requires 0 <= i < |c.channels| => WindowChannel(c.channels[i], start, end)),
         c.fileName + "_" + DecimalString(start) + "_" + DecimalString(end) + ".wav",
         c.sampleRate, c.maxAmplitude, c.numChannels, end - start)
  }

  /** A window of a window is the window of the clip between the shifted bounds. */
  lemma WindowOfWindow(c: Clip, a: nat, b: nat, i: nat, j: nat)
    requires Windowable(c, a, b) && Windowable(c, a + i, a + j) && j <= b - a
    ensures Windowable(Window(c, a, b), i, j)
    ensures Window(Window(c, a, b), i, j).channels == Window(c, a + i, a + j).channels
  {
    var w := Window(c, a, b);
    forall ch | 0 <= ch < |c.channels|
      ensures Window(w, i, j).channels[ch] == Window(c, a + i, a + j).channels[ch]
    {
      var x := Window(w, i, j).channels[ch];
      var y := Window(c, a + i, a + j).channels[ch];
      assert |x| == |y|;
      forall k | 0 <= k < |x| ensures x[k] == y[k] {
      }
    }
  }

  /** Windowing a well-shaped clip over its whole length keeps every sample. */
  lemma WindowWhole(c: Clip)
    requires WellShaped(c)
    ensures Windowable(c, 0, c.numSamples) && Window(c, 0, c.numSamples).channels == c.channels
  {
    forall i | 0 <= i < |c.channels| ensures Window(c, 0, c.numSamples).channels[i] == c.channels[i] {
      assert |Window(c, 0, c.numSamples).channels[i]| == |c.channels[i]|;
    }
  }

  /** For a well-shaped clip, zero padding to m is the window from 0 to m. */
  lemma ZeroPadIsWindow(c: Clip, m: nat)
    requires WellShaped(c) && m >= c.numSamples
    ensures Windowable(c, 0, m) && ZeroPad(c, m).channels == Window(c, 0, m).channels
  {
    forall i | 0 <= i < |c.channels| ensures ZeroPad(c, m).channels[i] == Window(c, 0, m).channels[i] {
      assert |ZeroPad(c, m).channels[i]| == m == |Window(c, 0, m).channels[i]|;
    }
  }

  /** Zero padding and then windowing back to the old length gives the old samples. */
  lemma ZeroPadThenWindow(c: Clip, m: nat)
    requires WellShaped(c) && m >= c.numSamples
    ensures Windowable(ZeroPad(c, m), 0, c.numSamples)
    ensures Window(ZeroPad(c, m), 0, c.numSamples).channels == c.channels
  {
    var p := ZeroPad(c, m);
    forall i | 0 <= i < |c.channels| ensures Window(p, 0, c.numSamples).channels[i] == c.channels[i] {
      assert |Window(p, 0, c.numSamples).channels[i]| == |c.channels[i]|;
    }
  }

  /** The clip `append_mut` makes of `a` and `b`. */
  function Appended(a: Clip, b: Clip): (r: Clip)
    requires a.numChannels == b.numChannels && a.numChannels <= |a.channels| && a.numChannels <= |b.channels|
  {
    a.(channels := AppendedChannels(a.channels, b.channels, a.numChannels),
       numSamples := a.numSamples + b.numSamples,
       maxAmplitude := MaxSample(a.maxAmplitude, b.maxAmplitude))
  }

  /** Appending two well-shaped clips gives a well-shaped clip whose two windows are the parts. */
  lemma AppendThenWindow(a: Clip, b: Clip)
    requires WellShaped(a) && WellShaped(b) && a.numChannels == b.numChannels
    ensures WellShaped(Appended(a, b))
    ensures Window(Appended(a, b), 0, a.numSamples).channels == a.channels
    ensures Window(Appended(a, b), a.numSamples, a.numSamples + b.numSamples).channels == b.channels
  {
    var r := Appended(a, b);
    var n := a.numSamples;
    forall i | 0 <= i < |a.channels|
      ensures Window(r, 0, n).channels[i] == a.channels[i]
      ensures Window(r, n, n + b.numSamples).channels[i] == b.channels[i]
    {
      assert r.channels[i] == a.channels[i] + b.channels[i];
      assert |Window(r, 0, n).channels[i]| == |a.channels[i]|;
      assert |Window(r, n, n + b.numSamples).channels[i]| == |b.channels[i]|;
    }
  }

  /**
   * The program's window tests, for any length and amplitude: on a constant
   * clip the window holds the amplitude while inside the clip and zeros past
   * its end.
   */
  lemma WindowOfConstant(rate: real, n: nat, amplitude: Sample, channels: nat, start: nat, end: nat)
    requires start <= end && start <= n
    ensures Windowable(NewMonoamplitude(rate, n, amplitude, channels), start, end)
    ensures var w := Window(NewMonoamplitude(rate, n, amplitude, channels), start, end);
      w.numSamples == end - start && w.numChannels == channels &&
      forall i, k :: 0 <= i < channels && 0 <= k < end - start ==>
        w.channels[i][k] == if start + k < n then amplitude else 0.0
  {
  }

  /** The chunk k of `split_by_duration`: from k * chunk to the next start or the end. */
  function ChunkAt(c: Clip, chunk: nat, k: nat): Clip
    requires chunk > 0 && WellShaped(c) && k < CeilDiv(c.numSamples, chunk)
  {
    CeilDivIndex(c.numSamples, chunk, k);
    Window(c, k * chunk, Min(k * chunk + chunk, c.numSamples))
  }

  /** The chunks `split_by_duration` returns, one per start 0, chunk, 2 * chunk, ... below the sample count. */
  function Chunks(c: Clip, chunk: nat): (r: seq<Clip>)
    requires chunk > 0 && WellShaped(c)
    ensures |r| == CeilDiv(c.numSamples, chunk)
  {
    seq(CeilDiv(c.numSamples, chunk), k requires 0 <= k < CeilDiv(c.numSamples, chunk) => ChunkAt(c, chunk, k))
  }

  /** The sum of the clips' sample counts. */
  function TotalSamples(clips: seq<Clip>): nat
  {
    if clips == [] then 0 else TotalSamples(clips[..|clips| - 1]) + clips[|clips| - 1].numSamples
  }

  lemma MulSucc(k: nat, b: nat)
    ensures (k + 1) * b == k * b + b
  {
  }

  /** Chunk k holds the samples from k * chunk up to the next boundary or the end. */
  lemma ChunkSamples(c: Clip, chunk: nat, k: nat)
    requires chunk > 0 && WellShaped(c) && k < CeilDiv(c.numSamples, chunk)
    ensures k * chunk < c.numSamples
    ensures ChunkAt(c, chunk, k).numSamples == Min(k * chunk + chunk, c.numSamples) - k * chunk
  {
    CeilDivIndex(c.numSamples, chunk, k);
  }

  /** A sequence's total is its prefix's total plus its last clip's sample count. */
  lemma TotalSamplesSnoc(s: seq<Clip>, count: nat)
    requires 0 < count <= |s|
    ensures TotalSamples(s[..count]) == TotalSamples(s[..count - 1]) + s[count - 1].numSamples
  {
    assert s[..count][..count - 1] == s[..count - 1];
  }

  /** The first K chunks hold min(K * chunk, n) samples. */
  lemma ChunksPrefixSamples(c: Clip, chunk: nat, count: nat)
    requires chunk > 0 && WellShaped(c) && count <= CeilDiv(c.numSamples, chunk)
    ensures TotalSamples(Chunks(c, chunk)[..count]) == Min(count * chunk, c.numSamples)
  {
    var s := Chunks(c, chunk);
    forall k | 0 <= k < |s|
      ensures k * chunk < c.numSamples && s[k].numSamples == Min(k * chunk + chunk, c.numSamples) - k * chunk
    {
      ChunkSamples(c, chunk, k);
      assert s[k] == ChunkAt(c, chunk, k);
    }
    TotalOfChunkLengths(s, chunk, c.numSamples, count);
  }

  /** Clips of chunk k holding min(k * chunk + chunk, n) - k * chunk samples: the first K hold min(K * chunk, n). */
  lemma {:induction false} TotalOfChunkLengths(s: seq<Clip>, chunk: nat, n: nat, count: nat)
    requires count <= |s|
    requires forall k :: 0 <= k < |s| ==> k * chunk < n && s[k].numSamples == Min(k * chunk + chunk, n) - k * chunk
    ensures TotalSamples(s[..count]) == Min(count * chunk, n)
  {
    if count > 0 {
      var k := count - 1;
      TotalOfChunkLengths(s, chunk, n, k);
      TotalSamplesSnoc(s, count);
      MulSucc(k, chunk);
      assert k * chunk < n;
    }
  }

  /**
   * `split_by_duration` with a chunk of `chunk` samples: CeilDiv(n, chunk)
   * chunks, chunk k the window from k * chunk to min(k * chunk + chunk, n),
   * every chunk but the last exactly `chunk` long, and the lengths summing
   * to n.
   */
  lemma ChunksFacts(c: Clip, chunk: nat)
    requires chunk > 0 && WellShaped(c)
    ensures |Chunks(c, chunk)| == CeilDiv(c.numSamples, chunk)
    ensures forall k :: 0 <= k < |Chunks(c, chunk)| ==>
      k * chunk < c.numSamples && Chunks(c, chunk)[k] == Window(c, k * chunk, Min(k * chunk + chunk, c.numSamples))
    ensures forall k :: 0 <= k < |Chunks(c, chunk)| - 1 ==> Chunks(c, chunk)[k].numSamples == chunk
    ensures TotalSamples(Chunks(c, chunk)) == c.numSamples
  {
    ChunksAreWindows(c, chunk);
    ChunksFull(c, chunk);
    ChunksTotal(c, chunk);
  }

  /** Chunk k is the window from k * chunk to the next start or the end. */
  lemma ChunksAreWindows(c: Clip, chunk: nat)
    requires chunk > 0 && WellShaped(c)
    ensures forall k :: 0 <= k < |Chunks(c, chunk)| ==>
      k * chunk < c.numSamples && Chunks(c, chunk)[k] == Window(c, k * chunk, Min(k * chunk + chunk, c.numSamples))
  {
    var s := Chunks(c, chunk);
    forall k | 0 <= k < |s|
      ensures k * chunk < c.numSamples && s[k] == Window(c, k * chunk, Min(k * chunk + chunk, c.numSamples))
    {
      CeilDivIndex(c.numSamples, chunk, k);
      assert s[k] == ChunkAt(c, chunk, k);
    }
  }

  /** Every chunk but the last is exactly `chunk` samples long. */
  lemma ChunksFull(c: Clip, chunk: nat)
    requires chunk > 0 && WellShaped(c)
    ensures forall k :: 0 <= k < |Chunks(c, chunk)| - 1 ==> Chunks(c, chunk)[k].numSamples == chunk
  {
    var s := Chunks(c, chunk);
    forall k | 0 <= k < |s| - 1 ensures s[k].numSamples == chunk {
      CeilDivIndex(c.numSamples, chunk, k + 1);
      MulSucc(k, chunk);
      ChunkSamples(c, chunk, k);
      assert s[k] == ChunkAt(c, chunk, k);
    }
  }

  /** The chunks' lengths add up to the sample count. */
  lemma ChunksTotal(c: Clip, chunk: nat)
    requires chunk > 0 && WellShaped(c)
    ensures TotalSamples(Chunks(c, chunk)) == c.numSamples
  {
    var s := Chunks(c, chunk);
    ChunksPrefixSamples(c, chunk, |s|);
    CeilDivBounds(c.numSamples, chunk);
    assert s[..|s|] == s;
  }

  /**
   * `AudioClip::split_by_duration`, given the chunk length in samples (the
   * program derives it from a duration in seconds): walks the starts 0,
   * chunk, 2 * chunk, ... below the sample count, windowing each.
   */
  method SplitByDuration(c: Clip, chunk: nat) returns (chunks: seq<Clip>)
    requires chunk > 0 && WellShaped(c)
    ensures chunks == Chunks(c, chunk)
  {
    var n := c.numSamples;
    chunks := [];
    var begin := 0;
    ghost var k := 0;
    while begin < n
      invariant begin == k * chunk && k <= CeilDiv(n, chunk)
      invariant chunks == Chunks(c, chunk)[..k]
      decreases n - begin
    {
      CeilDivIndex(n, chunk, k);
      var end := Min(begin + chunk, n);
      chunks := chunks + [Window(c, begin, end)];
      assert Chunks(c, chunk)[..k + 1] == Chunks(c, chunk)[..k] + [Chunks(c, chunk)[k]];
      MulSucc(k, chunk);
      begin := begin + chunk;
      k := k + 1;
    }
    CeilDivIndex(n, chunk, k);
    assert Chunks(c, chunk)[..k] == Chunks(c, chunk);
  }
}
