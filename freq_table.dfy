/** The frequency table of fourier.c: one block of sine and cosine
    reference values and the running correlation of the pushed samples
    with them, over a sliding window or over everything pushed. */
module FreqTables {
  import opened WindowedSums
  import opened ModArith
  import Rational

  /** MATH_PI of fourier.c. */
  const PI: real := 3.141592653589793

  /** What freqtbl_get reports: the -1 sentinel becomes Pending; a ready
      reading carries the two normalized projections whose hypot is the
      amplitude. */
  datatype Reading = Pending | Ready(sineComponent: real, cosineComponent: real)
  {
    /** The squared amplitude, hypot(s, c)^2: never negative, so a ready
        reading never looks like the -1 sentinel. */
    function MagnitudeSquared(): (m: real)
      requires Ready?
      ensures m >= 0.0
    {
      Square(sineComponent);
      Square(cosineComponent);
      sineComponent * sineComponent + cosineComponent * cosineComponent
    }
  }

  lemma Square(x: real)
    ensures x * x >= 0.0
  {
    if x < 0.0 {
      PositiveProduct(-x, -x);
      assert x * x == (-x) * (-x);
    } else if x > 0.0 {
      PositiveProduct(x, x);
    } else {
      assert x * x == 0.0 * x;
    }
  }

  lemma PositiveProduct(a: real, b: real)
    requires a > 0.0 && b > 0.0
    ensures a * b > 0.0
  {
  }

  /** The frequency a block of `samples` samples holding `cycles` periods
      stands for at sampleFreq samples per second. */
  function BlockFrequency(sampleFreq: real, samples: int, cycles: int): (f: real)
    requires samples > 0
    ensures f * samples as real == sampleFreq * cycles as real
  {
    sampleFreq * cycles as real / samples as real
  }

  /** The phase step 2*PI*cycles/samples between table entries. */
  function RadiansPerSample(cycles: int, samples: int): real
    requires samples > 0
  {
    2.0 * PI * cycles as real / samples as real
  }

  /** Wave f sampled at entry i of a table with phase step `step`. */
  function Wave(f: real -> real, i: int, step: real): real
  {
    f(i as real * step)
  }

  /** sine[i] = sin(i * step) and cosine[i] = cos(i * step) for every entry. */
  ghost predicate WaveTables(sine: seq<real>, cosine: seq<real>, cycles: int, samples: int,
                             sin: real -> real, cos: real -> real)
    requires samples > 0
  {
    && |sine| == samples && |cosine| == samples
    && (forall i :: 0 <= i < samples ==> sine[i] == Wave(sin, i, RadiansPerSample(cycles, samples)))
    && (forall i :: 0 <= i < samples ==> cosine[i] == Wave(cos, i, RadiansPerSample(cycles, samples)))
  }

  /** The window buffer holds every sample that is still inside the window,
      sample p at slot p mod |window|. */
  ghost predicate WindowHolds(window: seq<real>, history: seq<real>)
    requires |window| > 0
  {
    forall p :: WindowStart(|history|, |window|) <= p < |history| ==> window[p % |window|] == history[p]
  }

  /** The four running sums equal the correlations and norms over the
      samples of h inside a window of width w. */
  ghost predicate Tracks(st: seq<real>, ct: seq<real>, h: seq<real>, w: int,
                         sSum: real, cSum: real, sNorm: real, cNorm: real)
    requires |st| > 0 && |ct| > 0
  {
    var lo := WindowStart(|h|, w);
    && sSum == WindowedSum(st, h, lo, |h|)
    && cSum == WindowedSum(ct, h, lo, |h|)
    && sNorm == WindowedNorm(st, lo, |h|)
    && cNorm == WindowedNorm(ct, lo, |h|)
  }

  class FreqTable {
    // Read-only after construction: the block and its wave data.
    const frequency: real
    const cycles: int
    const samples: int
    const sine: seq<real>
    const cosine: seq<real>
    ghost const SampleFreq: real

    // State of the running sums.
    var blkidx: int
    /** Window width: -1 for an unbounded window, 0 before the first start. */
    var winwidth: int
    var winidx: int
    var sampsInWin: int
    var window: array?<real>
    var sineSum: real
    var cosineSum: real
    var sineNorm: real
    var cosineNorm: real

    /** Samples pushed since the last clear. */
    ghost var History: seq<real>
    ghost var Repr: set<object>

    /** First index of History inside the window. */
    ghost function Lo(): nat
      reads this
    {
      WindowStart(|History|, winwidth)
    }

    ghost predicate Valid()
      reads this, Repr
    {
      && this in Repr
      && (window != null ==> window in Repr)
      && 1 <= cycles <= samples
      && |sine| == samples && |cosine| == samples
      && frequency * samples as real == SampleFreq * cycles as real
      && -1 <= winwidth
      && (window != null <==> winwidth > 0)
      && (window != null ==> window.Length == winwidth)
      && blkidx == |History| % samples
      && (winwidth > 0 ==>
            && winidx == |History| % winwidth
            && sampsInWin == (if |History| < winwidth then |History| else winwidth)
            && WindowHolds(window[..], History))
      && (winwidth <= 0 ==> winidx == 0 && sampsInWin == |History|)
      && Tracks(sine, cosine, History, winwidth, sineSum, cosineSum, sineNorm, cosineNorm)
    }

    /** fill_freqtbl: the wave data for `cycles` periods in `samples`
        samples, no window and all sums zero. Its NULL result for
        samples < cycles is the one make_freqtbl returns (see Make). */
    constructor Fill(sampleFreq: real, samplesPerBlk: int, cyclesPerBlk: int,
                     sin: real -> real, cos: real -> real)
      requires 1 <= cyclesPerBlk <= samplesPerBlk
      ensures Valid() && fresh(Repr) && History == []
      ensures frequency == BlockFrequency(sampleFreq, samplesPerBlk, cyclesPerBlk)
      ensures SampleFreq == sampleFreq && cycles == cyclesPerBlk && samples == samplesPerBlk
      ensures WaveTables(sine, cosine, cycles, samples, sin, cos)
      ensures blkidx == 0 && winwidth == 0 && winidx == 0 && sampsInWin == 0 && window == null
      ensures sineSum == 0.0 && sineNorm == 0.0 && cosineSum == 0.0 && cosineNorm == 0.0
    {
      var s := new real[samplesPerBlk];
      var c := new real[samplesPerBlk];
      var step := RadiansPerSample(cyclesPerBlk, samplesPerBlk);
      var i := 0;
      while i < samplesPerBlk
        invariant 0 <= i <= samplesPerBlk
        invariant forall j :: 0 <= j < i ==> s[j] == Wave(sin, j, step)
        invariant forall j :: 0 <= j < i ==> c[j] == Wave(cos, j, step)
      {
        s[i] := Wave(sin, i, step);
        c[i] := Wave(cos, i, step);
        i := i + 1;
      }
      frequency := BlockFrequency(sampleFreq, samplesPerBlk, cyclesPerBlk);
      SampleFreq := sampleFreq;
      cycles, samples := cyclesPerBlk, samplesPerBlk;
      sine, cosine := s[..], c[..];
      blkidx, winwidth, winidx, sampsInWin := 0, 0, 0, 0;
      window := null;
      sineSum, sineNorm, cosineSum, cosineNorm := 0.0, 0.0, 0.0, 0.0;
      History := [];
      Repr := {this};
      ZeroRem(samplesPerBlk);
    }

    /** make_freqtbl: NULL exactly when the block has fewer samples than
        cycles (the frequency is above what the block resolves). */
    static method Make(sampleFreq: real, samplesPerBlk: int, cyclesPerBlk: int,
                       sin: real -> real, cos: real -> real) returns (t: FreqTable?)
      requires cyclesPerBlk >= 1
      ensures t == null <==> samplesPerBlk < cyclesPerBlk
      ensures t != null ==>
        && t.Valid() && fresh(t.Repr) && t.History == []
        && t.frequency == BlockFrequency(sampleFreq, samplesPerBlk, cyclesPerBlk)
        && t.cycles == cyclesPerBlk && t.samples == samplesPerBlk
        && WaveTables(t.sine, t.cosine, t.cycles, t.samples, sin, cos)
        && t.winwidth == 0 && t.window == null
    {
      if samplesPerBlk < cyclesPerBlk {
        return null;
      }
      t := new FreqTable.Fill(sampleFreq, samplesPerBlk, cyclesPerBlk, sin, cos);
    }

    /** gen_freqtbl for a frequency freqNum/freqDen Hz at an integer sample
        rate: the block is the continued-fraction approximation num/den of
        sampleRate/freq at the first quotient where the expansion stops, and
        the result is NULL exactly when num < den; otherwise an unstarted
        table, as make_freqtbl leaves it. */
    static method Gen(freqNum: int, freqDen: int, sampleRate: int, error: real,
                      sin: real -> real, cos: real -> real)
      returns (t: FreqTable?, ghost num: int, ghost den: int, ghost steps: nat)
      requires freqNum > 0 && freqDen > 0 && sampleRate > 0 && error > 0.0
      ensures den >= 1 && num >= 0
      ensures Rational.Within(sampleRate * freqDen, freqNum, num, den, error)
      ensures Rational.FirstStop(sampleRate * freqDen, freqNum, error, steps)
      ensures num == Rational.Expand(sampleRate * freqDen, freqNum, steps).m.n
      ensures den == Rational.Expand(sampleRate * freqDen, freqNum, steps).m.d
      ensures t == null <==> num < den
      ensures t != null ==>
        && t.Valid() && fresh(t.Repr) && t.History == []
        && t.samples == num && t.cycles == den
        && t.frequency == BlockFrequency(sampleRate as real, num, den)
        && WaveTables(t.sine, t.cosine, t.cycles, t.samples, sin, cos)
        && t.winwidth == 0 && t.window == null
    {
      var samps, cycs, last, k := Rational.RationalApprox(sampleRate * freqDen, freqNum, error);
      num, den, steps := samps, cycs, k;
      t := Make(sampleRate as real, samps, cycs, sin, cos);
    }

    /** clear_freqtbl: phase, cursor, fill count and the four sums return to
        zero; the window width, the window buffer and the tables stay. */
    method Clear()
      requires Valid()
      modifies this
      ensures Valid() && History == [] && Repr == old(Repr)
      ensures winwidth == old(winwidth) && window == old(window)
      ensures blkidx == 0 && winidx == 0 && sampsInWin == 0
      ensures sineSum == 0.0 && sineNorm == 0.0 && cosineSum == 0.0 && cosineNorm == 0.0
    {
      blkidx := 0;
      winidx := 0;
      sampsInWin := 0;
      sineSum := 0.0;
      sineNorm := 0.0;
      cosineSum := 0.0;
      cosineNorm := 0.0;
      History := [];
      ZeroRem(samples);
      if winwidth > 0 {
        ZeroRem(winwidth);
      }
    }

    /** init_freqtbl: clear, then a window of samplesPerWin samples, or an
        unbounded window (width -1, no buffer) when samplesPerWin <= 0. */
    method Init(samplesPerWin: int)
      requires Valid()
      modifies this
      ensures Valid() && History == [] && fresh(Repr - old(Repr))
      ensures winwidth == if samplesPerWin <= 0 then -1 else samplesPerWin
      ensures window == null <==> samplesPerWin <= 0
      ensures window != null ==> fresh(window) && window.Length == samplesPerWin
      ensures blkidx == 0 && winidx == 0 && sampsInWin == 0
      ensures sineSum == 0.0 && sineNorm == 0.0 && cosineSum == 0.0 && cosineNorm == 0.0
    {
      Clear();
      winwidth := if samplesPerWin <= 0 then -1 else samplesPerWin;
      if samplesPerWin <= 0 {
        window := null;
        Repr := {this};
      } else {
        window := new real[winwidth];
        Repr := {this, window};
      }
    }

    /** start_freqtbl: a window of whole blocks, as many as fit in the
        duration but never fewer than five. */
    method Start(maxdur: real)
      requires Valid() && maxdur >= 0.0 && frequency >= 0.0
      modifies this
      ensures Valid() && History == [] && fresh(Repr - old(Repr))
      ensures winwidth == BlockWindow(MaxSamples(maxdur, frequency, samples, cycles), samples)
      ensures window != null && fresh(window) && window.Length == winwidth
    {
      var maxsamps := (maxdur * frequency * samples as real / cycles as real).Floor;
      var cycs := maxsamps / samples;
      if cycs < 5 {
        cycs := 5;
      }
      Init(cycs * samples);
    }

    /** freqtbl_get: Pending unless the window is full and both norms are
        positive; otherwise the windowed correlations divided by the
        windowed norms. */
    function Get(): (r: Reading)
      requires Valid()
      reads this, Repr
      ensures r.Ready? <==>
        && (winwidth <= 0 || |History| >= winwidth)
        && WindowedNorm(sine, Lo(), |History|) > 0.0
        && WindowedNorm(cosine, Lo(), |History|) > 0.0
      ensures r.Ready? ==>
        && r.sineComponent == WindowedSum(sine, History, Lo(), |History|) / WindowedNorm(sine, Lo(), |History|)
        && r.cosineComponent == WindowedSum(cosine, History, Lo(), |History|) / WindowedNorm(cosine, Lo(), |History|)
    {
      if sampsInWin >= winwidth && sineNorm > 0.0 && cosineNorm > 0.0 then
        Ready(sineSum / sineNorm, cosineSum / cosineNorm)
      else
        Pending
    }

    /** freqtbl_freq: the frequency the block resolves, sample rate times
        cycles over samples. */
    function Freq(): (f: real)
      requires Valid()
      reads this, Repr
      ensures f * samples as real == SampleFreq * cycles as real
    {
      frequency
    }

    /** freqtbl_push: the running sums take in the sample (UpdateSums);
        in a bounded window the sample is stored at the cursor, which
        advances; the phase within the block advances. */
    method Push(sample: real)
      requires Valid()
      modifies this, window
      ensures Valid() && Repr == old(Repr)
      ensures History == old(History) + [sample]
      ensures winwidth == old(winwidth) && window == old(window)
      ensures blkidx == (old(blkidx) + 1) % samples
      ensures winwidth > 0 ==>
        && window[..] == old(window[..])[old(winidx) := sample]
        && winidx == (old(winidx) + 1) % winwidth
        && sampsInWin == (if old(sampsInWin) < winwidth then old(sampsInWin) + 1 else winwidth)
      ensures winwidth <= 0 ==> winidx == old(winidx) && sampsInWin == old(sampsInWin) + 1
    {
      ghost var h, k := History, |History|;
      UpdateSums(sample);

      if winwidth > 0 {
        // Store the sample into the window
        ghost var before := window[..];
        window[winidx] := sample;
        assert window[..] == before[k % winwidth := sample];
        WindowAfterWrite(before, h, sample);
        ModSucc(k, winwidth);
        winidx := (winidx + 1) % winwidth;
      }

      ModSucc(k, samples);
      blkidx := (blkidx + 1) % samples;
      History := h + [sample];
    }

    /** The sums part of freqtbl_push: the sample enters the four sums at
        phase blkidx; when the bounded window is already full, the sample
        at the cursor (the oldest) leaves them at its own phase, otherwise
        the fill count grows. The sums then track History + [sample]. */
    method UpdateSums(sample: real)
      requires Valid()
      modifies this
      ensures History == old(History) && Repr == old(Repr)
      ensures blkidx == old(blkidx) && winidx == old(winidx) && winwidth == old(winwidth) && window == old(window)
      ensures sampsInWin == if old(sampsInWin) >= winwidth && winwidth > 0 then old(sampsInWin) else old(sampsInWin) + 1
      ensures Tracks(sine, cosine, History + [sample], winwidth, sineSum, cosineSum, sineNorm, cosineNorm)
    {
      ghost var h := History;
      ghost var k, w := |h|, winwidth;
      ghost var st, ct := sine, cosine;
      assert |st| == samples && blkidx == k % |st|;

      // Include the new sample in the running sums
      var s := sine[blkidx];
      var sSum, sNorm := sineSum + s * sample, sineNorm + s * s;
      var c := cosine[blkidx];
      var cSum, cNorm := cosineSum + c * sample, cosineNorm + c * c;

      if sampsInWin >= winwidth && winwidth > 0 {
        // Phase, within the block, of the oldest sample in the window
        var oldidx := OldestPhase(blkidx, winwidth, samples);
        EvictedPhase(k, winwidth, samples);
        EvictedSlot(k, winwidth);
        var oldest := window[winidx];
        assert oldest == h[k - w];

        // Remove the oldest sample from the running sums
        var so := sine[oldidx];
        sSum, sNorm := sSum - so * oldest, sNorm - so * so;
        var co := cosine[oldidx];
        cSum, cNorm := cSum - co * oldest, cNorm - co * co;
        PushTracks(st, ct, h, sample, w, s, c, so, co, oldest,
                   sineSum, cosineSum, sineNorm, cosineNorm, sSum, cSum, sNorm, cNorm);
      } else {
        sampsInWin := sampsInWin + 1;
        PushTracks(st, ct, h, sample, w, s, c, 0.0, 0.0, 0.0,
                   sineSum, cosineSum, sineNorm, cosineNorm, sSum, cSum, sNorm, cNorm);
      }
      sineSum, sineNorm, cosineSum, cosineNorm := sSum, sNorm, cSum, cNorm;
    }
  }

  /** freqtbl_push's updates of the four running sums (add the new sample
      at phase k, subtract the evicted sample k - w at its own phase) keep
      them equal to the sums over the window. */
  lemma PushTracks(st: seq<real>, ct: seq<real>, h: seq<real>, x: real, w: int,
                   s: real, c: real, so: real, co: real, oldest: real,
                   sSum: real, cSum: real, sNorm: real, cNorm: real,
                   sSum': real, cSum': real, sNorm': real, cNorm': real)
    requires |st| > 0 && |ct| > 0
    requires Tracks(st, ct, h, w, sSum, cSum, sNorm, cNorm)
    requires s == st[|h| % |st|] && c == ct[|h| % |ct|]
    requires w > 0 && |h| >= w ==>
      && so == st[(|h| - w) % |st|] && co == ct[(|h| - w) % |ct|] && oldest == h[|h| - w]
      && sSum' == sSum + s * x - so * oldest && sNorm' == sNorm + s * s - so * so
      && cSum' == cSum + c * x - co * oldest && cNorm' == cNorm + c * c - co * co
    requires !(w > 0 && |h| >= w) ==>
      && sSum' == sSum + s * x && sNorm' == sNorm + s * s
      && cSum' == cSum + c * x && cNorm' == cNorm + c * c
    ensures Tracks(st, ct, h + [x], w, sSum', cSum', sNorm', cNorm')
  {
    if w > 0 && |h| >= w {
      EvictSum(st, h, x, w, s, so, oldest, sSum, sSum');
      EvictSum(ct, h, x, w, c, co, oldest, cSum, cSum');
    } else {
      FillSum(st, h, x, w, s, sSum, sSum');
      FillSum(ct, h, x, w, c, cSum, cSum');
    }
    PushNorm(st, |h|, w, s, so, sNorm, sNorm');
    PushNorm(ct, |h|, w, c, co, cNorm, cNorm');
  }

  /** One running correlation through freqtbl_push, window full: the new
      sample's product enters and the evicted sample's product leaves. */
  lemma EvictSum(table: seq<real>, h: seq<real>, x: real, w: int, a: real, b: real, evicted: real,
                 sum: real, sum': real)
    requires |table| > 0 && w > 0 && |h| >= w
    requires sum == WindowedSum(table, h, WindowStart(|h|, w), |h|)
    requires a == table[|h| % |table|] && b == table[(|h| - w) % |table|] && evicted == h[|h| - w]
    requires sum' == sum + a * x - b * evicted
    ensures sum' == WindowedSum(table, h + [x], WindowStart(|h| + 1, w), |h| + 1)
  {
    SlideEvicting(table, h, x, w);
  }

  /** One running correlation through freqtbl_push, window not full: the
      new sample's product enters. */
  lemma FillSum(table: seq<real>, h: seq<real>, x: real, w: int, a: real, sum: real, sum': real)
    requires |table| > 0 && !(w > 0 && |h| >= w)
    requires sum == WindowedSum(table, h, WindowStart(|h|, w), |h|)
    requires a == table[|h| % |table|]
    requires sum' == sum + a * x
    ensures sum' == WindowedSum(table, h + [x], WindowStart(|h| + 1, w), |h| + 1)
  {
    SlideFilling(table, h, x, w);
  }

  /** One running norm through freqtbl_push. */
  lemma PushNorm(table: seq<real>, k: nat, w: int, a: real, b: real, norm: real, norm': real)
    requires |table| > 0
    requires norm == WindowedNorm(table, WindowStart(k, w), k)
    requires a == table[k % |table|]
    requires w > 0 && k >= w ==> b == table[(k - w) % |table|] && norm' == norm + a * a - b * b
    requires !(w > 0 && k >= w) ==> norm' == norm + a * a
    ensures norm' == WindowedNorm(table, WindowStart(k + 1, w), k + 1)
  {
    SlideWindowedNorm(table, k, w);
    var t := WindowedNorm(table, WindowStart(k, w), k) + table[k % |table|] * table[k % |table|];
    assert norm + a * a == t;
    if w > 0 && k >= w {
      assert norm' == t - table[(k - w) % |table|] * table[(k - w) % |table|];
    }
  }

  /** Writing sample k at slot k mod |window| keeps the window holding
      every sample still inside it. */
  lemma WindowAfterWrite(window: seq<real>, h: seq<real>, x: real)
    requires |window| > 0 && WindowHolds(window, h)
    ensures WindowHolds(window[|h| % |window| := x], h + [x])
  {
    var w, k := |window|, |h|;
    forall p | WindowStart(k + 1, w) <= p < k + 1
      ensures window[k % w := x][p % w] == (h + [x])[p]
    {
      if p < k {
        ModDistinct(p, k, w);
      }
    }
  }

  /** The sample count start_freqtbl derives from a duration of maxdur
      seconds: maxdur * frequency * samples / cycles, truncated. */
  function MaxSamples(maxdur: real, frequency: real, samples: int, cycles: int): (n: int)
    requires maxdur >= 0.0 && frequency >= 0.0 && samples >= 1 && cycles >= 1
    ensures n >= 0
  {
    NonNegativeProduct(maxdur, frequency, samples, cycles);
    (maxdur * frequency * samples as real / cycles as real).Floor
  }

  lemma NonNegativeProduct(maxdur: real, frequency: real, samples: int, cycles: int)
    requires maxdur >= 0.0 && frequency >= 0.0 && samples >= 1 && cycles >= 1
    ensures maxdur * frequency * samples as real / cycles as real >= 0.0
  {
    assert maxdur * frequency >= 0.0;
    assert maxdur * frequency * samples as real >= 0.0;
  }

  /** Because frequency * samples = sampleFreq * cycles, MaxSamples is the
      number of whole samples in maxdur seconds at the sample rate. */
  lemma MaxSamplesIsDuration(maxdur: real, frequency: real, samples: int, cycles: int, sampleFreq: real)
    requires maxdur >= 0.0 && frequency >= 0.0 && samples >= 1 && cycles >= 1
    requires frequency * samples as real == sampleFreq * cycles as real
    ensures var n := MaxSamples(maxdur, frequency, samples, cycles);
      n as real <= maxdur * sampleFreq < n as real + 1.0
  {
    var c := cycles as real;
    var p := maxdur * frequency * samples as real;
    assert p == maxdur * (frequency * samples as real);
    assert p == (maxdur * sampleFreq) * c;
    assert p / c == maxdur * sampleFreq;
  }

  /** The window start_freqtbl picks for a bound of maxsamps samples and a
      block of `samples`: a whole number of blocks, at least five, and
      otherwise the most blocks that fit in maxsamps. */
  function BlockWindow(maxsamps: int, samples: int): (w: int)
    requires maxsamps >= 0 && samples >= 1
    ensures w % samples == 0
    ensures w >= 5 * samples
    ensures maxsamps >= 5 * samples ==> w <= maxsamps < w + samples
    ensures maxsamps < 5 * samples ==> w == 5 * samples
  {
    var cycs := maxsamps / samples;
    BlockWindowFacts(maxsamps, samples);
    (if cycs < 5 then 5 else cycs) * samples
  }

  lemma BlockWindowFacts(maxsamps: int, samples: int)
    requires maxsamps >= 0 && samples >= 1
    ensures var cycs := maxsamps / samples;
      && (cycs * samples) % samples == 0 && (5 * samples) % samples == 0
      && cycs * samples <= maxsamps < cycs * samples + samples
      && (cycs < 5 <==> maxsamps < 5 * samples)
  {
    var cycs := maxsamps / samples;
    DivModUnique(cycs * samples, samples, cycs, 0);
    DivModUnique(5 * samples, samples, 5, 0);
    if cycs < 5 {
      MulMagnitude(5 - cycs, samples);
    } else {
      MulAtLeast5(cycs, samples);
    }
  }

  lemma MulAtLeast5(c: int, s: int)
    requires c >= 5 && s >= 1
    ensures c * s >= 5 * s
  {
    MulMagnitude(c - 4, s);
    assert c * s == (c - 5) * s + 5 * s;
    if c > 5 {
      MulMagnitude(c - 5, s);
    }
  }

  /** The phase, within the block, of the oldest sample in a full window:
      (blkidx - winwidth) % samples in C's truncating arithmetic, moved up
      by samples when negative. */
  function OldestPhase(blkidx: int, winwidth: int, samples: int): (r: int)
    requires samples > 0
    ensures 0 <= r < samples
    ensures r == (blkidx - winwidth) % samples
  {
    WrapTruncRem(blkidx - winwidth, samples);
    var oldidx := TruncRem(blkidx - winwidth, samples);
    if oldidx < 0 then oldidx + samples else oldidx
  }

  /** Reducing the sample count modulo the block first does not change the
      phase of sample k - w. */
  lemma EvictedPhase(k: nat, w: int, samples: int)
    requires w > 0 && samples > 0 && k >= w
    ensures (k % samples - w) % samples == (k - w) % samples
  {
    ModAddMultiple(k - w, -(k / samples), samples);
    assert k % samples - w == (k - w) + -(k / samples) * samples;
  }

  /** The cursor slot k mod w holds sample k - w, the oldest in a full window. */
  lemma EvictedSlot(k: nat, w: int)
    requires w > 0 && k >= w
    ensures (k - w) % w == k % w
  {
    ModAddMultiple(k - w, 1, w);
  }
}
