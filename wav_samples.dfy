/** Sample addressing and PCM decoding of wav.c: wav_sample_count, the byte
    offset of wav_sampat, and the bounds checks and integer sign extension
    of wav_fsampat. */
module WavSamples {
  import opened RiffWave
  import ModArith

  const WAVE_FORMAT_PCM: int := 0x0001

  function Pow2(n: nat): (p: int)
    ensures p >= 1
  {
    if n == 0 then 1 else 2 * Pow2(n - 1)
  }

  lemma MulAssoc(a: int, b: int, c: int)
    ensures a * (b * c) == (a * b) * c
  {
  }

  lemma ProductNonNegative(a: int, b: int)
    ensures a >= 0 && b >= 0 ==> a * b >= 0
  {
    if a > 0 && b > 0 {
      ModArith.MulMagnitude(a, b);
    }
  }

  lemma MulLess(a: int, c: int, m: int)
    requires a < c && m > 0
    ensures a * m < c * m
  {
    ModArith.MulMagnitude(c - a, m);
    assert (c - a) * m == c * m - a * m;
  }

  lemma {:induction false} Pow2Add(a: nat, b: nat)
    ensures Pow2(a + b) == Pow2(a) * Pow2(b)
  {
    if a > 0 {
      Pow2Add(a - 1, b);
      MulAssoc(2, Pow2(a - 1), Pow2(b));
    }
  }

  lemma DoubleScale(p: int, m: int, big: int, half: int)
    requires p == m * big && big == 2 * half
    ensures p == 2 * half * m
  {
  }

  /** The powers of two the shift pair of a b-bit value in an n-bit
      integer works with. */
  lemma Pow2Parts(n: nat, b: nat)
    requires 1 <= b <= n
    ensures Pow2(b) == 2 * Pow2(b - 1)
    ensures Pow2(n - 1) == Pow2(b - 1) * Pow2(n - b)
    ensures Pow2(n) == 2 * Pow2(b - 1) * Pow2(n - b)
  {
    Pow2Add(b - 1, n - b);
    assert b - 1 + (n - b) == n - 1;
    Pow2Add(n - b, b);
    DoubleScale(Pow2(n), Pow2(n - b), Pow2(b), Pow2(b - 1));
  }

  lemma {:induction false} Pow2Below(a: nat, b: nat)
    requires a < b
    ensures 2 * Pow2(a) <= Pow2(b)
    decreases b
  {
    if a + 1 < b {
      Pow2Below(a, b - 1);
    }
  }

  /** A byte spans 2^8 values. */
  lemma ByteRange()
    ensures Pow2(8) == 0x100
  {
    assert Pow2(4) == 16 by {
      assert Pow2(1) == 2 && Pow2(2) == 4 && Pow2(3) == 8;
    }
    Pow2Add(4, 4);
  }

  /** wav_sample_count: the number of whole blocks in the data. */
  function SampleCount(w: Record): (n: int)
    requires |w.format| == FORMAT_SIZE && BlockAlign(w.format) > 0 && w.size >= 0
    ensures n >= 0 && n * BlockAlign(w.format) <= w.size < (n + 1) * BlockAlign(w.format)
  {
    w.size / BlockAlign(w.format)
  }

  /** C's / on int, which truncates toward zero. */
  function CDiv(a: int, d: int): int
    requires d > 0
  {
    if a >= 0 then a / d else -((-a) / d)
  }

  /** wav_sampat: the byte offset of channel chnl of sample sampidx in the
      data. */
  function SampleOffset(w: Record, sampidx: int, chnl: int): (off: int)
    requires |w.format| == FORMAT_SIZE
    ensures chnl >= 0 ==> sampidx * BlockAlign(w.format) <= off
    ensures chnl >= 0 && chnl * BitsPerSample(w.format) / 8 < BlockAlign(w.format) ==>
      off < (sampidx + 1) * BlockAlign(w.format)
  {
    ProductNonNegative(chnl, BitsPerSample(w.format));
    assert (sampidx + 1) * BlockAlign(w.format) == sampidx * BlockAlign(w.format) + BlockAlign(w.format);
    sampidx * BlockAlign(w.format) + CDiv(chnl * BitsPerSample(w.format), 8)
  }

  /** The check wav_fsampat makes before reading: a channel below
      nChannels and a sample below wav_sample_count. */
  predicate InRange(w: Record, sampidx: int, chnl: int)
    requires |w.format| == FORMAT_SIZE && w.size >= 0
    requires 0 <= chnl < Channels(w.format) ==> BlockAlign(w.format) > 0
  {
    0 <= chnl < Channels(w.format) && 0 <= sampidx < SampleCount(w)
  }

  /** A sample index passes the check exactly when its whole block lies in
      the data. */
  lemma InRangeIsWholeBlock(w: Record, sampidx: int, chnl: int)
    requires |w.format| == FORMAT_SIZE && w.size >= 0
    requires 0 <= chnl < Channels(w.format) ==> BlockAlign(w.format) > 0
    ensures InRange(w, sampidx, chnl) <==>
      0 <= chnl < Channels(w.format) && 0 <= sampidx && (sampidx + 1) * BlockAlign(w.format) <= w.size
  {
    if 0 <= chnl < Channels(w.format) && 0 <= sampidx {
      WholeBlocks(SampleCount(w), BlockAlign(w.format), w.size, sampidx);
    }
  }

  /** With n whole blocks of a bytes in size bytes, block i is whole
      exactly when i < n. */
  lemma WholeBlocks(n: int, a: int, size: int, i: int)
    requires a >= 1 && n * a <= size < (n + 1) * a && i >= 0
    ensures i < n <==> (i + 1) * a <= size
  {
    if i < n {
      ModArith.MulMagnitude(n - i, a);
      assert (n - i) * a == n * a - (i + 1) * a + a;
    } else {
      ModArith.MulMagnitude(i + 1 - n, a);
      assert (i + 1 - n) * a == (i + 1) * a - (n + 1) * a + a;
    }
  }

  /** The byte arithmetic behind SampleInsideData: channel chnl of a
      block of a bytes, c channels of b bits each fitting in the block. */
  lemma BlockBytes(a: int, b: int, c: int, chnl: int, sampidx: int, size: int)
    requires a >= 1 && b >= 0 && 0 <= chnl < c && c * b <= 8 * a
    requires 0 <= sampidx && (sampidx + 1) * a <= size
    ensures chnl * b >= 0 && sampidx * a >= 0
    ensures sampidx * a + (chnl * b) / 8 + (b + 7) / 8 <= size
  {
    if chnl > 0 && b > 0 {
      ModArith.MulMagnitude(chnl, b);
    }
    if sampidx > 0 {
      ModArith.MulMagnitude(sampidx, a);
    }
    if chnl + 1 < c && b > 0 {
      MulLess(chnl + 1, c, b);
    }
    assert (chnl + 1) * b == chnl * b + b;
    assert (sampidx + 1) * a == sampidx * a + a;
  }

  /** Where the header is consistent (nChannels samples of wBitsPerSample
      bits fit in a block), every sample that passes the check lies, with
      all of its bytes, inside the data. */
  lemma SampleInsideData(w: Record, sampidx: int, chnl: int)
    requires |w.format| == FORMAT_SIZE && w.size >= 0
    requires 0 <= chnl < Channels(w.format) ==> BlockAlign(w.format) > 0
    requires InRange(w, sampidx, chnl)
    requires Channels(w.format) * BitsPerSample(w.format) <= 8 * BlockAlign(w.format)
    ensures var off := SampleOffset(w, sampidx, chnl);
      0 <= off && off + (BitsPerSample(w.format) + 7) / 8 <= w.size
  {
    InRangeIsWholeBlock(w, sampidx, chnl);
    BlockBytes(BlockAlign(w.format), BitsPerSample(w.format), Channels(w.format), chnl, sampidx, w.size);
  }

  /** v wrapped to a two's-complement integer n bits wide. */
  function Wrap(v: int, n: nat): int
    requires n >= 1
  {
    (v + Pow2(n - 1)) % Pow2(n) - Pow2(n - 1)
  }

  /** Wrapping gives the one value of the signed range that differs from v
      by a multiple of 2^n. */
  lemma WrapOf(v: int, n: nat, j: int, r: int)
    requires n >= 1 && v == j * Pow2(n) + r && -Pow2(n - 1) <= r < Pow2(n - 1)
    ensures Wrap(v, n) == r
  {
    ModArith.DivModUnique(v + Pow2(n - 1), Pow2(n), j, r + Pow2(n - 1));
  }

  /** The signed integer whose low b bits are u. */
  function SignExtend(u: int, b: nat): (v: int)
    requires 1 <= b && 0 <= u < Pow2(b)
    ensures -Pow2(b - 1) <= v < Pow2(b - 1)
  {
    if u < Pow2(b - 1) then u else u - Pow2(b)
  }

  /** SignExtend keeps the low b bits: it differs from u by a multiple of
      2^b. */
  lemma SignExtendLowBits(u: int, b: nat)
    requires 1 <= b && 0 <= u < Pow2(b)
    ensures (SignExtend(u, b) - u) % Pow2(b) == 0
  {
    var p := Pow2(b);
    ModArith.ZeroRem(p);
    if u >= Pow2(b - 1) {
      assert SignExtend(u, b) - u == 0 + -1 * p;
      ModArith.ModAddMultiple(0, -1, p);
    }
  }

  /** SignExtend is the only integer of its range with those low bits. */
  lemma SignExtendUnique(u: int, b: nat, v: int)
    requires 1 <= b && 0 <= u < Pow2(b)
    requires -Pow2(b - 1) <= v < Pow2(b - 1) && (v - u) % Pow2(b) == 0
    ensures v == SignExtend(u, b)
  {
    var s := SignExtend(u, b);
    SignExtendLowBits(u, b);
    if v != s {
      var lo, hi := if v < s then v else s, if v < s then s else v;
      assert (hi - u) % Pow2(b) == (lo - u) % Pow2(b);
      ModArith.ModDistinct(lo - u, hi - u, Pow2(b));
      assert false;
    }
  }

  /** lival <<= n - b; lival >>= n - b; on an n-bit signed integer (n is 64
      for the int64_t of wav_fsampat): the left shift wraps in two's
      complement, the right shift is arithmetic, rounding toward minus
      infinity. */
  function ShiftPair(lival: int, b: nat, n: nat): int
    requires 1 <= b <= n
  {
    Wrap(lival * Pow2(n - b), n) / Pow2(n - b)
  }

  /** x as a multiple of 2 * half plus a signed remainder in [-half, half). */
  lemma SplitSigned(x: int, half: int) returns (q: int)
    requires half >= 1
    ensures var u := x % (2 * half);
      x == q * (2 * half) + (if u < half then u else u - 2 * half)
  {
    var big := 2 * half;
    var d, u := x / big, x % big;
    assert x == d * big + u;
    if u < half {
      q := d;
    } else {
      q := d + 1;
      assert (d + 1) * big == d * big + big;
    }
  }

  /** Scaling x = q * 2half + v by m, wrapping to the signed range of
      p = 2 * half * m and dividing by m again gives back the signed
      remainder v. */
  lemma WrapScaled(x: int, q: int, v: int, m: int, half: int, p: int, h: int)
    requires m >= 1 && half >= 1 && -half <= v < half
    requires x == q * (2 * half) + v
    requires h == half * m && p == 2 * half * m
    ensures ((x * m + h) % p - h) / m == v
  {
    MulAssoc(q, 2 * half, m);
    assert x * m == q * p + v * m;
    MulLess(v, half, m);
    if -half < v {
      MulLess(-half, v, m);
    }
    ModArith.DivModUnique(x * m + h, p, q, v * m + h);
    ModArith.DivModUnique(v * m, m, v, 0);
  }

  /** The shift pair of lival = q * 2^b + v, for v in the signed b-bit
      range, is v. */
  lemma ShiftPairOf(lival: int, b: nat, n: nat, q: int, v: int)
    requires 1 <= b <= n
    requires lival == q * (2 * Pow2(b - 1)) + v && -Pow2(b - 1) <= v < Pow2(b - 1)
    ensures ShiftPair(lival, b, n) == v
  {
    Pow2Parts(n, b);
    WrapScaled(lival, q, v, Pow2(n - b), Pow2(b - 1), Pow2(n), Pow2(n - 1));
    ShiftPairUnfold(lival, b, n);
  }

  lemma ShiftPairUnfold(lival: int, b: nat, n: nat)
    requires 1 <= b <= n
    ensures ShiftPair(lival, b, n)
      == ((lival * Pow2(n - b) + Pow2(n - 1)) % Pow2(n) - Pow2(n - 1)) / Pow2(n - b)
  {
  }

  /** The shift pair keeps the low b bits of lival and sign-extends them. */
  lemma ShiftPairSignExtends(lival: int, b: nat, n: nat)
    requires 1 <= b <= n
    ensures ShiftPair(lival, b, n) == SignExtend(lival % Pow2(b), b)
  {
    var half := Pow2(b - 1);
    assert Pow2(b) == 2 * half;
    var q := SplitSigned(lival, half);
    var u := lival % Pow2(b);
    ShiftPairOf(lival, b, n, q, if u < half then u else u - Pow2(b));
  }

  /** Values that differ by a multiple of 2^n agree in their low b bits. */
  lemma LowBitsAgree(x: int, y: int, k: int, b: nat, n: nat)
    requires b <= n && x == y + k * Pow2(n)
    ensures x % Pow2(b) == y % Pow2(b)
  {
    var m, q := Pow2(n - b), Pow2(b);
    Pow2Add(n - b, b);
    MulAssoc(k, m, q);
    ModArith.ModAddMultiple(y, k * m, q);
  }

  /** v / p for a v in [-p, p): a value in [-1, 1). */
  function Ratio(v: int, p: int): (r: real)
    requires p > 0 && -p <= v < p
    ensures -1.0 <= r < 1.0
    ensures r * p as real == v as real
  {
    v as real / p as real
  }

  /** The PCM branch of wav_fsampat with the divisor it evidently intends,
      2^(b-1): the sign-extended low b bits, scaled into [-1, 1). */
  function PcmValue(lival: int, b: nat): (r: real)
    requires 1 <= b <= 64
    ensures r == Ratio(SignExtend(lival % Pow2(b), b), Pow2(b - 1))
  {
    ShiftPairSignExtends(lival, b, 64);
    Ratio(ShiftPair(lival, b, 64), Pow2(b - 1))
  }

  /** 1 << (b - 1) evaluated as a C int: 2^(b-1) up to b = 31. For b = 32
      the shift is undefined in C; common compilers give INT_MIN. */
  function IntShift(b: nat): (d: int)
    requires 1 <= b <= 32
    ensures b < 32 ==> d == Pow2(b - 1)
    ensures b == 32 ==> d == -Pow2(b - 1)
  {
    var p := Pow2(b - 1);
    if b < 32 then
      Pow2Below(b - 1, 31);
      WrapOf(p, 32, 0, p);
      Wrap(p, 32)
    else
      WrapOf(p, b, 1, -p);
      Wrap(p, 32)
  }

  /** The PCM branch as written: (double)lival / (1 << (b - 1)), with an
      int divisor. */
  function AsWrittenPcmValue(lival: int, b: nat): (r: real)
    requires 1 <= b <= 32
    ensures b < 32 ==> r == PcmValue(lival, b)
  {
    ShiftPair(lival, b, 64) as real / IntShift(b) as real
  }

  /** For 32-bit PCM the int divisor is INT_MIN: the stored sample
      0x80000000, the most negative one, comes out as +1.0 instead of -1.0. */
  lemma PcmDivisorOverflow()
    ensures AsWrittenPcmValue(Pow2(31), 32) == 1.0
    ensures PcmValue(Pow2(31), 32) == -1.0
  {
    var x := Pow2(31);
    var y := x as real;
    assert Pow2(32) == 2 * x;
    UnitQuotients(y);
    assert AsWrittenPcmValue(x, 32) == 1.0 by {
      ShiftPairOf(x, 32, 64, 1, -x);
      assert IntShift(32) == -x;
      assert AsWrittenPcmValue(x, 32) == (-y) / (-y);
    }
    assert PcmValue(x, 32) == -1.0 by {
      ModArith.DivModUnique(x, Pow2(32), 0, x);
      assert SignExtend(x % Pow2(32), 32) == -x;
      assert PcmValue(x, 32) == (-y) / y;
    }
  }

  lemma UnitQuotients(y: real)
    requires y > 0.0
    ensures (-y) / (-y) == 1.0 && (-y) / y == -1.0
  {
  }

  /** The unsigned value of little-endian bytes. */
  function LeValue(s: seq<Byte>): (v: int)
    ensures 0 <= v < Pow2(8 * |s|)
  {
    if s == [] then 0
    else
      Pow2Add(8, 8 * (|s| - 1));
      ByteRange();
      s[0] + 256 * LeValue(s[1..])
  }

  /** Prepending a byte s0 to x: the remainder modulo 256 * p is s0 in
      front of the remainder of x modulo p. */
  lemma ByteShiftMod(s0: int, x: int, p: int, big: int, y: int)
    requires 0 <= s0 < 256 && p >= 1 && big == 256 * p && y == x % p
    ensures (s0 + 256 * x) % big == s0 + 256 * y
  {
    var q := x / p;
    assert x == q * p + y;
    MulAssoc(256, q, p);
    assert s0 + 256 * x == q * big + (s0 + 256 * y);
    ModArith.DivModUnique(s0 + 256 * x, big, q, s0 + 256 * y);
  }

  /** The low 8k bits of a little-endian value are its first k bytes. */
  lemma {:induction false} LeValuePrefix(s: seq<Byte>, k: nat)
    requires k <= |s|
    ensures LeValue(s) % Pow2(8 * k) == LeValue(s[..k])
  {
    if k == 0 {
      ModArith.DivModUnique(LeValue(s), 1, LeValue(s), 0);
      assert LeValue(s) % Pow2(8 * k) == LeValue(s[..k]);
    } else {
      var p := Pow2(8 * (k - 1));
      Pow2Add(8, 8 * (k - 1));
      ByteRange();
      assert Pow2(8 * k) == 256 * p;
      LeValuePrefix(s[1..], k - 1);
      assert s[1..][..k - 1] == s[..k][1..];
      var x, y := LeValue(s[1..]), LeValue(s[..k][1..]);
      assert LeValue(s) == s[0] + 256 * x;
      assert LeValue(s[..k]) == s[0] + 256 * y;
      ByteShiftMod(s[0], x, p, Pow2(8 * k), y);
      assert LeValue(s) % Pow2(8 * k) == LeValue(s[..k]);
    }
  }

  /** The eight bytes *(int64_t*)samp loads at offset off; bytes past the
      end of the data are taken as zero. */
  function Word(data: seq<Byte>, off: int): (s: seq<Byte>)
    requires off >= 0
    ensures |s| == 8
    ensures forall i :: 0 <= i < 8 && off + i < |data| ==> s[i] == data[off + i]
  {
    seq(8, i requires 0 <= i < 8 => if off + i < |data| then data[off + i] else 0)
  }

  /** The PCM branch from the load on: the eight bytes at off read as an
      int64_t, reduced to their low b bits and scaled. */
  function PcmSample(data: seq<Byte>, off: int, b: nat): (r: real)
    requires off >= 0 && 1 <= b <= 64
    ensures r == Ratio(SignExtend(LeValue(Word(data, off)) % Pow2(b), b), Pow2(b - 1))
  {
    var word := LeValue(Word(data, off));
    var lival := Int64Of(word);
    Int64OfLowBits(word, b);
    PcmValue(lival, b)
  }

  /** An unsigned 64-bit pattern read as an int64_t. */
  function Int64Of(word: int): (x: int)
    requires 0 <= word < Pow2(64)
    ensures -Pow2(63) <= x < Pow2(63)
  {
    if word < Pow2(63) then word else word - Pow2(64)
  }

  /** Reading the pattern as signed leaves its low b bits alone. */
  lemma Int64OfLowBits(word: int, b: nat)
    requires 0 <= word < Pow2(64) && b <= 64
    ensures Int64Of(word) % Pow2(b) == word % Pow2(b)
  {
    if word < Pow2(63) {
      LowBitsAgree(word, word, 0, b, 64);
    } else {
      LowBitsAgree(word - Pow2(64), word, -1, b, 64);
    }
  }

  datatype Sample = NotANumber | Pcm(value: real) | OtherEncoding

  /** wav_fsampat: NaN outside the channels and whole blocks of the data;
      for PCM, the int64_t at the sample's offset, reduced by the shift pair
      to its low wBitsPerSample bits and scaled into [-1, 1). Other encodings
      are not decoded here. */
  function FSampleAt(w: Record, sampidx: int, chnl: int): (s: Sample)
    requires |w.format| == FORMAT_SIZE && w.size >= 0
    requires 0 <= chnl < Channels(w.format) ==> BlockAlign(w.format) > 0
    requires InRange(w, sampidx, chnl) && FormatTag(w.format) == WAVE_FORMAT_PCM ==>
      1 <= BitsPerSample(w.format) <= 64
    ensures s.NotANumber? <==> !InRange(w, sampidx, chnl)
    ensures s.Pcm? <==> InRange(w, sampidx, chnl) && FormatTag(w.format) == WAVE_FORMAT_PCM
    ensures s.Pcm? ==>
      var b := BitsPerSample(w.format);
      var word := LeValue(Word(w.data, SampleOffset(w, sampidx, chnl)));
      s.value == Ratio(SignExtend(word % Pow2(b), b), Pow2(b - 1))
  {
    if !InRange(w, sampidx, chnl) then NotANumber
    else if FormatTag(w.format) != WAVE_FORMAT_PCM then OtherEncoding
    else
      OffsetNonNegative(w, sampidx, chnl);
      Pcm(PcmSample(w.data, SampleOffset(w, sampidx, chnl), BitsPerSample(w.format)))
  }

  lemma OffsetNonNegative(w: Record, sampidx: int, chnl: int)
    requires |w.format| == FORMAT_SIZE && 0 <= sampidx && 0 <= chnl
    ensures SampleOffset(w, sampidx, chnl) >= 0
  {
    if sampidx > 0 && BlockAlign(w.format) > 0 {
      ModArith.MulMagnitude(sampidx, BlockAlign(w.format));
    }
    if chnl > 0 && BitsPerSample(w.format) > 0 {
      ModArith.MulMagnitude(chnl, BitsPerSample(w.format));
    }
  }

  /** With a consistent header and a whole number of bytes per sample, a
      PCM sample that passes the check is read from its own bytes only: the
      rest of the eight-byte load is shifted out. */
  lemma PcmUsesOwnBytes(w: Record, sampidx: int, chnl: int)
    requires |w.format| == FORMAT_SIZE && w.size >= 0 && w.size == |w.data|
    requires 0 <= chnl < Channels(w.format) ==> BlockAlign(w.format) > 0
    requires InRange(w, sampidx, chnl) && FormatTag(w.format) == WAVE_FORMAT_PCM
    requires 1 <= BitsPerSample(w.format) <= 64 && BitsPerSample(w.format) % 8 == 0
    requires Channels(w.format) * BitsPerSample(w.format) <= 8 * BlockAlign(w.format)
    ensures var b, off := BitsPerSample(w.format), SampleOffset(w, sampidx, chnl);
      0 <= off && off + b / 8 <= |w.data| &&
      FSampleAt(w, sampidx, chnl).value == Ratio(SignExtend(LeValue(w.data[off..off + b / 8]), b), Pow2(b - 1))
  {
    var b, off := BitsPerSample(w.format), SampleOffset(w, sampidx, chnl);
    SampleInsideData(w, sampidx, chnl);
    var k := b / 8;
    assert 8 * k == b;
    var word := Word(w.data, off);
    LeValuePrefix(word, k);
    assert word[..k] == w.data[off..off + k];
    assert LeValue(word) % Pow2(b) == LeValue(w.data[off..off + k]);
  }
}
