# spectro core in Dafny

A model of the two computational parts of spectro, a terminal spectrum
analyser written in C.

- `fourier.c`: the frequency table, the rational approximation of a block
  length and the spectrum bank.
  - A frequency table holds one block of sine and cosine reference values.
  - It keeps four running sums (correlation and norm against each wave) over
    a sliding window of the pushed samples, or over all of them.
  - A spectrum is an array of such tables, one cycle per block each, that all
    receive the same samples.
- `wav.c`: the RIFF/WAVE reader and sample access.
  - `read_wav` walks the chunks of a WAVE file, with its header checks and
    error precedence.
  - `wav_sample_count` and the byte offset of `wav_sampat`.
  - The bounds checks and the PCM sign extension of `wav_fsampat`.

Modules (one file each):

| file | module | contents |
|---|---|---|
| `mod_arith.dfy` | `ModArith` | remainder facts; C's truncating `%` (`TruncRem`) |
| `windowed_sums.dfy` | `WindowedSums` | the windowed correlation and norm as explicit sums, and how one push slides them |
| `rational_approx.dfy` | `Rational` | `rational_approx` as a loop over the convergent matrix, on a rational target, proved to return the convergent of the continued-fraction expansion (`Expand`) at which the loop first stops |
| `freq_table.dfy` | `FreqTables` | `class FreqTable` (`struct freqtbl_s`), updated in place by its methods |
| `spectrum.dfy` | `Spectra` | `class Spectrum` (`struct spectrum_s`) over a sequence of tables |
| `riff_wave.dfy` | `RiffWave` | the chunk walk as a function (`Walk`) and as a loop filling `class WavFile` in place (`ReadWav`), proved equal |
| `wav_samples.dfy` | `WavSamples` | sample count, offsets, range check, 64-bit shift pair, PCM scaling |

Two invariants carry most of the proof work:

- **Sliding window.** `FreqTable.Valid` says each running sum equals an
  explicit windowed sum over the ghost `History` of pushed samples. Sample j
  is paired with table entry j mod `samples`. `Push` keeps `Valid` and
  appends the sample to `History`.
  - This rests on the window buffer holding sample p at slot p mod
    `winwidth` (`WindowHolds`).
  - The eviction step subtracts the product of sample k − w with the table
    value at phase (k − w) mod `samples`, computed with C's truncating `%`
    (`OldestPhase`).
- **Chunk walk.** `ReadWav`'s loop invariant says the walk from the cursor,
  started from the record read so far, equals the walk of the whole file
  from byte 12. The lemmas then describe that walk through the list of
  chunks it visits (`Chunks`).

## Model

| member | source | states |
|---|---|---|
| FreqTables.BlockFrequency | fourier.c:36 | the table frequency f satisfies f · samples = sample_freq · cycles |
| FreqTables.FreqTable.Valid | fourier.c:10-28 | the invariant of `struct freqtbl_s`: blkidx is the number of pushed samples mod samples; with a bounded window, winidx is that number mod winwidth, samps_in_win is the fill count, and the buffer holds every in-window sample at its slot; with no window, samps_in_win counts every sample; the four running sums equal the windowed correlations and norms over the pushed samples |
| FreqTables.FreqTable.Fill | fourier.c:32-63 | both tables have `samples` entries, entry i being sin/cos of i · 2π · cycles / samples; frequency · samples = sample_freq · cycles; phase, window width, cursor, fill count and all four sums are zero; there is no window; the table is valid with an empty history |
| FreqTables.FreqTable.Make | fourier.c:65-71 | the result is null exactly when samples_perblk < cycles_perblk; otherwise it is a fresh valid table as `Fill` builds it, with no window |
| FreqTables.FreqTable.Gen | fourier.c:109-113 | num/den is the convergent of sample_rate / freq at which `rational_approx` first stops, so it lies within `error` of that ratio, with den ≥ 1; the result is null exactly when num < den; otherwise it is a fresh valid table of num samples and den cycles with its wave data, not yet started: window width 0 and no window buffer |
| Rational.RationalApprox | fourier.c:73-107 | the loop ends; the final matrix [num ln; den ld] is the continued-fraction expansion of the target after `steps` quotients, and `steps` is the first point where the loop may stop; den ≥ 1 and num ≥ 0; \|target − num/den\| < error, whether the loop stopped on an exact remainder or on the tolerance; the matrix has determinant (−1)^steps |
| Rational.Expand | fourier.c:86-103 | Euclid's algorithm on the target tp/tq, each quotient folded into the matrix from the identity: the remainder wn/wd stays positive, and wd = 0 once a remainder was exact |
| Rational.ExpandRatio | fourier.c:82-102 | after any number of quotients the target is still (n·work + ln)/(d·work + ld), with work = wn/wd, cross-multiplied |
| Rational.ExpandSigns | fourier.c:87-99 | from the first quotient on, n, ln, ld ≥ 0, d ≥ 1, and the remainder wn/wd exceeds one (wn > wd); the fractional part the loop inverts is below one |
| Rational.ExpandDet | fourier.c:78-99 | while no remainder before the last was exact, the determinant after k quotients is (−1)^k |
| Rational.ExpandFlipsDet | fourier.c:90-99 | a quotient of a remainder that is not exact negates the determinant |
| Rational.ExpandHalts | fourier.c:101 | after an exact remainder the expansion does not move |
| Rational.ExpandStep | fourier.c:87-102 | one more quotient of a remainder that is not exact is one iteration of the loop body |
| Rational.NoStopBefore | fourier.c:86-103 | if the loop has not stopped up to k quotients, it did not stop at any j in 1..k |
| Rational.FirstStopUnique | fourier.c:86-103 | the loop stops at one place only, so the convergent returned is determined by the target and the tolerance |
| Rational.FirstStopDet | fourier.c:78-103 | where the loop first stops the determinant is (−1)^steps, so the result is in lowest terms |
| Rational.StopExact | fourier.c:101 | the exit on an exact remainder is the first stop, and num/den is the target itself |
| Rational.StopWithin | fourier.c:103 | the exit on the tolerance is the first stop |
| Rational.GoOn | fourier.c:101-103 | a remainder that is not exact and a convergent outside the tolerance continue the loop |
| Rational.ExactExpansion | fourier.c:101 | once a remainder is exact, num · tq = tp · den: the convergent is the target |
| Rational.IntegerTarget | fourier.c:87-101 | for an integer target the loop stops after its first quotient and returns the target over 1, whatever the tolerance |
| Rational.PostMultiply | fourier.c:90-99 | multiplying by [a 1; 1 0] negates the determinant, and the old current convergent becomes the previous one |
| Rational.DetUnitCoprime | fourier.c:78-99 | a convergent whose matrix has determinant ±1 is in lowest terms: every positive common divisor of num and den is 1 |
| Rational.StepKeepsRatio | fourier.c:94-102 | with work = wn/wd, one step keeps n·wn + ln·wd = tp and d·wn + ld·wd = tq, so the target stays (n·work + ln)/(d·work + ld) |
| Rational.StepKeepsSigns | fourier.c:94-99 | from the first step on, the convergents stay non-negative and d ≥ 1 |
| Rational.ExactConvergent | fourier.c:101 | when the remainder is an exact integer, num/den equals the target |
| Rational.ExactCross | fourier.c:101 | the same, cross-multiplied: num · tq = tp · den |
| FreqTables.FreqTable.Clear | fourier.c:145-154 | phase, cursor, fill count and the four sums become zero, and the history is empty; the window width, the window buffer and the wave tables do not change |
| FreqTables.FreqTable.Init | fourier.c:125-136 | the table is cleared; samples_perwin ≤ 0 gives width −1 and no window buffer; otherwise the width is samples_perwin and a fresh buffer has that length |
| FreqTables.FreqTable.Start | fourier.c:138-143 | the table is cleared and its window is `BlockWindow` of the duration's sample count: a fresh buffer of that width |
| FreqTables.MaxSamplesIsDuration | fourier.c:139 | the truncated maxdur · frequency · samples / cycles is the number of whole samples in maxdur seconds at the sample rate |
| FreqTables.BlockWindow | fourier.c:140-142 | the window is a whole number of blocks, at least five; with room for at least five blocks it is the largest whole number of blocks within maxsamps |
| FreqTables.FreqTable.Get | fourier.c:158-164 | the reading is ready exactly when the window is full (always, for an unbounded window) and both windowed norms are positive; then its two components are the windowed correlations divided by the windowed norms |
| FreqTables.Reading.MagnitudeSquared | fourier.c:160 | the squared amplitude of a ready reading is never negative, so a reading never looks like the −1 sentinel |
| FreqTables.FreqTable.Freq | fourier.c:208-210 | frequency · samples = sample_freq · cycles |
| FreqTables.FreqTable.Push | fourier.c:166-204 | the table stays valid and the history gains the sample; phase becomes (phase + 1) mod samples; in a bounded window the buffer is the old buffer with the sample at the old cursor, the cursor advances mod the width, and the fill count grows until it equals the width; otherwise the buffer is untouched and the fill count grows by one |
| FreqTables.FreqTable.UpdateSums | fourier.c:169-193 | after the sums update, the four sums equal the windowed sums over history + [sample]; phase, cursor, width and buffer are unchanged; the fill count grows only while the window is not full |
| FreqTables.PushTracks | fourier.c:170-190 | adding the new sample's products and, in a full window, subtracting the evicted sample's products keeps all four sums equal to the windowed sums |
| FreqTables.EvictSum | fourier.c:179-190 | with a full window, sum + table[k mod S]·x − table[(k − w) mod S]·x(k−w) is the windowed sum after the push |
| FreqTables.FillSum | fourier.c:170-175 | with a window not yet full (or unbounded), sum + table[k mod S]·x is the windowed sum after the push |
| FreqTables.PushNorm | fourier.c:172-190 | the norm update, with and without eviction, gives the windowed norm after the push |
| FreqTables.WindowAfterWrite | fourier.c:195-200 | writing sample k at slot k mod w keeps every sample still in the window at its slot |
| FreqTables.OldestPhase | fourier.c:181-182 | the truncating remainder, shifted up by samples when negative, is (blkidx − winwidth) mod samples and lies in [0, samples) |
| FreqTables.EvictedPhase | fourier.c:181 | computing the oldest phase from blkidx = k mod S gives the phase of sample k − w |
| FreqTables.EvictedSlot | fourier.c:186 | the cursor slot k mod w holds sample k − w, the one the full window evicts |
| WindowedSums.SlideEvicting | fourier.c:179-190 | with a full window (k ≥ w > 0), one push adds table[k mod S]·x and removes the product of sample k − w with the table at its own phase |
| WindowedSums.SlideFilling | fourier.c:170-175 | with a window still filling up, or unbounded, one push adds table[k mod S]·x and removes nothing |
| WindowedSums.SlideWindowedNorm | fourier.c:172-190 | the norm slides the same way, with squares of the table values |
| WindowedSums.WindowedNorm | fourier.c:172 | a windowed norm, a sum of squares, is never negative |
| ModArith.TruncRem | fourier.c:181 | C's `%` with a positive divisor: the result has the sign of the dividend, lies strictly within (−b, b), and differs from the dividend by a multiple of b |
| ModArith.WrapTruncRem | fourier.c:181-182 | the truncating remainder, moved up by b when negative, is the Euclidean remainder |
| ModArith.ModSucc | fourier.c:198-203 | advancing a counter kept reduced modulo m gives the count plus one, reduced |
| Spectra.Spectrum.Gen | fourier.c:224-255 | null exactly when low ≤ 0, high ≤ 0, low > high or count < 2; otherwise `count` tables in index order, table i with one cycle in ⌊sample_freq / f_i⌋ samples, the wave data of that block, started with the window of maxdur seconds; each table has its own storage |
| Spectra.Spectrum.NewSlots | fourier.c:244-252 | table i is built and started from nominal frequency i; the tables' storage is fresh and pairwise disjoint |
| Spectra.Spectrum.NewSlot | fourier.c:247-249 | one table with one cycle in ⌊sample_freq / f⌋ samples, started |
| Spectra.Spectrum.Assemble | fourier.c:233-242 | the bank holds the given tables in order, with the given bounds and an empty history |
| Spectra.Spectrum.Clear | fourier.c:266-270 | every table is cleared and keeps its window width and window buffer; the bank's history is empty and the bank stays valid |
| Spectra.Spectrum.ClearTables | fourier.c:267-269 | every table, in index order, is cleared and keeps its storage, its window width and its window buffer |
| Spectra.ClearSlot | fourier.c:268 | a started table stays started, with an empty history and the same window width and buffer |
| Spectra.Spectrum.Push | fourier.c:287-291 | every table takes the sample and keeps its window width and window buffer; the bank's history, which every table shares, gains it |
| Spectra.Spectrum.PushTables | fourier.c:288-290 | every table, in index order, has the sample appended to its history and keeps its storage, its window width and its window buffer |
| Spectra.PushSlot | fourier.c:289 | a started table stays started, with the sample appended to its history and the same window width and buffer |
| Spectra.Spectrum.Count | fourier.c:275-277 | the count is the number of tables, at least two |
| Spectra.Spectrum.Freq | fourier.c:280-282 | frequency i times table i's block length is the sample rate |
| Spectra.Spectrum.Get | fourier.c:294-296 | the reading of table i, whose history is the bank's history |
| RiffWave.U32 | wav.c:51 | a little-endian uint32_t lies in [0, 2^32) |
| RiffWave.KindOf | wav.c:77-86 | the `strncmp` dispatch: "fmt" is matched on three bytes and is tried first, yet it shadows neither "fast" nor "data"; each kind is chosen exactly when the id matches its name |
| RiffWave.Step | wav.c:75-93 | one pass of the loop body: a "fmt" chunk overwrites the first min(cksize, 40) bytes of the format, a "fast" chunk of at least four bytes sets dwSampleLength, a "data" chunk appends its body and adds cksize modulo 2^32, any other chunk changes nothing; the format stays 40 bytes |
| RiffWave.Walk | wav.c:74-94 | the chunk loop from a position: Step applied to each chunk in turn until fewer than four bytes remain; the format stays 40 bytes |
| RiffWave.Parse | wav.c:39-110 | `read_wav`: NotRiff, then NoData for a RIFF size ≤ 4, then NotWave, then the chunk walk from byte 12, then NoData without a data chunk before NoFormat for a zero format tag; otherwise the record. Its properties are stated by ParseErrors and ParsedWav |
| RiffWave.NextPos | wav.c:74-93 | the next chunk id is read after the 8-byte header and within the file |
| RiffWave.OtherChunkSkipped | wav.c:90-93 | a chunk that is not fmt, fast or data changes nothing and is skipped by exactly its declared size |
| RiffWave.FmtChunkOverwrites | wav.c:77-83 | an id starting with "fmt" overwrites the first min(cksize, 40) bytes of the format record with the body, keeps the rest of the record, and the walk resumes after the whole body |
| RiffWave.LaterFmtWins | wav.c:77-83 | a later fmt body hides an earlier one wherever it is at least as long |
| RiffWave.FastChunkConsumesFour | wav.c:84-85 | a "fast" chunk with cksize ≥ 4 sets dwSampleLength and consumes only those four bytes; with cksize < 4 it consumes nothing; the rest of the body is read as the next chunk |
| RiffWave.StepData | wav.c:86-88 | a step appends the body of a "data" chunk and nothing otherwise |
| RiffWave.WavFile.constructor | wav.c:64-70 | the new wav holds the zeroed starting record |
| RiffWave.WavFile.ReadChunk | wav.c:74-93 | one pass of the chunk loop leaves the wav as the walk's step from the old wav, and returns the walk's next position |
| RiffWave.ReadWav | wav.c:39-110 | the error code is the one `Parse` gives; the wav is null exactly when `Parse` gives none, and otherwise it is a fresh wav holding `Parse`'s record |
| RiffWave.WalkData | wav.c:86-88 | the walk appends the "data" bodies in file order |
| RiffWave.WalkSize | wav.c:87-89 | the size is the sum of the declared sizes of the data chunks, while that sum is below 2^32 |
| RiffWave.DataBodiesLength | wav.c:87-89 | the concatenated bodies are as long as the declared sizes add up to |
| RiffWave.WalkHasData | wav.c:86-100 | the walk records data exactly when it meets a "data" chunk |
| RiffWave.WalkFormat | wav.c:77-83 | the format record is the result of the fmt chunks overwriting it in turn |
| RiffWave.ParseErrors | wav.c:44-109 | NotRiff exactly when the first four bytes are not "RIFF"; NotWave exactly for RIFF with size > 4 and form type other than "WAVE"; NoData exactly for RIFF with size ≤ 4, or a WAVE form with no data chunk, whatever the format; NoFormat exactly for a WAVE form with data and a zero format tag after its fmt chunks; a wav is returned exactly when the error is WavOk |
| RiffWave.ParsedWav | wav.c:86-109 | a wav read without error is a WAVE form; its data is the data bodies in file order; its size is their total declared size and the length of the data; its format is what the fmt chunks left, with a non-zero tag |
| WavSamples.SampleCount | wav.c:127-129 | the count n is the number of whole blocks: n · nBlockAlign ≤ size < (n + 1) · nBlockAlign |
| WavSamples.SampleOffset | wav.c:150-152 | `wav_sampat`'s byte offset, with C's truncating division for the channel; for a non-negative channel whose bits fit in a block, the offset lies inside block sampidx |
| WavSamples.InRange | wav.c:156-157 | the check `wav_fsampat` makes: 0 ≤ chnl < nChannels and 0 ≤ sampidx < size / nBlockAlign |
| WavSamples.InRangeIsWholeBlock | wav.c:156-157 | a sample passes the check exactly when the channel is in [0, nChannels) and the whole block of sample sampidx lies in the data |
| WavSamples.OffsetNonNegative | wav.c:151 | the offset of a non-negative sample and channel is non-negative |
| WavSamples.SampleInsideData | wav.c:150-159 | when nChannels samples of wBitsPerSample bits fit in a block, every byte of a sample that passes the check lies inside the data |
| WavSamples.WrapOf | wav.c:165 | an n-bit two's-complement wrap gives the one value of the signed range that differs by a multiple of 2^n |
| WavSamples.SignExtend | wav.c:164-166 | the sign extension of b bits lies in [−2^(b−1), 2^(b−1)) |
| WavSamples.SignExtendLowBits | wav.c:164-166 | the sign extension keeps the low b bits |
| WavSamples.SignExtendUnique | wav.c:164-166 | the sign extension is the only value of the signed range with those low bits |
| WavSamples.ShiftPairOf | wav.c:165-166 | the shift pair of q · 2^b + v, for v in the signed b-bit range, is v |
| WavSamples.ShiftPairSignExtends | wav.c:165-166 | shifting left then arithmetically right by 64 − b sign-extends the low b bits of the value |
| WavSamples.LowBitsAgree | wav.c:164 | values differing by a multiple of 2^n agree in their low b ≤ n bits |
| WavSamples.Int64Of | wav.c:164 | the loaded 64-bit pattern, read as int64_t, lies in [−2^63, 2^63) |
| WavSamples.Int64OfLowBits | wav.c:164 | reading the pattern as signed leaves its low b bits unchanged |
| WavSamples.LeValue | wav.c:164 | the little-endian value of k bytes lies in [0, 2^(8k)) |
| WavSamples.LeValuePrefix | wav.c:164 | the low 8k bits of a little-endian value are the value of its first k bytes |
| WavSamples.Word | wav.c:164 | the eight loaded bytes are the data's bytes at the offset, wherever the data has them |
| WavSamples.Ratio | wav.h:35 | v / p for v in [−p, p) lies in [−1, 1) and times p gives v back |
| WavSamples.PcmValue | wav.c:163-167 | the decoded value is the sign-extended low wBitsPerSample bits divided by 2^(b−1), so it lies in [−1, 1) |
| WavSamples.PcmSample | wav.c:164-167 | the PCM branch from the 8-byte load on gives the sign-extended low b bits of the loaded word, scaled by 2^(b−1) |
| WavSamples.IntShift | wav.c:167 | `1 << (b − 1)` as a C int is 2^(b−1) for b < 32, and −2^31 for b = 32 |
| WavSamples.AsWrittenPcmValue | wav.c:167 | the division as written agrees with the corrected value for every width below 32 bits |
| WavSamples.PcmDivisorOverflow | wav.c:167 | for 32-bit PCM the sample 0x80000000 comes out as +1.0 as written, and −1.0 when corrected |
| WavSamples.FSampleAt | wav.c:154-167 | NaN exactly when the channel or the sample index fails the check; a PCM value exactly when the check passes and the tag is PCM; that value is the sign-extended low wBitsPerSample bits of the word at the sample's offset, divided by 2^(b−1). It decodes with the corrected divisor (see Findings), so for 32-bit PCM it differs from wav.c:167 as written |
| WavSamples.PcmUsesOwnBytes | wav.c:159-167 | with a consistent header and whole bytes per sample, a PCM sample that passes the check is decoded from its own b/8 bytes, all inside the data |

## Left out

- Floating point: every `double` is a `real`, with no rounding.
- sin and cos: supplied to the constructors as functions on reals.
- hypot: `Get` returns the two normalized components, and `MagnitudeSquared` gives the square of the amplitude.
- The logarithmic frequency sequence of `gen_spectrum` (`pow`, `f *= ratio`) and its `ratio` field: `Spectrum.Gen` takes the nominal frequencies as a given sequence.
- The `abs(count)` in `gen_spectrum` has no effect: count ≥ 2 at that point.
- `rational_approx` works on doubles in C. Here the target is a positive rational tp/tq and the remainder `work` is the rational wn/wd. The `(int)work` truncation and its overflow are not modelled. `FreqTable.Gen` takes the frequency as a fraction and the sample rate as an integer.
- `gen_spectrum` with ⌊sample_freq / f⌋ = 0 (fourier.c:247-249): `fill_freqtbl` returns before writing anything (fourier.c:34), C ignores the null result, and `start_freqtbl` then reads the uninitialised frequency, samples and cycles of the malloc'd slot (fourier.c:139-140, 241). `Spectrum.Gen` requires every block to have at least one sample.
- `start_freqtbl`: the unsigned conversions and the `cycs * samples` product do not wrap, since integers are unbounded. It requires maxdur ≥ 0 and a non-negative frequency, so that the unsigned conversion is defined.
- `spec_freq` and `spec_get` read out of bounds for an index ≥ the count. The model requires the index to be in range.
- malloc, realloc and free, `free_freqtbl`, `free_spectrum`, `free_wav`: Dafny allocation replaces them.
- `freqtbl_samps_perblk` is declared in fourier.h but defined nowhere, so it is not part of this model.
- Each frequency table's wave data is a read-only `seq`, filled through arrays in `Fill`: nothing writes the tables after `fill_freqtbl`.
- Each spectrum table is a separate object; the model does not capture that C stores them contiguously, one array element per table.
- File I/O: `read_wav` reads a byte sequence, not a `FILE*`. Short reads and `fseek` past the end are excluded by `Readable`, which requires every header field and chunk the loop reads to be present in full.
- RiffWave.WalkSize: the uint32_t `size` is added modulo 2^32 in `Step`. The lemmas assume the data chunks add up to less than 2^32 bytes, because beyond that C's realloc size wraps and the copy overruns the buffer.
- The `wv->data == NULL` test: `realloc` of a zero-length first data chunk may or may not return NULL, depending on the allocator. `hasData` records that a data chunk was met.
- Host layout: the format record is its 40 bytes, little-endian with no padding, as on the targets the code is built for.
- A zero nBlockAlign makes `wav_sample_count` and the check in `wav_fsampat` divide by zero. `SampleCount` requires nBlockAlign > 0, and so does the check once the channel passes.
- `wav_sampat` returns a pointer; `SampleOffset` gives its byte offset. Overflow of the C `int` offset product is not modelled.
- The 8-byte `*(int64_t*)` load reads past the sample and possibly past the data; `Word` takes bytes beyond the data as zero.
- The signed left shift of a negative `int64_t` is undefined in C; it is modelled as a two's-complement wrap. `FSampleAt` requires 1 ≤ wBitsPerSample ≤ 64 for PCM, where the shift counts are defined.
- WavSamples.AsWrittenPcmValue: covers only widths up to 32, because `1 << (b − 1)` on a C `int` is undefined beyond that. At 32 it is undefined too; the model takes INT_MIN, the value on common compilers. The corrected `PcmValue` covers up to 64.
- `samps_in_win` is a C `int` that `freqtbl_push` increments without bound when the window is unbounded or the table was never started (fourier.c:192), so it overflows after 2^31 − 1 pushes. The model's `sampsInWin` grows forever.
- FreqTable.Fill and FreqTable.Make require cyclesPerBlk ≥ 1, but `make_freqtbl` (fourier.h:8) accepts cycles ≤ 0. Every visible caller passes at least 1: `gen_spectrum` passes 1 and `rational_approx` returns a denominator ≥ 1.
- IEEE-float, μ-law and A-law decoding, and the fall-through from the float case into the μ-law case: `FSampleAt` returns `OtherEncoding` for every non-PCM tag. The float branch reinterprets memory. In the μ-law and A-law branches, `(lival << 1) & 1` discards the mantissa.
- A format tag with no case makes `wav_fsampat` fall off its end without a return value; `OtherEncoding` stands in for it.
- `wav_sample_freq`, `wav_duration`, `wav_attime`, `wav_atindex`: field reads and float conversions.

## Findings

| source | as written | input that shows it | evidently intended | confidence | as-written member | corrected member |
|---|---|---|---|---|---|---|
| wav.c:167 | the PCM value is divided by `1 << (wBitsPerSample - 1)`, an `int`, whose value for 32-bit samples (`1 << 31`) is undefined in C and INT_MIN (−2^31) on common compilers | a 32-bit PCM file whose sample bytes are `00 00 00 80` (the most negative sample, −2^31): as written it decodes to +1.0, outside the promised [−1, 1); every other 32-bit sample also has its sign flipped | divide by 2^(b−1) as a wide or floating value, giving −1.0 for that sample and a value in [−1, 1) for every sample | not executed | WavSamples.AsWrittenPcmValue, WavSamples.PcmDivisorOverflow | WavSamples.PcmValue |
