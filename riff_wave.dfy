/** The RIFF/WAVE reader of wav.c: the header checks of read_wav, its walk
    over the chunks of the WAVE form and its error precedence. The file is
    the whole byte sequence, read front to back; a byte is an integer in
    0..255 and multi-byte fields are little-endian. */
module RiffWave {
  import ModArith

  type Byte = b: int | 0 <= b < 256

  datatype Option<T> = None | Some(value: T)

  /** wav_err, in the order wav.h declares it. */
  datatype WavErr = WavOk | NotRiff | NotWave | NoData | NoFormat

  const U32_LIMIT: int := 0x1_0000_0000

  /** sizeof(struct wav_fmt_s): the format record is 40 bytes with no
      padding. */
  const FORMAT_SIZE: int := 40

  const RIFF: seq<Byte> := [0x52, 0x49, 0x46, 0x46]  // "RIFF"
  const WAVE: seq<Byte> := [0x57, 0x41, 0x56, 0x45]  // "WAVE"
  const FMT: seq<Byte> := [0x66, 0x6d, 0x74]         // "fmt", compared on three bytes
  const FAST: seq<Byte> := [0x66, 0x61, 0x73, 0x74]  // "fast"
  const DATA: seq<Byte> := [0x64, 0x61, 0x74, 0x61]  // "data"

  function U16(s: seq<Byte>, at: int): (v: int)
    requires 0 <= at && at + 2 <= |s|
    ensures 0 <= v < 0x1_0000
  {
    s[at] as int + 0x100 * s[at + 1] as int
  }

  /** A uint32_t stored at s[at..at + 4]. */
  function U32(s: seq<Byte>, at: int): (v: int)
    requires 0 <= at && at + 4 <= |s|
    ensures 0 <= v < U32_LIMIT
  {
    U16(s, at) + 0x1_0000 * U16(s, at + 2)
  }

  /** Fields of the format record, at their offsets in struct wav_fmt_s. */
  function FormatTag(f: seq<Byte>): int requires |f| == FORMAT_SIZE { U16(f, 0) }
  function Channels(f: seq<Byte>): int requires |f| == FORMAT_SIZE { U16(f, 2) }
  function BlockAlign(f: seq<Byte>): int requires |f| == FORMAT_SIZE { U16(f, 12) }
  function BitsPerSample(f: seq<Byte>): int requires |f| == FORMAT_SIZE { U16(f, 14) }

  datatype ChunkKind = FmtChunk | FastChunk | DataChunk | OtherChunk

  /** The branch of the chunk loop a chunk id selects, tried in the order
      of the loop. The three-byte "fmt" test comes first but shadows
      neither "fast" nor "data". */
  function KindOf(id: seq<Byte>): (k: ChunkKind)
    requires |id| == 4
    ensures k == FmtChunk <==> id[..3] == FMT
    ensures k == FastChunk <==> id == FAST
    ensures k == DataChunk <==> id == DATA
  {
    assert id[..3] == FMT ==> id[1] == FMT[1];
    if id[..3] == FMT then FmtChunk
    else if id == FAST then FastChunk
    else if id == DATA then DataChunk
    else OtherChunk
  }

  /** The fields of struct wav_s the chunk walk fills in: the format record
      as its 40 bytes, dwSampleLength, size, the bytes behind data, and
      whether data has been allocated. */
  datatype Record = Record(format: seq<Byte>, sampleLength: int, size: int,
                           data: seq<Byte>, hasData: bool)

  /** The state read_wav starts its walk from: a zeroed format record, no
      data. */
  function Blank(): (r: Record)
    ensures |r.format| == FORMAT_SIZE
  {
    Record(seq(FORMAT_SIZE, _ => 0), 0, 0, [], false)
  }

  function Min(a: int, b: int): int { if a <= b then a else b }

  function Kind(bytes: seq<Byte>, pos: int): ChunkKind
    requires 0 <= pos && pos + 8 <= |bytes|
  {
    KindOf(bytes[pos..pos + 4])
  }

  function ChunkSize(bytes: seq<Byte>, pos: int): int
    requires 0 <= pos && pos + 8 <= |bytes|
  {
    U32(bytes, pos + 4)
  }

  /** A chunk header starts at pos and the body it declares lies in the
      file. */
  predicate ChunkFits(bytes: seq<Byte>, pos: int)
  {
    0 <= pos && pos + 8 <= |bytes| && pos + 8 + ChunkSize(bytes, pos) <= |bytes|
  }

  /** Where the loop reads the next chunk id: after the body, except that a
      "fast" chunk only has its first four bytes consumed, and none of them
      when it declares fewer than four. */
  function NextPos(bytes: seq<Byte>, pos: int): (next: int)
    requires ChunkFits(bytes, pos)
    ensures pos + 8 <= next <= |bytes|
  {
    var n := ChunkSize(bytes, pos);
    if Kind(bytes, pos) == FastChunk then pos + 8 + (if n >= 4 then 4 else 0)
    else pos + 8 + n
  }

  /** The loop stops when fewer than four bytes are left for a chunk id. */
  predicate AtEnd(bytes: seq<Byte>, pos: int)
  {
    |bytes| - pos < 4
  }

  /** Every chunk the walk visits from pos on is complete in the file. */
  predicate ChunksFit(bytes: seq<Byte>, pos: int)
    requires 0 <= pos
    decreases |bytes| - pos
  {
    AtEnd(bytes, pos) || (ChunkFits(bytes, pos) && ChunksFit(bytes, NextPos(bytes, pos)))
  }

  /** What one chunk does to the record: a "fmt" chunk overwrites the first
      min(cksize, 40) bytes of the format record, a "fast" chunk of at least
      four bytes sets dwSampleLength, a "data" chunk appends its body and
      adds its size (as a uint32_t), any other chunk changes nothing. */
  function Step(bytes: seq<Byte>, pos: int, r: Record): (s: Record)
    requires ChunkFits(bytes, pos) && |r.format| == FORMAT_SIZE
    ensures |s.format| == FORMAT_SIZE
  {
    var n := ChunkSize(bytes, pos);
    match Kind(bytes, pos)
    case FmtChunk =>
      var m := Min(n, FORMAT_SIZE);
      r.(format := bytes[pos + 8..pos + 8 + m] + r.format[m..])
    case FastChunk =>
      if n >= 4 then r.(sampleLength := U32(bytes, pos + 8)) else r
    case DataChunk =>
      r.(data := r.data + bytes[pos + 8..pos + 8 + n], size := (r.size + n) % U32_LIMIT, hasData := true)
    case OtherChunk => r
  }

  /** The chunk loop of read_wav from pos on. */
  function Walk(bytes: seq<Byte>, pos: int, r: Record): (w: Record)
    requires 0 <= pos && ChunksFit(bytes, pos) && |r.format| == FORMAT_SIZE
    ensures |w.format| == FORMAT_SIZE
    decreases |bytes| - pos
  {
    if AtEnd(bytes, pos) then r else Walk(bytes, NextPos(bytes, pos), Step(bytes, pos, r))
  }

  /** The chunks the walk visits, in file order, by kind, header position
      and declared size. */
  datatype Chunk = Chunk(kind: ChunkKind, at: nat, size: nat)

  predicate InFile(bytes: seq<Byte>, c: Chunk)
  {
    c.at + 8 + c.size <= |bytes|
  }

  function Chunks(bytes: seq<Byte>, pos: int): (cs: seq<Chunk>)
    requires 0 <= pos && ChunksFit(bytes, pos)
    ensures forall c :: c in cs ==> InFile(bytes, c)
    decreases |bytes| - pos
  {
    if AtEnd(bytes, pos) then []
    else [Chunk(Kind(bytes, pos), pos, ChunkSize(bytes, pos))] + Chunks(bytes, NextPos(bytes, pos))
  }

  function Body(bytes: seq<Byte>, c: Chunk): seq<Byte>
    requires InFile(bytes, c)
  {
    bytes[c.at + 8..c.at + 8 + c.size]
  }

  /** The bodies of the "data" chunks among cs, in order. */
  function DataBodies(bytes: seq<Byte>, cs: seq<Chunk>): seq<Byte>
    requires forall c :: c in cs ==> InFile(bytes, c)
  {
    if cs == [] then []
    else (if cs[0].kind == DataChunk then Body(bytes, cs[0]) else []) + DataBodies(bytes, cs[1..])
  }

  /** The sum of the declared sizes of the "data" chunks among cs. */
  function DataTotal(cs: seq<Chunk>): nat
  {
    if cs == [] then 0
    else (if cs[0].kind == DataChunk then cs[0].size else 0) + DataTotal(cs[1..])
  }

  predicate HasData(cs: seq<Chunk>)
  {
    exists c :: c in cs && c.kind == DataChunk
  }

  /** The format record after the "fmt" chunks among cs overwrite f, each
      with the first min(cksize, 40) bytes of its body. */
  function FormatAfter(f: seq<Byte>, bytes: seq<Byte>, cs: seq<Chunk>): (g: seq<Byte>)
    requires |f| == FORMAT_SIZE
    requires forall c :: c in cs ==> InFile(bytes, c)
    ensures |g| == FORMAT_SIZE
    decreases |cs|
  {
    if cs == [] then f
    else
      var c := cs[0];
      assert c in cs && InFile(bytes, c);
      var m := Min(c.size, FORMAT_SIZE);
      var g := if c.kind == FmtChunk then bytes[c.at + 8..c.at + 8 + m] + f[m..] else f;
      FormatAfter(g, bytes, cs[1..])
  }

  /** The file is long enough for every read read_wav makes: the header
      fields it gets to, and every chunk it walks. The data chunks also add
      up to less than 2^32 bytes; beyond that the realloc size wraps and the
      copy overruns the buffer. */
  predicate Readable(bytes: seq<Byte>)
  {
    && |bytes| >= 4
    && (bytes[..4] == RIFF ==>
          && |bytes| >= 8
          && (U32(bytes, 4) > 4 ==>
                && |bytes| >= 12
                && (bytes[8..12] == WAVE ==>
                      ChunksFit(bytes, 12) && DataTotal(Chunks(bytes, 12)) < U32_LIMIT)))
  }

  /** A RIFF file whose form type is WAVE and whose RIFF size exceeds 4. */
  predicate IsWaveForm(bytes: seq<Byte>)
  {
    |bytes| >= 12 && bytes[..4] == RIFF && U32(bytes, 4) > 4 && bytes[8..12] == WAVE
  }

  datatype Outcome = Outcome(err: WavErr, wav: Option<Record>)

  /** read_wav: the header checks in file order, then the chunk walk, then
      the missing-data check before the missing-format check. */
  function Parse(bytes: seq<Byte>): Outcome
    requires Readable(bytes)
  {
    if bytes[..4] != RIFF then Outcome(NotRiff, None)
    else if U32(bytes, 4) <= 4 then Outcome(NoData, None)
    else if bytes[8..12] != WAVE then Outcome(NotWave, None)
    else
      var r := Walk(bytes, 12, Blank());
      if !r.hasData then Outcome(NoData, None)
      else if FormatTag(r.format) == 0 then Outcome(NoFormat, None)
      else Outcome(WavOk, Some(r))
  }

  /** struct wav_s, filled in place by ReadWav. */
  class WavFile {
    var format: seq<Byte>
    var sampleLength: int
    var size: int
    var data: seq<Byte>
    var hasData: bool

    constructor ()
      ensures Contents() == Blank()
    {
      format := seq(FORMAT_SIZE, _ => 0);
      sampleLength, size := 0, 0;
      data, hasData := [], false;
    }

    function Contents(): Record
      reads this
    {
      Record(format, sampleLength, size, data, hasData)
    }

    /** One pass of the chunk loop: the chunk whose header is at pos, read
        in place into this wav; returns where the next chunk id is read. */
    method ReadChunk(bytes: seq<Byte>, pos: int) returns (next: int)
      requires ChunkFits(bytes, pos) && |format| == FORMAT_SIZE
      modifies this
      ensures Contents() == Step(bytes, pos, old(Contents()))
      ensures next == NextPos(bytes, pos)
    {
      var id, cksize := bytes[pos..pos + 4], U32(bytes, pos + 4);
      next := pos + 8;
      if id[..3] == FMT {
        if cksize > FORMAT_SIZE {
          format := bytes[next..next + FORMAT_SIZE];
        } else {
          format := bytes[next..next + cksize] + format[cksize..];
        }
        next := next + cksize;
      } else if id == FAST {
        if cksize >= 4 {
          sampleLength := U32(bytes, next);
          next := next + 4;
        }
      } else if id == DATA {
        data := data + bytes[next..next + cksize];
        size := (size + cksize) % U32_LIMIT;
        hasData := true;
        next := next + cksize;
      } else {
        next := next + cksize;
      }
    }
  }

  /** read_wav over the bytes of a file: the error code, and the wav only
      when the code is WavOk. */
  method ReadWav(bytes: seq<Byte>) returns (err: WavErr, wv: WavFile?)
    requires Readable(bytes)
    ensures err == Parse(bytes).err
    ensures wv == null <==> Parse(bytes).wav.None?
    ensures wv != null ==> fresh(wv) && Parse(bytes).wav == Some(wv.Contents())
  {
    if bytes[..4] != RIFF {
      return NotRiff, null;
    }
    if U32(bytes, 4) <= 4 {
      return NoData, null;
    }
    if bytes[8..12] != WAVE {
      return NotWave, null;
    }
    wv := new WavFile();
    err := WavOk;
    var pos := 12;
    while !AtEnd(bytes, pos)
      invariant 12 <= pos && ChunksFit(bytes, pos) && |wv.format| == FORMAT_SIZE
      invariant Walk(bytes, pos, wv.Contents()) == Walk(bytes, 12, Blank())
      decreases |bytes| - pos
    {
      pos := wv.ReadChunk(bytes, pos);
    }
    if !wv.hasData {
      return NoData, null;
    }
    if FormatTag(wv.format) == 0 {
      return NoFormat, null;
    }
  }

  /** A chunk that is not fmt, fast or data is skipped by exactly its
      declared size and leaves the record as it was. */
  lemma OtherChunkSkipped(bytes: seq<Byte>, pos: int, r: Record)
    requires ChunkFits(bytes, pos) && |r.format| == FORMAT_SIZE
    requires bytes[pos..pos + 3] != FMT && bytes[pos..pos + 4] != FAST && bytes[pos..pos + 4] != DATA
    ensures Step(bytes, pos, r) == r
    ensures NextPos(bytes, pos) == pos + 8 + U32(bytes, pos + 4)
  {
    assert bytes[pos..pos + 4][..3] == bytes[pos..pos + 3];
  }

  /** Any chunk id starting with "fmt" overwrites the first min(cksize, 40)
      bytes of the format record with the start of its body, keeps the rest
      of the record, and the walk resumes after the whole body. */
  lemma FmtChunkOverwrites(bytes: seq<Byte>, pos: int, r: Record)
    requires ChunkFits(bytes, pos) && |r.format| == FORMAT_SIZE
    requires bytes[pos..pos + 3] == FMT
    ensures var m := Min(U32(bytes, pos + 4), FORMAT_SIZE);
      var s := Step(bytes, pos, r);
      && s.format[..m] == bytes[pos + 8..pos + 8 + m]
      && s.format[m..] == r.format[m..]
      && s.(format := r.format) == r
    ensures NextPos(bytes, pos) == pos + 8 + U32(bytes, pos + 4)
  {
    assert bytes[pos..pos + 4][..3] == bytes[pos..pos + 3];
  }

  /** Of two "fmt" bodies, the later one hides the earlier one wherever it
      is at least as long. */
  lemma LaterFmtWins(f: seq<Byte>, a: seq<Byte>, b: seq<Byte>)
    requires |f| == FORMAT_SIZE && |a| <= |b| <= FORMAT_SIZE
    ensures b + (a + f[|a|..])[|b|..] == b + f[|b|..]
  {
    assert (a + f[|a|..])[|b|..] == f[|b|..];
  }

  /** A "fast" chunk consumes only the four bytes of dwSampleLength, or none
      when it declares fewer than four; the rest of its body is read as the
      next chunk. */
  lemma FastChunkConsumesFour(bytes: seq<Byte>, pos: int, r: Record)
    requires ChunkFits(bytes, pos) && |r.format| == FORMAT_SIZE
    requires bytes[pos..pos + 4] == FAST
    ensures U32(bytes, pos + 4) >= 4 ==>
      NextPos(bytes, pos) == pos + 12 && Step(bytes, pos, r) == r.(sampleLength := U32(bytes, pos + 8))
    ensures U32(bytes, pos + 4) < 4 ==>
      NextPos(bytes, pos) == pos + 8 && Step(bytes, pos, r) == r
  {
    assert bytes[pos..pos + 4][..3][1] != FMT[1];
  }

  lemma DataBodiesLength(bytes: seq<Byte>, cs: seq<Chunk>)
    requires forall c :: c in cs ==> InFile(bytes, c)
    ensures |DataBodies(bytes, cs)| == DataTotal(cs)
  {
    if cs != [] {
      assert cs[0] in cs;
      DataBodiesLength(bytes, cs[1..]);
    }
  }

  /** The walk from pos appends the "data" bodies it meets, in file order. */
  lemma {:induction false} WalkData(bytes: seq<Byte>, pos: int, r: Record)
    requires 0 <= pos && ChunksFit(bytes, pos) && |r.format| == FORMAT_SIZE
    ensures Walk(bytes, pos, r).data == r.data + DataBodies(bytes, Chunks(bytes, pos))
    decreases |bytes| - pos
  {
    if !AtEnd(bytes, pos) {
      var cs := Chunks(bytes, pos);
      var next := NextPos(bytes, pos);
      assert cs[1..] == Chunks(bytes, next);
      WalkData(bytes, next, Step(bytes, pos, r));
      StepData(bytes, pos, r);
      var own := if cs[0].kind == DataChunk then Body(bytes, cs[0]) else [];
      assert DataBodies(bytes, cs) == own + DataBodies(bytes, cs[1..]);
      assert r.data + (own + DataBodies(bytes, cs[1..])) == (r.data + own) + DataBodies(bytes, cs[1..]);
    }
  }

  /** One step appends the body of the chunk at pos when it is a "data"
      chunk, and nothing otherwise. */
  lemma StepData(bytes: seq<Byte>, pos: int, r: Record)
    requires ChunkFits(bytes, pos) && |r.format| == FORMAT_SIZE
    ensures var c := Chunk(Kind(bytes, pos), pos, ChunkSize(bytes, pos));
      Step(bytes, pos, r).data == r.data + (if c.kind == DataChunk then Body(bytes, c) else [])
  {
  }

  /** The walk from pos adds the declared sizes of the "data" chunks it
      meets; while they stay below 2^32 the uint32_t sum never wraps. */
  lemma {:induction false} WalkSize(bytes: seq<Byte>, pos: int, r: Record)
    requires 0 <= pos && ChunksFit(bytes, pos) && |r.format| == FORMAT_SIZE
    requires 0 <= r.size && r.size + DataTotal(Chunks(bytes, pos)) < U32_LIMIT
    ensures Walk(bytes, pos, r).size == r.size + DataTotal(Chunks(bytes, pos))
    decreases |bytes| - pos
  {
    if !AtEnd(bytes, pos) {
      var cs := Chunks(bytes, pos);
      var next := NextPos(bytes, pos);
      assert cs[1..] == Chunks(bytes, next);
      WalkSize(bytes, next, Step(bytes, pos, r));
    }
  }

  /** The walk from pos sets hasData exactly when it meets a "data" chunk. */
  lemma {:induction false} WalkHasData(bytes: seq<Byte>, pos: int, r: Record)
    requires 0 <= pos && ChunksFit(bytes, pos) && |r.format| == FORMAT_SIZE
    ensures Walk(bytes, pos, r).hasData == (r.hasData || HasData(Chunks(bytes, pos)))
    decreases |bytes| - pos
  {
    if !AtEnd(bytes, pos) {
      var cs := Chunks(bytes, pos);
      var next := NextPos(bytes, pos);
      var rest := Chunks(bytes, next);
      assert cs == [cs[0]] + rest;
      WalkHasData(bytes, next, Step(bytes, pos, r));
      if HasData(rest) {
        var d :| d in rest && d.kind == DataChunk;
        assert d in cs;
      }
    }
  }

  /** The walk from pos leaves the format record every "fmt" chunk it meets
      has overwritten in turn. */
  lemma {:induction false} WalkFormat(bytes: seq<Byte>, pos: int, r: Record)
    requires 0 <= pos && ChunksFit(bytes, pos) && |r.format| == FORMAT_SIZE
    ensures Walk(bytes, pos, r).format == FormatAfter(r.format, bytes, Chunks(bytes, pos))
    decreases |bytes| - pos
  {
    if !AtEnd(bytes, pos) {
      var cs := Chunks(bytes, pos);
      var next := NextPos(bytes, pos);
      assert cs[1..] == Chunks(bytes, next);
      WalkFormat(bytes, next, Step(bytes, pos, r));
    }
  }

  /** read_wav's errors, each stated over the file's header and the chunks
      of its WAVE form: NotRiff first, then a RIFF size of at most 4 gives
      NoData, then NotWave; no "data" chunk gives NoData whether or not a
      format was read; data with a zero format tag gives NoFormat; a wav is
      returned exactly when the error is WavOk. */
  lemma ParseErrors(bytes: seq<Byte>)
    requires Readable(bytes)
    ensures Parse(bytes).err == NotRiff <==> bytes[..4] != RIFF
    ensures Parse(bytes).err == NotWave <==>
      bytes[..4] == RIFF && U32(bytes, 4) > 4 && bytes[8..12] != WAVE
    ensures Parse(bytes).err == NoData <==>
      bytes[..4] == RIFF && (U32(bytes, 4) <= 4 || (IsWaveForm(bytes) && !HasData(Chunks(bytes, 12))))
    ensures Parse(bytes).err == NoFormat <==>
      IsWaveForm(bytes) && HasData(Chunks(bytes, 12))
      && FormatTag(FormatAfter(Blank().format, bytes, Chunks(bytes, 12))) == 0
    ensures Parse(bytes).wav.Some? <==> Parse(bytes).err == WavOk
  {
    if IsWaveForm(bytes) {
      WalkHasData(bytes, 12, Blank());
      WalkFormat(bytes, 12, Blank());
    }
  }

  /** A wav read without error holds every "data" body in file order, its
      size is their total, and its format tag is not zero. */
  lemma ParsedWav(bytes: seq<Byte>)
    requires Readable(bytes) && Parse(bytes).err == WavOk
    ensures IsWaveForm(bytes)
    ensures var w, cs := Parse(bytes).wav.value, Chunks(bytes, 12);
      && w.data == DataBodies(bytes, cs)
      && w.size == DataTotal(cs) == |w.data|
      && w.hasData && HasData(cs)
      && w.format == FormatAfter(Blank().format, bytes, cs)
      && FormatTag(w.format) != 0
  {
    WalkData(bytes, 12, Blank());
    WalkSize(bytes, 12, Blank());
    WalkHasData(bytes, 12, Blank());
    WalkFormat(bytes, 12, Blank());
    DataBodiesLength(bytes, Chunks(bytes, 12));
  }
}
