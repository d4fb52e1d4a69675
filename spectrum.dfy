/** The spectrum of fourier.c: a bank of frequency tables, one cycle per
    block each, that all see the same samples. */
module Spectra {
  import opened FreqTables

  /** A table of the bank: valid, one cycle per block at the bank's sample
      rate, started with a window of at least five whole blocks, and fed
      exactly the samples h. */
  ghost predicate Started(t: FreqTable, sampleFreq: real, h: seq<real>)
    reads t, t.Repr
  {
    && t in t.Repr && (t.window != null ==> t.window in t.Repr)
    && t.Valid()
    && t.cycles == 1 && t.SampleFreq == sampleFreq
    && t.winwidth >= 5 * t.samples && t.winwidth % t.samples == 0
    && t.History == h
  }

  /** The frequency range gen_spectrum accepts. */
  predicate ValidRange(low: real, high: real, count: int)
  {
    low > 0.0 && high > 0.0 && low <= high && count >= 2
  }

  class Spectrum {
    const lowest: real
    const highest: real
    /** The tables in index order; the bank never grows or shrinks. */
    const tables: seq<FreqTable>
    ghost const SampleFreq: real

    /** Samples pushed to the bank since the last clear. */
    ghost var History: seq<real>
    ghost var Repr: set<object>

    ghost predicate Valid()
      reads this, Repr
    {
      && this in Repr
      && |tables| >= 2
      && (forall i :: 0 <= i < |tables| ==>
            tables[i] in Repr && tables[i].Repr <= Repr && this !in tables[i].Repr)
      && (forall i :: 0 <= i < |tables| ==> Started(tables[i], SampleFreq, History))
      && (forall i, j :: 0 <= i < j < |tables| ==> tables[i].Repr !! tables[j].Repr)
    }

    constructor Assemble(low: real, high: real, sampleFreq: real, ts: seq<FreqTable>, ghost reprs: set<object>)
      requires |ts| >= 2
      requires forall i :: 0 <= i < |ts| ==> ts[i].Repr <= reprs
      requires forall i :: 0 <= i < |ts| ==> Started(ts[i], sampleFreq, [])
      requires forall i, j :: 0 <= i < j < |ts| ==> ts[i].Repr !! ts[j].Repr
      ensures Valid() && History == []
      ensures lowest == low && highest == high && tables == ts && SampleFreq == sampleFreq
      ensures Repr == {this} + reprs
    {
      lowest, highest := low, high;
      tables := ts;
      SampleFreq := sampleFreq;
      History := [];
      Repr := {this} + reprs;
    }

    /** gen_spectrum: NULL for a bad range or fewer than two tables;
        otherwise table i has one cycle in floor(sampleFreq / nominal[i])
        samples and is started with a window of maxdur seconds. The nominal
        frequencies low, low * ratio, ... are given as a sequence. */
    static method Gen(sampleFreq: real, low: real, high: real, count: int, maxdur: real,
                      nominal: seq<real>, sin: real -> real, cos: real -> real)
      returns (s: Spectrum?)
      requires ValidRange(low, high, count) ==>
        && |nominal| == count && maxdur >= 0.0
        && forall i :: 0 <= i < count ==> nominal[i] > 0.0 && (sampleFreq / nominal[i]).Floor >= 1
      ensures s == null <==> !ValidRange(low, high, count)
      ensures s != null ==>
        && s.Valid() && fresh(s.Repr) && s.History == []
        && s.lowest == low && s.highest == high && |s.tables| == count
        && forall i :: 0 <= i < count ==> SlotBuilt(s.tables[i], sampleFreq, nominal[i], maxdur, sin, cos)
    {
      if !ValidRange(low, high, count) {
        return null;
      }
      var ts, reprs := NewSlots(sampleFreq, maxdur, nominal, sin, cos);
      s := new Spectrum.Assemble(low, high, sampleFreq, ts, reprs);
    }

    /** The loop of gen_spectrum: one started table per nominal frequency,
        in index order, each with its own fresh storage. */
    static method NewSlots(sampleFreq: real, maxdur: real, nominal: seq<real>,
                           sin: real -> real, cos: real -> real)
      returns (ts: seq<FreqTable>, ghost reprs: set<object>)
      requires maxdur >= 0.0
      requires forall i :: 0 <= i < |nominal| ==> nominal[i] > 0.0 && (sampleFreq / nominal[i]).Floor >= 1
      ensures |ts| == |nominal| && fresh(reprs)
      ensures forall j :: 0 <= j < |ts| ==> ts[j].Repr <= reprs
      ensures forall j :: 0 <= j < |ts| ==> Started(ts[j], sampleFreq, [])
      ensures forall j :: 0 <= j < |ts| ==> SlotBuilt(ts[j], sampleFreq, nominal[j], maxdur, sin, cos)
      ensures forall j, k :: 0 <= j < k < |ts| ==> ts[j].Repr !! ts[k].Repr
    {
      ts, reprs := [], {};
      var i := 0;
      while i < |nominal|
        invariant 0 <= i <= |nominal| && |ts| == i
        invariant fresh(reprs)
        invariant forall j :: 0 <= j < i ==>
          ts[j].Repr <= reprs && Started(ts[j], sampleFreq, []) && SlotBuilt(ts[j], sampleFreq, nominal[j], maxdur, sin, cos)
        invariant forall j, k :: 0 <= j < k < i ==> ts[j].Repr !! ts[k].Repr
      {
        var t := NewSlot(sampleFreq, nominal[i], maxdur, sin, cos);
        assert t.Repr !! reprs;
        ts := ts + [t];
        reprs := reprs + t.Repr;
        i := i + 1;
      }
    }

    /** One iteration of gen_spectrum's loop: fill a one-cycle table with
        (int)(sampleFreq / f) samples per block and start it. */
    static method NewSlot(sampleFreq: real, f: real, maxdur: real, sin: real -> real, cos: real -> real)
      returns (t: FreqTable)
      requires f > 0.0 && (sampleFreq / f).Floor >= 1 && maxdur >= 0.0
      ensures fresh(t.Repr) && Started(t, sampleFreq, [])
      ensures SlotBuilt(t, sampleFreq, f, maxdur, sin, cos)
    {
      var perblk := (sampleFreq / f).Floor;
      PositiveRate(sampleFreq, f);
      t := new FreqTable.Fill(sampleFreq, perblk, 1, sin, cos);
      PositiveFrequency(t.frequency, perblk, sampleFreq);
      t.Start(maxdur);
    }

    /** clear_spectrum: every table is cleared, in index order. */
    method Clear()
      requires Valid()
      modifies Repr
      ensures Valid() && Repr == old(Repr) && History == []
      ensures forall j :: 0 <= j < |tables| ==>
        tables[j].winwidth == old(tables[j].winwidth) && tables[j].window == old(tables[j].window)
    {
      ClearTables();
      History := [];
    }

    method ClearTables()
      requires Valid()
      modifies Repr - {this}
      ensures forall j :: 0 <= j < |tables| ==> tables[j].Repr == old(tables[j].Repr)
      ensures forall j :: 0 <= j < |tables| ==> Started(tables[j], SampleFreq, [])
      ensures forall j :: 0 <= j < |tables| ==>
        tables[j].winwidth == old(tables[j].winwidth) && tables[j].window == old(tables[j].window)
    {
      ghost var h := History;
      var i := 0;
      while i < |tables|
        invariant 0 <= i <= |tables|
        invariant forall j :: 0 <= j < |tables| ==> tables[j].Repr == old(tables[j].Repr)
        invariant forall j :: 0 <= j < |tables| ==>
          tables[j].winwidth == old(tables[j].winwidth) && tables[j].window == old(tables[j].window)
        invariant forall j :: 0 <= j < i ==> Started(tables[j], SampleFreq, [])
        invariant forall j :: i <= j < |tables| ==> Started(tables[j], SampleFreq, h)
      {
        ClearSlot(tables[i], SampleFreq, h);
        i := i + 1;
      }
    }

    /** spec_push: every table takes the sample, in index order. */
    method Push(sample: real)
      requires Valid()
      modifies Repr
      ensures Valid() && Repr == old(Repr) && History == old(History) + [sample]
      ensures forall j :: 0 <= j < |tables| ==>
        tables[j].winwidth == old(tables[j].winwidth) && tables[j].window == old(tables[j].window)
    {
      PushTables(sample);
      History := History + [sample];
    }

    method PushTables(sample: real)
      requires Valid()
      modifies Repr - {this}
      ensures forall j :: 0 <= j < |tables| ==> tables[j].Repr == old(tables[j].Repr)
      ensures forall j :: 0 <= j < |tables| ==> Started(tables[j], SampleFreq, History + [sample])
      ensures forall j :: 0 <= j < |tables| ==>
        tables[j].winwidth == old(tables[j].winwidth) && tables[j].window == old(tables[j].window)
    {
      ghost var h, hx := History, History + [sample];
      var i := 0;
      while i < |tables|
        invariant 0 <= i <= |tables|
        invariant forall j :: 0 <= j < |tables| ==> tables[j].Repr == old(tables[j].Repr)
        invariant forall j :: 0 <= j < |tables| ==>
          tables[j].winwidth == old(tables[j].winwidth) && tables[j].window == old(tables[j].window)
        invariant forall j :: 0 <= j < i ==> Started(tables[j], SampleFreq, hx)
        invariant forall j :: i <= j < |tables| ==> Started(tables[j], SampleFreq, h)
      {
        PushSlot(tables[i], SampleFreq, h, sample);
        i := i + 1;
      }
    }

    /** spec_freqcount: the number of tables, at least two. */
    function Count(): (n: int)
      requires Valid()
      reads this, Repr
      ensures n == |tables| && n >= 2
    {
      |tables|
    }

    /** spec_freq: the frequency of table i, the sample rate over the
        table's block length. */
    function Freq(i: int): (f: real)
      requires Valid() && 0 <= i < Count()
      reads this, Repr
      ensures f * tables[i].samples as real == SampleFreq
    {
      tables[i].Freq()
    }

    /** spec_get: the reading of table i, whose history is the bank's. */
    function Get(i: int): (r: Reading)
      requires Valid() && 0 <= i < Count()
      reads this, Repr
      ensures tables[i].History == History
      ensures r == tables[i].Get()
    {
      tables[i].Get()
    }
  }

  /** One table of spec_push. */
  method PushSlot(t: FreqTable, ghost sampleFreq: real, ghost h: seq<real>, sample: real)
    requires Started(t, sampleFreq, h)
    modifies t.Repr
    ensures Started(t, sampleFreq, h + [sample]) && t.Repr == old(t.Repr)
    ensures t.winwidth == old(t.winwidth) && t.window == old(t.window)
  {
    t.Push(sample);
  }

  /** One table of clear_spectrum. */
  method ClearSlot(t: FreqTable, ghost sampleFreq: real, ghost h: seq<real>)
    requires Started(t, sampleFreq, h)
    modifies t.Repr
    ensures Started(t, sampleFreq, []) && t.Repr == old(t.Repr)
    ensures t.winwidth == old(t.winwidth) && t.window == old(t.window)
  {
    t.Clear();
  }

  /** Slot i of gen_spectrum: one cycle in floor(sampleFreq / f) samples,
      the wave data of that block, and the window start_freqtbl picks. */
  ghost predicate SlotBuilt(t: FreqTable, sampleFreq: real, f: real, maxdur: real,
                            sin: real -> real, cos: real -> real)
    reads t
    requires f != 0.0 && maxdur >= 0.0
  {
    && t.cycles == 1 && t.samples == (sampleFreq / f).Floor && t.samples >= 1
    && t.frequency == BlockFrequency(sampleFreq, t.samples, 1) && t.frequency >= 0.0
    && WaveTables(t.sine, t.cosine, 1, t.samples, sin, cos)
    && t.winwidth == BlockWindow(MaxSamples(maxdur, t.frequency, t.samples, 1), t.samples)
  }

  lemma PositiveRate(sampleFreq: real, f: real)
    requires f > 0.0 && (sampleFreq / f).Floor >= 1
    ensures sampleFreq > 0.0
  {
    assert sampleFreq / f >= 1.0;
    assert sampleFreq == (sampleFreq / f) * f;
  }

  lemma PositiveFrequency(frequency: real, samples: int, sampleFreq: real)
    requires samples >= 1 && sampleFreq > 0.0
    requires frequency * samples as real == sampleFreq
    ensures frequency > 0.0
  {
  }
}
