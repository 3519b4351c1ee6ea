/**
 * The imperative side of parser.py: `process` appends numbered records to
 * the output and advances the global counter `LINENO`, and the read loop
 * runs it on every read and then on the read's reverse complement.
 */
module Emitter {
  import opened Matching
  import opened Nucleotides
  import opened Extractor

  /** One emitted FASTA-like record: the header number and the segment. */
  datatype Record = Record(id: nat, segment: string)

  /** The segments as records, numbered consecutively from `first`. */
  function Number(segments: seq<string>, first: nat): (r: seq<Record>)
    ensures |r| == |segments|
  {
    if segments == [] then [] else [Record(first, segments[0])] + Number(segments[1..], first + 1)
  }

  /** Numbering two batches in turn is numbering them together. */
  lemma {:induction false} NumberAppend(a: seq<string>, b: seq<string>, first: nat)
    ensures Number(a + b, first) == Number(a, first) + Number(b, first + |a|)
  {
    if a == [] {
      assert a + b == b;
    } else {
      assert (a + b)[1..] == a[1..] + b;
      NumberAppend(a[1..], b, first + 1);
    }
  }

  /** Record `k` of a numbered batch carries number `first + k` and the `k`-th segment. */
  lemma {:induction false} NumberAt(segments: seq<string>, first: nat, k: nat)
    requires k < |segments|
    ensures Number(segments, first)[k] == Record(first + k, segments[k])
  {
    if k > 0 {
      NumberAt(segments[1..], first + 1, k - 1);
    }
  }

  /**
   * Output `now` that holds `o`, then batch `a` numbered from `first`, then
   * batch `b` numbered from where `a` stopped, holds `o` and the whole batch.
   */
  lemma {:induction false} NumberStep(o: seq<Record>, a: seq<string>, b: seq<string>, whole: seq<string>,
                                      first: nat, now: seq<Record>, next: nat)
    requires whole == a + b
    requires next == first + |a|
    requires now == o + Number(a, first) + Number(b, next)
    ensures now == o + Number(whole, first)
    ensures next + |b| == first + |whole|
  {
    NumberAppend(a, b, first);
  }

  /** Numbering one segment adds its record. */
  lemma {:induction false} NumberOne(o: seq<Record>, segment: string, first: nat)
    ensures o + Number([segment], first) == o + [Record(first, segment)]
  {
    assert [segment][1..] == [];
  }

  /** The output so far is numbered 1, 2, ... and the counter holds the next number. */
  predicate Consecutive(out: seq<Record>, next: nat) {
    next == |out| + 1 && forall k :: 0 <= k < |out| ==> out[k].id == k + 1
  }

  /** Appending a numbered batch at the counter keeps the numbering consecutive. */
  lemma {:induction false} NumberKeepsConsecutive(out: seq<Record>, next: nat, segments: seq<string>)
    requires Consecutive(out, next)
    ensures Consecutive(out + Number(segments, next), next + |segments|)
  {
    var n := Number(segments, next);
    forall k | 0 <= k < |out + n| ensures (out + n)[k].id == k + 1 {
      if k >= |out| {
        assert (out + n)[k] == n[k - |out|];
        NumberAt(segments, next, k - |out|);
      }
    }
  }

  /** The segments the read loop emits for one read: the read, then its reverse complement. */
  function ReadSegments(m: Matcher, viral: Pattern, read: string): (r: seq<string>)
    requires m.Valid()
    ensures |r| <= 2 * |read|
    ensures forall k :: 0 <= k < |r| ==> 0 < |r[k]| < |read|
  {
    Segments(m, viral, read) + Segments(m, viral, ReverseComplement(read))
  }

  /** The segments emitted over a run of seqs, in order. */
  function RunSegments(m: Matcher, viral: Pattern, seqs: seq<string>): (r: seq<string>)
    requires m.Valid()
    ensures forall k :: 0 <= k < |r| ==> |r[k]| > 0
  {
    if seqs == [] then []
    else RunSegments(m, viral, seqs[..|seqs| - 1]) + ReadSegments(m, viral, seqs[|seqs| - 1])
  }

  /** The records of one read: those of the read itself, then those of its reverse complement. */
  lemma {:induction false} ReadNumbered(m: Matcher, viral: Pattern, read: string,
                                        o: seq<Record>, first: nat, now: seq<Record>, next: nat)
    requires m.Valid()
    requires next == first + |Segments(m, viral, read)|
    requires now == o + Number(Segments(m, viral, read), first)
                      + Number(Segments(m, viral, ReverseComplement(read)), next)
    ensures now == o + Number(ReadSegments(m, viral, read), first)
    ensures next + |Segments(m, viral, ReverseComplement(read))| == first + |ReadSegments(m, viral, read)|
  {
    NumberStep(o, Segments(m, viral, read), Segments(m, viral, ReverseComplement(read)),
      ReadSegments(m, viral, read), first, now, next);
  }

  /** A run one read longer emits that read's segments after the others. */
  lemma {:induction false} RunSegmentsSnoc(m: Matcher, viral: Pattern, seqs: seq<string>, i: nat)
    requires m.Valid()
    requires i < |seqs|
    ensures RunSegments(m, viral, seqs[..i + 1]) == RunSegments(m, viral, seqs[..i]) + ReadSegments(m, viral, seqs[i])
  {
    var pre := seqs[..i + 1];
    assert pre[..|pre| - 1] == seqs[..i] && pre[|pre| - 1] == seqs[i];
  }

  /** The records of a run grow by those of its next read. */
  lemma {:induction false} RunNumbered(m: Matcher, viral: Pattern, seqs: seq<string>, i: nat,
                                       o: seq<Record>, first: nat, now: seq<Record>, next: nat)
    requires m.Valid()
    requires i < |seqs|
    requires next == first + |RunSegments(m, viral, seqs[..i])|
    requires now == o + Number(RunSegments(m, viral, seqs[..i]), first) + Number(ReadSegments(m, viral, seqs[i]), next)
    ensures now == o + Number(RunSegments(m, viral, seqs[..i + 1]), first)
    ensures next + |ReadSegments(m, viral, seqs[i])| == first + |RunSegments(m, viral, seqs[..i + 1])|
  {
    RunSegmentsSnoc(m, viral, seqs, i);
    NumberStep(o, RunSegments(m, viral, seqs[..i]), ReadSegments(m, viral, seqs[i]),
      RunSegments(m, viral, seqs[..i + 1]), first, now, next);
  }

  /**
   * The records of one level: those of the suffix, then the record of the
   * prefix's own segment, if it has one, numbered next.
   */
  lemma {:induction false} LevelNumbered(m: Matcher, viral: Pattern, text: string,
                                         o: seq<Record>, first: nat, now: seq<Record>, next: nat)
    requires m.Valid()
    requires m.first(Adapter, text).Some?
    requires m.first(Adapter, text).value.In(text)
    requires var anchor := m.first(Adapter, text).value;
      var inner := Segments(m, viral, text[anchor.end..]);
      var own := Own(m, viral, text[..anchor.start]);
      && next == first + |inner| + |own|
      && now == o + Number(inner, first) + (if own == [] then [] else [Record(first + |inner|, own[0])])
    ensures now == o + Number(Segments(m, viral, text), first)
    ensures next == first + |Segments(m, viral, text)|
  {
    var anchor := m.first(Adapter, text).value;
    var inner := Segments(m, viral, text[anchor.end..]);
    var own := Own(m, viral, text[..anchor.start]);
    SegmentsStep(m, viral, text);
    if own == [] {
      assert o + Number(inner, first) + Number(own, first + |inner|) == o + Number(inner, first);
    } else {
      assert own == [own[0]];
      NumberOne(o + Number(inner, first), own[0], first + |inner|);
    }
    NumberStep(o, inner, own, Segments(m, viral, text), first, now, first + |inner|);
  }

  /** The output stream and the record counter `LINENO`. */
  class Output {
    var lineno: nat
    var out: seq<Record>

    ghost predicate Valid()
      reads this
    {
      Consecutive(out, lineno)
    }

    /** The counter starts at 1 and nothing has been written. */
    constructor ()
      ensures Valid() && lineno == 1 && out == []
    {
      lineno := 1;
      out := [];
    }

    /** Writes one record headed by the current counter, then increments it. */
    method Emit(segment: string)
      requires Valid()
      modifies this
      ensures Valid()
      ensures out == old(out) + [Record(old(lineno), segment)]
      ensures lineno == old(lineno) + 1
    {
      out := out + [Record(lineno, segment)];
      lineno := lineno + 1;
    }

    /**
     * `process(text, viral_matcher)`: appends the records of
     * `Segments(text)`, numbered from the counter, and advances the counter
     * by their number.
     */
    method Process(m: Matcher, viral: Pattern, text: string)
      requires m.Valid() && Valid()
      modifies this
      ensures Valid()
      ensures out == old(out) + Number(Segments(m, viral, text), old(lineno))
      ensures lineno == old(lineno) + |Segments(m, viral, text)|
      decreases |text|
    {
      var anchor := m.first(Adapter, text);
      if anchor.Some? {
        m.FirstIn(Adapter, text);
        var prefix, suffix := text[..anchor.value.start], text[anchor.value.end..];
        var vir := m.all(viral, prefix);
        ghost var before, first := out, lineno;
        OwnDecision(m, viral, prefix);
        Process(m, viral, suffix);
        if vir.None? {
          LevelNumbered(m, viral, text, before, first, out, lineno);
          return;
        }
        var virPos := vir.value[|vir.value| - 1].end;
        var a := m.first(PolyA, prefix[virPos..]);
        if a.None? {
          LevelNumbered(m, viral, text, before, first, out, lineno);
          return;
        }
        var aPos := a.value.start + virPos;
        if aPos > virPos {
          Emit(prefix[virPos..aPos]);
          LevelNumbered(m, viral, text, before, first, out, lineno);
        } else {
          LevelNumbered(m, viral, text, before, first, out, lineno);
        }
      } else {
        NoAnchorNoSegments(m, viral, text);
        assert out + Number([], lineno) == out;
      }
    }

    /** One read of the input: the read itself, then its reverse complement. */
    method ProcessRead(m: Matcher, viral: Pattern, read: string)
      requires m.Valid() && Valid()
      modifies this
      ensures Valid()
      ensures out == old(out) + Number(ReadSegments(m, viral, read), old(lineno))
      ensures lineno == old(lineno) + |ReadSegments(m, viral, read)|
    {
      ghost var first := lineno;
      Process(m, viral, read);
      ghost var next := lineno;
      Process(m, viral, ReverseComplement(read));
      ReadNumbered(m, viral, read, old(out), first, out, next);
    }

    /** The read loop: every read in order, sharing one counter. */
    method ProcessReads(m: Matcher, viral: Pattern, seqs: seq<string>)
      requires m.Valid() && Valid()
      modifies this
      ensures Valid()
      ensures out == old(out) + Number(RunSegments(m, viral, seqs), old(lineno))
      ensures lineno == old(lineno) + |RunSegments(m, viral, seqs)|
    {
      var i := 0;
      while i < |seqs|
        invariant 0 <= i <= |seqs|
        invariant Valid()
        invariant out == old(out) + Number(RunSegments(m, viral, seqs[..i]), old(lineno))
        invariant lineno == old(lineno) + |RunSegments(m, viral, seqs[..i])|
      {
        ghost var next := lineno;
        ProcessRead(m, viral, seqs[i]);
        RunNumbered(m, viral, seqs, i, old(out), old(lineno), out, next);
        i := i + 1;
      }
      assert seqs[..i] == seqs;
    }
  }

  /**
   * A whole run from a fresh counter with the chosen viral motif: the
   * records of every read, each read before its reverse complement,
   * numbered 1, 2, 3, ... in the order they are written.
   */
  method Run(m: Matcher, virus: Virus, seqs: seq<string>) returns (records: seq<Record>)
    requires m.Valid()
    ensures records == Number(RunSegments(m, ViralPattern(virus), seqs), 1)
    ensures forall k :: 0 <= k < |records| ==> records[k].id == k + 1
  {
    var viral := ViralPattern(virus);
    var output := new Output();
    output.ProcessReads(m, viral, seqs);
    records := output.out;
  }
}
