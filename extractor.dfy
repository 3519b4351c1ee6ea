/**
 * The segmentation rule of `process` in parser.py, as pure functions of the
 * read: which segments one call emits, in emission order, and where in the
 * read each of them lies.
 */
module Extractor {
  import opened Wrappers
  import opened Matching

  /**
   * The decision for one anchor's prefix: the span `prefix[virPos..aPos]`
   * between the end of the last viral match and the start of the first
   * poly-A run found from there, when both exist and the span is not empty.
   */
  function Junction(m: Matcher, viral: Pattern, prefix: string): (r: Option<Span>)
    requires m.Valid()
    ensures r.Some? ==> 0 < r.value.start < r.value.end < |prefix|
  {
    match m.all(viral, prefix)
    case None => None
    case Some(vir) =>
      m.AllIn(viral, prefix);
      var virPos := vir[|vir| - 1].end;
      match m.first(PolyA, prefix[virPos..])
      case None => None
      case Some(a) =>
        m.FirstIn(PolyA, prefix[virPos..]);
        var aPos := a.start + virPos;
        if aPos > virPos then Some(Span(virPos, aPos)) else None
  }

  /**
   * The segments one call of `process` on `text` emits, in emission order:
   * first everything the call on the suffix after the first anchor emits,
   * then the junction of the prefix before it, if any.
   */
  function Segments(m: Matcher, viral: Pattern, text: string): (r: seq<string>)
    requires m.Valid()
    ensures |r| <= |text|
    ensures forall k :: 0 <= k < |r| ==> 0 < |r[k]| < |text|
    decreases |text|
  {
    match m.first(Adapter, text)
    case None => []
    case Some(anchor) =>
      m.FirstIn(Adapter, text);
      var prefix := text[..anchor.start];
      var suffix := text[anchor.end..];
      Segments(m, viral, suffix) + Own(m, viral, prefix)
  }

  /** The segment, if any, that one call emits for its own prefix. */
  function Own(m: Matcher, viral: Pattern, prefix: string): (r: seq<string>)
    requires m.Valid()
    ensures |r| <= 1
    ensures r != [] <==> Junction(m, viral, prefix).Some?
    ensures forall k :: 0 <= k < |r| ==> 0 < |r[k]| < |prefix|
  {
    match Junction(m, viral, prefix)
    case None => []
    case Some(j) => [prefix[j.start..j.end]]
  }

  /** The spans `Segments` cuts out of `text`, as offsets into `text` itself. */
  function Cuts(m: Matcher, viral: Pattern, text: string): (r: seq<Span>)
    requires m.Valid()
    ensures |r| == |Segments(m, viral, text)|
    decreases |text|
  {
    match m.first(Adapter, text)
    case None => []
    case Some(anchor) =>
      m.FirstIn(Adapter, text);
      Shift(Cuts(m, viral, text[anchor.end..]), anchor.end) +
      match Junction(m, viral, text[..anchor.start])
      case None => []
      case Some(j) => [j]
  }

  /** Every span moved `d` positions to the right. */
  function Shift(spans: seq<Span>, d: nat): (r: seq<Span>)
    ensures |r| == |spans|
    ensures forall k :: 0 <= k < |r| ==> r[k] == Span(spans[k].start + d, spans[k].end + d)
  {
    seq(|spans|, k requires 0 <= k < |spans| => Span(spans[k].start + d, spans[k].end + d))
  }

  /** The number of anchors the greedy first-match splitting finds in `text`. */
  function Anchors(m: Matcher, text: string): (r: nat)
    requires m.Valid()
    ensures r <= |text|
    decreases |text|
  {
    match m.first(Adapter, text)
    case None => 0
    case Some(anchor) =>
      m.FirstIn(Adapter, text);
      1 + Anchors(m, text[anchor.end..])
  }

  /** No anchor in the read: nothing is emitted. */
  lemma {:induction false} NoAnchorNoSegments(m: Matcher, viral: Pattern, text: string)
    requires m.Valid()
    requires m.first(Adapter, text).None?
    ensures Segments(m, viral, text) == []
  {
  }

  /**
   * With an anchor, the call on the suffix emits first and the prefix's own
   * segment (at most one) follows; the suffix is strictly shorter than the
   * text, which is why the recursion ends.
   */
  lemma {:induction false} SegmentsStep(m: Matcher, viral: Pattern, text: string)
    requires m.Valid()
    requires m.first(Adapter, text).Some?
    ensures var anchor := m.first(Adapter, text).value;
      && anchor.start < anchor.end <= |text|
      && Segments(m, viral, text) ==
         Segments(m, viral, text[anchor.end..]) + Own(m, viral, text[..anchor.start])
      && |Own(m, viral, text[..anchor.start])| <= 1
  {
    m.FirstIn(Adapter, text);
  }

  /**
   * The prefix's own segment, decided as the code decides it: nothing
   * without a viral match, nothing without a poly-A run after the last
   * viral match, nothing when that run starts right at the viral match's
   * end, and otherwise exactly `prefix[virPos..aPos]`.
   */
  lemma {:induction false} OwnDecision(m: Matcher, viral: Pattern, prefix: string)
    requires m.Valid()
    ensures m.all(viral, prefix).Some? ==> |m.all(viral, prefix).value| > 0
    ensures m.all(viral, prefix).None? ==> Own(m, viral, prefix) == []
    ensures m.all(viral, prefix).Some? ==>
      var virPos := m.all(viral, prefix).value[|m.all(viral, prefix).value| - 1].end;
      && 0 < virPos <= |prefix|
      && (m.first(PolyA, prefix[virPos..]).None? ==> Own(m, viral, prefix) == [])
      && (m.first(PolyA, prefix[virPos..]).Some? ==>
            var aPos := virPos + m.first(PolyA, prefix[virPos..]).value.start;
            && (aPos == virPos ==> Own(m, viral, prefix) == [])
            && (aPos > virPos ==> aPos < |prefix| && Own(m, viral, prefix) == [prefix[virPos..aPos]]))
  {
    if m.all(viral, prefix).Some? {
      m.AllIn(viral, prefix);
      var vir := m.all(viral, prefix).value;
      m.FirstIn(PolyA, prefix[vir[|vir| - 1].end..]);
    }
  }

  /**
   * The junction's bounds in terms of the matches themselves: it starts at
   * the end of a viral occurrence that starts no earlier than any other viral
   * occurrence in the prefix, and ends where the leftmost poly-A occurrence
   * in the rest of the prefix starts, which is not at the junction's start.
   */
  lemma {:induction false} JunctionSound(m: Matcher, viral: Pattern, prefix: string)
    requires m.Valid()
    requires Junction(m, viral, prefix).Some?
    ensures var j := Junction(m, viral, prefix).value;
      && (exists v :: m.occurs(viral, prefix, v) && v.end == j.start &&
            forall w :: m.occurs(viral, prefix, w) ==> w.start <= v.start)
      && j.start <= |prefix|
      && (exists a :: m.occurs(PolyA, prefix[j.start..], a) && a.start == j.end - j.start > 0 &&
            forall b :: m.occurs(PolyA, prefix[j.start..], b) ==> a.start <= b.start)
  {
    var j := Junction(m, viral, prefix).value;
    m.LastIsMostDownstream(viral, prefix);
    m.FirstIn(PolyA, prefix[j.start..]);
    var vir := m.all(viral, prefix).value;
    var v := vir[|vir| - 1];
    assert m.occurs(viral, prefix, v) && v.end == j.start;
    var a := m.first(PolyA, prefix[j.start..]).value;
    assert m.occurs(PolyA, prefix[j.start..], a) && a.start == j.end - j.start;
  }

  /** Without any viral occurrence in the prefix there is no junction. */
  lemma {:induction false} NoViralNoJunction(m: Matcher, viral: Pattern, prefix: string)
    requires m.Valid()
    requires forall v :: !m.occurs(viral, prefix, v)
    ensures Junction(m, viral, prefix).None?
  {
    m.AllIn(viral, prefix);
  }

  /**
   * Each call emits at most one segment of its own, so a read yields at most
   * as many segments as it has anchors; each anchor consumes at least one
   * symbol, so there are at most `|text|` of them.
   */
  lemma {:induction false} SegmentsBounded(m: Matcher, viral: Pattern, text: string)
    requires m.Valid()
    ensures |Segments(m, viral, text)| <= Anchors(m, text) <= |text|
    decreases |text|
  {
    match m.first(Adapter, text)
    case None =>
    case Some(anchor) =>
      m.FirstIn(Adapter, text);
      SegmentsBounded(m, viral, text[anchor.end..]);
  }

  /** `segs` are the slices of `t` that `spans` name. */
  predicate SlicesOf(segs: seq<string>, spans: seq<Span>, t: string) {
    |spans| == |segs| &&
    forall k :: 0 <= k < |spans| ==> spans[k].In(t) && segs[k] == t[spans[k].start..spans[k].end]
  }

  /** Slices of a suffix `text[e..]` are the shifted slices of `text`. */
  lemma {:induction false} ShiftSlices(segs: seq<string>, spans: seq<Span>, text: string, e: nat)
    requires e <= |text|
    requires SlicesOf(segs, spans, text[e..])
    ensures SlicesOf(segs, Shift(spans, e), text)
  {
    forall k | 0 <= k < |spans|
      ensures Shift(spans, e)[k].In(text)
      ensures segs[k] == text[Shift(spans, e)[k].start..Shift(spans, e)[k].end]
    {
      var c := spans[k];
      assert text[e..][c.start..c.end] == text[e + c.start..e + c.end];
    }
  }

  /** Every emitted segment is exactly the slice of the read that `Cuts` names. */
  lemma {:induction false} CutsLocateSegments(m: Matcher, viral: Pattern, text: string)
    requires m.Valid()
    ensures SlicesOf(Segments(m, viral, text), Cuts(m, viral, text), text)
    decreases |text|
  {
    match m.first(Adapter, text)
    case None =>
    case Some(anchor) =>
      m.FirstIn(Adapter, text);
      var e := anchor.end;
      var prefix := text[..anchor.start];
      var suffix := text[e..];
      CutsLocateSegments(m, viral, suffix);
      ShiftSlices(Segments(m, viral, suffix), Cuts(m, viral, suffix), text, e);
      var shifted := Shift(Cuts(m, viral, suffix), e);
      match Junction(m, viral, prefix)
      case None =>
        assert Cuts(m, viral, text) == shifted;
        assert Segments(m, viral, text) == Segments(m, viral, suffix);
      case Some(j) =>
        assert prefix[j.start..j.end] == text[j.start..j.end];
        assert Cuts(m, viral, text) == shifted + [j];
        assert Segments(m, viral, text) == Segments(m, viral, suffix) + [prefix[j.start..j.end]];
  }

  /**
   * Emission order runs against read order: every segment lies wholly
   * downstream of every segment emitted after it, so the segments of
   * later anchors come first and no two segments overlap.
   */
  lemma {:induction false} CutsDescend(m: Matcher, viral: Pattern, text: string)
    requires m.Valid()
    ensures forall k :: 0 <= k < |Cuts(m, viral, text)| ==> Cuts(m, viral, text)[k].end <= |text|
    ensures forall i, j :: 0 <= i < j < |Cuts(m, viral, text)| ==>
      Cuts(m, viral, text)[j].end < Cuts(m, viral, text)[i].start
    decreases |text|
  {
    match m.first(Adapter, text)
    case None =>
    case Some(anchor) =>
      m.FirstIn(Adapter, text);
      var e := anchor.end;
      var suffix := text[e..];
      CutsDescend(m, viral, suffix);
      var shifted := Shift(Cuts(m, viral, suffix), e);
      match Junction(m, viral, text[..anchor.start])
      case None =>
        assert Cuts(m, viral, text) == shifted;
      case Some(jn) =>
        assert Cuts(m, viral, text) == shifted + [jn];
        assert jn.end < anchor.start < e;
  }
}
