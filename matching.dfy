/**
 * The approximate matcher that parser.py takes from the `seeq` library,
 * captured by its contract only. A compiled matcher is a pattern with a
 * mismatch budget; which spans of a text count as an approximate occurrence
 * is left to the `occurs` relation, and the two queries the extractor uses
 * (`match` and `matchAll`) are tied to that relation by `Matcher.Valid`.
 */
module Matching {
  import opened Wrappers

  /** A pattern compiled with its maximum number of mismatches. */
  datatype Pattern = Pattern(motif: string, maxMismatches: nat)

  /** The four matchers compiled at the top of parser.py. */
  const HivMotif := Pattern("CTTGTCTTCGTTGGGAGTGAATTAGCCCTTCCA", 5)
  const SivMotif := Pattern("TCTATGTCTTCTTGCACTGTAATAAATCCCTTCCA", 5)
  const Adapter := Pattern("AAAAAAAGATCGGAAGAGCACACGTCTGAACTCCAGTCAC", 6)
  const PolyA := Pattern("AAAAAAAAAAAAAAAAAAAA", 3)

  /**
   * The compiled patterns' lengths and mismatch budgets; the poly-A pattern
   * is a run of A only.
   */
  lemma {:induction false} CompiledPatterns()
    ensures |HivMotif.motif| == 33 && HivMotif.maxMismatches == 5
    ensures |SivMotif.motif| == 35 && SivMotif.maxMismatches == 5
    ensures |Adapter.motif| == 40 && Adapter.maxMismatches == 6
    ensures |PolyA.motif| == 20 && PolyA.maxMismatches == 3
    ensures forall k :: 0 <= k < |PolyA.motif| ==> PolyA.motif[k] == 'A'
  {
  }

  /** The `--virus` choice, made once for a whole run; HIV is the default. */
  datatype Virus = HIV | SIV

  /** The viral matcher a run uses for its choice of virus. */
  function ViralPattern(v: Virus): (r: Pattern)
    ensures r.maxMismatches == 5
    ensures v == HIV ==> r == HivMotif
    ensures v == SIV ==> r == SivMotif
  {
    if v == HIV then HivMotif else SivMotif
  }

  /** A matched span `text[start..end]`. */
  datatype Span = Span(start: nat, end: nat) {
    /** The span is a non-empty slice of `t`. */
    predicate In(t: string) {
      start < end <= |t|
    }
  }

  /**
   * The matcher library: `occurs(p, t, s)` says that `s` is an approximate
   * occurrence of `p` in `t`; `first` is `match`, `all` is `matchAll`.
   */
  datatype Matcher = Matcher(
    occurs: (Pattern, string, Span) -> bool,
    first: (Pattern, string) -> Option<Span>,
    all: (Pattern, string) -> Option<seq<Span>>)
  {
    /**
     * The contract the extractor relies on: every occurrence is a non-empty
     * slice of the text, and `match` and `matchAll` answer as `FirstOk` and
     * `AllOk` say for every pattern and text.
     */
    ghost predicate Valid() {
      && (forall p, t, s :: occurs(p, t, s) ==> s.In(t))
      && (forall p, t :: FirstOk(p, t))
      && (forall p, t :: AllOk(p, t))
    }

    /** `match` gives the leftmost occurrence, or None when there is none. */
    ghost predicate FirstOk(p: Pattern, t: string) {
      match first(p, t)
      case None => forall s :: !occurs(p, t, s)
      case Some(f) => occurs(p, t, f) && forall s :: occurs(p, t, s) ==> f.start <= s.start
    }

    /**
     * `matchAll` lists every occurrence, in ascending order of start, or
     * gives None when there is none.
     */
    ghost predicate AllOk(p: Pattern, t: string) {
      match all(p, t)
      case None => forall s :: !occurs(p, t, s)
      case Some(l) =>
        && |l| > 0
        && (forall k :: 0 <= k < |l| ==> occurs(p, t, l[k]))
        && (forall s :: occurs(p, t, s) ==> s in l)
        && (forall i, j :: 0 <= i < j < |l| ==> l[i].start <= l[j].start)
    }

    /** The span `match` returns lies inside the text and is not empty. */
    lemma {:induction false} FirstIn(p: Pattern, t: string)
      requires Valid()
      ensures FirstOk(p, t)
      ensures first(p, t).Some? ==> first(p, t).value.In(t)
    {
    }

    /** Every span `matchAll` returns lies inside the text and is not empty. */
    lemma {:induction false} AllIn(p: Pattern, t: string)
      requires Valid()
      ensures all(p, t).Some? ==>
        |all(p, t).value| > 0 && forall k :: 0 <= k < |all(p, t).value| ==> all(p, t).value[k].In(t)
      ensures AllOk(p, t)
    {
    }

    /** The last span of `matchAll` is an occurrence that starts no earlier than any other. */
    lemma {:induction false} LastIsMostDownstream(p: Pattern, t: string)
      requires Valid()
      requires all(p, t).Some?
      ensures |all(p, t).value| > 0
      ensures occurs(p, t, all(p, t).value[|all(p, t).value| - 1])
      ensures forall s :: occurs(p, t, s) ==> s.start <= all(p, t).value[|all(p, t).value| - 1].start
    {
      AllIn(p, t);
      var l := all(p, t).value;
      var n := |l| - 1;
      forall s | occurs(p, t, s) ensures s.start <= l[n].start {
        assert s in l;
        var k :| 0 <= k < |l| && l[k] == s;
        if k < n {
          assert l[k].start <= l[n].start;
        }
      }
    }
  }
}
