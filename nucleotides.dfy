/**
 * The sequence transform of parser.py: the reverse complement of a read,
 * with every symbol other than A, C, G and T mapped to the placeholder N.
 */
module Nucleotides {

  /** The four bases that have a complement. */
  predicate IsBase(c: char) {
    c == 'A' || c == 'C' || c == 'G' || c == 'T'
  }

  /** A read made only of the four bases. */
  predicate IsDna(s: string) {
    forall i :: 0 <= i < |s| ==> IsBase(s[i])
  }

  /** The complement lookup with its default: A<->T, C<->G, anything else N. */
  function Complement(c: char): (r: char)
    ensures IsBase(r) <==> IsBase(c)
    ensures IsBase(c) ==> r != c
    ensures !IsBase(c) ==> r == 'N'
  {
    match c
    case 'A' => 'T'
    case 'T' => 'A'
    case 'C' => 'G'
    case 'G' => 'C'
    case _ => 'N'
  }

  /**
   * The read reversed and complemented symbol by symbol. It is total, keeps
   * the length, and only ever produces A, C, G, T or N.
   */
  function ReverseComplement(s: string): (r: string)
    ensures |r| == |s|
    ensures forall i :: 0 <= i < |s| ==> r[i] == Complement(s[|s| - 1 - i])
    ensures forall i :: 0 <= i < |r| ==> IsBase(r[i]) || r[i] == 'N'
  {
    if s == [] then [] else [Complement(s[|s| - 1])] + ReverseComplement(s[..|s| - 1])
  }

  /** Complementing twice returns a base, and turns every other symbol into N. */
  lemma {:induction false} ComplementTwice(c: char)
    ensures Complement(Complement(c)) == if IsBase(c) then c else 'N'
  {
  }

  /**
   * Applying the transform twice restores every base in place and leaves N
   * wherever the read had any other symbol.
   */
  lemma {:induction false} ReverseComplementTwice(s: string)
    ensures |ReverseComplement(ReverseComplement(s))| == |s|
    ensures forall i :: 0 <= i < |s| ==>
      ReverseComplement(ReverseComplement(s))[i] == if IsBase(s[i]) then s[i] else 'N'
  {
    var r := ReverseComplement(s);
    forall i | 0 <= i < |s|
      ensures ReverseComplement(r)[i] == if IsBase(s[i]) then s[i] else 'N'
    {
      assert ReverseComplement(r)[i] == Complement(r[|s| - 1 - i]);
      assert r[|s| - 1 - i] == Complement(s[i]);
      ComplementTwice(s[i]);
    }
  }

  /** On reads over A, C, G and T the transform is an involution. */
  lemma {:induction false} ReverseComplementInvolution(s: string)
    requires IsDna(s)
    ensures ReverseComplement(ReverseComplement(s)) == s
  {
    ReverseComplementTwice(s);
  }
}
