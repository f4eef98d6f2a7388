/**
  DNA to RNA transcription (`transcribe_dna_to_rna`): upper-case the
  sequence, then replace every thymine `T` by uracil `U`.
 */
module Transcription {
  import opened Ascii
  import opened Gc

  /** `s.replace(x, y)` for a one-character pattern: every occurrence of
      `x` becomes `y`, every other character stays where it was. */
  function ReplaceChar(s: string, x: char, y: char): (r: string)
    ensures |r| == |s|
    ensures forall i :: 0 <= i < |s| ==> r[i] == (if s[i] == x then y else s[i])
    ensures x != y ==> x !in r
  {
    if |s| == 0 then [] else [if s[0] == x then y else s[0]] + ReplaceChar(s[1..], x, y)
  }

  /** `dna_sequence.upper().replace("T", "U")`. */
  function Transcribe(dna: string): (rna: string)
    ensures |rna| == |dna|
    ensures 'T' !in rna && 't' !in rna
    ensures forall i :: 0 <= i < |dna| ==>
      rna[i] == (if Upper(dna[i]) == 'T' then 'U' else Upper(dna[i]))
  {
    ReplaceChar(UpperAll(dna), 'T', 'U')
  }

  /** The four DNA bases, in either case. */
  predicate IsDnaBase(c: char) {
    c in "ACGTacgt"
  }

  /** The four RNA bases, upper case. */
  predicate IsRnaBase(c: char) {
    c in "ACGU"
  }

  /** A sequence over the DNA alphabet transcribes to one over the RNA
      alphabet, base for base: A, C, G keep their letter and T becomes U. */
  lemma TranscribeBases(dna: string)
    requires forall i :: 0 <= i < |dna| ==> IsDnaBase(dna[i])
    ensures forall i :: 0 <= i < |dna| ==> IsRnaBase(Transcribe(dna)[i])
    ensures forall i :: 0 <= i < |dna| ==>
      (Transcribe(dna)[i] == 'U' <==> dna[i] in "Tt")
  {
    forall i | 0 <= i < |dna|
      ensures IsRnaBase(Transcribe(dna)[i]) && (Transcribe(dna)[i] == 'U' <==> dna[i] in "Tt")
    {
      TranscribeBase(dna[i]);
    }
  }

  /** One base: the letter `TranscribeBases` states for each position. */
  lemma TranscribeBase(c: char)
    requires IsDnaBase(c)
    ensures var u := Upper(c);
      var r := if u == 'T' then 'U' else u;
      IsRnaBase(r) && (r == 'U' <==> c in "Tt")
  {
  }

  /** Transcribing an RNA sequence again changes nothing. */
  lemma TranscribeIdempotent(dna: string)
    ensures Transcribe(Transcribe(dna)) == Transcribe(dna)
  {
    var rna := Transcribe(dna);
    forall i | 0 <= i < |rna|
      ensures Transcribe(rna)[i] == rna[i]
    {
      UpperIdempotent(dna[i]);
    }
  }

  /** Transcription works base by base, so it distributes over concatenation. */
  lemma TranscribeAppend(a: string, b: string)
    ensures Transcribe(a + b) == Transcribe(a) + Transcribe(b)
  {
    UpperAllAppend(a, b);
    ReplaceCharAppend(UpperAll(a), UpperAll(b), 'T', 'U');
  }

  lemma {:induction false} ReplaceCharAppend(u: string, v: string, x: char, y: char)
    ensures ReplaceChar(u + v, x, y) == ReplaceChar(u, x, y) + ReplaceChar(v, x, y)
  {
    if |u| == 0 {
      assert u + v == v;
    } else {
      assert (u + v)[1..] == u[1..] + v;
      ReplaceCharAppend(u[1..], v, x, y);
    }
  }

  /** Transcription keeps the GC content: only T changes, and T is neither
      G nor C. */
  lemma TranscribePreservesGcCount(dna: string)
    ensures GcCount(Transcribe(dna)) == GcCount(dna)
  {
    var rna := Transcribe(dna);
    var u := UpperAll(dna);
    forall i | 0 <= i < |rna|
      ensures IsGc(UpperAll(rna)[i]) <==> IsGc(u[i])
    {
    }
    SameGcPattern(UpperAll(rna), u);
  }

  /** Two upper-cased strings that agree on which positions are G/C have
      the same G/C count. */
  lemma {:induction false} SameGcPattern(u: string, v: string)
    requires |u| == |v|
    requires forall i :: 0 <= i < |u| ==> (IsGc(u[i]) <==> IsGc(v[i]))
    ensures CountGc(u) == CountGc(v)
  {
    if |u| != 0 {
      SameGcPattern(u[..|u| - 1], v[..|v| - 1]);
    }
  }
}
