/**
  The example input of the demo driver (`main`), worked through the model:
  which matches the scan finds in each frame and which ORFs
  `find_orfs(dna_sequence, min_length=9)` reports.
 */
module Demo {
  import opened LazyScan
  import opened Orfs

  const DemoSequence: string := "ATGCGTATAGCGCTTAAATGCGCTGA"

  /** No start codon begins in `[i, a)`, checked position by position. */
  predicate NoStartBetween(s: string, i: nat, a: nat)
    decreases a - i
  {
    i >= a || (!StartAt(s, i) && NoStartBetween(s, i + 1, a))
  }

  /** The scan walks over a stretch without start codons. */
  lemma {:induction false} ScanOverNoStart(s: string, i: nat, a: nat)
    requires i <= a <= |s| && NoStartBetween(s, i, a)
    ensures Scan(s, i) == Scan(s, a)
    decreases a - i
  {
    if i < a {
      ScanPastNonStart(s, i);
      ScanOverNoStart(s, i + 1, a);
    }
  }

  /** Positions 1 to 16 hold no start codon. */
  lemma DemoNoStart()
    ensures NoStartBetween(DemoSequence, 1, 17)
    ensures NoStartBetween(DemoSequence, 2, 17)
    ensures NoStartBetween(DemoSequence, 10, 17)
  {
    var d := DemoSequence;
    assert NoStartBetween(d, 16, 17);
    assert NoStartBetween(d, 15, 17);
    assert NoStartBetween(d, 14, 17);
    assert NoStartBetween(d, 13, 17);
    assert NoStartBetween(d, 12, 17);
    assert NoStartBetween(d, 11, 17);
    assert NoStartBetween(d, 10, 17);
    assert NoStartBetween(d, 9, 17);
    assert NoStartBetween(d, 8, 17);
    assert NoStartBetween(d, 7, 17);
    assert NoStartBetween(d, 6, 17);
    assert NoStartBetween(d, 5, 17);
    assert NoStartBetween(d, 4, 17);
    assert NoStartBetween(d, 3, 17);
    assert NoStartBetween(d, 2, 17);
    assert NoStartBetween(d, 1, 17);
  }

  /** The start codon at 0 is closed by the stop codon TAG at 7, which is
      not in frame with it: the lazy gap ignores codon boundaries. */
  lemma DemoMatchAt0()
    ensures MatchAt(DemoSequence, 0) == Some(10)
  {
    var d := DemoSequence;
    assert StartAt(d, 0);
    assert FindStop(d, 3) == FindStop(d, 4);
    assert FindStop(d, 4) == FindStop(d, 5);
    assert FindStop(d, 5) == FindStop(d, 6);
    assert FindStop(d, 6) == FindStop(d, 7);
    assert FindStop(d, 7) == Some(7);
  }

  /** The start codon at 17 is closed by the stop codon TGA at 23. */
  lemma DemoMatchAt17()
    ensures MatchAt(DemoSequence, 17) == Some(26)
  {
    var d := DemoSequence;
    assert StartAt(d, 17);
    assert FindStop(d, 20) == FindStop(d, 21);
    assert FindStop(d, 21) == FindStop(d, 22);
    assert FindStop(d, 22) == FindStop(d, 23);
    assert FindStop(d, 23) == Some(23);
  }

  /** Frame 0 finds both matches; frames 1 and 2 skip to the start codon
      at 17 and find only the second. */
  lemma DemoScans()
    ensures Scan(DemoSequence, 0) == [Span(0, 10), Span(17, 26)]
    ensures Scan(DemoSequence, 1) == [Span(17, 26)]
    ensures Scan(DemoSequence, 2) == [Span(17, 26)]
  {
    var d := DemoSequence;
    DemoMatchAt17();
    assert Scan(d, 26) == [];
    assert Scan(d, 17) == [Span(17, 26)];
    DemoNoStart();
    ScanOverNoStart(d, 10, 17);
    ScanOverNoStart(d, 1, 17);
    ScanOverNoStart(d, 2, 17);
    DemoMatchAt0();
    assert Scan(d, 0) == [Span(0, 10)] + Scan(d, 10);
  }

  /** The bases of the two matches. */
  lemma DemoSlices()
    ensures DemoSequence[0..10] == "ATGCGTATAG"
    ensures DemoSequence[17..26] == "ATGCGCTGA"
  {
  }

  /** Both matches are at least 9 bases long, so both are kept. */
  lemma DemoCollect()
    ensures Collect(DemoSequence, 0, [Span(17, 26)], 9) == [Orf(17, 26, "ATGCGCTGA")]
    ensures Collect(DemoSequence, 0, [Span(0, 10), Span(17, 26)], 9)
      == [Orf(0, 10, "ATGCGTATAG"), Orf(17, 26, "ATGCGCTGA")]
  {
    var d := DemoSequence;
    DemoSlices();
    var s2 := [Span(0, 10), Span(17, 26)];
    assert s2[1..] == [Span(17, 26)];
    assert ToOrf(d, 0, Span(17, 26)) == Orf(17, 26, "ATGCGCTGA");
    assert ToOrf(d, 0, Span(0, 10)) == Orf(0, 10, "ATGCGTATAG");
    assert Collect(d, 0, [], 9) == [];
  }

  /** Each frame's ORFs. */
  lemma DemoFrames()
    ensures FrameOrfs(DemoSequence, 0, 9) == [Orf(0, 10, "ATGCGTATAG"), Orf(17, 26, "ATGCGCTGA")]
    ensures FrameOrfs(DemoSequence, 1, 9) == [Orf(17, 26, "ATGCGCTGA")]
    ensures FrameOrfs(DemoSequence, 2, 9) == [Orf(17, 26, "ATGCGCTGA")]
  {
    var d := DemoSequence;
    FrameOrfsDirect(d, 0, 9);
    FrameOrfsDirect(d, 1, 9);
    FrameOrfsDirect(d, 2, 9);
    DemoScans();
    DemoCollect();
  }

  /** `find_orfs(dna_sequence, min_length=9)` on the demo input: frame 0
      finds the ORFs at 0..10 and 17..26; frames 1 and 2 each find 17..26
      again, so the same ORF is reported three times. */
  lemma DemoOrfs()
    ensures FindOrfs(DemoSequence, 9) == [
      Orf(0, 10, "ATGCGTATAG"),
      Orf(17, 26, "ATGCGCTGA"),
      Orf(17, 26, "ATGCGCTGA"),
      Orf(17, 26, "ATGCGCTGA")]
  {
    DemoFrames();
    ThreeFrames(Orf(0, 10, "ATGCGTATAG"), Orf(17, 26, "ATGCGCTGA"));
  }

  /** Joining the three frames' results, kept out of `DemoOrfs` so that the
      concatenation is proved without the demo constants in scope. */
  lemma ThreeFrames(x: Orf, y: Orf)
    ensures [x, y] + [y] + [y] == [x, y, y, y]
  {
  }
}
