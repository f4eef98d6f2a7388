/**
  Open reading frame search (`find_orfs`): for each reading frame 0, 1, 2,
  run the lazy start-to-stop pattern over the frame's suffix of the
  sequence, translate each match back to offsets in the whole sequence and
  keep the ones at least `minLength` bases long.
 */
module Orfs {
  import opened LazyScan

  /** A reported open reading frame: offsets into the sequence (end
      exclusive) and the bases between them. */
  datatype Orf = Orf(start: nat, end: nat, bases: string)

  /** Python's `s[f:]`: the suffix from `f`, empty when `f` is past the end.
      Its `k`-th character is the `f + k`-th of `s`. */
  function FrameSuffix(s: string, f: nat): (t: string)
    ensures |t| == (if f <= |s| then |s| - f else 0)
    ensures forall k :: 0 <= k < |t| ==> t[k] == s[f + k]
  {
    if f <= |s| then s[f..] else []
  }

  /** Python's `s[i:j]` for non-negative bounds: both are clamped to the
      length, and a slice whose start passes its end is empty. */
  function Slice(s: string, i: nat, j: nat): (t: string)
    ensures |t| <= |s|
    ensures i <= j <= |s| ==> t == s[i..j]
  {
    var lo := if i <= |s| then i else |s|;
    var hi := if j <= |s| then j else |s|;
    if lo <= hi then s[lo..hi] else []
  }

  /** One match object turned into the source's `(start, end, orf)`
      triple: offsets shifted back by `frame`, bases sliced from the whole
      sequence. Re-slicing the whole sequence at the shifted offsets gives
      back the text the match covered in the frame's suffix. */
  function ToOrf(s: string, frame: nat, m: Span): (o: Orf)
    ensures o.start == m.start + frame && o.end == m.end + frame
    ensures m.start <= m.end <= |FrameSuffix(s, frame)| ==>
      o.bases == FrameSuffix(s, frame)[m.start..m.end]
  {
    var start := m.start + frame;
    var end := m.end + frame;
    Orf(start, end, Slice(s, start, end))
  }

  /** The inner loop of one frame: each match of the frame suffix, shifted
      back by `frame`, becomes an ORF, which is appended unless it is shorter
      than `minLength`. */
  function Collect(s: string, frame: nat, matches: seq<Span>, minLength: int): (r: seq<Orf>)
    ensures |r| <= |matches|
  {
    if |matches| == 0 then []
    else
      var o := ToOrf(s, frame, matches[0]);
      (if |o.bases| >= minLength then [o] else []) + Collect(s, frame, matches[1..], minLength)
  }

  /** All ORFs of one reading frame, in the order the regex finds them. */
  function FrameOrfs(s: string, frame: nat, minLength: int): seq<Orf> {
    Collect(s, frame, Scan(FrameSuffix(s, frame), 0), minLength)
  }

  /** An ORF as reported: its offsets delimit a lazy match of the whole
      sequence and its bases are the slice between them. */
  ghost predicate ValidOrf(s: string, o: Orf) {
    IsLazyMatch(s, o.start, o.end) && o.bases == s[o.start..o.end]
  }

  /** ORFs that follow each other without overlapping. */
  ghost predicate Disjoint(r: seq<Orf>) {
    forall k, l :: 0 <= k < l < |r| ==> r[k].end <= r[l].start
  }

  /** `find_orfs`: frame 0's ORFs, then frame 1's, then frame 2's. Its
      properties are stated by `FindOrfsSound` and the lemmas after it. */
  function FindOrfs(s: string, minLength: int): seq<Orf> {
    FrameOrfs(s, 0, minLength) + FrameOrfs(s, 1, minLength) + FrameOrfs(s, 2, minLength)
  }

  /** The default of `find_orfs`'s `min_length` parameter. */
  const DefaultMinLength: int := 100

  /** `find_orfs(dna_sequence)`, called without `min_length`. */
  function FindOrfsDefault(s: string): seq<Orf> {
    FindOrfs(s, DefaultMinLength)
  }

  /** Without an explicit threshold only ORFs of at least 100 bases are
      reported, the unfiltered result with the shorter ones removed, so a
      sequence shorter than 100 bases has none. */
  lemma FindOrfsDefaultSound(s: string)
    ensures forall k :: 0 <= k < |FindOrfsDefault(s)| ==>
      ValidOrf(s, FindOrfsDefault(s)[k]) && |FindOrfsDefault(s)[k].bases| >= 100
    ensures FindOrfsDefault(s) == LongEnough(FindOrfs(s, 0), 100)
    ensures |s| < 100 ==> FindOrfsDefault(s) == []
  {
    FindOrfsSound(s, DefaultMinLength);
    ThresholdFilters(s, DefaultMinLength);
  }

  /** Every reported ORF is a lazy match of the pattern in `s`, its bases are
      the slice it spans, it is at least `minLength` long, and its text
      starts with the start codon and ends with a stop codon. A threshold
      longer than the sequence, or a sequence without a start codon, gives
      no ORFs. */
  lemma FindOrfsSound(s: string, m: int)
    ensures var r := FindOrfs(s, m);
      forall k :: 0 <= k < |r| ==> ValidOrf(s, r[k]) && |r[k].bases| >= m && OrfText(r[k].bases)
    ensures m > |s| ==> FindOrfs(s, m) == []
    ensures (forall p: nat :: !StartAt(s, p)) ==> FindOrfs(s, m) == []
  {
    FindOrfsValid(s, m);
    var r := FindOrfs(s, m);
    forall k | 0 <= k < |r|
      ensures OrfText(r[k].bases)
    {
      ValidOrfText(s, r[k]);
    }
    if |r| > 0 {
      assert |r[0].bases| <= |s|;
    }
    if forall p: nat :: !StartAt(s, p) {
      NoStartNoOrfs(s, m);
    }
  }

  /** Every reported ORF, whatever its frame, is a valid ORF of `s` that
      passes the threshold. */
  lemma FindOrfsValid(s: string, m: int)
    ensures ValidRun(s, 0, m, FindOrfs(s, m))
  {
    var a := FrameOrfs(s, 0, m);
    var b := FrameOrfs(s, 1, m);
    var c := FrameOrfs(s, 2, m);
    FrameOrfsDirect(s, 0, m);
    FrameOrfsDirect(s, 1, m);
    FrameOrfsDirect(s, 2, m);
    ValidRunAppend(s, 0, m, a, b);
    ValidRunAppend(s, 0, m, a + b, c);
  }

  /** What every reported ORF looks like on its own: at least six bases,
      the start codon first, a stop codon last, and no stop codon or
      newline in between. */
  ghost predicate OrfText(b: string) {
    && |b| >= 6
    && b[..3] == StartCodon
    && b[|b| - 3..] in StopCodons
    && IsLazyMatch(b, 0, |b|)
  }

  /** A valid ORF's bases, read on their own, have that shape. */
  lemma ValidOrfText(s: string, o: Orf)
    requires ValidOrf(s, o)
    ensures OrfText(o.bases)
  {
    var b, a, e := o.bases, o.start, o.end;
    LazyMatchPrefix(s, a, e);
    assert s[..e][a..] == b;
    LazyMatchShift(s[..e], a, 0, e - a);
    assert IsLazyMatch(b, 0, |b|);
    CodonTests(b, 0);
    CodonTests(b, |b| - 3);
    assert b[|b| - 3..] == b[|b| - 3..|b|];
  }

  /** The frame loop over a suffix is the same as filtering the scan of the
      whole sequence from `frame`. */
  lemma FrameOrfsDirect(s: string, frame: nat, minLength: int)
    ensures Scan(s, frame) == Shift(Scan(FrameSuffix(s, frame), 0), frame)
    ensures FrameOrfs(s, frame, minLength) == Collect(s, 0, Scan(s, frame), minLength)
    ensures ValidRun(s, frame, minLength, FrameOrfs(s, frame, minLength))
    ensures Disjoint(FrameOrfs(s, frame, minLength))
  {
    var t := FrameSuffix(s, frame);
    var g := Scan(t, 0);
    if frame <= |s| {
      ScanSuffix(s, frame);
    } else {
      assert g == [];
    }
    CollectShift(s, frame, g, minLength);
    CollectMatches(s, Scan(s, frame), frame, minLength);
  }

  /** Collecting shifted matches at frame `f` is collecting the shifted
      spans at frame 0. */
  lemma {:induction false} CollectShift(s: string, f: nat, g: seq<Span>, minLength: int)
    ensures Collect(s, f, g, minLength) == Collect(s, 0, Shift(g, f), minLength)
  {
    if |g| > 0 {
      var h := Shift(g, f);
      assert h[0] == Span(g[0].start + f, g[0].end + f);
      assert h[1..] == Shift(g[1..], f);
      assert ToOrf(s, f, g[0]) == ToOrf(s, 0, h[0]);
      CollectShift(s, f, g[1..], minLength);
    }
  }

  /** ORFs that are all valid, at least `minLength` long, and none of
      which starts before `lo`. */
  ghost predicate ValidRun(s: string, lo: nat, minLength: int, r: seq<Orf>) {
    forall k :: 0 <= k < |r| ==> lo <= r[k].start && ValidOrf(s, r[k]) && |r[k].bases| >= minLength
  }

  /** Collecting an ordered run of matches, all at or after `lo`, gives
      valid ORFs at or after `lo` that do not overlap. */
  lemma CollectMatches(s: string, spans: seq<Span>, lo: nat, minLength: int)
    requires MatchRun(s, lo, spans) && Ordered(spans)
    ensures ValidRun(s, lo, minLength, Collect(s, 0, spans, minLength))
    ensures Disjoint(Collect(s, 0, spans, minLength))
  {
    CollectValid(s, spans, lo, minLength);
    CollectDisjoint(s, spans, lo, minLength);
  }

  /** Each kept ORF comes from one of the matches. */
  lemma {:induction false} CollectValid(s: string, spans: seq<Span>, lo: nat, minLength: int)
    requires MatchRun(s, lo, spans)
    ensures ValidRun(s, lo, minLength, Collect(s, 0, spans, minLength))
  {
    if |spans| > 0 {
      var tail := spans[1..];
      MatchRunTail(s, lo, spans);
      CollectValid(s, tail, lo, minLength);
      var h := ToOrf(s, 0, spans[0]);
      assert lo <= h.start && ValidOrf(s, h);
      ValidRunAppend(s, lo, minLength, if |h.bases| >= minLength then [h] else [], Collect(s, 0, tail, minLength));
    }
  }

  /** Kept ORFs inherit the order of their matches. */
  lemma {:induction false} CollectDisjoint(s: string, spans: seq<Span>, lo: nat, minLength: int)
    requires MatchRun(s, lo, spans) && Ordered(spans)
    ensures Disjoint(Collect(s, 0, spans, minLength))
  {
    if |spans| > 0 {
      var tail := spans[1..];
      var e := spans[0].end;
      MatchesTail(s, spans, lo);
      CollectDisjoint(s, tail, e, minLength);
      CollectValid(s, tail, e, minLength);
      var rest := Collect(s, 0, tail, minLength);
      var h := ToOrf(s, 0, spans[0]);
      assert forall k :: 0 <= k < |rest| ==> h.end <= rest[k].start;
      if |h.bases| >= minLength {
        DisjointCons(h, rest);
      }
    }
  }

  /** The spans after the first are still matches at or after `lo`. */
  lemma MatchRunTail(s: string, lo: nat, spans: seq<Span>)
    requires MatchRun(s, lo, spans) && |spans| > 0
    ensures MatchRun(s, lo, spans[1..])
  {
    var tail := spans[1..];
    forall k | 0 <= k < |tail|
      ensures lo <= tail[k].start && IsLazyMatch(s, tail[k].start, tail[k].end)
    {
      assert tail[k] == spans[k + 1];
    }
  }

  /** The spans after the first are matches after its end, still ordered. */
  lemma MatchesTail(s: string, spans: seq<Span>, lo: nat)
    requires |spans| > 0 && MatchRun(s, lo, spans) && Ordered(spans)
    ensures MatchRun(s, spans[0].end, spans[1..])
    ensures Ordered(spans[1..])
  {
    var tail := spans[1..];
    forall k | 0 <= k < |tail|
      ensures spans[0].end <= tail[k].start && IsLazyMatch(s, tail[k].start, tail[k].end)
    {
      assert tail[k] == spans[k + 1];
    }
    OrderedTail(spans);
  }

  /** Two runs of valid ORFs joined are a run of valid ORFs. */
  lemma ValidRunAppend(s: string, lo: nat, minLength: int, a: seq<Orf>, b: seq<Orf>)
    requires ValidRun(s, lo, minLength, a) && ValidRun(s, lo, minLength, b)
    ensures ValidRun(s, lo, minLength, a + b)
  {
    forall k | 0 <= k < |a + b|
      ensures lo <= (a + b)[k].start && ValidOrf(s, (a + b)[k]) && |(a + b)[k].bases| >= minLength
    {
      if k < |a| {
        assert (a + b)[k] == a[k];
      } else {
        assert (a + b)[k] == b[k - |a|];
      }
    }
  }

  /** An ORF ending before every ORF of a disjoint run can go in front. */
  lemma DisjointCons(h: Orf, rest: seq<Orf>)
    requires Disjoint(rest)
    requires forall k :: 0 <= k < |rest| ==> h.end <= rest[k].start
    ensures Disjoint([h] + rest)
  {
    var r := [h] + rest;
    forall k, l | 0 <= k < l < |r|
      ensures r[k].end <= r[l].start
    {
      assert r[l] == rest[l - 1];
      if k > 0 {
        assert r[k] == rest[k - 1];
      }
    }
  }

  /** The frames are reported in order: a block of frame-0 ORFs, then one of
      frame-1 ORFs, then one of frame-2 ORFs, each block ordered by position
      without overlap and starting no earlier than its frame offset. */
  lemma FrameOrder(s: string, minLength: int)
    ensures var r := FindOrfs(s, minLength);
      exists i, j :: 0 <= i <= j <= |r|
        && FrameBlock(r[..i], 0) && FrameBlock(r[i..j], 1) && FrameBlock(r[j..], 2)
  {
    var r := FindOrfs(s, minLength);
    var a := FrameOrfs(s, 0, minLength);
    var b := FrameOrfs(s, 1, minLength);
    var c := FrameOrfs(s, 2, minLength);
    FrameIsBlock(s, 0, minLength);
    FrameIsBlock(s, 1, minLength);
    FrameIsBlock(s, 2, minLength);
    assert r == a + b + c;
    assert r[..|a|] == a;
    assert r[|a|..|a| + |b|] == b;
    assert r[|a| + |b|..] == c;
  }

  /** One frame's ORFs form a block. */
  lemma FrameIsBlock(s: string, frame: nat, minLength: int)
    ensures FrameBlock(FrameOrfs(s, frame, minLength), frame)
  {
    FrameOrfsDirect(s, frame, minLength);
  }

  /** A block of one frame's ORFs: disjoint, in order, none before `frame`. */
  ghost predicate FrameBlock(r: seq<Orf>, frame: nat) {
    Disjoint(r) && forall k :: 0 <= k < |r| ==> frame <= r[k].start
  }

  /** All matches of a frame, whatever their length. */
  function AllOrfs(s: string, spans: seq<Span>): (r: seq<Orf>)
    ensures |r| == |spans|
    ensures forall k :: 0 <= k < |r| ==>
      r[k] == Orf(spans[k].start, spans[k].end, Slice(s, spans[k].start, spans[k].end))
  {
    if |spans| == 0 then []
    else [Orf(spans[0].start, spans[0].end, Slice(s, spans[0].start, spans[0].end))] + AllOrfs(s, spans[1..])
  }

  /** A threshold of at most six bases filters nothing, because every match
      is at least six bases long: the result is every match of every frame. */
  lemma SmallThresholdKeepsAll(s: string, minLength: int)
    requires minLength <= 6
    ensures FindOrfs(s, minLength) ==
      AllOrfs(s, Scan(s, 0)) + AllOrfs(s, Scan(s, 1)) + AllOrfs(s, Scan(s, 2))
  {
    FrameOrfsDirect(s, 0, minLength);
    FrameOrfsDirect(s, 1, minLength);
    FrameOrfsDirect(s, 2, minLength);
    KeepAllMatches(s, Scan(s, 0), minLength);
    KeepAllMatches(s, Scan(s, 1), minLength);
    KeepAllMatches(s, Scan(s, 2), minLength);
  }

  /** With a threshold of at most six, collecting drops nothing. */
  lemma {:induction false} KeepAllMatches(s: string, spans: seq<Span>, minLength: int)
    requires minLength <= 6
    requires forall k :: 0 <= k < |spans| ==> IsLazyMatch(s, spans[k].start, spans[k].end)
    ensures Collect(s, 0, spans, minLength) == AllOrfs(s, spans)
  {
    if |spans| > 0 {
      KeepAllMatches(s, spans[1..], minLength);
    }
  }

  /** Raising the threshold only drops ORFs: the result for `minLength` is
      the result for no threshold, less the ORFs shorter than `minLength`. */
  lemma ThresholdFilters(s: string, minLength: int)
    ensures FindOrfs(s, minLength) == LongEnough(FindOrfs(s, 0), minLength)
  {
    var m := minLength;
    FrameOrfsDirect(s, 0, m);
    FrameOrfsDirect(s, 1, m);
    FrameOrfsDirect(s, 2, m);
    FrameOrfsDirect(s, 0, 0);
    FrameOrfsDirect(s, 1, 0);
    FrameOrfsDirect(s, 2, 0);
    CollectFilter(s, Scan(s, 0), m);
    CollectFilter(s, Scan(s, 1), m);
    CollectFilter(s, Scan(s, 2), m);
    var a := Collect(s, 0, Scan(s, 0), 0);
    var b := Collect(s, 0, Scan(s, 1), 0);
    var c := Collect(s, 0, Scan(s, 2), 0);
    LongEnoughAppend(a + b, c, m);
    LongEnoughAppend(a, b, m);
  }

  /** The ORFs of `r` that are at least `minLength` bases long, in order. */
  function LongEnough(r: seq<Orf>, minLength: int): (r': seq<Orf>)
    ensures |r'| <= |r|
  {
    if |r| == 0 then []
    else (if |r[0].bases| >= minLength then [r[0]] else []) + LongEnough(r[1..], minLength)
  }

  /** Filtering keeps every copy of a long-enough ORF and drops every copy
      of a short one: the duplicates `find_orfs` reports across frames
      survive the threshold. */
  lemma LongEnoughCounts(r: seq<Orf>, minLength: int)
    ensures forall o ::
      multiset(LongEnough(r, minLength))[o] == (if |o.bases| >= minLength then multiset(r)[o] else 0)
  {
    forall o {
      LongEnoughCount(r, minLength, o);
    }
  }

  /** Filtering keeps exactly the ORFs that are long enough. */
  lemma LongEnoughMembers(r: seq<Orf>, minLength: int)
    ensures forall k :: 0 <= k < |LongEnough(r, minLength)| ==>
      |LongEnough(r, minLength)[k].bases| >= minLength && LongEnough(r, minLength)[k] in r
    ensures forall k :: 0 <= k < |r| && |r[k].bases| >= minLength ==> r[k] in LongEnough(r, minLength)
  {
    LongEnoughCounts(r, minLength);
  }

  /** The copies of one ORF that filtering keeps. */
  lemma {:induction false} LongEnoughCount(r: seq<Orf>, minLength: int, o: Orf)
    ensures multiset(LongEnough(r, minLength))[o] == (if |o.bases| >= minLength then multiset(r)[o] else 0)
  {
    if |r| > 0 {
      var head := if |r[0].bases| >= minLength then [r[0]] else [];
      var tail := LongEnough(r[1..], minLength);
      LongEnoughCount(r[1..], minLength, o);
      assert LongEnough(r, minLength) == head + tail;
      assert multiset(head + tail) == multiset(head) + multiset(tail);
      assert r == [r[0]] + r[1..];
      assert multiset(r) == multiset([r[0]]) + multiset(r[1..]);
    }
  }

  /** Filtering distributes over concatenation. */
  lemma {:induction false} LongEnoughAppend(a: seq<Orf>, b: seq<Orf>, minLength: int)
    ensures LongEnough(a + b, minLength) == LongEnough(a, minLength) + LongEnough(b, minLength)
  {
    if |a| == 0 {
      assert a + b == b;
    } else {
      var head := if |a[0].bases| >= minLength then [a[0]] else [];
      assert (a + b)[0] == a[0];
      assert (a + b)[1..] == a[1..] + b;
      assert LongEnough(a + b, minLength) == head + LongEnough(a[1..] + b, minLength);
      LongEnoughAppend(a[1..], b, minLength);
      assert LongEnough(a, minLength) == head + LongEnough(a[1..], minLength);
    }
  }

  /** Collecting with a threshold is collecting everything, then filtering. */
  lemma {:induction false} CollectFilter(s: string, spans: seq<Span>, minLength: int)
    ensures Collect(s, 0, spans, minLength) == LongEnough(Collect(s, 0, spans, 0), minLength)
  {
    if |spans| > 0 {
      CollectFilter(s, spans[1..], minLength);
    }
  }

  /** The scan of one frame is empty exactly when no match starts at or after
      the frame offset; in particular a sequence without a start codon has
      no ORFs in any frame. */
  lemma NoStartNoOrfs(s: string, minLength: int)
    requires forall p: nat :: !StartAt(s, p)
    ensures FindOrfs(s, minLength) == []
    ensures forall f: nat :: Scan(s, f) == []
  {
    forall f: nat
      ensures Scan(s, f) == []
    {
      ScanEmptyIff(s, f);
    }
    FrameOrfsDirect(s, 0, minLength);
    FrameOrfsDirect(s, 1, minLength);
    FrameOrfsDirect(s, 2, minLength);
  }
}
