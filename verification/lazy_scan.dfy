/**
  The regular expression `ATG.*?(TAA|TAG|TGA)` run by `re.finditer`: a
  start codon, the shortest gap of non-newline characters, then the first
  stop codon. Matches are reported left to right and never overlap: after a
  match the search resumes at its end, after a failed position it resumes
  one character further on.

  The alternation of stop codons is built from a set, so its order is not
  fixed; at any one position at most one of the three distinct codons can
  match, so the order does not change what matches.
 */
module LazyScan {

  const StartCodon: string := "ATG"
  const StopCodons: set<string> := {"TAA", "TAG", "TGA"}

  /** The start codon begins at `p`, compared character by character. */
  predicate StartAt(s: string, p: nat) {
    p + 3 <= |s| && s[p] == 'A' && s[p + 1] == 'T' && s[p + 2] == 'G'
  }

  /** One of the stop codons TAA, TAG, TGA begins at `p`. */
  predicate StopAt(s: string, p: nat) {
    && p + 3 <= |s| && s[p] == 'T'
    && ((s[p + 1] == 'A' && (s[p + 2] == 'A' || s[p + 2] == 'G')) || (s[p + 1] == 'G' && s[p + 2] == 'A'))
  }

  /** The character tests are the codon constants. */
  lemma CodonTests(s: string, p: nat)
    requires p + 3 <= |s|
    ensures StartAt(s, p) <==> s[p..p + 3] == StartCodon
    ensures StopAt(s, p) <==> s[p..p + 3] in StopCodons
  {
    var c := s[p..p + 3];
    assert c == [s[p], s[p + 1], s[p + 2]];
  }

  /** A regex match object: the half-open extent `[start, end)` of a match. */
  datatype Span = Span(start: nat, end: nat)

  /** Declarative reading of the pattern anchored at `a`: `s[a..e]` is a
      start codon, a gap without stop codon or newline, and a stop codon.
      The lazy `.*?` makes the stop the first one after the start codon. */
  ghost predicate IsLazyMatch(s: string, a: nat, e: nat) {
    && a + 6 <= e <= |s|
    && StartAt(s, a)
    && StopAt(s, e - 3)
    && (forall p :: a + 3 <= p < e - 3 ==> !StopAt(s, p))
    && (forall p :: a + 3 <= p < e - 3 ==> s[p] != '\n')
  }

  /** A position found, or none. */
  datatype Option = None | Some(value: nat)

  /** Lazy search for the stop codon: from `j` on, the first position where a
      stop codon starts, unless a newline (which `.` does not match) or the
      end of the string comes first. */
  function FindStop(s: string, j: nat): Option
    decreases |s| - j
  {
    if j + 3 > |s| then None
    else if StopAt(s, j) then Some(j)
    else if s[j] == '\n' then None
    else FindStop(s, j + 1)
  }

  /** `FindStop` returns the first stop codon with no stop codon or newline
      before it; when it returns nothing, every later stop codon lies behind
      a newline. */
  lemma {:induction false} FindStopSound(s: string, j: nat)
    ensures FindStop(s, j).Some? ==>
      && j <= FindStop(s, j).value
      && StopAt(s, FindStop(s, j).value)
      && (forall p :: j <= p < FindStop(s, j).value ==> !StopAt(s, p) && s[p] != '\n')
    ensures FindStop(s, j).None? ==>
      forall p :: j <= p && StopAt(s, p) ==> exists q :: j <= q < p && s[q] == '\n'
    decreases |s| - j
  {
    if j + 3 <= |s| && !StopAt(s, j) && s[j] != '\n' {
      FindStopSound(s, j + 1);
    }
  }

  /** Try the pattern at position `a`: the end of the match, if there is one. */
  function MatchAt(s: string, a: nat): Option {
    if StartAt(s, a) then
      match FindStop(s, a + 3)
      case Some(j) => Some(j + 3)
      case None => None
    else None
  }

  /** `MatchAt` finds a lazy match whenever there is one, and only then. */
  lemma MatchAtSound(s: string, a: nat)
    ensures MatchAt(s, a).Some? ==> IsLazyMatch(s, a, MatchAt(s, a).value)
    ensures MatchAt(s, a).None? ==> forall e: nat :: !IsLazyMatch(s, a, e)
  {
    FindStopSound(s, a + 3);
  }

  /** Matches of the pattern from position `i` on, in the order
      `re.finditer` yields them. */
  function Scan(s: string, i: nat): (r: seq<Span>)
    ensures MatchRun(s, i, r)
    ensures Ordered(r)
    decreases |s| - i
  {
    if i >= |s| then []
    else
      MatchAtSound(s, i);
      match MatchAt(s, i)
      case Some(e) => [Span(i, e)] + Scan(s, e)
      case None => Scan(s, i + 1)
  }

  /** Lazy matches of `s`, none of which starts before `lo`. */
  ghost predicate MatchRun(s: string, lo: nat, spans: seq<Span>) {
    forall k :: 0 <= k < |spans| ==> lo <= spans[k].start && IsLazyMatch(s, spans[k].start, spans[k].end)
  }

  /** Spans that follow each other without overlapping. */
  ghost predicate Ordered(r: seq<Span>) {
    forall k, l :: 0 <= k < l < |r| ==> r[k].end <= r[l].start
  }

  /** Position `p` is the start of, or lies inside, one of the spans. */
  ghost predicate Covered(r: seq<Span>, p: nat) {
    exists k :: 0 <= k < |r| && r[k].start <= p < r[k].end
  }

  /** What `finditer` promises, stated without reference to the search: all
      matches from `i` on, in order, without overlap, leaving out only
      positions that fall inside an earlier match. */
  ghost predicate Leftmost(s: string, i: nat, r: seq<Span>) {
    && MatchRun(s, i, r)
    && Ordered(r)
    && (forall p: nat, e: nat :: i <= p && IsLazyMatch(s, p, e) ==> Covered(r, p))
  }

  /** A lazy match anchored at a given start is unique. */
  lemma LazyMatchUnique(s: string, a: nat, e1: nat, e2: nat)
    requires IsLazyMatch(s, a, e1) && IsLazyMatch(s, a, e2)
    ensures e1 == e2
  {
  }

  /** `MatchAt` answers exactly when the declarative pattern holds. */
  lemma MatchAtIff(s: string, a: nat, e: nat)
    ensures MatchAt(s, a) == Some(e) <==> IsLazyMatch(s, a, e)
  {
    MatchAtSound(s, a);
    if IsLazyMatch(s, a, e) {
      LazyMatchUnique(s, a, MatchAt(s, a).value, e);
    }
  }

  /** If no match starts anywhere in `[i, a)`, scanning from `i` is scanning
      from `a`. */
  lemma {:induction false} ScanSkip(s: string, i: nat, a: nat)
    requires i <= a <= |s|
    requires forall p: nat, e: nat :: i <= p < a ==> !IsLazyMatch(s, p, e)
    ensures Scan(s, i) == Scan(s, a)
    decreases a - i
  {
    if i < a {
      MatchAtSound(s, i);
      ScanSkip(s, i + 1, a);
    }
  }

  /** Every position where the pattern matches is reported by the scan or
      lies inside a reported match. */
  lemma {:induction false} ScanCovers(s: string, i: nat, p: nat, e: nat)
    requires i <= p && IsLazyMatch(s, p, e)
    ensures Covered(Scan(s, i), p)
    decreases |s| - i
  {
    if i < |s| {
      var r := Scan(s, i);
      match MatchAt(s, i)
      case Some(e0) =>
        var rest := Scan(s, e0);
        assert r == [Span(i, e0)] + rest;
        if p < e0 {
          assert r[0].start <= p < r[0].end;
        } else {
          ScanCovers(s, e0, p, e);
          var k :| 0 <= k < |rest| && rest[k].start <= p < rest[k].end;
          assert r[k + 1] == rest[k];
        }
      case None =>
        MatchAtSound(s, i);
        if p != i {
          ScanCovers(s, i + 1, p, e);
        }
    }
  }

  /** The scan meets the declarative description. */
  lemma ScanIsLeftmost(s: string, i: nat)
    ensures Leftmost(s, i, Scan(s, i))
  {
    forall p: nat, e: nat | i <= p && IsLazyMatch(s, p, e)
      ensures Covered(Scan(s, i), p)
    {
      ScanCovers(s, i, p, e);
    }
  }

  /** In a leftmost sequence nothing matches before the first span. */
  lemma NothingBeforeFirst(s: string, i: nat, r: seq<Span>, p: nat, e: nat)
    requires Leftmost(s, i, r) && |r| > 0
    requires i <= p < r[0].start
    ensures !IsLazyMatch(s, p, e)
  {
    assert IsLazyMatch(s, p, e) ==> Covered(r, p);
    assert forall k :: 0 <= k < |r| ==> r[0].end <= r[k].start || k == 0;
  }

  /** Dropping the first span of a leftmost sequence leaves one that is
      leftmost from that span's end. */
  lemma LeftmostTail(s: string, i: nat, r: seq<Span>)
    requires Leftmost(s, i, r) && |r| > 0
    ensures Leftmost(s, r[0].end, r[1..])
  {
    var e0 := r[0].end;
    var rest := r[1..];
    forall k | 0 <= k < |rest|
      ensures e0 <= rest[k].start && IsLazyMatch(s, rest[k].start, rest[k].end)
    {
      assert rest[k] == r[k + 1];
      assert r[0].end <= r[k + 1].start;
    }
    OrderedTail(r);
    forall p: nat, e: nat | e0 <= p && IsLazyMatch(s, p, e)
      ensures Covered(rest, p)
    {
      CoveredTail(r, p);
    }
  }

  /** Dropping the first span keeps the rest in order. */
  lemma OrderedTail(r: seq<Span>)
    requires Ordered(r) && |r| > 0
    ensures Ordered(r[1..])
  {
    var rest := r[1..];
    forall k, l | 0 <= k < l < |rest|
      ensures rest[k].end <= rest[l].start
    {
      assert rest[k] == r[k + 1] && rest[l] == r[l + 1];
    }
  }

  /** A position at or after the end of the first span is covered by the
      remaining spans, if it is covered at all. */
  lemma CoveredTail(r: seq<Span>, p: nat)
    requires Covered(r, p) && |r| > 0 && r[0].end <= p
    ensures Covered(r[1..], p)
  {
    var k :| 0 <= k < |r| && r[k].start <= p < r[k].end;
    assert r[1..][k - 1] == r[k];
  }

  /** The description determines the result: any sequence of spans that is
      leftmost from `i` is the scan from `i`. */
  lemma {:induction false} LeftmostIsScan(s: string, i: nat, r: seq<Span>)
    requires Leftmost(s, i, r)
    ensures r == Scan(s, i)
    decreases |r|
  {
    var g := Scan(s, i);
    if |r| == 0 {
      assert |g| > 0 ==> Covered(r, g[0].start);
    } else {
      LeftmostHead(s, i, r);
      LeftmostTail(s, i, r);
      LeftmostIsScan(s, r[0].end, r[1..]);
      assert r == [r[0]] + r[1..];
    }
  }

  /** The first span of a leftmost sequence is the scan's first match. */
  lemma LeftmostHead(s: string, i: nat, r: seq<Span>)
    requires Leftmost(s, i, r) && |r| > 0
    ensures Scan(s, i) == [r[0]] + Scan(s, r[0].end)
  {
    var a := r[0].start;
    var e0 := r[0].end;
    forall p: nat, e: nat | i <= p < a
      ensures !IsLazyMatch(s, p, e)
    {
      NothingBeforeFirst(s, i, r, p, e);
    }
    ScanSkip(s, i, a);
    MatchAtIff(s, a, e0);
  }

  /** A match starting at `a` is found by every scan that starts at or
      before `a` when nothing matches in between. In particular the first
      start codon that is followed by a stop codon is always reported. */
  lemma FirstMatchFound(s: string, i: nat, a: nat, e: nat)
    requires i <= a && IsLazyMatch(s, a, e)
    requires forall p: nat, e': nat :: i <= p < a ==> !IsLazyMatch(s, p, e')
    ensures |Scan(s, i)| > 0 && Scan(s, i)[0] == Span(a, e)
  {
    ScanSkip(s, i, a);
    MatchAtIff(s, a, e);
  }

  /** A position without a start codon contributes nothing: the scan moves
      on to the next position. */
  lemma ScanPastNonStart(s: string, i: nat)
    requires i < |s| && !StartAt(s, i)
    ensures Scan(s, i) == Scan(s, i + 1)
  {
  }

  /** The scan from `i` is empty exactly when the pattern matches nowhere
      from `i` on. */
  lemma ScanEmptyIff(s: string, i: nat)
    ensures Scan(s, i) == [] <==> forall p: nat, e: nat :: i <= p ==> !IsLazyMatch(s, p, e)
  {
    var r := Scan(s, i);
    if r != [] {
      assert IsLazyMatch(s, r[0].start, r[0].end);
    } else {
      forall p: nat, e: nat | i <= p
        ensures !IsLazyMatch(s, p, e)
      {
        if IsLazyMatch(s, p, e) {
          ScanCovers(s, i, p, e);
        }
      }
    }
  }

  /** Without newlines, a start codon that has no stop codon after it ends
      the scan: any later start codon would need a stop codon even further
      on, and that codon would also close the earlier one. */
  lemma ScanEndsAtOpenStart(s: string, a: nat)
    requires forall q :: 0 <= q < |s| ==> s[q] != '\n'
    requires StartAt(s, a) && MatchAt(s, a).None?
    ensures Scan(s, a) == []
  {
    assert FindStop(s, a + 3).None?;
    FindStopSound(s, a + 3);
    assert forall p: nat :: a + 3 <= p ==> !StopAt(s, p);
    ScanEmptyIff(s, a);
  }

  /** Scanning a suffix `s[f..]` and shifting the matches by `f` gives the
      matches of scanning `s` itself from `f`: the pattern has no anchors
      or look-behind, so what precedes `f` is never looked at. */
  lemma ScanSuffix(s: string, f: nat)
    requires f <= |s|
    ensures Shift(Scan(s[f..], 0), f) == Scan(s, f)
  {
    var g := Scan(s[f..], 0);
    var r := Shift(g, f);
    forall k | 0 <= k < |r|
      ensures f <= r[k].start && IsLazyMatch(s, r[k].start, r[k].end)
    {
      ShiftedMatch(s, f, k);
    }
    ShiftOrdered(g, f);
    forall p: nat, e: nat | f <= p && IsLazyMatch(s, p, e)
      ensures Covered(r, p)
    {
      ShiftedCover(s, f, p, e);
    }
    LeftmostIsScan(s, f, r);
  }

  /** Shifting keeps spans in order. */
  lemma ShiftOrdered(r: seq<Span>, f: nat)
    requires Ordered(r)
    ensures Ordered(Shift(r, f))
  {
  }

  /** Each shifted match of the suffix is a match of `s` at or after `f`. */
  lemma ShiftedMatch(s: string, f: nat, k: nat)
    requires f <= |s| && k < |Scan(s[f..], 0)|
    ensures var m := Shift(Scan(s[f..], 0), f)[k];
      f <= m.start && IsLazyMatch(s, m.start, m.end)
  {
    var g := Scan(s[f..], 0);
    var m := g[k];
    assert IsLazyMatch(s[f..], m.start, m.end);
    ShiftedMatchAt(s, f, m);
    assert Shift(g, f)[k] == Span(m.start + f, m.end + f);
  }

  lemma ShiftedMatchAt(s: string, f: nat, m: Span)
    requires f <= |s| && IsLazyMatch(s[f..], m.start, m.end)
    ensures IsLazyMatch(s, m.start + f, m.end + f)
  {
    LazyMatchShift(s, f, m.start, m.end);
  }

  /** Each match of `s` at or after `f` is covered by the shifted matches
      of the suffix. */
  lemma ShiftedCover(s: string, f: nat, p: nat, e: nat)
    requires f <= p && f <= |s| && IsLazyMatch(s, p, e)
    ensures Covered(Shift(Scan(s[f..], 0), f), p)
  {
    var t := s[f..];
    var g := Scan(t, 0);
    var r := Shift(g, f);
    var a: nat, b: nat := p - f, e - f;
    assert a + f == p && b + f == e;
    LazyMatchShift(s, f, a, b);
    assert IsLazyMatch(t, a, b);
    ScanCovers(t, 0, a, b);
    var k :| 0 <= k < |g| && g[k].start <= p - f < g[k].end;
    assert r[k].start <= p < r[k].end;
  }

  /** Every span moved `f` positions to the right. */
  function Shift(r: seq<Span>, f: nat): (r': seq<Span>)
    ensures |r'| == |r|
    ensures forall k :: 0 <= k < |r| ==> r'[k] == Span(r[k].start + f, r[k].end + f)
  {
    if |r| == 0 then [] else [Span(r[0].start + f, r[0].end + f)] + Shift(r[1..], f)
  }

  /** A match looks only at the characters it spans: cutting the string
      at the match's end keeps the match. */
  lemma LazyMatchPrefix(s: string, a: nat, e: nat)
    requires IsLazyMatch(s, a, e)
    ensures IsLazyMatch(s[..e], a, e)
  {
    var t := s[..e];
    forall p | a + 3 <= p < e - 3
      ensures !StopAt(t, p) && t[p] != '\n'
    {
      assert !StopAt(s, p);
    }
  }

  /** A match in the suffix `s[f..]` is the same match in `s`, shifted. */
  lemma LazyMatchShift(s: string, f: nat, a: nat, e: nat)
    requires f <= |s|
    ensures IsLazyMatch(s[f..], a, e) <==> IsLazyMatch(s, a + f, e + f)
  {
    var t := s[f..];
    if IsLazyMatch(s, a + f, e + f) {
      forall p | a + 3 <= p < e - 3
        ensures !StopAt(t, p) && t[p] != '\n'
      {
        assert !StopAt(s, p + f);
      }
    }
    if IsLazyMatch(t, a, e) {
      forall p | a + f + 3 <= p < e + f - 3
        ensures !StopAt(s, p) && s[p] != '\n'
      {
        assert !StopAt(t, p - f);
        assert t[p - f] == s[p];
      }
    }
  }
}
