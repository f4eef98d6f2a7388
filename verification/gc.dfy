/**
  GC content of a DNA sequence (`calculate_gc_content`): the number of bases
  that are G or C once the sequence is upper-cased, as an exact percentage
  of the sequence length.
 */
module Gc {
  import opened Ascii

  /** `base in "GC"` for one base of the upper-cased sequence. */
  predicate IsGc(c: char) {
    c in "GC"
  }

  /** Number of G/C characters in an already upper-cased string. */
  function CountGc(u: string): (n: nat)
    ensures n <= |u|
    ensures n == 0 <==> forall i :: 0 <= i < |u| ==> !IsGc(u[i])
    ensures n == |u| <==> forall i :: 0 <= i < |u| ==> IsGc(u[i])
  {
    if |u| == 0 then 0
    else
      var rest := CountGc(u[..|u| - 1]);
      assert forall i :: 0 <= i < |u| - 1 ==> u[..|u| - 1][i] == u[i];
      rest + (if IsGc(u[|u| - 1]) then 1 else 0)
  }

  /** The positions of `s` whose upper-case form is G or C. */
  ghost function GcPositions(s: string): set<nat> {
    set i: nat | i < |s| && IsGc(Upper(s[i]))
  }

  /** The `gc_count` of the source: G/C bases counted after upper-casing. */
  function GcCount(s: string): (n: nat)
    ensures n <= |s|
    ensures n == 0 <==> forall i :: 0 <= i < |s| ==> !IsGc(Upper(s[i]))
    ensures n == |s| <==> forall i :: 0 <= i < |s| ==> IsGc(Upper(s[i]))
  {
    var u := UpperAll(s);
    assert forall i :: 0 <= i < |s| ==> u[i] == Upper(s[i]);
    CountGc(u)
  }

  /** The GC percentage `gc_count / len * 100`, as an exact rational. The
      source divides by the length, so an empty sequence is outside its
      domain (Python raises `ZeroDivisionError`). */
  function GcContent(s: string): (pct: real)
    requires |s| > 0
    ensures 0.0 <= pct <= 100.0
  {
    PercentFacts(GcCount(s), |s|);
    Percent(GcCount(s), |s|)
  }

  /** `n / len * 100` over the reals. */
  function Percent(n: nat, len: nat): real
    requires len > 0
  {
    (n as real / len as real) * 100.0
  }

  /** The percentage is `gc_count / len * 100`: times the length it gives
      100 times the count. */
  lemma GcContentRatio(s: string)
    requires |s| > 0
    ensures IsShare(GcContent(s), GcCount(s), |s|)
  {
    PercentRatio(GcContent(s), GcCount(s), |s|);
  }

  /** `pct` percent of `len` is `n`: `pct * len == 100 * n`. */
  predicate IsShare(pct: real, n: nat, len: nat) {
    pct * (len as real) == 100.0 * (n as real)
  }

  /** `n / len * 100` is the percentage that `n` is of `len`. */
  lemma PercentRatio(pct: real, n: nat, len: nat)
    requires len > 0 && pct == Percent(n, len)
    ensures IsShare(pct, n, len)
  {
    var q := n as real / len as real;
    assert q * (len as real) == n as real;
  }

  /** The percentage is 100 exactly for a sequence made only of G and C. */
  lemma GcContentFull(s: string)
    requires |s| > 0
    ensures GcContent(s) == 100.0 <==> forall i :: 0 <= i < |s| ==> IsGc(Upper(s[i]))
  {
    PercentFacts(GcCount(s), |s|);
  }

  /** The percentage is 0 exactly for a sequence without G or C. */
  lemma GcContentZero(s: string)
    requires |s| > 0
    ensures GcContent(s) == 0.0 <==> forall i :: 0 <= i < |s| ==> !IsGc(Upper(s[i]))
  {
    PercentFacts(GcCount(s), |s|);
  }

  /** A share of `n` out of `len` is a percentage in [0, 100] that hits the
      ends exactly at `n == 0` and `n == len`. */
  lemma PercentFacts(n: nat, len: nat)
    requires n <= len && len > 0
    ensures 0.0 <= Percent(n, len) <= 100.0
    ensures Percent(n, len) * (len as real) == 100.0 * (n as real)
    ensures Percent(n, len) == 100.0 <==> n == len
    ensures Percent(n, len) == 0.0 <==> n == 0
  {
    var q := n as real / len as real;
    assert q <= 1.0;
    assert q * (len as real) == n as real;
  }

  /** The recursive count equals the size of the set of G/C positions, an
      independent description of the same number. */
  lemma {:induction false} CountGcIsCardinality(u: string)
    ensures CountGc(u) == |set i: nat | i < |u| && IsGc(u[i])|
  {
    if |u| != 0 {
      var p := u[..|u| - 1];
      CountGcIsCardinality(p);
      var before := set i: nat | i < |p| && IsGc(p[i]);
      var all := set i: nat | i < |u| && IsGc(u[i]);
      if IsGc(u[|u| - 1]) {
        assert all == before + {|u| - 1};
        assert |u| - 1 !in before;
      } else {
        assert all == before;
      }
    }
  }

  /** `GcCount(s)` is the number of positions whose upper-case base is G or C. */
  lemma GcCountIsPositions(s: string)
    ensures GcCount(s) == |GcPositions(s)|
  {
    var u := UpperAll(s);
    CountGcIsCardinality(u);
    assert (set i: nat | i < |u| && IsGc(u[i])) == GcPositions(s);
  }

  /** Counting G/C over a concatenation adds the counts of the parts. */
  lemma {:induction false} GcCountAppend(a: string, b: string)
    ensures GcCount(a + b) == GcCount(a) + GcCount(b)
  {
    UpperAllAppend(a, b);
    CountGcAppend(UpperAll(a), UpperAll(b));
  }

  lemma {:induction false} CountGcAppend(a: string, b: string)
    ensures CountGc(a + b) == CountGc(a) + CountGc(b)
  {
    if |b| == 0 {
      assert a + b == a;
    } else {
      var b' := b[..|b| - 1];
      assert (a + b)[..|a + b| - 1] == a + b';
      CountGcAppend(a, b');
    }
  }

  /** Case does not matter: a sequence and its upper-case form have the
      same GC count. */
  lemma UpperPreservesGcCount(s: string)
    ensures GcCount(UpperAll(s)) == GcCount(s)
  {
    var u := UpperAll(s);
    forall i | 0 <= i < |s|
      ensures UpperAll(u)[i] == UpperAll(s)[i]
    {
      UpperIdempotent(s[i]);
    }
    assert UpperAll(u) == UpperAll(s);
  }
}
