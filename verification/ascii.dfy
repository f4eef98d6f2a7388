/**
  ASCII case mapping, the part of Python's `str.upper()` that DNA text uses.
  Both `calculate_gc_content` and `transcribe_dna_to_rna` upper-case their
  input before looking at it.
 */
module Ascii {

  predicate IsLower(c: char) {
    'a' <= c <= 'z'
  }

  /** Upper-case form of one character: lower-case ASCII letters move to
      upper case, every other character is left alone. */
  function Upper(c: char): (u: char)
    ensures !IsLower(u)
    ensures u == c <==> !IsLower(c)
    ensures IsLower(c) ==> 'A' <= u <= 'Z' && u as int + 32 == c as int
  {
    if IsLower(c) then (c as int - 32) as char else c
  }

  /** `s.upper()`: the character-wise upper-case form of a string. */
  function UpperAll(s: string): (r: string)
    ensures |r| == |s|
    ensures forall i :: 0 <= i < |s| ==> r[i] == Upper(s[i])
  {
    if |s| == 0 then [] else [Upper(s[0])] + UpperAll(s[1..])
  }

  /** Upper-casing twice is upper-casing once. */
  lemma UpperIdempotent(c: char)
    ensures Upper(Upper(c)) == Upper(c)
  {
  }

  /** Upper-casing distributes over concatenation, as a character-wise map must. */
  lemma {:induction false} UpperAllAppend(a: string, b: string)
    ensures UpperAll(a + b) == UpperAll(a) + UpperAll(b)
  {
    if |a| == 0 {
      assert a + b == b;
    } else {
      assert (a + b)[1..] == a[1..] + b;
      UpperAllAppend(a[1..], b);
    }
  }
}
