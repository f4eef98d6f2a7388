# EDGE-Project sequence utilities in Dafny

A model of the three sequence utilities in `main.py` of EDGE-Project, with
proofs about them:

- `calculate_gc_content`: the share of bases that are G or C once the
  sequence is upper-cased, as a percentage (module `Gc`).
- `transcribe_dna_to_rna`: upper-case the sequence, then replace every `T`
  by `U` (module `Transcription`, built on the ASCII case map in `Ascii`).
- `find_orfs`: for each reading frame 0, 1 and 2, run the lazy pattern
  `ATG.*?(TAA|TAG|TGA)` with `re.finditer` over the suffix that starts at the
  frame. Shift each match back to the whole sequence, slice out its bases,
  and keep it if it is at least `min_length` long (modules `LazyScan` and
  `Orfs`).
- The demo driver's input, worked through `find_orfs` (module `Demo`).

The model of the search has two halves:

- **Executable half.** `LazyScan.FindStop`, `LazyScan.MatchAt` and
  `LazyScan.Scan` follow what the regex engine does for this one pattern:
  - Try the pattern at position `i`.
  - On a match, report it and resume at its end.
  - Otherwise move on to `i + 1`.
  - The lazy `.*?` takes the first stop codon that begins three or more
    characters after the `A` of `ATG`, with no newline before it (`.` does
    not match a newline).
- **Declarative half.** `LazyScan.IsLazyMatch` says when `s[a..e]` is a lazy
  match anchored at `a`. `LazyScan.Leftmost` says what `finditer` returns:
  - every match from `i` on, in order and without overlap;
  - leaving out only matches that start inside an earlier one.

The lemmas prove that the two halves agree in both directions: the scan is
leftmost, and a leftmost sequence is the scan.

`find_orfs` does not upper-case its input, and the model matches only the
upper-case codons. The model follows that.

The stop codons sit in a Python set, so the order of the alternation in the
pattern is not fixed. It makes no difference to the result, because the
three alternatives all have length three and at most one of them matches at
a given position.

## Model

| member | source | states |
|---|---|---|
| Ascii.Upper | main.py:10 | `str.upper` on one character: lower-case ASCII letters become their upper-case letter, every other character is unchanged, and no lower-case letter remains |
| Ascii.UpperAll | main.py:20 | `upper()` on a string keeps its length and upper-cases each character in place |
| Ascii.UpperIdempotent | main.py:20 | upper-casing twice is the same as upper-casing once |
| Ascii.UpperAllAppend | main.py:20 | upper-casing distributes over concatenation |
| Gc.CountGc | main.py:10 | the count of G/C characters is at most the length, is 0 exactly when there is no G or C, and equals the length exactly when every character is G or C |
| Gc.GcCount | main.py:10 | `gc_count` counts after upper-casing: at most the length, 0 exactly when no base is g/G/c/C, and equal to the length exactly when every base is |
| Gc.CountGcIsCardinality | main.py:10 | the count equals the size of the set of positions holding G or C |
| Gc.GcCountIsPositions | main.py:10 | `gc_count` is the number of positions whose upper-case base is G or C |
| Gc.GcCountAppend | main.py:10 | `gc_count` of a concatenation is the sum of the parts' counts |
| Gc.UpperPreservesGcCount | main.py:10 | a sequence and its upper-case form have the same `gc_count` |
| Gc.GcContent | main.py:10-11 | the GC percentage is defined only for a non-empty sequence, and lies between 0 and 100 |
| Gc.PercentFacts | main.py:11 | `(n / len) * 100` with `n <= len` lies in [0, 100], times `len` gives `100 * n`, and is 100 or 0 exactly when `n` is `len` or 0 |
| Gc.GcContentRatio | main.py:11 | the percentage is `gc_count / len * 100`: it times the length is 100 times `gc_count` |
| Gc.PercentRatio | main.py:11 | `(n / len) * 100` is the share `pct` with `pct * len == 100 * n` |
| Gc.GcContentFull | main.py:10-11 | the percentage is exactly 100 if and only if every base is G or C in either case |
| Gc.GcContentZero | main.py:10-11 | the percentage is exactly 0 if and only if no base is G or C in either case |
| Transcription.ReplaceChar | main.py:20 | `replace` of one character by another keeps the length, changes exactly the occurrences, and leaves no occurrence when the two differ |
| Transcription.Transcribe | main.py:20 | the RNA has the DNA's length and contains no `T` or `t`; each position holds the upper-case DNA base, with `T` turned into `U` |
| Transcription.TranscribeBases | main.py:20 | a sequence over A, C, G, T in either case becomes one over A, C, G, U, and a position holds `U` if and only if the DNA has `T` or `t` there |
| Transcription.TranscribeBase | main.py:20 | one DNA base becomes one RNA base, and it is `U` exactly for `T` or `t` |
| Transcription.TranscribeIdempotent | main.py:20 | transcribing an RNA sequence again leaves it unchanged |
| Transcription.TranscribeAppend | main.py:20 | transcription distributes over concatenation |
| Transcription.ReplaceCharAppend | main.py:20 | `replace` distributes over concatenation |
| Transcription.TranscribePreservesGcCount | main.py:10-20 | DNA and its transcript have the same `gc_count` |
| Transcription.SameGcPattern | main.py:10 | two strings with G/C at the same positions have the same count |
| LazyScan.CodonTests | main.py:30-31 | the character tests for the start and stop codons hold at `p` exactly when `s[p..p+3]` is the constant `"ATG"`, or is in the set `{"TAA", "TAG", "TGA"}` |
| LazyScan.FindStopSound | main.py:37 | the lazy gap ends at the first stop codon with no stop codon or newline before it; when there is no such stop, every later stop codon lies behind a newline |
| LazyScan.MatchAtSound | main.py:37 | trying the pattern at `a` finds a lazy match when one exists, and reports none only when there is none |
| LazyScan.MatchAtIff | main.py:37 | trying the pattern at `a` ends at `e` if and only if `s[a..e]` is the lazy match anchored at `a` |
| LazyScan.LazyMatchUnique | main.py:37 | a lazy match anchored at a given start has one end |
| LazyScan.Scan | main.py:37 | each match found by `finditer` from `i` starts at or after `i`, is a lazy match (ATG, at least six bases, ends with a stop codon, no stop codon or newline strictly inside), and the matches are ordered without overlap |
| LazyScan.ScanSkip | main.py:37 | when no match starts in `[i, a)`, scanning from `i` is scanning from `a` |
| LazyScan.ScanCovers | main.py:37 | every lazy match at or after `i` starts at a reported match or inside one |
| LazyScan.ScanIsLeftmost | main.py:37 | the scan is all matches from `i`, in order, without overlap, missing only matches that start inside a reported one |
| LazyScan.LeftmostIsScan | main.py:37 | any sequence of spans with those properties is exactly the scan, so the description determines the result |
| LazyScan.LeftmostHead | main.py:37 | the first span of such a sequence is the scan's first match, and the scan resumes at its end |
| LazyScan.NothingBeforeFirst | main.py:37 | in a leftmost sequence no lazy match starts before the first span |
| LazyScan.LeftmostTail | main.py:37 | the rest of a leftmost sequence is leftmost from the end of its first span |
| LazyScan.OrderedTail | main.py:37 | the rest of an ordered sequence of spans is ordered |
| LazyScan.CoveredTail | main.py:37 | a position past the first span that some span covers is covered by the rest |
| LazyScan.FirstMatchFound | main.py:37 | the first match reported from `i` is the first lazy match at or after `i` |
| LazyScan.ScanPastNonStart | main.py:37 | a position without `ATG` is skipped |
| LazyScan.ScanEmptyIff | main.py:37 | `finditer` from `i` finds nothing if and only if no lazy match starts at or after `i` |
| LazyScan.ScanEndsAtOpenStart | main.py:37 | in a sequence without newlines, an `ATG` that no stop codon closes ends the search: no match starts at or after it |
| LazyScan.ScanSuffix | main.py:36-39 | running `finditer` over `dna_sequence[frame:]` and adding `frame` to each position is scanning the whole sequence from `frame` |
| LazyScan.ShiftOrdered | main.py:38-39 | adding the frame offset to ordered spans keeps them ordered |
| LazyScan.ShiftedMatch | main.py:36-39 | a match found in the suffix, shifted by the frame, is a lazy match in the whole sequence at or after the frame |
| LazyScan.ShiftedMatchAt | main.py:36-39 | a lazy match in the suffix is, shifted by the frame, a lazy match in the whole sequence |
| LazyScan.ShiftedCover | main.py:36-39 | a lazy match in the whole sequence at or after the frame is covered by a shifted match from the suffix |
| LazyScan.Shift | main.py:38-39 | shifting keeps the number of spans and adds the frame to both ends of each |
| LazyScan.LazyMatchPrefix | main.py:37 | a lazy match stays a lazy match when the text is cut just after it |
| LazyScan.LazyMatchShift | main.py:36-39 | a lazy match in `s[f..]` at `a..e` is exactly a lazy match in `s` at `a+f..e+f` |
| Orfs.FrameSuffix | main.py:36 | `dna_sequence[frame:]` has `len - frame` characters (none when the frame is past the end), and its `k`-th character is the sequence's `frame + k`-th |
| Orfs.Slice | main.py:40 | Python slicing: never longer than the sequence, and the ordinary slice when the bounds are in range |
| Orfs.ToOrf | main.py:38-40 | the ORF's positions are the match's positions plus the frame, and re-slicing the whole sequence at them gives back exactly the text the match covered in `dna_sequence[frame:]` |
| Orfs.Collect | main.py:37-42 | a frame reports at most one ORF per match |
| Orfs.FindOrfsSound | main.py:22-44 | every reported ORF is a lazy match whose bases are the slice `dna_sequence[start:end]`, at least `min_length` long, beginning with ATG and ending with a stop codon; the result is empty when `min_length` exceeds the length or when there is no ATG |
| Orfs.FindOrfsDefaultSound | main.py:22 | called without `min_length`, the threshold is 100: every ORF is valid and at least 100 bases long, the result is the unfiltered one with shorter ORFs removed, and a sequence shorter than 100 has none |
| Orfs.FindOrfsValid | main.py:35-42 | every reported ORF is a lazy match in the sequence with its own bases and at least `min_length` long |
| Orfs.ValidOrfText | main.py:30-40 | the bases of a valid ORF are at least six long, begin with `"ATG"`, end with one of the stop codons, and hold no stop codon or newline strictly inside |
| Orfs.FrameOrfsDirect | main.py:35-42 | one frame's ORFs come from scanning the whole sequence from the frame; they are valid, start no earlier than the frame, and do not overlap |
| Orfs.CollectShift | main.py:38-39 | shifting each match while collecting is the same as shifting the matches first |
| Orfs.CollectMatches | main.py:37-42 | ordered lazy matches give valid, non-overlapping ORFs |
| Orfs.CollectValid | main.py:37-42 | lazy matches at or after a bound give valid ORFs at or after that bound |
| Orfs.CollectDisjoint | main.py:37-42 | ordered lazy matches give ORFs that do not overlap |
| Orfs.MatchRunTail | main.py:37 | the remaining matches keep their bound |
| Orfs.MatchesTail | main.py:37 | the matches after the first all start at or after its end and stay ordered |
| Orfs.ValidRunAppend | main.py:42 | appending two runs of valid ORFs gives a run of valid ORFs |
| Orfs.DisjointCons | main.py:42 | an ORF that ends before every later ORF keeps a non-overlapping list non-overlapping |
| Orfs.FrameOrder | main.py:35-42 | the result is a block of frame-0 ORFs, then a block of frame-1 ORFs, then a block of frame-2 ORFs; each block is ordered, has no overlaps, and starts at or after its frame |
| Orfs.FrameIsBlock | main.py:35-42 | one frame's ORFs are ordered, do not overlap, and start at or after the frame |
| Orfs.AllOrfs | main.py:38-40 | every match becomes the ORF with its positions and bases, one for one |
| Orfs.SmallThresholdKeepsAll | main.py:41-42 | with `min_length` at most 6 nothing is filtered: the result is every match of every frame, in frame order |
| Orfs.KeepAllMatches | main.py:41-42 | lazy matches are all at least six bases long, so a threshold of at most 6 keeps each of them |
| Orfs.ThresholdFilters | main.py:41-42 | the result for `min_length` is the unfiltered result passed through the length filter `LongEnough` (what that filter keeps is stated by `LongEnoughCounts` and `LongEnoughAppend`) |
| Orfs.LongEnoughCounts | main.py:41-42 | filtering by length keeps every copy of each ORF that is long enough and drops every copy of each one that is not, so duplicates across frames survive |
| Orfs.LongEnoughCount | main.py:41-42 | the same count, for one ORF |
| Orfs.LongEnoughMembers | main.py:41-42 | everything the filter keeps is long enough and comes from the input, and every long-enough input ORF is kept |
| Orfs.LongEnoughAppend | main.py:41-42 | filtering by length distributes over concatenation, so it keeps the order of what it keeps |
| Orfs.CollectFilter | main.py:41-42 | collecting with a threshold is collecting everything and then filtering by length |
| Orfs.NoStartNoOrfs | main.py:37 | without an ATG, no frame finds a match and no ORF is reported |
| Demo.ScanOverNoStart | main.py:37 | the scan walks over a stretch without ATG |
| Demo.DemoMatchAt0 | main.py:37 | on the demo input, the ATG at 0 is closed by the out-of-frame TAG at 7 |
| Demo.DemoMatchAt17 | main.py:37 | on the demo input, the ATG at 17 is closed by the TGA at 23 |
| Demo.DemoScans | main.py:35-37 | on the demo input, frame 0 finds the matches 0..10 and 17..26, and frames 1 and 2 each find only 17..26 |
| Demo.DemoCollect | main.py:41-42 | on the demo input, both matches are at least 9 long and are kept |
| Demo.DemoFrames | main.py:35-42 | the demo input's ORFs per frame |
| Demo.DemoOrfs | main.py:48-60 | `find_orfs(dna_sequence, min_length=9)` on the demo input returns (0, 10, "ATGCGTATAG") and then (17, 26, "ATGCGCTGA") three times, once per frame |

## Left out

- `main` (main.py:47-66) and all printing, including the `:.2f` formatting of the percentage. Its input is used as the constant `Demo.DemoSequence`.
- Floating point. The GC percentage is an exact rational (`real`) rather than a Python float, so rounding is not modelled.
- The empty sequence in `calculate_gc_content` raises `ZeroDivisionError`. It is modelled as the precondition `|s| > 0` and not as an error value.
- `str.upper` is modelled on ASCII letters only. Unicode case mappings, including the ones that change length, are not modelled.
- The general regular-expression engine. Only the one pattern `ATG.*?(TAA|TAG|TGA)` is modelled, as an explicit scan. `.` is taken to match every character except `'\n'`, as in Python's default flags.
- `LazyScan.FindStop`, `LazyScan.MatchAt` and `Orfs.FindOrfs` carry no `ensures` of their own, and `Orfs.LongEnough` carries only a length bound. Their properties are stated in `LazyScan.FindStopSound`, `LazyScan.MatchAtSound`, `Orfs.FindOrfsSound` and `Orfs.LongEnoughCounts` and the lemmas after them. This keeps both the evaluation of concrete inputs and the proofs that use these functions cheap.
- `min_length` is an unbounded integer. A non-integer `min_length`, or another type of argument, is not modelled.
- The GC content and the transcription of the demo input (main.py:52, main.py:56) are not stated as lemmas. Only the ORF search on that input is.
