# Viral-junction segment extractor (terminal_mapping `parser.py`)

A Dafny model of the per-read core of `parser.py`. The script scans sequencing
reads. In each read it looks for the S2 adapter anchor, the last viral-motif
match before the anchor, and the first poly-A run after that motif. It then
writes the segment between the motif and the poly-A run as a numbered
FASTA-like record.

Modules, leaves first:

- `Wrappers` (`wrappers.dfy`): `Option`, the `None` that the matcher returns.
- `Nucleotides` (`nucleotides.dfy`): `reverse_complement` as the pure function
  `ReverseComplement`. It maps A<->T and C<->G, and every other symbol to `N`.
- `Matching` (`matching.dfy`): the `seeq` matcher, captured by its contract
  only. `Pattern` holds the compiled pattern and its mismatch budget. The four
  patterns of the source are the constants `HivMotif`, `SivMotif`, `Adapter`
  and `PolyA`. A `Matcher` has three fields:
  - `occurs`, the relation "this span is an approximate occurrence";
  - `first`, which is `match`;
  - `all`, which is `matchAll`.

  `Matcher.Valid` states the contract. Every occurrence is a non-empty span
  inside the text. `first` is the leftmost occurrence, or `None` when there is
  none. `all` lists every occurrence in ascending order of start, or is `None`
  when there is none. Because the matchers are functions, the same pattern on
  the same text always gives the same answer.
- `Extractor` (`extractor.dfy`): the segmentation rule of `process` as pure
  functions.
  - `Junction` is the decision for one anchor's prefix.
  - `Own` is the segment that decision emits, if any.
  - `Segments` is every segment one call of `process` emits, in emission
    order: the suffix's segments first, then the prefix's own segment.
  - `Cuts` gives the same segments as offsets into the read.
- `Emitter` (`emitter.dfy`): the imperative side.
  - The class `Output` holds the counter `LINENO` (`lineno`) and the output
    stream (`out: seq<Record>`).
  - `Output.Process` is the recursive `process`. It is proved to append
    exactly `Number(Segments(text), old(lineno))` and to advance `lineno` by
    the number of those records.
  - `Output.ProcessRead` and `Output.ProcessReads` model the one effect of the
    read loop in `main`: each read is processed, then its reverse complement.
  - `Run` starts from a fresh counter. Its records are numbered 1, 2, 3, …

The four compiled patterns (parser.py:27-30) have 33, 35, 40 and 20 symbols,
with mismatch budgets 5, 5, 6 and 3 (`Matching.CompiledPatterns`).

## Model

| member | source | states |
|---|---|---|
| Nucleotides.ReverseComplement | parser.py:37-43 | the result has the input's length, also for the empty read; position `i` is the complement of input position `len-1-i`; every output symbol is A, C, G, T or N |
| Nucleotides.Complement | parser.py:41-43 | a base maps to a different base, and any other symbol maps to N |
| Nucleotides.ComplementTwice | parser.py:42-43 | complementing twice gives back A, C, G or T, and gives N for any other symbol |
| Nucleotides.ReverseComplementTwice | parser.py:37-43 | applying the transform twice keeps every base in place and puts N wherever the read had any other symbol |
| Nucleotides.ReverseComplementInvolution | parser.py:37-43 | on reads over A, C, G and T the transform is an involution |
| Matching.CompiledPatterns | parser.py:27-30 | the HIV, SIV, S2-adapter and poly-A patterns have 33, 35, 40 and 20 symbols with budgets 5, 5, 6 and 3; the poly-A pattern is all A |
| Matching.ViralPattern | parser.py:111 | `--virus HIV` selects the HIV matcher and `SIV` the SIV matcher, both with budget 5 |
| Matching.Matcher.LastIsMostDownstream | parser.py:71-72 | the last span of `matchAll` is a viral occurrence, and no other occurrence starts after it |
| Extractor.Junction | parser.py:66-81 | an emitted span `[virPos, aPos)` satisfies `0 < virPos < aPos < len(prefix)` |
| Extractor.Own | parser.py:69-81 | a prefix yields at most one segment, exactly when it has a junction, and that segment is non-empty and shorter than the prefix |
| Extractor.Segments | parser.py:46-81 | one call of `process` emits at most `len(text)` segments, each non-empty and shorter than the text |
| Extractor.Cuts | parser.py:60-81 | gives one read position per emitted segment |
| Extractor.Anchors | parser.py:60-68 | greedy first-match splitting finds at most `len(text)` anchors |
| Extractor.NoAnchorNoSegments | parser.py:60-61 | with no anchor match, `process` emits nothing |
| Extractor.SegmentsStep | parser.py:60-68 | with an anchor, the anchor span lies inside the text and the suffix is strictly shorter, so the recursion ends; the suffix's records come first, then at most one record of the prefix's own |
| Extractor.OwnDecision | parser.py:69-81 | no viral match, no poly-A run after `vir_pos`, or `a_pos == vir_pos` each give no record of the prefix's own; otherwise the record is exactly `prefix[vir_pos:a_pos]`, where `vir_pos` is the end of the last viral match and `a_pos` is `vir_pos` plus the start of the first poly-A match in `prefix[vir_pos:]`, and `vir_pos < a_pos < len(prefix)` |
| Extractor.JunctionSound | parser.py:66-77 | an emitted segment starts at the end of a viral occurrence that no other occurrence in the prefix starts after, and ends at the start of the leftmost poly-A occurrence after it, which is not at offset 0 |
| Extractor.NoViralNoJunction | parser.py:66-70 | with no viral occurrence in the prefix, that anchor emits nothing |
| Extractor.SegmentsBounded | parser.py:60-81 | a read yields at most one record per anchor found by greedy first-match splitting, and at most `len(text)` anchors |
| Extractor.CutsLocateSegments | parser.py:64-80 | every emitted segment is exactly the slice of the read at its positions in `Cuts` |
| Extractor.CutsDescend | parser.py:64-81 | records come out in reverse read order: each emitted segment lies strictly downstream of every segment emitted after it, so no two overlap |
| Emitter.NumberAt | parser.py:80-81 | record `k` of a batch numbered from `n` has header `n + k` and the `k`-th segment |
| Emitter.NumberAppend | parser.py:80-81 | numbering two batches one after the other is the same as numbering their concatenation |
| Emitter.NumberKeepsConsecutive | parser.py:34-81 | appending a batch numbered from the counter keeps headers `1, 2, …` with the counter one past the last |
| Emitter.ReadSegments | parser.py:133-134 | a read and its reverse complement together yield at most `2 * len(read)` segments, each non-empty and shorter than the read |
| Emitter.RunSegments | parser.py:126-134 | every segment a run emits is non-empty |
| Emitter.Output.constructor | parser.py:34 | the counter starts at 1 with no output |
| Emitter.Output.Emit | parser.py:80-81 | writes one record headed by the current counter, then advances the counter by exactly 1 |
| Emitter.Output.Process | parser.py:46-81 | appends exactly the records of `Segments(text)` numbered from the old counter, and advances the counter by their number; keeps headers consecutive from 1 |
| Emitter.Output.ProcessRead | parser.py:133-134 | the read's records, then its reverse complement's records, share one counter |
| Emitter.Output.ProcessReads | parser.py:126-134 | the records of all reads, in order, numbered consecutively from the counter |
| Emitter.Run | parser.py:111-134 | from a fresh counter and the chosen viral motif, a run's records are those of `RunSegments` with headers 1, 2, 3, … in output order |

## Left out

- The internals of `seeq` (parser.py:22, 27-30) are a foreign library. The model keeps only its contract, `Matcher.Valid`. "First" is read as the occurrence with the leftmost start. Nothing ties `occurs` to a particular mismatch count. Because `first` and `all` share the one `occurs` relation, the contract also forces `match` to return a leftmost-starting entry of `matchAll` for the same pattern and text; the library does not promise this, but no pattern is queried both ways here.
- `main`'s I/O (parser.py:84-134) is left out: argument parsing, glob expansion, gzip reading, ASCII decoding, `rstrip` and the 4-line FASTQ framing. What remains is its effect on the core. The `--virus` choice becomes `Virus`/`ViralPattern`, and the reads arrive as a sequence of strings.
- `print` output formatting (`>` + number + newline) is left out. Each emission is an appended `Record(id, segment)`.
- Python's global name `LINENO` becomes a field of `Output`. There is no module state shared between separate objects.
- Properties of concrete reads need a concrete approximate matcher, which this model does not include. `NoAnchorNoSegments` and `CutsDescend` state the general forms.
- A barcode-gated variant of the extractor is not part of this model.
