# revmut mutation engine in Dafny

revmut looks for revertant mutations. A primary mutation, written in HGVS cDNA
nomenclature (`NM_…:c.4A>T`), breaks a transcript. A candidate revertant mutation is a
second descriptor on the same transcript. It is applied to the mutated sequence after its
coordinates are moved past the primary edit. For each candidate, revmut records the
protein it gives and that protein's Levenshtein distance from the wild-type protein.

This project models the engine behind that computation and proves its properties:

- `EditDistance` — `minimumEditDistance` is a method with the source's rolling-row
  nested loops. It is proved equal to the textbook recursive Levenshtein distance.
  Symmetry, zero exactly for identical strings, and the length bounds are proved about
  that function.
- `Hgvs` — an already-parsed descriptor (transcript, coordinate kind, mutation type,
  1-based start and end, reference and alternative alleles) and the engine's errors.
- `SequenceEditor` — `apply_hgvs` for substitution, deletion, insertion, duplication and
  deletion-insertion, as a function returning a `Result`.
  - Deletion and duplication search for their window exactly, then one base 3′, then one
    base 5′ (`DriftedWindow`).
  - An insertion point is normalised as a Python slice bound.
  - The stderr warning of a shifted duplication is a returned flag.
- `CoordinateRemapper` — `alter_coords_hgvs_sequential` and the length change it
  assumes for each mutation type.
- `Composition` — a design-level theorem. Two non-overlapping descriptors that apply at
  their stated positions give the same sequence in either order, each remapped past the
  other. The remapper's shift is exactly the length change the editor makes.
- `TranscriptFilter` — the driver's filter that ignores a version suffix on a
  candidate's transcript id. `split`/`join` on dots are modelled and the filter is
  characterised in plain terms.
- `Revertant` — `RevertantMutationsInfo` as a class.
  - The transcript, primary mutation, proteins and mutant distance are `const` fields.
  - The four parallel lists are `seq` fields that `AddRevmut` extends in place.
  - The object invariant ties every list entry to the candidate it came from.
  - `AnalyzeMutation` is the per-mutation loop of the driver, without the report writing.
  - `Create`, `AddRevmut`, `AddRevmuts` and `AnalyzeMutation` also return whether the
    off-by-one warning of a duplication was written. That includes the primary
    mutation, which is applied again on every `add_revmut` call.

Protein translation (Biopython's `translate(to_stop=True)`) is a function value
`translate: string -> string` supplied when the accumulator is built. Everything about
proteins holds for whatever translation is supplied.

## Model

| member | source | states |
|---|---|---|
| EditDistance.MinimumEditDistance | revmut/verify.py:15-31 | the rolling-row computation, with the swap that makes `s1` the shorter string, returns exactly the Levenshtein distance of the two inputs |
| EditDistance.NextRow | revmut/verify.py:21-30 | one outer pass turns the row of distances from every prefix of the shorter string to `b[..j]` into the row for `b[..j + 1]` |
| EditDistance.TableCell | revmut/verify.py:23-28 | each new cell is the diagonal on a match, else one more than the least of diagonal, above and left, as the source reads them |
| EditDistance.MatchingLastCharacters | revmut/verify.py:23-24 | when the last characters agree, the distance equals that of the two prefixes, with no extra edit |
| EditDistance.Symmetric | revmut/verify.py:18-19 | the distance does not depend on argument order, so the swap does not change the result |
| EditDistance.ZeroIffIdentical | revmut/verify.py:15-31 | the distance is 0 if and only if the strings are equal |
| EditDistance.Bounds | revmut/verify.py:15-31 | the distance is at most the longer length and at least the difference of the lengths |
| SequenceEditor.ApplyHgvs | revmut/verify.py:142-185 | a non-`c` kind is refused and an unknown type is rejected; a known type fails only with a sequence mismatch; an insertion always succeeds; each type changes the length exactly as its assertion says; only a duplication warns |
| SequenceEditor.DriftedWindow | revmut/verify.py:151-158 | a window is found if and only if the stated, 3′ or 5′ window reads the reference; the found window reads it, keeps its width, is earlier in that order than any other readable one, and is flagged when shifted |
| SequenceEditor.SliceBound | revmut/verify.py:162 | the insertion index lies inside the sequence and equals the requested bound when that is inside |
| SequenceEditor.SubstitutionSpec | revmut/verify.py:147-149 | succeeds if and only if the base at 1-based `cdnaStart` is the reference; then only that base changes, to the single-base `alt`, and the length is kept |
| SequenceEditor.SubstitutionInverse | revmut/verify.py:147-149 | applying the substitution with the alleles swapped restores the original sequence |
| SequenceEditor.DeletionSpec | revmut/verify.py:150-160 | succeeds if and only if the exact, 3′ or 5′ window reads the reference; removes the first such window and keeps everything around it; never warns |
| SequenceEditor.InsertionSpec | revmut/verify.py:161-163 | for a point inside the sequence, `alt` starts at 0-based index `cdnaStart`, with the prefix and suffix kept and no reference read |
| SequenceEditor.InsertionOutsideSequence | revmut/verify.py:161-163 | past the end `alt` is appended; a negative point counts from the end; before the start `alt` is prepended |
| SequenceEditor.DuplicationSpec | revmut/verify.py:164-176 | uses the deletion's window search, replaces the window by `alt`, and warns if and only if the window used is not the stated one |
| SequenceEditor.DelInsSpec | revmut/verify.py:177-180 | succeeds if and only if the stated window reads the reference, then replaces exactly that window by `alt` |
| CoordinateRemapper.Shift | revmut/verify.py:103-105 | the copy differs from `h2` only in its two coordinates, each moved by the same amount |
| CoordinateRemapper.AlterCoordsSequential | revmut/verify.py:94-139 | succeeds if and only if both kinds are `c`, `h1`'s type is known, and `h1` is a substitution or the spans do not overlap; each refusal has its own error; the result is `h2` or `h2` shifted, with its span width kept |
| CoordinateRemapper.UpstreamUnchanged | revmut/verify.py:99-101 | a descriptor wholly upstream of the applied one is returned unchanged |
| CoordinateRemapper.DownstreamShifted | revmut/verify.py:102-132 | a descriptor wholly downstream of an applied descriptor of known type is accepted and both of its coordinates move by the same amount, the applied descriptor's length change (which Composition.ExactWindow equates with what the editor does), and nothing else about it changes |
| Composition.ApplySequentially | revmut/verify.py:67-69 | a remapper failure is reported first, then a failure of the primary edit; success needs both to succeed; the pair warns whenever the primary edit warns, and only when one of the two is a duplication |
| Composition.SequentialWarnings | revmut/verify.py:67-69 | once the remap and the primary edit succeed, the pair succeeds exactly when the moved candidate applies to the mutant sequence, gives that edit's sequence or error, and warns exactly when either edit warns |
| Composition.ShiftedPrimaryWarning | revmut/verify.py:164-176 | on `AGC`, `c.2dupC` is found one base 3′ and warns; `c.1A>T` then applies without a warning of its own, and the pair still warns |
| Composition.ExactWindow | revmut/verify.py:142-180 | the window of a descriptor that applies exactly lies inside the sequence, and the remapper's shift is its text length minus its window width |
| Composition.ExactApplication | revmut/verify.py:142-180 | a descriptor that applies exactly replaces exactly its stated window by its text, with no warning |
| Composition.OrderedRemaps | revmut/verify.py:99-132 | after an upstream edit a downstream descriptor is shifted by the edit's length change; after a downstream edit an upstream one is kept |
| Composition.OrderedPairCommutes | revmut/verify.py:94-185 | with `first` wholly upstream of `second`, remapping and applying in either order succeeds and gives the same sequence, with the length changed by both shifts and no warning |
| Composition.SequentialApplicationCommutes | revmut/verify.py:94-185 | for any two non-overlapping, well-formed descriptors that apply exactly, primary-then-candidate and candidate-then-primary give the same sequence, as long as `s` plus both shifts, with no warning |
| TranscriptFilter.JoinSplit | revmut/verify.py:243 | joining with dots what was split at dots gives back the id |
| TranscriptFilter.WithoutVersionIsBeforeLastDot | revmut/verify.py:243 | dropping the last dot-separated field and rejoining is taking everything before the last dot, or the empty string when there is no dot |
| TranscriptFilter.TranscriptMatchesSpec | revmut/verify.py:241-243 | a candidate id matches if and only if it is the primary id, or the primary id then a dot then a field without dots, or it has no dot and the primary id is empty |
| TranscriptFilter.CandidatesFor | revmut/verify.py:241-243 | the filtered list holds exactly the candidates whose transcript matches, and is no longer than the input |
| TranscriptFilter.CandidatesForSingle | revmut/verify.py:241-243 | a one-candidate list is kept when its transcript matches, and emptied otherwise |
| TranscriptFilter.CandidatesForSnoc | revmut/verify.py:241-243 | appending a candidate to the input appends it to the result exactly when its transcript matches |
| TranscriptFilter.CandidatesForAppend | revmut/verify.py:241-243 | filtering a concatenation is the concatenation of the filtered parts, so the filter keeps the input order and every repeated candidate |
| Revertant.RevertantMutationsInfo.constructor | revmut/verify.py:35-44 | the wild-type and mutant proteins and their distance are computed from the transcript and primary mutation, and the four lists start empty |
| Revertant.RevertantMutationsInfo.Create | revmut/verify.py:35-44 | construction succeeds if and only if the primary mutation applies, and otherwise fails with its error; it warns exactly when the primary mutation applies with the off-by-one warning |
| Revertant.RevertantMutationsInfo.RecordCandidate | revmut/verify.py:65-66 | appending a candidate to even lists keeps every entry tied to its candidate |
| Revertant.RevertantMutationsInfo.RecordRemap | revmut/verify.py:67-68 | appending the remapped last candidate keeps the lists tied to their candidates |
| Revertant.RevertantMutationsInfo.RecordProtein | revmut/verify.py:69-70 | appending the protein of the last candidate and its distance from wild type makes the lists even again |
| Revertant.RevertantMutationsInfo.AddRevmut | revmut/verify.py:64-70 | fails with a parity violation on uneven lists; otherwise appends the candidate, then its remap when that succeeds, then its protein and that protein's distance from wild type when it applies; passes if and only if every list grew by one and the lists are even again; warns exactly when the remap succeeds and either the re-applied primary mutation warns or the candidate applies and the pair warns; the invariant is kept |
| Revertant.RevertantMutationsInfo.AddRevmuts | revmut/verify.py:245-246 | adding candidates in order passes if and only if every candidate remaps and applies; the lists then hold exactly those candidates, and it warns exactly when one of them warns; on a failure the lists hold the candidates up to the first failing one, and it warns exactly when an earlier candidate warned, or the failing one remapped and the primary mutation warns |
| Revertant.RevertantMutationsInfo.AddCandidate | revmut/verify.py:245-246 | one turn of the loop: after the candidates before it, the next candidate is appended, passes exactly when it applies, and carries the warning and success facts of the prefix one candidate further |
| Revertant.AllApply | revmut/verify.py:245-246 | true exactly when every candidate of the list remaps and applies after the primary mutation |
| Revertant.AnyWarns | revmut/verify.py:245-246 | true exactly when some candidate of the list applies after the primary mutation with the warning raised |
| Revertant.RevertantMutationsInfo.Len | revmut/verify.py:90-91 | the length is the number of candidates added, which equals the other list lengths unless a candidate failed, when it is one more than the number of proteins |
| Revertant.AnalyzeMutation | revmut/verify.py:234-246 | an unknown transcript fails with no warning; otherwise the run succeeds if and only if the primary mutation and every matching candidate apply, and the accumulator then holds exactly the matching candidates in input order; a primary warning is always reported, every reported warning comes from the primary or a matching candidate, and on success exactly those warnings are reported |
| Revertant.WorkedExample | revmut/verify.py:64-70 | on `ATGAAATAG`, `c.4A>T` then `c.5A>G` gives `ATGTAATAG` then `ATGTGATAG`, the remap keeps `c.5A>G`, and `MK` is at distance 1 from `M` |

## Left out

- I/O: `main`/argparse, the file handling and report writing of
  `print_revertant_mutations_info`, and `parse_hgvs_muts_file` are not modelled.
  Descriptors arrive already parsed, and HGVS name parsing and regeneration (pyhgvs) is
  not part of this model.
- `to_tsv` and `get_revmuts_p_as_fasta` are report formatting and are not modelled.
  `to_tsv` writes one row per entry of `revmuts` and asserts that its lists are even,
  as `Committed` states.
- `is_revertant` is deprecated and mostly logging, and is not modelled.
- The oncotator source of candidates is an external annotation service and is not
  modelled. Only the `hgvs` file format's filter is modelled.
- FASTA loading is a map from transcript id to record. Protein translation is a supplied
  function. No property of real codon translation is stated.
- The stderr warning of a shifted duplication is the `offByOneWarning` flag of
  `ApplyHgvs`. `ApplySequentially` raises it when either of its two edits does. `Create`,
  `AddRevmut`, `AddRevmuts` and `AnalyzeMutation` return it as `warned`, a single flag
  that says whether at least one warning was written; how many were written, and their
  text, are not modelled. The diagnostic context slice in the mismatch message is not
  modelled either.
- SequenceEditor.ApplyHgvs: a window that does not lie inside the sequence never
  matches. Python would clamp an over-long slice, or read a negative start such as the
  5′ window of a deletion at position 1 from the end of the sequence. The same applies
  to a substitution at position 0, which Python compares with the last base. Insertion
  points alone are normalised as Python slice bounds.
- SequenceEditor.ApplyHgvs: failed `assert`s, a failed index and raised exceptions are
  all error values of a `Result`. One exception anywhere ends the whole run, so
  `AnalyzeMutation` returns the first error and stops.
- A remapper failure, and a failure to apply the primary mutation inside `add_revmut`,
  are errors as well. In the class, the primary mutation is known to apply.
- Revertant.RevertantMutationsInfo.AddRevmut: neither the wild-type protein, the mutant
  protein, the mutant distance, the record nor the primary mutation can change, because
  they are `const` fields. No ensures clause states it.
- EditDistance.Levenshtein: the triangle inequality is not proved. The definition
  recurses on the last characters of both strings, which gives no direct way to chain two
  edit scripts into one; the proof would need a separate model of edit scripts and their
  costs, and no code of the source relies on it.
- Composition.SequentialApplicationCommutes covers only descriptors that apply at their
  stated positions. A deletion or duplication found one base away is edited at a
  place the remapper's coordinates do not describe, and is not covered.
- Intronic offsets and `*` (after the stop codon) landmarks are not represented: a
  `Mutation` holds only the bare `.coord` of each position. The source reads only
  `.coord` too (revmut/verify.py:100-132, 145-146), so it edits a `c.` descriptor with
  such an offset or landmark at its bare coordinate, and ignores the offset. The model
  cannot express such a descriptor. Only coordinate systems other than `c` are refused,
  in both the source and the model (revmut/verify.py:96, 138-139, 144, 184-185).

## Quirks of the source the model keeps

- `alter_coords_hgvs_sequential` refuses overlapping spans after a deletion, insertion,
  duplication or deletion-insertion (revmut/verify.py:99-134). After a substitution it
  departs from that rule: it returns `h2` unchanged with no overlap check, wherever `h2`
  lies (revmut/verify.py:97-98). The model follows the code.
- `add_revmut` asserts that its lists are even (revmut/verify.py:65), then appends the
  candidate to `revmuts` before the steps that can fail. A failure leaves `revmuts`,
  and possibly `revmuts_pos_adj`, one entry longer than the other lists. So after one
  failed candidate the parity assertion fails on every later call, rather than keeping
  the lists aligned. The model keeps this order.
