# Allele-frequency comparison across clades, modelled in Dafny

`compare_allele_frequencies.py` reads one allele-frequency file per clade. Each file has one row per locus (chromosome, position), giving the number of genotyped chromosomes and an `allele:frequency` list. The script merges them into one table:

- locus → clade → (fraction of the clade's individuals genotyped, allele → frequency).

It then classifies the table:

- **Fixed alleles:** clades genotyped well enough whose largest frequency reaches `1 - error_tolerance`.
- **Unique fixed loci:** loci whose fixed clades each fix a different allele.
- **Private alleles:** alleles above the tolerance in exactly one clade at a locus. This is computed only at loci where every clade is genotyped and has no NaN frequency.
- **Private sites:** loci where exactly one clade has a genotyped fraction above 0 and at least one clade has fraction 0.
- **Uniquely missing sites:** loci where exactly one clade name has fraction 0 and at least two clades are genotyped.
- **Divergence score:** per locus, the sum over all alleles of the spread (max − min) of the allele's frequency across clades, together with the mean genotyped fraction.
- **Top-N:** the loci with the largest divergence scores.

The model covers these parts:

- **The merge and every classifier.** Each becomes a Dafny method with the source's loops. The method is proved equal to a recursive specification function, and the properties the tool relies on are proved as lemmas about that function.
- **Dicts.** Python dicts are insertion-ordered association lists (`AssocList`). `d[k] = v` overwrites in place or appends, so the tie-breaks that depend on key order behave as in Python.
- **Floats.** A float is an exact real or `NaN` (`PyFloat`):
  - Comparisons with NaN are false, and arithmetic propagates NaN.
  - `max`/`min` are CPython's left-to-right loop: the first element is kept unless a later one is strictly better.
  - `round(x, 6)` rounds to the nearest multiple of 10^-6, ties to even.
- **The top-N selection.** It is a pure function: drop NaN scores, sort with a stable insertion sort, largest first, by the rounded score, then apply Python's slice `[:n]`.

Some of the code's behaviour may surprise a reader. The model follows the code in each case:

- **NaN in the divergence score.** `max` and `min` return NaN only when the *first* value is NaN, because NaN never beats and is never beaten. A locus's score is therefore NaN exactly when its first clade records a NaN frequency. A NaN in a later clade is passed over and does not propagate to the score. This is proved in `Divergence.ScoreNaNIffFirstCladeNaN` and shown concretely in `Divergence.LaterNaNIgnored`.
- **Zero individual count.** A count of zero raises only when a row of that file is processed. A file without data rows passes, and a negative count is accepted.
- **Clade names.** `.replace('.frq', '')` removes every occurrence of `.frq` in the base name, not only a suffix.
- **Negative top-N count.** A negative `n` drops that many entries from the end of the sorted list.

## Model

| member | source | states |
|---|---|---|
| AssocList.Put | compare_allele_frequencies.py:58 | after `d[k] = v`, looking up k gives v and every other key gives what it gave before |
| AssocList.PutKeys | compare_allele_frequencies.py:39 | writing a key keeps every key in its place; a new key is appended last |
| PyFloat.Add | compare_allele_frequencies.py:136 | a sum is NaN exactly when an operand is NaN |
| PyFloat.Sub | compare_allele_frequencies.py:136 | a difference is NaN exactly when an operand is NaN |
| PyFloat.MaxIsFirstMaximum | compare_allele_frequencies.py:57 | without NaN, `max` returns the first occurrence of the largest value |
| PyFloat.MinIsFirstMinimum | compare_allele_frequencies.py:136 | without NaN, `min` returns the first occurrence of the smallest value |
| PyFloat.BestIsNaNIffFirstIsNaN | compare_allele_frequencies.py:136 | `max`/`min` return NaN exactly when the first element is NaN |
| PyFloat.MaxMinBoundFirst | compare_allele_frequencies.py:136 | when the first value is a number, `max` and `min` are numbers, at least and at most that value, even with later NaNs |
| PyFloat.MaxAtLeast | compare_allele_frequencies.py:47 | `max(vals) >= x` implies some value reaches x; without NaN the converse holds |
| PyFloat.Round6 | compare_allele_frequencies.py:145 | `round(x, 6)` is within half a millionth of x |
| PyFloat.Round6Monotone | compare_allele_frequencies.py:145 | rounding never reverses the order of two scores |
| AlleleTable.BaseName | compare_allele_frequencies.py:18 | the base name has no '/', is a suffix of the path, and is the whole path when it has no '/' |
| AlleleTable.RemoveExtensionSuffix | compare_allele_frequencies.py:18 | appending `.frq` to a name leaves the clade name derived from it unchanged |
| AlleleTable.CladeNameOfFrequencyFile | compare_allele_frequencies.py:18 | the clade of `dir/name.frq` is `name` when name holds no '/' and no `.frq` |
| AlleleTable.FreqMap | compare_allele_frequencies.py:32-36 | a row's allele dict has distinct keys and exactly the alleles of its cells |
| AlleleTable.FreqMapOfDistinct | compare_allele_frequencies.py:32-36 | when no allele is named twice, the dict is the cells themselves in column order |
| AlleleTable.FreqMapKeyOrder | compare_allele_frequencies.py:32-36 | the dict's keys are in the order the row first names them, the order the tie-break at line 57 reads |
| AlleleTable.FreqMapLastWins | compare_allele_frequencies.py:36 | for an allele named twice in a row, the last cell's frequency is kept |
| AlleleTable.AddRecord | compare_allele_frequencies.py:39 | the (locus, clade) entry becomes the new record; every other (locus, clade) entry is unchanged (key order: AlleleTable.AddRecordKeys) |
| AlleleTable.AddRecordKeys | compare_allele_frequencies.py:39 | loci keep their first-seen order and a new locus is appended; inside the locus, clades keep their order and a new clade is appended, the order line 135 reads |
| AlleleTable.StoreFile | compare_allele_frequencies.py:18-39 | the per-file loop adds that file's rows as the specification of one file does, or fails on a zero count |
| AlleleTable.ProcessFiles | compare_allele_frequencies.py:14-41 | the nested loops compute the specified aggregation, or the ZeroDivision error |
| AlleleTable.AggregateFailsIff | compare_allele_frequencies.py:38 | the merge fails iff some file with rows has a zero count, and the error names the first such file |
| AlleleTable.AggregateWellFormed | compare_allele_frequencies.py:15-39 | the table's loci, clades per locus and alleles per record are distinct |
| AlleleTable.AggregateCovers | compare_allele_frequencies.py:14-39 | every row leaves an entry under its locus and its file's clade name, and every entry is named by some row |
| AlleleTable.AggregateLastWins | compare_allele_frequencies.py:30-39 | the stored entry is the last row naming that locus and clade, with fraction (N_CHR/2)/n_indv and that row's dict |
| FixedAlleles.IsFixedMeaning | compare_allele_frequencies.py:47 | passing the test means fraction >= miss_tolerance and some allele >= 1 - error_tolerance; without NaN the converse holds |
| FixedAlleles.IdentifyFixedAlleles | compare_allele_frequencies.py:43-49 | the loops compute the fixed map specified by FixedAlleles.Fixed |
| FixedAlleles.FixedAllelesSoundAndComplete | compare_allele_frequencies.py:45-48 | every listed (clade, freqs) is a passing record of that locus; every passing record is listed; no locus has an empty list |
| FixedAlleles.FixedFeedsUnique | compare_allele_frequencies.py:48 | under each fixed locus, clade names are distinct and every dict is non-empty |
| FixedAlleles.FixedAlleleIsFirstMaximal | compare_allele_frequencies.py:57 | without NaN, the fixed allele is the first allele in insertion order with the largest frequency |
| FixedAlleles.FindUniqueFixedAlleles | compare_allele_frequencies.py:51-67 | the loops compute the filter specified by FixedAlleles.UniqueFixed |
| FixedAlleles.UniqueFixedIsSubMap | compare_allele_frequencies.py:60-65 | an entry is in the output iff it is in the fixed map and passes the test; values are unchanged |
| FixedAlleles.PerCladeFixedValues | compare_allele_frequencies.py:55-58 | with distinct clade names, the per-clade dict lists each clade with its fixed allele, in order |
| FixedAlleles.NoRepeatsIffDistinct | compare_allele_frequencies.py:64 | `len(set(vals)) == len(vals)` iff no two values are equal |
| FixedAlleles.KeepLocusMeaning | compare_allele_frequencies.py:60-65 | a locus is kept iff it has one fixed clade or its clades' fixed alleles are pairwise different |
| PrivateAlleles.IdentifyPrivateAlleles | compare_allele_frequencies.py:69-97 | the three nested loops compute the map specified by PrivateAlleles.Private |
| PrivateAlleles.AboveExact | compare_allele_frequencies.py:79 | the clade's filtered dict holds exactly its alleles with freq > error_tolerance |
| PrivateAlleles.OthersAboveExact | compare_allele_frequencies.py:81-86 | the other-clades set holds exactly the alleles above the tolerance in some clade of another name |
| PrivateAlleles.PrivateOfExact | compare_allele_frequencies.py:88-89 | a private entry is a clade allele above the tolerance, outside the other-clades set, with the clade's fraction |
| PrivateAlleles.PrivateAtLocusExact | compare_allele_frequencies.py:78-92 | a clade is listed at a locus iff it has private alleles, and they are its private set |
| PrivateAlleles.PrivateExact | compare_allele_frequencies.py:72-95 | a locus is in the output iff it is not skipped and has a clade with a private allele |
| PrivateAlleles.PrivateLociAreFullyGenotyped | compare_allele_frequencies.py:73-75 | no output locus has a clade with fraction 0 or a NaN frequency |
| PrivateAlleles.PrivateAllelesContent | compare_allele_frequencies.py:78-95 | each reported allele is > error_tolerance in its clade and in no other clade at the locus, with its frequency and its clade's own fraction; nothing is reported empty |
| PrivateAlleles.PrivateAllelesComplete | compare_allele_frequencies.py:78-95 | at a locus that is not skipped, an allele above the tolerance in one clade only is reported for that clade |
| PrivateAlleles.PrivateToOneClade | compare_allele_frequencies.py:81-89 | an allele is reported for at most one clade name per locus |
| PrivateSites.FindPrivateSites | compare_allele_frequencies.py:99-114 | the loop computes both maps specified by PrivateSitesOf and UniquelyMissingOf |
| PrivateSites.GenotypedExact | compare_allele_frequencies.py:104 | the genotyped dict holds exactly the clades with fraction > 0, with their fractions |
| PrivateSites.GenotypedDistinct | compare_allele_frequencies.py:104 | the genotyped dict has distinct clade names |
| PrivateSites.GenotypedNotMissing | compare_allele_frequencies.py:104-105 | no clade is both genotyped and missing |
| PrivateSites.SingleGenotyped | compare_allele_frequencies.py:107-108 | a one-entry genotyped dict holding (c, p) iff c, with fraction p > 0, is the only clade with fraction > 0 |
| PrivateSites.PrivateSitesExact | compare_allele_frequencies.py:107-109 | a locus is a private site iff it has one genotyped clade and a missing one, and the site records that clade |
| PrivateSites.UniquelyMissingExact | compare_allele_frequencies.py:111-112 | a locus is uniquely missing iff it has several genotyped clades and one missing name, mapped to its genotyped dict |
| PrivateSites.PrivateSiteMeaning | compare_allele_frequencies.py:104-109 | (c, p) is recorded iff c is the only clade with fraction > 0, p is its fraction, and some clade has fraction 0 |
| PrivateSites.SingleMissing | compare_allele_frequencies.py:105 | one missing name is a singleton set, disjoint from the genotyped clades |
| PrivateSites.UniquelyMissingMeaning | compare_allele_frequencies.py:104-112 | a uniquely missing site has exactly one clade name at 0, absent from its map, and at least two genotyped clades |
| PrivateSites.SitesDisjoint | compare_allele_frequencies.py:107-112 | no locus is both a private site and a uniquely missing site |
| Divergence.ComputeDivergenceScores | compare_allele_frequencies.py:116-141 | the loops, in any set iteration order, compute the map specified by Divergence.Scores |
| Divergence.ScoreClades | compare_allele_frequencies.py:125-138 | the per-locus loops compute the locus score: the summed spreads over the union of the clades' alleles and the mean fraction |
| Divergence.SumSpreads | compare_allele_frequencies.py:133-136 | the loop over the allele set, in any order, yields the sum of the spreads over that set |
| Divergence.SumRemove | compare_allele_frequencies.py:134-136 | summing the spreads over a set gives the same result whichever allele comes first |
| Divergence.ScoredLoci | compare_allele_frequencies.py:119-123 | a locus gets a score iff it has at least two clades, and that score is its locus score |
| Divergence.SpreadNonNegative | compare_allele_frequencies.py:135-136 | with no NaN in the first clade, an allele's max − min is a number >= 0 |
| Divergence.ScoreNonNegative | compare_allele_frequencies.py:133-136 | with no NaN in the first clade, the divergence score is a number >= 0 |
| Divergence.IdenticalCladesScoreZero | compare_allele_frequencies.py:133-136 | clades whose dicts give every allele the same frequency, in any key order, score exactly 0 when the first has no NaN |
| Divergence.SpreadNaN | compare_allele_frequencies.py:135-136 | an allele's spread is NaN iff the first clade's frequency for it (absent = 0) is NaN |
| Divergence.SumNaN | compare_allele_frequencies.py:136 | the accumulated score is NaN iff some allele's spread is NaN |
| Divergence.ScoreNaNIffFirstCladeNaN | compare_allele_frequencies.py:133-136 | a locus scores NaN iff its first clade records a NaN frequency |
| Divergence.LaterNaNIgnored | compare_allele_frequencies.py:135-136 | two clades with A at 0.5 and A at NaN score 0, not NaN |
| Divergence.AverageBetween | compare_allele_frequencies.py:126-138 | the mean genotyped fraction lies between any lower and upper bound of the clades' fractions |
| TopLoci.NonNaN | compare_allele_frequencies.py:144 | the filter keeps exactly the entries whose score is not NaN |
| TopLoci.NonNaNAppend | compare_allele_frequencies.py:144 | the filter keeps input order: filtering a concatenation concatenates the filtered parts |
| TopLoci.NonNaNKeepsAll | compare_allele_frequencies.py:144 | without NaN scores the filter returns its input unchanged |
| TopLoci.SliceTo | compare_allele_frequencies.py:145 | `xs[:n]` is a prefix of length min(n, len) for n >= 0 and max(0, len + n) for negative n |
| TopLoci.SortDescSortedPermutation | compare_allele_frequencies.py:145 | the sort orders by rounded score, largest first, and is a permutation |
| TopLoci.SortDescStable | compare_allele_frequencies.py:145 | for every key, the entries with that key keep their input order |
| TopLoci.TiesInInputOrder | compare_allele_frequencies.py:144-145 | entries with equal rounded scores come out in the order of the score map, NaN entries dropped |
| TopLoci.TopDivergentSpec | compare_allele_frequencies.py:144-145 | the selection has no NaN, has min(n, non-NaN count) entries, is sorted, and is a prefix of the stable sort |
| TopLoci.TopBeatsDropped | compare_allele_frequencies.py:144-145 | every selected entry's rounded score is >= that of every non-NaN entry left out |
| TopLoci.SortedNearlyByScore | compare_allele_frequencies.py:145 | ordered by rounded score, a later entry's exact score exceeds an earlier one's by at most 10^-6 |

## Left out

- Reading and parsing the frequency files (lines 20-29, 33 and 35): header lookup, tab and ':' splitting, and `int`/`float` conversion. The model takes each file as parsed rows (CHROM, POS, N_CHR, `allele:freq` cells), so parse errors are not modelled.
- The file writing and text formatting of every output writer (lines 147-233). The writers only regroup and print the maps modelled here; the unique-fixed writer takes the fixed allele again with the same `max` as `FixedAlleles.FixedAllele`.
- `main` (lines 235-275): argument parsing, reading the file list, and the rule that the uniquely missing sites are written only when there are more than two input files. All of these are I/O or command-line handling.
- Floating point. Frequencies and fractions are exact reals, so division, summation and `round` have no binary rounding error, and infinities are absent. `round(x, 6)` rounds exact ties to even, where CPython rounds the binary value.
- Thresholds are reals; a NaN `miss_tolerance` or `error_tolerance` is not modelled.
- Set iteration order in compute_divergence_scores is unspecified. The method picks the next allele arbitrarily, and `Divergence.SumRemove` shows every order gives the same sum; with real floats the order could change the last bits.
- FixedAlleles.IdentifyFixedAlleles: requires every record that passes the genotyping test to have a non-empty allele dict. On an empty dict the source's `max` raises ValueError, and the model does not produce that error.
- FixedAlleles.FindUniqueFixedAlleles: requires every listed allele dict to be non-empty, as `max` raises otherwise. `FixedAlleles.FixedFeedsUnique` shows the fixed map always meets this.
- FixedAlleles.IdentifyFixedAlleles: `setdefault(locus, []).append(...)` is modelled as gathering a locus's fixed clades and then appending the locus once. The two agree because the table's loci are distinct.
- Divergence.ScoreNonNegative and Divergence.IdenticalCladesScoreZero: both require that the first clade records no NaN frequency. With a NaN there the score is NaN (`Divergence.ScoreNaNIffFirstCladeNaN`); a NaN in a later clade is allowed.
- TopLoci.Key: gives a NaN score the key 0. NaN scores are removed before sorting, so this key is never used.
