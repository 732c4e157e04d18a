# Two-level Boolean minimiser and decision-diagram manager, in Dafny

This project models the core of a small logic-synthesis toolkit.

- **Cube algebra and prime implicants** (`lab1/implicants.py`).
  - Cubes are strings over `'0'`, `'1'` and `'-'`.
  - Two cubes merge when they differ in exactly one opposite fixed bit.
  - The Quine–McCluskey loop merges level by level until no merge is possible.
  - It then drops every cube covered by another.
- **Cover selection** (`lab1/cover.py`).
  - Prime implicants that touch an off-set input are discarded.
  - Each on-set minterm gets its table of candidate implicants.
  - Essential implicants are taken first.
  - The greedy loop then picks the implicant with the best (gain, don't-care count, −literal count) score.
  - The result is rendered as a sum-of-products string and as PLA cube rows.
- **Truth tables** (`lab1/truth_table.py`, the in-memory parts).
  - Inputs are enumerated in binary order.
  - The on/don't-care index sets are validated.
  - Each row gets its output characters.
  - The `sum{...} d{...}` index lists are tokenised and written back.
- **PLA text** (`lab1/pla.py`): the `.i`/`.o`/`.ilb`/`.ob` header, the cube rows and `.e`.
- **Decision diagrams** (`lab3/bdd.py`).
  - A manager hash-conses immutable nodes through a unique table and drops redundant tests.
  - It numbers nodes from a counter.
  - It builds ordered diagrams from truth tables by Shannon expansion.

Python's own behaviour is modelled where the code relies on it:

- `zip` truncates to the shorter argument.
- Strings order as `'-' < '0' < '1'`, with a prefix before its extensions (`PyOrder.Less`).
- `sorted(set)` produces a sorted list without duplicates.
- `str.join`, `str.split` and `str.strip` behave as in Python.
- `int` parses a token of decimal digits.
- Tuples compare lexicographically with a strict `>`.
- A dict comprehension keeps the last index of a repeated key.

Dict and set iteration order is an arbitrary choice. Every contract holds for every order.

Files:

| file | module | contents |
|---|---|---|
| `wrappers.dfy` | `Wrappers` | `Option`, `Result` |
| `pyorder.dfy` | `PyOrder` | Python string order, `sorted`, list filtering |
| `pytext.dfy` | `PyText` | `join`, `split`, `strip`, decimal text |
| `binary.dfy` | `Binary` | powers of two, value of a bit string |
| `cubealgebra.dfy` | `CubeAlgebra` | cubes, covering, the one-bit merge |
| `implicants.dfy` | `Implicants` | `group_once`, `derive_prime_implicants`, `build_onset_terms` |
| `cover.dfy` | `Cover` | candidate tables, essentials, greedy cover, rendering, `select_cover_for_one_output` |
| `truthtable.dfy` | `TruthTable` | input enumeration, output rows, index-list tokenising and formatting |
| `pla.dfy` | `Pla` | `build_full_pla` |
| `bdd.dfy` | `Bdd` | `BDDNode`, the `BDD` manager |

Code that updates state step by step is modelled as methods with loop invariants:

- the merge loop, the grouping loops and the prime-implicant fixed point;
- the candidate table, the essential pick and the greedy loop;
- row building and tokenising;
- the decision-diagram manager, as a class.

Each such method is proved against a specification function or states its result outright.

## Model

| member | source | states |
|---|---|---|
| CubeAlgebra.Combined | lab1/implicants.py:4-27 | a merge exists exactly when the cubes differ at exactly one position, and there by opposite fixed bits; the merge equals the first cube with `'-'` at that position |
| CubeAlgebra.CombineIfOneBitDiff | lab1/implicants.py:4-27 | the loop with its difference counter and early exits computes exactly `Combined` |
| CubeAlgebra.DashClashNone | lab1/implicants.py:16-18 | a `'-'` facing a fixed bit at any compared position gives no merge |
| CubeAlgebra.TwoDifferencesNone | lab1/implicants.py:20-22 | two differing positions give no merge |
| CubeAlgebra.NoDifferenceNone | lab1/implicants.py:24-26 | cubes equal on every compared position give no merge |
| CubeAlgebra.CombinedSymmetric | lab1/implicants.py:4-27 | merging is symmetric in its two operands |
| CubeAlgebra.CombinedDashes | lab1/implicants.py:13-23 | a merge has exactly one more `'-'` than each operand |
| CubeAlgebra.CombinedLiterals | lab1/implicants.py:13-23 | a merge has strictly fewer fixed bits than its operand: the termination measure of the level loop |
| CubeAlgebra.CombinedCoversOperands | lab1/implicants.py:47-48 | a merge covers both of its operands |
| CubeAlgebra.CombinedCoversExactly | lab1/implicants.py:4-27 | a bit vector is covered by the merge exactly when one of the two operands covers it |
| CubeAlgebra.Covers | lab1/implicants.py:44-48 | the definition of `implicant_covers_input` and `implicant_covers_implicant`: over the zipped positions, the first cube has `'-'` or the character of the second |
| CubeAlgebra.CoversReflexive | lab1/implicants.py:47-48 | every cube covers itself |
| CubeAlgebra.CoversTransitive | lab1/implicants.py:47-48 | covering is transitive when the middle cube is long enough |
| CubeAlgebra.CoversSemantics | lab1/implicants.py:44-48 | for equal widths, one cube covers another exactly when it covers every bit vector the other covers |
| CubeAlgebra.CoversLiterals | lab1/implicants.py:47-48 | a covering cube has no more fixed bits, and strictly fewer when it differs |
| Implicants.SortByOnes | lab1/implicants.py:32 | the sort by number of `'1'`s is a permutation: every term keeps its multiplicity |
| Implicants.SortByOnesStable | lab1/implicants.py:32 | the sort is stable: the terms with `k` ones come out in the order they have in the input, for every `k` |
| Implicants.SortByOnesOrdered | lab1/implicants.py:32 | the sorted terms are in non-decreasing order of `'1'` count |
| Implicants.GroupOnce | lab1/implicants.py:29-42 | the new terms are sorted, duplicate-free and exactly the pairwise merges; a term is a leftover exactly when it took part in no merge; leftovers keep the sorted order |
| Implicants.MergeRow | lab1/implicants.py:34-39 | the inner loop adds exactly the merges of row `i` with later terms and exactly the terms that took part |
| Implicants.RowMergeMembers | lab1/implicants.py:34-37 | a cube is a merge of row `i` exactly when some later term merges with term `i` into it |
| Implicants.RowUsedMembers | lab1/implicants.py:34-39 | a term is marked used by row `i` exactly when it is one of the two terms of a pair `(i, q)`, `q > i`, that merges |
| Implicants.AllRows | lab1/implicants.py:33-39 | the outer loop collects exactly the merges and used terms of every row |
| Implicants.AllPairs | lab1/implicants.py:33-39 | over all rows, the merges and used terms are those of all pairs of input terms |
| Implicants.DerivePrimeImplicants | lab1/implicants.py:50-66 | result sorted and duplicate-free; empty input gives empty output; no returned cube is covered by another returned cube; for minterms of one width every minterm is covered by a returned cube of that width, and each returned cube is an implicant; for bit-vector minterms of one width every returned cube is a prime implicant (no other implicant of that width covers it), every prime implicant of that width is returned, and every implicant of that width is covered by a returned cube |
| Implicants.CollectLevels | lab1/implicants.py:51-59 | the merge loop ends with a collection that covers every minterm, has the minterms' width, holds implicants, and for bit-vector minterms of one width is exactly the set of prime implicants of that width |
| Implicants.FirstLevels | lab1/implicants.py:51-52 | the loop facts hold at the start: the distinct minterms are level 0, nothing collected yet |
| Implicants.LevelStep | lab1/implicants.py:53-59 | a level with merges keeps every loop fact one level up, with a smaller literal bound |
| Implicants.LevelExit | lab1/implicants.py:54-58 | the level without merges, collected with its leftovers, gives every fact the filter needs |
| Implicants.MergesNeedTerms | lab1/implicants.py:33-39 | a level with a merge was not empty |
| Implicants.MintermAtLevel | lab1/implicants.py:51 | a bit-vector minterm is an implicant of the minterms' width with no '-' |
| Implicants.LevelZeroMinterm | lab1/implicants.py:51 | an implicant of the minterms' width with no '-' is a minterm |
| Implicants.FirstLevelPrimes | lab1/implicants.py:51 | the distinct bit-vector minterms are exactly the implicants with no '-', and no prime is collected yet |
| Implicants.NextLevel | lab1/implicants.py:33-39 | when level `d` is exactly the implicants with `d` dashes, its merges are exactly the implicants with `d + 1` dashes |
| Implicants.MergeAtLevel | lab1/implicants.py:35-37 | the merge of two level-`d` implicants is an implicant with `d + 1` dashes |
| Implicants.LevelMerges | lab1/implicants.py:35-37 | every implicant with `d + 1` dashes is the merge of two level-`d` implicants |
| Implicants.Halves | lab1/implicants.py:35-37 | fixing a '-' of an implicant to '0' and to '1' gives two implicants with one dash fewer, which merge back into it |
| Implicants.HalfOf | lab1/implicants.py:35-37 | fixing one '-' of an implicant gives an implicant with one dash fewer |
| Implicants.SubCube | lab1/implicants.py:44-48 | a cube covered by an implicant of the same width is an implicant |
| Implicants.Refine | lab1/implicants.py:44-48 | below an implicant with more than `k` dashes lies an implicant of the same width with exactly `k + 1` dashes that it covers |
| Implicants.NoHigherLevel | lab1/implicants.py:54-58 | when level `d` merges nothing, no implicant has more than `d` dashes |
| Implicants.CoveredMerges | lab1/implicants.py:33-39 | a level cube covered by a larger implicant takes part in a merge |
| Implicants.LeftoverPrime | lab1/implicants.py:54-55 | a level cube that takes part in no merge is a prime implicant |
| Implicants.PrimeNotMerged | lab1/implicants.py:33-39 | a prime implicant takes part in no merge of its level |
| Implicants.NoMergeNoPart | lab1/implicants.py:54-58 | on a level with no merge, no cube takes part in one |
| Implicants.LevelPrimes | lab1/implicants.py:53-59 | across a level, the collected cubes stay prime, every prime with fewer dashes than the level is collected, and the new level is exactly the implicants with one more dash |
| Implicants.CollectPrimes | lab1/implicants.py:54-58 | when the loop stops, the collected cubes are exactly the prime implicants of the minterms' width |
| Implicants.FinishPrimes | lab1/implicants.py:60-66 | the redundancy filter keeps every prime: the result is exactly the prime implicants |
| Implicants.ImplicantUnderPrime | lab1/implicants.py:50-66 | every implicant is covered by a prime implicant of the same width |
| Implicants.PrimesCoverImplicants | lab1/implicants.py:50-66 | a list holding every prime implicant of a width covers every implicant of that width |
| Implicants.FirstLevel | lab1/implicants.py:51 | the first level has the minterms' width and covers every minterm |
| Implicants.LevelLiterals | lab1/implicants.py:53-59 | each level's terms have one fixed bit fewer than the previous bound, so the loop ends |
| Implicants.LevelCovering | lab1/implicants.py:53-59 | every minterm stays covered by a collected prime or a current term across a level |
| Implicants.LevelWidths | lab1/implicants.py:53-59 | widths stay equal to the minterms' width across a level |
| Implicants.LevelImplicants | lab1/implicants.py:53-59 | collected and current terms stay implicants across a level |
| Implicants.MergeIsImplicant | lab1/implicants.py:35-37 | the merge of two implicants is an implicant |
| Implicants.Collect | lab1/implicants.py:55-58 | the final collection keeps covering, widths and implicant facts |
| Implicants.NonRedundant | lab1/implicants.py:60-65 | the filter loop keeps exactly the primes that no other prime covers |
| Implicants.FinishIrredundant | lab1/implicants.py:60-66 | among the kept primes, sorted and distinct, none covers another |
| Implicants.FinishCovering | lab1/implicants.py:60-66 | every minterm covered by a collected prime stays covered by a kept one |
| Implicants.FinishShape | lab1/implicants.py:60-66 | kept primes have the minterms' width and, for cubes, are implicants |
| Implicants.KeptIff | lab1/implicants.py:60-66 | a sorted prime is kept exactly when no other prime covers it |
| Implicants.MaximalCover | lab1/implicants.py:60-66 | every covered minterm is covered by a prime that no other prime covers |
| Implicants.Finish | lab1/implicants.py:60-66 | the redundancy filter yields the primality and covering facts of the result |
| Implicants.RowsWith | lab1/implicants.py:68-69 | `build_onset_terms`: exactly the input rows whose zipped output row has the given character in the given column |
| PyOrder.SortSet | lab1/implicants.py:41 | `sorted(set)`: sorted in Python string order, with exactly the set's members |
| PyOrder.Without | lab1/cover.py:39 | the list without the given strings keeps exactly the others |
| PyOrder.WithoutAppend | lab1/cover.py:39 | the filter works left to right: filtering a concatenation concatenates the filtered pieces, so kept strings keep their order |
| PyOrder.WithoutTwice | lab1/cover.py:50 | filtering twice equals filtering by the union |
| PyOrder.WithoutShorter | lab1/cover.py:50 | removing a present string makes the remaining list strictly shorter |
| Cover.IndexByBits | lab1/cover.py:7 | the index map has exactly the input rows as keys, each mapped to an index holding that row |
| Cover.IndexByBitsLast | lab1/cover.py:7 | a repeated row maps to its last index |
| Cover.OnIndices | lab1/cover.py:8 | the on-set indices are those the index map gives the on-set rows |
| Cover.BuildMintermToPis | lab1/cover.py:6-14 | keys are exactly the on-set indices; each maps to exactly the implicants covering that input |
| Cover.AddToRows | lab1/cover.py:10-13 | one implicant is added to exactly the rows whose input it covers |
| Cover.PickEpis | lab1/cover.py:16-26 | an implicant is essential exactly when it is the sole candidate of some minterm; `covered` is exactly the minterms whose candidates meet the essentials |
| Cover.ScorePiForGreedy | lab1/cover.py:28-32 | the gain is between 0 and the number of uncovered indices; dashes plus literals equal the cube length |
| Cover.GainPositive | lab1/cover.py:29 | the gain is positive exactly when the implicant covers some uncovered index |
| Cover.PickBest | lab1/cover.py:41-45 | no candidate scores strictly above the chosen score; no choice means score (0, 0, 0); a choice scores above (0, 0, 0) and strictly beats every earlier candidate, so ties go to the first |
| Cover.UncoveredAdd | lab1/cover.py:48-49 | selecting one more implicant removes exactly its cover from the uncovered set |
| Cover.GreedyCompleteCover | lab1/cover.py:34-51 | the selection is the given one plus the picks of the rounds, in order; each pick covers at least one still uncovered index, no remaining candidate scores higher, and it scores strictly higher than every remaining candidate before it; the selection contains the given one and stays within it plus the candidates; `uncovered` is exactly the on-set minus what the selection covers; on exit it is empty or no unselected candidate covers any of it |
| Cover.TermsFrom | lab1/cover.py:57-61 | the literals of the zipped positions: none exactly when no zipped position is `'0'` or `'1'`; each is a name or a primed name of a zipped position |
| Cover.ImplicantToProductTerm | lab1/cover.py:53-63 | a cube that fixes nothing renders as `"1"`; with the default names, `"1"` is rendered exactly for such a cube |
| Cover.ProductTermRoundTrip | lab1/cover.py:53-63 | with the default names, decoding the rendered product term gives back the cube |
| Cover.DefaultTermShape | lab1/cover.py:53-63 | a product term over the default names is `"1"` or starts with a name, and uses only name characters and `'` |
| Cover.SumOfProducts | lab1/cover.py:65-66 | the empty selection renders as `"0"`; a single implicant renders as its product term, with no separator |
| Cover.SumOfProductsRoundTrip | lab1/cover.py:65-66 | with the default names, decoding the sum of products gives back the selected cubes in order; the empty selection renders as `"0"` |
| Cover.SumPieces | lab1/cover.py:65-66 | a non-empty sum splits at `'+'` into the terms, each padded by the blanks of `" + "` |
| Cover.OutputVector | lab1/cover.py:71-72 | the output vector has `n` bits, with `'1'` exactly at the chosen output |
| Cover.CubesForEspresso | lab1/cover.py:68-74 | one row per selected implicant |
| Cover.CubesForEspressoRows | lab1/cover.py:68-74 | each row splits at the blank into its cube and the output vector |
| Cover.DropOffCovering | lab1/cover.py:88-95 | the kept implicants are exactly those that cover no off-set input |
| Cover.CoveredIndices | lab1/cover.py:103-106 | the covered indices are exactly the indices of the on-set rows the implicant covers |
| Cover.BuildCovers | lab1/cover.py:101-107 | one entry per kept implicant, holding exactly the on-set indices it covers |
| Cover.OnAndDontCareRows | lab1/cover.py:82-84 | the union is sorted and holds exactly the on-set and don't-care rows |
| Cover.KeptPrimes | lab1/cover.py:81-95 | the union is exactly the on-set and don't-care rows; the kept implicants are the prime-implicant list of the union (as `derive_prime_implicants` returns it) less those covering an off-set row; no kept implicant covers an input outside the union; for a table of equal-width bit rows, every union row is covered by a kept implicant |
| Cover.PrimesOffFiltered | lab1/cover.py:85-95 | the kept implicants are the prime-implicant list of the union (sorted, irredundant, and exactly the prime implicants for bit rows of one width) with those covering an off-set row dropped, in order; kept implicants exist only for a non-empty union; no kept implicant covers an input outside the union; for a table of equal-width bit rows, every union row is covered by a kept implicant and every bit vector a kept implicant covers is a union row |
| Cover.OffFilterInside | lab1/cover.py:88-95 | after the off-set filter, every input a kept implicant covers is an on-set or don't-care row |
| Cover.PrimesStayInside | lab1/cover.py:86 | for a well-formed table, every bit vector a prime covers is in the union |
| Cover.WellFormedKept | lab1/cover.py:86-95 | for a well-formed table, the off-set filter keeps every prime, and they still cover the union |
| Cover.GreedyLeavesNoCandidate | lab1/cover.py:116-118 | the greedy loop leaves uncovered exactly the on-set indices that no kept implicant covers |
| Cover.Essentials | lab1/cover.py:107-113 | the essential implicants are exactly the sole candidates of on-set rows, so kept implicants |
| Cover.ChooseCover | lab1/cover.py:96-116 | the selection is exactly the essential implicants (the sole candidates of on-set rows) plus the greedy picks, each the best-scoring choice of its round over the covers map of the on-set; the selection stays within the kept implicants and includes every sole candidate of an on-set row; `uncovered` is exactly the on-set indices no kept implicant covers; every other on-set index is covered by a selected implicant |
| Cover.SelectionCovers | lab1/cover.py:114-118 | every on-set index outside the final uncovered set is covered by some selected implicant |
| Cover.EssentialsAreCandidates | lab1/cover.py:109-115 | essentials are kept implicants, and an implicant is essential exactly when it is the sole candidate of a table row |
| Cover.CoversAreCoverMap | lab1/cover.py:101-107 | the map the covers loop fills is, for each kept implicant, the on-set indices whose row it covers |
| Cover.OnRows | lab1/cover.py:98-99 | the on-set indices are indices of input rows that are on-set rows |
| Cover.CoverMap | lab1/cover.py:101-107 | the covers map has one entry per kept implicant |
| Cover.OffRows | lab1/cover.py:88 | the off-set is exactly the input rows outside the union |
| Cover.UncoveredBy | lab1/cover.py:36-38 | the first loop leaves exactly the on-set indices no already selected implicant covers |
| Cover.NoGainLeft | lab1/cover.py:46-47 | when the best remaining score gains nothing, no unselected implicant covers an uncovered index |
| Cover.GreedyRunAppend | lab1/cover.py:40-50 | a greedy run extended by one more greedy choice is a greedy run, and its selection grows by that pick |
| Cover.GreedyPickIsNew | lab1/cover.py:40-50 | a greedy pick is a candidate not yet selected that covers a still uncovered index |
| Cover.NothingUncovered | lab1/cover.py:109-118 | when every on-set row is covered by a kept implicant, no index is left without a candidate |
| Cover.SelectCoverForOneOutput | lab1/cover.py:76-123 | the candidates are the prime-implicant list of the on-set and don't-care rows less those covering an off-set row; the selection is exactly the essential implicants plus the greedy picks, each the best-scoring choice of its round; result sorted; no selected implicant covers an input outside the on/don't-care rows; every sole candidate is selected; `uncovered` is exactly the on-set indices with no candidate, and is empty for a table of equal-width bit rows; every on-set index outside `uncovered` is covered by a selected implicant; `sop` and `cubes` render the selection |
| Binary.BitsValue | lab1/truth_table.py:9 | the value of an `n`-bit string is below `2^n` |
| TruthTable.ProductRows | lab1/truth_table.py:9 | the enumeration has `2^n` rows; row `i` is `i` in `n` bits, most significant bit first |
| TruthTable.ProductDistinct | lab1/truth_table.py:9 | the enumerated rows are pairwise distinct |
| TruthTable.GenAllInputCombinations | lab1/truth_table.py:6-9 | an error exactly when `n < 1`; otherwise `2^n` rows, row `i` being `i` in `n` bits |
| TruthTable.BadIndices | lab1/truth_table.py:28-29 | exactly the indices below 0 or above the maximum |
| TruthTable.ProblemOf | lab1/truth_table.py:27-35 | no problem exactly when all on and don't-care indices are in range and the two sets are disjoint |
| TruthTable.ProblemMeaning | lab1/truth_table.py:30-35 | a bad on index is reported first, and exactly then; an overlap error carries the non-empty intersection |
| TruthTable.ValidateSpec | lab1/truth_table.py:26-35 | no error exactly when every output is valid; a reported error is some output's problem |
| TruthTable.RowChars | lab1/truth_table.py:40-49 | character `j` is `'1'` iff the index is on, `'-'` iff only don't-care, `'0'` iff neither |
| TruthTable.BuildRows | lab1/truth_table.py:38-49 | `count` rows of one character per output, each with the on/don't-care/off meaning |
| TruthTable.BuildOutputsFromMintermIndices | lab1/truth_table.py:11-50 | too few inputs is the first error; otherwise success exactly when every output is valid, and any error is some output's problem; on success the inputs are the enumeration, names are the sorted keys, `2^N` rows of `M` characters, `'1'` iff on, `'-'` iff don't-care, `'0'` otherwise |
| TruthTable.ParseListSpec | lab1/truth_table.py:75-84 | a missing body gives the empty set; parsed indices are never negative; an error names a non-blank token that is not decimal digits |
| TruthTable.ParseTokens | lab1/truth_table.py:79-83 | the tokens parse to non-negative numbers, or the error is a non-blank token that is not decimal digits |
| TruthTable.ParseList | lab1/truth_table.py:75-84 | the tokenising loop computes exactly `ParseListSpec`: an empty set for no body or a blank body, blank tokens skipped, the first non-numeric token an error |
| TruthTable.ParseTokensSnoc | lab1/truth_table.py:79-83 | one more token adds its number, is skipped when blank, or is the error |
| TruthTable.ErrorStops | lab1/truth_table.py:79-83 | once a token fails, later tokens change nothing |
| TruthTable.BlankTokenSkipped | lab1/truth_table.py:80-82 | a blank token anywhere leaves the result unchanged |
| TruthTable.ParseShown | lab1/truth_table.py:79-84 | tokens written from non-negative indices parse back to exactly those indices |
| TruthTable.FormatListRoundTrip | lab1/truth_table.py:237-238 | the comma-joined sorted indices of a non-negative set parse back to the set |
| TruthTable.FormatListChars | lab1/truth_table.py:237-238 | the written list has no brace and no newline |
| TruthTable.FormatLine | lab1/truth_table.py:239-242 | a line starts with the output name and ` = sum{` and ends with `}` |
| TruthTable.FormatLineRoundTrip | lab1/truth_table.py:239-242 | the `d{...}` part is written exactly when the don't-care set is non-empty; both bodies parse back to the on and don't-care sets |
| TruthTable.SpecLines | lab1/truth_table.py:235-242 | one formatted line per output, in name order |
| TruthTable.SumOfMintermsText | lab1/truth_table.py:234-244 | the names are the sorted keys; the text is the lines joined by newlines |
| TruthTable.FormatLineNoNewline | lab1/truth_table.py:239-242 | a formatted line holds no newline |
| TruthTable.SumOfMintermsLines | lab1/truth_table.py:244 | splitting the written text at newlines gives back the lines |
| PyText.ShowNatParses | lab1/truth_table.py:83 | `int` of the decimal text of a natural gives back that natural |
| PyText.StripBlank | lab1/truth_table.py:76 | a stripped text is empty exactly when the text is all whitespace |
| Pla.BuildFullPla | lab1/pla.py:4-26 | an error exactly when either table is empty; otherwise the text starts with `.i ` and ends with `.e` |
| Pla.PlaLines | lab1/pla.py:11-25 | an error exactly when either table is empty; otherwise `len(cubes) + 5` lines, the cubes verbatim and in order at lines 4.., and `.e` last |
| Pla.PlaCounts | lab1/pla.py:13-21 | the `.i` and `.o` lines carry the width of the first input row and of the first output row |
| Pla.PlaDefaultNames | lab1/pla.py:15-23 | without given names the name lines list `x1 .. xN` and `f1 .. fM` |
| Pla.PlaTextLines | lab1/pla.py:26 | with no newline in a name or cube, splitting the text at newlines gives back the lines |
| Bdd.BddNode.constructor | lab3/bdd.py:23-27 | a node holds its variable, children and id |
| Bdd.Bdd.constructor | lab3/bdd.py:46-63 | a new manager holds only the terminals 0 and 1, an empty unique table, and next id 2 |
| Bdd.Bdd.MakeNode | lab3/bdd.py:65-86 | equal children give the child and change nothing; a known key gives the stored node and allocates nothing; otherwise a fresh node gets the old next id, which grows by one, and is recorded under its key and its id; the result is well formed; the manager invariant is kept; the only node it may add is the result |
| Bdd.TestEval | lab3/bdd.py:65-86 | the node `make_node` returns evaluates as `if x_v then high else low` on every row long enough for its variables |
| Bdd.AddNode | lab3/bdd.py:82-85 | recording a fresh node under the next id keeps ids unique and dense, keeps the table canonical, and keeps every test non-redundant |
| Bdd.Bdd.ShannonExpand | lab3/bdd.py:106-140 | every node added to the manager is part of the returned diagram; a slice of zeros gives the 0 terminal and one of ones the 1 terminal; variables increase along every path and stay below the variable count; for a slice of `2^(n-v)` entries the diagram is true at a row exactly when the entry the row's bits select is 1 |
| Bdd.Bdd.SplitOn | lab3/bdd.py:130-140 | the recursive case: halves become the low and high children on the next variable, the joined diagram represents the slice, and every node added is part of it |
| Bdd.AddedJoin | lab3/bdd.py:130-140 | the nodes added for the two halves and for the join are all below the joined node |
| Bdd.ReachesRecorded | lab3/bdd.py:65-86 | every node below a recorded node is recorded |
| Bdd.SplitStep | lab3/bdd.py:130-140 | the node joining the diagrams of the two halves of a `2^(n-v)`-entry slice is ordered from `v` and represents the whole slice |
| Bdd.Bdd.ConstantSlice | lab3/bdd.py:119-124 | a constant slice reads as that constant at every row |
| Bdd.ShannonJoin | lab3/bdd.py:130-140 | testing variable `v` over the diagrams of the two halves gives the diagram of the whole slice |
| Bdd.ShannonRow | lab3/bdd.py:131-137 | bit `v` of a row chooses the half, and the remaining bits choose the entry in it |
| Bdd.TestStep | lab3/bdd.py:140 | a test of `v` over children on later variables, or the one child when the test is redundant, is ordered from `v` on |
| Bdd.Bdd.BuildFromTruthTable | lab3/bdd.py:88-104 | an error exactly when the table length is not `2^num_vars`, with nothing changed; otherwise every node added is part of the returned diagram, and the ordered diagram is true at input row `i` exactly when entry `i` is 1 |
| Bdd.MintermTable | lab3/bdd.py:159-163 | `2^n` entries, 1 exactly on the on-set and 0 elsewhere, so don't-cares read as 0 |
| Bdd.Bdd.BuildFromMintermSpec | lab3/bdd.py:142-166 | an error exactly for a negative or mismatched input count, with nothing changed; otherwise every node added is part of the returned diagram, and the diagram is true at input row `i` exactly when `i` is on, whatever the don't-cares |
| Bdd.Bdd.NodeCount | lab3/bdd.py:168-170 | the node count equals the next id: ids are handed out densely |
| Bdd.NodeIds | lab3/bdd.py:168-170 | a valid manager records exactly `next_id` nodes |
| Bdd.Bdd.NonTerminalCount | lab3/bdd.py:172-174 | the test-node count is the node count minus the two terminals |
| Bdd.TestNodes | lab3/bdd.py:172-174 | the test nodes are all recorded nodes but ids 0 and 1 |
| Bdd.Canonical | lab3/bdd.py:76-79 | two recorded test nodes with the same variable and children are one node |
| Bdd.Reduced | lab3/bdd.py:72-74 | no recorded test node has equal children |
| Bdd.SameId | lab3/bdd.py:85 | a recorded node is determined by its id |

## Left out

- File and console I/O is left out: `parse_sum_of_minterms_file` (a regular expression over file lines), the file write in `write_sum_of_minterms_file`, `print_bdd`, `example_usage` and `BDDNode.__repr__`. The text that `write_sum_of_minterms_file` writes is modelled by `TruthTable.SumOfMintermsText`.
- Random spec generation (`generate_random_spec_file` and its helpers) is left out because it depends on a random source.
- `lab1/main.py`, `script/synthesize.py`, `lab3/verilog_gen.py` and `lab3/connection_example.py` are left out. They are command-line glue, file emission and demos, and they depend on `lab3.netlist` and `lab3.ite_table`, which are not part of this model.
- Cubes are strings over `'0'`, `'1'` and `'-'`, not a three-valued datatype. Python's string order on cubes then needs no translation. `IsCube` and `IsBits` are hypotheses where a theorem needs them.
- Negative Python list indices are not modelled: the output column `which_output` is a `nat`.
- `int()` is modelled on ASCII decimal digits only. Signs, underscores and non-ASCII digits are left out; the file format's regular expression lets only digits, commas and whitespace into a list body.
- `str.strip` strips exactly the characters for which Python's `str.isspace` holds, as listed in `PyText.IsSpace`.
- Exceptions the source raises on bad input are `Err` values. Their message texts are not part of any contract.
- Four Python exceptions are instead ruled out by a precondition. The only caller, `lab1/main.py`, always meets these preconditions:
  - Cover.SelectCoverForOneOutput requires a non-empty output table. Python raises `IndexError` at `outputs_trits[0]` for an empty one.
  - Cover.SelectCoverForOneOutput, Cover.ChooseCover, Cover.KeptPrimes, Cover.OnAndDontCareRows, Cover.OnRows and Implicants.RowsWith require `which_output` to be below the length of every zipped output row. Python raises `IndexError` at `y[which_output]` otherwise.
  - Cover.CubesForEspresso and Cover.CubesForEspressoRows require `which_output < n_outputs` for a non-empty selection, and Cover.OutputVector requires it outright. Python raises `IndexError` at `y[which_output]` otherwise.
  - Cover.OnIndices and Cover.BuildMintermToPis require every on-set row to be an input row. Python raises `KeyError` at `idx_by_bits[b]` otherwise. `select_cover_for_one_output` only passes on-set rows taken from the inputs.
- `select_cover_for_one_output` builds its minterm table inline; the model builds it with `Cover.BuildMintermToPis`, which computes the same map.
- Cover.SelectCoverForOneOutput: `uncovered` is proved empty only for a table whose input rows are bit strings of one width. For other tables the contract states what `uncovered` is, but not that it is empty.
- Implicants.DerivePrimeImplicants: covering and implicant facts are stated only for minterms of one width, and primality and completeness only for bit-vector minterms of one width (the rows `select_cover_for_one_output` passes for a well-formed table). With mixed widths `zip` truncation makes covering depend on the shorter cube, and only sortedness and non-redundancy are stated.
- Bdd.Bdd.SplitOn has the same slice-length requirement as `ShannonExpand`.
- Bdd.Bdd.MakeNode requires a variable index of at least 0. Python does not check it, but a node with variable -1 would read as a terminal.
- Bdd.Bdd.ShannonExpand requires a slice of `2^(num_vars - var)` entries. `build_from_truth_table` only makes such calls; recursion on slices of other lengths is not modelled.
- `build_from_minterm_spec` with a negative input count raises a `TypeError` in Python, because `range` is given a float. The model returns an error there.
- `var_names` is kept as a parameter of `BuildFromTruthTable`. The source never reads it.
