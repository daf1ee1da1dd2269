# FM-index of rust-mop, modelled in Dafny

This project models the FM-index of rust-mop. The index is built over a text
that must not contain the terminator character `$`. The build runs five stages
in order:

1. find the alphabet: the distinct characters of the text, ascending;
2. count each alphabet character;
3. build the suffix array of `text + "$"`;
4. build the Burrows-Wheeler transform from the suffix array;
5. build the tally table: one row per alphabet character, holding the
   cumulative number of that character in the transform.

Four queries are answered from the finished tables:

- last-to-first (LF) mapping;
- the inverse transform, which gives the text back;
- backward search, which returns the interval of Burrows-Wheeler matrix rows
  starting with a pattern, or none;
- occurrence counting.

Two diagnostics complete the core. One builds the Burrows-Wheeler matrix. The
other counts the runs of equal symbols in the transform (`r`).

Only three methods of the repository have real bodies: `new`, which builds
the empty record; `build`, which runs the five stages in order; and
`print_bwm`, which prints the matrix. Every stage and query method, from
`find_alphabet` to `count_occurrences`, is a placeholder (`unimplemented!`).
The behaviour modelled here therefore comes from four places:

- the doc comments;
- the structure of the record;
- the bodies of `new` and `build`;
- the expected values in the unit tests of `src/fm_index.rs`.

The `Examples` module proves the unit tests' values for the text `banana`
from the model: its alphabet, counts, suffix array, matrix, transform, run
count, tallies, every LF mapping value, and the whole index `Build` gives. The
backward-search and counting tests use the text `mississippi`. Of those, only
the pattern `"$"` is proved (`SentinelPattern`); the other expected values
follow from the general theorems but are not worked out.

Layout, one module per file:

- `wrappers.dfy` (`Wrappers`): the `Option` and `Result` types that the
  search and the build return.
- `symbols.dfy` (`Symbols`): the terminated text `Extend(text)` over
  `Sym = Sentinel | Ch(c)`. The sentinel sorts below every character. It also
  defines occurrence counts over symbols (`Occ`, `OccBelow`) and over the raw
  characters that stages one and two read (`CountChar`, `CountCharBelow`),
  with lemmas tying the two together.
- `counting.dfy` (`Counting`): cardinalities of index sets.
- `lex.dfy` (`Lex`): lexicographic order on symbol strings, suffix order and
  rotations.
- `alphabet.dfy` (`Alphabet`): stages one and two.
- `suffix_array.dfy` (`SuffixArrays`): stage three. It is a functional
  insertion sort of the suffixes of `text + "$"`.
- `bwt.dfy` (`Bwt`): stages four and five, the matrix, and run counting with
  run-length encoding as its partner.
- `last_to_first.dfy` (`LastToFirst`): the rank theorem behind LF mapping and
  the generic backward-search step. Both are stated for any sorted suffix
  array and its transform.
- `fm_index.dfy` (`FmIndex`): the index record, the stage wrappers with their
  stage preconditions, `Build`, and the invariant `Describes(idx, text)` that
  every built index satisfies.
- `queries.dfy` (`Queries`): LF mapping, the inverse transform, backward
  search and counting, each with its correctness theorem.
- `examples.dfy` (`Examples`): the unit tests' `banana` values, proved.

Every query takes the text the index was built from as a `ghost` parameter. It
appears only in the contracts, where it states what the answer means, and is
erased from the computation. The computation reads only the index's tables:
`alphabet`, `counts`, `suffixArray`, `bwt` and `tallies`. `TextDetermined`
proves that an index describes at most one text, so this parameter adds no
information.

## Model

| member | source | states |
|---|---|---|
| FmIndex.New | src/fm_index/mod.rs:13-22 | A new index has every table empty and no stage done. |
| Alphabet.FindAlphabet | src/fm_index/mod.rs:24-27 | The alphabet is strictly ascending, and a character is in it exactly when it occurs in the text and is not `$`. |
| Alphabet.AscendingUnique | src/fm_index/mod.rs:24-27 | Two ascending, duplicate-free lists with the same members are equal, so the contract of the alphabet determines it. |
| FmIndex.StoreAlphabet | src/fm_index.rs:40-43 | Stage one stores that alphabet, marks itself done and leaves the other tables unchanged. |
| Alphabet.ComputeCounts | src/fm_index/mod.rs:29-34 | The counts line up with the alphabet, and entry k is the number of occurrences of alphabet character k in the text. |
| FmIndex.StoreCounts | src/fm_index/mod.rs:29-34 | Stage two needs stage one to have run; it stores the counts and changes nothing else. |
| Alphabet.CountsSumToLength | src/fm_index/mod.rs:29-34 | When the alphabet covers the text, the counts add up to the length of the text. |
| Alphabet.AlphabetCountsPositive | src/fm_index.rs:108-115 | Every character of the found alphabet has a positive count. |
| Alphabet.PrefixSumIsBelow | src/fm_index/mod.rs:29-34 | The counts of the alphabet entries before entry K add up to the number of text characters smaller than entry K. |
| SuffixArrays.SuffixArray | src/fm_index/mod.rs:36-39 | The suffix array lists each position of `text + "$"` exactly once, in strictly ascending order of the suffixes starting there. |
| SuffixArrays.SuffixArrayStartsAtSentinel | src/fm_index.rs:117-123 | Row 0 of the suffix array holds the position equal to the text's length: the suffix made of `$` alone. |
| SuffixArrays.SortedPermutationUnique | src/fm_index/mod.rs:36-39 | Two sorted permutations of the same suffixes are equal, so the contract of the suffix array determines it. |
| SuffixArrays.RowIsRank | src/fm_index/mod.rs:36-39 | The row holding position q is the number of suffixes smaller than suffix q. |
| FmIndex.StoreSuffixArray | src/fm_index.rs:50-53 | Stage three stores a sorted permutation and changes nothing else. |
| Bwt.ConstructBwm | src/fm_index/mod.rs:41-47 | Matrix row i is the rotation of `text + "$"` starting at suffix-array entry i; every row's last symbol is transform entry i; and when the suffix array is sorted, the rows ascend strictly. |
| FmIndex.Matrix | src/fm_index/mod.rs:41-47 | The matrix is built only after the suffix array, from the stored suffix array, and the index is left unchanged; its last column is the transform of that suffix array, and its rows ascend when the suffix array is sorted. |
| FmIndex.BuiltMatrix | src/fm_index/mod.rs:41-47 | In a built index, the matrix has one row of length n per transform entry, its last column is the stored transform, and its rows ascend strictly. |
| Bwt.ConstructBwt | src/fm_index/mod.rs:58-64 | Transform entry i is `$` when suffix-array entry i is 0, and otherwise the text character just before that position. |
| FmIndex.StoreBwt | src/fm_index.rs:60-63 | Stage four needs the suffix array, stores that transform and changes nothing else. |
| Bwt.BwtIsPermutation | src/fm_index/mod.rs:58-64 | The transform holds every symbol exactly as often as `text + "$"` does. |
| Bwt.SentinelOnceInBwt | src/fm_index.rs:142-149 | The transform holds exactly one `$`. |
| Bwt.CountRuns | src/fm_index/mod.rs:66-71 | The number of runs equals the number of maximal runs in the run-length encoding of the transform, and lies between 1 and the transform's length when the transform is non-empty. |
| Bwt.RunLengthRoundTrip | src/fm_index/mod.rs:66-71 | Expanding the run-length encoding gives the transform back. |
| Bwt.RunLengthMaximal | src/fm_index/mod.rs:66-71 | Every encoded run is non-empty, and neighbouring runs hold different symbols. |
| FmIndex.ComputeR | src/fm_index/mod.rs:66-71 | Counting runs needs the transform stage to have run. |
| Bwt.ConstructTallies | src/fm_index/mod.rs:73-78 | There is one tally row per alphabet character, so none for `$` since the alphabet never holds it; each row is as long as the transform, and entry i counts that character in transform entries 0 to i. |
| Bwt.TalliesMonotone | src/fm_index/mod.rs:73-78 | Each tally row never decreases. |
| FmIndex.StoreTallies | src/fm_index/mod.rs:73-78 | Stage five needs the transform and the alphabet, stores the tallies and changes nothing else. |
| FmIndex.TalliesEndAtCounts | src/fm_index/mod.rs:73-78 | In a built index, the last entry of each tally row equals that character's count. |
| FmIndex.Build | src/fm_index/mod.rs:80-94 | A text containing `$` is refused; any other text gets the index the five stages give, with every stage done. |
| FmIndex.BuildDescribes | src/fm_index/mod.rs:80-94 | A successful build describes its text: sorted suffix array, matching transform, covering ascending alphabet, counts and tallies as the stages define them. |
| FmIndex.FirstRowCorrect | src/fm_index/mod.rs:96-101 | One plus the counts of the smaller alphabet characters is the first matrix row starting with the character. |
| FmIndex.RankCorrect | src/fm_index/mod.rs:96-101 | The tally lookup is the number of copies of a symbol among the first i transform entries. |
| LastToFirst.LfTheorem | src/fm_index/mod.rs:96-101 | The position before row i's start lies in the row given by the number of smaller symbols plus the earlier copies of transform entry i. |
| Queries.LfMapping | src/fm_index.rs:177-190 | LF mapping sends every row to a row. |
| Queries.LfMappingCorrect | src/fm_index/mod.rs:96-101 | Row lf(i) starts at `(sa[i] + n - 1) mod n`, and its matrix row is row i turned right by one symbol. |
| Queries.LfBijective | src/fm_index/mod.rs:96-101 | LF mapping is a bijection on the rows. |
| Queries.LfSingleCycle | src/fm_index/mod.rs:96-101 | From any row, n steps of LF mapping visit n distinct rows and then return to the start. |
| Queries.InverseBwt | src/fm_index/mod.rs:103-108 | The inverse transform of a built index returns exactly the text it was built from. |
| Queries.TextDetermined | src/fm_index/mod.rs:103-108 | An index describes at most one text. |
| Queries.BackwardSearch | src/fm_index/mod.rs:110-116 | A returned interval is a non-empty range of rows. |
| Queries.BackwardSearchCorrect | src/fm_index/mod.rs:110-116 | The returned interval holds exactly the rows whose cyclic reading starts with the pattern; the result is none exactly when no row does. |
| Queries.BackwardSearchRows | src/fm_index/mod.rs:110-116 | For patterns no longer than `text + "$"`, the interval is exactly the matrix rows having the pattern as a prefix, and none means no such row. |
| Queries.SentinelPattern | src/fm_index.rs:202-213 | The pattern `"$"` gives the interval (0, 0). |
| Queries.CountOccurrences | src/fm_index/mod.rs:118-123 | The count is at most n, and it is 0 exactly when backward search finds nothing. |
| Queries.CountIsMatchingRows | src/fm_index/mod.rs:118-123 | The count is the number of matrix rows whose cyclic reading starts with the pattern. |
| Queries.CountIsNaive | src/fm_index.rs:215-229 | For a pattern without `$`, the count is the number of positions of the text where the pattern starts. |
| Examples.BananaAlphabet | src/fm_index.rs:100-106 | The alphabet of `banana` is `abn`. |
| Examples.BananaCounts | src/fm_index.rs:108-115 | The counts of `banana` over `abn` are 3, 1, 2. |
| Examples.BananaSuffixArray | src/fm_index.rs:117-123 | The suffix array of `banana` is 6, 5, 3, 1, 0, 4, 2. |
| Examples.BananaMatrix | src/fm_index.rs:125-140 | The matrix rows of `banana` are `$banana`, `a$banan`, `ana$ban`, `anana$b`, `banana$`, `na$bana`, `nana$ba`. |
| Examples.BananaTransform | src/fm_index.rs:142-149 | The transform of `banana` is `annb$aa`. |
| Examples.BananaRuns | src/fm_index.rs:151-159 | The transform `annb$aa` has 5 runs. |
| Examples.BananaTallies | src/fm_index.rs:161-175 | The tally rows of `banana` are 1,1,1,1,1,2,3 for `a`, 0,0,0,1,1,1,1 for `b` and 0,1,2,2,2,2,2 for `n`. |
| Examples.BananaLf | src/fm_index.rs:177-190 | In any index describing `banana`, LF mapping sends rows 0 to 6 to 1, 5, 6, 4, 0, 2, 3. |
| Examples.BananaIndex | src/fm_index/mod.rs:88-94 | Building `banana` succeeds and gives exactly the tables the unit tests expect, with every stage done. |

## Left out

- `print_bwm` (src/fm_index/mod.rs:49-56) writes to standard output, and output is not modelled.
- Strings are `seq<char>`, with no UTF-8 byte layout, and characters compare by code point. The transform is held as `seq<Sym>` and each matrix row (a `String` in the source's `Vec<String>`) as `seq<Sym>` too, with `$` written only when symbols are rendered back into characters.
- `usize` arithmetic is unbounded. No step of the model goes below zero: `SearchStep` compares the two ranks before it subtracts one from the upper rank, so the empty interval never forms a row index of -1, and `LfMapping` subtracts one only from a rank of at least 1. The lengths involved fit in a machine word.
- The record's `done` set is not a field of the source. It models the doc comments' requirement that an earlier method "has been called first", as stage preconditions. Calling a stage out of order panics or gives garbage in the source; the model does not allow the call.
- The queries' `text` parameter is ghost: it states the meaning of each answer and is erased from the computation.
- `Build` refuses a text containing `$` with a `Failure` result. The source leaves that case undefined, because the terminator would no longer be unique.
- Efficiency is not modelled: the suffix array is an insertion sort, the tallies keep every row, and there is no sampling.
- src/fm_index.rs and src/fm_index/mod.rs declare the same record and methods, and the model follows both as one. They differ in: the derived `Debug` and `PartialEq` of src/fm_index.rs:3 (the model's datatype equality compares the five tables and also the set of stages run, which the source's record does not hold, so two records with the same tables but different stages run are equal there and different here); the unit tests at src/fm_index.rs:96-229, which only src/fm_index.rs holds; where `build` and `print_bwm` sit (src/fm_index.rs:26-38 against src/fm_index/mod.rs:52-56 and 88-94); comments; the terminator's constant name (`SENTINEL` against `TERMINAL_CHAR`); and parameter names.
- Queries.BackwardSearchCorrect: the search is specified by cyclic occurrence, i.e. the pattern read around `text + "$"`. That is what backward search computes. It agrees with "rows having the pattern as a prefix" only for patterns no longer than `text + "$"` (`BackwardSearchRows`); a longer pattern such as `a$a` over the text `a` matches cyclically.
- Queries.InverseBwt prepends each symbol it reads instead of appending and reversing at the end; the result is the same.
- Queries.LfMapping requires a row inside the transform. The doc comment (src/fm_index/mod.rs:96-99) states no bound on `bwt_offset`. The `$` row maps to row 0, as the tests expect.
