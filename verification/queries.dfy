/**
 * The queries a built FM-index answers from its own tables: last-to-first
 * mapping, the inverse transform, backward search and occurrence counting.
 *
 * Every query takes, besides the index, the text the index was built from as
 * a ghost parameter: it only names that text in the contracts and is erased
 * from the computation, which reads the index tables alone.
 */
module Queries {
  import opened Wrappers
  import opened Symbols
  import opened Counting
  import opened Lex
  import opened SuffixArrays
  import opened Bwt
  import opened LastToFirst
  import opened FmIndex

  // ---------------------------------------------------------------------
  // Table lookups
  // ---------------------------------------------------------------------

  /** A built index has its tables in shape and every transform symbol is indexable. */
  lemma TableShape(idx: FMIndex, text: seq<char>, i: nat)
    requires Describes(idx, text) && i < |idx.bwt|
    ensures |idx.counts| == |idx.alphabet| == |idx.tallies|
    ensures forall k :: 0 <= k < |idx.tallies| ==> |idx.tallies[k]| == |idx.bwt|
    ensures Indexable(idx, idx.bwt[i])
  {
    BuiltShape(idx, text);
  }

  /** The table lookups for `c` agree with the counts they stand for. */
  lemma TableLookups(idx: FMIndex, text: seq<char>, c: Sym, a: nat, b: nat)
    requires Describes(idx, text) && Indexable(idx, c) && a <= b <= |idx.bwt|
    requires |idx.counts| == |idx.alphabet| == |idx.tallies|
    requires forall k :: 0 <= k < |idx.tallies| ==> |idx.tallies[k]| == |idx.bwt|
    ensures FirstRow(idx, c) == OccBelow(Extend(text), c)
    ensures RankBefore(idx, c, a) == Occ(idx.bwt[..a], c)
    ensures RankBefore(idx, c, b) == Occ(idx.bwt[..b], c)
  {
    FirstRowCorrect(idx, text, c);
    RankCorrect(idx, text, c, a);
    RankCorrect(idx, text, c, b);
  }

  // ---------------------------------------------------------------------
  // Last-to-first mapping
  // ---------------------------------------------------------------------

  /** The last-to-first formula, in terms of counts, names the row starting one position earlier. */
  lemma LfOfCounts(idx: FMIndex, text: seq<char>, i: nat)
    requires Describes(idx, text) && i < |idx.bwt|
    ensures var c := idx.bwt[i]; var lf := OccBelow(Extend(text), c) + Occ(idx.bwt[..i + 1], c) - 1;
      0 <= lf < |idx.bwt| && idx.suffixArray[lf] == Prev(idx.suffixArray[i], |idx.bwt|)
  {
    LfIsPredecessorRow(Extend(text), idx.suffixArray, idx.bwt, i);
  }

  /** With the tables in shape, the table formula for row `i` names the row starting one position earlier. */
  lemma LfTableValue(idx: FMIndex, text: seq<char>, i: nat)
    requires Describes(idx, text) && i < |idx.bwt|
    requires |idx.counts| == |idx.alphabet| == |idx.tallies|
    requires forall k :: 0 <= k < |idx.tallies| ==> |idx.tallies[k]| == |idx.bwt|
    requires Indexable(idx, idx.bwt[i])
    ensures var c := idx.bwt[i];
      var lf := FirstRow(idx, c) + RankBefore(idx, c, i + 1) - 1;
      0 <= lf < |idx.bwt| && idx.suffixArray[lf] == Prev(idx.suffixArray[i], |idx.bwt|)
  {
    TableLookups(idx, text, idx.bwt[i], i + 1, i + 1);
    LfOfCounts(idx, text, i);
  }

  /**
   * Last-to-first mapping of row `i`: the sentinel maps to row 0; any other
   * symbol `c` maps to the first row starting with `c` plus the number of
   * copies of `c` in the transform up to row `i`, less one.
   */
  function LfMapping(idx: FMIndex, ghost text: seq<char>, i: nat): (r: nat)
    requires Describes(idx, text) && i < |idx.bwt|
    ensures r < |idx.bwt|
  {
    TableShape(idx, text, i);
    var c := idx.bwt[i];
    if c == Sentinel then 0
    else
      LfTableValue(idx, text, i);
      FirstRow(idx, c) + RankBefore(idx, c, i + 1) - 1
  }

  lemma LfPrevSentinel(idx: FMIndex, text: seq<char>, i: nat)
    requires Describes(idx, text) && i < |idx.bwt| && idx.bwt[i] == Sentinel
    ensures idx.suffixArray[LfMapping(idx, text, i)] == Prev(idx.suffixArray[i], |idx.bwt|)
  {
    LfSentinel(Extend(text), idx.suffixArray, idx.bwt, i);
  }

  lemma LfPrevSymbol(idx: FMIndex, text: seq<char>, i: nat)
    requires Describes(idx, text) && i < |idx.bwt| && idx.bwt[i] != Sentinel
    ensures idx.suffixArray[LfMapping(idx, text, i)] == Prev(idx.suffixArray[i], |idx.bwt|)
  {
    TableShape(idx, text, i);
    LfTableValue(idx, text, i);
  }

  /** The mapped row starts one position earlier in the cyclic text. */
  lemma LfPrev(idx: FMIndex, text: seq<char>, i: nat)
    requires Describes(idx, text) && i < |idx.bwt|
    ensures idx.suffixArray[LfMapping(idx, text, i)] == Prev(idx.suffixArray[i], |idx.bwt|)
  {
    if idx.bwt[i] == Sentinel {
      LfPrevSentinel(idx, text, i);
    } else {
      LfPrevSymbol(idx, text, i);
    }
  }

  /** Turning a rotation right by one symbol gives the rotation starting one position earlier. */
  lemma RotateRight(ext: seq<Sym>, q: nat)
    requires q < |ext|
    ensures var n := |ext|; var row := Rotation(ext, q);
      Rotation(ext, Prev(q, n)) == [row[n - 1]] + row[..n - 1]
  {
    var n := |ext|;
    var row := Rotation(ext, q);
    if q == 0 {
      assert row == ext;
      assert Rotation(ext, n - 1) == [ext[n - 1]] + ext[..n - 1];
    } else {
      assert row[n - 1] == ext[q - 1];
      assert row[..n - 1] == ext[q..] + ext[..q - 1];
      assert ext[q - 1..] == [ext[q - 1]] + ext[q..];
    }
  }

  /** Matrix row `j`, when it starts one position before row `i`, is row `i` turned right by one symbol. */
  lemma MatrixRowTurned(idx: FMIndex, text: seq<char>, i: nat, j: nat)
    requires Describes(idx, text) && i < |idx.bwt| && j < |idx.bwt|
    requires idx.suffixArray[j] == Prev(idx.suffixArray[i], |idx.bwt|)
    ensures SuffixArrayBuilt in idx.done
    ensures forall q :: 0 <= q < |idx.suffixArray| ==> idx.suffixArray[q] <= |text|
    ensures var n := |idx.bwt|; var bwm := Matrix(idx, text);
      |bwm| == n && bwm[j] == [bwm[i][n - 1]] + bwm[i][..n - 1]
  {
    RotateRight(Extend(text), idx.suffixArray[i]);
  }

  lemma LfModulo(idx: FMIndex, text: seq<char>, i: nat)
    requires Describes(idx, text) && i < |idx.bwt|
    ensures var n := |idx.bwt|;
      idx.suffixArray[LfMapping(idx, text, i)] == (idx.suffixArray[i] + n - 1) % n
  {
    LfPrev(idx, text, i);
    PrevByModulo(idx.suffixArray[i], |idx.bwt|);
  }

  lemma LfTurnsRow(idx: FMIndex, text: seq<char>, i: nat)
    requires Describes(idx, text) && i < |idx.bwt|
    ensures SuffixArrayBuilt in idx.done
    ensures forall j :: 0 <= j < |idx.suffixArray| ==> idx.suffixArray[j] <= |text|
    ensures var n := |idx.bwt|; var bwm := Matrix(idx, text);
      |bwm| == n && bwm[LfMapping(idx, text, i)] == [bwm[i][n - 1]] + bwm[i][..n - 1]
  {
    LfPrev(idx, text, i);
    MatrixRowTurned(idx, text, i, LfMapping(idx, text, i));
  }

  /**
   * `lf(i)` starts one position before row `i` in the cyclic text, and its
   * matrix row is row `i` turned right by one symbol.
   */
  lemma LfMappingCorrect(idx: FMIndex, text: seq<char>, i: nat)
    requires Describes(idx, text) && i < |idx.bwt|
    ensures var n := |idx.bwt|;
      idx.suffixArray[LfMapping(idx, text, i)] == (idx.suffixArray[i] + n - 1) % n
    ensures SuffixArrayBuilt in idx.done
    ensures forall j :: 0 <= j < |idx.suffixArray| ==> idx.suffixArray[j] <= |text|
    ensures var n := |idx.bwt|; var bwm := Matrix(idx, text);
      |bwm| == n && bwm[LfMapping(idx, text, i)] == [bwm[i][n - 1]] + bwm[i][..n - 1]
  {
    LfModulo(idx, text, i);
    LfTurnsRow(idx, text, i);
  }

  /** Two rows with the same image are the same row. */
  lemma LfInjectivePair(idx: FMIndex, text: seq<char>, i: nat, j: nat)
    requires Describes(idx, text) && i < |idx.bwt| && j < |idx.bwt|
    requires LfMapping(idx, text, i) == LfMapping(idx, text, j)
    ensures i == j
  {
    LfPrev(idx, text, i);
    LfPrev(idx, text, j);
    PrevInjective(idx.suffixArray[i], idx.suffixArray[j], |idx.bwt|);
  }

  /** The row starting one position after row `j` maps to row `j`. */
  lemma LfPreimage(idx: FMIndex, text: seq<char>, j: nat) returns (i: nat)
    requires Describes(idx, text) && j < |idx.bwt|
    ensures i < |idx.bwt| && LfMapping(idx, text, i) == j
  {
    var sa := idx.suffixArray;
    i := RowOf(sa, Next(sa[j], |idx.bwt|));
    LfPrev(idx, text, i);
  }

  /** The rows last-to-first mapping reaches. */
  function LfImage(idx: FMIndex, ghost text: seq<char>): set<nat>
    requires Describes(idx, text)
  {
    set i | 0 <= i < |idx.bwt| :: LfMapping(idx, text, i)
  }

  /** Last-to-first mapping is a bijection on the rows: no two rows share an image and every row is one. */
  lemma LfBijective(idx: FMIndex, text: seq<char>)
    requires Describes(idx, text)
    ensures forall i, j :: 0 <= i < |idx.bwt| && 0 <= j < |idx.bwt| && LfMapping(idx, text, i) == LfMapping(idx, text, j) ==> i == j
    ensures forall j :: 0 <= j < |idx.bwt| ==> j in LfImage(idx, text)
  {
    forall i, j | 0 <= i < |idx.bwt| && 0 <= j < |idx.bwt| && LfMapping(idx, text, i) == LfMapping(idx, text, j)
      ensures i == j
    {
      LfInjectivePair(idx, text, i, j);
    }
    forall j | 0 <= j < |idx.bwt|
      ensures j in LfImage(idx, text)
    {
      var i := LfPreimage(idx, text, j);
    }
  }

  /** The last-to-first mapping of every row, as a table. */
  function LfTable(idx: FMIndex, ghost text: seq<char>): (lf: seq<nat>)
    requires Describes(idx, text)
    ensures |lf| == |idx.bwt|
    ensures forall j :: 0 <= j < |lf| ==> lf[j] == LfMapping(idx, text, j)
  {
    seq(|idx.bwt|, j requires 0 <= j < |idx.bwt| => LfMapping(idx, text, j))
  }

  /** A table whose entries are rows of the table. */
  predicate Closed(lf: seq<nat>) {
    forall j :: 0 <= j < |lf| ==> lf[j] < |lf|
  }

  /** `k` steps through the table `lf`, starting at row `i`. */
  function Walk(lf: seq<nat>, i: nat, k: nat): (r: nat)
    requires Closed(lf) && i < |lf|
    ensures r < |lf|
  {
    if k == 0 then i else lf[Walk(lf, i, k - 1)]
  }

  /** `k` applications of last-to-first mapping, starting at row `i`. */
  function LfIterate(idx: FMIndex, ghost text: seq<char>, i: nat, k: nat): (r: nat)
    requires Describes(idx, text) && i < |idx.bwt|
    ensures r < |idx.bwt|
  {
    Walk(LfTable(idx, text), i, k)
  }

  /** The cyclic position `k` steps before `q`, for `k <= n`. */
  function Back(q: nat, n: nat, k: nat): nat
    requires q < n && k <= n
  {
    if k <= q then q - k else q + n - k
  }

  lemma BackStep(q: nat, n: nat, k: nat)
    requires q < n && k < n
    ensures Back(q, n, k) < n && Prev(Back(q, n, k), n) == Back(q, n, k + 1)
  {
  }

  /** Each step of the table `lf` moves one position back in the cyclic text, as `sa` reads it. */
  ghost predicate StepsBack(lf: seq<nat>, sa: seq<nat>) {
    && |lf| == |sa|
    && (forall j :: 0 <= j < |sa| ==> lf[j] < |sa|)
    && (forall j :: 0 <= j < |sa| ==> sa[j] < |sa|)
    && (forall j {:trigger lf[j]} :: 0 <= j < |sa| ==> sa[lf[j]] == Prev(sa[j], |sa|))
  }

  /** After `k <= n` steps through a table that steps back, the row starts `k` positions earlier. */
  lemma {:induction false} WalkShift(lf: seq<nat>, sa: seq<nat>, i: nat, k: nat)
    requires StepsBack(lf, sa) && i < |lf| && k <= |lf|
    ensures Closed(lf)
    ensures sa[Walk(lf, i, k)] == Back(sa[i], |sa|, k)
    decreases k
  {
    if k > 0 {
      WalkShift(lf, sa, i, k - 1);
      WalkStep(lf, sa, i, k - 1);
    }
  }

  /** One more step through a table that steps back moves one more position back. */
  lemma WalkStep(lf: seq<nat>, sa: seq<nat>, i: nat, k: nat)
    requires StepsBack(lf, sa) && i < |lf| && k < |lf|
    requires Closed(lf) && sa[Walk(lf, i, k)] == Back(sa[i], |sa|, k)
    ensures sa[Walk(lf, i, k + 1)] == Back(sa[i], |sa|, k + 1)
  {
    var r := Walk(lf, i, k);
    assert Walk(lf, i, k + 1) == lf[r];
    BackStep(sa[i], |sa|, k);
  }

  /** The last-to-first table steps back through the suffix array. */
  lemma LfTableStepsBack(idx: FMIndex, text: seq<char>)
    requires Describes(idx, text)
    ensures StepsBack(LfTable(idx, text), idx.suffixArray)
  {
    forall j | 0 <= j < |idx.bwt|
      ensures idx.suffixArray[LfMapping(idx, text, j)] == Prev(idx.suffixArray[j], |idx.bwt|)
    {
      LfPrev(idx, text, j);
    }
  }

  /** After `k <= n` steps from row `i`, the row starts `k` positions earlier, cyclically. */
  lemma LfIterateShift(idx: FMIndex, text: seq<char>, i: nat, k: nat)
    requires Describes(idx, text) && i < |idx.bwt| && k <= |idx.bwt|
    ensures idx.suffixArray[i] < |idx.bwt|
    ensures idx.suffixArray[LfIterate(idx, text, i, k)] == Back(idx.suffixArray[i], |idx.bwt|, k)
  {
    LfTableStepsBack(idx, text);
    WalkShift(LfTable(idx, text), idx.suffixArray, i, k);
  }

  /** Distinct step counts below `n` give distinct rows. */
  lemma LfIterateDistinct(idx: FMIndex, text: seq<char>, i: nat, k1: nat, k2: nat)
    requires Describes(idx, text) && i < |idx.bwt| && k1 < k2 < |idx.bwt|
    ensures LfIterate(idx, text, i, k1) != LfIterate(idx, text, i, k2)
  {
    LfIterateShift(idx, text, i, k1);
    LfIterateShift(idx, text, i, k2);
  }

  /** Step `n` comes back to the start. */
  lemma LfIterateReturns(idx: FMIndex, text: seq<char>, i: nat)
    requires Describes(idx, text) && i < |idx.bwt|
    ensures LfIterate(idx, text, i, |idx.bwt|) == i
  {
    LfIterateShift(idx, text, i, |idx.bwt|);
    var r := LfIterate(idx, text, i, |idx.bwt|);
    assert idx.suffixArray[r] == idx.suffixArray[i];
  }

  /**
   * Last-to-first mapping is a single cycle: from any row, the first `n`
   * steps visit `n` distinct rows and step `n` returns to the start.
   */
  lemma LfSingleCycle(idx: FMIndex, text: seq<char>, i: nat)
    requires Describes(idx, text) && i < |idx.bwt|
    ensures LfIterate(idx, text, i, |idx.bwt|) == i
    ensures forall k1, k2 :: 0 <= k1 < k2 < |idx.bwt| ==> LfIterate(idx, text, i, k1) != LfIterate(idx, text, i, k2)
  {
    LfIterateReturns(idx, text, i);
    forall k1, k2 | 0 <= k1 < k2 < |idx.bwt|
      ensures LfIterate(idx, text, i, k1) != LfIterate(idx, text, i, k2)
    {
      LfIterateDistinct(idx, text, i, k1, k2);
    }
  }

  // ---------------------------------------------------------------------
  // Inverse transform
  // ---------------------------------------------------------------------

  /** The row whose transform symbol is the sentinel is the row of the whole text. */
  lemma SentinelRowStartsText(idx: FMIndex, text: seq<char>, row: nat)
    requires Describes(idx, text) && row < |idx.bwt| && idx.bwt[row] == Sentinel
    ensures idx.suffixArray[row] == 0
  {
    var ext := Extend(text);
    assert ext[Prev(idx.suffixArray[row], |ext|)] == Sentinel;
  }

  /** The sentinel occurs in the transform of a built index. */
  lemma SentinelInBwt(idx: FMIndex, text: seq<char>)
    requires Describes(idx, text)
    ensures Sentinel in idx.bwt
  {
    SentinelOnce(Extend(text), idx.suffixArray, idx.bwt);
    OccZeroIffAbsent(idx.bwt, Sentinel);
  }

  /** Position `q` of the terminated text is read in the row starting just after it. */
  lemma SymbolAt(idx: FMIndex, text: seq<char>, q: nat)
    requires Describes(idx, text) && q < |idx.bwt|
    ensures Extend(text)[q] == idx.bwt[RowOf(idx.suffixArray, Next(q, |idx.bwt|))]
  {
  }

  /** An index describes at most one text. */
  lemma TextDetermined(idx: FMIndex, t1: seq<char>, t2: seq<char>)
    requires Describes(idx, t1) && Describes(idx, t2)
    ensures t1 == t2
  {
    var e1 := Extend(t1);
    var e2 := Extend(t2);
    forall q | 0 <= q < |e1|
      ensures e1[q] == e2[q]
    {
      SymbolAt(idx, t1, q);
      SymbolAt(idx, t2, q);
    }
    assert e1 == e2;
    forall q | 0 <= q < |t1|
      ensures t1[q] == t2[q]
    {
      assert e1[q] == Ch(t1[q]) && e2[q] == Ch(t2[q]);
    }
  }

  /** The transform symbol of a row is the text symbol just before the row's start. */
  lemma BwtAt(idx: FMIndex, text: seq<char>, row: nat)
    requires Describes(idx, text) && row < |idx.bwt|
    ensures idx.suffixArray[row] < |idx.bwt|
    ensures idx.bwt[row] == Extend(text)[Prev(idx.suffixArray[row], |idx.bwt|)]
  {
  }

  /** Prepending the symbol before a suffix gives the next longer suffix. */
  lemma PrependSymbol(ext: seq<Sym>, k: nat, acc: seq<Sym>)
    requires k < |ext| && acc == ext[|ext| - k..]
    ensures [ext[|ext| - k - 1]] + acc == ext[|ext| - k - 1..]
  {
    assert ext[|ext| - k - 1..] == [ext[|ext| - k - 1]] + ext[|ext| - k..];
  }

  /** One step of the inverse transform prepends the text symbol just before the current row's start. */
  lemma ReadStep(idx: FMIndex, text: seq<char>, row: nat, k: nat, acc: seq<Sym>)
    requires Describes(idx, text) && row < |idx.bwt| && k < |idx.bwt|
    requires idx.suffixArray[row] == if k == 0 then 0 else |idx.bwt| - k
    requires acc == Extend(text)[|idx.bwt| - k..]
    ensures [idx.bwt[row]] + acc == Extend(text)[|idx.bwt| - k - 1..]
    ensures idx.suffixArray[LfMapping(idx, text, row)] == |idx.bwt| - k - 1
  {
    BwtAt(idx, text, row);
    PrependSymbol(Extend(text), k, acc);
    LfPrev(idx, text, row);
  }

  lemma RenderExtend(text: seq<char>)
    ensures RenderAll(Extend(text)[..|text|]) == text
  {
  }

  /**
   * The inverse transform: from the row holding the sentinel, reads the
   * transform symbol of the current row and follows last-to-first mapping,
   * `n` times; the symbols read, last first, spell the terminated text, and
   * dropping the sentinel gives the text back.
   */
  method InverseBwt(idx: FMIndex, ghost text: seq<char>) returns (r: seq<char>)
    requires Describes(idx, text)
    ensures r == text
  {
    var n := |idx.bwt|;
    SentinelInBwt(idx, text);
    var row: nat := 0;
    while idx.bwt[row] != Sentinel
      invariant row < n && Sentinel in idx.bwt[row..]
      decreases n - row
    {
      assert idx.bwt[row..] == [idx.bwt[row]] + idx.bwt[row + 1..];
      row := row + 1;
    }
    SentinelRowStartsText(idx, text, row);
    var acc: seq<Sym> := [];
    var k := 0;
    while k < n
      invariant k <= n && row < n
      invariant idx.suffixArray[row] == if k == 0 then 0 else n - k
      invariant acc == Extend(text)[n - k..]
    {
      ReadStep(idx, text, row, k, acc);
      acc := [idx.bwt[row]] + acc;
      row := LfMapping(idx, text, row);
      k := k + 1;
    }
    RenderExtend(text);
    r := RenderAll(acc[..n - 1]);
  }

  // ---------------------------------------------------------------------
  // Backward search
  // ---------------------------------------------------------------------

  /** A pattern as symbols: the sentinel character reads as the sentinel. */
  function PatternSyms(p: seq<char>): (P: seq<Sym>)
    ensures |P| == |p|
    ensures forall j :: 0 <= j < |p| ==> P[j] == ToSym(p[j])
  {
    seq(|p|, j requires 0 <= j < |p| => ToSym(p[j]))
  }

  lemma PatternCons(p: seq<char>)
    requires |p| > 0
    ensures PatternSyms(p) == [ToSym(p[0])] + PatternSyms(p[1..])
  {
  }

  /** A non-empty narrowed interval ends inside the matrix. */
  lemma StepInRange(idx: FMIndex, text: seq<char>, c: Sym, top: nat, bottom: nat)
    requires Describes(idx, text) && top <= bottom < |idx.bwt| && Indexable(idx, c)
    requires |idx.counts| == |idx.alphabet| == |idx.tallies|
    requires forall k :: 0 <= k < |idx.tallies| ==> |idx.tallies[k]| == |idx.bwt|
    requires RankBefore(idx, c, top) < RankBefore(idx, c, bottom + 1)
    ensures FirstRow(idx, c) + RankBefore(idx, c, bottom + 1) <= |idx.bwt|
  {
    TableLookups(idx, text, c, top, bottom + 1);
    IntervalEndBound(Extend(text), idx.suffixArray, idx.bwt, c, top, bottom);
  }

  /**
   * Rows `top..bottom` narrowed to the rows whose transform symbol is `c`,
   * mapped to the rows they turn into. The step is empty when no copy of `c`
   * lies in the rows; that is decided on the ranks, before one is subtracted,
   * so no bound ever goes below zero.
   */
  function SearchStep(idx: FMIndex, ghost text: seq<char>, c: Sym, top: nat, bottom: nat): (r: Option<(nat, nat)>)
    requires Describes(idx, text) && top <= bottom < |idx.bwt|
    ensures r.Some? ==> r.value.0 <= r.value.1 < |idx.bwt|
  {
    TableShape(idx, text, 0);
    if !Indexable(idx, c) then None
    else
      var before := RankBefore(idx, c, top);
      var through := RankBefore(idx, c, bottom + 1);
      if before >= through then None
      else
        StepInRange(idx, text, c, top, bottom);
        Some((FirstRow(idx, c) + before, FirstRow(idx, c) + through - 1))
  }

  /**
   * Backward search: the pattern is read from its last character to its
   * first, narrowing the interval of rows that start with the part read so
   * far; the empty pattern matches every row.
   */
  function BackwardSearch(idx: FMIndex, ghost text: seq<char>, p: seq<char>): (r: Option<(nat, nat)>)
    requires Describes(idx, text)
    ensures r.Some? ==> r.value.0 <= r.value.1 < |idx.bwt|
    decreases |p|
  {
    if |p| == 0 then Some((0, |idx.bwt| - 1))
    else
      match BackwardSearch(idx, text, p[1..])
      case None => None
      case Some((top, bottom)) => SearchStep(idx, text, ToSym(p[0]), top, bottom)
  }

  /** `r` answers the search for `P`: an interval holding exactly the matching rows, or none when no row matches. */
  ghost predicate SearchAnswer(ext: seq<Sym>, sa: seq<nat>, P: seq<Sym>, r: Option<(nat, nat)>)
    requires IsPermutation(sa, |ext|)
  {
    match r
    case Some((s, e)) => MatchInterval(ext, sa, P, s, e)
    case None => forall row :: 0 <= row < |ext| ==> !CyclicOcc(ext, sa[row], P)
  }

  /** A row starting with `[c] + P` is followed, one position later, by a row starting with `P`. */
  lemma TailRow(ext: seq<Sym>, sa: seq<nat>, c: Sym, P: seq<Sym>, row: nat)
    requires IsPermutation(sa, |ext|) && row < |ext|
    ensures CyclicOcc(ext, sa[row], [c] + P) ==> exists r :: 0 <= r < |ext| && CyclicOcc(ext, sa[r], P)
  {
    if CyclicOcc(ext, sa[row], [c] + P) {
      CyclicTail(ext, sa[row], c, P);
      var r := RowOf(sa, Next(sa[row], |ext|));
      assert CyclicOcc(ext, sa[r], P);
    }
  }

  /** When no row starts with `P`, no row starts with `[c] + P`. */
  lemma NoMatchExtends(ext: seq<Sym>, sa: seq<nat>, c: Sym, P: seq<Sym>)
    requires IsPermutation(sa, |ext|)
    requires forall row :: 0 <= row < |ext| ==> !CyclicOcc(ext, sa[row], P)
    ensures forall row :: 0 <= row < |ext| ==> !CyclicOcc(ext, sa[row], [c] + P)
  {
    forall row | 0 <= row < |ext|
      ensures !CyclicOcc(ext, sa[row], [c] + P)
    {
      TailRow(ext, sa, c, P, row);
    }
  }

  /** A row starting with `c` shows `c` is indexable. */
  lemma HeadIndexable(idx: FMIndex, text: seq<char>, c: Sym, P: seq<Sym>, row: nat)
    requires Describes(idx, text) && row < |idx.bwt|
    ensures CyclicOcc(Extend(text), idx.suffixArray[row], [c] + P) ==> Indexable(idx, c)
  {
    var ext := Extend(text);
    if CyclicOcc(ext, idx.suffixArray[row], [c] + P) {
      CyclicTail(ext, idx.suffixArray[row], c, P);
      if c.Ch? {
        assert text[idx.suffixArray[row]] in idx.alphabet;
      }
    }
  }

  /** A character outside the alphabet starts no row. */
  lemma UnknownNoMatch(idx: FMIndex, text: seq<char>, c: Sym, P: seq<Sym>)
    requires Describes(idx, text) && !Indexable(idx, c)
    ensures IsPermutation(idx.suffixArray, |Extend(text)|)
    ensures forall row :: 0 <= row < |Extend(text)| ==> !CyclicOcc(Extend(text), idx.suffixArray[row], [c] + P)
  {
    forall row | 0 <= row < |Extend(text)|
      ensures !CyclicOcc(Extend(text), idx.suffixArray[row], [c] + P)
    {
      HeadIndexable(idx, text, c, P, row);
    }
  }

  /** The step's bounds, read from the tables, are the bounds of the generic step. */
  lemma StepBounds(idx: FMIndex, text: seq<char>, c: Sym, top: nat, bottom: nat)
    requires Describes(idx, text) && top <= bottom < |idx.bwt| && Indexable(idx, c)
    ensures |idx.counts| == |idx.alphabet| == |idx.tallies|
    ensures forall k :: 0 <= k < |idx.tallies| ==> |idx.tallies[k]| == |idx.bwt|
    ensures FirstRow(idx, c) + RankBefore(idx, c, top) == OccBelow(Extend(text), c) + Occ(idx.bwt[..top], c)
    ensures FirstRow(idx, c) + RankBefore(idx, c, bottom + 1) == OccBelow(Extend(text), c) + Occ(idx.bwt[..bottom + 1], c)
  {
    TableShape(idx, text, 0);
    TableLookups(idx, text, c, top, bottom + 1);
  }

  /** For an indexable symbol, the step's interval holds exactly the rows starting with `[c] + P`. */
  lemma StepAnswerKnown(idx: FMIndex, text: seq<char>, c: Sym, P: seq<Sym>, top: nat, bottom: nat)
    requires Describes(idx, text) && top <= bottom < |idx.bwt| && Indexable(idx, c)
    requires MatchInterval(Extend(text), idx.suffixArray, P, top, bottom)
    ensures SearchAnswer(Extend(text), idx.suffixArray, [c] + P, SearchStep(idx, text, c, top, bottom))
  {
    StepBounds(idx, text, c, top, bottom);
    BackwardStep(Extend(text), idx.suffixArray, idx.bwt, c, P, top, bottom);
  }

  /** One search step answers for `[c] + P` when its input interval answers for `P`. */
  lemma StepAnswer(idx: FMIndex, text: seq<char>, c: Sym, P: seq<Sym>, top: nat, bottom: nat)
    requires Describes(idx, text) && top <= bottom < |idx.bwt|
    requires MatchInterval(Extend(text), idx.suffixArray, P, top, bottom)
    ensures SearchAnswer(Extend(text), idx.suffixArray, [c] + P, SearchStep(idx, text, c, top, bottom))
  {
    if Indexable(idx, c) {
      StepAnswerKnown(idx, text, c, P, top, bottom);
    } else {
      UnknownNoMatch(idx, text, c, P);
    }
  }

  /**
   * Backward search is correct: an interval it returns holds exactly the
   * rows whose cyclic reading starts with the pattern, and it returns none
   * exactly when no row does.
   */
  lemma {:induction false} BackwardSearchCorrect(idx: FMIndex, text: seq<char>, p: seq<char>)
    requires Describes(idx, text)
    ensures IsPermutation(idx.suffixArray, |Extend(text)|)
    ensures SearchAnswer(Extend(text), idx.suffixArray, PatternSyms(p), BackwardSearch(idx, text, p))
    decreases |p|
  {
    if |p| > 0 {
      BackwardSearchCorrect(idx, text, p[1..]);
      PatternCons(p);
      var tail := PatternSyms(p[1..]);
      match BackwardSearch(idx, text, p[1..])
      case None =>
        NoMatchExtends(Extend(text), idx.suffixArray, ToSym(p[0]), tail);
      case Some((top, bottom)) =>
        StepAnswer(idx, text, ToSym(p[0]), tail, top, bottom);
    }
  }

  /** The sentinel step from the whole matrix keeps only row 0. */
  lemma SentinelStep(idx: FMIndex, text: seq<char>)
    requires Describes(idx, text)
    ensures SearchStep(idx, text, Sentinel, 0, |idx.bwt| - 1) == Some((0, 0))
  {
    var n := |idx.bwt|;
    SentinelInBwt(idx, text);
    SentinelOnce(Extend(text), idx.suffixArray, idx.bwt);
    assert idx.bwt[..n] == idx.bwt;
  }

  /** The single-symbol pattern made of the sentinel matches exactly row 0. */
  lemma SentinelPattern(idx: FMIndex, text: seq<char>)
    requires Describes(idx, text)
    ensures BackwardSearch(idx, text, [SENTINEL]) == Some((0, 0))
  {
    SentinelStep(idx, text);
    assert [SENTINEL][1..] == [];
  }

  /** For patterns no longer than the terminated text, reading `P` cyclically at `q` means the rotation at `q` starts with `P`. */
  lemma {:induction false} CyclicOccIsRotationPrefix(ext: seq<Sym>, q: nat, P: seq<Sym>)
    requires q < |ext| && |P| <= |ext|
    ensures CyclicOcc(ext, q, P) <==> P <= Rotation(ext, q)
    decreases |P|
  {
    if |P| > 0 {
      var n := |ext|;
      var rot := Rotation(ext, q);
      var nxt := Rotation(ext, Next(q, n));
      CyclicOccIsRotationPrefix(ext, Next(q, n), P[1..]);
      assert rot[0] == ext[q];
      assert rot[1..] == nxt[..n - 1] by {
        if q == n - 1 {
          assert nxt == ext;
        } else {
          assert nxt == ext[q + 1..] + ext[..q + 1];
        }
      }
      assert P <= rot <==> P[0] == rot[0] && P[1..] <= rot[1..];
      assert P[1..] <= rot[1..] <==> P[1..] <= nxt;
    }
  }

  /**
   * In matrix terms, for a pattern no longer than the terminated text: an
   * interval backward search returns is exactly the matrix rows starting
   * with the pattern, and it returns none exactly when no row does.
   */
  lemma BackwardSearchRows(idx: FMIndex, text: seq<char>, p: seq<char>)
    requires Describes(idx, text) && |p| <= |text| + 1
    ensures SuffixArrayBuilt in idx.done
    ensures forall j :: 0 <= j < |idx.suffixArray| ==> idx.suffixArray[j] <= |text|
    ensures var bwm := Matrix(idx, text); var r := BackwardSearch(idx, text, p);
      && |bwm| == |text| + 1
      && (r.Some? ==> forall row :: 0 <= row < |bwm| ==> (r.value.0 <= row <= r.value.1 <==> PatternSyms(p) <= bwm[row]))
      && (r.None? ==> forall row :: 0 <= row < |bwm| ==> !(PatternSyms(p) <= bwm[row]))
  {
    BackwardSearchCorrect(idx, text, p);
    var ext := Extend(text);
    forall row | 0 <= row < |ext|
      ensures CyclicOcc(ext, idx.suffixArray[row], PatternSyms(p)) <==> PatternSyms(p) <= Matrix(idx, text)[row]
    {
      CyclicOccIsRotationPrefix(ext, idx.suffixArray[row], PatternSyms(p));
    }
  }

  // ---------------------------------------------------------------------
  // Counting
  // ---------------------------------------------------------------------

  /** The number of occurrences of `p`: the width of the interval backward search returns, or 0. */
  function CountOccurrences(idx: FMIndex, ghost text: seq<char>, p: seq<char>): (r: nat)
    requires Describes(idx, text)
    ensures r <= |idx.bwt|
    ensures r == 0 <==> BackwardSearch(idx, text, p).None?
  {
    Width(BackwardSearch(idx, text, p))
  }

  /** The number of rows of an interval, 0 for none. */
  function Width(r: Option<(nat, nat)>): nat {
    match r
    case None => 0
    case Some((s, e)) => if s <= e then e - s + 1 else 0
  }

  /** The rows whose cyclic reading starts with `P`. */
  function MatchingRows(ext: seq<Sym>, sa: seq<nat>, P: seq<Sym>): set<int> {
    set row | 0 <= row < |sa| && sa[row] < |ext| && CyclicOcc(ext, sa[row], P)
  }

  /** The start positions of `P` in the cyclic terminated text. */
  function MatchingPositions(ext: seq<Sym>, P: seq<Sym>): set<int> {
    set q | 0 <= q < |ext| && CyclicOcc(ext, q, P)
  }

  /** The brute-force count: positions of `text` where `p` starts. */
  function NaiveCount(text: seq<char>, p: seq<char>): nat {
    |set q | q in Range(0, |text| + 1) && p <= text[q..]|
  }

  /** An interval that holds exactly the matching rows is the set of matching rows. */
  lemma IntervalRows(ext: seq<Sym>, sa: seq<nat>, P: seq<Sym>, s: nat, e: nat)
    requires IsPermutation(sa, |ext|) && MatchInterval(ext, sa, P, s, e) && e < |ext|
    ensures MatchingRows(ext, sa, P) == Range(s, e + 1)
  {
    forall x
      ensures x in MatchingRows(ext, sa, P) <==> x in Range(s, e + 1)
    {
      if 0 <= x < |ext| {
        assert s <= x <= e <==> CyclicOcc(ext, sa[x], P);
      }
    }
  }

  /** When no row matches, the set of matching rows is empty. */
  lemma NoRows(ext: seq<Sym>, sa: seq<nat>, P: seq<Sym>)
    requires IsPermutation(sa, |ext|)
    requires forall row :: 0 <= row < |ext| ==> !CyclicOcc(ext, sa[row], P)
    ensures MatchingRows(ext, sa, P) == {}
  {
  }

  /** The width of an answered search is the number of matching rows. */
  lemma AnswerWidth(ext: seq<Sym>, sa: seq<nat>, P: seq<Sym>, r: Option<(nat, nat)>)
    requires IsPermutation(sa, |ext|) && SearchAnswer(ext, sa, P, r)
    requires r.Some? ==> r.value.0 <= r.value.1 < |ext|
    ensures Width(r) == |MatchingRows(ext, sa, P)|
  {
    match r
    case None =>
      NoRows(ext, sa, P);
    case Some((s, e)) =>
      IntervalWidth(ext, sa, P, s, e);
  }

  lemma IntervalWidth(ext: seq<Sym>, sa: seq<nat>, P: seq<Sym>, s: nat, e: nat)
    requires IsPermutation(sa, |ext|) && MatchInterval(ext, sa, P, s, e) && s <= e < |ext|
    ensures |MatchingRows(ext, sa, P)| == e - s + 1
  {
    IntervalRows(ext, sa, P, s, e);
    RangeCard(s, e + 1);
  }

  /** The count is the number of matching rows. */
  lemma CountIsMatchingRows(idx: FMIndex, text: seq<char>, p: seq<char>)
    requires Describes(idx, text)
    ensures CountOccurrences(idx, text, p) == |MatchingRows(Extend(text), idx.suffixArray, PatternSyms(p))|
  {
    BackwardSearchCorrect(idx, text, p);
    AnswerWidth(Extend(text), idx.suffixArray, PatternSyms(p), BackwardSearch(idx, text, p));
  }

  /** Rows and start positions correspond through the suffix array. */
  lemma RowsToPositions(ext: seq<Sym>, sa: seq<nat>, P: seq<Sym>)
    requires IsPermutation(sa, |ext|)
    ensures |MatchingRows(ext, sa, P)| == |MatchingPositions(ext, P)|
  {
    var rows := MatchingRows(ext, sa, P);
    var f := (row: int) => if 0 <= row < |sa| then sa[row] as int else -1;
    assert InjectiveOn(rows, f);
    ImageCard(rows, f);
    var img := set x | x in rows :: f(x);
    forall q | q in MatchingPositions(ext, P)
      ensures q in img
    {
      var row := RowOf(sa, q);
      assert f(row) == q;
    }
    assert img == MatchingPositions(ext, P);
  }

  /** For a pattern without the sentinel character, a cyclic match is a plain match in the text. */
  lemma {:induction false} CyclicOccIffSubstring(text: seq<char>, q: nat, p: seq<char>)
    requires q <= |text| && SENTINEL !in p
    ensures CyclicOcc(Extend(text), q, PatternSyms(p)) <==> p <= text[q..]
    decreases |p|
  {
    var ext := Extend(text);
    if |p| > 0 {
      var P := PatternSyms(p);
      assert P[0] == Ch(p[0]);
      if q == |text| {
        assert ext[q] == Sentinel;
      } else {
        assert p[0] in p;
        CyclicOccIffSubstring(text, q + 1, p[1..]);
        PatternCons(p);
        assert P[1..] == PatternSyms(p[1..]);
        assert text[q..] == [text[q]] + text[q + 1..];
        assert p <= text[q..] <==> p[0] == text[q] && p[1..] <= text[q + 1..];
      }
    }
  }

  /** Without the sentinel character in the pattern, the cyclic start positions are the plain ones. */
  lemma PositionsAreNaive(text: seq<char>, p: seq<char>)
    requires SENTINEL !in p
    ensures |MatchingPositions(Extend(text), PatternSyms(p))| == NaiveCount(text, p)
  {
    var ext := Extend(text);
    forall q | 0 <= q < |ext|
      ensures CyclicOcc(ext, q, PatternSyms(p)) <==> p <= text[q..]
    {
      CyclicOccIffSubstring(text, q, p);
    }
    assert MatchingPositions(ext, PatternSyms(p)) == set q | q in Range(0, |text| + 1) && p <= text[q..];
  }

  /** For patterns without the sentinel character the count is the brute-force substring count. */
  lemma CountIsNaive(idx: FMIndex, text: seq<char>, p: seq<char>)
    requires Describes(idx, text) && SENTINEL !in p
    ensures CountOccurrences(idx, text, p) == NaiveCount(text, p)
  {
    CountIsMatchingRows(idx, text, p);
    RowsToPositions(Extend(text), idx.suffixArray, PatternSyms(p));
    PositionsAreNaive(text, p);
  }
}
