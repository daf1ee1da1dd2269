/**
 * Why last-to-first mapping and backward search work: each transform symbol
 * sits in a row whose rotation, turned right by one symbol, is the rotation of
 * another row, and the rows starting with one symbol keep the order of the
 * rows that end with it.
 */
module LastToFirst {
  import opened Symbols
  import opened Lex
  import opened Counting
  import opened SuffixArrays
  import opened Bwt

  /** The position cyclically after `q` in a text of length `n`. */
  function Next(q: nat, n: nat): nat
    requires q < n
  {
    if q == n - 1 then 0 else q + 1
  }

  /** The transform of a text's own suffix array. */
  function BwtOf(text: seq<char>): seq<Sym> {
    ConstructBwt(text, SuffixArray(text))
  }

  /**
   * `sa` sorts the suffixes of the terminated text `ext` and `bwt` holds, for
   * each row, the symbol cyclically before the row's start position.
   */
  ghost predicate Indexed(ext: seq<Sym>, sa: seq<nat>, bwt: seq<Sym>) {
    && SentinelTerminated(ext)
    && IsPermutation(sa, |ext|) && InBounds(ext, sa) && SortedSuffixes(ext, sa)
    && |bwt| == |ext|
    && forall i :: 0 <= i < |bwt| ==> bwt[i] == ext[Prev(sa[i], |ext|)]
  }

  /** A text, its suffix array and its transform are indexed. */
  lemma TextIndexed(text: seq<char>)
    ensures Indexed(Extend(text), SuffixArray(text), BwtOf(text))
  {
    ExtendIsSentinelTerminated(text);
  }

  lemma NothingBelowSentinel(s: seq<Sym>)
    ensures OccBelow(s, Sentinel) == 0
  {
  }

  /** A symbol that occurs once has no occurrence before its own position. */
  lemma OnlyOccurrence(s: seq<Sym>, i: nat, a: Sym)
    requires i < |s| && s[i] == a && Occ(s, a) == 1
    ensures Occ(s[..i], a) == 0
  {
    OccStep(s, i, a);
    OccMonotone(s, i + 1, |s|, a);
    assert s[..|s|] == s;
  }

  /** The sentinel occurs once in an indexed transform. */
  lemma SentinelOnce(ext: seq<Sym>, sa: seq<nat>, bwt: seq<Sym>)
    requires Indexed(ext, sa, bwt)
    ensures Occ(bwt, Sentinel) == 1
  {
    PermutedOcc(ext, sa, bwt, Sentinel);
    var n := |ext|;
    OccZeroIffAbsent(ext[..n - 1], Sentinel);
    assert ext[..n] == ext;
  }

  lemma LfSentinel(ext: seq<Sym>, sa: seq<nat>, bwt: seq<Sym>, i: nat)
    requires Indexed(ext, sa, bwt) && i < |ext| && bwt[i] == Sentinel
    ensures RowOf(sa, Prev(sa[i], |ext|)) == 0
    ensures OccBelow(ext, Sentinel) + Occ(bwt[..i], Sentinel) == 0
  {
    SentinelRowFirst(ext, sa);
    RowOfEntry(sa, |ext|, 0);
    NothingBelowSentinel(ext);
    SentinelOnce(ext, sa, bwt);
    OnlyOccurrence(bwt, i, Sentinel);
  }

  /** The suffixes below `q0`, whose first symbol is `c`: those starting lower, and those starting with `c` followed by a smaller suffix. */
  lemma SmallerSplit(ext: seq<Sym>, q0: nat, B: set<int>)
    requires SentinelTerminated(ext) && q0 < |ext| - 1
    requires B == set q | 0 <= q < |ext| - 1 && ext[q] == ext[q0] && SufLess(ext, q + 1, q0 + 1)
    ensures |SmallerSuffixes(ext, q0)| == OccBelow(ext, ext[q0]) + |B|
  {
    var A := BelowPositions(ext, ext[q0]);
    SmallerIsUnion(ext, q0, A, B);
    assert A * B == {} by {
      forall q | q in B
        ensures q !in A
      {
        assert ext[q] == ext[q0];
      }
    }
    BelowPositionsCard(ext, ext[q0]);
  }

  lemma SmallerIsUnion(ext: seq<Sym>, q0: nat, A: set<int>, B: set<int>)
    requires SentinelTerminated(ext) && q0 < |ext| - 1
    requires A == BelowPositions(ext, ext[q0])
    requires B == set q | 0 <= q < |ext| - 1 && ext[q] == ext[q0] && SufLess(ext, q + 1, q0 + 1)
    ensures SmallerSuffixes(ext, q0) == A + B
  {
    forall q | 0 <= q < |ext|
      ensures SufLess(ext, q, q0) <==> q in A || q in B
    {
      SufLessCons(ext, q, q0);
    }
  }

  /** An earlier row holding the same symbol starts one after a position holding it with a smaller successor suffix. */
  lemma EarlierRowToPosition(ext: seq<Sym>, sa: seq<nat>, bwt: seq<Sym>, i: nat, r: nat)
    requires Indexed(ext, sa, bwt) && i < |ext| && bwt[i].Ch?
    requires r < i && bwt[r] == bwt[i]
    ensures 1 <= sa[r] && ext[sa[r] - 1] == bwt[i] && SufLess(ext, sa[r], sa[i])
  {
    RowsBefore(ext, sa, r, i);
  }

  /** A position holding `bwt[i]` with a smaller successor suffix is one before the start of an earlier row holding it. */
  lemma PositionToEarlierRow(ext: seq<Sym>, sa: seq<nat>, bwt: seq<Sym>, i: nat, q: nat)
    requires Indexed(ext, sa, bwt) && i < |ext| && bwt[i].Ch?
    requires q < |ext| - 1 && ext[q] == bwt[i] && SufLess(ext, q + 1, sa[i])
    ensures q + 1 in sa && RowOf(sa, q + 1) < i && bwt[RowOf(sa, q + 1)] == bwt[i]
  {
    assert q + 1 in sa;
    var r := RowOf(sa, q + 1);
    RowsBefore(ext, sa, r, i);
  }

  /** Subtracting one from distinct start positions keeps them distinct. */
  lemma ShiftInjective(sa: seq<nat>, n: nat, D: set<int>, g: int -> int)
    requires IsPermutation(sa, n)
    requires forall r :: r in D ==> 0 <= r < n
    requires forall r :: 0 <= r < n ==> g(r) == sa[r] as int - 1
    ensures InjectiveOn(D, g)
  {
  }

  /** The earlier rows holding `bwt[i]`, moved one position back, are the positions `B` counts. */
  lemma ShiftImage(ext: seq<Sym>, sa: seq<nat>, bwt: seq<Sym>, i: nat, B: set<int>, D: set<int>, g: int -> int)
    requires Indexed(ext, sa, bwt) && i < |ext| && bwt[i].Ch?
    requires B == set q | 0 <= q < |ext| - 1 && ext[q] == bwt[i] && SufLess(ext, q + 1, sa[i])
    requires D == OccPositions(bwt[..i], bwt[i])
    requires forall r :: 0 <= r < |ext| ==> g(r) == sa[r] as int - 1
    ensures (set r | r in D :: g(r)) == B
  {
    var img := set r | r in D :: g(r);
    forall r | r in D
      ensures g(r) in B
    {
      EarlierRowToPosition(ext, sa, bwt, i, r);
    }
    forall q | q in B
      ensures q in img
    {
      PositionToEarlierRow(ext, sa, bwt, i, q);
      var r := RowOf(sa, q + 1);
      assert r in D && g(r) == q;
    }
  }

  /** The positions holding `bwt[i]` whose successor suffix is smaller correspond to the earlier rows holding it. */
  lemma SameSymbolBefore(ext: seq<Sym>, sa: seq<nat>, bwt: seq<Sym>, i: nat, B: set<int>)
    requires Indexed(ext, sa, bwt) && i < |ext| && bwt[i].Ch?
    requires B == set q | 0 <= q < |ext| - 1 && ext[q] == bwt[i] && SufLess(ext, q + 1, sa[i])
    ensures |B| == Occ(bwt[..i], bwt[i])
  {
    var n := |ext|;
    var D := OccPositions(bwt[..i], bwt[i]);
    var g := (r: int) => if 0 <= r < n then sa[r] as int - 1 else -1;
    ShiftInjective(sa, n, D, g);
    ImageCard(D, g);
    ShiftImage(ext, sa, bwt, i, B, D, g);
    OccPositionsCard(bwt[..i], bwt[i]);
  }

  /**
   * The rank theorem: the predecessor of row `i`'s start position sits in the
   * row numbered by the symbols that sort below `bwt[i]` plus the earlier
   * copies of `bwt[i]` in the transform.
   */
  lemma {:induction false} LfTheorem(ext: seq<Sym>, sa: seq<nat>, bwt: seq<Sym>, i: nat)
    requires Indexed(ext, sa, bwt) && i < |ext|
    ensures RowOf(sa, Prev(sa[i], |ext|)) == OccBelow(ext, bwt[i]) + Occ(bwt[..i], bwt[i])
  {
    if bwt[i] == Sentinel {
      LfSentinel(ext, sa, bwt, i);
    } else {
      var q0 := sa[i] - 1;
      RowIsRank(ext, sa, q0);
      var B := set q | 0 <= q < |ext| - 1 && ext[q] == bwt[i] && SufLess(ext, q + 1, sa[i]);
      SmallerSplit(ext, q0, B);
      SameSymbolBefore(ext, sa, bwt, i, B);
    }
  }

  /** Row `i` maps to the row whose rotation is row `i`'s rotation turned right by one symbol. */
  lemma LfIsPredecessorRow(ext: seq<Sym>, sa: seq<nat>, bwt: seq<Sym>, i: nat)
    requires Indexed(ext, sa, bwt) && i < |ext|
    ensures var c := bwt[i];
      var lf := OccBelow(ext, c) + Occ(bwt[..i + 1], c) - 1;
      0 <= lf < |ext| && sa[lf] == Prev(sa[i], |ext|)
  {
    LfTheorem(ext, sa, bwt, i);
    OccStep(bwt, i, bwt[i]);
  }

  /** A step function that climbs from `Occ(s[..a])` to `Occ(s[..b])` passes every value in between at an occurrence. */
  lemma {:induction false} OccHits(s: seq<Sym>, c: Sym, a: nat, b: nat, v: nat)
    requires a <= b <= |s|
    requires Occ(s[..a], c) <= v < Occ(s[..b], c)
    ensures exists i :: a <= i < b && s[i] == c && Occ(s[..i], c) == v
    decreases b
  {
    OccStep(s, b - 1, c);
    if Occ(s[..b - 1], c) > v {
      OccHits(s, c, a, b - 1, v);
    } else {
      assert s[b - 1] == c && Occ(s[..b - 1], c) == v;
    }
  }

  /** `P` can be read in the cyclic terminated text starting at `q`. */
  predicate CyclicOcc(ext: seq<Sym>, q: nat, P: seq<Sym>)
    requires q < |ext|
    decreases |P|
  {
    |P| == 0 || (ext[q] == P[0] && CyclicOcc(ext, Next(q, |ext|), P[1..]))
  }

  /** The rows `top..bottom` are exactly the rows whose rotation starts with `P`. */
  ghost predicate MatchInterval(ext: seq<Sym>, sa: seq<nat>, P: seq<Sym>, top: int, bottom: int)
    requires IsPermutation(sa, |ext|)
  {
    forall row :: 0 <= row < |ext| ==> (top <= row <= bottom <==> CyclicOcc(ext, sa[row], P))
  }

  /** The rows whose rotations start with `[c] + P` all come from rows holding `c` within the rows of `P`. */
  lemma StepSound(ext: seq<Sym>, sa: seq<nat>, bwt: seq<Sym>, c: Sym, P: seq<Sym>, top: nat, bottom: nat, row: nat)
    requires Indexed(ext, sa, bwt) && top <= bottom < |ext|
    requires MatchInterval(ext, sa, P, top, bottom)
    requires row < |ext| && CyclicOcc(ext, sa[row], [c] + P)
    ensures OccBelow(ext, c) + Occ(bwt[..top], c) <= row <= OccBelow(ext, c) + Occ(bwt[..bottom + 1], c) - 1
  {
    var n := |ext|;
    CyclicTail(ext, sa[row], c, P);
    var i := RowOf(sa, Next(sa[row], n));
    assert top <= i <= bottom;
    StepSource(ext, sa, bwt, c, i, row);
    OccBetween(bwt, c, top, i, bottom);
  }

  /** Reading `[c] + P` at `q` reads `c` at `q` and `P` at the next position. */
  lemma CyclicTail(ext: seq<Sym>, q: nat, c: Sym, P: seq<Sym>)
    requires q < |ext| && CyclicOcc(ext, q, [c] + P)
    ensures ext[q] == c && CyclicOcc(ext, Next(q, |ext|), P)
  {
    assert ([c] + P)[1..] == P;
  }

  /** An occurrence of `c` at `i` inside `top..bottom` is counted between the occurrences before `top` and up to `bottom`. */
  lemma OccBetween(s: seq<Sym>, c: Sym, top: nat, i: nat, bottom: nat)
    requires top <= i <= bottom < |s| && s[i] == c
    ensures Occ(s[..top], c) <= Occ(s[..i], c) <= Occ(s[..bottom + 1], c) - 1
  {
    OccMonotone(s, top, i, c);
    OccStep(s, i, c);
    OccMonotone(s, i + 1, bottom + 1, c);
  }

  /** The row holding the successor of row `row`'s start position ends in `c` and maps back to `row`. */
  lemma StepSource(ext: seq<Sym>, sa: seq<nat>, bwt: seq<Sym>, c: Sym, i: nat, row: nat)
    requires Indexed(ext, sa, bwt) && row < |ext| && ext[sa[row]] == c
    requires Next(sa[row], |ext|) in sa && i == RowOf(sa, Next(sa[row], |ext|))
    ensures bwt[i] == c
    ensures row == OccBelow(ext, c) + Occ(bwt[..i], c)
  {
    var n := |ext|;
    assert Prev(sa[i], n) == sa[row];
    LfTheorem(ext, sa, bwt, i);
    RowOfEntry(sa, n, row);
  }

  /** Every row the step's interval names starts with `[c] + P`. */
  lemma StepComplete(ext: seq<Sym>, sa: seq<nat>, bwt: seq<Sym>, c: Sym, P: seq<Sym>, top: nat, bottom: nat, row: nat)
    requires Indexed(ext, sa, bwt) && top <= bottom < |ext|
    requires MatchInterval(ext, sa, P, top, bottom)
    requires row < |ext|
    requires OccBelow(ext, c) + Occ(bwt[..top], c) <= row <= OccBelow(ext, c) + Occ(bwt[..bottom + 1], c) - 1
    ensures CyclicOcc(ext, sa[row], [c] + P)
  {
    var v := row - OccBelow(ext, c);
    OccHits(bwt, c, top, bottom + 1, v);
    var i :| top <= i < bottom + 1 && bwt[i] == c && Occ(bwt[..i], c) == v;
    StepFrom(ext, sa, bwt, c, P, i, row);
  }

  /** Row `row`, the last-to-first image of a row `i` holding `c` whose rotation starts with `P`, starts with `[c] + P`. */
  lemma StepFrom(ext: seq<Sym>, sa: seq<nat>, bwt: seq<Sym>, c: Sym, P: seq<Sym>, i: nat, row: nat)
    requires Indexed(ext, sa, bwt) && i < |ext| && row < |ext|
    requires bwt[i] == c && CyclicOcc(ext, sa[i], P)
    requires row == OccBelow(ext, c) + Occ(bwt[..i], c)
    ensures CyclicOcc(ext, sa[row], [c] + P)
  {
    var n := |ext|;
    LfTheorem(ext, sa, bwt, i);
    assert sa[row] == Prev(sa[i], n);
    assert Next(sa[row], n) == sa[i];
    assert ([c] + P)[1..] == P;
  }

  /**
   * One step of backward search: from the rows starting with `P`, the rows
   * starting with `c` followed by `P`.
   */
  lemma BackwardStep(ext: seq<Sym>, sa: seq<nat>, bwt: seq<Sym>, c: Sym, P: seq<Sym>, top: nat, bottom: nat)
    requires Indexed(ext, sa, bwt) && top <= bottom < |ext|
    requires MatchInterval(ext, sa, P, top, bottom)
    ensures MatchInterval(ext, sa, [c] + P,
      OccBelow(ext, c) + Occ(bwt[..top], c), OccBelow(ext, c) + Occ(bwt[..bottom + 1], c) - 1)
  {
    forall row | 0 <= row < |ext|
      ensures OccBelow(ext, c) + Occ(bwt[..top], c) <= row <= OccBelow(ext, c) + Occ(bwt[..bottom + 1], c) - 1
        <==> CyclicOcc(ext, sa[row], [c] + P)
    {
      if CyclicOcc(ext, sa[row], [c] + P) {
        StepSound(ext, sa, bwt, c, P, top, bottom, row);
      }
      if OccBelow(ext, c) + Occ(bwt[..top], c) <= row <= OccBelow(ext, c) + Occ(bwt[..bottom + 1], c) - 1 {
        StepComplete(ext, sa, bwt, c, P, top, bottom, row);
      }
    }
  }

  /** A non-empty narrowed interval ends inside the matrix. */
  lemma IntervalEndBound(ext: seq<Sym>, sa: seq<nat>, bwt: seq<Sym>, c: Sym, top: nat, bottom: nat)
    requires Indexed(ext, sa, bwt) && top <= bottom < |ext|
    requires Occ(bwt[..top], c) < Occ(bwt[..bottom + 1], c)
    ensures OccBelow(ext, c) + Occ(bwt[..bottom + 1], c) <= |ext|
  {
    var v := Occ(bwt[..bottom + 1], c) - 1;
    OccHits(bwt, c, top, bottom + 1, v);
    var i :| top <= i < bottom + 1 && bwt[i] == c && Occ(bwt[..i], c) == v;
    OccStep(bwt, i, c);
    LfIsPredecessorRow(ext, sa, bwt, i);
  }
}
