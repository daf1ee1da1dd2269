/**
 * Stages four and five and the diagnostics over them: the Burrows-Wheeler
 * matrix, its last column (the transform), the number of runs in the
 * transform, and the tally table of cumulative occurrence counts.
 */
module Bwt {
  import opened Symbols
  import opened Lex
  import opened Counting
  import opened SuffixArrays

  /** The position cyclically before `q` in a text of length `n`. */
  function Prev(q: nat, n: nat): nat
    requires q < n
  {
    if q == 0 then n - 1 else q - 1
  }

  lemma PrevByModulo(q: nat, n: nat)
    requires q < n
    ensures (q + n - 1) % n == Prev(q, n)
  {
    if q > 0 {
      assert q + n - 1 == 1 * n + (q - 1);
    }
  }

  /**
   * The Burrows-Wheeler transform: for each suffix-array row, the symbol
   * cyclically before the row's start position in `text + "$"`.
   */
  function ConstructBwt(text: seq<char>, sa: seq<nat>): (bwt: seq<Sym>)
    ensures |bwt| == |sa|
    ensures forall i :: 0 <= i < |sa| && sa[i] == 0 ==> bwt[i] == Sentinel
    ensures forall i :: 0 <= i < |sa| && 0 < sa[i] <= |text| ==> bwt[i] == Ch(text[sa[i] - 1])
  {
    var ext := Extend(text);
    var n := |ext|;
    var bwt := seq(|sa|, i requires 0 <= i < |sa| => ext[(sa[i] + n - 1) % n]);
    assert forall i :: 0 <= i < |sa| && sa[i] < n ==> bwt[i] == ext[Prev(sa[i], n)] by {
      forall i | 0 <= i < |sa| && sa[i] < n
        ensures bwt[i] == ext[Prev(sa[i], n)]
      {
        PrevByModulo(sa[i], n);
      }
    }
    bwt
  }

  /** The last symbol of the rotation starting at `q` is the symbol cyclically before `q`. */
  lemma RotationLast(ext: seq<Sym>, q: nat)
    requires q < |ext|
    ensures Rotation(ext, q)[|ext| - 1] == ext[Prev(q, |ext|)]
  {
  }

  /** Rotations read in the order of sorted suffixes ascend strictly. */
  lemma RotationsSorted(ext: seq<Sym>, sa: seq<nat>)
    requires SentinelTerminated(ext) && InBounds(ext, sa)
    ensures SortedSuffixes(ext, sa) ==>
      forall i, j :: 0 <= i < j < |sa| ==> LexLess(Rotation(ext, sa[i]), Rotation(ext, sa[j]))
  {
    if SortedSuffixes(ext, sa) {
      forall i, j | 0 <= i < j < |sa|
        ensures LexLess(Rotation(ext, sa[i]), Rotation(ext, sa[j]))
      {
        assert SufLess(ext, sa[i], sa[j]);
        LexIrreflexive(ext[sa[i]..]);
        RotationOrder(ext, sa[i], sa[j]);
      }
    }
  }

  /**
   * The Burrows-Wheeler matrix: row `i` is the rotation of `text + "$"` that
   * starts at `sa[i]`. It is returned, never stored. Its last column is the
   * transform, and when `sa` lists the suffixes in order its rows ascend.
   */
  function ConstructBwm(text: seq<char>, sa: seq<nat>): (bwm: seq<seq<Sym>>)
    requires forall i :: 0 <= i < |sa| ==> sa[i] <= |text|
    ensures |bwm| == |sa|
    ensures forall i :: 0 <= i < |sa| ==> bwm[i] == Rotation(Extend(text), sa[i])
    ensures forall i :: 0 <= i < |sa| ==>
      |bwm[i]| == |text| + 1 && bwm[i][|text|] == ConstructBwt(text, sa)[i]
    ensures SortedSuffixes(Extend(text), sa) ==>
      forall i, j :: 0 <= i < j < |sa| ==> LexLess(bwm[i], bwm[j])
  {
    var ext := Extend(text);
    var bwm := seq(|sa|, i requires 0 <= i < |sa| => Rotation(ext, sa[i]));
    assert forall i :: 0 <= i < |sa| ==> bwm[i][|text|] == ConstructBwt(text, sa)[i] by {
      forall i | 0 <= i < |sa|
        ensures bwm[i][|text|] == ConstructBwt(text, sa)[i]
      {
        RotationLast(ext, sa[i]);
      }
    }
    ExtendIsSentinelTerminated(text);
    RotationsSorted(ext, sa);
    bwm
  }

  lemma PrevInjective(x: nat, y: nat, n: nat)
    requires x < n && y < n && Prev(x, n) == Prev(y, n)
    ensures x == y
  {
  }

  /** Reading a text through a permutation of its positions keeps every symbol's count. */
  lemma {:induction false} PermutedOcc(ext: seq<Sym>, sa: seq<nat>, bwt: seq<Sym>, a: Sym)
    requires IsPermutation(sa, |ext|) && |bwt| == |ext|
    requires forall i :: 0 <= i < |bwt| ==> bwt[i] == ext[Prev(sa[i], |ext|)]
    ensures Occ(bwt, a) == Occ(ext, a)
  {
    var n := |ext|;
    var f := (i: int) => if 0 <= i < n then Prev(sa[i], n) as int else -1;
    var S := OccPositions(bwt, a);
    forall x, y | x in S && y in S && f(x) == f(y)
      ensures x == y
    {
      PrevInjective(sa[x], sa[y], n);
    }
    ImageCard(S, f);
    var img := set i | i in S :: f(i);
    forall q | q in OccPositions(ext, a)
      ensures q in img
    {
      var next := if q == n - 1 then 0 else q + 1;
      assert next in sa;
      var row := RowOf(sa, next);
      assert f(row) == q;
    }
    assert img == OccPositions(ext, a);
    OccPositionsCard(bwt, a);
    OccPositionsCard(ext, a);
  }

  /** The BWT of a text's own suffix array: the sentinel-terminated text in another order. */
  lemma BwtIsPermutation(text: seq<char>, a: Sym)
    ensures Occ(ConstructBwt(text, SuffixArray(text)), a) == Occ(Extend(text), a)
  {
    var ext := Extend(text);
    var sa := SuffixArray(text);
    var bwt := ConstructBwt(text, sa);
    forall i | 0 <= i < |bwt|
      ensures bwt[i] == ext[Prev(sa[i], |ext|)]
    {
    }
    PermutedOcc(ext, sa, bwt, a);
  }

  lemma SentinelOnceInExtend(text: seq<char>)
    ensures Occ(Extend(text), Sentinel) == 1
  {
    var ext := Extend(text);
    OccZeroIffAbsent(ext[..|text|], Sentinel);
    assert ext[..|ext| - 1] == ext[..|text|];
  }

  /** The transform holds exactly one sentinel. */
  lemma SentinelOnceInBwt(text: seq<char>)
    ensures Occ(ConstructBwt(text, SuffixArray(text)), Sentinel) == 1
  {
    BwtIsPermutation(text, Sentinel);
    SentinelOnceInExtend(text);
  }

  /** Adds the scanned symbol to the cumulative counts of one pass. */
  function ExtendTallies(alpha: seq<char>, prev: seq<seq<nat>>, last: Sym): seq<seq<nat>>
    requires |prev| == |alpha|
  {
    seq(|alpha|, k requires 0 <= k < |alpha| =>
      var row := prev[k];
      var carried := if |row| == 0 then 0 else row[|row| - 1];
      row + [carried + (if last == Ch(alpha[k]) then 1 else 0)])
  }

  /**
   * The tally table, built by one left-to-right pass over the transform that
   * bumps the scanned character's row and carries every other row forward.
   * Row `k` belongs to `alpha[k]`; the sentinel has no row.
   */
  function ConstructTallies(alpha: seq<char>, bwt: seq<Sym>): (tallies: seq<seq<nat>>)
    ensures |tallies| == |alpha|
    ensures forall k :: 0 <= k < |alpha| ==> |tallies[k]| == |bwt|
    ensures forall k, i {:trigger tallies[k][i]} :: 0 <= k < |alpha| && 0 <= i < |bwt| ==>
      tallies[k][i] == Occ(bwt[..i + 1], Ch(alpha[k]))
  {
    if |bwt| == 0 then seq(|alpha|, k => [])
    else
      var m := |bwt| - 1;
      var prev := ConstructTallies(alpha, bwt[..m]);
      var tallies := ExtendTallies(alpha, prev, bwt[m]);
      assert forall k, i {:trigger tallies[k][i]} :: 0 <= k < |alpha| && 0 <= i < |bwt| ==>
        tallies[k][i] == Occ(bwt[..i + 1], Ch(alpha[k])) by {
        forall k, i | 0 <= k < |alpha| && 0 <= i < |bwt|
          ensures tallies[k][i] == Occ(bwt[..i + 1], Ch(alpha[k]))
        {
          if i < m {
            assert bwt[..m][..i + 1] == bwt[..i + 1];
          } else {
            assert bwt[..i + 1] == bwt;
            if m > 0 {
              assert bwt[..m][..m] == bwt[..m];
            }
          }
        }
      }
      tallies
  }

  /** Each tally row never decreases. */
  lemma TalliesMonotone(alpha: seq<char>, bwt: seq<Sym>, k: nat, i: nat, j: nat)
    requires k < |alpha| && i <= j < |bwt|
    ensures ConstructTallies(alpha, bwt)[k][i] <= ConstructTallies(alpha, bwt)[k][j]
  {
    OccMonotone(bwt, i + 1, j + 1, Ch(alpha[k]));
  }

  /** One run of equal symbols. */
  datatype Run = Run(sym: Sym, len: nat)

  /** `len` copies of `sym`. */
  function Repeat(sym: Sym, len: nat): seq<Sym> {
    if len == 0 then [] else Repeat(sym, len - 1) + [sym]
  }

  /** The symbols a list of runs stands for. */
  function Expand(runs: seq<Run>): seq<Sym> {
    if |runs| == 0 then []
    else Expand(runs[..|runs| - 1]) + Repeat(runs[|runs| - 1].sym, runs[|runs| - 1].len)
  }

  /** Every run is non-empty and neighbouring runs hold different symbols. */
  predicate Maximal(runs: seq<Run>) {
    && (forall i :: 0 <= i < |runs| ==> runs[i].len > 0)
    && (forall i :: 0 < i < |runs| ==> runs[i - 1].sym != runs[i].sym)
  }

  /** The maximal runs of `s`, left to right. */
  function RunLengthEncode(s: seq<Sym>): seq<Run> {
    if |s| == 0 then []
    else
      var prev := RunLengthEncode(s[..|s| - 1]);
      var last := s[|s| - 1];
      if |prev| > 0 && prev[|prev| - 1].sym == last then
        prev[..|prev| - 1] + [Run(last, prev[|prev| - 1].len + 1)]
      else
        prev + [Run(last, 1)]
  }

  lemma {:induction false} RunLengthLast(s: seq<Sym>)
    ensures |s| > 0 ==> |RunLengthEncode(s)| > 0 && RunLengthEncode(s)[|RunLengthEncode(s)| - 1].sym == s[|s| - 1]
  {
  }

  /** The encoding is made of maximal runs. */
  lemma {:induction false} RunLengthMaximal(s: seq<Sym>)
    ensures Maximal(RunLengthEncode(s))
  {
    if |s| > 0 {
      var init := s[..|s| - 1];
      RunLengthMaximal(init);
      RunLengthLast(init);
    }
  }

  lemma ExpandSnoc(runs: seq<Run>, r: Run)
    ensures Expand(runs + [r]) == Expand(runs) + Repeat(r.sym, r.len)
  {
    assert (runs + [r])[..|runs|] == runs;
  }

  /** The encoding decodes back to `s`. */
  lemma {:induction false} RunLengthRoundTrip(s: seq<Sym>)
    ensures Expand(RunLengthEncode(s)) == s
  {
    if |s| > 0 {
      var init := s[..|s| - 1];
      var last := s[|s| - 1];
      var prev := RunLengthEncode(init);
      RunLengthRoundTrip(init);
      assert s == init + [last];
      if |prev| > 0 && prev[|prev| - 1].sym == last {
        var top := prev[|prev| - 1];
        var front := prev[..|prev| - 1];
        assert prev == front + [top];
        ExpandSnoc(front, top);
        ExpandSnoc(front, Run(last, top.len + 1));
        assert Expand(RunLengthEncode(s)) == Expand(front) + (Repeat(last, top.len) + [last]);
      } else {
        ExpandSnoc(prev, Run(last, 1));
        assert Repeat(last, 1) == [last];
      }
    }
  }

  /**
   * The number of runs of the transform: one plus the number of positions
   * whose symbol differs from its left neighbour.
   */
  method CountRuns(bwt: seq<Sym>) returns (r: nat)
    ensures r == |RunLengthEncode(bwt)|
    ensures |bwt| > 0 ==> 1 <= r <= |bwt|
  {
    if |bwt| == 0 {
      return 0;
    }
    r := 1;
    var i := 1;
    while i < |bwt|
      invariant 1 <= i <= |bwt|
      invariant r == |RunLengthEncode(bwt[..i])|
      invariant 1 <= r <= i
    {
      assert bwt[..i + 1][..i] == bwt[..i];
      RunLengthLast(bwt[..i]);
      if bwt[i] != bwt[i - 1] {
        r := r + 1;
      }
      i := i + 1;
    }
    assert bwt[..i] == bwt;
  }
}
