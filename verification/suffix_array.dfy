/**
 * Stage three: the suffix array, the start positions of the suffixes of the
 * sentinel-terminated text in ascending suffix order.
 */
module SuffixArrays {
  import opened Symbols
  import opened Lex
  import opened Counting

  /** Every entry names a position of `ext`. */
  predicate InBounds(ext: seq<Sym>, s: seq<nat>) {
    forall i :: 0 <= i < |s| ==> s[i] < |ext|
  }

  /** The suffixes starting at the entries of `s` strictly ascend. */
  predicate SortedSuffixes(ext: seq<Sym>, s: seq<nat>)
    requires InBounds(ext, s)
  {
    forall i, j {:trigger SufLess(ext, s[i], s[j])} :: 0 <= i < j < |s| ==> SufLess(ext, s[i], s[j])
  }

  /** `sa` lists each of the positions `0..n` exactly once. */
  predicate IsPermutation(sa: seq<nat>, n: nat) {
    && |sa| == n
    && (forall i :: 0 <= i < |sa| ==> sa[i] < n)
    && (forall q :: 0 <= q < n ==> q in sa)
    && (forall i, j :: 0 <= i < j < |sa| ==> sa[i] != sa[j])
  }

  /** Inserts position `q` into a list already sorted by suffix. */
  function InsertSuffix(ext: seq<Sym>, s: seq<nat>, q: nat): (r: seq<nat>)
    requires q < |ext| && InBounds(ext, s) && SortedSuffixes(ext, s)
    requires q !in s
    ensures |r| == |s| + 1
    ensures InBounds(ext, r) && SortedSuffixes(ext, r)
    ensures forall x :: x in r <==> x in s || x == q
  {
    if |s| == 0 then [q]
    else if SufLess(ext, q, s[0]) then
      assert forall j :: 0 <= j < |s| ==> SufLess(ext, q, s[j]) by {
        forall j | 0 < j < |s|
          ensures SufLess(ext, q, s[j])
        {
          assert SufLess(ext, s[0], s[j]);
          LexTransitive(ext[q..], ext[s[0]..], ext[s[j]..]);
        }
      }
      [q] + s
    else
      var rest := InsertSuffix(ext, s[1..], q);
      assert SufLess(ext, s[0], q) by {
        SufTotal(ext, q, s[0]);
      }
      forall j | 0 <= j < |rest|
        ensures SufLess(ext, s[0], rest[j])
      {
        assert rest[j] in rest;
        if rest[j] != q {
          var j' :| 0 <= j' < |s[1..]| && s[1..][j'] == rest[j];
          assert s[j' + 1] == rest[j];
        }
      }
      [s[0]] + rest
  }

  /** Sorts the positions `0..m` of `ext` by insertion. */
  function SortPositions(ext: seq<Sym>, m: nat): (r: seq<nat>)
    requires m <= |ext|
    ensures |r| == m
    ensures InBounds(ext, r) && SortedSuffixes(ext, r)
    ensures forall x :: x in r <==> 0 <= x < m
  {
    if m == 0 then []
    else InsertSuffix(ext, SortPositions(ext, m - 1), m - 1)
  }

  /** The suffix array of `text`, over the positions of `text + "$"`. */
  function SuffixArray(text: seq<char>): (sa: seq<nat>)
    ensures IsPermutation(sa, |text| + 1)
    ensures InBounds(Extend(text), sa) && SortedSuffixes(Extend(text), sa)
  {
    var ext := Extend(text);
    var sa := SortPositions(ext, |ext|);
    forall i, j | 0 <= i < j < |sa|
      ensures sa[i] != sa[j]
    {
      assert SufLess(ext, sa[i], sa[j]);
      LexIrreflexive(ext[sa[i]..]);
    }
    sa
  }

  /** The row of the suffix array that holds position `q`. */
  function RowOf(sa: seq<nat>, q: nat): (row: nat)
    requires q in sa
    ensures row < |sa| && sa[row] == q
  {
    if sa[0] == q then 0 else 1 + RowOf(sa[1..], q)
  }

  /** The positions whose suffix sorts strictly before suffix `q`. */
  function SmallerSuffixes(ext: seq<Sym>, q: nat): set<int>
    requires q < |ext|
  {
    set q' | 0 <= q' < |ext| && SufLess(ext, q', q)
  }

  /** In a sorted suffix array, earlier rows hold exactly the smaller suffixes. */
  lemma RowsBefore(ext: seq<Sym>, sa: seq<nat>, i: nat, j: nat)
    requires IsPermutation(sa, |ext|) && InBounds(ext, sa) && SortedSuffixes(ext, sa)
    requires i < |sa| && j < |sa|
    ensures SufLess(ext, sa[i], sa[j]) <==> i < j
  {
    if i >= j && SufLess(ext, sa[i], sa[j]) {
      if i == j {
        LexIrreflexive(ext[sa[i]..]);
      } else {
        assert SufLess(ext, sa[j], sa[i]);
        LexAsymmetric(ext[sa[j]..], ext[sa[i]..]);
      }
    }
  }

  /** The row of position `q` is the number of suffixes smaller than suffix `q`. */
  lemma RowIsRank(ext: seq<Sym>, sa: seq<nat>, q: nat)
    requires IsPermutation(sa, |ext|) && InBounds(ext, sa) && SortedSuffixes(ext, sa)
    requires q < |ext|
    ensures RowOf(sa, q) == |SmallerSuffixes(ext, q)|
  {
    var row := RowOf(sa, q);
    var f := (i: int) => if 0 <= i < |sa| then sa[i] as int else -1;
    var before := Range(0, row);
    assert InjectiveOn(before, f);
    ImageCard(before, f);
    RangeCard(0, row);
    var img := set i | i in before :: f(i);
    forall q' | q' in SmallerSuffixes(ext, q)
      ensures q' in img
    {
      assert q' in sa;
      var r' := RowOf(sa, q');
      RowsBefore(ext, sa, r', row);
      assert f(r') == q';
    }
    forall q' | q' in img
      ensures q' in SmallerSuffixes(ext, q)
    {
      var r' :| r' in before && f(r') == q';
      RowsBefore(ext, sa, r', row);
    }
    assert img == SmallerSuffixes(ext, q);
  }

  /** Two sorted permutations of the same suffixes are equal: the contract of the suffix array determines it. */
  lemma SortedPermutationUnique(ext: seq<Sym>, a: seq<nat>, b: seq<nat>)
    requires IsPermutation(a, |ext|) && InBounds(ext, a) && SortedSuffixes(ext, a)
    requires IsPermutation(b, |ext|) && InBounds(ext, b) && SortedSuffixes(ext, b)
    ensures a == b
  {
    forall i | 0 <= i < |a|
      ensures a[i] == b[i]
    {
      var q := a[i];
      assert q in b;
      RowIsRank(ext, a, q);
      RowIsRank(ext, b, q);
      RowOfEntry(a, |ext|, i);
    }
  }

  /** In a permutation, the row holding entry `row` is `row` itself. */
  lemma RowOfEntry(sa: seq<nat>, n: nat, row: nat)
    requires IsPermutation(sa, n) && row < n
    ensures RowOf(sa, sa[row]) == row
  {
  }

  /** Row 0 of the suffix array holds the lone-sentinel suffix. */
  lemma SentinelRowFirst(ext: seq<Sym>, sa: seq<nat>)
    requires SentinelTerminated(ext)
    requires IsPermutation(sa, |ext|) && InBounds(ext, sa) && SortedSuffixes(ext, sa)
    ensures sa[0] == |ext| - 1
  {
    var n := |ext|;
    assert n - 1 in sa;
    var row := RowOf(sa, n - 1);
    SentinelSuffixLeast(ext, sa[0]);
    RowsBefore(ext, sa, 0, row);
  }

  /** The suffix array of a text starts with the position of the lone sentinel, `|text|`. */
  lemma SuffixArrayStartsAtSentinel(text: seq<char>)
    ensures |SuffixArray(text)| == |text| + 1
    ensures SuffixArray(text)[0] == |text|
  {
    ExtendIsSentinelTerminated(text);
    SentinelRowFirst(Extend(text), SuffixArray(text));
  }
}
