/**
 * The expected values of the unit tests over "banana", derived from the
 * contracts of the model: each table is pinned down by its contract (the
 * alphabet by `AscendingUnique`, the suffix array by
 * `SortedPermutationUnique`) and then read off for this text.
 */
module Examples {
  import opened Symbols
  import opened Lex
  import opened Alphabet
  import opened SuffixArrays
  import opened Bwt
  import opened LastToFirst
  import opened FmIndex
  import opened Queries

  /** Suffixes ascending pairwise from one entry to the next ascend throughout. */
  lemma {:induction false} AdjacentSorted(ext: seq<Sym>, s: seq<nat>)
    requires InBounds(ext, s)
    requires forall i :: 0 <= i < |s| - 1 ==> SufLess(ext, s[i], s[i + 1])
    ensures SortedSuffixes(ext, s)
    decreases |s|
  {
    if |s| > 1 {
      var t := s[1..];
      assert forall i :: 0 <= i < |t| - 1 ==> SufLess(ext, t[i], t[i + 1]) by {
        forall i | 0 <= i < |t| - 1
          ensures SufLess(ext, t[i], t[i + 1])
        {
          assert t[i] == s[i + 1] && t[i + 1] == s[i + 2];
        }
      }
      AdjacentSorted(ext, t);
      forall i, j | 0 <= i < j < |s|
        ensures SufLess(ext, s[i], s[j])
      {
        if i > 0 {
          assert SufLess(ext, t[i - 1], t[j - 1]);
        } else if j > 1 {
          assert SufLess(ext, t[0], t[j - 1]);
          LexTransitive(ext[s[0]..], ext[s[1]..], ext[s[j]..]);
        }
      }
    }
  }

  /** `ext` reads `banana$`, symbol by symbol. */
  predicate SpellsBanana(ext: seq<Sym>) {
    && |ext| == 7
    && ext[0] == Ch('b') && ext[1] == Ch('a') && ext[2] == Ch('n') && ext[3] == Ch('a')
    && ext[4] == Ch('n') && ext[5] == Ch('a') && ext[6] == Sentinel
  }

  lemma ExtendBanana()
    ensures SpellsBanana(Extend("banana"))
  {
  }

  /** Neighbouring entries of the "banana" suffix array hold ascending suffixes. */
  lemma BananaAdjacent(ext: seq<Sym>)
    requires SpellsBanana(ext)
    ensures forall i :: 0 <= i < 6 ==> SufLess(ext, [6, 5, 3, 1, 0, 4, 2][i], [6, 5, 3, 1, 0, 4, 2][i + 1])
  {
    assert SentinelTerminated(ext);
    SufLessCons(ext, 6, 5);
    SufLessCons(ext, 6, 4);
    SufLessCons(ext, 5, 3);
    SufLessCons(ext, 4, 2);
    SufLessCons(ext, 3, 1);
    SufLessCons(ext, 1, 0);
    SufLessCons(ext, 0, 4);
  }

  lemma BananaPermutation()
    ensures IsPermutation([6, 5, 3, 1, 0, 4, 2], 7)
  {
    var sa: seq<nat> := [6, 5, 3, 1, 0, 4, 2];
    forall q | 0 <= q < 7
      ensures q in sa
    {
      assert sa[[4, 3, 6, 2, 5, 1, 0][q]] == q;
    }
  }

  /** The suffix array of the "banana" test is a sorted permutation of the positions of `banana$`. */
  lemma BananaSorted(ext: seq<Sym>)
    requires SpellsBanana(ext)
    ensures IsPermutation([6, 5, 3, 1, 0, 4, 2], 7)
    ensures InBounds(ext, [6, 5, 3, 1, 0, 4, 2]) && SortedSuffixes(ext, [6, 5, 3, 1, 0, 4, 2])
  {
    BananaPermutation();
    BananaAdjacent(ext);
    AdjacentSorted(ext, [6, 5, 3, 1, 0, 4, 2]);
  }

  /** The suffix array of "banana" is `[6, 5, 3, 1, 0, 4, 2]`, the only sorted permutation. */
  lemma BananaSuffixArray()
    ensures SuffixArray("banana") == [6, 5, 3, 1, 0, 4, 2]
  {
    var ext := Extend("banana");
    ExtendBanana();
    BananaSorted(ext);
    SortedPermutationUnique(ext, SuffixArray("banana"), [6, 5, 3, 1, 0, 4, 2]);
  }

  /** An ascending list holding exactly the text's characters other than the terminator is its alphabet. */
  lemma AlphabetOf(text: seq<char>, alpha: seq<char>)
    requires StrictlyAscending(alpha)
    requires forall ch :: ch in alpha <==> ch in text && ch != SENTINEL
    ensures FindAlphabet(text) == alpha
  {
    AscendingUnique(FindAlphabet(text), alpha);
  }

  /** The alphabet of "banana" is `abn`. */
  lemma BananaAlphabet()
    ensures FindAlphabet("banana") == "abn"
  {
    var t, alpha := "banana", "abn";
    forall x
      ensures x in alpha <==> x in t && x != SENTINEL
    {
      if x in t {
        var i :| 0 <= i < |t| && t[i] == x;
        assert x == alpha[[1, 0, 2, 0, 2, 0][i]];
      }
      if x in alpha {
        var i :| 0 <= i < 3 && alpha[i] == x;
        assert x == t[[1, 0, 2][i]];
      }
    }
    AlphabetOf(t, alpha);
  }

  /** "banana" holds three `a`, one `b` and two `n`. */
  lemma BananaCounts()
    ensures ComputeCounts("abn", "banana") == [3, 1, 2]
  {
    var t := "banana";
    assert t[..1] == "b" && t[..1][..0] == t[..0];
    assert CountChar(t[..1], 'a') == 0 && CountChar(t[..1], 'b') == 1 && CountChar(t[..1], 'n') == 0;
    assert t[..2] == "ba" && t[..2][..1] == t[..1];
    assert CountChar(t[..2], 'a') == 1 && CountChar(t[..2], 'b') == 1 && CountChar(t[..2], 'n') == 0;
    assert t[..3] == "ban" && t[..3][..2] == t[..2];
    assert CountChar(t[..3], 'a') == 1 && CountChar(t[..3], 'b') == 1 && CountChar(t[..3], 'n') == 1;
    assert t[..4] == "bana" && t[..4][..3] == t[..3];
    assert CountChar(t[..4], 'a') == 2 && CountChar(t[..4], 'b') == 1 && CountChar(t[..4], 'n') == 1;
    assert t[..5] == "banan" && t[..5][..4] == t[..4];
    assert CountChar(t[..5], 'a') == 2 && CountChar(t[..5], 'b') == 1 && CountChar(t[..5], 'n') == 2;
    assert t[..6] == "banana" && t[..6][..5] == t[..5];
    assert CountChar(t[..6], 'a') == 3 && CountChar(t[..6], 'b') == 1 && CountChar(t[..6], 'n') == 2;
    assert t[..6] == t;
  }

  /** The transform of "banana", `annb$aa`, as symbols. */
  function BananaBwt(): seq<Sym> {
    [Ch('a'), Ch('n'), Ch('n'), Ch('b'), Sentinel, Ch('a'), Ch('a')]
  }

  /** The transform of "banana" is `annb$aa`. */
  lemma BananaTransform()
    ensures ConstructBwt("banana", SuffixArray("banana")) == BananaBwt()
  {
    BananaSuffixArray();
  }

  /** One more symbol adds a run exactly when it differs from the one before it. */
  lemma RunCountStep(s: seq<Sym>, i: nat)
    requires 0 < i < |s|
    ensures |RunLengthEncode(s[..i + 1])| == |RunLengthEncode(s[..i])| + (if s[i] != s[i - 1] then 1 else 0)
  {
    assert s[..i + 1][..i] == s[..i];
    RunLengthLast(s[..i]);
  }

  /** `annb$aa` has five runs, the number `CountRuns` returns for it. */
  lemma BananaRuns()
    ensures |RunLengthEncode(BananaBwt())| == 5
  {
    var b := BananaBwt();
    assert b[..1][..0] == [];
    RunCountStep(b, 1);
    RunCountStep(b, 2);
    RunCountStep(b, 3);
    RunCountStep(b, 4);
    RunCountStep(b, 5);
    RunCountStep(b, 6);
    assert b[..7] == b;
  }

  /**
   * A row of running counts: when each entry adds one to the previous entry
   * exactly where `s` holds `a`, entry i counts `a` in `s[..i + 1]`.
   */
  lemma RunningOcc(s: seq<Sym>, a: Sym, row: seq<nat>)
    requires |row| == |s|
    requires 0 < |s| ==> row[0] == (if s[0] == a then 1 else 0)
    requires forall j :: 0 < j < |s| ==> row[j] == row[j - 1] + (if s[j] == a then 1 else 0)
    ensures forall i :: 0 <= i < |s| ==> Occ(s[..i + 1], a) == row[i]
  {
    forall i | 0 <= i < |s|
      ensures Occ(s[..i + 1], a) == row[i]
    {
      RunningOccAt(s, a, row, i);
    }
  }

  lemma {:induction false} RunningOccAt(s: seq<Sym>, a: Sym, row: seq<nat>, i: nat)
    requires |row| == |s| && i < |s|
    requires 0 < |s| ==> row[0] == (if s[0] == a then 1 else 0)
    requires forall j :: 0 < j < |s| ==> row[j] == row[j - 1] + (if s[j] == a then 1 else 0)
    ensures Occ(s[..i + 1], a) == row[i]
    decreases i
  {
    OccStep(s, i, a);
    if i == 0 {
      assert s[..0] == [];
    } else {
      RunningOccAt(s, a, row, i - 1);
    }
  }

  /** A tally table is known once each of its entries is known as a running count. */
  lemma TalliesOfRows(alpha: seq<char>, bwt: seq<Sym>, rows: seq<seq<nat>>)
    requires |rows| == |alpha|
    requires forall k :: 0 <= k < |alpha| ==> |rows[k]| == |bwt|
    requires forall k, i :: 0 <= k < |alpha| && 0 <= i < |bwt| ==> rows[k][i] == Occ(bwt[..i + 1], Ch(alpha[k]))
    ensures ConstructTallies(alpha, bwt) == rows
  {
    var tallies := ConstructTallies(alpha, bwt);
    forall k | 0 <= k < |alpha|
      ensures tallies[k] == rows[k]
    {
    }
  }

  /** The tally table of "banana": one row each for `a`, `b` and `n`. */
  lemma BananaTallies()
    ensures ConstructTallies("abn", BananaBwt()) ==
      [[1, 1, 1, 1, 1, 2, 3], [0, 0, 0, 1, 1, 1, 1], [0, 1, 2, 2, 2, 2, 2]]
  {
    var b := BananaBwt();
    var rows := [[1, 1, 1, 1, 1, 2, 3], [0, 0, 0, 1, 1, 1, 1], [0, 1, 2, 2, 2, 2, 2]];
    RunningOcc(b, Ch('a'), rows[0]);
    RunningOcc(b, Ch('b'), rows[1]);
    RunningOcc(b, Ch('n'), rows[2]);
    TalliesOfRows("abn", b, rows);
  }

  /** The rotations of `banana$` that the matrix rows of the test are made of. */
  lemma BananaRotations(ext: seq<Sym>)
    requires SpellsBanana(ext)
    ensures Rotation(ext, 6) == [Sentinel, Ch('b'), Ch('a'), Ch('n'), Ch('a'), Ch('n'), Ch('a')]
    ensures Rotation(ext, 5) == [Ch('a'), Sentinel, Ch('b'), Ch('a'), Ch('n'), Ch('a'), Ch('n')]
    ensures Rotation(ext, 3) == [Ch('a'), Ch('n'), Ch('a'), Sentinel, Ch('b'), Ch('a'), Ch('n')]
    ensures Rotation(ext, 1) == [Ch('a'), Ch('n'), Ch('a'), Ch('n'), Ch('a'), Sentinel, Ch('b')]
    ensures Rotation(ext, 0) == [Ch('b'), Ch('a'), Ch('n'), Ch('a'), Ch('n'), Ch('a'), Sentinel]
    ensures Rotation(ext, 4) == [Ch('n'), Ch('a'), Sentinel, Ch('b'), Ch('a'), Ch('n'), Ch('a')]
    ensures Rotation(ext, 2) == [Ch('n'), Ch('a'), Ch('n'), Ch('a'), Sentinel, Ch('b'), Ch('a')]
  {
    assert ext[6..] == [Sentinel] && ext[..6] == [Ch('b'), Ch('a'), Ch('n'), Ch('a'), Ch('n'), Ch('a')];
    assert ext[5..] == [Ch('a'), Sentinel] && ext[..5] == [Ch('b'), Ch('a'), Ch('n'), Ch('a'), Ch('n')];
    assert ext[3..] == [Ch('a'), Ch('n'), Ch('a'), Sentinel] && ext[..3] == [Ch('b'), Ch('a'), Ch('n')];
    assert ext[1..] == [Ch('a'), Ch('n'), Ch('a'), Ch('n'), Ch('a'), Sentinel] && ext[..1] == [Ch('b')];
    assert ext[0..] == [Ch('b'), Ch('a'), Ch('n'), Ch('a'), Ch('n'), Ch('a'), Sentinel] && ext[..0] == [];
    assert ext[4..] == [Ch('n'), Ch('a'), Sentinel] && ext[..4] == [Ch('b'), Ch('a'), Ch('n'), Ch('a')];
    assert ext[2..] == [Ch('n'), Ch('a'), Ch('n'), Ch('a'), Sentinel] && ext[..2] == [Ch('b'), Ch('a')];
  }

  /** A matrix is known once each of its rows is known as a rotation. */
  lemma MatrixOfRotations(text: seq<char>, sa: seq<nat>, rows: seq<seq<Sym>>)
    requires forall i :: 0 <= i < |sa| ==> sa[i] <= |text|
    requires |rows| == |sa|
    requires forall i :: 0 <= i < |sa| ==> rows[i] == Rotation(Extend(text), sa[i])
    ensures ConstructBwm(text, sa) == rows
  {
  }

  /** The matrix rows of the "banana" test, over its suffix array (`BananaSuffixArray`): `$banana`, `a$banan`, `ana$ban`, `anana$b`, `banana$`, `na$bana`, `nana$ba`. */
  lemma BananaMatrix()
    ensures ConstructBwm("banana", [6, 5, 3, 1, 0, 4, 2]) == [
      [Sentinel, Ch('b'), Ch('a'), Ch('n'), Ch('a'), Ch('n'), Ch('a')],
      [Ch('a'), Sentinel, Ch('b'), Ch('a'), Ch('n'), Ch('a'), Ch('n')],
      [Ch('a'), Ch('n'), Ch('a'), Sentinel, Ch('b'), Ch('a'), Ch('n')],
      [Ch('a'), Ch('n'), Ch('a'), Ch('n'), Ch('a'), Sentinel, Ch('b')],
      [Ch('b'), Ch('a'), Ch('n'), Ch('a'), Ch('n'), Ch('a'), Sentinel],
      [Ch('n'), Ch('a'), Sentinel, Ch('b'), Ch('a'), Ch('n'), Ch('a')],
      [Ch('n'), Ch('a'), Ch('n'), Ch('a'), Sentinel, Ch('b'), Ch('a')]]
  {
    var ext := Extend("banana");
    ExtendBanana();
    BananaRotations(ext);
    MatrixOfRotations("banana", [6, 5, 3, 1, 0, 4, 2], [Rotation(ext, 6), Rotation(ext, 5),
      Rotation(ext, 3), Rotation(ext, 1), Rotation(ext, 0), Rotation(ext, 4), Rotation(ext, 2)]);
  }

  /** Building "banana" gives the tables the unit tests expect. */
  lemma BananaIndex()
    ensures Build(New(), "banana").Success?
    ensures Build(New(), "banana").value ==
      FMIndex("abn", [3, 1, 2], [6, 5, 3, 1, 0, 4, 2], BananaBwt(),
        [[1, 1, 1, 1, 1, 2, 3], [0, 0, 0, 1, 1, 1, 1], [0, 1, 2, 2, 2, 2, 2]], AllStages)
  {
    assert SENTINEL !in "banana";
    BananaAlphabet();
    BananaCounts();
    BananaSuffixArray();
    BananaTransform();
    BananaTallies();
  }

  /** LF mapping can be read off the suffix array: row `i` goes to the row holding the position before `sa[i]`. */
  lemma LfFromSuffixArray(idx: FMIndex, text: seq<char>, i: nat, j: nat)
    requires Describes(idx, text) && i < |idx.bwt| && j < |idx.bwt|
    requires idx.suffixArray[j] == (idx.suffixArray[i] + |idx.bwt| - 1) % |idx.bwt|
    ensures LfMapping(idx, text, i) == j
  {
    var n := |idx.bwt|;
    LfMappingCorrect(idx, text, i);
    RowOfEntry(idx.suffixArray, n, LfMapping(idx, text, i));
    RowOfEntry(idx.suffixArray, n, j);
  }

  /** An index describing "banana" holds the suffix array of the unit test. */
  lemma BananaIndexSuffixArray(idx: FMIndex)
    requires Describes(idx, "banana")
    ensures idx.suffixArray == [6, 5, 3, 1, 0, 4, 2] && |idx.bwt| == 7
  {
    var ext := Extend("banana");
    ExtendBanana();
    BananaSorted(ext);
    SortedPermutationUnique(ext, idx.suffixArray, [6, 5, 3, 1, 0, 4, 2]);
  }

  /** Last-to-first mapping over an index of "banana" (such as the one `Build` gives), row by row. */
  lemma BananaLf(idx: FMIndex)
    requires Describes(idx, "banana")
    ensures |idx.bwt| == 7
    ensures LfMapping(idx, "banana", 0) == 1 && LfMapping(idx, "banana", 1) == 5
    ensures LfMapping(idx, "banana", 2) == 6 && LfMapping(idx, "banana", 3) == 4
    ensures LfMapping(idx, "banana", 4) == 0 && LfMapping(idx, "banana", 5) == 2
    ensures LfMapping(idx, "banana", 6) == 3
  {
    BananaIndexSuffixArray(idx);
    LfFromSuffixArray(idx, "banana", 0, 1);
    LfFromSuffixArray(idx, "banana", 1, 5);
    LfFromSuffixArray(idx, "banana", 2, 6);
    LfFromSuffixArray(idx, "banana", 3, 4);
    LfFromSuffixArray(idx, "banana", 4, 0);
    LfFromSuffixArray(idx, "banana", 5, 2);
    LfFromSuffixArray(idx, "banana", 6, 3);
  }
}
