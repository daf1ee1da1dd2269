/**
 * The FM-index over a text: the record the pipeline fills in stage by stage,
 * the five-stage build, the invariant `Describes` that a built index keeps,
 * the sorted matrix it is read from, and the table lookups (first row, rank)
 * on which the queries in `Queries` are built.
 */
module FmIndex {
  import opened Wrappers
  import opened Symbols
  import opened Lex
  import opened Counting
  import opened Alphabet
  import opened SuffixArrays
  import opened Bwt
  import opened LastToFirst

  /** The pipeline stages; an index records which of them have run. */
  datatype Stage = AlphabetFound | CountsComputed | SuffixArrayBuilt | BwtBuilt | TalliesBuilt

  const AllStages: set<Stage> := {AlphabetFound, CountsComputed, SuffixArrayBuilt, BwtBuilt, TalliesBuilt}

  /**
   * The index: the alphabet, its counts aligned by position, the suffix
   * array, the transform and the tally table (one row per alphabet
   * character), plus the stages that have filled them in.
   */
  datatype FMIndex = FMIndex(
    alphabet: seq<char>,
    counts: seq<nat>,
    suffixArray: seq<nat>,
    bwt: seq<Sym>,
    tallies: seq<seq<nat>>,
    done: set<Stage>)

  datatype BuildError = SentinelInText

  /** An empty index on which no stage has run. */
  function New(): (idx: FMIndex)
    ensures idx.done == {}
    ensures idx.alphabet == [] && idx.counts == [] && idx.suffixArray == [] && idx.bwt == [] && idx.tallies == []
  {
    FMIndex([], [], [], [], [], {})
  }

  /** Stage one: stores the alphabet of `text`. */
  function StoreAlphabet(idx: FMIndex, text: seq<char>): (r: FMIndex)
    ensures StrictlyAscending(r.alphabet)
    ensures forall ch :: ch in r.alphabet <==> ch in text && ch != SENTINEL
    ensures AlphabetFound in r.done && r.done == idx.done + {AlphabetFound}
    ensures r.counts == idx.counts && r.suffixArray == idx.suffixArray && r.bwt == idx.bwt && r.tallies == idx.tallies
  {
    idx.(alphabet := FindAlphabet(text), done := idx.done + {AlphabetFound})
  }

  /** Stage two: stores, for each stored alphabet character, its number of occurrences in `text`. */
  function StoreCounts(idx: FMIndex, text: seq<char>): (r: FMIndex)
    requires AlphabetFound in idx.done
    ensures |r.counts| == |idx.alphabet|
    ensures forall k :: 0 <= k < |idx.alphabet| ==> r.counts[k] == CountChar(text, idx.alphabet[k])
    ensures r.done == idx.done + {CountsComputed}
    ensures r.alphabet == idx.alphabet && r.suffixArray == idx.suffixArray && r.bwt == idx.bwt && r.tallies == idx.tallies
  {
    idx.(counts := ComputeCounts(idx.alphabet, text), done := idx.done + {CountsComputed})
  }

  /** Stage three: stores the suffix array of `text`. */
  function StoreSuffixArray(idx: FMIndex, text: seq<char>): (r: FMIndex)
    ensures IsPermutation(r.suffixArray, |text| + 1)
    ensures SortedSuffixes(Extend(text), r.suffixArray)
    ensures r.done == idx.done + {SuffixArrayBuilt}
    ensures r.alphabet == idx.alphabet && r.counts == idx.counts && r.bwt == idx.bwt && r.tallies == idx.tallies
  {
    idx.(suffixArray := SuffixArray(text), done := idx.done + {SuffixArrayBuilt})
  }

  /** The matrix of sorted rotations, from the stored suffix array; the index is left as it was. */
  function Matrix(idx: FMIndex, text: seq<char>): (bwm: seq<seq<Sym>>)
    requires SuffixArrayBuilt in idx.done
    requires forall i :: 0 <= i < |idx.suffixArray| ==> idx.suffixArray[i] <= |text|
    ensures |bwm| == |idx.suffixArray|
    ensures forall i :: 0 <= i < |bwm| ==> bwm[i] == Rotation(Extend(text), idx.suffixArray[i])
    ensures forall i :: 0 <= i < |bwm| ==>
      |bwm[i]| == |text| + 1 && bwm[i][|text|] == ConstructBwt(text, idx.suffixArray)[i]
    ensures SortedSuffixes(Extend(text), idx.suffixArray) ==>
      forall i, j :: 0 <= i < j < |bwm| ==> LexLess(bwm[i], bwm[j])
  {
    ConstructBwm(text, idx.suffixArray)
  }

  /** Stage four: stores the transform of `text` read through the stored suffix array. */
  function StoreBwt(idx: FMIndex, text: seq<char>): (r: FMIndex)
    requires SuffixArrayBuilt in idx.done
    ensures |r.bwt| == |idx.suffixArray|
    ensures forall i :: 0 <= i < |idx.suffixArray| && idx.suffixArray[i] == 0 ==> r.bwt[i] == Sentinel
    ensures forall i :: 0 <= i < |idx.suffixArray| && 0 < idx.suffixArray[i] <= |text| ==>
      r.bwt[i] == Ch(text[idx.suffixArray[i] - 1])
    ensures r.done == idx.done + {BwtBuilt}
    ensures r.alphabet == idx.alphabet && r.counts == idx.counts && r.suffixArray == idx.suffixArray && r.tallies == idx.tallies
  {
    idx.(bwt := ConstructBwt(text, idx.suffixArray), done := idx.done + {BwtBuilt})
  }

  /** The number of runs of the stored transform. */
  method ComputeR(idx: FMIndex) returns (r: nat)
    requires BwtBuilt in idx.done
    ensures r == |RunLengthEncode(idx.bwt)|
    ensures |idx.bwt| > 0 ==> 1 <= r <= |idx.bwt|
  {
    r := CountRuns(idx.bwt);
  }

  /** Stage five: stores the tally table of the stored transform over the stored alphabet. */
  function StoreTallies(idx: FMIndex): (r: FMIndex)
    requires BwtBuilt in idx.done && AlphabetFound in idx.done
    ensures |r.tallies| == |idx.alphabet|
    ensures forall k :: 0 <= k < |idx.alphabet| ==> |r.tallies[k]| == |idx.bwt|
    ensures forall k, i {:trigger r.tallies[k][i]} :: 0 <= k < |idx.alphabet| && 0 <= i < |idx.bwt| ==>
      r.tallies[k][i] == Occ(idx.bwt[..i + 1], Ch(idx.alphabet[k]))
    ensures r.done == idx.done + {TalliesBuilt}
    ensures r.alphabet == idx.alphabet && r.counts == idx.counts && r.suffixArray == idx.suffixArray && r.bwt == idx.bwt
  {
    idx.(tallies := ConstructTallies(idx.alphabet, idx.bwt), done := idx.done + {TalliesBuilt})
  }

  /** The index of `text` as the five stages leave it. */
  function FullIndex(text: seq<char>): FMIndex {
    var alpha := FindAlphabet(text);
    var bwt := BwtOf(text);
    FMIndex(alpha, ComputeCounts(alpha, text), SuffixArray(text), bwt, ConstructTallies(alpha, bwt), AllStages)
  }

  /** Runs the five stages in order; a text holding the sentinel character is refused. */
  function Build(idx: FMIndex, text: seq<char>): (r: Result<FMIndex, BuildError>)
    ensures r.Failure? <==> SENTINEL in text
    ensures r.Failure? ==> r.error == SentinelInText
    ensures r.Success? ==> r.value == FullIndex(text)
  {
    if SENTINEL in text then Failure(SentinelInText)
    else
      var r := StoreTallies(StoreBwt(StoreSuffixArray(StoreCounts(StoreAlphabet(idx, text), text), text), text));
      assert r.done == idx.done + AllStages;
      EveryStageListed(idx.done);
      assert r.done == AllStages;
      Success(r)
  }

  /**
   * What a built index of `text` holds, in the terms the queries need: the
   * suffix array and transform index the terminated text, the alphabet is
   * ascending and covers the text, and the counts and tallies are the ones
   * the stages compute from them.
   */
  ghost predicate Describes(idx: FMIndex, text: seq<char>) {
    && SENTINEL !in text
    && idx.done == AllStages
    && Indexed(Extend(text), idx.suffixArray, idx.bwt)
    && StrictlyAscending(idx.alphabet)
    && (forall i :: 0 <= i < |text| ==> text[i] in idx.alphabet)
    && |idx.counts| == |idx.alphabet|
    && (forall k :: 0 <= k < |idx.alphabet| ==> idx.counts[k] == CountChar(text, idx.alphabet[k]))
    && |idx.tallies| == |idx.alphabet|
    && (forall k :: 0 <= k < |idx.alphabet| ==> |idx.tallies[k]| == |idx.bwt|)
    && (forall k, i {:trigger idx.tallies[k][i]} :: 0 <= k < |idx.alphabet| && 0 <= i < |idx.bwt| ==>
          idx.tallies[k][i] == Occ(idx.bwt[..i + 1], Ch(idx.alphabet[k])))
  }

  /** Building a text without the sentinel character gives an index describing it. */
  lemma BuildDescribes(idx: FMIndex, text: seq<char>)
    requires Build(idx, text).Success?
    ensures Describes(Build(idx, text).value, text)
  {
    TextIndexed(text);
    AlphabetCoversText(text);
  }

  /** The matrix of a built index has the stored transform as its last column, and its rows ascend strictly. */
  lemma BuiltMatrix(idx: FMIndex, text: seq<char>)
    requires Describes(idx, text)
    ensures var bwm := Matrix(idx, text);
      && |bwm| == |idx.bwt|
      && (forall i :: 0 <= i < |bwm| ==> |bwm[i]| == |bwm| && bwm[i][|bwm| - 1] == idx.bwt[i])
      && (forall i, j :: 0 <= i < j < |bwm| ==> LexLess(bwm[i], bwm[j]))
  {
    var ext := Extend(text);
    var bwm := Matrix(idx, text);
    forall i | 0 <= i < |bwm|
      ensures bwm[i][|bwm| - 1] == idx.bwt[i]
    {
      RotationLast(ext, idx.suffixArray[i]);
    }
  }

  /** `AllStages` lists every stage, so completing all of them leaves exactly that set. */
  lemma EveryStageListed(done: set<Stage>)
    ensures done + AllStages == AllStages
  {
    forall s | s in done
      ensures s in AllStages
    {
      match s
      case AlphabetFound =>
      case CountsComputed =>
      case SuffixArrayBuilt =>
      case BwtBuilt =>
      case TalliesBuilt =>
    }
  }

  lemma AlphabetCoversText(text: seq<char>)
    requires SENTINEL !in text
    ensures forall i :: 0 <= i < |text| ==> text[i] in FindAlphabet(text)
  {
    forall i | 0 <= i < |text|
      ensures text[i] in FindAlphabet(text)
    {
      assert text[i] in text;
    }
  }

  /** The shape every built index has. */
  lemma BuiltShape(idx: FMIndex, text: seq<char>)
    requires Describes(idx, text)
    ensures |idx.bwt| == |idx.suffixArray| && |idx.bwt| > 0
    ensures |idx.counts| == |idx.alphabet| == |idx.tallies|
    ensures forall k :: 0 <= k < |idx.tallies| ==> |idx.tallies[k]| == |idx.bwt|
    ensures forall i :: 0 <= i < |idx.bwt| && idx.bwt[i].Ch? ==> idx.bwt[i].c in idx.alphabet
  {
    var ext := Extend(text);
    forall i | 0 <= i < |idx.bwt| && idx.bwt[i].Ch?
      ensures idx.bwt[i].c in idx.alphabet
    {
      assert idx.bwt[i] == ext[Prev(idx.suffixArray[i], |ext|)];
    }
  }

  /** The last entry of each tally row is that character's count: the transform holds every text character as often as the text. */
  lemma TalliesEndAtCounts(idx: FMIndex, text: seq<char>)
    requires Describes(idx, text)
    ensures |idx.bwt| > 0 && |idx.tallies| == |idx.counts|
    ensures forall k :: 0 <= k < |idx.tallies| ==> |idx.tallies[k]| == |idx.bwt|
    ensures forall k :: 0 <= k < |idx.tallies| ==> idx.tallies[k][|idx.bwt| - 1] == idx.counts[k]
  {
    var n := |idx.bwt|;
    forall k | 0 <= k < |idx.tallies|
      ensures idx.tallies[k][n - 1] == idx.counts[k]
    {
      TallyOfWholeBwt(idx, text, k);
    }
  }

  lemma TallyOfWholeBwt(idx: FMIndex, text: seq<char>, k: nat)
    requires Describes(idx, text) && k < |idx.alphabet|
    ensures |idx.bwt| > 0
    ensures idx.tallies[k][|idx.bwt| - 1] == idx.counts[k]
  {
    var n := |idx.bwt|;
    var a := idx.alphabet[k];
    assert idx.bwt[..n - 1 + 1] == idx.bwt;
    PermutedOcc(Extend(text), idx.suffixArray, idx.bwt, Ch(a));
    OccOfExtend(text, a);
  }

  /** `c` is the sentinel or a character of the alphabet. */
  predicate Indexable(idx: FMIndex, c: Sym) {
    c.Sentinel? || c.c in idx.alphabet
  }

  /** The first matrix row whose rotation starts with `c`: one for the sentinel plus the counts of the smaller characters. */
  function FirstRow(idx: FMIndex, c: Sym): nat
    requires |idx.counts| == |idx.alphabet| && Indexable(idx, c)
  {
    match c
    case Sentinel => 0
    case Ch(x) => 1 + Sum(idx.counts[..IndexOf(idx.alphabet, x)])
  }

  /** The number of copies of `c` among the first `i` transform symbols, read off the tally table. */
  function RankBefore(idx: FMIndex, c: Sym, i: nat): nat
    requires |idx.tallies| == |idx.alphabet| && Indexable(idx, c)
    requires forall k :: 0 <= k < |idx.tallies| ==> |idx.tallies[k]| == |idx.bwt|
    requires i <= |idx.bwt|
  {
    match c
    case Sentinel => if Sentinel in idx.bwt[..i] then 1 else 0
    case Ch(x) => if i == 0 then 0 else idx.tallies[IndexOf(idx.alphabet, x)][i - 1]
  }

  lemma FirstRowCorrect(idx: FMIndex, text: seq<char>, c: Sym)
    requires Describes(idx, text) && Indexable(idx, c)
    ensures |idx.counts| == |idx.alphabet|
    ensures FirstRow(idx, c) == OccBelow(Extend(text), c)
  {
    if c.Ch? {
      var k := IndexOf(idx.alphabet, c.c);
      assert idx.counts == ComputeCounts(idx.alphabet, text);
      PrefixSumIsBelow(idx.alphabet, text, k);
      OccBelowOfExtend(text, c.c);
    } else {
      NothingBelowSentinel(Extend(text));
    }
  }

  lemma RankCorrect(idx: FMIndex, text: seq<char>, c: Sym, i: nat)
    requires Describes(idx, text) && Indexable(idx, c) && i <= |idx.bwt|
    ensures |idx.tallies| == |idx.alphabet|
    ensures forall k :: 0 <= k < |idx.tallies| ==> |idx.tallies[k]| == |idx.bwt|
    ensures RankBefore(idx, c, i) == Occ(idx.bwt[..i], c)
  {
    if c.Sentinel? {
      SentinelOnce(Extend(text), idx.suffixArray, idx.bwt);
      SentinelRank(idx.bwt, i);
    } else if i > 0 {
      assert idx.bwt[..i - 1 + 1] == idx.bwt[..i];
    }
  }

  /** In a sequence holding the sentinel once, a prefix holds it once or not at all. */
  lemma SentinelRank(s: seq<Sym>, i: nat)
    requires i <= |s| && Occ(s, Sentinel) == 1
    ensures Occ(s[..i], Sentinel) == if Sentinel in s[..i] then 1 else 0
  {
    OccMonotone(s, i, |s|, Sentinel);
    assert s[..|s|] == s;
    OccZeroIffAbsent(s[..i], Sentinel);
  }
}
