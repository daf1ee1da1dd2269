/**
 * The symbols an index is built over: the characters of the text plus one
 * terminator, the sentinel, which sorts below every character whatever its
 * codepoint is.
 */
module Symbols {

  /** The character the text may not contain; it stands for the sentinel in strings. */
  const SENTINEL: char := '$'

  datatype Sym = Sentinel | Ch(c: char)

  /** Symbol order: the sentinel first, then characters by codepoint. */
  predicate SymLess(a: Sym, b: Sym) {
    match a
    case Sentinel => b.Ch?
    case Ch(x) => b.Ch? && x < b.c
  }

  /** A pattern character: '$' denotes the sentinel. */
  function ToSym(ch: char): Sym {
    if ch == SENTINEL then Sentinel else Ch(ch)
  }

  /** How a symbol is written in a string. */
  function Render(s: Sym): char {
    match s
    case Sentinel => SENTINEL
    case Ch(x) => x
  }

  function RenderAll(s: seq<Sym>): (r: seq<char>)
    ensures |r| == |s|
    ensures forall i :: 0 <= i < |s| ==> r[i] == Render(s[i])
  {
    seq(|s|, i requires 0 <= i < |s| => Render(s[i]))
  }

  /** The sentinel-terminated text `text + "$"`. */
  function Extend(text: seq<char>): (ext: seq<Sym>)
    ensures |ext| == |text| + 1
    ensures ext[|text|] == Sentinel
    ensures forall i :: 0 <= i < |text| ==> ext[i] == Ch(text[i])
  {
    seq(|text|, i requires 0 <= i < |text| => Ch(text[i])) + [Sentinel]
  }

  /** `ext` ends in the only sentinel it holds. */
  predicate SentinelTerminated(ext: seq<Sym>) {
    && |ext| > 0
    && ext[|ext| - 1] == Sentinel
    && forall i :: 0 <= i < |ext| - 1 ==> ext[i].Ch?
  }

  lemma ExtendIsSentinelTerminated(text: seq<char>)
    ensures SentinelTerminated(Extend(text))
  {
  }

  /** Number of occurrences of `a` in `s`. */
  function Occ(s: seq<Sym>, a: Sym): nat
  {
    if |s| == 0 then 0
    else Occ(s[..|s| - 1], a) + (if s[|s| - 1] == a then 1 else 0)
  }

  /**
   * Number of symbols of `s` that sort below `a`. Over the terminated text this
   * is the first row of the sorted matrix whose rotation starts with `a`.
   */
  function OccBelow(s: seq<Sym>, a: Sym): nat
  {
    if |s| == 0 then 0
    else OccBelow(s[..|s| - 1], a) + (if SymLess(s[|s| - 1], a) then 1 else 0)
  }

  /**
   * Number of occurrences of `ch` in `text`. The alphabet and count stages work on
   * the raw characters, before the terminator is added, so they count characters;
   * `OccOfLifted` and `OccBelowOfLifted` tie these counts to `Occ` and `OccBelow`.
   */
  function CountChar(text: seq<char>, ch: char): nat
  {
    if |text| == 0 then 0
    else CountChar(text[..|text| - 1], ch) + (if text[|text| - 1] == ch then 1 else 0)
  }

  /** Number of characters of `text` below `ch`. */
  function CountCharBelow(text: seq<char>, ch: char): nat
  {
    if |text| == 0 then 0
    else CountCharBelow(text[..|text| - 1], ch) + (if text[|text| - 1] < ch then 1 else 0)
  }

  lemma {:induction false} OccStep(s: seq<Sym>, i: nat, a: Sym)
    requires i < |s|
    ensures Occ(s[..i + 1], a) == Occ(s[..i], a) + (if s[i] == a then 1 else 0)
  {
    assert s[..i + 1][..i] == s[..i];
  }

  lemma {:induction false} OccMonotone(s: seq<Sym>, i: nat, j: nat, a: Sym)
    requires i <= j <= |s|
    ensures Occ(s[..i], a) <= Occ(s[..j], a)
    decreases j - i
  {
    if i < j {
      OccMonotone(s, i, j - 1, a);
      OccStep(s, j - 1, a);
    }
  }

  lemma {:induction false} OccZeroIffAbsent(s: seq<Sym>, a: Sym)
    ensures Occ(s, a) == 0 <==> a !in s
  {
    if |s| > 0 {
      OccZeroIffAbsent(s[..|s| - 1], a);
      assert s == s[..|s| - 1] + [s[|s| - 1]];
    }
  }

  lemma {:induction false} OccOfExtend(text: seq<char>, ch: char)
    ensures Occ(Extend(text), Ch(ch)) == CountChar(text, ch)
  {
    var ext := Extend(text);
    assert ext[..|text|] == seq(|text|, i requires 0 <= i < |text| => Ch(text[i]));
    OccOfLifted(text, ch);
  }

  lemma {:induction false} OccOfLifted(text: seq<char>, ch: char)
    ensures Occ(seq(|text|, i requires 0 <= i < |text| => Ch(text[i])), Ch(ch)) == CountChar(text, ch)
  {
    var lifted := seq(|text|, i requires 0 <= i < |text| => Ch(text[i]));
    if |text| > 0 {
      var init := text[..|text| - 1];
      OccOfLifted(init, ch);
      assert lifted[..|lifted| - 1] == seq(|init|, i requires 0 <= i < |init| => Ch(init[i]));
    }
  }

  lemma {:induction false} OccBelowOfLifted(text: seq<char>, ch: char)
    ensures OccBelow(seq(|text|, i requires 0 <= i < |text| => Ch(text[i])), Ch(ch)) == CountCharBelow(text, ch)
  {
    var lifted := seq(|text|, i requires 0 <= i < |text| => Ch(text[i]));
    if |text| > 0 {
      var init := text[..|text| - 1];
      OccBelowOfLifted(init, ch);
      assert lifted[..|lifted| - 1] == seq(|init|, i requires 0 <= i < |init| => Ch(init[i]));
    }
  }

  /** In the terminated text, the symbols below a character are the sentinel and the smaller characters. */
  lemma {:induction false} OccBelowOfExtend(text: seq<char>, ch: char)
    ensures OccBelow(Extend(text), Ch(ch)) == CountCharBelow(text, ch) + 1
  {
    var ext := Extend(text);
    assert ext[..|text|] == seq(|text|, i requires 0 <= i < |text| => Ch(text[i]));
    OccBelowOfLifted(text, ch);
  }
}
