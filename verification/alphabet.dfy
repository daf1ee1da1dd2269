/**
 * Stages one and two of the pipeline: the alphabet of the text and the
 * number of occurrences of each alphabet character.
 */
module Alphabet {
  import opened Symbols

  predicate StrictlyAscending(s: seq<char>) {
    forall i, j :: 0 <= i < j < |s| ==> s[i] < s[j]
  }

  /** Adds `ch` to an ascending, duplicate-free character list. */
  function InsertChar(alpha: seq<char>, ch: char): (r: seq<char>)
    requires StrictlyAscending(alpha)
    ensures StrictlyAscending(r)
    ensures forall x :: x in r <==> x in alpha || x == ch
  {
    if |alpha| == 0 then [ch]
    else if ch < alpha[0] then [ch] + alpha
    else if ch == alpha[0] then alpha
    else
      var rest := InsertChar(alpha[1..], ch);
      assert forall j :: 0 <= j < |rest| ==> alpha[0] < rest[j] by {
        forall j | 0 <= j < |rest|
          ensures alpha[0] < rest[j]
        {
          assert rest[j] in rest;
          if rest[j] != ch {
            var k :| 0 <= k < |alpha[1..]| && alpha[1..][k] == rest[j];
            assert alpha[k + 1] == rest[j];
          }
        }
      }
      [alpha[0]] + rest
  }

  /** The distinct characters of `text` other than the sentinel, ascending by codepoint. */
  function FindAlphabet(text: seq<char>): (alpha: seq<char>)
    ensures StrictlyAscending(alpha)
    ensures forall ch :: ch in alpha <==> ch in text && ch != SENTINEL
  {
    if |text| == 0 then []
    else
      var init := text[..|text| - 1];
      var last := text[|text| - 1];
      assert text == init + [last];
      var prev := FindAlphabet(init);
      if last == SENTINEL then prev else InsertChar(prev, last)
  }

  /** In an ascending list, the members after the first are the members other than the first. */
  lemma AscendingTail(s: seq<char>, x: char)
    requires StrictlyAscending(s) && |s| > 0
    ensures x in s[1..] <==> x in s && x != s[0]
  {
    if x in s && x != s[0] {
      var i :| 0 <= i < |s| && s[i] == x;
      assert s[1..][i - 1] == x;
    }
  }

  lemma FirstMember(s: seq<char>)
    ensures |s| > 0 ==> s[0] in s
  {
  }

  /** An ascending, duplicate-free list is determined by its members: the alphabet's contract pins it down. */
  lemma {:induction false} AscendingUnique(a: seq<char>, b: seq<char>)
    requires StrictlyAscending(a) && StrictlyAscending(b)
    requires forall x :: x in a <==> x in b
    ensures a == b
    decreases |a|
  {
    if |a| == 0 {
      FirstMember(b);
    } else {
      assert a[0] in a;
      var i :| 0 <= i < |b| && b[i] == a[0];
      assert b[0] in b;
      var j :| 0 <= j < |a| && a[j] == b[0];
      assert a[0] == b[0];
      forall x
        ensures x in a[1..] <==> x in b[1..]
      {
        AscendingTail(a, x);
        AscendingTail(b, x);
      }
      AscendingUnique(a[1..], b[1..]);
      assert a == [a[0]] + a[1..];
      assert b == [b[0]] + b[1..];
    }
  }

  /**
   * One pass over `text`, adding one to the slot of every alphabet entry equal
   * to the scanned character.
   */
  function ComputeCounts(alpha: seq<char>, text: seq<char>): (counts: seq<nat>)
    ensures |counts| == |alpha|
    ensures forall k :: 0 <= k < |alpha| ==> counts[k] == CountChar(text, alpha[k])
  {
    if |text| == 0 then seq(|alpha|, k => 0)
    else
      var prev := ComputeCounts(alpha, text[..|text| - 1]);
      var last := text[|text| - 1];
      seq(|alpha|, k requires 0 <= k < |alpha| => prev[k] + (if alpha[k] == last then 1 else 0))
  }

  function Sum(s: seq<nat>): nat {
    if |s| == 0 then 0 else Sum(s[..|s| - 1]) + s[|s| - 1]
  }

  /** The first position of `ch` in `alpha`. */
  function IndexOf(alpha: seq<char>, ch: char): (k: nat)
    requires ch in alpha
    ensures k < |alpha| && alpha[k] == ch
    ensures forall j :: 0 <= j < k ==> alpha[j] != ch
  {
    if alpha[0] == ch then 0 else 1 + IndexOf(alpha[1..], ch)
  }

  lemma {:induction false} NoneBelow(text: seq<char>, ch: char)
    requires forall i :: 0 <= i < |text| ==> ch <= text[i]
    ensures CountCharBelow(text, ch) == 0
  {
    if |text| > 0 {
      NoneBelow(text[..|text| - 1], ch);
    }
  }

  /** With no character of `text` strictly between `a` and `b`, the characters below `b` are those below `a` and the copies of `a`. */
  lemma {:induction false} BelowStep(text: seq<char>, a: char, b: char)
    requires a < b
    requires forall i :: 0 <= i < |text| ==> !(a < text[i] < b)
    ensures CountCharBelow(text, b) == CountCharBelow(text, a) + CountChar(text, a)
  {
    if |text| > 0 {
      BelowStep(text[..|text| - 1], a, b);
    }
  }

  lemma {:induction false} AllAtMost(text: seq<char>, a: char)
    requires forall i :: 0 <= i < |text| ==> text[i] <= a
    ensures CountCharBelow(text, a) + CountChar(text, a) == |text|
  {
    if |text| > 0 {
      AllAtMost(text[..|text| - 1], a);
    }
  }

  lemma SumStep(s: seq<nat>, k: nat)
    requires k < |s|
    ensures Sum(s[..k + 1]) == Sum(s[..k]) + s[k]
  {
    assert s[..k + 1][..k] == s[..k];
  }

  /** No text character lies strictly between two neighbouring alphabet entries. */
  lemma NoCharBetween(alpha: seq<char>, text: seq<char>, K: nat)
    requires StrictlyAscending(alpha)
    requires forall i :: 0 <= i < |text| ==> text[i] in alpha
    requires 0 < K < |alpha|
    ensures forall i :: 0 <= i < |text| ==> !(alpha[K - 1] < text[i] < alpha[K])
  {
    forall i | 0 <= i < |text|
      ensures !(alpha[K - 1] < text[i] < alpha[K])
    {
      var j :| 0 <= j < |alpha| && alpha[j] == text[i];
      if j < K - 1 {
        assert alpha[j] < alpha[K - 1];
      } else if j > K {
        assert alpha[K] < alpha[j];
      }
    }
  }

  /**
   * The counts of the alphabet entries before `alpha[K]` add up to the number
   * of characters of the text that sort below `alpha[K]`.
   */
  lemma {:induction false} PrefixSumIsBelow(alpha: seq<char>, text: seq<char>, K: nat)
    requires StrictlyAscending(alpha)
    requires forall i :: 0 <= i < |text| ==> text[i] in alpha
    requires K < |alpha|
    ensures Sum(ComputeCounts(alpha, text)[..K]) == CountCharBelow(text, alpha[K])
  {
    var counts := ComputeCounts(alpha, text);
    if K == 0 {
      assert counts[..0] == [];
      forall i | 0 <= i < |text|
        ensures alpha[0] <= text[i]
      {
        var j :| 0 <= j < |alpha| && alpha[j] == text[i];
      }
      NoneBelow(text, alpha[0]);
    } else {
      PrefixSumIsBelow(alpha, text, K - 1);
      SumStep(counts, K - 1);
      NoCharBetween(alpha, text, K);
      BelowStep(text, alpha[K - 1], alpha[K]);
    }
  }

  /** The counts add up to the length of the text. */
  lemma CountsSumToLength(alpha: seq<char>, text: seq<char>)
    requires StrictlyAscending(alpha)
    requires forall i :: 0 <= i < |text| ==> text[i] in alpha
    ensures Sum(ComputeCounts(alpha, text)) == |text|
  {
    var counts := ComputeCounts(alpha, text);
    if |alpha| == 0 {
      assert |text| == 0;
    } else {
      var K := |alpha| - 1;
      PrefixSumIsBelow(alpha, text, K);
      SumStep(counts, K);
      assert counts[..K + 1] == counts;
      forall i | 0 <= i < |text|
        ensures text[i] <= alpha[K]
      {
        var j :| 0 <= j < |alpha| && alpha[j] == text[i];
        if j < K {
          assert alpha[j] < alpha[K];
        }
      }
      AllAtMost(text, alpha[K]);
    }
  }

  /** Every alphabet character occurs in the text. */
  lemma AlphabetCountsPositive(text: seq<char>, k: nat)
    requires k < |FindAlphabet(text)|
    ensures ComputeCounts(FindAlphabet(text), text)[k] > 0
  {
    var alpha := FindAlphabet(text);
    assert alpha[k] in alpha;
    CountCharPositive(text, alpha[k]);
  }

  lemma {:induction false} CountCharPositive(text: seq<char>, ch: char)
    requires ch in text
    ensures CountChar(text, ch) > 0
  {
    var init := text[..|text| - 1];
    if text[|text| - 1] != ch {
      assert text == init + [text[|text| - 1]];
      CountCharPositive(init, ch);
    }
  }
}
