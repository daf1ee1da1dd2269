/**
 * Lexicographic order on symbol sequences, the order in which the suffixes of
 * the terminated text, and the rows of the Burrows-Wheeler matrix, are sorted.
 */
module Lex {
  import opened Symbols

  /** `a` sorts strictly before `b`; a proper prefix sorts first. */
  predicate LexLess(a: seq<Sym>, b: seq<Sym>)
    decreases |a|
  {
    if |a| == 0 then |b| > 0
    else if |b| == 0 then false
    else SymLess(a[0], b[0]) || (a[0] == b[0] && LexLess(a[1..], b[1..]))
  }

  lemma {:induction false} LexIrreflexive(a: seq<Sym>)
    ensures !LexLess(a, a)
  {
    if |a| > 0 {
      LexIrreflexive(a[1..]);
    }
  }

  lemma {:induction false} LexTransitive(a: seq<Sym>, b: seq<Sym>, c: seq<Sym>)
    requires LexLess(a, b) && LexLess(b, c)
    ensures LexLess(a, c)
    decreases |a|
  {
    if |a| > 0 && |c| > 0 && a[0] == b[0] && b[0] == c[0] {
      LexTransitive(a[1..], b[1..], c[1..]);
    }
  }

  lemma {:induction false} LexAsymmetric(a: seq<Sym>, b: seq<Sym>)
    requires LexLess(a, b)
    ensures !LexLess(b, a)
  {
    if LexLess(b, a) {
      LexTransitive(a, b, a);
      LexIrreflexive(a);
    }
  }

  lemma {:induction false} LexTotal(a: seq<Sym>, b: seq<Sym>)
    requires a != b
    ensures LexLess(a, b) || LexLess(b, a)
    decreases |a|
  {
    if |a| > 0 && |b| > 0 && a[0] == b[0] {
      assert a == [a[0]] + a[1..] && b == [b[0]] + b[1..];
      LexTotal(a[1..], b[1..]);
    }
  }

  /**
   * Once two sequences differ at a position both reach, whatever follows them
   * does not change their order.
   */
  lemma {:induction false} LexAppend(a: seq<Sym>, b: seq<Sym>, u: seq<Sym>, v: seq<Sym>, k: nat)
    requires k < |a| && k < |b| && a[k] != b[k]
    ensures LexLess(a + u, b + v) == LexLess(a, b)
    decreases k
  {
    if a[0] == b[0] {
      assert (a + u)[1..] == a[1..] + u;
      assert (b + v)[1..] == b[1..] + v;
      LexAppend(a[1..], b[1..], u, v, k - 1);
    }
  }

  /** Suffix `i` of `ext` sorts strictly before suffix `j`. */
  predicate SufLess(ext: seq<Sym>, i: nat, j: nat)
    requires i <= |ext| && j <= |ext|
  {
    LexLess(ext[i..], ext[j..])
  }

  /** Suffixes at distinct positions have distinct lengths, so they are always ordered. */
  lemma SufTotal(ext: seq<Sym>, i: nat, j: nat)
    requires i <= |ext| && j <= |ext| && i != j
    ensures SufLess(ext, i, j) || SufLess(ext, j, i)
  {
    assert |ext[i..]| != |ext[j..]|;
    LexTotal(ext[i..], ext[j..]);
  }

  /** The suffix that is only the sentinel sorts first. */
  lemma SentinelSuffixLeast(ext: seq<Sym>, q: nat)
    requires SentinelTerminated(ext) && q < |ext|
    ensures !SufLess(ext, q, |ext| - 1)
  {
    var last := ext[|ext| - 1..];
    assert last == [Sentinel];
    assert !LexLess(ext[q..][1..], last[1..]);
  }

  /** Suffix `q` is its first symbol followed by suffix `q + 1`. */
  lemma SuffixCons(ext: seq<Sym>, q: nat)
    requires q < |ext|
    ensures ext[q..] == [ext[q]] + ext[q + 1..]
  {
  }

  /**
   * Comparing suffix `q` with suffix `p + 1` whose first symbol is the
   * character `c`: first symbols decide, then the following suffixes.
   */
  lemma SufLessCons(ext: seq<Sym>, q: nat, p: nat)
    requires SentinelTerminated(ext) && q < |ext| && p < |ext| - 1
    ensures SufLess(ext, q, p) <==>
      SymLess(ext[q], ext[p]) || (ext[q] == ext[p] && q < |ext| - 1 && SufLess(ext, q + 1, p + 1))
  {
    SuffixCons(ext, q);
    SuffixCons(ext, p);
  }

  /** The rotation of `ext` that starts at position `q`. */
  function Rotation(ext: seq<Sym>, q: nat): (r: seq<Sym>)
    requires q <= |ext|
    ensures |r| == |ext|
  {
    ext[q..] + ext[..q]
  }

  /** In a sentinel-terminated text, rotations sort exactly as the suffixes they start with. */
  lemma RotationOrder(ext: seq<Sym>, i: nat, j: nat)
    requires SentinelTerminated(ext) && i < |ext| && j < |ext| && i != j
    ensures LexLess(Rotation(ext, i), Rotation(ext, j)) == SufLess(ext, i, j)
  {
    var n := |ext|;
    var k := if i < j then n - 1 - j else n - 1 - i;
    assert ext[i..][k] != ext[j..][k];
    LexAppend(ext[i..], ext[j..], ext[..i], ext[..j], k);
  }
}
