/** Cardinalities of the index sets that the occurrence counts describe. */
module Counting {
  import opened Symbols

  /** The integers of `[lo, hi)`. */
  function Range(lo: int, hi: int): (r: set<int>)
    ensures forall i :: i in r <==> lo <= i < hi
    decreases hi - lo
  {
    if hi <= lo then {} else Range(lo, hi - 1) + {hi - 1}
  }

  lemma {:induction false} RangeCard(lo: int, hi: int)
    requires lo <= hi
    ensures |Range(lo, hi)| == hi - lo
    decreases hi - lo
  {
    if lo < hi {
      RangeCard(lo, hi - 1);
      assert Range(lo, hi) == Range(lo, hi - 1) + {hi - 1};
    } else {
      assert Range(lo, hi) == {};
    }
  }

  /** `f` sends distinct members of `S` to distinct values. */
  ghost predicate InjectiveOn(S: set<int>, f: int -> int) {
    forall x, y :: x in S && y in S && f(x) == f(y) ==> x == y
  }

  /** An injective image of a finite set is as large as the set. */
  lemma {:induction false} ImageCard(S: set<int>, f: int -> int)
    requires InjectiveOn(S, f)
    ensures |set x | x in S :: f(x)| == |S|
    decreases |S|
  {
    if x :| x in S {
      var rest := S - {x};
      ImageCard(rest, f);
      var img := set y | y in rest :: f(y);
      assert (set y | y in S :: f(y)) == img + {f(x)};
      assert f(x) !in img;
    } else {
      assert forall z :: z !in S;
      assert S == {};
      assert (set y | y in S :: f(y)) == {};
    }
  }

  /** The positions of `s` that hold `a`. */
  function OccPositions(s: seq<Sym>, a: Sym): set<int> {
    set i | 0 <= i < |s| && s[i] == a
  }

  /** The positions of `s` whose symbol sorts below `a`. */
  function BelowPositions(s: seq<Sym>, a: Sym): set<int> {
    set i | 0 <= i < |s| && SymLess(s[i], a)
  }

  lemma {:induction false} OccPositionsCard(s: seq<Sym>, a: Sym)
    ensures |OccPositions(s, a)| == Occ(s, a)
  {
    if |s| == 0 {
      assert OccPositions(s, a) == {};
    } else {
      var init := s[..|s| - 1];
      OccPositionsCard(init, a);
      if s[|s| - 1] == a {
        assert OccPositions(s, a) == OccPositions(init, a) + {|s| - 1};
      } else {
        assert OccPositions(s, a) == OccPositions(init, a);
      }
    }
  }

  lemma {:induction false} BelowPositionsCard(s: seq<Sym>, a: Sym)
    ensures |BelowPositions(s, a)| == OccBelow(s, a)
  {
    if |s| == 0 {
      assert BelowPositions(s, a) == {};
    } else {
      var init := s[..|s| - 1];
      BelowPositionsCard(init, a);
      if SymLess(s[|s| - 1], a) {
        assert BelowPositions(s, a) == BelowPositions(init, a) + {|s| - 1};
      } else {
        assert BelowPositions(s, a) == BelowPositions(init, a);
      }
    }
  }
}
