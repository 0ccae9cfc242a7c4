/** Shared vocabulary of the engine: the cell encoding, the 25-cell board,
    the two roles, and small sequence helpers (counting and filtering) that
    stand for the `Array.prototype.filter` calls of the source. */
module Types {

  /** Cell encoding: an empty cell, a hunter piece, a wolf piece. */
  const EMPTY: int := 0
  const HUNTER: int := 1
  const WOLF: int := 2

  type Cell = c: int | 0 <= c <= 2

  /** Number of cells of the 5x5 board. */
  const SIZE: int := 25

  /** A board is a flat sequence of 25 cells, read row by row. */
  type Board = b: seq<Cell> | |b| == 25 witness seq(25, _ => 0)

  datatype Role = Hunter | Wolf

  function Opponent(r: Role): (o: Role)
    ensures o != r
  {
    if r == Wolf then Hunter else Wolf
  }

  datatype Option<T> = None | Some(value: T)

  /** `board[p] === c` under the source language's rules: reading outside
      the array gives `undefined`, which equals no cell value. */
  predicate Holds(b: seq<Cell>, p: int, c: Cell)
  {
    0 <= p < |b| && b[p] == c
  }

  /** Number of cells of `s` holding `c` (the length of a filter). */
  function Count(s: seq<Cell>, c: Cell): (n: nat)
    ensures n <= |s|
  {
    if s == [] then 0
    else Count(s[..|s| - 1], c) + (if s[|s| - 1] == c then 1 else 0)
  }

  /** Counting agrees with the multiplicity of `c` in the multiset of cells. */
  lemma {:induction false} CountIsMultiplicity(s: seq<Cell>, c: Cell)
    ensures Count(s, c) == multiset(s)[c]
  {
    if s != [] {
      var n := |s| - 1;
      assert s == s[..n] + [s[n]];
      CountIsMultiplicity(s[..n], c);
    }
  }

  /** Overwriting one cell changes each count by at most the cell written
      and the cell erased. */
  lemma CountUpdate(s: seq<Cell>, i: int, v: Cell, c: Cell)
    requires 0 <= i < |s|
    ensures Count(s[i := v], c)
         == Count(s, c) - (if s[i] == c then 1 else 0) + (if v == c then 1 else 0)
  {
    CountIsMultiplicity(s, c);
    CountIsMultiplicity(s[i := v], c);
    assert multiset(s[i := v]) == multiset(s) - multiset{s[i]} + multiset{v};
  }

  lemma {:induction false} CountConcat(s: seq<Cell>, t: seq<Cell>, c: Cell)
    ensures Count(s + t, c) == Count(s, c) + Count(t, c)
  {
    CountIsMultiplicity(s, c);
    CountIsMultiplicity(t, c);
    CountIsMultiplicity(s + t, c);
  }

  /** No cell holds `c` exactly when `c` is counted zero times. */
  lemma {:induction false} CountZero(s: seq<Cell>, c: Cell)
    ensures Count(s, c) == 0 <==> forall i :: 0 <= i < |s| ==> s[i] != c
  {
    CountIsMultiplicity(s, c);
    if Count(s, c) == 0 {
      forall i | 0 <= i < |s| ensures s[i] != c {
        assert s[i] in multiset(s);
      }
    } else {
      assert c in multiset(s);
      assert c in s;
    }
  }

  /** Two kinds never counted together exceed the board. */
  lemma {:induction false} CountTwoKinds(s: seq<Cell>, c: Cell, d: Cell)
    requires c != d
    ensures Count(s, c) + Count(s, d) <= |s|
  {
    if s != [] {
      CountTwoKinds(s[..|s| - 1], c, d);
    }
  }

  /** Order-preserving filter. */
  function Filter<T(!new)>(s: seq<T>, f: T -> bool): (r: seq<T>)
    ensures |r| <= |s|
    ensures forall x :: x in r <==> x in s && f(x)
  {
    if s == [] then [] else (if f(s[0]) then [s[0]] else []) + Filter(s[1..], f)
  }

  lemma {:induction false} FilterConcat<T(!new)>(s: seq<T>, t: seq<T>, f: T -> bool)
    ensures Filter(s + t, f) == Filter(s, f) + Filter(t, f)
  {
    if s == [] {
      assert s + t == t;
    } else {
      assert (s + t)[1..] == s[1..] + t;
      FilterConcat(s[1..], t, f);
    }
  }

  /** A sequence without repeated elements. */
  predicate Distinct<T(==)>(s: seq<T>)
  {
    forall i, j :: 0 <= i < j < |s| ==> s[i] != s[j]
  }

  lemma {:induction false} FilterDistinct<T(!new)>(s: seq<T>, f: T -> bool)
    requires Distinct(s)
    ensures Distinct(Filter(s, f))
  {
    if s != [] {
      FilterDistinct(s[1..], f);
      assert s[0] !in s[1..];
    }
  }
}
