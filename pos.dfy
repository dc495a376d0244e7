/** Grid coordinates and the total order the derived `Ord` gives them. */
module Pos {

  /** A cell coordinate. The source's `usize` fields are modelled as `nat`. */
  datatype Position = Position(row: nat, col: nat)

  /** `Position::new`: the position with exactly the given row and column. */
  function New(row: nat, col: nat): (p: Position)
    ensures p.row == row && p.col == col
    ensures forall q: Position :: q.row == row && q.col == col ==> q == p
  {
    Position(row, col)
  }

  /** The derived `Ord`: fields compared in declaration order, row first, then col. */
  predicate Less(a: Position, b: Position)
  {
    a.row < b.row || (a.row == b.row && a.col < b.col)
  }

  predicate LessEq(a: Position, b: Position)
  {
    Less(a, b) || a == b
  }

  /** Derived equality is structural, so two positions are equal iff both fields are. */
  lemma EqualityIsStructural(a: Position, b: Position)
    ensures a == b <==> (a.row == b.row && a.col == b.col)
  {
  }

  /** The order is a strict total order consistent with equality, as `MazePosition: Ord + Eq` demands. */
  lemma LessIsStrictTotalOrder(a: Position, b: Position, c: Position)
    ensures !Less(a, a)
    ensures Less(a, b) && Less(b, c) ==> Less(a, c)
    ensures Less(a, b) || a == b || Less(b, a)
    ensures Less(a, b) ==> !Less(b, a) && a != b
  {
  }

  /** Every non-empty finite set of positions has a least element. */
  lemma {:induction false} MinimumExists(s: set<Position>)
    requires s != {}
    ensures exists m :: m in s && forall y :: y in s ==> LessEq(m, y)
    decreases |s|
  {
    var x :| x in s;
    var rest := s - {x};
    if rest == {} {
      assert s == {x};
      assert forall y :: y in s ==> LessEq(x, y);
    } else {
      MinimumExists(rest);
      var m :| m in rest && forall y :: y in rest ==> LessEq(m, y);
      if Less(x, m) {
        forall y | y in s
          ensures LessEq(x, y)
        {
          if y != x {
            assert y in rest;
            assert LessEq(m, y);
            LessIsStrictTotalOrder(x, m, y);
          }
        }
      } else {
        assert forall y :: y in s ==> LessEq(m, y);
      }
    }
  }

  /** A list without repeats has as many distinct elements as entries. */
  lemma {:induction false} DistinctCard(ps: seq<Position>)
    requires forall i, j :: 0 <= i < j < |ps| ==> ps[i] != ps[j]
    ensures |set p | p in ps| == |ps|
  {
    if ps != [] {
      var rest := ps[1..];
      DistinctCard(rest);
      assert (set p | p in ps) == {ps[0]} + (set p | p in rest);
      assert ps[0] !in (set p | p in rest);
    }
  }

  /** The first element a `BTreeSet<Position>` yields when iterated. */
  function MinOf(s: set<Position>): (m: Position)
    requires s != {}
    ensures m in s
    ensures forall y :: y in s ==> LessEq(m, y)
  {
    MinimumExists(s);
    var m :| m in s && (forall y :: y in s ==> LessEq(m, y));
    m
  }

  /** The elements of a set in ascending `Ord` order: the iteration order of a `BTreeSet`. */
  function Ascending(s: set<Position>): (r: seq<Position>)
    ensures |r| == |s|
    ensures forall x :: x in s <==> x in r
    ensures forall i, j :: 0 <= i < j < |r| ==> Less(r[i], r[j])
    decreases |s|
  {
    if s == {} then []
    else
      var m := MinOf(s);
      var tail := Ascending(s - {m});
      assert forall i :: 0 <= i < |tail| ==> Less(m, tail[i]);
      [m] + tail
  }
}
