/** A maze cell: its position, its neighbour fields, and the mutable link set, weight and solution flag. */
module Cells {
  import opened Pos
  import opened Opt
  import opened Topology
  import Text

  /**
   * `Cell` (compass neighbours) and `PolarCell` (ring neighbours) share every field
   * except their neighbour fields, which `adjacency` holds.
   */
  class Cell {
    const pos: Position
    var adjacency: Adjacency
    var weight: nat
    var inSolution: bool
    /** The positions this cell is joined to; a `BTreeSet`, so iterated in `Pos.Less` order. */
    var links: set<Position>

    /** `Cell::new(row, col)`: weight 0, not in the solution, no neighbours and no links. */
    constructor (row: nat, col: nat)
      ensures pos == Position(row, col)
      ensures adjacency == Compass(None, None, None, None)
      ensures weight == 0 && !inSolution && links == {}
    {
      pos := Position(row, col);
      adjacency := Compass(None, None, None, None);
      weight := 0;
      inSolution := false;
      links := {};
    }

    /** `PolarCell::new(row, col)`: as `Cell::new`, with empty ring neighbours. */
    constructor Polar(row: nat, col: nat)
      ensures pos == Position(row, col)
      ensures adjacency == Ring(None, None, None, [])
      ensures weight == 0 && !inSolution && links == {}
    {
      pos := Position(row, col);
      adjacency := Ring(None, None, None, []);
      weight := 0;
      inSolution := false;
      links := {};
    }

    /** `label`: the weight in decimal. */
    function Label(): (r: string)
      reads this`weight
      ensures forall i :: 0 <= i < |r| ==> Text.IsDigit(r[i])
      ensures Text.DecimalValue(r) == weight
    {
      Text.DecimalRoundTrip(weight);
      Text.Decimal(weight)
    }

    /** `link`: adds `other` to the link set; linking twice changes nothing more. */
    method Link(other: Position)
      modifies this`links
      ensures links == old(links) + {other}
      ensures other in links && forall p :: p in old(links) ==> p in links
    {
      links := links + {other};
    }

    /** `unlink`: removes `other` only; unlinking an absent position changes nothing. */
    method Unlink(other: Position)
      modifies this`links
      ensures links == old(links) - {other}
      ensures other !in old(links) ==> links == old(links)
    {
      links := links - {other};
    }

    /** `is_linked`: the other cell's position is in this cell's link set. */
    predicate IsLinked(other: Cell)
      reads this`links
    {
      other.pos in links
    }

    /** `is_linked_pos` */
    predicate IsLinkedPos(other: Position)
      reads this`links
    {
      other in links
    }

    /** `neighbors`: the present neighbour fields, in declaration order. */
    function Neighbors(): seq<Position>
      reads this`adjacency
    {
      NeighborsOf(adjacency)
    }

    /** `update_weight`: sets the weight and nothing else. */
    method UpdateWeight(w: nat)
      modifies this`weight
      ensures weight == w
    {
      weight := w;
    }

    /** `mark_in_solution`: sets the flag; nothing ever clears it. */
    method MarkInSolution()
      modifies this`inSolution
      ensures inSolution
    {
      inSolution := true;
    }

    /** `PartialEq`: cells compare by position only. */
    predicate Equals(other: Cell)
    {
      pos == other.pos
    }
  }

  /** `is_linked` and `is_linked_pos` agree. */
  lemma IsLinkedAgrees(a: Cell, b: Cell)
    ensures a.IsLinked(b) <==> a.IsLinkedPos(b.pos)
  {
  }

  /**
   * Cell equality ignores weight, flag, links and neighbours, and is an equivalence;
   * two cells at one position are equal however their state differs.
   */
  lemma EqualsIsPositionEquivalence(a: Cell, b: Cell, c: Cell)
    ensures a.Equals(b) <==> a.pos == b.pos
    ensures a.Equals(a)
    ensures a.Equals(b) ==> b.Equals(a)
    ensures a.Equals(b) && b.Equals(c) ==> a.Equals(c)
  {
  }
}
