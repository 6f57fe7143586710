/**
 * The crossword puzzle as the solver sees it: slot variables, the words,
 * and the overlap relation between slots. Parsing the structure and word
 * files is not part of this model; the grid arrives as abstract data, and
 * the facts the parser guarantees are stated as explicit assumptions.
 */
module CrosswordGrid {
  import opened Wrappers

  datatype Direction = Across | Down

  /** A slot: its first cell (row `i`, column `j`), its direction and length. */
  datatype Variable = Variable(i: nat, j: nat, direction: Direction, length: nat)

  /**
   * `overlaps[(x, y)] == Some((i, j))` means that offset `i` of `x` and
   * offset `j` of `y` are the same cell; `None` means the slots do not cross.
   */
  datatype Crossword = Crossword(
    height: nat,
    width: nat,
    variables: set<Variable>,
    words: set<string>,
    overlaps: map<(Variable, Variable), Option<(nat, nat)>>)

  /** The overlap of `x` with `y`; a missing key reads as no overlap. */
  function Overlap(cw: Crossword, x: Variable, y: Variable): Option<(nat, nat)>
  {
    if (x, y) in cw.overlaps then cw.overlaps[(x, y)] else None
  }

  /** The slots that cross `v`. */
  function Neighbors(cw: Crossword, v: Variable): set<Variable>
  {
    set u | u in cw.variables && u != v && Overlap(cw, v, u).Some?
  }

  /** The grid cell (row, column) that holds letter `k` of a word placed in `v`. */
  function Cell(v: Variable, k: nat): (nat, nat)
  {
    if v.direction == Down then (v.i + k, v.j) else (v.i, v.j + k)
  }

  function Swap(o: Option<(nat, nat)>): Option<(nat, nat)>
  {
    match o
    case None => None
    case Some((i, j)) => Some((j, i))
  }

  /** Every ordered pair of distinct slots has an overlap entry. */
  ghost predicate OverlapKeys(cw: Crossword)
  {
    forall x, y :: x in cw.variables && y in cw.variables && x != y ==> (x, y) in cw.overlaps
  }

  /** Overlap offsets are inside both slots. */
  ghost predicate OffsetsInRange(cw: Crossword)
  {
    forall x, y :: Overlap(cw, x, y).Some? ==>
      Overlap(cw, x, y).value.0 < x.length && Overlap(cw, x, y).value.1 < y.length
  }

  /** `overlaps[(y, x)]` is `overlaps[(x, y)]` with its components swapped. */
  ghost predicate SymmetricOverlaps(cw: Crossword)
  {
    forall x, y :: Overlap(cw, y, x) == Swap(Overlap(cw, x, y))
  }

  /**
   * The overlap entries describe the grid: a recorded overlap is a shared
   * cell, and two distinct slots that share a cell record it.
   */
  ghost predicate OverlapsMatchCells(cw: Crossword)
  {
    && (forall x, y :: Overlap(cw, x, y).Some? ==>
          Cell(x, Overlap(cw, x, y).value.0) == Cell(y, Overlap(cw, x, y).value.1))
    && (forall x, y, k1: nat, k2: nat ::
          x in cw.variables && y in cw.variables && x != y &&
          k1 < x.length && k2 < y.length && Cell(x, k1) == Cell(y, k2) ==>
          Overlap(cw, x, y) == Some((k1, k2)))
  }

  /** What the puzzle loader guarantees about the overlap table the solver reads. */
  ghost predicate WellFormed(cw: Crossword)
  {
    && OverlapKeys(cw)
    && OffsetsInRange(cw)
    && SymmetricOverlaps(cw)
  }
}
