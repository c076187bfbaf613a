/**
 * The minefield engine: the cell state machine, field generation with incremental
 * neighbour counts, and the reveal operation with its explicit-stack flood fill.
 */
module Game {
  import opened Wrappers
  import Decimal

  /** Rust's `u8`, the type of a cell's neighbour count. */
  newtype u8 = x: int | 0 <= x < 256

  /** A grid position (row, column). */
  type Pos = (int, int)

  datatype CellState = Unrevealed | Flagged | Revealed | Exploded | Empty

  /** What a successful reveal reports. */
  datatype RevealStatus = Exploded | Safe | Empty

  /** One grid position: its visible state and the mine data fixed at generation. */
  datatype Cell = Cell(state: CellState, neighbors: u8, mine: bool)

  /** `Cell::default()`: unrevealed, no mine, no neighbouring mines. */
  const DefaultCell: Cell := Cell(CellState.Unrevealed, 0, false)

  /** The state a cell is left in after a reveal that reports `status`. */
  function StateAfter(status: RevealStatus): CellState {
    match status
    case Exploded => CellState.Exploded
    case Safe => CellState.Revealed
    case Empty => CellState.Empty
  }

  // ---------------------------------------------------------------------------
  // The cell state machine. A cell is a plain value stored inside the board, so
  // each `&mut self` operation is a function from the old cell to the new one
  // (paired with what the operation returns).
  // ---------------------------------------------------------------------------

  /** `Cell::reveal`: only an unrevealed cell can be revealed; the outcome depends on its mine data. */
  function Reveal(c: Cell): (r: (Cell, Option<RevealStatus>))
    ensures r.0.mine == c.mine && r.0.neighbors == c.neighbors
    ensures r.1.None? <==> c.state != CellState.Unrevealed
    ensures r.1.None? ==> r.0 == c
    ensures r.1.Some? ==> r.0 == c.(state := StateAfter(r.1.value))
    ensures r.1 == Some(RevealStatus.Exploded) <==> c.state == CellState.Unrevealed && c.mine
    ensures r.1 == Some(RevealStatus.Empty) <==> c.state == CellState.Unrevealed && !c.mine && c.neighbors == 0
    ensures r.1 == Some(RevealStatus.Safe) <==> c.state == CellState.Unrevealed && !c.mine && c.neighbors != 0
  {
    match c.state
    case Unrevealed =>
      if c.mine then (c.(state := CellState.Exploded), Some(RevealStatus.Exploded))
      else if c.neighbors == 0 then (c.(state := CellState.Empty), Some(RevealStatus.Empty))
      else (c.(state := CellState.Revealed), Some(RevealStatus.Safe))
    case _ => (c, None)
  }

  /** `Cell::toggle_flag`: swaps unrevealed and flagged; a resolved cell refuses. */
  function ToggleFlag(c: Cell): (r: (Cell, bool))
    ensures r.1 <==> c.state == CellState.Unrevealed || c.state == CellState.Flagged
    ensures !r.1 ==> r.0 == c
    ensures r.0.mine == c.mine && r.0.neighbors == c.neighbors
    ensures c.state == CellState.Unrevealed ==> r.0.state == CellState.Flagged
    ensures c.state == CellState.Flagged ==> r.0.state == CellState.Unrevealed
  {
    match c.state
    case Unrevealed => (c.(state := CellState.Flagged), true)
    case Flagged => (c.(state := CellState.Unrevealed), true)
    case _ => (c, false)
  }

  /** A second reveal of the same cell always reports "already resolved" and changes nothing. */
  lemma RevealTwice(c: Cell)
    ensures Reveal(Reveal(c).0).1 == None
    ensures Reveal(Reveal(c).0).0 == Reveal(c).0
  {
  }

  /** Toggling a flag twice restores the cell; on a resolved cell both toggles fail. */
  lemma ToggleFlagTwice(c: Cell)
    ensures ToggleFlag(ToggleFlag(c).0).0 == c
    ensures ToggleFlag(ToggleFlag(c).0).1 == ToggleFlag(c).1
  {
  }

  /** A flagged cell cannot be revealed until it is unflagged. */
  lemma FlaggedBlocksReveal(c: Cell)
    requires c.state == CellState.Flagged
    ensures Reveal(c) == (c, None)
    ensures Reveal(ToggleFlag(c).0).1.Some?
  {
  }

  // ---------------------------------------------------------------------------
  // Glyphs (`impl Display for Cell`) and row rendering.
  // ---------------------------------------------------------------------------

  function Glyph(c: Cell): (s: string)
    ensures |s| >= 1
    ensures c.state != CellState.Revealed || c.neighbors < 10 ==> |s| == 1
  {
    match c.state
    case Unrevealed => "\U{2588}"
    case Flagged => "\U{2691}"
    case Revealed => Decimal.ToDecimal(c.neighbors as nat)
    case Exploded => "\U{2732}"
    case Empty => "\U{2591}"
  }

  /** The glyph shows exactly the cell's state, and for a revealed cell its count. */
  lemma GlyphShowsState(c: Cell, d: Cell)
    ensures Glyph(c) == Glyph(d) <==>
            c.state == d.state && (c.state == CellState.Revealed ==> c.neighbors == d.neighbors)
  {
    if Glyph(c) == Glyph(d) {
      if c.state == CellState.Revealed && d.state == CellState.Revealed {
        Decimal.ToDecimalInjective(c.neighbors as nat, d.neighbors as nat);
      }
    }
  }

  /** A row of cells rendered as the concatenation of their glyphs. */
  function RowText(row: seq<Cell>): (s: string)
    ensures |s| >= |row|
    ensures |s| == 0 <==> |row| == 0
  {
    if |row| == 0 then "" else Glyph(row[0]) + RowText(row[1..])
  }

  /** With every count below ten each glyph is one character, so character `k` shows cell `k`. */
  lemma {:induction false} RowTextGlyphs(row: seq<Cell>)
    requires forall k :: 0 <= k < |row| ==> row[k].neighbors < 10
    ensures |RowText(row)| == |row|
    ensures forall k :: 0 <= k < |row| ==> RowText(row)[k] == Glyph(row[k])[0]
    decreases |row|
  {
    if |row| > 0 {
      RowTextGlyphs(row[1..]);
    }
  }

  // ---------------------------------------------------------------------------
  // Neighbourhood arithmetic.
  // ---------------------------------------------------------------------------

  /** The eight-neighbour relation (the cell itself excluded). */
  predicate IsNeighbor(p: Pos, q: Pos) {
    p != q && -1 <= p.0 - q.0 <= 1 && -1 <= p.1 - q.1 <= 1
  }

  function Ind(b: bool): nat {
    if b then 1 else 0
  }

  /** The number of positions of `mines` among the eight neighbours of (i, j). */
  function AdjacentCount(mines: set<Pos>, i: int, j: int): (n: nat)
    ensures n <= 8
  {
    Ind((i - 1, j - 1) in mines) + Ind((i - 1, j) in mines) + Ind((i - 1, j + 1) in mines)
    + Ind((i, j - 1) in mines) + Ind((i, j + 1) in mines)
    + Ind((i + 1, j - 1) in mines) + Ind((i + 1, j) in mines) + Ind((i + 1, j + 1) in mines)
  }

  /** The count is zero exactly when no neighbour is in `mines`. */
  lemma ZeroCount(mines: set<Pos>, i: int, j: int)
    ensures AdjacentCount(mines, i, j) == 0 <==> forall q :: IsNeighbor((i, j), q) ==> q !in mines
  {
    if AdjacentCount(mines, i, j) == 0 {
      forall q | IsNeighbor((i, j), q) ensures q !in mines {
        assert q.0 == i - 1 || q.0 == i || q.0 == i + 1;
        assert q.1 == j - 1 || q.1 == j || q.1 == j + 1;
      }
    } else {
      assert exists q :: IsNeighbor((i, j), q) && q in mines by {
        assert IsNeighbor((i, j), (i - 1, j - 1)) && IsNeighbor((i, j), (i - 1, j)) && IsNeighbor((i, j), (i - 1, j + 1));
        assert IsNeighbor((i, j), (i, j - 1)) && IsNeighbor((i, j), (i, j + 1));
        assert IsNeighbor((i, j), (i + 1, j - 1)) && IsNeighbor((i, j), (i + 1, j)) && IsNeighbor((i, j), (i + 1, j + 1));
      }
    }
  }

  lemma AddMineAt(mines: set<Pos>, p: Pos, x: Pos)
    requires p !in mines
    ensures Ind(x in mines + {p}) == Ind(x in mines) + Ind(x == p)
  {
  }

  /** Placing one new mine adds one to the count of exactly its eight neighbours. */
  lemma AddMineCount(mines: set<Pos>, p: Pos, i: int, j: int)
    requires p !in mines
    ensures AdjacentCount(mines + {p}, i, j) == AdjacentCount(mines, i, j) + Ind(IsNeighbor((i, j), p))
  {
    AddMineAt(mines, p, (i - 1, j - 1));
    AddMineAt(mines, p, (i - 1, j));
    AddMineAt(mines, p, (i - 1, j + 1));
    AddMineAt(mines, p, (i, j - 1));
    AddMineAt(mines, p, (i, j + 1));
    AddMineAt(mines, p, (i + 1, j - 1));
    AddMineAt(mines, p, (i + 1, j));
    AddMineAt(mines, p, (i + 1, j + 1));
    assert Ind(IsNeighbor((i, j), p)) ==
      Ind((i - 1, j - 1) == p) + Ind((i - 1, j) == p) + Ind((i - 1, j + 1) == p)
      + Ind((i, j - 1) == p) + Ind((i, j + 1) == p)
      + Ind((i + 1, j - 1) == p) + Ind((i + 1, j) == p) + Ind((i + 1, j + 1) == p);
  }

  /** The positions a sequence of samples visits. */
  ghost function Elements(s: seq<Pos>): set<Pos> {
    if s == [] then {} else Elements(s[..|s| - 1]) + {s[|s| - 1]}
  }

  /** One more sample adds its position to those visited. */
  lemma ElementsSnoc(s: seq<Pos>, k: nat)
    requires k < |s|
    ensures Elements(s[..k + 1]) == Elements(s[..k]) + {s[k]}
  {
    assert s[..k + 1][..k] == s[..k];
  }

  lemma {:induction false} ElementsAre(s: seq<Pos>)
    ensures forall p :: p in Elements(s) <==> p in s
  {
    if s != [] {
      ElementsAre(s[..|s| - 1]);
      assert s == s[..|s| - 1] + [s[|s| - 1]];
    }
  }

  /** `Field::new`'s acceptance test: both dimensions nonzero and at most half the cells (rounded up) mined. */
  predicate AcceptsSize(rows: nat, cols: nat, mines: nat): (ok: bool)
    ensures ok <==> rows >= 1 && cols >= 1 && 2 * mines <= rows * cols + 1
    ensures ok ==> mines <= rows * cols
  {
    rows != 0 && cols != 0 && mines <= (rows * cols + 1) / 2
  }

  /** The boundary case of a 3x3 board: five mines fit (half of nine rounded up), six do not. */
  lemma ThreeByThreeCap()
    ensures AcceptsSize(3, 3, 5) && !AcceptsSize(3, 3, 6)
  {
  }

  /** A cell with its neighbour count one higher (this never wraps: counts stay at most 8). */
  function Bump(c: Cell): Cell
    requires c.neighbors < 255
  {
    c.(neighbors := c.neighbors + 1)
  }

  /** `check'` is `check` with exactly the in-bounds eight neighbours of `pos` pushed on top. */
  ghost predicate PushedNeighbors(check: seq<Pos>, check': seq<Pos>, rows: int, cols: int, pos: Pos) {
    && |check| <= |check'| <= |check| + 8
    && check'[..|check|] == check
    && forall q :: q in check'[|check|..] <==> 0 <= q.0 < rows && 0 <= q.1 < cols && IsNeighbor(pos, q)
  }

  /**
   * `add_neighbors`, nested inside `Field::clear_cell`: pushes the in-bounds eight
   * neighbours of `pos` onto the work stack.
   */
  method AddNeighbors(check: seq<Pos>, rows: nat, cols: nat, pos: Pos) returns (check': seq<Pos>)
    requires 0 <= pos.0 < rows && 0 <= pos.1 < cols
    ensures PushedNeighbors(check, check', rows, cols, pos)
  {
    var top := pos.0 == 0;
    var bottom := pos.0 == rows - 1;
    var left := pos.1 == 0;
    var right := pos.1 == cols - 1;
    var (r, c) := pos;
    var added: seq<Pos> := [];
    if !left && !top { added := added + [(r - 1, c - 1)]; }
    if !left { added := added + [(r, c - 1)]; }
    if !left && !bottom { added := added + [(r + 1, c - 1)]; }
    if !bottom { added := added + [(r + 1, c)]; }
    if !right && !bottom { added := added + [(r + 1, c + 1)]; }
    if !right { added := added + [(r, c + 1)]; }
    if !right && !top { added := added + [(r - 1, c + 1)]; }
    if !top { added := added + [(r - 1, c)]; }
    assert forall x :: x in added <==>
      || (x == (r - 1, c - 1) && !left && !top) || (x == (r, c - 1) && !left)
      || (x == (r + 1, c - 1) && !left && !bottom) || (x == (r + 1, c) && !bottom)
      || (x == (r + 1, c + 1) && !right && !bottom) || (x == (r, c + 1) && !right)
      || (x == (r - 1, c + 1) && !right && !top) || (x == (r - 1, c) && !top);
    check' := check + added;
    assert check'[|check|..] == added;
    forall q: Pos | 0 <= q.0 < rows && 0 <= q.1 < cols && IsNeighbor(pos, q) ensures q in added {
      assert q.0 == r - 1 || q.0 == r || q.0 == r + 1;
      assert q.1 == c - 1 || q.1 == c || q.1 == c + 1;
    }
  }


  // ---------------------------------------------------------------------------
  // Boards as values. The field mutates a two-dimensional array in place; its
  // specification speaks about the array's contents as a grid of rows.
  // ---------------------------------------------------------------------------

  type Grid = seq<seq<Cell>>

  /** `g` has `rows` rows of `cols` cells each. */
  predicate IsRect(g: Grid, rows: int, cols: int) {
    |g| == rows && forall i :: 0 <= i < |g| ==> |g[i]| == cols
  }

  predicate InGrid(g: Grid, p: Pos) {
    0 <= p.0 < |g| && 0 <= p.1 < |g[p.0]|
  }

  function At(g: Grid, p: Pos): Cell
    requires InGrid(g, p)
  {
    g[p.0][p.1]
  }

  /** `g` with the cell at `p` replaced by `c`. */
  function Update(g: Grid, p: Pos, c: Cell): (r: Grid)
    requires InGrid(g, p)
    ensures |r| == |g| && forall i :: 0 <= i < |g| ==> |r[i]| == |g[i]|
    ensures forall q :: InGrid(g, q) ==> At(r, q) == if q == p then c else At(g, q)
  {
    g[p.0 := g[p.0][p.1 := c]]
  }

  lemma UpdateSame(g: Grid, p: Pos)
    requires InGrid(g, p)
    ensures Update(g, p, At(g, p)) == g
  {
    assert g[p.0][p.1 := At(g, p)] == g[p.0];
  }

  /**
   * The generation invariant: `mines` lies on `g`, is exactly the set of its mined
   * cells, and every cell's count is the number of `mines` among its eight neighbours.
   */
  ghost predicate Consistent(g: Grid, mines: set<Pos>) {
    && (forall p :: p in mines ==> InGrid(g, p))
    && forall p {:trigger At(g, p)} :: InGrid(g, p) ==>
         && (At(g, p).mine <==> p in mines)
         && At(g, p).neighbors as int == AdjacentCount(mines, p.0, p.1)
  }

  /** In a consistent grid no count exceeds 8, so a `u8` never wraps and a count prints as one digit. */
  lemma CountsAtMostEight(g: Grid, mines: set<Pos>)
    requires Consistent(g, mines)
    ensures forall p :: InGrid(g, p) ==> At(g, p).neighbors <= 8
  {
  }

  /** No cell whose count is zero has a mined neighbour. */
  ghost predicate ZeroSafe(g: Grid) {
    forall p, q {:trigger IsNeighbor(p, q)} ::
      InGrid(g, p) && InGrid(g, q) && IsNeighbor(p, q) && At(g, p).neighbors == 0 ==> !At(g, q).mine
  }

  /** Consistent counts make a zero trustworthy: the flood fill never uncovers a mine. */
  lemma ConsistentZeroSafe(g: Grid, mines: set<Pos>)
    requires Consistent(g, mines)
    ensures ZeroSafe(g)
  {
    forall p, q | InGrid(g, p) && InGrid(g, q) && IsNeighbor(p, q) && At(g, p).neighbors == 0
      ensures !At(g, q).mine
    {
      ZeroCount(mines, p.0, p.1);
      assert p == (p.0, p.1);
    }
  }

  /**
   * `after` is `before` with some cells revealed: a cell that differs was unrevealed
   * and is now what `Reveal` makes of it, and none but `pos` holds a mine.
   */
  ghost predicate OnlyReveals(before: Grid, after: Grid, pos: Pos) {
    && |after| == |before|
    && (forall i :: 0 <= i < |before| ==> |after[i]| == |before[i]|)
    && forall p {:trigger At(after, p)} :: InGrid(before, p) ==>
         || At(after, p) == At(before, p)
         || (&& At(before, p).state == CellState.Unrevealed
             && At(after, p) == Reveal(At(before, p)).0
             && (p == pos || !At(before, p).mine))
  }

  /** Reveals leave the mine data alone, so consistency survives them. */
  lemma RevealsKeepConsistent(before: Grid, after: Grid, pos: Pos, mines: set<Pos>)
    requires Consistent(before, mines) && OnlyReveals(before, after, pos)
    ensures Consistent(after, mines)
  {
    forall p | InGrid(after, p)
      ensures && (At(after, p).mine <==> p in mines)
              && At(after, p).neighbors as int == AdjacentCount(mines, p.0, p.1)
    {
      assert InGrid(before, p) && At(before, p).mine == At(after, p).mine;
    }
  }

  /**
   * The flood-fill witness: `order` lists exactly the cells that differ between
   * `before` and `after`, `pos` first, and every later entry has an earlier entry
   * `parent[k]`, an empty neighbour, that exposed it.
   */
  ghost predicate FloodTrail(before: Grid, after: Grid, pos: Pos, order: seq<Pos>, parent: seq<nat>) {
    && |order| >= 1 && order[0] == pos && |parent| == |order|
    && (forall k :: 0 <= k < |order| ==> InGrid(before, order[k]) && InGrid(after, order[k]))
    && (forall p {:trigger At(after, p)} :: InGrid(before, p) && InGrid(after, p) ==>
          (At(after, p) != At(before, p) <==> p in order))
    && forall k {:trigger parent[k]} :: 0 < k < |order| ==>
         && parent[k] < k
         && IsNeighbor(order[parent[k]], order[k])
         && InGrid(after, order[parent[k]])
         && At(after, order[parent[k]]).state == CellState.Empty
  }

  /**
   * Every unrevealed neighbour of an empty cell of `order` is waiting on `stack`;
   * with an empty stack, the fill has reached every cell it can.
   */
  ghost predicate Covered(g: Grid, order: seq<Pos>, stack: seq<Pos>) {
    forall k, q {:trigger IsNeighbor(order[k], q)} ::
      (&& 0 <= k < |order| && InGrid(g, order[k]) && InGrid(g, q) && IsNeighbor(order[k], q)
       && At(g, order[k]).state == CellState.Empty && At(g, q).state == CellState.Unrevealed)
      ==> q in stack
  }

  /** Each stacked position is a neighbour of the empty entry `order[from[s]]` that pushed it. */
  ghost predicate StackFrom(g: Grid, stack: seq<Pos>, from: seq<nat>, order: seq<Pos>) {
    && |from| == |stack|
    && forall s :: 0 <= s < |stack| ==>
         && InGrid(g, stack[s]) && from[s] < |order| && InGrid(g, order[from[s]])
         && IsNeighbor(order[from[s]], stack[s]) && At(g, order[from[s]]).state == CellState.Empty
  }

  /** `unrev` is the set of unrevealed cells of `g` (the cascade's termination measure). */
  ghost predicate UnrevealedAre(g: Grid, unrev: set<Pos>) {
    forall p :: p in unrev <==> InGrid(g, p) && At(g, p).state == CellState.Unrevealed
  }

  /** The loop invariant of the cascade in `Field::clear_cell`, started from `init`. */
  ghost predicate Cascading(init: Grid, g: Grid, pos: Pos, rows: int, cols: int, stack: seq<Pos>, from: seq<nat>,
                            order: seq<Pos>, parent: seq<nat>, unrev: set<Pos>) {
    && IsRect(init, rows, cols) && IsRect(g, rows, cols)
    && InGrid(g, pos) && At(g, pos).state == CellState.Empty
    && OnlyReveals(init, g, pos)
    && UnrevealedAre(g, unrev)
    && FloodTrail(init, g, pos, order, parent)
    && StackFrom(g, stack, from, order)
    && Covered(g, order, stack)
  }

  lemma PopKeeps(s: seq<Pos>, q: Pos)
    requires q in s && q != s[|s| - 1]
    ensures q in s[..|s| - 1]
  {
    var i :| 0 <= i < |s| && s[i] == q;
    assert s[..|s| - 1][i] == q;
  }

  lemma PrefixKeeps(s: seq<Pos>, t: seq<Pos>, q: Pos)
    requires |s| <= |t| && t[..|s|] == s && q in s
    ensures q in t
  {
    var i :| 0 <= i < |s| && s[i] == q;
    assert t[..|s|][i] == q;
  }

  /** A popped position that was already resolved: the grid stays, the stack shrinks. */
  lemma StepResolved(init: Grid, g: Grid, pos: Pos, rows: int, cols: int, stack: seq<Pos>, from: seq<nat>,
                     order: seq<Pos>, parent: seq<nat>, unrev: set<Pos>)
    requires Cascading(init, g, pos, rows, cols, stack, from, order, parent, unrev) && stack != []
    requires Reveal(At(g, stack[|stack| - 1])).1.None?
    ensures Cascading(init, g, pos, rows, cols, stack[..|stack| - 1], from[..|from| - 1], order, parent, unrev)
  {
    var next := stack[|stack| - 1];
    var rest := stack[..|stack| - 1];
    forall k, q | && 0 <= k < |order| && InGrid(g, order[k]) && InGrid(g, q) && IsNeighbor(order[k], q)
                  && At(g, order[k]).state == CellState.Empty && At(g, q).state == CellState.Unrevealed
      ensures q in rest
    {
      PopKeeps(stack, q);
    }
  }

  /**
   * What the cascade knows about a popped position that is still unrevealed: it is
   * untouched since the call began, is not the target, and holds no mine, because the
   * empty entry of `order` that pushed it has a count of zero.
   */
  lemma PoppedUnrevealed(init: Grid, g: Grid, pos: Pos, rows: int, cols: int, stack: seq<Pos>, from: seq<nat>,
                         order: seq<Pos>, parent: seq<nat>, unrev: set<Pos>)
    requires ZeroSafe(init)
    requires Cascading(init, g, pos, rows, cols, stack, from, order, parent, unrev) && stack != []
    requires At(g, stack[|stack| - 1]).state == CellState.Unrevealed
    ensures var next := stack[|stack| - 1];
            && next in unrev && next != pos && next !in order
            && InGrid(init, next) && At(g, next) == At(init, next) && !At(init, next).mine
    ensures var next, f := stack[|stack| - 1], from[|from| - 1];
            && f < |order| && InGrid(g, order[f]) && IsNeighbor(order[f], next)
            && At(g, order[f]).state == CellState.Empty
  {
    var next := stack[|stack| - 1];
    var o := order[from[|from| - 1]];
    assert At(g, next) == At(init, next);
    assert o in order;
    assert At(init, o).neighbors == 0;
  }

  lemma OnlyRevealsStep(init: Grid, g: Grid, pos: Pos, next: Pos, c: Cell)
    requires OnlyReveals(init, g, pos) && InGrid(init, next) && InGrid(g, next)
    requires At(g, next) == At(init, next) && At(init, next).state == CellState.Unrevealed
    requires c == Reveal(At(init, next)).0 && !At(init, next).mine
    ensures OnlyReveals(init, Update(g, next, c), pos)
  {
  }

  lemma UnrevealedStep(g: Grid, unrev: set<Pos>, next: Pos, c: Cell)
    requires UnrevealedAre(g, unrev) && InGrid(g, next) && c.state != CellState.Unrevealed
    ensures UnrevealedAre(Update(g, next, c), unrev - {next})
  {
  }

  lemma TrailStep(init: Grid, g: Grid, pos: Pos, order: seq<Pos>, parent: seq<nat>, next: Pos, c: Cell, f: nat)
    requires FloodTrail(init, g, pos, order, parent) && InGrid(init, next) && InGrid(g, next)
    requires |g| == |init| && forall i :: 0 <= i < |g| ==> |g[i]| == |init[i]|
    requires next !in order && At(g, next) == At(init, next) && c != At(init, next)
    requires f < |order| && IsNeighbor(order[f], next) && InGrid(g, order[f]) && At(g, order[f]).state == CellState.Empty
    ensures FloodTrail(init, Update(g, next, c), pos, order + [next], parent + [f])
  {
    var g2, order2, parent2 := Update(g, next, c), order + [next], parent + [f];
    assert order[f] in order;
    forall k | 0 < k < |order2|
      ensures && parent2[k] < k
              && IsNeighbor(order2[parent2[k]], order2[k])
              && InGrid(g2, order2[parent2[k]])
              && At(g2, order2[parent2[k]]).state == CellState.Empty
    {
      if k < |order| {
        assert order[parent[k]] in order;
      }
    }
  }

  lemma StackStep(g: Grid, rows: int, cols: int, stack: seq<Pos>, from: seq<nat>, order: seq<Pos>, next: Pos, c: Cell,
                  stack2: seq<Pos>, from2: seq<nat>)
    requires IsRect(g, rows, cols) && StackFrom(g, stack, from, order) && stack != []
    requires next == stack[|stack| - 1] && next !in order
    requires if c.state == CellState.Empty
             then PushedNeighbors(stack[..|stack| - 1], stack2, rows, cols, next)
                  && from2 == from[..|from| - 1] + seq(|stack2| - (|stack| - 1), _ => |order|)
             else stack2 == stack[..|stack| - 1] && from2 == from[..|from| - 1]
    ensures StackFrom(Update(g, next, c), stack2, from2, order + [next])
  {
    var g2, order2, rest := Update(g, next, c), order + [next], stack[..|stack| - 1];
    forall s | 0 <= s < |stack2|
      ensures && InGrid(g2, stack2[s]) && from2[s] < |order2| && InGrid(g2, order2[from2[s]])
              && IsNeighbor(order2[from2[s]], stack2[s]) && At(g2, order2[from2[s]]).state == CellState.Empty
    {
      if s < |rest| {
        assert stack2[s] == stack[s] && from2[s] == from[s];
        assert order[from[s]] in order;
      } else {
        assert stack2[s] in stack2[|rest|..];
      }
    }
  }

  lemma CoveredStep(g: Grid, rows: int, cols: int, order: seq<Pos>, stack: seq<Pos>, next: Pos, c: Cell, stack2: seq<Pos>)
    requires IsRect(g, rows, cols) && Covered(g, order, stack) && stack != []
    requires next == stack[|stack| - 1] && InGrid(g, next) && next !in order
    requires At(g, next).state == CellState.Unrevealed && c.state != CellState.Unrevealed
    requires if c.state == CellState.Empty
             then PushedNeighbors(stack[..|stack| - 1], stack2, rows, cols, next)
             else stack2 == stack[..|stack| - 1]
    ensures Covered(Update(g, next, c), order + [next], stack2)
  {
    var g2, order2, rest := Update(g, next, c), order + [next], stack[..|stack| - 1];
    forall k, q | && 0 <= k < |order2| && InGrid(g2, order2[k]) && InGrid(g2, q) && IsNeighbor(order2[k], q)
                  && At(g2, order2[k]).state == CellState.Empty && At(g2, q).state == CellState.Unrevealed
      ensures q in stack2
    {
      if k < |order| {
        assert order[k] in order;
        PopKeeps(stack, q);
        if c.state == CellState.Empty {
          PrefixKeeps(rest, stack2, q);
        }
      }
    }
  }

  /**
   * A popped position that was still unrevealed: it is revealed (it holds no mine,
   * since an empty cell pushed it) and, when empty, its neighbours are pushed.
   */
  lemma StepRevealed(init: Grid, g: Grid, pos: Pos, rows: int, cols: int, stack: seq<Pos>, from: seq<nat>,
                     order: seq<Pos>, parent: seq<nat>, unrev: set<Pos>, stack2: seq<Pos>, from2: seq<nat>)
    requires ZeroSafe(init)
    requires Cascading(init, g, pos, rows, cols, stack, from, order, parent, unrev) && stack != []
    requires Reveal(At(g, stack[|stack| - 1])).1.Some?
    requires if Reveal(At(g, stack[|stack| - 1])).1 == Some(RevealStatus.Empty)
             then PushedNeighbors(stack[..|stack| - 1], stack2, rows, cols, stack[|stack| - 1])
                  && from2 == from[..|from| - 1] + seq(|stack2| - (|stack| - 1), _ => |order|)
             else stack2 == stack[..|stack| - 1] && from2 == from[..|from| - 1]
    ensures var next := stack[|stack| - 1];
            Cascading(init, Update(g, next, Reveal(At(g, next)).0), pos, rows, cols, stack2, from2,
                      order + [next], parent + [from[|from| - 1]], unrev - {next})
    ensures |unrev - {stack[|stack| - 1]}| < |unrev|
  {
    var next := stack[|stack| - 1];
    var c := Reveal(At(g, next)).0;
    PoppedUnrevealed(init, g, pos, rows, cols, stack, from, order, parent, unrev);
    OnlyRevealsStep(init, g, pos, next, c);
    UnrevealedStep(g, unrev, next, c);
    TrailStep(init, g, pos, order, parent, next, c, from[|from| - 1]);
    StackStep(g, rows, cols, stack, from, order, next, c, stack2, from2);
    CoveredStep(g, rows, cols, order, stack, next, c, stack2);
  }

  /** Revealing the target alone: the trail is the target itself, and nothing is pending unless it came out empty. */
  lemma StartTrail(init: Grid, g: Grid, pos: Pos, c: Cell)
    requires InGrid(init, pos) && c == Reveal(At(init, pos)).0 && At(init, pos).state == CellState.Unrevealed
    requires g == Update(init, pos, c) && c.state != CellState.Empty
    ensures OnlyReveals(init, g, pos)
    ensures FloodTrail(init, g, pos, [pos], [0]) && Covered(g, [pos], [])
  {
  }

  /** When the target holds no mine, a run of reveals leaves nothing newly exploded. */
  lemma NothingExplodes(before: Grid, after: Grid, pos: Pos)
    requires OnlyReveals(before, after, pos) && InGrid(before, pos) && !At(before, pos).mine
    ensures forall p :: InGrid(before, p) && At(after, p).state == CellState.Exploded ==> At(before, p).state == CellState.Exploded
  {
  }

  /** The minefield: a rows x cols board of cells that the game mutates in place. */
  class Field {
    const board: array2<Cell>

    /** The mined positions: ghost bookkeeping that mirrors the cells' `mine` flags. */
    ghost var Mines: set<Pos>

    /** A field over a generated board: at least 1x1, its mines on it, its counts exact. */
    constructor (board: array2<Cell>, ghost mines: set<Pos>)
      requires board.Length0 > 0 && board.Length1 > 0
      requires Generated(board, mines)
      requires forall p :: p in mines ==> 0 <= p.0 < board.Length0 && 0 <= p.1 < board.Length1
      ensures this.board == board && Mines == mines
      ensures Valid()
    {
      this.board := board;
      Mines := mines;
      new;
      GeneratedIsValid();
    }

    predicate Contains(p: Pos) {
      0 <= p.0 < board.Length0 && 0 <= p.1 < board.Length1
    }

    /** The board's contents as a value (what `&self.board` shows a reader). */
    function Cells(): (g: Grid)
      reads board
      ensures IsRect(g, board.Length0, board.Length1)
      ensures forall i, j :: 0 <= i < board.Length0 && 0 <= j < board.Length1 ==> g[i][j] == board[i, j]
    {
      seq(board.Length0, i requires 0 <= i < board.Length0 reads board =>
        seq(board.Length1, j requires 0 <= j < board.Length1 reads board => board[i, j]))
    }

    /** The field invariant: the board is at least 1x1 and its counts agree with `Mines`. */
    ghost predicate Valid()
      reads this, board
    {
      board.Length0 > 0 && board.Length1 > 0 && Consistent(Cells(), Mines)
    }

    /** `Field::render`: one string per row, one glyph per cell. */
    function Render(): (lines: seq<string>)
      reads this, board
      ensures |lines| == board.Length0
      ensures Valid() ==> forall i, j :: 0 <= i < board.Length0 && 0 <= j < board.Length1 ==>
                |lines[i]| == board.Length1 && lines[i][j] == Glyph(board[i, j])[0]
    {
      var g := Cells();
      var lines := seq(|g|, i requires 0 <= i < |g| => RowText(g[i]));
      assert Valid() ==> forall i, j :: 0 <= i < board.Length0 && 0 <= j < board.Length1 ==>
                |lines[i]| == board.Length1 && lines[i][j] == Glyph(board[i, j])[0] by {
        if Valid() {
          CountsAtMostEight(g, Mines);
          forall i | 0 <= i < |g|
            ensures |RowText(g[i])| == |g[i]|
            ensures forall k :: 0 <= k < |g[i]| ==> RowText(g[i])[k] == Glyph(g[i][k])[0]
          {
            forall k | 0 <= k < |g[i]| ensures g[i][k].neighbors < 10 {
              assert At(g, (i, k)) == g[i][k];
            }
            RowTextGlyphs(g[i]);
          }
        }
      }
      lines
    }

    /** Writes one cell back into the board. */
    method Store(p: Pos, c: Cell)
      requires Contains(p)
      modifies board
      ensures Cells() == Update(old(Cells()), p, c)
    {
      board[p.0, p.1] := c;
      ghost var g: Grid := Cells();
      ghost var u := Update(old(Cells()), p, c);
      forall i | 0 <= i < board.Length0 ensures g[i] == u[i] {
        forall j | 0 <= j < board.Length1 ensures g[i][j] == u[i][j] {
          assert At(u, (i, j)) == u[i][j];
        }
      }
    }

    /**
     * The eight guarded increments of `Field::new` after a mine lands on (r, c):
     * exactly the in-bounds neighbours of (r, c) gain one.
     */
    static method IncrementNeighbors(board: array2<Cell>, r: int, c: int)
      requires 0 <= r < board.Length0 && 0 <= c < board.Length1
      requires forall i, j :: 0 <= i < board.Length0 && 0 <= j < board.Length1 ==> board[i, j].neighbors < 255
      modifies board
      ensures forall i, j :: 0 <= i < board.Length0 && 0 <= j < board.Length1 ==>
                board[i, j] == if IsNeighbor((i, j), (r, c)) then Bump(old(board[i, j])) else old(board[i, j])
    {
      var top := r == 0;
      var bottom := r == board.Length0 - 1;
      var left := c == 0;
      var right := c == board.Length1 - 1;
      if !left && !top { board[r - 1, c - 1] := Bump(board[r - 1, c - 1]); }
      if !left { board[r, c - 1] := Bump(board[r, c - 1]); }
      if !left && !bottom { board[r + 1, c - 1] := Bump(board[r + 1, c - 1]); }
      if !bottom { board[r + 1, c] := Bump(board[r + 1, c]); }
      if !right && !bottom { board[r + 1, c + 1] := Bump(board[r + 1, c + 1]); }
      if !right { board[r, c + 1] := Bump(board[r, c + 1]); }
      if !right && !top { board[r - 1, c + 1] := Bump(board[r - 1, c + 1]); }
      if !top { board[r - 1, c] := Bump(board[r - 1, c]); }
      forall i, j | 0 <= i < board.Length0 && 0 <= j < board.Length1
        ensures board[i, j] == if IsNeighbor((i, j), (r, c)) then Bump(old(board[i, j])) else old(board[i, j])
      {
        if IsNeighbor((i, j), (r, c)) {
          assert i == r - 1 || i == r || i == r + 1;
          assert j == c - 1 || j == c || j == c + 1;
        }
      }
    }

    /**
     * A board during generation: nothing revealed, the mined cells are `mined`, and
     * every neighbour count agrees with `mined`.
     */
    static ghost predicate Generated(board: array2<Cell>, mined: set<Pos>)
      reads board
    {
      forall i, j {:trigger board[i, j]} :: 0 <= i < board.Length0 && 0 <= j < board.Length1 ==>
        && board[i, j].state == CellState.Unrevealed
        && (board[i, j].mine <==> (i, j) in mined)
        && board[i, j].neighbors as int == AdjacentCount(mined, i, j)
    }

    /**
     * A board of `Cell::default()` cells is a generated board with no mines yet: all
     * unrevealed, none mined, every count zero.
     */
    static lemma DefaultBoardGenerated(board: array2<Cell>)
      requires forall i, j :: 0 <= i < board.Length0 && 0 <= j < board.Length1 ==> board[i, j] == DefaultCell
      ensures Generated(board, {})
    {
      forall i, j | 0 <= i < board.Length0 && 0 <= j < board.Length1
        ensures board[i, j].neighbors as int == AdjacentCount({}, i, j)
      {
        assert board[i, j] == DefaultCell;
      }
    }

    /** One successful draw of `Field::new`: mine the cell and bump its neighbours. */
    static method PlaceMineAt(board: array2<Cell>, r: int, c: int, ghost mined: set<Pos>)
      requires 0 <= r < board.Length0 && 0 <= c < board.Length1
      requires Generated(board, mined) && (r, c) !in mined
      modifies board
      ensures Generated(board, mined + {(r, c)})
    {
      board[r, c] := board[r, c].(mine := true);
      label Marked:
      IncrementNeighbors(board, r, c);
      forall i, j | 0 <= i < board.Length0 && 0 <= j < board.Length1
        ensures && board[i, j].state == CellState.Unrevealed
                && (board[i, j].mine <==> (i, j) in mined + {(r, c)})
                && board[i, j].neighbors as int == AdjacentCount(mined + {(r, c)}, i, j)
      {
        AddMineCount(mined, (r, c), i, j);
        assert old@Marked(board[i, j]).neighbors as int == AdjacentCount(mined, i, j);
      }
    }

    /** A generated board whose mines lie on it is a valid field. */
    lemma GeneratedIsValid()
      requires board.Length0 > 0 && board.Length1 > 0
      requires Generated(board, Mines) && forall p :: p in Mines ==> Contains(p)
      ensures Valid()
    {
      ghost var g := Cells();
      forall p | InGrid(g, p)
        ensures && (At(g, p).mine <==> p in Mines)
                && At(g, p).neighbors as int == AdjacentCount(Mines, p.0, p.1)
      {
        assert At(g, p) == board[p.0, p.1];
      }
    }

    /**
     * The rejection-sampling loop of `Field::new`. The random generator is the sequence
     * `samples` of in-range (row, column) draws, consumed in order; a draw that hits a
     * mined cell is skipped. `used` is how many draws the loop consumed.
     */
    static method PlaceMines(board: array2<Cell>, mines: nat, samples: seq<Pos>) returns (ghost used: nat)
      requires forall i, j :: 0 <= i < board.Length0 && 0 <= j < board.Length1 ==> board[i, j] == DefaultCell
      requires forall k :: 0 <= k < |samples| ==> 0 <= samples[k].0 < board.Length0 && 0 <= samples[k].1 < board.Length1
      requires mines <= |Elements(samples)|
      modifies board
      ensures used <= |samples| && |Elements(samples[..used])| == mines
      ensures used == 0 || |Elements(samples[..used - 1])| < mines
      ensures Generated(board, Elements(samples[..used]))
    {
      var placed := 0;
      var k := 0;
      ghost var mined: set<Pos> := {};
      DefaultBoardGenerated(board);
      while placed < mines
        invariant k <= |samples|
        invariant placed == |mined| <= mines
        invariant mined == Elements(samples[..k])
        invariant k == 0 || |Elements(samples[..k - 1])| < mines
        invariant Generated(board, mined)
        decreases |samples| - k
      {
        assert samples[..|samples|] == samples;
        if k == |samples| {
          assert false;
        }
        ElementsSnoc(samples, k);
        var (r, c) := samples[k];
        k := k + 1;
        if board[r, c].mine {
          assert (r, c) in mined;
          continue;
        }
        PlaceMineAt(board, r, c, mined);
        mined := mined + {(r, c)};
        placed := placed + 1;
      }
      used := k;
    }

    /**
     * `Field::new`: refuses an empty board or more mines than half the cells (rounded
     * up); otherwise places exactly `mines` mines, drawing positions from `samples`,
     * which must hit `mines` distinct cells whenever the size is accepted.
     */
    static method New(rows: nat, cols: nat, mines: nat, samples: seq<Pos>) returns (f: Option<Field>, ghost used: nat)
      requires forall k :: 0 <= k < |samples| ==> 0 <= samples[k].0 < rows && 0 <= samples[k].1 < cols
      requires AcceptsSize(rows, cols, mines) ==> mines <= |Elements(samples)|
      ensures f.None? <==> !AcceptsSize(rows, cols, mines)
      ensures f.Some? ==> fresh(f.value) && fresh(f.value.board) && f.value.Valid()
      ensures f.Some? ==> f.value.board.Length0 == rows && f.value.board.Length1 == cols
      ensures f.Some? ==> forall i, j :: 0 <= i < rows && 0 <= j < cols ==> f.value.board[i, j].state == CellState.Unrevealed
      ensures f.Some? ==> |f.value.Mines| == mines
      ensures f.Some? ==> used <= |samples| && f.value.Mines == Elements(samples[..used])
      ensures f.Some? ==> used == 0 || |Elements(samples[..used - 1])| < mines
    {
      if rows == 0 || cols == 0 || mines > (rows * cols + 1) / 2 {
        return None, 0;
      }
      var board := new Cell[rows, cols]((i, j) => DefaultCell);
      used := PlaceMines(board, mines, samples);
      ghost var mined := Elements(samples[..used]);
      ElementsAre(samples[..used]);
      var field := new Field(board, mined);
      f := Some(field);
    }

    /**
     * One iteration of the loop in `Field::clear_cell`: pop a position, reveal it in
     * place, and when it comes out empty push its neighbours. The ghost outputs extend
     * the flood-fill witness.
     */
    method CascadeStep(ghost init: Grid, pos: Pos, check: seq<Pos>, ghost from: seq<nat>, ghost order: seq<Pos>,
                       ghost parent: seq<nat>, ghost unrev: set<Pos>)
      returns (check': seq<Pos>, ghost from': seq<nat>, ghost order': seq<Pos>, ghost parent': seq<nat>, ghost unrev': set<Pos>)
      requires ZeroSafe(init) && check != []
      requires Cascading(init, Cells(), pos, board.Length0, board.Length1, check, from, order, parent, unrev)
      modifies board
      ensures Cascading(init, Cells(), pos, board.Length0, board.Length1, check', from', order', parent', unrev')
      ensures |unrev'| < |unrev| || (unrev' == unrev && |check'| < |check|)
      // exactly the popped cell is revealed, and only an empty outcome pushes its neighbours
      ensures var next := check[|check| - 1];
              Cells() == Update(old(Cells()), next, Reveal(At(old(Cells()), next)).0)
      ensures var next := check[|check| - 1];
              if Reveal(At(old(Cells()), next)).1 == Some(RevealStatus.Empty)
              then PushedNeighbors(check[..|check| - 1], check', board.Length0, board.Length1, next)
              else check' == check[..|check| - 1]
    {
      ghost var g: Grid := Cells();
      var next := check[|check| - 1];
      var rest := check[..|check| - 1];
      assert board[next.0, next.1] == At(g, next);
      var (cell, st) := Reveal(board[next.0, next.1]);
      Store(next, cell);
      if st.None? {
        StepResolved(init, g, pos, board.Length0, board.Length1, check, from, order, parent, unrev);
        UpdateSame(g, next);
        return rest, from[..|from| - 1], order, parent, unrev;
      }
      check' := rest;
      from' := from[..|from| - 1];
      if st == Some(RevealStatus.Empty) {
        check' := AddNeighbors(rest, board.Length0, board.Length1, next);
        from' := from' + seq(|check'| - |rest|, _ => |order|);
      }
      StepRevealed(init, g, pos, board.Length0, board.Length1, check, from, order, parent, unrev, check', from');
      order', parent', unrev' := order + [next], parent + [from[|from| - 1]], unrev - {next};
    }

    /**
     * The cascade of `Field::clear_cell` once the target `pos` came out empty: the
     * neighbours of `pos` go on a stack, and popping runs until the stack is empty.
     */
    method Cascade(ghost init: Grid, pos: Pos) returns (ghost order: seq<Pos>, ghost parent: seq<nat>)
      requires ZeroSafe(init) && IsRect(init, board.Length0, board.Length1) && InGrid(init, pos)
      requires Reveal(At(init, pos)).1 == Some(RevealStatus.Empty)
      requires Cells() == Update(init, pos, Reveal(At(init, pos)).0)
      modifies board
      ensures OnlyReveals(init, Cells(), pos)
      ensures At(Cells(), pos) == Reveal(At(init, pos)).0
      ensures FloodTrail(init, Cells(), pos, order, parent) && Covered(Cells(), order, [])
    {
      ghost var g: Grid := Cells();
      var check := AddNeighbors([], board.Length0, board.Length1, pos);
      ghost var from: seq<nat> := seq(|check|, _ => 0);
      ghost var unrev := set i: int, j: int | 0 <= i < board.Length0 && 0 <= j < board.Length1 && g[i][j].state == CellState.Unrevealed :: (i, j);
      order, parent := [pos], [0];
      assert UnrevealedAre(g, unrev) by {
        forall p | InGrid(g, p) && At(g, p).state == CellState.Unrevealed ensures p in unrev {
          assert p == (p.0, p.1);
        }
      }
      assert Covered(g, order, check) by {
        forall k, q | && 0 <= k < |order| && InGrid(g, order[k]) && InGrid(g, q) && IsNeighbor(order[k], q)
                      && At(g, order[k]).state == CellState.Empty && At(g, q).state == CellState.Unrevealed
          ensures q in check
        {
          assert check[0..] == check;
        }
      }
      assert StackFrom(g, check, from, order) by {
        forall s | 0 <= s < |check| ensures InGrid(g, check[s]) && IsNeighbor(pos, check[s]) {
          assert check[0..] == check && check[s] in check;
        }
      }
      while check != []
        invariant Cascading(init, Cells(), pos, board.Length0, board.Length1, check, from, order, parent, unrev)
        decreases |unrev|, |check|
      {
        check, from, order, parent, unrev := CascadeStep(init, pos, check, from, order, parent, unrev);
      }
    }

    /**
     * `Field::clear_cell`. The ghost outputs record the flood fill: `order` lists the
     * cells this call changed, target first, and `parent[k]` is an earlier entry, an
     * empty neighbour of `order[k]`, whose cascade exposed it.
     */
    method ClearCell(pos: (nat, nat)) returns (res: Option<bool>, ghost order: seq<Pos>, ghost parent: seq<nat>)
      requires Valid()
      modifies board
      ensures Valid()
      // the three outcomes
      ensures res.None? <==> !Contains(pos) || At(old(Cells()), pos).state != CellState.Unrevealed
      ensures res.None? ==> Cells() == old(Cells()) && order == []
      ensures res == Some(true) <==> Contains(pos) && At(old(Cells()), pos).state == CellState.Unrevealed && At(old(Cells()), pos).mine
      ensures res.Some? ==> At(Cells(), pos) == Reveal(At(old(Cells()), pos)).0
      ensures res.Some? && At(Cells(), pos).state != CellState.Empty ==> order == [pos]
      // only reveals happen, and only the target can explode
      ensures OnlyReveals(old(Cells()), Cells(), pos)
      ensures res == Some(false) ==> forall p :: InGrid(old(Cells()), p) && At(Cells(), p).state == CellState.Exploded ==>
                At(old(Cells()), p).state == CellState.Exploded
      // the changed cells are exactly a flood fill from the target, run to completion
      ensures res.Some? ==> FloodTrail(old(Cells()), Cells(), pos, order, parent) && Covered(Cells(), order, [])
    {
      ghost var init := Cells();
      if !(pos.0 < board.Length0 && pos.1 < board.Length1) {
        return None, [], [];
      }
      var (cell, status) := Reveal(board[pos.0, pos.1]);
      if status.None? {
        return None, [], [];
      }
      assert board[pos.0, pos.1] == At(init, pos);
      Store(pos, cell);
      match status.value
      case Exploded =>
        StartTrail(init, Cells(), pos, cell);
        RevealsKeepConsistent(init, Cells(), pos, Mines);
        return Some(true), [pos], [0];
      case Safe =>
        StartTrail(init, Cells(), pos, cell);
        RevealsKeepConsistent(init, Cells(), pos, Mines);
        NothingExplodes(init, Cells(), pos);
        return Some(false), [pos], [0];
      case Empty =>
        ConsistentZeroSafe(init, Mines);
        order, parent := Cascade(init, pos);
        RevealsKeepConsistent(init, Cells(), pos, Mines);
        NothingExplodes(init, Cells(), pos);
        return Some(false), order, parent;
    }
  }
}
