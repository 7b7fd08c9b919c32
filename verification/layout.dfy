/**
  The layout engine of the data lineage viewer (test.py, lines 55-102): integer
  geometry for one slice `lineage[sheet][sor_id]`.

  Input tables are stacked top to bottom, one block per referenced table, with one
  anchor per catalog column; output columns form a single column on the right; and a
  path joins the anchor of every reference that was laid out to its output column.
  The scene is abstract: anchors and path control points, not SVG markup.
 */
module Layout {
  import opened Wrappers
  import opened Assoc
  import opened Lineage

  const StartY: int := 60
  const RowHeight: int := 35
  const InputX: int := 50
  const OutputX: int := 700
  /** Vertical padding added to a block's rows, and the gap below a block. */
  const BlockPadding: int := 40
  const BlockGap: int := 60
  /** Extra canvas height below the output column list, and the final margin. */
  const PanelSpace: int := 300
  const CanvasMargin: int := 300

  /** Horizontal position of every input anchor, and of every path's end. */
  const AnchorX: int := InputX + 120
  const TargetX: int := OutputX + 20

  /** An input column: its table, catalog column name, element id and anchor. */
  datatype Cell = Cell(table: string, column: string, id: string, x: int, y: int)

  /** The block of one input table: the top of its first row, its height, its cells. */
  datatype Block = Block(table: string, top: int, height: int, cells: seq<Cell>)

  datatype OutputCell = OutputCell(column: string, y: int)

  /**
    A path from an input anchor to an output column: a cubic curve whose two control
    points share the x-coordinate `ctrlX` and sit at the heights of the two ends.
   */
  datatype Path = Path(
    owner: string,
    input: string,
    fromX: int,
    fromY: int,
    ctrlX: int,
    toX: int,
    toY: int)

  datatype Scene = Scene(
    blocks: seq<Block>,
    positions: map<string, (int, int)>,
    outputs: seq<OutputCell>,
    paths: seq<Path>,
    height: int)

  /** The element id of an input column, `f"{tbl}_{col}"`. */
  function CellId(table: string, column: string): string {
    table + "_" + column
  }

  /** The tables referenced anywhere in the slice (test.py:60). */
  function ReferencedTables(slice: seq<(string, seq<Ref>)>): set<string> {
    set j, r | 0 <= j < |slice| && r in slice[j].1 :: r.table
  }

  /**
    `order` is an iteration order of the referenced tables: each exactly once. The
    source iterates a Python set, whose order is not specified.
   */
  ghost predicate IsTableOrder(catalog: Catalog, slice: seq<(string, seq<Ref>)>, order: seq<string>) {
    && NoDup(order)
    && (forall t :: t in order <==> t in ReferencedTables(slice))
    && (forall t :: t in order ==> t in catalog)
  }

  /** Block height for `n` rows (test.py:76). */
  function BlockHeight(n: nat): int {
    n * RowHeight + BlockPadding
  }

  /** The block of table `t` whose first row is at `top` (test.py:67-76). */
  function MakeBlock(t: string, cols: seq<string>, top: int): (b: Block)
    ensures b.table == t && b.top == top && |b.cells| == |cols|
    ensures forall k :: 0 <= k < |cols| ==> b.cells[k].y == top + k * RowHeight
  {
    Block(t, top, BlockHeight(|cols|),
      seq(|cols|, k requires 0 <= k < |cols| =>
        Cell(t, cols[k], CellId(t, cols[k]), AnchorX, top + k * RowHeight)))
  }

  /** The input blocks, stacked from `top` in the given table order (test.py:63-80). */
  function StackBlocks(catalog: Catalog, order: seq<string>, top: int): (blocks: seq<Block>)
    requires forall t :: t in order ==> t in catalog
    ensures |blocks| == |order|
    ensures forall i :: 0 <= i < |order| ==> blocks[i].table == order[i]
    decreases |order|
  {
    if |order| == 0 then []
    else
      var cols := catalog[order[0]];
      [MakeBlock(order[0], cols, top)] +
        StackBlocks(catalog, order[1..], top + BlockHeight(|cols|) + BlockGap)
  }

  /** The value of `current_y` once the loop over the input tables ends. */
  function StackEnd(catalog: Catalog, order: seq<string>, top: int): int
    requires forall t :: t in order ==> t in catalog
    decreases |order|
  {
    if |order| == 0 then top
    else StackEnd(catalog, order[1..], top + BlockHeight(|catalog[order[0]]|) + BlockGap)
  }

  /** All input cells, block after block. */
  function AllCells(blocks: seq<Block>): seq<Cell> {
    if |blocks| == 0 then [] else blocks[0].cells + AllCells(blocks[1..])
  }

  /**
    The `input_positions` dictionary (test.py:71): element id to anchor. Two cells with
    the same id (table `a_b` column `c` and table `a` column `b_c`, or a column listed
    twice) share one entry, which holds the later cell's anchor.
   */
  function Positions(cells: seq<Cell>): map<string, (int, int)>
    decreases |cells|
  {
    if |cells| == 0 then map[]
    else
      var n := |cells| - 1;
      Positions(cells[..n])[cells[n].id := (cells[n].x, cells[n].y)]
  }

  /** Output column `j` of the slice sits at `60 + 35 j` (test.py:86-88). */
  function Outputs(slice: seq<(string, seq<Ref>)>): seq<OutputCell> {
    seq(|slice|, j requires 0 <= j < |slice| => OutputCell(slice[j].0, StartY + j * RowHeight))
  }

  /** The path from the anchor `from` of input `id` to the output column at height `y`. */
  function MakePath(owner: string, id: string, from: (int, int), y: int): Path {
    Path(owner, id, from.0, from.1, (from.0 + TargetX) / 2, TargetX, y)
  }

  /** The paths of one output column at height `y`, one per laid-out reference (test.py:96-102). */
  function ColumnPaths(owner: string, y: int, refs: seq<Ref>, pos: map<string, (int, int)>): seq<Path>
    decreases |refs|
  {
    if |refs| == 0 then []
    else
      var id := CellId(refs[0].table, refs[0].column);
      (if id in pos then [MakePath(owner, id, pos[id], y)] else [])
        + ColumnPaths(owner, y, refs[1..], pos)
  }

  /** The paths of the whole slice, output column by output column. */
  function SlicePaths(slice: seq<(string, seq<Ref>)>, pos: map<string, (int, int)>): seq<Path>
    decreases |slice|
  {
    if |slice| == 0 then []
    else
      var n := |slice| - 1;
      SlicePaths(slice[..n], pos) + ColumnPaths(slice[n].0, StartY + n * RowHeight, slice[n].1, pos)
  }

  /** `svg_height` (test.py:82). */
  function CanvasHeight(stackEnd: int, outputs: nat): int {
    (if stackEnd >= StartY + outputs * RowHeight + PanelSpace then stackEnd
     else StartY + outputs * RowHeight + PanelSpace) + CanvasMargin
  }

  /** The scene of one slice, with the referenced tables laid out in `order`. */
  function Layout(catalog: Catalog, slice: seq<(string, seq<Ref>)>, order: seq<string>): (s: Scene)
    requires IsTableOrder(catalog, slice, order)
    ensures |s.blocks| == |order| && |s.outputs| == |slice|
    ensures forall i :: 0 <= i < |order| ==> s.blocks[i].table == order[i]
    ensures forall j :: 0 <= j < |slice| ==> s.outputs[j] == OutputCell(slice[j].0, StartY + j * RowHeight)
    // the canvas is the larger of the input stack's end and the panel below the outputs, plus a margin
    ensures s.height - CanvasMargin >= StackEnd(catalog, order, StartY)
    ensures s.height - CanvasMargin >= StartY + |slice| * RowHeight + PanelSpace
    ensures s.height - CanvasMargin in {StackEnd(catalog, order, StartY), StartY + |slice| * RowHeight + PanelSpace}
  {
    var blocks := StackBlocks(catalog, order, StartY);
    var pos := Positions(AllCells(blocks));
    Scene(blocks, pos, Outputs(slice), SlicePaths(slice, pos),
      CanvasHeight(StackEnd(catalog, order, StartY), |slice|))
  }

  /** A block laid out for table `t` with columns `cols`: one anchor per column, in order. */
  predicate BlockOf(t: string, cols: seq<string>, b: Block) {
    && b.table == t
    && b.height == |cols| * RowHeight + BlockPadding
    && |b.cells| == |cols|
    && forall k :: 0 <= k < |cols| ==>
         b.cells[k] == Cell(t, cols[k], CellId(t, cols[k]), AnchorX, b.top + k * RowHeight)
  }

  /** A freshly made block has one anchor per column, in order. */
  lemma MakeBlockShape(t: string, cols: seq<string>, top: int)
    ensures BlockOf(t, cols, MakeBlock(t, cols, top))
  {
  }

  /** The stack is its first block followed by the stack of the remaining tables. */
  lemma StackUnfold(catalog: Catalog, order: seq<string>, top: int)
    requires forall t :: t in order ==> t in catalog
    requires |order| > 0
    ensures StackBlocks(catalog, order, top)[0] == MakeBlock(order[0], catalog[order[0]], top)
    ensures StackBlocks(catalog, order, top)[1..] ==
      StackBlocks(catalog, order[1..], top + BlockHeight(|catalog[order[0]]|) + BlockGap)
  {
  }

  /** Block `i` of the stack is laid out for the `i`-th table, the first one at `top`. */
  lemma {:induction false} StackBlockAt(catalog: Catalog, order: seq<string>, top: int, i: int)
    requires forall t :: t in order ==> t in catalog
    requires 0 <= i < |order|
    ensures BlockOf(order[i], catalog[order[i]], StackBlocks(catalog, order, top)[i])
    ensures i == 0 ==> StackBlocks(catalog, order, top)[0].top == top
    decreases |order|
  {
    var blocks := StackBlocks(catalog, order, top);
    if i > 0 {
      var next := top + BlockHeight(|catalog[order[0]]|) + BlockGap;
      var rest := StackBlocks(catalog, order[1..], next);
      assert blocks[i] == rest[i - 1] by {
        StackUnfold(catalog, order, top);
        assert blocks[i] == blocks[1..][i - 1];
      }
      assert order[i] == order[1..][i - 1];
      StackBlockAt(catalog, order[1..], next, i - 1);
    } else {
      assert blocks[0] == MakeBlock(order[0], catalog[order[0]], top) by {
        StackUnfold(catalog, order, top);
      }
      MakeBlockShape(order[0], catalog[order[0]], top);
    }
  }

  /** Each next block starts `35 * rows + 100` below the previous one's top. */
  lemma {:induction false} StackNextTop(catalog: Catalog, order: seq<string>, top: int, i: int)
    requires forall t :: t in order ==> t in catalog
    requires 0 <= i && i + 1 < |order|
    ensures StackBlocks(catalog, order, top)[i + 1].top ==
      StackBlocks(catalog, order, top)[i].top + |catalog[order[i]]| * RowHeight + BlockPadding + BlockGap
    decreases |order|
  {
    var blocks := StackBlocks(catalog, order, top);
    var next := top + BlockHeight(|catalog[order[0]]|) + BlockGap;
    var rest := StackBlocks(catalog, order[1..], next);
    assert blocks[0].top == top && blocks[1..] == rest by {
      StackUnfold(catalog, order, top);
    }
    if i > 0 {
      assert blocks[i] == rest[i - 1] && blocks[i + 1] == rest[i];
      assert order[i] == order[1..][i - 1];
      StackNextTop(catalog, order[1..], next, i - 1);
    } else {
      assert blocks[1] == rest[0];
      StackBlockAt(catalog, order[1..], next, 0);
    }
  }

  /**
    The input stack (test.py:63-80): block `i` belongs to the `i`-th table in the
    order and has one anchor per catalog column; the first block starts at `top` and
    each next one starts `35 * rows + 100` below the previous one's top.
   */
  lemma StackShape(catalog: Catalog, order: seq<string>, top: int, i: int)
    requires forall t :: t in order ==> t in catalog
    requires 0 <= i < |order|
    ensures BlockOf(order[i], catalog[order[i]], StackBlocks(catalog, order, top)[i])
    ensures i == 0 ==> StackBlocks(catalog, order, top)[0].top == top
    ensures i + 1 < |order| ==>
      StackBlocks(catalog, order, top)[i + 1].top ==
        StackBlocks(catalog, order, top)[i].top + |catalog[order[i]]| * RowHeight + BlockPadding + BlockGap
  {
    StackBlockAt(catalog, order, top, i);
    if i + 1 < |order| {
      StackNextTop(catalog, order, top, i);
    }
  }

  /** `current_y` ends one block gap below the bottom of the last block. */
  lemma {:induction false} StackEndBelowLast(catalog: Catalog, order: seq<string>, top: int)
    requires forall t :: t in order ==> t in catalog
    ensures |order| == 0 ==> StackEnd(catalog, order, top) == top
    ensures |order| > 0 ==> (StackEnd(catalog, order, top) ==
      StackBlocks(catalog, order, top)[|order| - 1].top + BlockHeight(|catalog[order[|order| - 1]]|) + BlockGap)
    decreases |order|
  {
    if |order| > 0 {
      var cols := catalog[order[0]];
      var next := top + BlockHeight(|cols|) + BlockGap;
      var blocks := StackBlocks(catalog, order, top);
      var rest := StackBlocks(catalog, order[1..], next);
      assert blocks[0].top == top && blocks[1..] == rest by {
        StackUnfold(catalog, order, top);
      }
      assert StackEnd(catalog, order, top) == StackEnd(catalog, order[1..], next);
      StackEndBelowLast(catalog, order[1..], next);
      if |order| > 1 {
        assert blocks[|order| - 1] == rest[|order| - 2];
        assert order[|order| - 1] == order[1..][|order| - 2];
      }
    }
  }

  /**
    Anchors of the whole stack: every one lies between the first top and the final
    `current_y`, and their heights strictly increase in layout order, so no two input
    columns share a row (test.py:66-80).
   */
  lemma {:induction false} AnchorsIncrease(catalog: Catalog, order: seq<string>, top: int)
    requires forall t :: t in order ==> t in catalog
    ensures forall c :: c in AllCells(StackBlocks(catalog, order, top)) ==>
      c.x == AnchorX && top <= c.y < StackEnd(catalog, order, top)
    ensures forall a, b :: 0 <= a < b < |AllCells(StackBlocks(catalog, order, top))| ==>
      AllCells(StackBlocks(catalog, order, top))[a].y < AllCells(StackBlocks(catalog, order, top))[b].y
    decreases |order|
  {
    if |order| > 0 {
      var cols := catalog[order[0]];
      var next := top + BlockHeight(|cols|) + BlockGap;
      AnchorsIncrease(catalog, order[1..], next);
      var blocks := StackBlocks(catalog, order, top);
      var first := MakeBlock(order[0], cols, top);
      var rest := StackBlocks(catalog, order[1..], next);
      assert blocks == [first] + rest;
      assert blocks[1..] == rest;
      var cells := AllCells(blocks);
      assert cells == first.cells + AllCells(rest);
      assert StackEnd(catalog, order, top) == StackEnd(catalog, order[1..], next);
      StackEndAtLeast(catalog, order[1..], next);
      forall c | c in first.cells ensures c.x == AnchorX && top <= c.y < next {
        var k :| 0 <= k < |first.cells| && first.cells[k] == c;
      }
      forall a, b | 0 <= a < b < |cells| ensures cells[a].y < cells[b].y {
        if b < |first.cells| {
          assert cells[a] == first.cells[a] && cells[b] == first.cells[b];
        } else if a < |first.cells| {
          assert cells[a] in first.cells;
          assert cells[b] == AllCells(rest)[b - |first.cells|];
          assert cells[b] in AllCells(rest);
        } else {
          assert cells[a] == AllCells(rest)[a - |first.cells|];
          assert cells[b] == AllCells(rest)[b - |first.cells|];
        }
      }
    }
  }

  /** The stack never ends above where it started. */
  lemma {:induction false} StackEndAtLeast(catalog: Catalog, order: seq<string>, top: int)
    requires forall t :: t in order ==> t in catalog
    ensures StackEnd(catalog, order, top) >= top
    decreases |order|
  {
    if |order| > 0 {
      StackEndAtLeast(catalog, order[1..], top + BlockHeight(|catalog[order[0]]|) + BlockGap);
    }
  }

  /**
    Each input column's background strip (from 15 above to 5 below its anchor) lies
    inside its table's box (from 30 above the block top, `height` tall) (test.py:72, 77).
   */
  lemma CellsInsideBlock(t: string, cols: seq<string>, b: Block)
    requires BlockOf(t, cols, b)
    ensures forall c :: c in b.cells ==> b.top - 30 < c.y - 15 && c.y + 5 <= b.top - 30 + b.height
  {
    forall c | c in b.cells ensures b.top - 30 < c.y - 15 && c.y + 5 <= b.top - 30 + b.height {
      var k :| 0 <= k < |b.cells| && b.cells[k] == c;
    }
  }

  /** The anchor dictionary holds an entry for exactly the ids of the cells. */
  lemma {:induction false} PositionsDomain(cells: seq<Cell>, id: string)
    ensures id in Positions(cells) <==> exists i :: 0 <= i < |cells| && cells[i].id == id
    decreases |cells|
  {
    if |cells| > 0 {
      var n := |cells| - 1;
      PositionsDomain(cells[..n], id);
      if exists i :: 0 <= i < n && cells[..n][i].id == id {
        var i :| 0 <= i < n && cells[..n][i].id == id;
        assert cells[i] == cells[..n][i];
      }
      if exists i :: 0 <= i < |cells| && cells[i].id == id {
        var i :| 0 <= i < |cells| && cells[i].id == id;
        if i < n {
          assert cells[..n][i] == cells[i];
        }
      }
    }
  }

  /**
    When two cells share an id, the later one's anchor overwrites the earlier one's,
    as in the source's dictionary assignment (test.py:71).
   */
  lemma {:induction false} PositionsLastWins(cells: seq<Cell>, i: int, id: string)
    requires LastWithId(cells, i, id)
    ensures id in Positions(cells) && Positions(cells)[id] == (cells[i].x, cells[i].y)
    decreases |cells|
  {
    var n := |cells| - 1;
    if i < n {
      assert cells[n].id != id;
      assert cells[..n][i] == cells[i];
      assert LastWithId(cells[..n], i, id) by {
        assert forall j :: i < j < n ==> cells[..n][j] == cells[j];
      }
      PositionsLastWins(cells[..n], i, id);
    }
  }

  /** Cell `i` is the last one with element id `id`. */
  predicate LastWithId(cells: seq<Cell>, i: int, id: string) {
    && 0 <= i < |cells|
    && cells[i].id == id
    && forall j :: i < j < |cells| ==> cells[j].id != id
  }

  /** Path `p` is the one drawn for reference `r` of output column `j`. */
  predicate PathFor(slice: seq<(string, seq<Ref>)>, pos: map<string, (int, int)>, j: int, r: Ref, p: Path) {
    && 0 <= j < |slice|
    && r in slice[j].1
    && CellId(r.table, r.column) in pos
    && p == MakePath(slice[j].0, CellId(r.table, r.column), pos[CellId(r.table, r.column)], StartY + j * RowHeight)
  }

  lemma {:induction false} ColumnPathsExactly(owner: string, y: int, refs: seq<Ref>, pos: map<string, (int, int)>, p: Path)
    ensures p in ColumnPaths(owner, y, refs, pos) <==>
      exists r :: r in refs && CellId(r.table, r.column) in pos &&
        p == MakePath(owner, CellId(r.table, r.column), pos[CellId(r.table, r.column)], y)
    decreases |refs|
  {
    if |refs| > 0 {
      ColumnPathsExactly(owner, y, refs[1..], pos, p);
      assert forall r :: r in refs <==> r == refs[0] || r in refs[1..];
    }
  }

  /**
    Paths are complete (test.py:96-102): for reference `r` of output column `j` a path
    is drawn whenever the id `table + "_" + column` of `r` was laid out.
   */
  lemma {:induction false} SlicePathsComplete(slice: seq<(string, seq<Ref>)>, pos: map<string, (int, int)>, j: int, r: Ref, p: Path)
    requires PathFor(slice, pos, j, r, p)
    ensures p in SlicePaths(slice, pos)
    decreases |slice|
  {
    var n := |slice| - 1;
    if j < n {
      assert slice[..n][j] == slice[j];
      SlicePathsComplete(slice[..n], pos, j, r, p);
    } else {
      ColumnPathsExactly(slice[n].0, StartY + n * RowHeight, slice[n].1, pos, p);
    }
  }

  /**
    Paths are sound: every path drawn is the path of some reference of some output
    column whose id was laid out, ending at that column's row.
   */
  lemma {:induction false} SlicePathsSound(slice: seq<(string, seq<Ref>)>, pos: map<string, (int, int)>, p: Path)
    requires p in SlicePaths(slice, pos)
    ensures exists j, r :: PathFor(slice, pos, j, r, p)
    decreases |slice|
  {
    var n := |slice| - 1;
    if p in SlicePaths(slice[..n], pos) {
      SlicePathsSound(slice[..n], pos, p);
      var j, r :| PathFor(slice[..n], pos, j, r, p);
      assert slice[..n][j] == slice[j];
      assert PathFor(slice, pos, j, r, p);
    } else {
      ColumnPathsExactly(slice[n].0, StartY + n * RowHeight, slice[n].1, pos, p);
      var r :| r in slice[n].1 && CellId(r.table, r.column) in pos &&
        p == MakePath(slice[n].0, CellId(r.table, r.column), pos[CellId(r.table, r.column)], StartY + n * RowHeight);
      assert PathFor(slice, pos, n, r, p);
    }
  }

  /** Every anchor in the dictionary is an anchor of some cell. */
  lemma {:induction false} PositionsFromCells(cells: seq<Cell>, id: string)
    requires id in Positions(cells)
    ensures exists i :: 0 <= i < |cells| && cells[i].id == id && Positions(cells)[id] == (cells[i].x, cells[i].y)
    decreases |cells|
  {
    var n := |cells| - 1;
    if cells[n].id != id {
      PositionsFromCells(cells[..n], id);
      var i :| 0 <= i < n && cells[..n][i].id == id && Positions(cells[..n])[id] == (cells[..n][i].x, cells[..n][i].y);
      assert cells[i] == cells[..n][i];
    }
  }

  /**
    Geometry of a drawn path (test.py:86-101): it leaves an input anchor at x = 170,
    ends at x = 720 on the row of its output column, and both control points sit at
    x = (170 + 720) div 2 = 445, half way between.
   */
  lemma PathGeometry(catalog: Catalog, slice: seq<(string, seq<Ref>)>, order: seq<string>, p: Path)
    requires IsTableOrder(catalog, slice, order)
    requires p in Layout(catalog, slice, order).paths
    ensures p.fromX == AnchorX && p.toX == TargetX && p.ctrlX == 445
    ensures p.input in Layout(catalog, slice, order).positions
    ensures (p.fromX, p.fromY) == Layout(catalog, slice, order).positions[p.input]
    ensures exists j :: (0 <= j < |slice| &&
      Layout(catalog, slice, order).outputs[j] == OutputCell(p.owner, p.toY) && p.toY == StartY + j * RowHeight)
    ensures exists j, r :: 0 <= j < |slice| && slice[j].0 == p.owner && r in slice[j].1 && p.input == CellId(r.table, r.column)
  {
    var scene := Layout(catalog, slice, order);
    var cells := AllCells(StackBlocks(catalog, order, StartY));
    SlicePathsSound(slice, scene.positions, p);
    var j, r :| PathFor(slice, scene.positions, j, r, p);
    PositionsFromCells(cells, p.input);
    AnchorsIncrease(catalog, order, StartY);
    var i :| 0 <= i < |cells| && cells[i].id == p.input && scene.positions[p.input] == (cells[i].x, cells[i].y);
    assert cells[i] in cells;
    assert scene.outputs[j] == OutputCell(p.owner, p.toY);
  }

  /**
    The canvas is tall enough for every input anchor and every output row: its
    height is at least 300 below the input stack and 600 below the first output row
    past the last one (test.py:82).
   */
  lemma CanvasCoversAnchors(catalog: Catalog, slice: seq<(string, seq<Ref>)>, order: seq<string>)
    requires IsTableOrder(catalog, slice, order)
    ensures forall b, c :: b in Layout(catalog, slice, order).blocks && c in b.cells ==>
      c.y + CanvasMargin <= Layout(catalog, slice, order).height
    ensures forall o :: o in Layout(catalog, slice, order).outputs ==>
      o.y + PanelSpace + CanvasMargin < Layout(catalog, slice, order).height
  {
    var scene := Layout(catalog, slice, order);
    AnchorsIncrease(catalog, order, StartY);
    forall b, c | b in scene.blocks && c in b.cells ensures c.y + CanvasMargin <= scene.height {
      CellInAllCells(scene.blocks, b, c);
    }
    forall o | o in scene.outputs ensures o.y + PanelSpace + CanvasMargin < scene.height {
      var j :| 0 <= j < |scene.outputs| && scene.outputs[j] == o;
    }
  }

  lemma {:induction false} CellInAllCells(blocks: seq<Block>, b: Block, c: Cell)
    requires b in blocks && c in b.cells
    ensures c in AllCells(blocks)
    decreases |blocks|
  {
    if blocks[0] != b {
      CellInAllCells(blocks[1..], b, c);
    }
  }

  /**
    Every referenced table gets exactly one block, and only referenced tables do
    (test.py:60-66).
   */
  lemma OneBlockPerTable(catalog: Catalog, slice: seq<(string, seq<Ref>)>, order: seq<string>, t: string)
    requires IsTableOrder(catalog, slice, order)
    ensures t in ReferencedTables(slice) ==>
      exists i :: 0 <= i < |order| && Layout(catalog, slice, order).blocks[i].table == t
    ensures forall i, i' :: 0 <= i < i' < |order| ==>
      Layout(catalog, slice, order).blocks[i].table != Layout(catalog, slice, order).blocks[i'].table
    ensures forall i :: 0 <= i < |order| ==> Layout(catalog, slice, order).blocks[i].table in ReferencedTables(slice)
  {
    if t in ReferencedTables(slice) {
      var i :| 0 <= i < |order| && order[i] == t;
      assert Layout(catalog, slice, order).blocks[i].table == t;
    }
  }

  /**
    The ids laid out are the catalog's `table + "_" + column` for every referenced
    table: catalog column names keep their case, so a reference (whose column was
    lower-cased by the builder) only finds its anchor when the catalog spells the
    column in lower case (test.py:32, 69, 97-98).
   */
  lemma {:induction false} LaidOutIds(catalog: Catalog, order: seq<string>, top: int, id: string)
    requires forall t :: t in order ==> t in catalog
    ensures id in Positions(AllCells(StackBlocks(catalog, order, top))) <==>
      exists i, k :: 0 <= i < |order| && 0 <= k < |catalog[order[i]]| && CellId(order[i], catalog[order[i]][k]) == id
  {
    var blocks := StackBlocks(catalog, order, top);
    var cells := AllCells(blocks);
    PositionsDomain(cells, id);
    if exists n :: 0 <= n < |cells| && cells[n].id == id {
      var n :| 0 <= n < |cells| && cells[n].id == id;
      assert cells[n] in cells;
      var b, c := CellOrigin(blocks, cells[n]);
      var i :| 0 <= i < |blocks| && blocks[i] == b;
      StackShape(catalog, order, top, i);
      var k :| 0 <= k < |b.cells| && b.cells[k] == c;
      assert CellId(order[i], catalog[order[i]][k]) == id;
    }
    if exists i, k :: 0 <= i < |order| && 0 <= k < |catalog[order[i]]| && CellId(order[i], catalog[order[i]][k]) == id {
      var i, k :| 0 <= i < |order| && 0 <= k < |catalog[order[i]]| && CellId(order[i], catalog[order[i]][k]) == id;
      StackShape(catalog, order, top, i);
      var c := blocks[i].cells[k];
      CellInAllCells(blocks, blocks[i], c);
      var n :| 0 <= n < |cells| && cells[n] == c;
    }
  }

  /** Every cell of the flattened stack comes from one of its blocks. */
  lemma {:induction false} CellOrigin(blocks: seq<Block>, c: Cell) returns (b: Block, c': Cell)
    requires c in AllCells(blocks)
    ensures b in blocks && c' in b.cells && c' == c
    decreases |blocks|
  {
    if c in blocks[0].cells {
      b, c' := blocks[0], c;
    } else {
      b, c' := CellOrigin(blocks[1..], c);
    }
  }

  /**
    Every table referenced by a slice of the built index is in the catalog, so the
    catalog lookup of the layout (test.py:61) always succeeds.
   */
  lemma SliceTablesInCatalog(catalog: Catalog, rows: seq<Row>, sheet: string, sorId: string)
    ensures forall t :: t in ReferencedTables(Slice(BuildIndex(catalog, rows).lineage, sheet, sorId)) ==> t in catalog
  {
    var es := ReadRows(catalog, rows);
    var idx := Accumulate(es);
    AccumulateResolved(catalog, es);
    var slice := Slice(idx.lineage, sheet, sorId);
    forall t | t in ReferencedTables(slice) ensures t in catalog {
      var j, r :| 0 <= j < |slice| && r in slice[j].1 && r.table == t;
      SliceDistinct(idx.lineage, sheet, sorId);
      LookupAt(slice, j);
      SliceLookup(idx.lineage, sheet, sorId, slice[j].0);
      var k := Key(sheet, sorId, slice[j].0);
      assert Lookup(idx.lineage, k) == Some(slice[j].1);
      assert (k, slice[j].1) in idx.lineage;
      var i :| 0 <= i < |idx.lineage| && idx.lineage[i] == (k, slice[j].1);
    }
  }

  /** Some iteration order exists for the referenced tables of any slice. */
  lemma TableOrderExists(catalog: Catalog, slice: seq<(string, seq<Ref>)>) returns (order: seq<string>)
    requires forall t :: t in ReferencedTables(slice) ==> t in catalog
    ensures IsTableOrder(catalog, slice, order)
  {
    order := Enumerate(ReferencedTables(slice));
  }

  /** The elements of a finite set, each once, in some order. */
  lemma {:induction false} Enumerate(s: set<string>) returns (r: seq<string>)
    ensures NoDup(r)
    ensures forall x :: x in r <==> x in s
    decreases |s|
  {
    if s == {} {
      r := [];
    } else {
      var x :| x in s;
      var rest := Enumerate(s - {x});
      r := rest + [x];
    }
  }
}
