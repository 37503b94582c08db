/** The grid that edges are routed on, and the way between canvas and grid points (Edge.Utils.ts). */
module PathfindingGrid {
  import opened Routing
  import opened Numbers

  // ----- canvas and grid coordinates

  /** The smallest canvas coordinate is at 1 on the grid. */
  function ToGrid(c: real, smallest: real, size: real): real
    requires size > 0.0
  {
    c / size - smallest / size + 1.0
  }

  function ToCanvas(p: real, smallest: real, size: real): real {
    p * size + smallest - size
  }

  /** A reference that is stepped towards 1, as both conversions do. */
  function Stepped(reference: real, n: nat): real {
    if reference < 1.0 then reference + n as real else reference - n as real
  }

  /** The stepping comes to an end exactly for whole references: aligned smallest coordinates. */
  lemma SteppingEndsIff(reference: real)
    ensures (exists n: nat :: Stepped(reference, n) == 1.0) <==> IsInteger(reference)
  {
    if n: nat :| Stepped(reference, n) == 1.0 {
      var k := if reference < 1.0 then 1 - n else 1 + n;
      assert k as real == reference;
    }
    if IsInteger(reference) {
      var k := reference.Floor;
      assert Stepped(reference, if k < 1 then 1 - k else k - 1) == 1.0;
    }
  }

  /** Steps a whole reference to 1 and moves the coordinate along with it. */
  method MoveWithReference(start: real, smallest: real) returns (p: real)
    requires IsInteger(smallest)
    ensures p == start - smallest + 1.0
  {
    p := start;
    var reference := smallest;
    ghost var k := smallest.Floor;
    if reference < 1.0 {
      while reference != 1.0
        invariant reference == k as real && k <= 1 && p == start - smallest + k as real
        decreases 1 - k
      {
        reference := reference + 1.0;
        p := p + 1.0;
        k := k + 1;
      }
    } else if reference > 1.0 {
      while reference != 1.0
        invariant reference == k as real && k >= 1 && p == start - smallest + k as real
        decreases k
      {
        reference := reference - 1.0;
        p := p - 1.0;
        k := k - 1;
      }
    }
  }

  method CanvasToGridCoordinate(c: real, smallest: real, size: real) returns (p: real)
    requires size > 0.0 && IsMultiple(smallest, size)
    ensures p == ToGrid(c, smallest, size)
  {
    p := MoveWithReference(c / size, smallest / size);
  }

  method ConvertCanvasToGridPoint(point: XYPosition, smallestX: real, smallestY: real,
                                  size: real) returns (r: XYPosition)
    requires size > 0.0 && IsMultiple(smallestX, size) && IsMultiple(smallestY, size)
    ensures r == XYPosition(ToGrid(point.x, smallestX, size), ToGrid(point.y, smallestY, size))
  {
    var x := CanvasToGridCoordinate(point.x, smallestX, size);
    var y := CanvasToGridCoordinate(point.y, smallestY, size);
    r := XYPosition(x, y);
  }

  lemma CellsStep(k: int, size: real)
    requires size > 0.0
    ensures Cells(k + 1, size) == Cells(k, size) + size && Cells(1, size) == size
    ensures k < 1 ==> Cells(k, size) < size
    ensures k > 1 ==> Cells(k, size) > size
  {
    assert (k + 1) as real == k as real + 1.0;
    assert Cells(k, size) - size == (k as real - 1.0) * size;
  }

  lemma MultipleIsCells(x: real, size: real)
    requires size > 0.0 && IsMultiple(x, size)
    ensures x == Cells((x / size).Floor, size)
  {
    DivideProduct(x, size);
  }

  method GridToCanvasCoordinate(p: real, smallest: real, size: real) returns (c: real)
    requires size > 0.0 && IsMultiple(smallest, size)
    ensures c == ToCanvas(p, smallest, size)
  {
    hide Cells;
    c := p * size;
    var reference := smallest;
    ghost var total := c + reference;
    ghost var k := (smallest / size).Floor;
    MultipleIsCells(smallest, size);
    CellsStep(k, size);
    if reference < size {
      while reference != size
        invariant reference == Cells(k, size) && k <= 1 && c + reference == total
        decreases 1 - k
      {
        CellsStep(k, size);
        k := k + 1;
        reference := reference + size;
        c := c - size;
      }
    } else if reference > size {
      while reference != size
        invariant reference == Cells(k, size) && k >= 1 && c + reference == total
        decreases k
      {
        CellsStep(k - 1, size);
        CellsStep(k, size);
        k := k - 1;
        reference := reference - size;
        c := c + size;
      }
    }
  }

  method ConvertGridToCanvasPoint(point: XYPosition, smallestX: real, smallestY: real,
                                  size: real) returns (r: XYPosition)
    requires size > 0.0 && IsMultiple(smallestX, size) && IsMultiple(smallestY, size)
    ensures r == XYPosition(ToCanvas(point.x, smallestX, size), ToCanvas(point.y, smallestY, size))
  {
    var x := GridToCanvasCoordinate(point.x, smallestX, size);
    var y := GridToCanvasCoordinate(point.y, smallestY, size);
    r := XYPosition(x, y);
  }

  /** The two conversions undo each other. */
  lemma ConversionsAreInverse(c: real, p: real, smallest: real, size: real)
    requires size > 0.0
    ensures ToCanvas(ToGrid(c, smallest, size), smallest, size) == c
    ensures ToGrid(ToCanvas(p, smallest, size), smallest, size) == p
  {
    var x, s := c / size, smallest / size;
    DivideProduct(c, size);
    DivideProduct(smallest, size);
    assert (x - s + 1.0) * size == x * size - s * size + size;
    var q := ToCanvas(p, smallest, size);
    assert q == (p + s - 1.0) * size;
    QuotientOf(q, p + s - 1.0, size);
  }

  /** Exactly the aligned coordinates fall on grid points. */
  lemma AlignedIffOnGrid(c: real, smallest: real, size: real)
    requires size > 0.0 && IsMultiple(smallest, size)
    ensures IsMultiple(c, size) <==> IsInteger(ToGrid(c, smallest, size))
  {
    var k := (smallest / size).Floor;
    if IsMultiple(c, size) {
      assert ToGrid(c, smallest, size) == ((c / size).Floor - k + 1) as real;
    }
    if IsInteger(ToGrid(c, smallest, size)) {
      assert c / size == (ToGrid(c, smallest, size).Floor + k - 1) as real;
    }
  }

  /** The cell of an aligned coordinate. */
  function Cell(c: real, smallest: real, size: real): int
    requires size > 0.0
  {
    ToGrid(c, smallest, size).Floor
  }

  /** The number of columns or rows for an extent. */
  function Count(extent: real, size: real): int
    requires size > 0.0
  {
    Ceiling(extent / size) + 1
  }

  /** The cells of a side with a margin stay off the first two and the last cell. */
  lemma CellsKeepMargin(low: real, high: real, min: real, max: real, size: real)
    requires size > 0.0 && HasMargin(low, high, min, max, size)
    ensures 2 <= Cell(low, min, size) < Cell(high, min, size) < Count(Abs(min - max), size)
    ensures ToGrid(low, min, size) == Cell(low, min, size) as real
            && ToGrid(high, min, size) == Cell(high, min, size) as real
  {
    QuotientKeepsOrder(min, max, size);
    QuotientOfDifference(max, min, size);
    AlignedIffOnGrid(low, min, size);
    AlignedIffOnGrid(high, min, size);
    assert Abs(min - max) == max - min;
  }

  // ----- rays

  datatype Position = Top | Bottom | Left | Right

  function GetNextPointFromPosition(p: (int, int), position: Position): (int, int) {
    match position
    case Top => (p.0, p.1 - 1)
    case Bottom => (p.0, p.1 + 1)
    case Left => (p.0 - 1, p.1)
    case Right => (p.0 + 1, p.1)
  }

  /** The k-th cell of the ray from a cell. */
  function Ray(p: (int, int), position: Position, k: nat): (int, int) {
    if k == 0 then p else GetNextPointFromPosition(Ray(p, position, k - 1), position)
  }

  predicate OnRay(p: (int, int), position: Position, length: nat, cell: (int, int)) {
    exists k :: 0 <= k < length && Ray(p, position, k) == cell
  }

  lemma {:induction false} RayIsStraight(p: (int, int), position: Position, k: nat)
    ensures Ray(p, position, k) == match position
                                   case Top => (p.0, p.1 - k)
                                   case Bottom => (p.0, p.1 + k)
                                   case Left => (p.0 - k, p.1)
                                   case Right => (p.0 + k, p.1)
  {
    if k > 0 {
      RayIsStraight(p, position, k - 1);
    }
  }

  // ----- the grid

  predicate InGrid(grid: array2<bool>, cell: (int, int)) {
    0 <= cell.0 < grid.Length0 && 0 <= cell.1 < grid.Length1
  }

  predicate IsWalkable(grid: array2<bool>, cell: (int, int))
    requires InGrid(grid, cell)
    reads grid
  {
    grid[cell.0, cell.1]
  }

  /** The outermost cells. */
  predicate OnRing(grid: array2<bool>, cell: (int, int)) {
    cell.0 == 0 || cell.1 == 0 || cell.0 == grid.Length0 - 1 || cell.1 == grid.Length1 - 1
  }

  ghost predicate RingIsFree(grid: array2<bool>)
    reads grid
  {
    forall x, y :: 0 <= x < grid.Length0 && 0 <= y < grid.Length1 && OnRing(grid, (x, y)) ==> grid[x, y]
  }

  /** How many cells lie ahead in the grid. */
  function CellsAhead(grid: array2<bool>, cell: (int, int), position: Position): int {
    match position
    case Top => cell.1
    case Bottom => grid.Length1 - 1 - cell.1
    case Left => cell.0
    case Right => grid.Length0 - 1 - cell.0
  }

  lemma OneCellOn(grid: array2<bool>, p: (int, int), position: Position, k: nat)
    requires InGrid(grid, Ray(p, position, k)) && !OnRing(grid, Ray(p, position, k))
    ensures InGrid(grid, Ray(p, position, k + 1))
    ensures CellsAhead(grid, Ray(p, position, k + 1), position) == CellsAhead(grid, Ray(p, position, k), position) - 1
    ensures !OnRay(p, position, k + 1, Ray(p, position, k + 1))
  {
    forall i | 0 <= i <= k ensures Ray(p, position, i) != Ray(p, position, k + 1) {
      RayIsStraight(p, position, i);
      RayIsStraight(p, position, k + 1);
    }
  }

  /** Clears the way from a blocked cell to the first walkable one; the free ring keeps it in the grid. */
  method GuaranteeWalkablePath(grid: array2<bool>, start: (int, int), position: Position) returns (ghost length: nat)
    requires InGrid(grid, start) && RingIsFree(grid)
    modifies grid
    ensures RingIsFree(grid)
    ensures InGrid(grid, Ray(start, position, length)) && old(IsWalkable(grid, Ray(start, position, length)))
    ensures forall k :: 0 <= k < length ==>
              InGrid(grid, Ray(start, position, k)) && !old(IsWalkable(grid, Ray(start, position, k)))
    ensures forall x, y :: 0 <= x < grid.Length0 && 0 <= y < grid.Length1 ==>
              (grid[x, y] <==> old(grid[x, y]) || OnRay(start, position, length, (x, y)))
  {
    hide Ray, OnRay;
    RayStarts(start, position);
    length := 0;
    var node := start;
    while !grid[node.0, node.1]
      invariant InGrid(grid, node) && node == Ray(start, position, length)
      invariant forall k :: 0 <= k < length ==>
                InGrid(grid, Ray(start, position, k)) && !old(IsWalkable(grid, Ray(start, position, k)))
      invariant !OnRay(start, position, length, node)
      invariant forall x, y :: 0 <= x < grid.Length0 && 0 <= y < grid.Length1 ==>
                  (grid[x, y] <==> old(grid[x, y]) || OnRay(start, position, length, (x, y)))
      decreases CellsAhead(grid, node, position)
    {
      assert !OnRing(grid, node);
      OneCellOn(grid, start, position, length);
      OneMoreOnRay(start, position, length);
      grid[node.0, node.1] := true;
      node := GetNextPointFromPosition(node, position);
      length := length + 1;
    }
  }

  lemma RayStarts(p: (int, int), position: Position)
    ensures Ray(p, position, 0) == p && !OnRay(p, position, 0, p)
            && forall x: int, y: int :: !OnRay(p, position, 0, (x, y))
  {
  }

  lemma OneMoreOnRay(p: (int, int), position: Position, length: nat)
    ensures forall x: int, y: int ::
              OnRay(p, position, length + 1, (x, y)) <==>
              OnRay(p, position, length, (x, y)) || (x, y) == Ray(p, position, length)
    ensures Ray(p, position, length + 1) == GetNextPointFromPosition(Ray(p, position, length), position)
  {
    forall x: int, y: int
      ensures OnRay(p, position, length + 1, (x, y))
              <==> OnRay(p, position, length, (x, y)) || (x, y) == Ray(p, position, length)
    {
      OnLongerRay(p, position, length, (x, y));
    }
  }

  lemma OnLongerRay(p: (int, int), position: Position, length: nat, cell: (int, int))
    ensures OnRay(p, position, length + 1, cell)
            <==> OnRay(p, position, length, cell) || cell == Ray(p, position, length)
  {
    hide Ray;
    if OnRay(p, position, length + 1, cell) {
      var k :| 0 <= k < length + 1 && Ray(p, position, k) == cell;
      assert k < length ==> OnRay(p, position, length, cell);
    }
    if OnRay(p, position, length, cell) {
      var k :| 0 <= k < length && Ray(p, position, k) == cell;
      assert 0 <= k < length + 1 && Ray(p, position, k) == cell;
    }
  }

  /** A blocked start and the cell after it both end up walkable. */
  lemma BlockedStartIsCleared(start: (int, int), position: Position, length: nat)
    requires length > 0
    ensures OnRay(start, position, length, start)
    ensures GetNextPointFromPosition(start, position) == Ray(start, position, 1)
    ensures length == 1 || OnRay(start, position, length, GetNextPointFromPosition(start, position))
  {
    assert Ray(start, position, 0) == start;
    assert Ray(start, position, 1) == GetNextPointFromPosition(start, position);
  }

  /** The cells that a node's box takes. */
  predicate Covers(box: NodeBoundingBox, xMin: real, yMin: real, size: real, x: int, y: int)
    requires size > 0.0
  {
    && Cell(box.topLeft.x, xMin, size) <= x < Cell(box.bottomRight.x, xMin, size)
    && Cell(box.topLeft.y, yMin, size) <= y < Cell(box.bottomRight.y, yMin, size)
  }

  predicate IsCovered(boxes: seq<NodeBoundingBox>, xMin: real, yMin: real, size: real, x: int, y: int)
    requires size > 0.0
  {
    exists i :: 0 <= i < |boxes| && Covers(boxes[i], xMin, yMin, size, x, y)
  }

  method BlockColumn(grid: array2<bool>, x: int, from: int, to: int)
    requires 0 <= x < grid.Length0 && 0 <= from <= to <= grid.Length1
    modifies grid
    ensures forall i, j :: 0 <= i < grid.Length0 && 0 <= j < grid.Length1 ==>
              (grid[i, j] <==> old(grid[i, j]) && !(i == x && from <= j < to))
  {
    for y := from to to
      invariant forall i, j :: 0 <= i < grid.Length0 && 0 <= j < grid.Length1 ==>
                  (grid[i, j] <==> old(grid[i, j]) && !(i == x && from <= j < y))
    {
      grid[x, y] := false;
    }
  }

  method BlockNode(grid: array2<bool>, left: int, right: int, top: int, bottom: int)
    requires 0 <= left <= right <= grid.Length0 && 0 <= top <= bottom <= grid.Length1
    modifies grid
    ensures forall i, j :: 0 <= i < grid.Length0 && 0 <= j < grid.Length1 ==>
              (grid[i, j] <==> old(grid[i, j]) && !(left <= i < right && top <= j < bottom))
  {
    for x := left to right
      invariant forall i, j :: 0 <= i < grid.Length0 && 0 <= j < grid.Length1 ==>
                  (grid[i, j] <==> old(grid[i, j]) && !(left <= i < x && top <= j < bottom))
    {
      BlockColumn(grid, x, top, bottom);
    }
  }

  /** Seen from the canvas, a box takes the cells whose points lie in it, its right and lower edge excepted. */
  lemma CoveredIffInside(box: NodeBoundingBox, xMin: real, yMin: real, size: real, x: int, y: int)
    requires size > 0.0 && IsMultiple(xMin, size) && IsMultiple(yMin, size)
    requires IsMultiple(box.topLeft.x, size) && IsMultiple(box.topLeft.y, size)
    requires IsMultiple(box.bottomRight.x, size) && IsMultiple(box.bottomRight.y, size)
    ensures Covers(box, xMin, yMin, size, x, y) <==>
              && box.topLeft.x <= ToCanvas(x as real, xMin, size) < box.bottomRight.x
              && box.topLeft.y <= ToCanvas(y as real, yMin, size) < box.bottomRight.y
  {
    CellOrder(box.topLeft.x, xMin, size, x);
    CellOrder(box.bottomRight.x, xMin, size, x);
    CellOrder(box.topLeft.y, yMin, size, y);
    CellOrder(box.bottomRight.y, yMin, size, y);
  }

  lemma CellOrder(c: real, smallest: real, size: real, cell: int)
    requires size > 0.0 && IsMultiple(smallest, size) && IsMultiple(c, size)
    ensures Cell(c, smallest, size) <= cell <==> c <= ToCanvas(cell as real, smallest, size)
  {
    AlignedCell(c, smallest, size);
    DivideProduct(c, size);
    DivideProduct(smallest, size);
    var k, m := (c / size).Floor, (smallest / size).Floor;
    assert c == k as real * size && smallest == m as real * size;
    assert Cell(c, smallest, size) <= cell <==> k as real <= cell as real + m as real - 1.0;
    ScalingKeepsOrder(k as real, cell as real + m as real - 1.0, size);
    assert (cell as real + m as real - 1.0) * size == cell as real * size + m as real * size - size;
  }

  ghost predicate BoxesFit(graph: GraphBoundingBox, boxes: seq<NodeBoundingBox>, size: real)
    requires size > 0.0
  {
    && IsMultiple(graph.xMin, size) && IsMultiple(graph.yMin, size)
    && graph.width == Abs(graph.xMin - graph.xMax) && graph.height == Abs(graph.yMin - graph.yMax)
    && forall i :: 0 <= i < |boxes| ==>
         && HasMargin(boxes[i].topLeft.x, boxes[i].bottomRight.x, graph.xMin, graph.xMax, size)
         && HasMargin(boxes[i].topLeft.y, boxes[i].bottomRight.y, graph.yMin, graph.yMax, size)
  }

  /** The boxes generated for any nodes fit into the grid allocated for them. */
  lemma GeneratedBoxesFit(nodes: seq<CanvasNode>, boxes: seq<NodeBoundingBox>, graph: GraphBoundingBox, padding: real,
                          size: real)
    requires size > 0.0 && padding > 0.0 && |nodes| == |boxes|
    requires forall i :: 0 <= i < |nodes| ==> boxes[i] == NodeBox(nodes[i], padding, size)
    requires IsGraphBox(graph, boxes, padding, size)
    ensures BoxesFit(graph, boxes, size)
  {
    hide NodeBox, RoundDown, RoundUp, IsMultiple, HasMargin, Lowest, Highest;
    RoundDownIsMultiple(Lowest(MAX_SAFE_INTEGER, Lefts(boxes)) - padding * 2.0, size);
    RoundDownIsMultiple(Lowest(MAX_SAFE_INTEGER, Tops(boxes)) - padding * 2.0, size);
    forall i | 0 <= i < |boxes|
      ensures HasMargin(boxes[i].topLeft.x, boxes[i].bottomRight.x, graph.xMin, graph.xMax, size)
      ensures HasMargin(boxes[i].topLeft.y, boxes[i].bottomRight.y, graph.yMin, graph.yMax, size)
    {
      EveryBoxHasMargin(nodes, boxes, graph, padding, size, i);
    }
  }

  lemma CountIsPositive(extent: real, size: real)
    requires size > 0.0 && extent >= 0.0
    ensures Count(extent, size) >= 1
  {
    if extent / size < 0.0 {
      QuotientKeepsOrder(extent, 0.0, size);
    }
  }

  method BlockNodes(grid: array2<bool>, graph: GraphBoundingBox, boxes: seq<NodeBoundingBox>, size: real)
    requires size > 0.0 && BoxesFit(graph, boxes, size)
    requires grid.Length0 == Count(graph.width, size) && grid.Length1 == Count(graph.height, size)
    requires forall x, y :: 0 <= x < grid.Length0 && 0 <= y < grid.Length1 ==> grid[x, y]
    modifies grid
    ensures forall x, y :: 0 <= x < grid.Length0 && 0 <= y < grid.Length1 ==>
              (grid[x, y] <==> !IsCovered(boxes, graph.xMin, graph.yMin, size, x, y))
    ensures RingIsFree(grid)
  {
    hide HasMargin, Cell, ToGrid, Count, IsMultiple, IsCovered;
    NothingIsCovered(graph.xMin, graph.yMin, size);
    for i := 0 to |boxes|
      invariant RingIsFree(grid)
      invariant forall x, y :: 0 <= x < grid.Length0 && 0 <= y < grid.Length1 ==>
                  (grid[x, y] <==> !IsCovered(boxes[..i], graph.xMin, graph.yMin, size, x, y))
    {
      var box := boxes[i];
      var nodeStart := ConvertCanvasToGridPoint(box.topLeft, graph.xMin, graph.yMin, size);
      var nodeEnd := ConvertCanvasToGridPoint(box.bottomRight, graph.xMin, graph.yMin, size);
      CellsKeepMargin(box.topLeft.x, box.bottomRight.x, graph.xMin, graph.xMax, size);
      CellsKeepMargin(box.topLeft.y, box.bottomRight.y, graph.yMin, graph.yMax, size);
      BlockNode(grid, nodeStart.x.Floor, nodeEnd.x.Floor, nodeStart.y.Floor, nodeEnd.y.Floor);
      OneMoreCovers(boxes, i, graph.xMin, graph.yMin, size);
    }
    assert boxes[..|boxes|] == boxes;
  }

  lemma NothingIsCovered(xMin: real, yMin: real, size: real)
    requires size > 0.0
    ensures forall x, y :: !IsCovered([], xMin, yMin, size, x, y)
  {
  }

  lemma OneMoreCovers(boxes: seq<NodeBoundingBox>, i: nat, xMin: real, yMin: real, size: real)
    requires i < |boxes| && size > 0.0
    ensures forall x, y :: IsCovered(boxes[..i + 1], xMin, yMin, size, x, y) <==>
                           IsCovered(boxes[..i], xMin, yMin, size, x, y) || Covers(boxes[i], xMin, yMin, size, x, y)
  {
    hide Covers;
    forall x, y ensures IsCovered(boxes[..i + 1], xMin, yMin, size, x, y) <==>
                        IsCovered(boxes[..i], xMin, yMin, size, x, y) || Covers(boxes[i], xMin, yMin, size, x, y)
    {
      if j :| 0 <= j < |boxes[..i]| && Covers(boxes[..i][j], xMin, yMin, size, x, y) {
        assert boxes[..i + 1][j] == boxes[..i][j];
      }
      assert boxes[..i + 1][i] == boxes[i];
    }
  }

  // ----- the whole grid

  /** The cell nearest to a canvas point. */
  function NearestCell(p: XYPosition, graph: GraphBoundingBox, size: real): (int, int)
    requires size > 0.0
  {
    (Cell(Cells((p.x / size + 0.5).Floor, size), graph.xMin, size),
        Cell(Cells((p.y / size + 0.5).Floor, size), graph.yMin, size))
  }

  /** Seen from the canvas, the cell's point is no further than half a cell from p, in both coordinates; of
      two cells as near as each other, the one further right or down. */
  ghost predicate IsNearest(cell: (int, int), p: XYPosition, graph: GraphBoundingBox, size: real) {
    && -0.5 * size < ToCanvas(cell.0 as real, graph.xMin, size) - p.x <= 0.5 * size
    && -0.5 * size < ToCanvas(cell.1 as real, graph.yMin, size) - p.y <= 0.5 * size
  }

  lemma NearestCoordinate(c: real, smallest: real, size: real)
    requires size > 0.0 && IsMultiple(smallest, size)
    ensures var cell := Cell(Cells((c / size + 0.5).Floor, size), smallest, size);
            && -0.5 * size < ToCanvas(cell as real, smallest, size) - c <= 0.5 * size
            && cell == (c / size + 0.5).Floor - (smallest / size).Floor + 1
  {
    var q := c / size;
    var k := (q + 0.5).Floor;
    CellsAreMultiple(k, size);
    DivideProduct(c, size);
    DivideProduct(smallest, size);
    assert ToGrid(Cells(k, size), smallest, size) == (k - (smallest / size).Floor + 1) as real;
    var m := (smallest / size).Floor as real;
    assert smallest == m * size && c == q * size;
    var cell := k - (smallest / size).Floor + 1;
    assert cell as real == k as real - m + 1.0;
    ShiftedPoint(k as real, m, size);
    assert Cell(Cells(k, size), smallest, size) == cell;
    var point := ToCanvas(cell as real, smallest, size);
    assert point == k as real * size;
    HalfCell(k as real, q, point, c, size);
  }

  lemma ShiftedPoint(k: real, m: real, size: real)
    ensures (k - m + 1.0) * size + m * size - size == k * size
  {
  }

  lemma HalfCell(k: real, q: real, point: real, c: real, size: real)
    requires size > 0.0 && k <= q + 0.5 < k + 1.0 && point == k * size && c == q * size
    ensures -0.5 * size < point - c <= 0.5 * size
  {
    var e := k - q;
    var d := e * size;
    Scaled(e, size);
    assert d == k * size - q * size;
    assert d == point - c;
    assert -0.5 * size < d <= 0.5 * size;
  }

  lemma Scaled(e: real, size: real)
    requires size > 0.0 && -0.5 < e <= 0.5
    ensures -0.5 * size < e * size <= 0.5 * size
  {
    var f, g := 0.5 - e, 0.5 + e;
    assert f * size >= 0.0 && g * size > 0.0;
    assert f * size == 0.5 * size - e * size && g * size == 0.5 * size + e * size;
  }

  /** A handle's cell lies where the handle is. */
  lemma HandleCellIsNearest(p: XYPosition, graph: GraphBoundingBox, size: real)
    requires size > 0.0 && IsMultiple(graph.xMin, size) && IsMultiple(graph.yMin, size)
    ensures IsNearest(NearestCell(p, graph, size), p, graph, size)
  {
    NearestCoordinate(p.x, graph.xMin, size);
    NearestCoordinate(p.y, graph.yMin, size);
  }

  lemma CoordinateBetween(c: real, low: real, high: real, smallest: real, size: real)
    requires size > 0.0 && IsMultiple(smallest, size) && IsMultiple(low, size) && IsMultiple(high, size)
    requires low <= c <= high
    ensures Cell(low, smallest, size) <= Cell(Cells((c / size + 0.5).Floor, size), smallest, size)
            <= Cell(high, smallest, size)
  {
    NearestCoordinate(c, smallest, size);
    AlignedCell(low, smallest, size);
    AlignedCell(high, smallest, size);
    QuotientInOrder(low, c, size);
    QuotientInOrder(c, high, size);
  }

  lemma AlignedCell(c: real, smallest: real, size: real)
    requires size > 0.0 && IsMultiple(smallest, size) && IsMultiple(c, size)
    ensures Cell(c, smallest, size) == (c / size).Floor - (smallest / size).Floor + 1
  {
  }

  lemma QuotientInOrder(a: real, b: real, size: real)
    requires size > 0.0 && a <= b
    ensures a / size <= b / size
  {
    QuotientKeepsOrder(b, a, size);
  }

  /** A handle on or inside a node's box gets a cell of the box or on its far edges, so it is on the grid. */
  lemma HandleOnBoxIsOnGrid(p: XYPosition, graph: GraphBoundingBox, boxes: seq<NodeBoundingBox>, size: real, i: nat)
    requires size > 0.0 && BoxesFit(graph, boxes, size) && i < |boxes|
    requires boxes[i].topLeft.x <= p.x <= boxes[i].bottomRight.x && boxes[i].topLeft.y <= p.y <= boxes[i].bottomRight.y
    ensures var cell := NearestCell(p, graph, size);
            && Cell(boxes[i].topLeft.x, graph.xMin, size) <= cell.0 <= Cell(boxes[i].bottomRight.x, graph.xMin, size)
            && Cell(boxes[i].topLeft.y, graph.yMin, size) <= cell.1 <= Cell(boxes[i].bottomRight.y, graph.yMin, size)
            && 0 <= cell.0 < Count(graph.width, size) && 0 <= cell.1 < Count(graph.height, size)
  {
    var box := boxes[i];
    assert HasMargin(box.topLeft.x, box.bottomRight.x, graph.xMin, graph.xMax, size);
    assert HasMargin(box.topLeft.y, box.bottomRight.y, graph.yMin, graph.yMax, size);
    CoordinateBetween(p.x, box.topLeft.x, box.bottomRight.x, graph.xMin, size);
    CoordinateBetween(p.y, box.topLeft.y, box.bottomRight.y, graph.yMin, size);
    CellsKeepMargin(box.topLeft.x, box.bottomRight.x, graph.xMin, graph.xMax, size);
    CellsKeepMargin(box.topLeft.y, box.bottomRight.y, graph.yMin, graph.yMax, size);
  }

  /** A coordinate is on the grid from one and a half cells before the smallest one to half a cell before
      the largest one. */
  lemma CoordinateOnGridIff(c: real, smallest: real, largest: real, size: real)
    requires size > 0.0 && IsMultiple(smallest, size) && IsMultiple(largest, size) && smallest <= largest
    ensures 0 <= Cell(Cells((c / size + 0.5).Floor, size), smallest, size) < Count(Abs(smallest - largest), size)
            <==> smallest - 1.5 * size <= c < largest - 0.5 * size
  {
    hide *;
    var m, n := (smallest / size).Floor, (largest / size).Floor;
    CellByQuotient(c, smallest, size);
    CountBetween(smallest, largest, size);
    RoundedBetween(c / size, m, n);
    CoordinateOrder(c, smallest, 1.5, size);
    CoordinateOrder(c, largest, 0.5, size);
  }

  lemma CellByQuotient(c: real, smallest: real, size: real)
    requires size > 0.0 && IsMultiple(smallest, size)
    ensures Cell(Cells((c / size + 0.5).Floor, size), smallest, size)
            == (c / size + 0.5).Floor - (smallest / size).Floor + 1
  {
    NearestCoordinate(c, smallest, size);
  }

  lemma CoordinateOrder(c: real, end: real, shift: real, size: real)
    requires size > 0.0 && IsMultiple(end, size)
    ensures (end / size).Floor as real - shift <= c / size <==> end - shift * size <= c
  {
    DivideProduct(c, size);
    AlignedProduct(end, size);
    ShiftedOrder(c / size, c, (end / size).Floor as real, end, shift, size);
  }

  lemma RoundedBetween(q: real, m: int, n: int)
    ensures m - 1 <= (q + 0.5).Floor < n <==> m as real - 1.5 <= q < n as real - 0.5
  {
  }

  lemma AlignedProduct(c: real, size: real)
    requires size > 0.0 && IsMultiple(c, size)
    ensures c == (c / size).Floor as real * size
  {
    DivideProduct(c, size);
  }

  lemma CountBetween(smallest: real, largest: real, size: real)
    requires size > 0.0 && IsMultiple(smallest, size) && IsMultiple(largest, size) && smallest <= largest
    ensures Count(Abs(smallest - largest), size) == (largest / size).Floor - (smallest / size).Floor + 1
  {
    QuotientOfDifference(largest, smallest, size);
    var steps := (largest / size).Floor - (smallest / size).Floor;
    assert (largest - smallest) / size == steps as real;
    assert Abs(smallest - largest) == largest - smallest;
    assert Ceiling(steps as real) == steps;
  }

  lemma ShiftedOrder(q: real, c: real, m: real, end: real, shift: real, size: real)
    requires size > 0.0 && c == q * size && end == m * size
    ensures m - shift <= q <==> end - shift * size <= c
  {
    ScalingKeepsOrder(m - shift, q, size);
    assert (m - shift) * size == m * size - shift * size;
  }

  lemma ScalingKeepsOrder(a: real, b: real, size: real)
    requires size > 0.0
    ensures a <= b <==> a * size <= b * size
  {
    if a <= b {
      ProductKeepsOrder(a, b, size);
    } else {
      var e := a - b;
      assert e * size > 0.0 && e * size == a * size - b * size;
    }
  }

  /** Which handles lie on the grid. The far edge of the graph's box does not. */
  lemma HandleIsOnGridIff(p: XYPosition, graph: GraphBoundingBox, size: real)
    requires size > 0.0 && IsMultiple(graph.xMin, size) && IsMultiple(graph.yMin, size)
    requires IsMultiple(graph.xMax, size) && IsMultiple(graph.yMax, size)
    requires graph.xMin <= graph.xMax && graph.yMin <= graph.yMax
    requires graph.width == Abs(graph.xMin - graph.xMax) && graph.height == Abs(graph.yMin - graph.yMax)
    ensures var cell := NearestCell(p, graph, size);
            0 <= cell.0 < Count(graph.width, size) && 0 <= cell.1 < Count(graph.height, size) <==>
            && graph.xMin - 1.5 * size <= p.x < graph.xMax - 0.5 * size
            && graph.yMin - 1.5 * size <= p.y < graph.yMax - 0.5 * size
  {
    CoordinateOnGridIff(p.x, graph.xMin, graph.xMax, size);
    CoordinateOnGridIff(p.y, graph.yMin, graph.yMax, size);
  }

  method ConvertHandle(p: XYPosition, graph: GraphBoundingBox, size: real) returns (cell: (int, int))
    requires size > 0.0 && IsMultiple(graph.xMin, size) && IsMultiple(graph.yMin, size)
    ensures cell == NearestCell(p, graph, size)
  {
    var rounded := XYPosition(Cells((p.x / size + 0.5).Floor, size), Cells((p.y / size + 0.5).Floor, size));
    var r := ConvertCanvasToGridPoint(rounded, graph.xMin, graph.yMin, size);
    cell := (r.x.Floor, r.y.Floor);
  }

  /** Clears a handle's way up to the first walkable cell and steps off it; a handle that was blocked gets a
      walkable start for its path. */
  method LeaveHandle(grid: array2<bool>, handle: (int, int), position: Position) returns (next: (int, int),
                     ghost length: nat)
    requires InGrid(grid, handle) && RingIsFree(grid)
    modifies grid
    ensures RingIsFree(grid) && IsWalkable(grid, handle)
    ensures next == GetNextPointFromPosition(handle, position)
    ensures InGrid(grid, Ray(handle, position, length)) && old(IsWalkable(grid, Ray(handle, position, length)))
    ensures forall k :: 0 <= k < length ==>
              InGrid(grid, Ray(handle, position, k)) && !old(IsWalkable(grid, Ray(handle, position, k)))
    ensures InGrid(grid, next) && IsWalkable(grid, next) <==>
            !old(IsWalkable(grid, handle)) || (InGrid(grid, next) && old(IsWalkable(grid, next)))
    ensures length > 0 <==> !old(IsWalkable(grid, handle))
    ensures forall x, y :: 0 <= x < grid.Length0 && 0 <= y < grid.Length1 ==>
              (grid[x, y] <==> old(grid[x, y]) || OnRay(handle, position, length, (x, y)))
  {
    hide OnRay;
    length := GuaranteeWalkablePath(grid, handle, position);
    next := GetNextPointFromPosition(handle, position);
    assert Ray(handle, position, 0) == handle;
    RayStarts(handle, position);
    if length > 0 {
      BlockedStartIsCleared(handle, position, length);
      assert InGrid(grid, Ray(handle, position, 1));
    }
  }

  /** No node takes the cell. */
  ghost predicate IsOpen(graph: GraphBoundingBox, boxes: seq<NodeBoundingBox>, size: real, cell: (int, int))
    requires size > 0.0
  {
    !IsCovered(boxes, graph.xMin, graph.yMin, size, cell.0, cell.1)
  }

  /** What has been cleared so far: a number of cells from a handle on. */
  datatype Stretch = Stretch(handle: (int, int), position: Position, length: nat)

  /** No node takes the cell, or it has been cleared. */
  ghost predicate IsFree(graph: GraphBoundingBox, boxes: seq<NodeBoundingBox>, size: real, cleared: Stretch,
                         cell: (int, int))
    requires size > 0.0
  {
    IsOpen(graph, boxes, size, cell) || OnRay(cleared.handle, cleared.position, cleared.length, cell)
  }

  /** The stretch ends at the first cell that is free already. */
  ghost predicate EndsAtFirstFree(graph: GraphBoundingBox, boxes: seq<NodeBoundingBox>, size: real, cleared: Stretch,
                                  s: Stretch)
    requires size > 0.0
  {
    && IsFree(graph, boxes, size, cleared, Ray(s.handle, s.position, s.length))
    && forall k :: 0 <= k < s.length ==> !IsFree(graph, boxes, size, cleared, Ray(s.handle, s.position, k))
  }

  /** So it is determined by the nodes. */
  lemma StretchIsUnique(graph: GraphBoundingBox, boxes: seq<NodeBoundingBox>, size: real, cleared: Stretch,
                          s: Stretch, r: Stretch)
    requires size > 0.0 && s.handle == r.handle && s.position == r.position
    requires EndsAtFirstFree(graph, boxes, size, cleared, s) && EndsAtFirstFree(graph, boxes, size, cleared, r)
    ensures s == r
  {
    hide IsFree, Ray;
  }

  /** Throws, and is not ok, exactly where a handle lies off the grid. The cells are those no node takes, and
      the two stretches from the handles to the first cells that are free by then. */
  method GeneratePathfindingGrid(graph: GraphBoundingBox, boxes: seq<NodeBoundingBox>, source: XYPosition,
                                 sourcePosition: Position,
                                 target: XYPosition, targetPosition: Position, size: real)
    returns (ok: bool, grid: array2<bool>, start: (int, int), end: (int, int), ghost cleared: (Stretch, Stretch))
    requires size > 0.0 && BoxesFit(graph, boxes, size)
    ensures fresh(grid) && grid.Length0 == Count(graph.width, size) && grid.Length1 == Count(graph.height, size)
    ensures ok <==> InGrid(grid, NearestCell(source, graph, size)) && InGrid(grid, NearestCell(target, graph, size))
    ensures ok ==> RingIsFree(grid)
    ensures ok ==>
              && IsNearest(cleared.0.handle, source, graph, size) && IsNearest(cleared.1.handle, target, graph, size)
    ensures ok ==>
              && cleared.0.handle == NearestCell(source, graph, size) && cleared.0.position == sourcePosition
              && cleared.1.handle == NearestCell(target, graph, size) && cleared.1.position == targetPosition
              && EndsAtFirstFree(graph, boxes, size, cleared.0.(length := 0), cleared.0)
              && EndsAtFirstFree(graph, boxes, size, cleared.0, cleared.1)
    ensures ok ==>
              forall x, y :: 0 <= x < grid.Length0 && 0 <= y < grid.Length1 ==>
                (grid[x, y] <==> || IsFree(graph, boxes, size, cleared.0, (x, y))
                                 || OnRay(cleared.1.handle, targetPosition, cleared.1.length, (x, y)))
    ensures ok ==>
              var from := NearestCell(source, graph, size);
              && IsWalkable(grid, from) && start == GetNextPointFromPosition(from, sourcePosition)
              && (!IsOpen(graph, boxes, size, from) ==> InGrid(grid, start) && IsWalkable(grid, start))
    ensures ok ==>
              var to := NearestCell(target, graph, size);
              && IsWalkable(grid, to) && end == GetNextPointFromPosition(to, targetPosition)
              && (InGrid(grid, end) && IsWalkable(grid, end) <==>
                    || !IsFree(graph, boxes, size, cleared.0, to)
                    || (InGrid(grid, end) && IsFree(graph, boxes, size, cleared.0, end)))
  {
    hide HasMargin, Count, IsMultiple, IsCovered, NearestCell, OnRay, Ray, IsNearest;
    CountIsPositive(graph.width, size);
    CountIsPositive(graph.height, size);
    grid := new bool[Count(graph.width, size), Count(graph.height, size)]((_, _) => true);
    BlockNodes(grid, graph, boxes, size);
    var startCell := ConvertHandle(source, graph, size);
    var endCell := ConvertHandle(target, graph, size);
    start, end := startCell, endCell;
    cleared := (Stretch(startCell, sourcePosition, 0), Stretch(endCell, targetPosition, 0));
    ok := InGrid(grid, startCell) && InGrid(grid, endCell);
    if ok {
      ghost var first, second;
      HandleCellIsNearest(source, graph, size);
      HandleCellIsNearest(target, graph, size);
      NothingCleared(startCell, sourcePosition);
      start, first := LeaveHandle(grid, startCell, sourcePosition);
      cleared := (Stretch(startCell, sourcePosition, first), cleared.1);
      assert EndsAtFirstFree(graph, boxes, size, cleared.0.(length := 0), cleared.0);
      end, second := LeaveHandle(grid, endCell, targetPosition);
      cleared := (cleared.0, Stretch(endCell, targetPosition, second));
    }
  }

  lemma NothingCleared(handle: (int, int), position: Position)
    ensures forall x: int, y: int :: !OnRay(handle, position, 0, (x, y))
  {
  }

  /** One path end that stays blocked: the target handle lies on the stretch cleared for the source handle,
      so that nothing is cleared for it, and the cell behind it is taken. */
  lemma PathEndMayStayBlocked()
    ensures var corner, opposite := XYPosition(1.0, 1.0), XYPosition(5.0, 5.0);
            var box := NodeBoundingBox("n", 4.0, 4.0, corner, XYPosition(1.0, 5.0), XYPosition(5.0, 1.0), opposite);
            var graph := GraphBoundingBox(0.0, 0.0, 8.0, 8.0, 8.0, 8.0);
            var from, to := NearestCell(XYPosition(3.0, 3.0), graph, 1.0),
                NearestCell(XYPosition(2.0, 3.0), graph, 1.0);
            && BoxesFit(graph, [box], 1.0)
            && EndsAtFirstFree(graph, [box], 1.0, Stretch(from, Left, 0), Stretch(from, Left, 3))
            && IsFree(graph, [box], 1.0, Stretch(from, Left, 3), to)
            && !IsFree(graph, [box], 1.0, Stretch(from, Left, 3), GetNextPointFromPosition(to, Top))
  {
    var corner, opposite := XYPosition(1.0, 1.0), XYPosition(5.0, 5.0);
    var box := NodeBoundingBox("n", 4.0, 4.0, corner, XYPosition(1.0, 5.0), XYPosition(5.0, 1.0), opposite);
    var graph := GraphBoundingBox(0.0, 0.0, 8.0, 8.0, 8.0, 8.0);
    WholeCells();
    assert forall x, y :: IsOpen(graph, [box], 1.0, (x, y)) <==> !(2 <= x < 6 && 2 <= y < 6) by {
      forall x: int, y: int ensures IsOpen(graph, [box], 1.0, (x, y)) <==> !(2 <= x < 6 && 2 <= y < 6) {
        OnlyBoxCovers(box, x, y);
      }
    }
    hide IsOpen, NearestCell;
    forall k: nat | k <= 3 ensures Ray((4, 4), Left, k) == (4 - k, 4) {
      RayIsStraight((4, 4), Left, k);
    }
    assert OnRay((4, 4), Left, 3, (3, 4)) by { assert Ray((4, 4), Left, 1) == (3, 4); }
  }

  lemma WholeCells()
    ensures Cell(1.0, 0.0, 1.0) == 2 && Cell(5.0, 0.0, 1.0) == 6
    ensures var graph := GraphBoundingBox(0.0, 0.0, 8.0, 8.0, 8.0, 8.0);
            NearestCell(XYPosition(3.0, 3.0), graph, 1.0) == (4, 4)
                && NearestCell(XYPosition(2.0, 3.0), graph, 1.0) == (3, 4)
    ensures HasMargin(1.0, 5.0, 0.0, 8.0, 1.0)
  {
  }

  lemma OnlyBoxCovers(box: NodeBoundingBox, x: int, y: int)
    ensures IsCovered([box], 0.0, 0.0, 1.0, x, y) <==> Covers(box, 0.0, 0.0, 1.0, x, y)
  {
    assert [box][0] == box;
  }
}
