/** Bounding boxes and the two coordinate systems of edge routing (Edge.Utils.ts). */
module Routing {
  import opened Model
  import opened Numbers

  datatype XYPosition = XYPosition(x: real, y: real)

  /** A node on the canvas; sizes and position may not be known yet. */
  datatype CanvasNode = CanvasNode(id: string, width: Option<real>, height: Option<real>,
      positionAbsolute: Option<XYPosition>)

  datatype NodeBoundingBox = NodeBoundingBox(
    id: string,
    width: real,
    height: real,
    topLeft: XYPosition,
    bottomLeft: XYPosition,
    topRight: XYPosition,
    bottomRight: XYPosition)

  datatype GraphBoundingBox = GraphBoundingBox(xMin: real, yMin: real, xMax: real, yMax: real, width: real,
      height: real)

  const MAX_SAFE_INTEGER := 9007199254740991.0
  const MIN_SAFE_INTEGER := -9007199254740991.0

  // ----- rounding

  predicate IsInteger(x: real) {
    x.Floor as real == x
  }

  function Ceiling(x: real): int {
    -((-x).Floor)
  }

  /** Aligned with the grid. */
  predicate IsMultiple(x: real, size: real)
    requires size > 0.0
  {
    IsInteger(x / size)
  }

  /** The width of k cells. */
  function Cells(k: int, size: real): real {
    k as real * size
  }

  function RoundDown(x: real, size: real): real
    requires size != 0.0
  {
    Cells((x / size).Floor, size)
  }

  function RoundUp(x: real, size: real): real
    requires size != 0.0
  {
    Cells(Ceiling(x / size), size)
  }

  lemma DivideProduct(k: real, size: real)
    requires size > 0.0
    ensures (k * size) / size == k && (k / size) * size == k
  {
  }

  lemma ProductKeepsOrder(a: real, b: real, size: real)
    requires a <= b && size > 0.0
    ensures a * size <= b * size
  {
    var d := b - a;
    assert d * size >= 0.0;
  }

  lemma QuotientKeepsOrder(a: real, b: real, size: real)
    requires size > 0.0
    ensures a < b <==> a / size < b / size
  {
    DivideProduct(a, size);
    DivideProduct(b, size);
    var x, y := a / size, b / size;
    if x >= y {
      ProductKeepsOrder(y, x, size);
    } else {
      ProductKeepsOrder(x, y, size);
    }
  }

  lemma QuotientOfDifference(a: real, b: real, size: real)
    requires size > 0.0
    ensures (a - b) / size == a / size - b / size
  {
    var x, y := a / size, b / size;
    DivideProduct(a, size);
    DivideProduct(b, size);
    assert (x - y) * size == a - b;
    DivideProduct(x - y, size);
  }

  lemma QuotientOf(p: real, k: real, size: real)
    requires size > 0.0 && p == k * size
    ensures p / size == k
  {
  }

  lemma CellsAreMultiple(k: int, size: real)
    requires size > 0.0
    ensures IsMultiple(Cells(k, size), size) && Cells(k, size) / size == k as real
  {
    QuotientOf(Cells(k, size), k as real, size);
    assert (k as real).Floor == k;
  }

  lemma NearProducts(p: real, a: real, x: real, b: real, size: real)
    requires p == a * size && x == b * size && a <= b < a + 1.0 && size > 0.0
    ensures p <= x < p + size
  {
    var d := b - a;
    assert x - p == d * size;
    assert d * size >= 0.0;
    ShortProduct(d, size);
  }

  /** Cells on either side of a coordinate. */
  lemma NearestCells(k: int, q: real, x: real, size: real)
    requires size > 0.0 && x == q * size
    ensures k as real <= q < k as real + 1.0 ==> x - size < Cells(k, size) <= x
    ensures q <= k as real < q + 1.0 ==> x <= Cells(k, size) < x + size
  {
    var a, p := k as real, Cells(k, size);
    if a <= q < a + 1.0 {
      NearProducts(p, a, x, q, size);
    }
    if q <= a < q + 1.0 {
      NearProducts(x, q, p, a, size);
    }
  }

  /** Rounding down ends on the grid, less than one cell away. */
  lemma RoundDownIsMultiple(x: real, size: real)
    requires size > 0.0
    ensures IsMultiple(RoundDown(x, size), size) && x - size < RoundDown(x, size) <= x
  {
    hide Cells, IsMultiple;
    var k := (x / size).Floor;
    CellsAreMultiple(k, size);
    NearestCells(k, x / size, x, size);
  }

  lemma ShortProduct(d: real, size: real)
    requires d < 1.0 && size > 0.0
    ensures d * size < size
  {
    var e := 1.0 - d;
    assert e * size > 0.0;
    assert e * size == size - d * size;
  }

  lemma RoundUpIsMultiple(x: real, size: real)
    requires size > 0.0
    ensures IsMultiple(RoundUp(x, size), size) && x <= RoundUp(x, size) < x + size
  {
    hide Cells, IsMultiple;
    var k := Ceiling(x / size);
    CellsAreMultiple(k, size);
    NearestCells(k, x / size, x, size);
  }

  /** Two aligned coordinates that differ are at least a cell apart. */
  lemma MultiplesAreApart(a: real, b: real, size: real)
    requires size > 0.0 && IsMultiple(a, size) && IsMultiple(b, size) && a < b
    ensures a / size + 1.0 <= b / size
  {
    QuotientKeepsOrder(a, b, size);
    assert (a / size).Floor < (b / size).Floor;
  }

  // ----- bounding boxes

  function Or(x: Option<real>, default: real): real {
    if x.Some? then x.value else default
  }

  function Lower(x: real, roundTo: real): real
    requires roundTo != 0.0
  {
    if roundTo > 0.0 then RoundDown(x, roundTo) else x
  }

  function Upper(x: real, roundTo: real): real
    requires roundTo != 0.0
  {
    if roundTo > 0.0 then RoundUp(x, roundTo) else x
  }

  /** A box is only rounded to a positive cell size. */
  function NodeBox(node: CanvasNode, padding: real, roundTo: real): NodeBoundingBox
    requires roundTo != 0.0
  {
    var width, height := Max(Or(node.width, 0.0), 1.0), Max(Or(node.height, 0.0), 1.0);
    var position := if node.positionAbsolute.Some? then node.positionAbsolute.value else XYPosition(0.0, 0.0);
    var left, top := Lower(position.x - padding, roundTo), Lower(position.y - padding, roundTo);
    var right, bottom := Upper(position.x + width + padding, roundTo), Upper(position.y + height + padding, roundTo);
    NodeBoundingBox(node.id, width, height, XYPosition(left, top), XYPosition(left, bottom), XYPosition(right, top),
        XYPosition(right, bottom))
  }

  /** The smallest of the numbers and the start, and the largest. */
  function Lowest(start: real, xs: seq<real>): real {
    if xs == [] then start
    else
      var r := Lowest(start, xs[..|xs| - 1]);
      if xs[|xs| - 1] < r then xs[|xs| - 1] else r
  }

  function Highest(start: real, xs: seq<real>): real {
    if xs == [] then start
    else
      var r := Highest(start, xs[..|xs| - 1]);
      if xs[|xs| - 1] > r then xs[|xs| - 1] else r
  }

  lemma {:induction false} LowestBounds(start: real, xs: seq<real>)
    ensures forall i :: 0 <= i < |xs| ==> Lowest(start, xs) <= xs[i]
    ensures Lowest(start, xs) == start || Lowest(start, xs) in xs
    ensures Lowest(start, xs) <= start
  {
    if xs != [] {
      LowestBounds(start, xs[..|xs| - 1]);
    }
  }

  lemma {:induction false} HighestBounds(start: real, xs: seq<real>)
    ensures forall i :: 0 <= i < |xs| ==> Highest(start, xs) >= xs[i]
    ensures Highest(start, xs) == start || Highest(start, xs) in xs
    ensures Highest(start, xs) >= start
  {
    if xs != [] {
      HighestBounds(start, xs[..|xs| - 1]);
    }
  }

  function Lefts(boxes: seq<NodeBoundingBox>): seq<real> {
    seq(|boxes|, i requires 0 <= i < |boxes| => boxes[i].topLeft.x)
  }

  function Tops(boxes: seq<NodeBoundingBox>): seq<real> {
    seq(|boxes|, i requires 0 <= i < |boxes| => boxes[i].topLeft.y)
  }

  function Rights(boxes: seq<NodeBoundingBox>): seq<real> {
    seq(|boxes|, i requires 0 <= i < |boxes| => boxes[i].bottomRight.x)
  }

  function Bottoms(boxes: seq<NodeBoundingBox>): seq<real> {
    seq(|boxes|, i requires 0 <= i < |boxes| => boxes[i].bottomRight.y)
  }

  /** The corners and edges the graph's box must have for the given node boxes. */
  ghost predicate IsGraphBox(box: GraphBoundingBox, boxes: seq<NodeBoundingBox>, padding: real, roundTo: real)
    requires roundTo != 0.0
  {
    && box.xMin == RoundDown(Lowest(MAX_SAFE_INTEGER, Lefts(boxes)) - padding * 2.0, roundTo)
    && box.yMin == RoundDown(Lowest(MAX_SAFE_INTEGER, Tops(boxes)) - padding * 2.0, roundTo)
    && box.xMax == RoundUp(Highest(MIN_SAFE_INTEGER, Rights(boxes)) + padding * 2.0, roundTo)
    && box.yMax == RoundUp(Highest(MIN_SAFE_INTEGER, Bottoms(boxes)) + padding * 2.0, roundTo)
    && box.width == Abs(box.xMin - box.xMax) && box.height == Abs(box.yMin - box.yMax)
  }

  method GenerateBoundingBoxes(nodes: seq<CanvasNode>, nodePadding: real, roundTo: real)
    returns (graphBox: GraphBoundingBox, nodeBoxes: seq<NodeBoundingBox>)
    requires roundTo != 0.0
    ensures |nodeBoxes| == |nodes| && forall i :: 0 <= i < |nodes| ==>
              nodeBoxes[i] == NodeBox(nodes[i], nodePadding, roundTo)
    ensures IsGraphBox(graphBox, nodeBoxes, nodePadding, roundTo)
  {
    hide Lowest, Highest, NodeBox, Lefts, Tops, Rights, Bottoms, RoundDown, RoundUp;
    var xMax, yMax, xMin, yMin := MIN_SAFE_INTEGER, MIN_SAFE_INTEGER, MAX_SAFE_INTEGER, MAX_SAFE_INTEGER;
    nodeBoxes := [];
    NoBoxes();
    for i := 0 to |nodes|
      invariant |nodeBoxes| == i && forall j :: 0 <= j < i ==> nodeBoxes[j] == NodeBox(nodes[j], nodePadding, roundTo)
      invariant xMin == Lowest(MAX_SAFE_INTEGER, Lefts(nodeBoxes)) && yMin == Lowest(MAX_SAFE_INTEGER, Tops(nodeBoxes))
      invariant xMax == Highest(MIN_SAFE_INTEGER, Rights(nodeBoxes))
                && yMax == Highest(MIN_SAFE_INTEGER, Bottoms(nodeBoxes))
    {
      var box := NodeBox(nodes[i], nodePadding, roundTo);
      OneMoreBox(nodeBoxes, box);
      if box.topLeft.y < yMin { yMin := box.topLeft.y; }
      if box.topLeft.x < xMin { xMin := box.topLeft.x; }
      if box.bottomRight.y > yMax { yMax := box.bottomRight.y; }
      if box.bottomRight.x > xMax { xMax := box.bottomRight.x; }
      nodeBoxes := nodeBoxes + [box];
    }
    var graphPadding := nodePadding * 2.0;
    xMax, yMax := RoundUp(xMax + graphPadding, roundTo), RoundUp(yMax + graphPadding, roundTo);
    xMin, yMin := RoundDown(xMin - graphPadding, roundTo), RoundDown(yMin - graphPadding, roundTo);
    graphBox := GraphBoundingBox(xMin, yMin, xMax, yMax, Abs(xMin - xMax), Abs(yMin - yMax));
  }

  lemma NoBoxes()
    ensures Lowest(MAX_SAFE_INTEGER, Lefts([])) == Lowest(MAX_SAFE_INTEGER, Tops([])) == MAX_SAFE_INTEGER
    ensures Highest(MIN_SAFE_INTEGER, Rights([])) == Highest(MIN_SAFE_INTEGER, Bottoms([])) == MIN_SAFE_INTEGER
  {
  }

  lemma OneMoreBox(boxes: seq<NodeBoundingBox>, box: NodeBoundingBox)
    ensures var low, high := Lowest(MAX_SAFE_INTEGER, Lefts(boxes)), Highest(MIN_SAFE_INTEGER, Rights(boxes));
            && Lowest(MAX_SAFE_INTEGER, Lefts(boxes + [box])) == (if box.topLeft.x < low then box.topLeft.x else low)
            && Highest(MIN_SAFE_INTEGER, Rights(boxes + [box]))
                  == (if box.bottomRight.x > high then box.bottomRight.x else high)
    ensures var low, high := Lowest(MAX_SAFE_INTEGER, Tops(boxes)), Highest(MIN_SAFE_INTEGER, Bottoms(boxes));
            && Lowest(MAX_SAFE_INTEGER, Tops(boxes + [box])) == (if box.topLeft.y < low then box.topLeft.y else low)
            && Highest(MIN_SAFE_INTEGER, Bottoms(boxes + [box]))
                  == (if box.bottomRight.y > high then box.bottomRight.y else high)
  {
    var n := |boxes|;
    assert Lefts(boxes + [box])[..n] == Lefts(boxes) && Rights(boxes + [box])[..n] == Rights(boxes);
    assert Tops(boxes + [box])[..n] == Tops(boxes) && Bottoms(boxes + [box])[..n] == Bottoms(boxes);
  }

  /** One side of a box inside the graph's extent: aligned, and a cell or more away from the ends. */
  ghost predicate HasMargin(low: real, high: real, min: real, max: real, size: real)
    requires size > 0.0
  {
    && IsMultiple(low, size) && IsMultiple(high, size) && IsMultiple(min, size) && IsMultiple(max, size)
    && min / size + 1.0 <= low / size < high / size <= max / size - 1.0
  }

  lemma SideHasMargin(low: real, high: real, lowest: real, highest: real, padding: real, size: real)
    requires size > 0.0 && padding > 0.0 && lowest <= low < high <= highest
    requires IsMultiple(low, size) && IsMultiple(high, size)
    ensures HasMargin(low, high, RoundDown(lowest - padding * 2.0, size), RoundUp(highest + padding * 2.0, size), size)
  {
    hide IsMultiple, RoundDown, RoundUp;
    var min, max := RoundDown(lowest - padding * 2.0, size), RoundUp(highest + padding * 2.0, size);
    RoundDownIsMultiple(lowest - padding * 2.0, size);
    RoundUpIsMultiple(highest + padding * 2.0, size);
    MultiplesAreApart(min, low, size);
    MultiplesAreApart(high, max, size);
    QuotientKeepsOrder(low, high, size);
  }

  lemma RoundedSide(low: real, high: real, roundTo: real)
    requires roundTo != 0.0
    ensures Lower(low, roundTo) <= low && high <= Upper(high, roundTo)
    ensures roundTo > 0.0 ==> IsMultiple(Lower(low, roundTo), roundTo) && IsMultiple(Upper(high, roundTo), roundTo)
  {
    hide RoundDown, RoundUp, IsMultiple;
    if roundTo > 0.0 {
      RoundDownIsMultiple(low, roundTo);
      RoundUpIsMultiple(high, roundTo);
    }
  }

  /** The box of a node covers it with its padding, and is aligned if it is rounded. */
  lemma BoxCoversNode(node: CanvasNode, padding: real, roundTo: real)
    requires roundTo != 0.0
    ensures var box := NodeBox(node, padding, roundTo);
            var position := if node.positionAbsolute.Some? then node.positionAbsolute.value else XYPosition(0.0, 0.0);
            && box.topLeft.x <= position.x - padding && position.x + box.width + padding <= box.bottomRight.x
            && box.topLeft.y <= position.y - padding && position.y + box.height + padding <= box.bottomRight.y
            && box.width >= 1.0 && box.height >= 1.0
            && (roundTo > 0.0 ==>
                  && IsMultiple(box.topLeft.x, roundTo) && IsMultiple(box.topLeft.y, roundTo)
                  && IsMultiple(box.bottomRight.x, roundTo) && IsMultiple(box.bottomRight.y, roundTo))
  {
    hide Lower, Upper, IsMultiple;
    var width, height := Max(Or(node.width, 0.0), 1.0), Max(Or(node.height, 0.0), 1.0);
    var position := if node.positionAbsolute.Some? then node.positionAbsolute.value else XYPosition(0.0, 0.0);
    RoundedSide(position.x - padding, position.x + width + padding, roundTo);
    RoundedSide(position.y - padding, position.y + height + padding, roundTo);
  }

  lemma RoundedClose(low: real, high: real, roundTo: real)
    requires roundTo > 0.0
    ensures low - roundTo < Lower(low, roundTo) && Upper(high, roundTo) < high + roundTo
  {
    hide RoundDown, RoundUp, IsMultiple;
    RoundDownIsMultiple(low, roundTo);
    RoundUpIsMultiple(high, roundTo);
  }

  /** The box reaches less than a cell beyond the padded node, or not at all where it is not rounded; a node
      whose size or position is not known yet counts as one of a pixel, or at the origin. */
  lemma BoxIsTight(node: CanvasNode, padding: real, roundTo: real)
    requires roundTo != 0.0
    ensures var box, slack := NodeBox(node, padding, roundTo), if roundTo > 0.0 then roundTo else 0.0;
            var position := if node.positionAbsolute.Some? then node.positionAbsolute.value else XYPosition(0.0, 0.0);
            && box.id == node.id
            && box.width == (if node.width.Some? && node.width.value > 1.0 then node.width.value else 1.0)
            && box.height == (if node.height.Some? && node.height.value > 1.0 then node.height.value else 1.0)
            && position.x - padding - slack <= box.topLeft.x
                  && box.bottomRight.x <= position.x + box.width + padding + slack
            && position.y - padding - slack <= box.topLeft.y
                  && box.bottomRight.y <= position.y + box.height + padding + slack
            && box.bottomLeft == XYPosition(box.topLeft.x, box.bottomRight.y)
            && box.topRight == XYPosition(box.bottomRight.x, box.topLeft.y)
  {
    hide Lower, Upper, IsMultiple;
    var width, height := Max(Or(node.width, 0.0), 1.0), Max(Or(node.height, 0.0), 1.0);
    var position := if node.positionAbsolute.Some? then node.positionAbsolute.value else XYPosition(0.0, 0.0);
    if roundTo > 0.0 {
      RoundedClose(position.x - padding, position.x + width + padding, roundTo);
      RoundedClose(position.y - padding, position.y + height + padding, roundTo);
    } else {
      NotRounded(position.x - padding, position.x + width + padding, roundTo);
      NotRounded(position.y - padding, position.y + height + padding, roundTo);
    }
  }

  lemma NotRounded(low: real, high: real, roundTo: real)
    requires roundTo < 0.0
    ensures Lower(low, roundTo) == low && Upper(high, roundTo) == high
  {
  }

  /** The graph's box ends less than a cell beyond twice the padding around some node's box, on every side. */
  lemma GraphBoxIsTight(boxes: seq<NodeBoundingBox>, box: GraphBoundingBox, padding: real, roundTo: real)
    requires roundTo > 0.0 && IsGraphBox(box, boxes, padding, roundTo) && boxes != []
    requires forall i :: 0 <= i < |boxes| ==>
               && MIN_SAFE_INTEGER < boxes[i].topLeft.x <= boxes[i].bottomRight.x < MAX_SAFE_INTEGER
               && MIN_SAFE_INTEGER < boxes[i].topLeft.y <= boxes[i].bottomRight.y < MAX_SAFE_INTEGER
    ensures exists i :: 0 <= i < |boxes| && boxes[i].topLeft.x - 2.0 * padding - roundTo < box.xMin
    ensures exists i :: 0 <= i < |boxes| && boxes[i].topLeft.y - 2.0 * padding - roundTo < box.yMin
    ensures exists i :: 0 <= i < |boxes| && box.xMax < boxes[i].bottomRight.x + 2.0 * padding + roundTo
    ensures exists i :: 0 <= i < |boxes| && box.yMax < boxes[i].bottomRight.y + 2.0 * padding + roundTo
    ensures forall i :: 0 <= i < |boxes| ==>
              && box.xMin <= boxes[i].topLeft.x - 2.0 * padding && boxes[i].bottomRight.x + 2.0 * padding <= box.xMax
              && box.yMin <= boxes[i].topLeft.y - 2.0 * padding && boxes[i].bottomRight.y + 2.0 * padding <= box.yMax
  {
    hide RoundDown, RoundUp, IsMultiple, Lowest, Highest;
    LowEnd(Lefts(boxes), padding, roundTo);
    LowEnd(Tops(boxes), padding, roundTo);
    HighEnd(Rights(boxes), padding, roundTo);
    HighEnd(Bottoms(boxes), padding, roundTo);
    assert forall i :: 0 <= i < |boxes| ==>
        Lefts(boxes)[i] == boxes[i].topLeft.x && Tops(boxes)[i] == boxes[i].topLeft.y;
    assert forall i :: 0 <= i < |boxes| ==>
             Rights(boxes)[i] == boxes[i].bottomRight.x && Bottoms(boxes)[i] == boxes[i].bottomRight.y;
  }

  /** Without nodes the graph's box is inside out. */
  lemma NoNodesNoBox(box: GraphBoundingBox)
    requires IsGraphBox(box, [], 0.0, 1.0)
    ensures box.xMin == box.yMin == 9007199254740991.0 && box.xMax == box.yMax == -9007199254740991.0
  {
  }

  lemma LowEnd(xs: seq<real>, padding: real, roundTo: real)
    requires roundTo > 0.0 && xs != [] && forall i :: 0 <= i < |xs| ==> xs[i] < MAX_SAFE_INTEGER
    ensures var end := RoundDown(Lowest(MAX_SAFE_INTEGER, xs) - padding * 2.0, roundTo);
            && (exists i :: 0 <= i < |xs| && xs[i] - 2.0 * padding - roundTo < end)
            && forall i :: 0 <= i < |xs| ==> end <= xs[i] - 2.0 * padding
  {
    hide RoundDown, IsMultiple;
    LowestBounds(MAX_SAFE_INTEGER, xs);
    RoundDownIsMultiple(Lowest(MAX_SAFE_INTEGER, xs) - padding * 2.0, roundTo);
    assert xs[0] < MAX_SAFE_INTEGER;
    var i :| 0 <= i < |xs| && xs[i] == Lowest(MAX_SAFE_INTEGER, xs);
  }

  lemma HighEnd(xs: seq<real>, padding: real, roundTo: real)
    requires roundTo > 0.0 && xs != [] && forall i :: 0 <= i < |xs| ==> MIN_SAFE_INTEGER < xs[i]
    ensures var end := RoundUp(Highest(MIN_SAFE_INTEGER, xs) + padding * 2.0, roundTo);
            && (exists i :: 0 <= i < |xs| && end < xs[i] + 2.0 * padding + roundTo)
            && forall i :: 0 <= i < |xs| ==> xs[i] + 2.0 * padding <= end
  {
    hide RoundUp, IsMultiple;
    HighestBounds(MIN_SAFE_INTEGER, xs);
    RoundUpIsMultiple(Highest(MIN_SAFE_INTEGER, xs) + padding * 2.0, roundTo);
    assert MIN_SAFE_INTEGER < xs[0];
    var i :| 0 <= i < |xs| && xs[i] == Highest(MIN_SAFE_INTEGER, xs);
  }

  /** Every node's box lies inside the graph's box with a margin of a cell on every side. */
  lemma EveryBoxHasMargin(nodes: seq<CanvasNode>, boxes: seq<NodeBoundingBox>, box: GraphBoundingBox, padding: real,
                          roundTo: real, i: nat)
    requires roundTo > 0.0 && padding > 0.0 && i < |nodes| == |boxes|
    requires forall j :: 0 <= j < |nodes| ==> boxes[j] == NodeBox(nodes[j], padding, roundTo)
    requires IsGraphBox(box, boxes, padding, roundTo)
    ensures HasMargin(boxes[i].topLeft.x, boxes[i].bottomRight.x, box.xMin, box.xMax, roundTo)
    ensures HasMargin(boxes[i].topLeft.y, boxes[i].bottomRight.y, box.yMin, box.yMax, roundTo)
  {
    hide RoundDown, RoundUp, IsMultiple, NodeBox, Lowest, Highest;
    BoxCoversNode(nodes[i], padding, roundTo);
    LowestBounds(MAX_SAFE_INTEGER, Lefts(boxes));
    LowestBounds(MAX_SAFE_INTEGER, Tops(boxes));
    HighestBounds(MIN_SAFE_INTEGER, Rights(boxes));
    HighestBounds(MIN_SAFE_INTEGER, Bottoms(boxes));
    assert Lefts(boxes)[i] == boxes[i].topLeft.x && Tops(boxes)[i] == boxes[i].topLeft.y;
    assert Rights(boxes)[i] == boxes[i].bottomRight.x && Bottoms(boxes)[i] == boxes[i].bottomRight.y;
    SideHasMargin(boxes[i].topLeft.x, boxes[i].bottomRight.x, Lowest(MAX_SAFE_INTEGER, Lefts(boxes)),
                  Highest(MIN_SAFE_INTEGER, Rights(boxes)), padding, roundTo);
    SideHasMargin(boxes[i].topLeft.y, boxes[i].bottomRight.y, Lowest(MAX_SAFE_INTEGER, Tops(boxes)),
                  Highest(MIN_SAFE_INTEGER, Bottoms(boxes)), padding, roundTo);
  }
}
