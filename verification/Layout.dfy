/** The placement of nodes on the canvas (Layout.Utils.ts): what a layout tree says about every
    function node. */
module Layout {
  import opened Model
  import opened Graphs
  import opened Numbers

  datatype Edge = Edge(sourceId: Key, targetId: Key)

  datatype Coord = Coord(x: real, y: real)

  datatype LayoutTree = LayoutTree(
    sources: seq<Key>,
    functions: seq<Key>,
    targets: seq<Key>,
    edges: seq<Edge>,
    useExpandedFunctionCards: bool,
    isOverview: bool)

  const SCHEMA_NODE_CARD_DEFAULT_WIDTH := 200.0
  const SCHEMA_NODE_CARD_HEIGHT := 48.0
  const EXPANDED_FUNCTION_CARD_MAX_WIDTH := 200.0
  const SIMPLE_FUNCTION_CARD_DIAMETER := 64.0
  const SCHEMA_NODE_CARD_V_GAP := 8.0
  const Y_INTERVAL := SIMPLE_FUNCTION_CARD_DIAMETER * 1.5
  const MAX_FUNCTIONS_PER_TOOLBAR_ROW := 4
  const FUNCTION_TOOLBAR_START_Y := -1.0 * SIMPLE_FUNCTION_CARD_DIAMETER * 2.0
  const NODE_COLLISION_Y_THRESHOLD := SIMPLE_FUNCTION_CARD_DIAMETER * 1.2

  function CardWidth(t: LayoutTree): real {
    if t.useExpandedFunctionCards then EXPANDED_FUNCTION_CARD_MAX_WIDTH else SIMPLE_FUNCTION_CARD_DIAMETER
  }

  function XInterval(t: LayoutTree): real {
    CardWidth(t) * 1.5
  }

  function CollisionXThreshold(t: LayoutTree): real {
    CardWidth(t) * 1.25
  }

  function FnStartX(t: LayoutTree): real {
    SCHEMA_NODE_CARD_DEFAULT_WIDTH * 1.5 + if t.isOverview then XInterval(t) else 0.0
  }

  function SchemaNodeYPos(index: nat): real {
    index as real * (SCHEMA_NODE_CARD_HEIGHT + if index == 0 then 0.0 else SCHEMA_NODE_CARD_V_GAP)
  }

  predicate Collide(t: LayoutTree, a: Coord, b: Coord) {
    Abs(a.y - b.y) < NODE_COLLISION_Y_THRESHOLD && Abs(a.x - b.x) < CollisionXThreshold(t)
  }

  // ----- the edges of a function node

  predicate IsInput(t: LayoutTree, e: Edge, f: Key) {
    e.sourceId != f && e.targetId == f && (e.sourceId in t.sources || e.sourceId in t.functions)
  }

  /** The nodes on the canvas that feed f, one for every edge. */
  function InputIds(t: LayoutTree, edges: seq<Edge>, f: Key): seq<Key> {
    if edges == [] then []
    else
      var last := edges[|edges| - 1];
      InputIds(t, edges[..|edges| - 1], f) + if IsInput(t, last, f) then [last.sourceId] else []
  }

  /** The edges that leave f. */
  function OutputEdges(edges: seq<Edge>, f: Key): seq<Edge> {
    if edges == [] then []
    else
      var last := edges[|edges| - 1];
      OutputEdges(edges[..|edges| - 1], f) + if last.sourceId == f then [last] else []
  }

  function OnlyToTargets(outputs: seq<Edge>): bool {
    forall i :: 0 <= i < |outputs| ==> outputs[i].targetId.TargetKey?
  }

  predicate IsUnconnected(t: LayoutTree, f: Key) {
    InputIds(t, t.edges, f) == [] && OutputEdges(t.edges, f) == []
  }

  /** These wait for the target schema to be placed. */
  predicate WaitsForTargets(t: LayoutTree, f: Key) {
    && InputIds(t, t.edges, f) == []
    && OutputEdges(t.edges, f) != [] && OnlyToTargets(OutputEdges(t.edges, f))
  }

  function InputGraph(t: LayoutTree): Graph<Key> {
    map f | f in t.functions :: InputIds(t, t.edges, f)
  }

  ghost predicate IsLayoutTree(t: LayoutTree) {
    && (forall i :: 0 <= i < |t.sources| ==> t.sources[i].SourceKey?)
    && (forall i :: 0 <= i < |t.functions| ==> t.functions[i].FunctionKey?)
    && (forall i :: 0 <= i < |t.targets| ==> t.targets[i].TargetKey?)
    && NoDuplicates(t.sources) && NoDuplicates(t.functions) && NoDuplicates(t.targets)
    && Acyclic(InputGraph(t))
  }

  lemma {:induction false} InputHasOutput(t: LayoutTree, edges: seq<Edge>, f: Key, i: nat)
    requires i < |InputIds(t, edges, f)|
    ensures var k := InputIds(t, edges, f)[i];
            && k != f && (k in t.sources || k in t.functions)
            && exists j :: 0 <= j < |OutputEdges(edges, k)| && OutputEdges(edges, k)[j].targetId == f
  {
    var last := edges[|edges| - 1];
    var front := edges[..|edges| - 1];
    var k := InputIds(t, edges, f)[i];
    if i < |InputIds(t, front, f)| {
      InputHasOutput(t, front, f, i);
      var j :| 0 <= j < |OutputEdges(front, k)| && OutputEdges(front, k)[j].targetId == f;
      assert OutputEdges(edges, k)[j].targetId == f;
    } else {
      assert OutputEdges(edges, k)[|OutputEdges(front, k)|] == last;
    }
  }

  /** An input of a function node is never left for the toolbar or for the target schema. */
  lemma InputIsPlaceable(t: LayoutTree, f: Key, i: nat)
    requires IsLayoutTree(t) && f in t.functions && i < |InputIds(t, t.edges, f)|
    ensures var k := InputIds(t, t.edges, f)[i];
            && k != f && (k in t.sources || k in t.functions)
            && k in Successors(InputGraph(t), f)
            && !IsUnconnected(t, k) && !WaitsForTargets(t, k)
  {
    InputHasOutput(t, t.edges, f, i);
  }

  // ----- the horizontal position

  /** How far right of the function area's start a node lies; source nodes count as 0. */
  function Offset(t: LayoutTree, k: Key): (r: real)
    requires IsLayoutTree(t)
    ensures r >= 0.0
    decreases ReachSet(InputGraph(t), k), |Successors(InputGraph(t), k)| + 1
  {
    if k !in t.functions then 0.0
    else if InputIds(t, t.edges, k) == [] then FnStartX(t)
    else MaxOffset(t, k, |InputIds(t, t.edges, k)|) + XInterval(t)
  }

  /** The largest offset among the first n inputs. */
  function MaxOffset(t: LayoutTree, k: Key, n: nat): (r: real)
    requires IsLayoutTree(t) && k in t.functions && n <= |InputIds(t, t.edges, k)|
    ensures r >= 0.0
    decreases ReachSet(InputGraph(t), k), n
  {
    if n == 0 then 0.0
    else
      ReachSetShrinks(InputGraph(t), k);
      Max(MaxOffset(t, k, n - 1), Offset(t, InputIds(t, t.edges, k)[n - 1]))
  }

  // ----- the toolbar

  function UnconnectedAmong(t: LayoutTree, keys: seq<Key>): nat {
    if keys == [] then 0
    else UnconnectedAmong(t, keys[..|keys| - 1]) + if IsUnconnected(t, keys[|keys| - 1]) then 1 else 0
  }

  /** Column and row of the n-th slot. */
  function ToolbarSpot(n: nat): (nat, nat) {
    (n % MAX_FUNCTIONS_PER_TOOLBAR_ROW, n / MAX_FUNCTIONS_PER_TOOLBAR_ROW)
  }

  function ToolbarCoord(t: LayoutTree, n: nat): Coord {
    Coord(FnStartX(t) + ToolbarSpot(n).0 as real * XInterval(t),
        FUNCTION_TOOLBAR_START_Y - ToolbarSpot(n).1 as real * Y_INTERVAL)
  }

  lemma RowsApart(a: nat, b: nat)
    requires a < b
    ensures b as real * Y_INTERVAL - a as real * Y_INTERVAL >= Y_INTERVAL
  {
    assert b as real - a as real >= 1.0;
  }

  lemma SlotsApart(t: LayoutTree, m: nat, n: nat)
    requires m < n
    ensures !Collide(t, ToolbarCoord(t, m), ToolbarCoord(t, n)) && !Collide(t, ToolbarCoord(t, n), ToolbarCoord(t, m))
  {
    var (a, b) := ToolbarSpot(m);
    var (c, d) := ToolbarSpot(n);
    assert m == b * 4 + a && n == d * 4 + c;
    if b == d {
      assert a < c <= 3;
    } else {
      RowsApart(b, d);
    }
  }

  lemma NextToolbarSpot(n: nat)
    ensures var (column, row) := ToolbarSpot(n);
            ToolbarSpot(n + 1) == if column == MAX_FUNCTIONS_PER_TOOLBAR_ROW - 1 then (0, row + 1)
                else (column + 1, row)
  {
  }

  lemma {:induction false} CountGrows(t: LayoutTree, i: nat, j: nat)
    requires i < j <= |t.functions|
    ensures UnconnectedAmong(t, t.functions[..i]) <= UnconnectedAmong(t, t.functions[..j])
    ensures IsUnconnected(t, t.functions[i]) ==>
            UnconnectedAmong(t, t.functions[..i]) < UnconnectedAmong(t, t.functions[..j])
  {
    assert t.functions[..j][..j - 1] == t.functions[..j - 1];
    if i < j - 1 {
      CountGrows(t, i, j - 1);
    }
  }

  // ----- layering

  lemma {:induction false} MaxOffsetBounds(t: LayoutTree, k: Key, n: nat, i: nat)
    requires IsLayoutTree(t) && k in t.functions && i < n <= |InputIds(t, t.edges, k)|
    ensures Offset(t, InputIds(t, t.edges, k)[i]) <= MaxOffset(t, k, n)
    decreases n
  {
    hide Offset, InputIds, IsLayoutTree;
    if i < n - 1 {
      MaxOffsetBounds(t, k, n - 1, i);
    }
  }

  lemma {:induction false} MaxOffsetIsAttained(t: LayoutTree, k: Key, n: nat) returns (i: nat)
    requires IsLayoutTree(t) && k in t.functions && 0 < n <= |InputIds(t, t.edges, k)|
    ensures i < n && Offset(t, InputIds(t, t.edges, k)[i]) == MaxOffset(t, k, n)
    decreases n
  {
    i := n - 1;
    if n > 1 {
      var j := MaxOffsetIsAttained(t, k, n - 1);
      if Offset(t, InputIds(t, t.edges, k)[n - 1]) <= MaxOffset(t, k, n - 1) {
        i := j;
      }
    }
  }

  /** Every function node lies at least one interval to the right of each of its inputs. */
  lemma RightOfEveryInput(t: LayoutTree, f: Key, input: Key)
    requires IsLayoutTree(t) && f in t.functions && input in InputIds(t, t.edges, f)
    ensures Offset(t, f) >= Offset(t, input) + XInterval(t)
  {
    var i :| 0 <= i < |InputIds(t, t.edges, f)| && InputIds(t, t.edges, f)[i] == input;
    MaxOffsetBounds(t, f, |InputIds(t, t.edges, f)|, i);
  }

  /** What the last node of a chain adds: a function without inputs starts further right. */
  function ChainEnd(t: LayoutTree, k: Key): real {
    if k in t.functions && InputIds(t, t.edges, k) == [] then FnStartX(t) else 0.0
  }

  function ChainWidth(t: LayoutTree, chain: seq<Key>): real
    requires chain != []
  {
    if |chain| == 1 then ChainEnd(t, chain[0]) else ChainWidth(t, chain[1..]) + XInterval(t)
  }

  lemma {:induction false} NoChainIsWider(t: LayoutTree, chain: seq<Key>)
    requires IsLayoutTree(t) && IsWalk(InputGraph(t), chain)
    ensures ChainWidth(t, chain) <= Offset(t, chain[0])
    decreases |chain|
  {
    if |chain| > 1 {
      var rest := chain[1..];
      assert chain[1] in Successors(InputGraph(t), chain[0]);
      assert IsWalk(InputGraph(t), rest) by {
        forall i | 0 <= i < |rest| - 1 ensures rest[i + 1] in Successors(InputGraph(t), rest[i]) {
          assert chain[i + 2] in Successors(InputGraph(t), chain[i + 1]);
        }
      }
      NoChainIsWider(t, rest);
      RightOfEveryInput(t, chain[0], chain[1]);
    }
  }

  lemma {:induction false} SomeChainIsAsWide(t: LayoutTree, k: Key) returns (chain: seq<Key>)
    requires IsLayoutTree(t)
    ensures IsWalk(InputGraph(t), chain) && chain[0] == k && ChainWidth(t, chain) == Offset(t, k)
    decreases ReachSet(InputGraph(t), k)
  {
    chain := [k];
    if k in t.functions && InputIds(t, t.edges, k) != [] {
      var inputs := InputIds(t, t.edges, k);
      var i := MaxOffsetIsAttained(t, k, |inputs|);
      assert inputs[i] in Successors(InputGraph(t), k);
      ReachSetShrinks(InputGraph(t), k);
      var rest := SomeChainIsAsWide(t, inputs[i]);
      chain := [k] + rest;
      assert chain[1..] == rest;
      PrependWalk(InputGraph(t), k, rest);
    }
  }

  lemma PrependWalk(g: Graph<Key>, k: Key, rest: seq<Key>)
    requires IsWalk(g, rest) && rest[0] in Successors(g, k)
    ensures IsWalk(g, [k] + rest)
  {
    var chain := [k] + rest;
    forall i | 0 <= i < |chain| - 1 ensures chain[i + 1] in Successors(g, chain[i]) {
      if i > 0 { assert chain[i] == rest[i - 1] && chain[i + 1] == rest[i]; }
    }
  }

  /** A node's offset is the width of its widest input chain, whatever order nodes are visited in. */
  lemma OffsetIsWidestChain(t: LayoutTree, k: Key)
    requires IsLayoutTree(t)
    ensures forall chain :: IsWalk(InputGraph(t), chain) && chain[0] == k ==> ChainWidth(t, chain) <= Offset(t, k)
    ensures exists chain :: IsWalk(InputGraph(t), chain) && chain[0] == k && ChainWidth(t, chain) == Offset(t, k)
  {
    forall chain | IsWalk(InputGraph(t), chain) && chain[0] == k ensures ChainWidth(t, chain) <= Offset(t, k) {
      NoChainIsWider(t, chain);
    }
    var chain := SomeChainIsAsWide(t, k);
  }

  // ----- the search for a free spot

  /** The n-th spot tried: the wanted one, then one interval below, one above, two below, and so on;
      never above the top. */
  function Spot(y: real, n: nat): real {
    if n == 0 then y
    else if n % 2 == 1 then Max(y + ((n + 1) / 2) as real * Y_INTERVAL, 0.0)
    else Max(y - (n / 2) as real * Y_INTERVAL, 0.0)
  }

  /** The multiple of the interval that is tried after n tries. */
  function NextSpot(n: nat): int {
    if n % 2 == 0 then n / 2 + 1 else -((n + 1) / 2)
  }

  /** The spots at and below the wanted one. */
  function DownwardSpot(y: real, n: nat): real {
    y + n as real * Y_INTERVAL
  }

  lemma DownwardIsTried(y: real, n: nat)
    requires y >= 0.0
    ensures DownwardSpot(y, n) == Spot(y, if n == 0 then 0 else 2 * n - 1)
  {
    if n > 0 {
      assert (2 * n - 1 + 1) / 2 == n;
      assert n as real * Y_INTERVAL >= 0.0;
    }
  }

  predicate Blocks(position: map<Key, Coord>, k: Key, y: real) {
    k in position && Abs(position[k].y - y) < NODE_COLLISION_Y_THRESHOLD
  }

  ghost predicate IsBlocked(position: map<Key, Coord>, blockers: set<Key>, y: real, i: nat) {
    exists k :: k in blockers && Blocks(position, k, DownwardSpot(y, i))
  }

  ghost predicate AllBlocked(position: map<Key, Coord>, blockers: set<Key>, y: real, n: nat) {
    forall i :: 0 <= i < n ==> IsBlocked(position, blockers, y, i)
  }

  lemma BlocksAtMostTwo(position: map<Key, Coord>, k: Key, y: real, m: nat, n: nat)
    requires Blocks(position, k, DownwardSpot(y, n)) && m + 2 <= n
    ensures !Blocks(position, k, DownwardSpot(y, m))
  {
    assert n as real - m as real >= 2.0;
  }

  /** Each node blocks at most two of the downward spots. */
  lemma {:induction false} TwoSpotsPerBlocker(position: map<Key, Coord>, blockers: set<Key>, y: real, n: nat)
    requires AllBlocked(position, blockers, y, n)
    ensures n <= 2 * |blockers|
    decreases n
  {
    if n > 0 {
      assert IsBlocked(position, blockers, y, n - 1);
      var k :| k in blockers && Blocks(position, k, DownwardSpot(y, n - 1));
      var rest := blockers - {k};
      assert |rest| == |blockers| - 1;
      if n > 2 {
        forall i | 0 <= i < n - 2 ensures IsBlocked(position, rest, y, i) {
          BlocksAtMostTwo(position, k, y, i, n - 1);
          assert IsBlocked(position, blockers, y, i);
          var l :| l in blockers && Blocks(position, l, DownwardSpot(y, i));
          assert l in rest;
        }
        TwoSpotsPerBlocker(position, rest, y, n - 2);
      }
    }
  }
}
