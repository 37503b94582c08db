/** applyCustomLayout (Layout.Utils.ts) as it places the nodes one after the other. */
module LayoutPlacement {
  import opened Model
  import opened Graphs
  import opened Numbers
  import opened Layout

  ghost function IndexIn(keys: seq<Key>, f: Key): (i: nat)
    requires f in keys
    ensures i < |keys| && keys[i] == f
  {
    var i :| 0 <= i < |keys| && keys[i] == f; i
  }

  /** The slot an unconnected node gets: the number of unconnected nodes listed before it. */
  ghost function SlotOf(t: LayoutTree, f: Key): nat
    requires f in t.functions
  {
    UnconnectedAmong(t, t.functions[..IndexIn(t.functions, f)])
  }

  ghost predicate IsPlacedAt(t: LayoutTree, f: Key, c: Coord)
    requires IsLayoutTree(t) && f in t.functions
  {
    if IsUnconnected(t, f) then c == ToolbarCoord(t, SlotOf(t, f))
    else c.x == FnStartX(t) + Offset(t, f) && c.y >= 0.0
  }

  ghost predicate CollisionFree(t: LayoutTree, position: map<Key, Coord>) {
    forall f, g :: f in position && g in position && f != g ==> !Collide(t, position[f], position[g])
  }

  /** Every node placed so far is where it belongs, and no two of them collide. */
  ghost predicate WellPlaced(t: LayoutTree, position: map<Key, Coord>)
    requires IsLayoutTree(t)
  {
    && (forall f :: f in position ==> f in t.functions && !WaitsForTargets(t, f) && IsPlacedAt(t, f, position[f]))
    && CollisionFree(t, position)
  }

  predicate HasCollision(t: LayoutTree, position: map<Key, Coord>, f: Key, c: Coord) {
    exists g :: g in position && g != f && Collide(t, position[g], c)
  }

  /** The n-th spot is free and none before it is. */
  ghost predicate IsFirstFree(t: LayoutTree, position: map<Key, Coord>, f: Key, x: real, y: real, n: nat) {
    && !HasCollision(t, position, f, Coord(x, Spot(y, n)))
    && forall i :: 0 <= i < n ==> HasCollision(t, position, f, Coord(x, Spot(y, i)))
  }

  ghost predicate Farthest(t: LayoutTree, position: map<Key, Coord>, r: real) {
    && r >= FnStartX(t) && (forall f :: f in position ==> position[f].x <= r)
    && (r == FnStartX(t) || exists f :: f in position && position[f].x == r)
  }

  lemma DistinctSlots(t: LayoutTree, f: Key, g: Key)
    requires f in t.functions && g in t.functions && f != g && IsUnconnected(t, f) && IsUnconnected(t, g)
    ensures SlotOf(t, f) != SlotOf(t, g)
  {
    var i, j := IndexIn(t.functions, f), IndexIn(t.functions, g);
    if i < j { CountGrows(t, i, j); } else { CountGrows(t, j, i); }
  }

  lemma ToolbarStaysFree(t: LayoutTree, position: map<Key, Coord>, f: Key)
    requires IsLayoutTree(t) && WellPlaced(t, position) && f in t.functions && IsUnconnected(t, f)
    ensures WellPlaced(t, position[f := ToolbarCoord(t, SlotOf(t, f))])
  {
    hide IsUnconnected, IsLayoutTree, SlotOf, WaitsForTargets;
    var c := ToolbarCoord(t, SlotOf(t, f));
    forall g | g in position && g != f ensures !Collide(t, position[g], c) && !Collide(t, c, position[g]) {
      ToolbarApart(t, position, f, g);
    }
    assert !WaitsForTargets(t, f) by { UnconnectedDoesNotWait(t, f); }
  }

  lemma UnconnectedDoesNotWait(t: LayoutTree, f: Key)
    requires IsUnconnected(t, f)
    ensures !WaitsForTargets(t, f)
  {
  }

  lemma ToolbarApart(t: LayoutTree, position: map<Key, Coord>, f: Key, g: Key)
    requires IsLayoutTree(t) && WellPlaced(t, position) && f in t.functions && IsUnconnected(t, f) && g in position
             && g != f
    ensures var c := ToolbarCoord(t, SlotOf(t, f));
            !Collide(t, position[g], c) && !Collide(t, c, position[g])
  {
    hide IsUnconnected, IsLayoutTree, SlotOf, WaitsForTargets, CollisionFree;
    if IsUnconnected(t, g) {
      DistinctSlots(t, f, g);
      if SlotOf(t, f) < SlotOf(t, g) {
        SlotsApart(t, SlotOf(t, f), SlotOf(t, g));
      } else {
        SlotsApart(t, SlotOf(t, g), SlotOf(t, f));
      }
    } else {
      assert ToolbarSpot(SlotOf(t, f)).1 as real * Y_INTERVAL >= 0.0;
    }
  }

  lemma FreeSpotStaysFree(t: LayoutTree, position: map<Key, Coord>, f: Key, c: Coord)
    requires IsLayoutTree(t) && WellPlaced(t, position) && f in t.functions && !WaitsForTargets(t, f)
    requires IsPlacedAt(t, f, c) && !HasCollision(t, position, f, c)
    ensures WellPlaced(t, position[f := c])
  {
    hide IsUnconnected, IsLayoutTree, WaitsForTargets, IsPlacedAt;
    forall g | g in position && g != f ensures !Collide(t, position[g], c) && !Collide(t, c, position[g]) {
    }
  }

  /** Placing a node again does not move it sideways. */
  lemma FarthestAfter(t: LayoutTree, position: map<Key, Coord>, r: real, f: Key, c: Coord)
    requires IsLayoutTree(t) && WellPlaced(t, position) && Farthest(t, position, r)
    requires f in t.functions && IsPlacedAt(t, f, c)
    ensures Farthest(t, position[f := c], if c.x > r then c.x else r)
    ensures f in position ==> position[f].x == c.x
  {
    hide IsLayoutTree, IsUnconnected, WaitsForTargets, CollisionFree, SlotOf, ToolbarCoord;
    if f in position {
      assert IsPlacedAt(t, f, position[f]);
    }
    if g :| g in position && position[g].x == r {
      assert position[f := c][g].x == r;
    }
    assert position[f := c][f].x == c.x;
    XIsRight(t, f, c);
  }

  lemma XIsRight(t: LayoutTree, f: Key, c: Coord)
    requires IsLayoutTree(t) && f in t.functions && IsPlacedAt(t, f, c)
    ensures c.x >= FnStartX(t) > 0.0
  {
    hide IsLayoutTree, IsUnconnected;
    if IsUnconnected(t, f) {
      assert ToolbarSpot(SlotOf(t, f)).0 as real * XInterval(t) >= 0.0;
    }
  }

  // ----- the search

  lemma TriesAreBounded(t: LayoutTree, position: map<Key, Coord>, f: Key, x: real, y: real, n: nat)
    requires y >= 0.0
    requires forall i :: 0 <= i <= n ==> HasCollision(t, position, f, Coord(x, Spot(y, i)))
    ensures n + 2 <= 4 * |position.Keys - {f}|
  {
    hide Spot, DownwardSpot;
    var blockers := position.Keys - {f};
    var spots := (n + 1) / 2 + 1;
    forall i | 0 <= i < spots ensures IsBlocked(position, blockers, y, i) {
      var tried := if i == 0 then 0 else 2 * i - 1;
      DownwardIsTried(y, i);
      assert HasCollision(t, position, f, Coord(x, Spot(y, tried)));
      var g :| g in position && g != f && Collide(t, position[g], Coord(x, Spot(y, tried)));
      assert g in blockers && Blocks(position, g, DownwardSpot(y, i));
    }
    TwoSpotsPerBlocker(position, blockers, y, spots);
  }

  /** Moves a wanted spot until it collides with no other node, in at most four tries for each of them. */
  method FindFreeSpot(t: LayoutTree, position: map<Key, Coord>, f: Key, x: real, y: real) returns (spot: real,
                      ghost tries: nat)
    requires y >= 0.0
    ensures spot == Spot(y, tries) && spot >= 0.0 && IsFirstFree(t, position, f, x, y, tries)
    ensures tries == 0 || tries < 4 * |position.Keys - {f}|
  {
    hide HasCollision, Spot, NextSpot, Collide;
    var nextYSpot := 1;
    spot := y;
    tries := 0;
    FirstSpot(y);
    while HasCollision(t, position, f, Coord(x, spot))
      invariant spot == Spot(y, tries) && spot >= 0.0 && nextYSpot == NextSpot(tries)
      invariant forall i :: 0 <= i < tries ==> HasCollision(t, position, f, Coord(x, Spot(y, i)))
      invariant tries == 0 || tries < 4 * |position.Keys - {f}|
      decreases 4 * |position.Keys - {f}| - tries
    {
      TriesAreBounded(t, position, f, x, y, tries);
      NextSpotIsTried(y, tries);
      SpotIsNonNegative(y, tries + 1);
      spot := Max(y + nextYSpot as real * Y_INTERVAL, 0.0);
      nextYSpot := if nextYSpot < 0 then nextYSpot * -1 + 1 else nextYSpot * -1;
      tries := tries + 1;
    }
  }

  lemma FirstSpot(y: real)
    ensures Spot(y, 0) == y && NextSpot(0) == 1
  {
  }

  lemma SpotIsNonNegative(y: real, n: nat)
    requires y >= 0.0
    ensures Spot(y, n) >= 0.0
  {
  }

  lemma NextSpotIsTried(y: real, n: nat)
    ensures Max(y + NextSpot(n) as real * Y_INTERVAL, 0.0) == Spot(y, n + 1)
    ensures NextSpot(n + 1) == if NextSpot(n) < 0 then NextSpot(n) * -1 + 1 else NextSpot(n) * -1
  {
    if n % 2 == 0 {
      assert (n + 1 + 1) / 2 == n / 2 + 1;
    } else {
      assert NextSpot(n) == -((n + 1) / 2);
      assert NextSpot(n) as real == -(((n + 1) / 2) as real);
    }
  }

  // ----- the wanted position

  function Sum(ys: seq<real>): real {
    if ys == [] then 0.0 else Sum(ys[..|ys| - 1]) + ys[|ys| - 1]
  }

  function Average(ys: seq<real>): real
    requires ys != []
  {
    Sum(ys) / |ys| as real
  }

  lemma {:induction false} SumIsNonNegative(ys: seq<real>)
    requires forall i :: 0 <= i < |ys| ==> ys[i] >= 0.0
    ensures Sum(ys) >= 0.0
  {
    if ys != [] {
      SumIsNonNegative(ys[..|ys| - 1]);
    }
  }

  lemma AverageIsNonNegative(ys: seq<real>)
    requires ys != [] && forall i :: 0 <= i < |ys| ==> ys[i] >= 0.0
    ensures Average(ys) >= 0.0
  {
    SumIsNonNegative(ys);
    QuotientIsNonNegative(Sum(ys), |ys| as real);
  }

  lemma QuotientIsNonNegative(a: real, b: real)
    requires a >= 0.0 && b > 0.0
    ensures a / b >= 0.0
  {
    var q := a / b;
    assert q * b == a;
    if q < 0.0 {
      NegativeProduct(q, b);
    }
  }

  lemma NegativeProduct(a: real, b: real)
    requires a < 0.0 && b > 0.0
    ensures a * b < 0.0
  {
  }

  function Ys(inputs: seq<Coord>): (ys: seq<real>)
    ensures |ys| == |inputs| && forall i :: 0 <= i < |ys| ==> ys[i] == inputs[i].y
  {
    seq(|inputs|, i requires 0 <= i < |inputs| => inputs[i].y)
  }

  function Rightmost(inputs: seq<Coord>): (r: real)
    ensures r >= 0.0
  {
    if inputs == [] then 0.0 else Max(Rightmost(inputs[..|inputs| - 1]), inputs[|inputs| - 1].x)
  }

  /** Right of the rightmost input, and level with the middle of all inputs. */
  method BesideInputs(inputs: seq<Coord>) returns (x: real, y: real)
    requires inputs != [] && forall i :: 0 <= i < |inputs| ==> inputs[i].x >= 0.0
    ensures x == Rightmost(inputs) && y == Average(Ys(inputs))
  {
    if |inputs| == 1 {
      x, y := inputs[0].x, inputs[0].y;
      assert Sum(Ys(inputs)) == y by { assert Ys(inputs)[..0] == []; }
      assert y / 1.0 == y;
      return;
    }
    var closestInputX := 0.0;
    for i := 0 to |inputs|
      invariant closestInputX == Rightmost(inputs[..i])
    {
      assert inputs[..i + 1][..i] == inputs[..i];
      if inputs[i].x > closestInputX {
        closestInputX := inputs[i].x;
      }
    }
    assert inputs[..|inputs|] == inputs;
    var total := 0.0;
    for i := 0 to |inputs|
      invariant total == Sum(Ys(inputs)[..i])
    {
      assert Ys(inputs)[..i + 1][..i] == Ys(inputs)[..i];
      total := total + inputs[i].y;
    }
    assert Ys(inputs)[..|inputs|] == Ys(inputs);
    x, y := closestInputX, total / |inputs| as real;
  }

  lemma {:induction false} RightmostIsMaxOffset(t: LayoutTree, f: Key, inputs: seq<Coord>, n: nat)
    requires IsLayoutTree(t) && f in t.functions && n <= |inputs| == |InputIds(t, t.edges, f)|
    requires forall i :: 0 <= i < |inputs| ==> inputs[i].x == Offset(t, InputIds(t, t.edges, f)[i])
    ensures Rightmost(inputs[..n]) == MaxOffset(t, f, n)
    decreases n
  {
    hide IsLayoutTree;
    if n > 0 {
      RightmostIsMaxOffset(t, f, inputs, n - 1);
      assert inputs[..n][..n - 1] == inputs[..n - 1];
    }
  }

  // ----- schema nodes, and what is known of a function node's inputs

  /** Where a node without inputs that feeds another function wants to be. */
  function CentralY(t: LayoutTree): real {
    if |t.sources| > 2 then SchemaNodeYPos(|t.sources| / 2) else Y_INTERVAL * 2.0
  }

  ghost predicate SchemaPlaced(keys: seq<Key>, position: map<Key, Coord>, x: real) {
    && (forall i :: 0 <= i < |keys| ==> keys[i] in position && position[keys[i]] == Coord(x, SchemaNodeYPos(i)))
    && (forall k :: k in position ==> k in keys)
  }

  /** Schema nodes are stacked from the top in the order they are listed. */
  method PlaceSchemaNodes(keys: seq<Key>, x: real) returns (position: map<Key, Coord>)
    requires NoDuplicates(keys)
    ensures SchemaPlaced(keys, position, x)
  {
    position := map[];
    for i := 0 to |keys|
      invariant SchemaPlaced(keys[..i], position, x)
    {
      position := position[keys[i] := Coord(x, SchemaNodeYPos(i))];
    }
    assert keys[..|keys|] == keys;
  }

  lemma SchemaYIsNonNegative(i: nat)
    ensures SchemaNodeYPos(i) >= 0.0
  {
  }

  /** The positions known so far: source schema nodes, and function nodes. */
  datatype Placed = Placed(schemas: map<Key, Coord>, functions: map<Key, Coord>) {
    predicate Has(k: Key) {
      k in schemas || k in functions
    }

    function At(k: Key): Coord
      requires Has(k)
    {
      if k in schemas then schemas[k] else functions[k]
    }

    ghost predicate HasAll(keys: seq<Key>) {
      forall i :: 0 <= i < |keys| ==> Has(keys[i])
    }
  }

  /** An input as seen from the start of the function area. */
  function InputCoord(t: LayoutTree, p: Placed, k: Key): Coord
    requires p.Has(k)
  {
    var c := p.At(k);
    Coord(if c.x == 0.0 then 0.0 else c.x - FnStartX(t), c.y)
  }

  function InputCoords(t: LayoutTree, p: Placed, keys: seq<Key>): (coords: seq<Coord>)
    requires p.HasAll(keys)
    ensures |coords| == |keys| && forall i :: 0 <= i < |keys| ==> coords[i] == InputCoord(t, p, keys[i])
  {
    seq(|keys|, i requires 0 <= i < |keys| => InputCoord(t, p, keys[i]))
  }

  /** Where a node wants to be, once its inputs are placed. */
  function WantedY(t: LayoutTree, p: Placed, f: Key): real
    requires p.HasAll(InputIds(t, t.edges, f))
  {
    var inputs := InputCoords(t, p, InputIds(t, t.edges, f));
    if inputs == [] then CentralY(t) else Average(Ys(inputs))
  }

  /** The node is at the first spot around its wanted height that is free among the others. */
  ghost predicate AtFirstFree(t: LayoutTree, p: Placed, f: Key)
    requires f in p.functions
  {
    && p.HasAll(InputIds(t, t.edges, f))
    && exists n: nat ::
         && IsFirstFree(t, p.functions, f, p.functions[f].x, WantedY(t, p, f), n)
         && p.functions[f].y == Spot(WantedY(t, p, f), n)
  }

  /** So it stays however many nodes are placed later. */
  ghost predicate AllAtFirstFree(t: LayoutTree, p: Placed) {
    forall f :: f in p.functions && !IsUnconnected(t, f) ==> AtFirstFree(t, p, f)
  }

  ghost predicate AllSound(t: LayoutTree, p: Placed) {
    && IsLayoutTree(t) && SchemaPlaced(t.sources, p.schemas, 0.0) && WellPlaced(t, p.functions)
    && AllAtFirstFree(t, p)
  }

  lemma PlacedInput(t: LayoutTree, p: Placed, f: Key, i: nat)
    requires AllSound(t, p) && f in t.functions && i < |InputIds(t, t.edges, f)|
    requires p.Has(InputIds(t, t.edges, f)[i])
    ensures var k := InputIds(t, t.edges, f)[i];
            InputCoord(t, p, k).x == Offset(t, k) && InputCoord(t, p, k).y >= 0.0
  {
    var k := InputIds(t, t.edges, f)[i];
    InputIsPlaceable(t, f, i);
    if k in p.schemas {
      var j :| 0 <= j < |t.sources| && t.sources[j] == k;
      SchemaYIsNonNegative(j);
    } else {
      XIsRight(t, k, p.functions[k]);
    }
  }

  lemma WantedPosition(t: LayoutTree, p: Placed, f: Key)
    requires AllSound(t, p) && f in t.functions && p.HasAll(InputIds(t, t.edges, f))
    ensures WantedY(t, p, f) >= 0.0
    ensures var inputs := InputCoords(t, p, InputIds(t, t.edges, f));
            && (forall i :: 0 <= i < |inputs| ==> inputs[i].x >= 0.0)
            && (inputs != [] ==> Offset(t, f) == Rightmost(inputs) + XInterval(t))
  {
    hide AllSound, IsLayoutTree;
    SoundIsLayoutTree(t, p);
    var inputs := InputCoords(t, p, InputIds(t, t.edges, f));
    forall i | 0 <= i < |inputs| ensures inputs[i].x == Offset(t, InputIds(t, t.edges, f)[i]) && inputs[i].y >= 0.0 {
      PlacedInput(t, p, f, i);
    }
    if inputs == [] {
      SchemaYIsNonNegative(|t.sources| / 2);
    } else {
      AverageIsNonNegative(Ys(inputs));
      RightmostIsMaxOffset(t, f, inputs, |inputs|);
      assert inputs[..|inputs|] == inputs;
    }
  }

  lemma SoundIsLayoutTree(t: LayoutTree, p: Placed)
    requires AllSound(t, p)
    ensures IsLayoutTree(t)
  {
  }

  // ----- the edges gone through so far

  lemma {:induction false} PrefixInputIsInput(t: LayoutTree, i: nat, f: Key)
    requires i < |t.edges| && IsInput(t, t.edges[i], f)
    ensures t.edges[i].sourceId in InputIds(t, t.edges, f)
  {
    PrefixInputs(t, i + 1, |t.edges|, f);
    assert t.edges[..i + 1][..i] == t.edges[..i] && t.edges[..|t.edges|] == t.edges;
    assert InputIds(t, t.edges[..i + 1], f) == InputIds(t, t.edges[..i], f) + [t.edges[i].sourceId];
  }

  lemma {:induction false} PrefixInputs(t: LayoutTree, i: nat, j: nat, f: Key)
    requires i <= j <= |t.edges|
    ensures forall k :: k in InputIds(t, t.edges[..i], f) ==> k in InputIds(t, t.edges[..j], f)
    decreases j
  {
    if i < j {
      PrefixInputs(t, i, j - 1, f);
      assert t.edges[..j][..j - 1] == t.edges[..j - 1];
    }
  }

  /** One more edge. */
  lemma PrefixStep(t: LayoutTree, i: nat, f: Key)
    requires i < |t.edges|
    ensures var e := t.edges[i];
            && InputIds(t, t.edges[..i + 1], f)
                  == InputIds(t, t.edges[..i], f) + (if IsInput(t, e, f) then [e.sourceId] else [])
            && OutputEdges(t.edges[..i + 1], f) ==
               if e.sourceId == f then OutputEdges(t.edges[..i], f) + [e] else OutputEdges(t.edges[..i], f)
  {
    assert t.edges[..i + 1][..i] == t.edges[..i];
  }

  // ----- the layout as it is carried out

  ghost predicate Keeps(before: map<Key, Coord>, after: map<Key, Coord>) {
    forall g :: g in before ==> g in after && after[g] == before[g]
  }

  /** The outcome of placing f among the others. */
  ghost predicate PlacesWell(t: LayoutTree, p: Placed, f: Key) {
    && p.HasAll(InputIds(t, t.edges, f))
    && (f in p.functions <==> !WaitsForTargets(t, f))
    && (f in p.functions && !IsUnconnected(t, f) ==>
         exists n: nat :: IsFirstFree(t, p.functions, f, p.functions[f].x, WantedY(t, p, f), n)
                          && p.functions[f].y == Spot(WantedY(t, p, f), n)
                          && (n == 0 || n < 4 * |p.functions.Keys - {f}|))
  }

  lemma KeptCoords(t: LayoutTree, p: Placed, q: Placed, keys: seq<Key>)
    requires p.HasAll(keys) && p.schemas == q.schemas && Keeps(p.functions, q.functions)
    ensures q.HasAll(keys) && InputCoords(t, q, keys) == InputCoords(t, p, keys)
  {
  }

  class CustomLayout {
    const tree: LayoutTree
    var sourcePosition: map<Key, Coord>
    var position: map<Key, Coord>
    var targetPosition: map<Key, Coord>
    var nextAvailableToolbarSpot: (nat, nat)
    var farthestRightFnNodeXPos: real
    var fnNodeIdsThatOnlyOutputToTargetSchema: seq<Key>

    ghost predicate Valid()
      reads this
    {
      AllSound(tree, Placed(sourcePosition, position)) && Farthest(tree, position, farthestRightFnNodeXPos)
    }

    /** The position of an input node, which is placed first if it has to be. */
    method LocateInput(f: Key, k: Key) returns (input: Option<Coord>)
      requires Valid() && f in tree.functions && k in InputIds(tree, tree.edges, f)
      modifies this`position, this`farthestRightFnNodeXPos
      modifies this`nextAvailableToolbarSpot, this`fnNodeIdsThatOnlyOutputToTargetSchema
      ensures Valid() && Keeps(old(position), position)
      ensures nextAvailableToolbarSpot == old(nextAvailableToolbarSpot)
      ensures fnNodeIdsThatOnlyOutputToTargetSchema == old(fnNodeIdsThatOnlyOutputToTargetSchema)
      ensures var p := Placed(sourcePosition, position);
              p.Has(k) && input == Some(InputCoord(tree, p, k))
      decreases ReachSet(InputGraph(tree), f), 0
    {
      hide AllSound, IsUnconnected, WaitsForTargets, Farthest;
      SoundIsLayoutTree(tree, Placed(sourcePosition, position));
      ghost var i :| 0 <= i < |InputIds(tree, tree.edges, f)| && InputIds(tree, tree.edges, f)[i] == k;
      InputIsPlaceable(tree, f, i);
      ReachSetShrinks(InputGraph(tree), f);
      if k !in sourcePosition && k !in position {
        SourcesArePlaced(tree, Placed(sourcePosition, position));
        CalculateFnNodePosition(k);
      }
      input := None;
      if k in sourcePosition || k in position {
        input := Some(InputCoord(tree, Placed(sourcePosition, position), k));
      }
    }

    method CompileInputPositionsAndOutputDetails(f: Key) returns (inputs: seq<Coord>, numOutputs: nat,
                                                 onlyOutputsToTargets: bool)
      requires Valid() && f in tree.functions
      modifies this`position, this`farthestRightFnNodeXPos
      modifies this`nextAvailableToolbarSpot, this`fnNodeIdsThatOnlyOutputToTargetSchema
      ensures Valid() && Keeps(old(position), position)
      ensures nextAvailableToolbarSpot == old(nextAvailableToolbarSpot)
      ensures fnNodeIdsThatOnlyOutputToTargetSchema == old(fnNodeIdsThatOnlyOutputToTargetSchema)
      ensures var p := Placed(sourcePosition, position);
              && p.HasAll(InputIds(tree, tree.edges, f))
              && inputs == InputCoords(tree, p, InputIds(tree, tree.edges, f))
      ensures numOutputs == |OutputEdges(tree.edges, f)|
              && onlyOutputsToTargets == OnlyToTargets(OutputEdges(tree.edges, f))
      decreases ReachSet(InputGraph(tree), f), 1
    {
      hide AllSound, Farthest, InputIds, OutputEdges;
      inputs, numOutputs, onlyOutputsToTargets := [], 0, true;
      NoEdges(tree, f);
      for i := 0 to |tree.edges|
        invariant Valid() && Keeps(old(position), position)
        invariant nextAvailableToolbarSpot == old(nextAvailableToolbarSpot)
        invariant fnNodeIdsThatOnlyOutputToTargetSchema == old(fnNodeIdsThatOnlyOutputToTargetSchema)
        invariant Placed(sourcePosition, position).HasAll(InputIds(tree, tree.edges[..i], f))
        invariant inputs == InputCoords(tree, Placed(sourcePosition, position), InputIds(tree, tree.edges[..i], f))
        invariant numOutputs == |OutputEdges(tree.edges[..i], f)|
                  && onlyOutputsToTargets == OnlyToTargets(OutputEdges(tree.edges[..i], f))
      {
        var edge := tree.edges[i];
        ghost var before := Placed(sourcePosition, position);
        PrefixStep(tree, i, f);
        OnlyToTargetsAppend(OutputEdges(tree.edges[..i], f), edge);
        if edge.sourceId == f {
          numOutputs := numOutputs + 1;
          if !edge.targetId.TargetKey? {
            onlyOutputsToTargets := false;
          }
        } else if edge.targetId == f {
          if edge.sourceId in tree.sources || edge.sourceId in tree.functions {
            PrefixInputIsInput(tree, i, f);
            var input := LocateInput(f, edge.sourceId);
            KeptCoords(tree, before, Placed(sourcePosition, position), InputIds(tree, tree.edges[..i], f));
            if input.Some? {
              inputs := inputs + [input.value];
            }
          }
        }
      }
      assert tree.edges[..|tree.edges|] == tree.edges;
    }

    method CalculateFnNodePosition(f: Key)
      requires Valid() && f in tree.functions
      requires IsUnconnected(tree, f) ==> nextAvailableToolbarSpot == ToolbarSpot(SlotOf(tree, f))
      modifies this`position, this`farthestRightFnNodeXPos
      modifies this`nextAvailableToolbarSpot, this`fnNodeIdsThatOnlyOutputToTargetSchema
      ensures Valid() && Keeps(old(position), position)
      ensures PlacesWell(tree, Placed(sourcePosition, position), f)
      ensures nextAvailableToolbarSpot == if IsUnconnected(tree, f) then ToolbarSpot(SlotOf(tree, f) + 1)
              else old(nextAvailableToolbarSpot)
      ensures fnNodeIdsThatOnlyOutputToTargetSchema ==
              old(fnNodeIdsThatOnlyOutputToTargetSchema) + if WaitsForTargets(tree, f) then [f] else []
      decreases ReachSet(InputGraph(tree), f), 2
    {
      hide AllSound, Farthest, OutputEdges, InputIds, SlotOf;
      var inputs, numOutputs, onlyOutputsToTargets := CompileInputPositionsAndOutputDetails(f);
      var xPos: Option<real>, yPos: Option<real> := None, None;
      var isGoingOnToolbar := false;
      if inputs == [] {
        if numOutputs == 0 {
          var (column, row) := nextAvailableToolbarSpot;
          xPos := Some(column as real * XInterval(tree));
          yPos := Some(FUNCTION_TOOLBAR_START_Y - row as real * Y_INTERVAL);
          isGoingOnToolbar := true;
          var hasReachedRowMax := column == MAX_FUNCTIONS_PER_TOOLBAR_ROW - 1;
          nextAvailableToolbarSpot := if hasReachedRowMax then (0, row + 1) else (column + 1, row);
          NextToolbarSpot(SlotOf(tree, f));
        } else if onlyOutputsToTargets {
          fnNodeIdsThatOnlyOutputToTargetSchema := fnNodeIdsThatOnlyOutputToTargetSchema + [f];
        } else {
          xPos, yPos := Some(FnStartX(tree)), Some(CentralY(tree));
        }
      } else {
        WantedPosition(tree, Placed(sourcePosition, position), f);
        var x, y := BesideInputs(inputs);
        xPos, yPos := Some(x + XInterval(tree)), Some(y);
      }
      WaitingIsNotPlaced(tree, Placed(sourcePosition, position), f);
      if xPos.Some? && yPos.Some? {
        Place(f, xPos.value + FnStartX(tree), yPos.value, isGoingOnToolbar);
      }
    }

    method Place(f: Key, x: real, y: real, isGoingOnToolbar: bool)
      requires Valid() && f in tree.functions && !WaitsForTargets(tree, f)
      requires isGoingOnToolbar == IsUnconnected(tree, f)
               && Placed(sourcePosition, position).HasAll(InputIds(tree, tree.edges, f))
      requires if isGoingOnToolbar then Coord(x, y) == ToolbarCoord(tree, SlotOf(tree, f))
               else x == FnStartX(tree) + Offset(tree, f) && y == WantedY(tree, Placed(sourcePosition, position), f)
      modifies this`position, this`farthestRightFnNodeXPos
      ensures Valid() && Keeps(old(position), position)
      ensures PlacesWell(tree, Placed(sourcePosition, position), f)
    {
      hide AllSound, Farthest, InputIds, SlotOf, IsFirstFree, HasCollision, WantedY, Spot, Keeps, ToolbarCoord,
        PlacesWell, IsUnconnected, WaitsForTargets, IsLayoutTree, Offset, FnStartX, WellPlaced;
      ghost var p := Placed(sourcePosition, position);
      var freeY := y;
      ghost var tries := 0;
      if !isGoingOnToolbar {
        WantedPosition(tree, p, f);
        freeY, tries := FindFreeSpot(tree, position, f, x, y);
      }
      PlacedNodeIsSound(tree, p, f, Coord(x, freeY), farthestRightFnNodeXPos, tries);
      position := position[f := Coord(x, freeY)];
      if x > farthestRightFnNodeXPos {
        farthestRightFnNodeXPos := x;
      }
    }

    constructor (tree: LayoutTree)
      ensures this.tree == tree
    {
      this.tree := tree;
      sourcePosition, position, targetPosition := map[], map[], map[];
      nextAvailableToolbarSpot := (0, 0);
      farthestRightFnNodeXPos := 0.0;
      fnNodeIdsThatOnlyOutputToTargetSchema := [];
    }

    method PlaceFunctionNodes()
      requires Valid() && position == map[] && nextAvailableToolbarSpot == (0, 0)
               && fnNodeIdsThatOnlyOutputToTargetSchema == []
      modifies this`position, this`farthestRightFnNodeXPos
      modifies this`nextAvailableToolbarSpot, this`fnNodeIdsThatOnlyOutputToTargetSchema
      ensures Valid()
      ensures forall i :: 0 <= i < |tree.functions| ==>
                (tree.functions[i] in position <==> !WaitsForTargets(tree, tree.functions[i]))
      ensures fnNodeIdsThatOnlyOutputToTargetSchema == Waiting(tree, tree.functions)
    {
      hide AllSound, Farthest, InputIds, SlotOf, IsUnconnected, WaitsForTargets, Keeps, PlacesWell, IsLayoutTree;
      for i := 0 to |tree.functions|
        invariant Valid()
        invariant nextAvailableToolbarSpot == ToolbarSpot(UnconnectedAmong(tree, tree.functions[..i]))
        invariant forall j :: 0 <= j < i ==>
                  (tree.functions[j] in position <==> !WaitsForTargets(tree, tree.functions[j]))
        invariant fnNodeIdsThatOnlyOutputToTargetSchema == Waiting(tree, tree.functions[..i])
      {
        assert tree.functions[..i + 1][..i] == tree.functions[..i];
        SoundIsLayoutTree(tree, Placed(sourcePosition, position));
        NextSlot(tree, i);
        ghost var before := position;
        CalculateFnNodePosition(tree.functions[i]);
        PlacedUnlessWaiting(tree, Placed(sourcePosition, position), tree.functions[i]);
        forall j | 0 <= j < i ensures tree.functions[j] in position <==> !WaitsForTargets(tree, tree.functions[j]) {
          EarlierNodeIsKept(tree, Placed(sourcePosition, position), before, i, j);
        }
      }
      assert tree.functions[..|tree.functions|] == tree.functions;
    }

    /** Nodes that only feed the target schema go level with the middle of what they feed. */
    method PlaceWaitingNodes()
      requires Waiting(tree, tree.functions) == fnNodeIdsThatOnlyOutputToTargetSchema
      modifies this`position
      ensures forall f :: f in old(position) && f !in fnNodeIdsThatOnlyOutputToTargetSchema ==>
                f in position && position[f] == old(position)[f]
      ensures forall f :: f in position ==> f in old(position) || f in fnNodeIdsThatOnlyOutputToTargetSchema
      ensures forall f :: f in fnNodeIdsThatOnlyOutputToTargetSchema ==>
                WaitsForTargets(tree, f) && f in position
                    && position[f] == WaitingCoord(tree, targetPosition, farthestRightFnNodeXPos, f)
    {
      hide WaitsForTargets, WaitingCoord;
      var waiting := fnNodeIdsThatOnlyOutputToTargetSchema;
      WaitingMembers(tree, tree.functions);
      for i := 0 to |waiting|
        invariant forall f :: f in old(position) && f !in waiting ==> f in position && position[f] == old(position)[f]
        invariant forall f :: f in position ==> f in old(position) || f in waiting
        invariant forall j :: 0 <= j < i ==>
                    waiting[j] in position
                    && position[waiting[j]] == WaitingCoord(tree, targetPosition, farthestRightFnNodeXPos, waiting[j])
      {
        position := position[waiting[i] := WaitingCoord(tree, targetPosition, farthestRightFnNodeXPos, waiting[i])];
      }
    }

    /** No height is declared for a diagram without nodes, where the source's is minus infinity. */
    method ApplyCustomLayout() returns (width: real, height: Option<real>)
      requires IsLayoutTree(tree)
      modifies this
      ensures IsLaidOut(tree, sourcePosition, position, targetPosition, farthestRightFnNodeXPos)
      ensures width == farthestRightFnNodeXPos + SCHEMA_NODE_CARD_DEFAULT_WIDTH * 2.5
      ensures HasAllHeights(tree, sourcePosition, position, targetPosition)
      ensures EndsBelowLowest(AllHeights(tree, sourcePosition, position, targetPosition), height)
    {
      hide WaitsForTargets, IsPlacedAt, CollisionFree, WaitingCoord, Waiting, IsLaidOut, HasAllHeights, AllHeights,
        EndsBelowLowest;
      sourcePosition := PlaceSchemaNodes(tree.sources, 0.0);
      farthestRightFnNodeXPos := FnStartX(tree);
      nextAvailableToolbarSpot := (0, 0);
      fnNodeIdsThatOnlyOutputToTargetSchema := [];
      position := map[];
      NothingCollides(tree);
      PlaceFunctionNodes();
      targetPosition := PlaceSchemaNodes(tree.targets, farthestRightFnNodeXPos + SCHEMA_NODE_CARD_DEFAULT_WIDTH * 1.5);
      ghost var placed := Placed(sourcePosition, position);
      PlaceWaitingNodes();
      LaidOutTogether(tree, placed, position, targetPosition, farthestRightFnNodeXPos);
      AllHaveHeights(tree, sourcePosition, position, targetPosition, farthestRightFnNodeXPos);
      height := DiagramHeight(AllHeights(tree, sourcePosition, position, targetPosition));
      width := farthestRightFnNodeXPos + SCHEMA_NODE_CARD_DEFAULT_WIDTH * 1.5 + SCHEMA_NODE_CARD_DEFAULT_WIDTH;
    }
  }

  // ----- the size of the diagram

  ghost predicate HasHeights(position: map<Key, Coord>, keys: seq<Key>) {
    forall i :: 0 <= i < |keys| ==> keys[i] in position
  }

  ghost predicate HasAllHeights(t: LayoutTree, sourcePosition: map<Key, Coord>, position: map<Key, Coord>,
                                targetPosition: map<Key, Coord>) {
    HasHeights(sourcePosition, t.sources) && HasHeights(position, t.functions) && HasHeights(targetPosition, t.targets)
  }

  function Heights(position: map<Key, Coord>, keys: seq<Key>): (ys: seq<real>)
    requires HasHeights(position, keys)
    ensures |ys| == |keys| && forall i :: 0 <= i < |ys| ==> ys[i] == position[keys[i]].y
  {
    seq(|keys|, i requires 0 <= i < |keys| => position[keys[i]].y)
  }

  /** The heights of all nodes, section by section. */
  function AllHeights(t: LayoutTree, sourcePosition: map<Key, Coord>, position: map<Key, Coord>,
                      targetPosition: map<Key, Coord>): seq<real>
    requires HasAllHeights(t, sourcePosition, position, targetPosition)
  {
    Heights(sourcePosition, t.sources) + Heights(position, t.functions) + Heights(targetPosition, t.targets)
  }

  /** The diagram ends one card below its lowest node. */
  predicate EndsBelowLowest(ys: seq<real>, height: Option<real>) {
    && (height.None? <==> ys == [])
    && (height.Some? ==>
          && height.value - SCHEMA_NODE_CARD_HEIGHT in ys
          && forall i :: 0 <= i < |ys| ==> ys[i] + SCHEMA_NODE_CARD_HEIGHT <= height.value)
  }

  method DiagramHeight(ys: seq<real>) returns (height: Option<real>)
    ensures EndsBelowLowest(ys, height)
  {
    var bottomMostNode := None;
    for i := 0 to |ys|
      invariant bottomMostNode.None? <==> i == 0
      invariant bottomMostNode.Some? ==>
                  bottomMostNode.value in ys[..i] && forall j :: 0 <= j < i ==> ys[j] <= bottomMostNode.value
    {
      if bottomMostNode.None? || ys[i] > bottomMostNode.value {
        bottomMostNode := Some(ys[i]);
      }
      assert ys[..i + 1] == ys[..i] + [ys[i]];
    }
    height := if bottomMostNode.Some? then Some(bottomMostNode.value + SCHEMA_NODE_CARD_HEIGHT) else None;
  }

  lemma AllHaveHeights(t: LayoutTree, sourcePosition: map<Key, Coord>, position: map<Key, Coord>,
                       targetPosition: map<Key, Coord>, farthest: real)
    requires IsLayoutTree(t) && IsLaidOut(t, sourcePosition, position, targetPosition, farthest)
    ensures HasAllHeights(t, sourcePosition, position, targetPosition)
  {
    hide WaitsForTargets, IsPlacedAt, WaitingCoord, Collide, AllAtFirstFree;
    assert forall i :: 0 <= i < |t.functions| ==> t.functions[i] in t.functions;
  }

  function Waiting(t: LayoutTree, keys: seq<Key>): seq<Key> {
    if keys == [] then []
    else
      var last := keys[|keys| - 1];
      Waiting(t, keys[..|keys| - 1]) + if WaitsForTargets(t, last) then [last] else []
  }

  lemma {:induction false} WaitingMembers(t: LayoutTree, keys: seq<Key>)
    ensures forall f :: f in Waiting(t, keys) <==> f in keys && WaitsForTargets(t, f)
  {
    if keys != [] {
      WaitingMembers(t, keys[..|keys| - 1]);
      assert keys == keys[..|keys| - 1] + [keys[|keys| - 1]];
    }
  }

  /** Level with the target nodes it feeds; one that is not shown counts as 0. */
  function TargetYs(targetPosition: map<Key, Coord>, outputs: seq<Edge>): seq<real> {
    seq(|outputs|, i requires 0 <= i < |outputs| =>
      if outputs[i].targetId in targetPosition then targetPosition[outputs[i].targetId].y else 0.0)
  }

  function WaitingCoord(t: LayoutTree, targetPosition: map<Key, Coord>, farthest: real, f: Key): Coord
    requires WaitsForTargets(t, f)
  {
    Coord(farthest, Average(TargetYs(targetPosition, OutputEdges(t.edges, f))))
  }

  /** The finished layout. */
  ghost predicate IsLaidOut(t: LayoutTree, sourcePosition: map<Key, Coord>, position: map<Key, Coord>,
                            targetPosition: map<Key, Coord>, farthest: real)
    requires IsLayoutTree(t)
  {
    && SchemaPlaced(t.sources, sourcePosition, 0.0)
    && SchemaPlaced(t.targets, targetPosition, farthest + SCHEMA_NODE_CARD_DEFAULT_WIDTH * 1.5)
    && (forall f :: f in position <==> f in t.functions)
    && (forall f :: f in t.functions ==>
          if WaitsForTargets(t, f) then position[f] == WaitingCoord(t, targetPosition, farthest, f)
          else IsPlacedAt(t, f, position[f]))
    && (forall f, g ::
          f in t.functions && g in t.functions && f != g && !WaitsForTargets(t, f) && !WaitsForTargets(t, g) ==>
          !Collide(t, position[f], position[g]))
    && (forall f :: f in t.functions ==> position[f].x <= farthest)
    && AllAtFirstFree(t, Placed(sourcePosition, PlacedFirst(t, position)))
  }

  /** The positions of the nodes that did not have to wait. */
  function PlacedFirst(t: LayoutTree, position: map<Key, Coord>): map<Key, Coord> {
    map f | f in position && !WaitsForTargets(t, f) :: position[f]
  }

  lemma NothingCollides(t: LayoutTree)
    requires IsLayoutTree(t)
    ensures WellPlaced(t, map[]) && Farthest(t, map[], FnStartX(t))
    ensures UnconnectedAmong(t, []) == 0 && ToolbarSpot(0) == (0, 0)
  {
  }

  lemma NextSlot(t: LayoutTree, i: nat)
    requires IsLayoutTree(t) && i < |t.functions|
    ensures SlotOf(t, t.functions[i]) == UnconnectedAmong(t, t.functions[..i])
  {
    assert IndexIn(t.functions, t.functions[i]) == i;
  }

  lemma PlacedUnlessWaiting(t: LayoutTree, p: Placed, f: Key)
    requires PlacesWell(t, p, f)
    ensures f in p.functions <==> !WaitsForTargets(t, f)
  {
  }

  lemma EarlierNodeIsKept(t: LayoutTree, p: Placed, before: map<Key, Coord>, i: nat, j: nat)
    requires AllSound(t, p) && j < i < |t.functions| && Keeps(before, p.functions)
    requires t.functions[j] in before <==> !WaitsForTargets(t, t.functions[j])
    ensures t.functions[j] in p.functions <==> !WaitsForTargets(t, t.functions[j])
  {
  }

  /** What placing first the other nodes and then the waiting ones comes to. */
  lemma LaidOutTogether(t: LayoutTree, p: Placed, position: map<Key, Coord>, targetPosition: map<Key, Coord>,
                        farthest: real)
    requires AllSound(t, p) && Farthest(t, p.functions, farthest)
    requires SchemaPlaced(t.targets, targetPosition, farthest + SCHEMA_NODE_CARD_DEFAULT_WIDTH * 1.5)
    requires forall i :: 0 <= i < |t.functions| ==>
              (t.functions[i] in p.functions <==> !WaitsForTargets(t, t.functions[i]))
    requires forall f :: f in p.functions && f !in Waiting(t, t.functions) ==>
              f in position && position[f] == p.functions[f]
    requires forall f :: f in position ==> f in p.functions || f in Waiting(t, t.functions)
    requires forall f :: f in Waiting(t, t.functions) ==>
               WaitsForTargets(t, f) && f in position && position[f] == WaitingCoord(t, targetPosition, farthest, f)
    ensures IsLaidOut(t, p.schemas, position, targetPosition, farthest)
  {
    hide WaitsForTargets, IsPlacedAt, Collide, WaitingCoord, Waiting, AllAtFirstFree;
    WaitingMembers(t, t.functions);
    forall f | f in t.functions ensures f in p.functions <==> !WaitsForTargets(t, f) {
      var i :| 0 <= i < |t.functions| && t.functions[i] == f;
    }
    WaitingIsAtFarthest(t, targetPosition, farthest);
    SameFirst(t, p.functions, position);
  }

  lemma SameFirst(t: LayoutTree, before: map<Key, Coord>, position: map<Key, Coord>)
    requires forall f :: f in before ==> !WaitsForTargets(t, f) && f in position && position[f] == before[f]
    requires forall f :: f in position && !WaitsForTargets(t, f) ==> f in before
    ensures PlacedFirst(t, position) == before
  {
    hide WaitsForTargets;
  }

  lemma WaitingIsAtFarthest(t: LayoutTree, targetPosition: map<Key, Coord>, farthest: real)
    ensures forall f :: WaitsForTargets(t, f) ==> WaitingCoord(t, targetPosition, farthest, f).x == farthest
  {
    hide WaitsForTargets;
  }

  /** Two nodes that wait for the target schema are in one column, and collide exactly when the averages of
      the heights they feed are closer than the threshold. */
  lemma WaitingNodesCollideIff(t: LayoutTree, targetPosition: map<Key, Coord>, farthest: real, f: Key, g: Key)
    requires WaitsForTargets(t, f) && WaitsForTargets(t, g)
    ensures Collide(t, WaitingCoord(t, targetPosition, farthest, f), WaitingCoord(t, targetPosition, farthest, g))
            <==> Abs(Average(TargetYs(targetPosition, OutputEdges(t.edges, f)))
                     - Average(TargetYs(targetPosition, OutputEdges(t.edges, g)))) < NODE_COLLISION_Y_THRESHOLD
  {
    hide Average, TargetYs, OutputEdges, InputIds;
  }

  /** Two nodes that feed one and the same target are always put on top of each other. */
  lemma SameTargetCollides(t: LayoutTree, targetPosition: map<Key, Coord>, farthest: real, f: Key, g: Key, target: Key)
    requires WaitsForTargets(t, f) && WaitsForTargets(t, g)
    requires OutputEdges(t.edges, f) == [Edge(f, target)] && OutputEdges(t.edges, g) == [Edge(g, target)]
    ensures WaitingCoord(t, targetPosition, farthest, f) == WaitingCoord(t, targetPosition, farthest, g)
    ensures Collide(t, WaitingCoord(t, targetPosition, farthest, f), WaitingCoord(t, targetPosition, farthest, g))
  {
    hide InputIds;
    assert TargetYs(targetPosition, [Edge(f, target)]) == TargetYs(targetPosition, [Edge(g, target)]);
    WaitingNodesCollideIff(t, targetPosition, farthest, f, g);
  }

  // ----- measures

  /** The distances of the layout in pixels. */
  lemma Measures(t: LayoutTree)
    ensures Y_INTERVAL == 96.0 && NODE_COLLISION_Y_THRESHOLD == 76.8 && FUNCTION_TOOLBAR_START_Y == -128.0
    ensures XInterval(t) == if t.useExpandedFunctionCards then 300.0 else 96.0
    ensures CollisionXThreshold(t) == if t.useExpandedFunctionCards then 250.0 else 80.0
    ensures FnStartX(t) == 300.0 + if t.isOverview then XInterval(t) else 0.0
    ensures forall a, b :: Collide(t, a, b) <==>
              && -76.8 < a.y - b.y < 76.8
              && if t.useExpandedFunctionCards then -250.0 < a.x - b.x < 250.0 else -80.0 < a.x - b.x < 80.0
  {
  }

  /** The middle of the sources, or two intervals down where there are fewer than three of them. */
  lemma CentralHeight(t: LayoutTree, p: Placed)
    requires SchemaPlaced(t.sources, p.schemas, 0.0)
    ensures |t.sources| > 2 ==> t.sources[|t.sources| / 2] in p.schemas
    ensures CentralY(t) == if |t.sources| > 2 then p.schemas[t.sources[|t.sources| / 2]].y else 192.0
  {
    hide SchemaNodeYPos;
  }

  /** The spots in the order they are tried: an interval below the wanted height, an interval above it, two
      below, two above, and so on; what would be above the top is at the top. */
  lemma SpotsInOrder(y: real, k: nat)
    ensures Spot(y, 0) == y
    ensures k > 0 ==>
            Spot(y, 2 * k - 1) == Max(y + k as real * 96.0, 0.0) && Spot(y, 2 * k) == Max(y - k as real * 96.0, 0.0)
  {
    if k > 0 {
      assert (2 * k - 1 + 1) / 2 == k && 2 * k / 2 == k;
    }
  }

  /** An average lies between the least and the greatest of the numbers, and n times it is their sum. */
  lemma {:induction false} SumIsBetween(ys: seq<real>, low: real, high: real)
    requires forall i :: 0 <= i < |ys| ==> low <= ys[i] <= high
    ensures |ys| as real * low <= Sum(ys) <= |ys| as real * high
  {
    if ys != [] {
      SumIsBetween(ys[..|ys| - 1], low, high);
    }
  }

  lemma {:induction false} SumAppends(ys: seq<real>, zs: seq<real>)
    ensures Sum(ys + zs) == Sum(ys) + Sum(zs)
    decreases |zs|
  {
    if zs == [] {
      assert ys + zs == ys;
    } else {
      assert (ys + zs)[..|ys + zs| - 1] == ys + zs[..|zs| - 1];
      SumAppends(ys, zs[..|zs| - 1]);
    }
  }

  lemma AverageIsMiddle(ys: seq<real>)
    requires ys != []
    ensures Average(ys) * |ys| as real == Sum(ys)
    ensures |ys| == 1 ==> Average(ys) == ys[0]
    ensures |ys| == 2 ==> Average(ys) == (ys[0] + ys[1]) / 2.0
  {
    var n := |ys| as real;
    assert Sum(ys) / n * n == Sum(ys);
    assert ys[..|ys| - 1] + [ys[|ys| - 1]] == ys;
    if |ys| == 1 {
      assert ys[..0] == [];
    } else if |ys| == 2 {
      assert ys[..1][..0] == [] && ys[..1][0] == ys[0];
    }
  }

  /** A node with inputs wants to be level with their middle. */
  lemma WantedIsMiddle(t: LayoutTree, p: Placed, f: Key, ys: seq<real>)
    requires p.HasAll(InputIds(t, t.edges, f)) && InputIds(t, t.edges, f) != []
    requires |ys| == |InputIds(t, t.edges, f)| && forall i :: 0 <= i < |ys| ==>
             ys[i] == p.At(InputIds(t, t.edges, f)[i]).y
    ensures WantedY(t, p, f) * |ys| as real == Sum(ys)
  {
    hide InputIds;
    var inputs := InputCoords(t, p, InputIds(t, t.edges, f));
    assert Ys(inputs) == ys;
    AverageIsMiddle(ys);
  }

  /** The greatest coordinate, or 0. */
  lemma {:induction false} RightmostIsGreatest(inputs: seq<Coord>)
    ensures forall i :: 0 <= i < |inputs| ==> inputs[i].x <= Rightmost(inputs)
    ensures Rightmost(inputs) == 0.0 || exists i :: 0 <= i < |inputs| && inputs[i].x == Rightmost(inputs)
  {
    if inputs != [] {
      RightmostIsGreatest(inputs[..|inputs| - 1]);
    }
  }

  /** A node that feeds one target and nothing else is level with it, or at the top if the target is not shown. */
  lemma LevelWithOnlyTarget(t: LayoutTree, p: Placed, targetPosition: map<Key, Coord>, farthest: real, f: Key,
      target: Key)
    requires IsLayoutTree(t) && IsLaidOut(t, p.schemas, p.functions, targetPosition, farthest)
    requires f in t.functions && WaitsForTargets(t, f) && OutputEdges(t.edges, f) == [Edge(f, target)]
    ensures target in t.targets ==>
              target in targetPosition && p.functions[f] == Coord(farthest, targetPosition[target].y)
    ensures target !in t.targets ==> p.functions[f] == Coord(farthest, 0.0)
  {
    hide IsPlacedAt, Collide, AllAtFirstFree, InputIds, SchemaNodeYPos;
    var ys := TargetYs(targetPosition, [Edge(f, target)]);
    AverageIsMiddle(ys);
  }

  // ----- the heights of schema nodes

  /** The cards of a schema, in the order they are listed, from the top and without a gap but the given one. */
  ghost predicate IsStacked(keys: seq<Key>, position: map<Key, Coord>) {
    && (forall i :: 0 <= i < |keys| ==> keys[i] in position)
    && (keys != [] ==> position[keys[0]].y == 0.0)
    && forall i :: 0 < i < |keys| ==>
         position[keys[i]].y == position[keys[i - 1]].y + SCHEMA_NODE_CARD_HEIGHT + SCHEMA_NODE_CARD_V_GAP
  }

  lemma PlacedIsStacked(keys: seq<Key>, position: map<Key, Coord>, x: real)
    requires SchemaPlaced(keys, position, x)
    ensures IsStacked(keys, position)
  {
    forall i | 0 < i < |keys|
      ensures position[keys[i]].y == position[keys[i - 1]].y + SCHEMA_NODE_CARD_HEIGHT + SCHEMA_NODE_CARD_V_GAP
    {
      assert position[keys[i]].y == SchemaNodeYPos(i) && position[keys[i - 1]].y == SchemaNodeYPos(i - 1);
      assert SchemaNodeYPos(i) == i as real * 56.0;
    }
  }

  lemma {:induction false} StackedHeight(keys: seq<Key>, position: map<Key, Coord>, i: nat)
    requires IsStacked(keys, position) && i < |keys|
    ensures position[keys[i]].y == i as real * (SCHEMA_NODE_CARD_HEIGHT + SCHEMA_NODE_CARD_V_GAP)
  {
    if i > 0 {
      StackedHeight(keys, position, i - 1);
    }
  }

  lemma StackedCardsAreApart(keys: seq<Key>, position: map<Key, Coord>, i: nat, j: nat)
    requires IsStacked(keys, position) && i < j < |keys|
    ensures position[keys[j]].y >= position[keys[i]].y + SCHEMA_NODE_CARD_HEIGHT + SCHEMA_NODE_CARD_V_GAP
  {
    StackedHeight(keys, position, i);
    StackedHeight(keys, position, j);
    assert j as real - i as real >= 1.0;
  }

  /** In a finished layout both schemas stand from the top, one column each, and no two cards of a schema
      overlap. */
  lemma SchemasAreStacked(t: LayoutTree, p: Placed, targetPosition: map<Key, Coord>, farthest: real)
    requires IsLayoutTree(t) && IsLaidOut(t, p.schemas, p.functions, targetPosition, farthest)
    ensures IsStacked(t.sources, p.schemas) && IsStacked(t.targets, targetPosition)
    ensures forall k :: k in t.sources ==> p.schemas[k].x == 0.0
    ensures forall k :: k in t.targets ==> targetPosition[k].x == farthest + 300.0
    ensures forall i, j :: 0 <= i < j < |t.sources| ==>
              p.schemas[t.sources[j]].y >= p.schemas[t.sources[i]].y + SCHEMA_NODE_CARD_HEIGHT
    ensures forall i, j :: 0 <= i < j < |t.targets| ==>
              targetPosition[t.targets[j]].y >= targetPosition[t.targets[i]].y + SCHEMA_NODE_CARD_HEIGHT
  {
    hide SchemaNodeYPos, WaitsForTargets, IsPlacedAt, WaitingCoord, Collide, AllAtFirstFree, IsLayoutTree, IsStacked;
    PlacedIsStacked(t.sources, p.schemas, 0.0);
    PlacedIsStacked(t.targets, targetPosition, farthest + SCHEMA_NODE_CARD_DEFAULT_WIDTH * 1.5);
    StackKeys(t.sources, p.schemas);
    StackKeys(t.targets, targetPosition);
    forall i, j | 0 <= i < j < |t.sources|
      ensures p.schemas[t.sources[j]].y >= p.schemas[t.sources[i]].y + SCHEMA_NODE_CARD_HEIGHT
    {
      StackedCardsAreApart(t.sources, p.schemas, i, j);
    }
    forall i, j | 0 <= i < j < |t.targets|
      ensures targetPosition[t.targets[j]].y >= targetPosition[t.targets[i]].y + SCHEMA_NODE_CARD_HEIGHT
    {
      StackedCardsAreApart(t.targets, targetPosition, i, j);
    }
  }

  lemma StackKeys(keys: seq<Key>, position: map<Key, Coord>)
    requires IsStacked(keys, position)
    ensures forall i :: 0 <= i < |keys| ==> keys[i] in position
  {
  }

  predicate LiesRightOf(p: Placed, f: Key, k: Key, distance: real) {
    p.Has(k) && f in p.functions && p.functions[f].x >= p.At(k).x + distance
  }

  /** In the finished layout every function node is at least one interval to the right of each of its
      inputs, and every target schema node is to the right of all function nodes. */
  lemma LeftToRight(t: LayoutTree, p: Placed, targetPosition: map<Key, Coord>, farthest: real)
    requires IsLayoutTree(t) && IsLaidOut(t, p.schemas, p.functions, targetPosition, farthest)
    ensures forall f, k :: f in t.functions && k in InputIds(t, t.edges, f) ==> LiesRightOf(p, f, k, XInterval(t))
    ensures forall f, i :: f in t.functions && 0 <= i < |t.targets| ==>
              t.targets[i] in targetPosition && targetPosition[t.targets[i]].x > p.functions[f].x
  {
    hide IsLayoutTree, InputIds, IsPlacedAt, CollisionFree, WaitsForTargets, WaitingCoord, Collide;
    forall f, k | f in t.functions && k in InputIds(t, t.edges, f) ensures LiesRightOf(p, f, k, XInterval(t)) {
      RightOfInput(t, p, targetPosition, farthest, f, k);
    }
  }

  lemma RightOfInput(t: LayoutTree, p: Placed, targetPosition: map<Key, Coord>, farthest: real, f: Key, k: Key)
    requires IsLayoutTree(t) && IsLaidOut(t, p.schemas, p.functions, targetPosition, farthest)
    requires f in t.functions && k in InputIds(t, t.edges, f)
    ensures LiesRightOf(p, f, k, XInterval(t))
  {
    hide IsLaidOut, IsLayoutTree, IsUnconnected, WaitsForTargets;
    var i :| 0 <= i < |InputIds(t, t.edges, f)| && InputIds(t, t.edges, f)[i] == k;
    InputIsPlaceable(t, f, i);
    RightOfEveryInput(t, f, k);
    NodeWithInputsIsConnected(t, f);
    PlacedByOffset(t, p, targetPosition, farthest, f);
    PlacedByOffset(t, p, targetPosition, farthest, k);
  }

  lemma NodeWithInputsIsConnected(t: LayoutTree, f: Key)
    requires InputIds(t, t.edges, f) != []
    ensures !IsUnconnected(t, f) && !WaitsForTargets(t, f)
  {
  }

  lemma PlacedByOffset(t: LayoutTree, p: Placed, targetPosition: map<Key, Coord>, farthest: real, k: Key)
    requires IsLayoutTree(t) && IsLaidOut(t, p.schemas, p.functions, targetPosition, farthest)
    requires (k in t.sources || k in t.functions) && !IsUnconnected(t, k) && !WaitsForTargets(t, k)
    ensures p.Has(k) && p.At(k).x <= FnStartX(t) + Offset(t, k)
    ensures k in t.functions ==> k in p.functions && p.functions[k].x == FnStartX(t) + Offset(t, k)
  {
    hide InputIds, Collide, WaitingCoord, AllAtFirstFree, IsUnconnected, WaitsForTargets, SlotOf, Offset;
    if k in t.functions {
      assert IsPlacedAt(t, k, p.functions[k]);
    }
  }

  /** Two searches that end at a free spot, and pass only blocked ones, end at the same. */
  lemma FirstFreeIsUnique(t: LayoutTree, position: map<Key, Coord>, f: Key, x: real, y: real, m: nat, n: nat)
    requires IsFirstFree(t, position, f, x, y, m) && IsFirstFree(t, position, f, x, y, n)
    ensures m == n
  {
    hide HasCollision, Spot;
  }

  /** A node that is placed already is placed again where it is, whatever has been placed in between. */
  lemma PlacingAgainMovesNothing(t: LayoutTree, p: Placed, f: Key, c: Coord, tries: nat)
    requires AllSound(t, p) && f in p.functions && Belongs(t, p, f, c, tries)
    ensures p.functions[f] == c
  {
    hide IsUnconnected, WaitsForTargets, IsLayoutTree, IsFirstFree, Spot, WantedY, InputIds, ToolbarCoord, SlotOf,
      CollisionFree;
    assert IsPlacedAt(t, f, p.functions[f]);
    if !IsUnconnected(t, f) {
      assert AtFirstFree(t, p, f);
      var n: nat :| IsFirstFree(t, p.functions, f, p.functions[f].x, WantedY(t, p, f), n)
          && p.functions[f].y == Spot(WantedY(t, p, f), n);
      FirstFreeIsUnique(t, p.functions, f, c.x, WantedY(t, p, f), n, tries);
    }
  }

  /** Placing further nodes leaves a node at its first free spot. */
  lemma FirstFreeStays(t: LayoutTree, p: Placed, q: Placed, g: Key)
    requires p.schemas == q.schemas && Keeps(p.functions, q.functions) && CollisionFree(t, q.functions)
    requires g in p.functions && AtFirstFree(t, p, g)
    ensures AtFirstFree(t, q, g)
  {
    hide Collide, Spot, InputIds, Ys, Average;
    KeptCoords(t, p, q, InputIds(t, t.edges, g));
    var x, y := p.functions[g].x, WantedY(t, p, g);
    var n: nat :| IsFirstFree(t, p.functions, g, x, y, n) && p.functions[g].y == Spot(y, n);
    assert q.functions[g] == Coord(x, Spot(y, n));
    forall i | 0 <= i < n ensures HasCollision(t, q.functions, g, Coord(x, Spot(y, i))) {
      assert HasCollision(t, p.functions, g, Coord(x, Spot(y, i)));
      var h :| h in p.functions && h != g && Collide(t, p.functions[h], Coord(x, Spot(y, i)));
      assert q.functions[h] == p.functions[h];
    }
    assert !HasCollision(t, q.functions, g, Coord(x, Spot(y, n))) by {
      assert forall h :: h in q.functions && h != g ==> !Collide(t, q.functions[h], q.functions[g]);
    }
    assert IsFirstFree(t, q.functions, g, q.functions[g].x, WantedY(t, q, g), n);
  }

  /** A new node at a free spot of its own leaves every node at its first free one. */
  lemma NewNodeKeepsFirstFree(t: LayoutTree, p: Placed, q: Placed, f: Key)
    requires p.schemas == q.schemas && Keeps(p.functions, q.functions) && q.functions.Keys == p.functions.Keys + {f}
    requires AllAtFirstFree(t, p) && CollisionFree(t, q.functions)
    requires f !in p.functions && !IsUnconnected(t, f) ==> AtFirstFree(t, q, f)
    ensures AllAtFirstFree(t, q)
  {
    hide AtFirstFree, CollisionFree, IsUnconnected;
    forall g | g in q.functions && !IsUnconnected(t, g) ensures AtFirstFree(t, q, g) {
      if g in p.functions {
        FirstFreeStays(t, p, q, g);
      }
    }
  }

  /** f belongs at c: on the toolbar, or at the first free spot. */
  ghost predicate Belongs(t: LayoutTree, p: Placed, f: Key, c: Coord, tries: nat)
    requires IsLayoutTree(t)
  {
    && f in t.functions && !WaitsForTargets(t, f) && p.HasAll(InputIds(t, t.edges, f)) && IsPlacedAt(t, f, c)
    && (IsUnconnected(t, f) || (IsFirstFree(t, p.functions, f, c.x, WantedY(t, p, f), tries)
                                && c.y == Spot(WantedY(t, p, f), tries)
                                && (tries == 0 || tries < 4 * |p.functions.Keys - {f}|)))
  }

  lemma PlacedIsFirstFree(t: LayoutTree, p: Placed, f: Key, c: Coord, tries: nat)
    requires AllSound(t, p) && Belongs(t, p, f, c, tries)
    ensures var q := p.(functions := p.functions[f := c]);
            PlacesWell(t, q, f) && (!IsUnconnected(t, f) ==> AtFirstFree(t, q, f))
  {
    hide InputIds, SlotOf, WantedY, Spot, IsLayoutTree, IsUnconnected, WaitsForTargets, WellPlaced, IsPlacedAt,
      IsFirstFree, AllAtFirstFree, AllSound;
    SameWantedY(t, p, f, c);
    if !IsUnconnected(t, f) {
      SameFirstFree(t, p, f, c, WantedY(t, p, f), tries);
    }
    assert p.functions[f := c].Keys - {f} == p.functions.Keys - {f};
  }

  lemma SameFirstFree(t: LayoutTree, p: Placed, f: Key, c: Coord, y: real, n: nat)
    requires IsFirstFree(t, p.functions, f, c.x, y, n)
    ensures IsFirstFree(t, p.functions[f := c], f, c.x, y, n)
  {
    hide HasCollision, Spot;
    SameCollisions(t, p, f, c);
  }

  lemma PlacedMovesNothing(t: LayoutTree, p: Placed, f: Key, c: Coord, tries: nat)
    requires AllSound(t, p) && Belongs(t, p, f, c, tries)
    ensures Keeps(p.functions, p.functions[f := c])
  {
    hide AllSound, IsLayoutTree, InputIds, WantedY, Spot, IsUnconnected, WaitsForTargets, IsPlacedAt, IsFirstFree;
    if f in p.functions {
      PlacingAgainMovesNothing(t, p, f, c, tries);
    }
  }

  /** Everything kept when f goes to a coordinate of its own; if it had one, it is the same. */
  lemma PlacedNodeIsSound(t: LayoutTree, p: Placed, f: Key, c: Coord, farthest: real, tries: nat)
    requires AllSound(t, p) && Farthest(t, p.functions, farthest) && Belongs(t, p, f, c, tries)
    ensures var q := p.(functions := p.functions[f := c]);
            && AllSound(t, q) && Farthest(t, q.functions, if c.x > farthest then c.x else farthest)
            && PlacesWell(t, q, f) && Keeps(p.functions, q.functions)
  {
    PlacedMovesNothing(t, p, f, c, tries);
    PlacedIsFirstFree(t, p, f, c, tries);
    PlacedApart(t, p, f, c, tries);
    var q := p.(functions := p.functions[f := c]);
    hide Farthest, InputIds, WantedY, Spot, IsLayoutTree, IsUnconnected, WaitsForTargets, WellPlaced,
      IsPlacedAt, HasCollision, AllAtFirstFree, PlacesWell, Keeps;
    FarthestAfter(t, p.functions, farthest, f, c);
    WellPlacedIsCollisionFree(t, q.functions);
    NewNodeKeepsFirstFree(t, p, q, f);
  }

  lemma WellPlacedIsCollisionFree(t: LayoutTree, position: map<Key, Coord>)
    requires IsLayoutTree(t) && WellPlaced(t, position)
    ensures CollisionFree(t, position)
  {
  }

  lemma PlacedApart(t: LayoutTree, p: Placed, f: Key, c: Coord, tries: nat)
    requires AllSound(t, p) && Belongs(t, p, f, c, tries)
    ensures WellPlaced(t, p.functions[f := c])
  {
    hide InputIds, SlotOf, WantedY, Spot, ToolbarCoord, IsLayoutTree, IsUnconnected, WaitsForTargets, WellPlaced,
      IsPlacedAt, HasCollision;
    if IsUnconnected(t, f) {
      assert c == ToolbarCoord(t, SlotOf(t, f)) by { IsOnToolbar(t, f, c); }
      ToolbarStaysFree(t, p.functions, f);
    } else {
      FreeSpotStaysFree(t, p.functions, f, c);
    }
  }

  lemma IsOnToolbar(t: LayoutTree, f: Key, c: Coord)
    requires IsLayoutTree(t) && f in t.functions && IsUnconnected(t, f) && IsPlacedAt(t, f, c)
    ensures c == ToolbarCoord(t, SlotOf(t, f))
  {
  }

  lemma SameWantedY(t: LayoutTree, p: Placed, f: Key, c: Coord)
    requires AllSound(t, p) && f in t.functions && p.HasAll(InputIds(t, t.edges, f))
    ensures var q := p.(functions := p.functions[f := c]);
            q.HasAll(InputIds(t, t.edges, f)) && WantedY(t, q, f) == WantedY(t, p, f)
  {
    hide AllSound, IsLayoutTree;
    SoundIsLayoutTree(t, p);
    var keys := InputIds(t, t.edges, f);
    forall i | 0 <= i < |keys| ensures keys[i] != f {
      InputIsPlaceable(t, f, i);
    }
    assert InputCoords(t, p.(functions := p.functions[f := c]), keys) == InputCoords(t, p, keys);
  }

  lemma SameCollisions(t: LayoutTree, p: Placed, f: Key, c: Coord)
    ensures forall b :: HasCollision(t, p.functions[f := c], f, b) == HasCollision(t, p.functions, f, b)
  {
    hide Collide;
    var after := p.functions[f := c];
    forall b ensures HasCollision(t, after, f, b) == HasCollision(t, p.functions, f, b) {
      if g :| g in after && g != f && Collide(t, after[g], b) {
        assert Collide(t, p.functions[g], b);
      }
      if g :| g in p.functions && g != f && Collide(t, p.functions[g], b) {
        assert Collide(t, after[g], b);
      }
    }
  }

  lemma OnlyToTargetsAppend(outputs: seq<Edge>, e: Edge)
    ensures OnlyToTargets(outputs + [e]) <==> OnlyToTargets(outputs) && e.targetId.TargetKey?
  {
    var all := outputs + [e];
    assert all[|outputs|] == e;
    assert forall i :: 0 <= i < |outputs| ==> all[i] == outputs[i];
  }

  lemma WaitingIsNotPlaced(t: LayoutTree, p: Placed, f: Key)
    requires AllSound(t, p)
    ensures WaitsForTargets(t, f) ==> f !in p.functions
  {
  }

  lemma NoEdges(t: LayoutTree, f: Key)
    ensures InputIds(t, t.edges[..0], f) == [] && OutputEdges(t.edges[..0], f) == []
  {
  }

  lemma SourcesArePlaced(t: LayoutTree, p: Placed)
    requires AllSound(t, p)
    ensures forall k :: k in t.sources <==> k in p.schemas
  {
  }
}
