/** The extended schema tree, its flattened index and the search by key (Schema.Utils.ts). */
module Schemas {
  import opened Model

  datatype SchemaType = Source | Target

  function AddReactFlowPrefix(key: string, schemaType: SchemaType): Key {
    if schemaType.Source? then SourceKey(key) else TargetKey(key)
  }

  /** A schema node as it is loaded, its properties already parsed. */
  datatype LoadedNode = LoadedNode(
    key: string,
    qName: string,
    nodeType: NormalizedDataType,
    properties: seq<SchemaNodeProperty>,
    children: seq<LoadedNode>)

  function ItemOf(key: string, qName: string, properties: seq<SchemaNodeProperty>): PathItem {
    PathItem(key, qName, Repeating in properties)
  }

  function ConvertNode(node: LoadedNode, parentKey: Option<string>, parentPath: seq<PathItem>): SchemaNode {
    var path := parentPath + [ItemOf(node.key, node.qName, node.properties)];
    SchemaNode(node.key, node.qName, node.nodeType, node.properties, path, parentKey,
        ConvertChildren(node.children, node.key, path))
  }

  function ConvertChildren(children: seq<LoadedNode>, parentKey: string, parentPath: seq<PathItem>): seq<SchemaNode> {
    if children == [] then []
    else [ConvertNode(children[0], Some(parentKey), parentPath)] + ConvertChildren(children[1..], parentKey, parentPath)
  }

  /** One node for every loaded one, in the same order, with its key, name, type and properties; it ends its
      own path, which goes on from its parent's. */
  ghost predicate IsConverted(loaded: LoadedNode, node: SchemaNode)
    decreases loaded
  {
    && node.pathToRoot != []
    && node.pathToRoot[|node.pathToRoot| - 1] == PathItem(node.key, node.qName, Repeating in loaded.properties)
    && node.key == loaded.key && node.qName == loaded.qName && node.nodeType == loaded.nodeType
    && node.nodeProperties == loaded.properties && |node.children| == |loaded.children|
    && forall i :: 0 <= i < |loaded.children| ==>
         && IsConverted(loaded.children[i], node.children[i]) && node.children[i].parentKey == Some(node.key)
         && |node.children[i].pathToRoot| == |node.pathToRoot| + 1 && node.pathToRoot < node.children[i].pathToRoot
  }

  /** Converting a schema loses and changes no node. */
  lemma {:induction false} ConvertingKeepsNodes(node: LoadedNode, parentKey: Option<string>, parentPath: seq<PathItem>)
    ensures IsConverted(node, ConvertNode(node, parentKey, parentPath))
    ensures ConvertNode(node, parentKey, parentPath).parentKey == parentKey
    ensures |ConvertNode(node, parentKey, parentPath).pathToRoot| == |parentPath| + 1
    ensures parentPath < ConvertNode(node, parentKey, parentPath).pathToRoot
    decreases node
  {
    var path := parentPath + [ItemOf(node.key, node.qName, node.properties)];
    ConvertedChildrenAt(node.children, node.key, path);
    forall i | 0 <= i < |node.children|
      ensures var child := ConvertNode(node.children[i], Some(node.key), path);
              && IsConverted(node.children[i], child) && child.parentKey == Some(node.key)
              && |child.pathToRoot| == |path| + 1 && path < child.pathToRoot
    {
      ConvertingKeepsNodes(node.children[i], Some(node.key), path);
    }
  }

  lemma {:induction false} ConvertedChildrenAt(children: seq<LoadedNode>, parentKey: string, parentPath: seq<PathItem>)
    ensures |ConvertChildren(children, parentKey, parentPath)| == |children|
    ensures forall i :: 0 <= i < |children| ==>
              ConvertChildren(children, parentKey, parentPath)[i]
                  == ConvertNode(children[i], Some(parentKey), parentPath)
    decreases |children|
  {
    if children != [] {
      ConvertedChildrenAt(children[1..], parentKey, parentPath);
    }
  }

  // ----- flattening and search

  function FlattenNode(node: SchemaNode): seq<SchemaNode> {
    [node] + FlattenNodes(node.children)
  }

  function FlattenNodes(nodes: seq<SchemaNode>): seq<SchemaNode> {
    if nodes == [] then [] else FlattenNode(nodes[0]) + FlattenNodes(nodes[1..])
  }

  /** A hit in a later child replaces one in an earlier child. */
  function Search(key: string, node: SchemaNode): Option<SchemaNode> {
    if node.key == key then Some(node) else SearchLast(key, node.children)
  }

  function SearchLast(key: string, nodes: seq<SchemaNode>): Option<SchemaNode> {
    if nodes == [] then None
    else
      var later := SearchLast(key, nodes[1..]);
      if later.Some? then later else Search(key, nodes[0])
  }

  method SearchChildrenNodeForKey(key: string, node: SchemaNode) returns (result: Option<SchemaNode>)
    ensures result == Search(key, node)
    decreases node
  {
    if node.key == key {
      return Some(node);
    }
    result := None;
    for i := 0 to |node.children|
      invariant SearchLast(key, node.children) ==
                if SearchLast(key, node.children[i..]).Some? then SearchLast(key, node.children[i..]) else result
    {
      var tempResult := SearchChildrenNodeForKey(key, node.children[i]);
      assert node.children[i..][1..] == node.children[i + 1..];
      if tempResult.Some? {
        result := tempResult;
      }
    }
  }

  lemma {:induction false} FlattenConcat(a: seq<SchemaNode>, b: seq<SchemaNode>)
    ensures FlattenNodes(a + b) == FlattenNodes(a) + FlattenNodes(b)
  {
    if a == [] {
      assert a + b == b;
    } else {
      assert (a + b)[1..] == a[1..] + b;
      FlattenConcat(a[1..], b);
    }
  }

  method NodeCount(node: SchemaNode) returns (result: nat)
    ensures result == |FlattenNode(node)|
    decreases node
  {
    result := 1;
    for i := 0 to |node.children|
      invariant result == 1 + |FlattenNodes(node.children[..i])|
    {
      var count := NodeCount(node.children[i]);
      FlattenConcat(node.children[..i], [node.children[i]]);
      assert node.children[..i + 1] == node.children[..i] + [node.children[i]];
      assert FlattenNodes([node.children[i]]) == FlattenNode(node.children[i]) + FlattenNodes([]);
      result := result + count;
    }
    assert node.children[..|node.children|] == node.children;
  }

  /** The last node of a list with the given key. */
  function LastWithKey(nodes: seq<SchemaNode>, key: string): Option<SchemaNode> {
    if nodes == [] then None
    else
      var later := LastWithKey(nodes[1..], key);
      if later.Some? then later else if nodes[0].key == key then Some(nodes[0]) else None
  }

  function LookUp(dictionary: map<Key, SchemaNode>, key: Key): Option<SchemaNode> {
    if key in dictionary then Some(dictionary[key]) else None
  }

  method FlattenSchemaIntoDictionary(root: SchemaNode, schemaType: SchemaType) returns (result: map<Key, SchemaNode>)
    ensures forall key :: LookUp(result, AddReactFlowPrefix(key, schemaType)) == LastWithKey(FlattenNode(root), key)
    ensures forall k :: k in result ==> exists key :: k == AddReactFlowPrefix(key, schemaType)
  {
    result := map[];
    var nodes := FlattenNode(root);
    for i := 0 to |nodes|
      invariant forall key :: LookUp(result, AddReactFlowPrefix(key, schemaType)) == LastWithKey(nodes[..i], key)
      invariant forall k :: k in result ==> exists key :: k == AddReactFlowPrefix(key, schemaType)
    {
      assert nodes[..i + 1] == nodes[..i] + [nodes[i]];
      forall key
        ensures LastWithKey(nodes[..i + 1], key) == if nodes[i].key == key then Some(nodes[i])
                else LastWithKey(nodes[..i], key)
      {
        LastWithKeyConcat(nodes[..i], [nodes[i]], key);
      }
      result := result[AddReactFlowPrefix(nodes[i].key, schemaType) := nodes[i]];
    }
    assert nodes[..|nodes|] == nodes;
  }

  lemma {:induction false} LastWithKeyConcat(a: seq<SchemaNode>, b: seq<SchemaNode>, key: string)
    ensures LastWithKey(a + b, key) == if LastWithKey(b, key).Some? then LastWithKey(b, key) else LastWithKey(a, key)
  {
    if a == [] {
      assert a + b == b;
    } else {
      assert (a + b)[1..] == a[1..] + b;
      LastWithKeyConcat(a[1..], b, key);
    }
  }

  /** Some node strictly below has the key. */
  predicate Shadowed(node: SchemaNode, key: string) {
    LastWithKey(FlattenNodes(node.children), key).Some?
  }

  /** The index holds, of all nodes with a key, the last one inside the node that search finds. */
  lemma {:induction false} IndexedIsBelowFound(node: SchemaNode, key: string)
    ensures LastWithKey(FlattenNode(node), key) ==
            (match Search(key, node) case None => None case Some(found) => LastWithKey(FlattenNode(found), key))
    decreases node, 1
  {
    assert FlattenNode(node)[1..] == FlattenNodes(node.children);
    if node.key != key {
      IndexedIsBelowFoundIn(node, node.children, key);
    }
  }

  lemma {:induction false} IndexedIsBelowFoundIn(parent: SchemaNode, nodes: seq<SchemaNode>, key: string)
    requires forall n :: n in nodes ==> n in parent.children
    ensures LastWithKey(FlattenNodes(nodes), key) ==
            (match SearchLast(key, nodes) case None => None case Some(found) => LastWithKey(FlattenNode(found), key))
    ensures SearchLast(key, nodes).Some? ==> LastWithKey(FlattenNode(SearchLast(key, nodes).value), key).Some?
    decreases parent, 0, |nodes|
  {
    if nodes != [] {
      assert nodes[0] in nodes;
      IndexedIsBelowFound(nodes[0], key);
      IndexedIsBelowFoundIn(parent, nodes[1..], key);
      LastWithKeyConcat(FlattenNode(nodes[0]), FlattenNodes(nodes[1..]), key);
      FoundIsIndexed(nodes[0], key);
    }
  }

  lemma {:induction false} FoundIsIndexed(node: SchemaNode, key: string)
    ensures Search(key, node).Some? ==>
              Search(key, node).value.key == key && LastWithKey(FlattenNode(Search(key, node).value), key).Some?
    decreases node, 1
  {
    if node.key == key {
      assert FlattenNode(node)[0] == node;
    } else {
      FoundInIsIndexed(node, node.children, key);
    }
  }

  lemma {:induction false} FoundInIsIndexed(parent: SchemaNode, nodes: seq<SchemaNode>, key: string)
    requires forall n :: n in nodes ==> n in parent.children
    ensures SearchLast(key, nodes).Some? ==>
              SearchLast(key, nodes).value.key == key
              && LastWithKey(FlattenNode(SearchLast(key, nodes).value), key).Some?
    decreases parent, 0, |nodes|
  {
    if nodes != [] {
      assert nodes[0] in nodes;
      FoundIsIndexed(nodes[0], key);
      FoundInIsIndexed(parent, nodes[1..], key);
    }
  }

  lemma {:induction false} BelowIsSmaller(nodes: seq<SchemaNode>, key: string)
    ensures LastWithKey(FlattenNodes(nodes), key).Some? ==>
              |FlattenNode(LastWithKey(FlattenNodes(nodes), key).value)| <= |FlattenNodes(nodes)|
    decreases nodes
  {
    if nodes != [] {
      BelowIsSmaller(nodes[0].children, key);
      BelowIsSmaller(nodes[1..], key);
      assert FlattenNode(nodes[0])[1..] == FlattenNodes(nodes[0].children);
      LastWithKeyConcat(FlattenNode(nodes[0]), FlattenNodes(nodes[1..]), key);
    }
  }

  /** Index and search part exactly where the node found has another one with its key below it. */
  lemma AgreesUnlessShadowed(root: SchemaNode, key: string)
    ensures LastWithKey(FlattenNode(root), key) == Search(key, root)
            <==> (Search(key, root).Some? ==> !Shadowed(Search(key, root).value, key))
  {
    IndexedIsBelowFound(root, key);
    FoundIsIndexed(root, key);
    if Search(key, root).Some? {
      var found := Search(key, root).value;
      assert FlattenNode(found)[1..] == FlattenNodes(found.children);
      BelowIsSmaller(found.children, key);
    }
  }

  lemma {:induction false} LastWithKeyIsLast(nodes: seq<SchemaNode>, key: string)
    ensures LastWithKey(nodes, key).None? <==> forall i :: 0 <= i < |nodes| ==> nodes[i].key != key
  {
    if nodes != [] {
      LastWithKeyIsLast(nodes[1..], key);
      assert forall i :: 0 < i < |nodes| ==> nodes[i] == nodes[1..][i - 1];
      if LastWithKey(nodes, key).None? {
        assert forall i :: 0 <= i < |nodes[1..]| ==> nodes[1..][i].key != key;
      }
    }
  }

  /** The nodes below one node follow it in the flattened list without a gap, inside every list it is in. */
  lemma {:induction false} PieceFits(nodes: seq<SchemaNode>, a: nat)
    requires a < |FlattenNodes(nodes)|
    ensures a + |FlattenNode(FlattenNodes(nodes)[a])| <= |FlattenNodes(nodes)|
    decreases nodes
  {
    var first := FlattenNode(nodes[0]);
    if a == 0 {
    } else if a < |first| {
      assert first[a] == FlattenNodes(nodes[0].children)[a - 1];
      PieceFits(nodes[0].children, a - 1);
    } else {
      PieceFits(nodes[1..], a - |first|);
    }
  }

  /** The found node stands at f with everything below it, no node after that has the key, and no node
      that the found one is below has it. */
  ghost predicate IsFoundAt(nodes: seq<SchemaNode>, f: nat, found: SchemaNode, key: string) {
    && f + |FlattenNode(found)| <= |nodes| && nodes[f..f + |FlattenNode(found)|] == FlattenNode(found)
    && found.key == key
    && (forall j :: f + |FlattenNode(found)| <= j < |nodes| ==> nodes[j].key != key)
    && (forall a :: 0 <= a < f && nodes[a].key == key ==> a + |FlattenNode(nodes[a])| <= f)
  }

  lemma {:induction false} FoundAt(node: SchemaNode, key: string) returns (f: nat)
    requires Search(key, node).Some?
    ensures IsFoundAt(FlattenNode(node), f, Search(key, node).value, key)
    decreases node, 1
  {
    f := 0;
    if node.key != key {
      var below := FoundInAt(node, node.children, key);
      f := below + 1;
      FoundAfter([node], FlattenNodes(node.children), below, Search(key, node).value, key);
    }
  }

  /** A list in front without the key moves the position. */
  lemma FoundAfter(before: seq<SchemaNode>, nodes: seq<SchemaNode>, f: nat, found: SchemaNode, key: string)
    requires IsFoundAt(nodes, f, found, key)
    requires forall a :: 0 <= a < |before| && before[a].key == key ==> a + |FlattenNode(before[a])| <= |before|
    ensures IsFoundAt(before + nodes, |before| + f, found, key)
  {
    hide FlattenNode;
    var all, n, size := before + nodes, |before|, |FlattenNode(found)|;
    assert all[n + f..n + f + size] == nodes[f..f + size];
    forall j | n + f + size <= j < |all| ensures all[j].key != key {
      assert all[j] == nodes[j - n];
    }
    forall a | 0 <= a < n + f && all[a].key == key ensures a + |FlattenNode(all[a])| <= n + f {
      if a >= n { assert all[a] == nodes[a - n]; }
    }
  }

  lemma FoundBefore(nodes: seq<SchemaNode>, after: seq<SchemaNode>, f: nat, found: SchemaNode, key: string)
    requires IsFoundAt(nodes, f, found, key) && forall j :: 0 <= j < |after| ==> after[j].key != key
    ensures IsFoundAt(nodes + after, f, found, key)
  {
    hide FlattenNode;
    var all, size := nodes + after, |FlattenNode(found)|;
    assert all[f..f + size] == nodes[f..f + size];
    forall j | f + size <= j < |all| ensures all[j].key != key {
      if j >= |nodes| { assert all[j] == after[j - |nodes|]; } else { assert all[j] == nodes[j]; }
    }
  }

  lemma {:induction false} FoundInAt(parent: SchemaNode, nodes: seq<SchemaNode>, key: string) returns (f: nat)
    requires forall n :: n in nodes ==> n in parent.children
    requires SearchLast(key, nodes).Some?
    ensures IsFoundAt(FlattenNodes(nodes), f, SearchLast(key, nodes).value, key)
    decreases parent, 0, |nodes|
  {
    assert nodes[0] in nodes;
    var first, rest := FlattenNode(nodes[0]), FlattenNodes(nodes[1..]);
    assert FlattenNodes(nodes) == first + rest;
    hide FlattenNode, FlattenNodes, IsFoundAt;
    if SearchLast(key, nodes[1..]).Some? {
      var later := FoundInAt(parent, nodes[1..], key);
      f := |first| + later;
      OnePieceFits(nodes[0]);
      FoundAfter(first, rest, later, SearchLast(key, nodes).value, key);
    } else {
      f := FoundAt(nodes[0], key);
      IndexedIsBelowFoundIn(parent, nodes[1..], key);
      LastWithKeyIsLast(rest, key);
      FoundBefore(first, rest, f, SearchLast(key, nodes).value, key);
    }
  }

  lemma OnePieceFits(node: SchemaNode)
    ensures forall a :: 0 <= a < |FlattenNode(node)| ==> a + |FlattenNode(FlattenNode(node)[a])| <= |FlattenNode(node)|
  {
    assert FlattenNodes([node]) == FlattenNode(node) + FlattenNodes([]);
    forall a | 0 <= a < |FlattenNode(node)| ensures a + |FlattenNode(FlattenNode(node)[a])| <= |FlattenNode(node)| {
      PieceFits([node], a);
    }
  }

  /** The last node of the list that has the key is below another one that has it. */
  ghost predicate IsLastBelowAnother(nodes: seq<SchemaNode>, key: string, upper: int, last: int) {
    && 0 <= upper < last < |nodes| && last < upper + |FlattenNode(nodes[upper])|
    && nodes[upper].key == key && nodes[last].key == key
    && forall j :: last < j < |nodes| ==> nodes[j].key != key
  }

  lemma FoundPiece(nodes: seq<SchemaNode>, f: nat, found: SchemaNode, key: string)
    requires IsFoundAt(nodes, f, found, key)
    ensures nodes[f] == found && |FlattenNode(found)| == |FlattenNodes(found.children)| + 1
    ensures forall j :: f < j < f + |FlattenNode(found)| ==> nodes[j] == FlattenNodes(found.children)[j - f - 1]
  {
    var piece := FlattenNode(found);
    assert forall j :: 0 <= j < |piece| ==> piece[j] == nodes[f..f + |piece|][j] == nodes[f + j];
    forall j | f < j < f + |piece| ensures nodes[j] == FlattenNodes(found.children)[j - f - 1] {
      assert piece[j - f] == FlattenNodes(found.children)[j - f - 1];
    }
  }

  lemma ShadowedIff(nodes: seq<SchemaNode>, f: nat, found: SchemaNode, key: string)
    requires IsFoundAt(nodes, f, found, key)
    ensures Shadowed(found, key) <==> exists upper, last :: IsLastBelowAnother(nodes, key, upper, last)
  {
    FoundPiece(nodes, f, found, key);
    hide FlattenNode, FlattenNodes;
    var below := FlattenNodes(found.children);
    LastWithKeyIsLast(below, key);
    if Shadowed(found, key) {
      var j :| 0 <= j < |below| && below[j].key == key;
      assert nodes[f + 1 + j] == below[f + 1 + j - f - 1];
      var last := LastIndex(nodes, key, f + 1 + j);
      assert IsLastBelowAnother(nodes, key, f, last);
    }
    if upper, last :| IsLastBelowAnother(nodes, key, upper, last) {
      assert f <= last && f <= upper;
      assert nodes[last] == below[last - f - 1];
    }
  }

  /** Index and search agree on a key, present or absent, exactly when the last node with that key, in
      document order, is not below another node with it. */
  lemma IndexAgreesWithSearchIff(root: SchemaNode, key: string)
    ensures LastWithKey(FlattenNode(root), key) == Search(key, root)
            <==> !exists upper, last :: IsLastBelowAnother(FlattenNode(root), key, upper, last)
  {
    AgreesUnlessShadowed(root, key);
    if Search(key, root).None? {
      IndexedIsBelowFound(root, key);
      LastWithKeyIsLast(FlattenNode(root), key);
    } else {
      var f := FoundAt(root, key);
      ShadowedIff(FlattenNode(root), f, Search(key, root).value, key);
    }
  }

  lemma {:induction false} LastIndex(nodes: seq<SchemaNode>, key: string, i: nat) returns (last: nat)
    requires i < |nodes| && nodes[i].key == key
    ensures i <= last < |nodes| && nodes[last].key == key && forall j :: last < j < |nodes| ==> nodes[j].key != key
    decreases |nodes| - i
  {
    last := i;
    if j :| i < j < |nodes| && nodes[j].key == key {
      last := LastIndex(nodes, key, j);
    }
  }

  /** With unique keys the index and the search agree on every key, present or absent. */
  lemma UniqueKeysAgree(root: SchemaNode, key: string)
    requires UniqueKeys(FlattenNode(root))
    ensures LastWithKey(FlattenNode(root), key) == Search(key, root)
  {
    IndexAgreesWithSearchIff(root, key);
  }

  // ----- paths to the root

  function ItemFor(node: SchemaNode): PathItem {
    ItemOf(node.key, node.qName, node.nodeProperties)
  }

  /** The parent as the node's own path and parentKey describe it. */
  ghost predicate IsParent(parent: SchemaNode, node: SchemaNode) {
    && node.parentKey == Some(parent.key)
    && node.pathToRoot == parent.pathToRoot + [ItemFor(node)]
  }

  /** Below a converted node, every path is the parent's path and the node itself. */
  ghost predicate Rooted(node: SchemaNode, top: SchemaNode, nodes: seq<SchemaNode>) {
    node == top || exists parent :: parent in nodes && IsParent(parent, node)
  }

  lemma {:induction false} ConvertedPaths(node: LoadedNode, parentKey: Option<string>, parentPath: seq<PathItem>)
    ensures var top := ConvertNode(node, parentKey, parentPath);
            && (forall n :: n in FlattenNode(top) ==> Rooted(n, top, FlattenNode(top)))
            && (forall n :: n in FlattenNode(top) ==>
                  n.pathToRoot != [] && n.pathToRoot[|n.pathToRoot| - 1] == ItemFor(n))
    decreases node, 1
  {
    var top := ConvertNode(node, parentKey, parentPath);
    assert top in FlattenNode(top);
    ConvertedChildrenPaths(node, node.children, top);
  }

  lemma {:induction false} ConvertedChildrenPaths(parent: LoadedNode, children: seq<LoadedNode>, top: SchemaNode)
    requires forall c :: c in children ==> c in parent.children
    requires top.key == parent.key && top.pathToRoot != []
    ensures var below := FlattenNodes(ConvertChildren(children, top.key, top.pathToRoot));
            && (forall n :: n in below ==> IsParent(top, n) || exists p :: p in below && IsParent(p, n))
            && (forall n :: n in below ==> n.pathToRoot != [] && n.pathToRoot[|n.pathToRoot| - 1] == ItemFor(n))
    decreases parent, 0, |children|
  {
    if children != [] {
      assert children[0] in children;
      var child := ConvertNode(children[0], Some(top.key), top.pathToRoot);
      ConvertedPaths(children[0], Some(top.key), top.pathToRoot);
      ConvertedChildrenPaths(parent, children[1..], top);
      assert IsParent(top, child);
      var rest := FlattenNodes(ConvertChildren(children[1..], top.key, top.pathToRoot));
      assert FlattenNodes(ConvertChildren(children, top.key, top.pathToRoot)) == FlattenNode(child) + rest;
      forall n | n in FlattenNode(child) + rest
        ensures IsParent(top, n) || exists p :: p in FlattenNode(child) + rest && IsParent(p, n)
      {
      }
    }
  }

  ghost predicate UniqueKeys(nodes: seq<SchemaNode>) {
    forall i, j :: 0 <= i < j < |nodes| ==> nodes[i].key != nodes[j].key
  }

  lemma {:induction false} UniqueLookUp(nodes: seq<SchemaNode>, i: nat)
    requires UniqueKeys(nodes) && i < |nodes|
    ensures LastWithKey(nodes, nodes[i].key) == Some(nodes[i])
  {
    if i > 0 {
      UniqueLookUp(nodes[1..], i - 1);
    } else {
      AbsentLookUp(nodes[1..], nodes[0].key);
    }
  }

  lemma {:induction false} AbsentLookUp(nodes: seq<SchemaNode>, key: string)
    ensures LastWithKey(nodes, key).Some? ==>
            LastWithKey(nodes, key).value in nodes && LastWithKey(nodes, key).value.key == key
  {
    if nodes != [] {
      AbsentLookUp(nodes[1..], key);
    }
  }

  /** An index in which every node knows its key, ends its own path, and is reached from an indexed
      parent; only a node alone on its path has no parent. */
  ghost predicate Consistent(index: map<Key, SchemaNode>, schemaType: SchemaType) {
    forall key :: AddReactFlowPrefix(key, schemaType) in index ==>
      var node := index[AddReactFlowPrefix(key, schemaType)];
      && node.key == key
      && |node.pathToRoot| > 0
      && node.pathToRoot[|node.pathToRoot| - 1] == ItemFor(node)
      && (if |node.pathToRoot| == 1 then node.parentKey == None else HasIndexedParent(index, schemaType, node))
  }

  ghost predicate HasIndexedParent(index: map<Key, SchemaNode>, schemaType: SchemaType, node: SchemaNode) {
    && node.parentKey.Some?
    && AddReactFlowPrefix(node.parentKey.value, schemaType) in index
    && IsParent(index[AddReactFlowPrefix(node.parentKey.value, schemaType)], node)
  }

  lemma ParentOf(root: LoadedNode, node: SchemaNode) returns (parent: SchemaNode)
    requires node in FlattenNode(ConvertNode(root, None, [])) && node != ConvertNode(root, None, [])
    ensures parent in FlattenNode(ConvertNode(root, None, [])) && IsParent(parent, node)
  {
    hide IsParent, FlattenNode, ConvertNode;
    ConvertedPaths(root, None, []);
    var nodes := FlattenNode(ConvertNode(root, None, []));
    assert Rooted(node, ConvertNode(root, None, []), nodes);
    parent :| parent in nodes && IsParent(parent, node);
  }

  /** The last node with a key of its own is the one under that key. */
  lemma UniqueIsIndexed(nodes: seq<SchemaNode>, node: SchemaNode)
    requires UniqueKeys(nodes) && node in nodes
    ensures LastWithKey(nodes, node.key) == Some(node)
  {
    var i :| 0 <= i < |nodes| && nodes[i] == node;
    UniqueLookUp(nodes, i);
  }

  lemma IndexedNodeIsConsistent(root: LoadedNode, index: map<Key, SchemaNode>, schemaType: SchemaType, node: SchemaNode)
    requires UniqueKeys(FlattenNode(ConvertNode(root, None, [])))
    requires forall key ::
             LookUp(index, AddReactFlowPrefix(key, schemaType))
                 == LastWithKey(FlattenNode(ConvertNode(root, None, [])), key)
    requires node in FlattenNode(ConvertNode(root, None, []))
    ensures |node.pathToRoot| > 0 && node.pathToRoot[|node.pathToRoot| - 1] == ItemFor(node)
    ensures if |node.pathToRoot| == 1 then node.parentKey == None else HasIndexedParent(index, schemaType, node)
  {
    hide UniqueKeys, FlattenNode;
    var top := ConvertNode(root, None, []);
    ConvertedPaths(root, None, []);
    if node != top {
      var parent := ParentOf(root, node);
      UniqueIsIndexed(FlattenNode(top), parent);
      assert LookUp(index, AddReactFlowPrefix(parent.key, schemaType)) == Some(parent);
    }
  }

  /** The index of a converted schema with unique keys is consistent. */
  lemma ConvertedIndexIsConsistent(root: LoadedNode, index: map<Key, SchemaNode>, schemaType: SchemaType)
    requires UniqueKeys(FlattenNode(ConvertNode(root, None, [])))
    requires forall key ::
             LookUp(index, AddReactFlowPrefix(key, schemaType))
                 == LastWithKey(FlattenNode(ConvertNode(root, None, [])), key)
    ensures Consistent(index, schemaType)
  {
    hide UniqueKeys, FlattenNode, ConvertNode, HasIndexedParent, IsParent;
    var nodes := FlattenNode(ConvertNode(root, None, []));
    forall key | AddReactFlowPrefix(key, schemaType) in index
      ensures var node := index[AddReactFlowPrefix(key, schemaType)];
              && node.key == key
              && |node.pathToRoot| > 0
              && node.pathToRoot[|node.pathToRoot| - 1] == ItemFor(node)
              && (if |node.pathToRoot| == 1 then node.parentKey == None else HasIndexedParent(index, schemaType, node))
    {
      AbsentLookUp(nodes, key);
      assert LookUp(index, AddReactFlowPrefix(key, schemaType)) == LastWithKey(nodes, key);
      IndexedNodeIsConsistent(root, index, schemaType, index[AddReactFlowPrefix(key, schemaType)]);
    }
  }
}
