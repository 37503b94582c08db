/** Linking the repeating parents of two connected nodes
    (addParentConnectionForRepeatingElementsNested in DataMap.Utils.ts). */
module RepeatingParents {
  import opened Model
  import opened Graphs
  import opened Connections
  import opened Traversals
  import opened ConnectionInvariants
  import opened Schemas

  type SchemaIndex = map<Key, SchemaNode>

  /** findLast over a path to the root. */
  function LastRepeating(path: seq<PathItem>): (r: Option<PathItem>)
    ensures r.Some? ==> r.value.repeating && r.value in path
  {
    if path == [] then None
    else if path[|path| - 1].repeating then Some(path[|path| - 1])
    else LastRepeating(path[..|path| - 1])
  }

  /** The repeating items of a path, from the root down. */
  function Repeatings(path: seq<PathItem>): seq<PathItem> {
    if path == [] then []
    else
      var last := path[|path| - 1];
      Repeatings(path[..|path| - 1]) + if last.repeating then [last] else []
  }

  lemma {:induction false} LastOfRepeatings(path: seq<PathItem>)
    ensures LastRepeating(path).None? <==> Repeatings(path) == []
    ensures LastRepeating(path).Some? ==>
              exists i :: 0 <= i < |path| && path[i] == LastRepeating(path).value
                          && Repeatings(path) == Repeatings(path[..i]) + [path[i]]
  {
    if path != [] && !path[|path| - 1].repeating {
      var front := path[..|path| - 1];
      LastOfRepeatings(front);
      if LastRepeating(front).Some? {
        var i :| 0 <= i < |front| && front[i] == LastRepeating(front).value
                 && Repeatings(front) == Repeatings(front[..i]) + [front[i]];
        assert front[..i] == path[..i];
      }
    }
  }

  // ----- schema indexes

  ghost predicate Known(index: SchemaIndex, schemaType: SchemaType, node: SchemaNode) {
    LookUp(index, AddReactFlowPrefix(node.key, schemaType)) == Some(node)
  }

  /** Those items of the node's path that are indexed have the path that leads to them. */
  ghost predicate FitsIndex(index: SchemaIndex, schemaType: SchemaType, node: SchemaNode) {
    forall i :: 0 <= i < |node.pathToRoot| ==>
      var key := AddReactFlowPrefix(node.pathToRoot[i].key, schemaType);
      key in index ==> index[key].pathToRoot == node.pathToRoot[..i + 1]
  }

  ghost predicate AllIndexed(index: SchemaIndex, schemaType: SchemaType, node: SchemaNode) {
    forall i :: 0 <= i < |node.pathToRoot| ==> AddReactFlowPrefix(node.pathToRoot[i].key, schemaType) in index
  }

  /** A consistent index whose root does not repeat and whose keys are not empty. */
  ghost predicate IsSchemaIndex(index: SchemaIndex, schemaType: SchemaType) {
    && Consistent(index, schemaType)
    && AddReactFlowPrefix("", schemaType) !in index
    && forall key :: AddReactFlowPrefix(key, schemaType) in index ==>
         var node := index[AddReactFlowPrefix(key, schemaType)];
         |node.pathToRoot| == 1 ==> !IsRepeating(node)
  }

  lemma {:induction false} KnownFits(index: SchemaIndex, schemaType: SchemaType, node: SchemaNode)
    requires Consistent(index, schemaType) && Known(index, schemaType, node)
    ensures FitsIndex(index, schemaType, node) && AllIndexed(index, schemaType, node)
    decreases |node.pathToRoot|
  {
    hide FitsIndex, AllIndexed;
    if |node.pathToRoot| > 1 {
      var parent := index[AddReactFlowPrefix(node.parentKey.value, schemaType)];
      KnownFits(index, schemaType, parent);
      ChildFits(index, schemaType, parent, node);
    } else {
      AloneFits(index, schemaType, node);
    }
  }

  lemma AloneFits(index: SchemaIndex, schemaType: SchemaType, node: SchemaNode)
    requires Known(index, schemaType, node) && node.pathToRoot == [ItemFor(node)]
    ensures FitsIndex(index, schemaType, node) && AllIndexed(index, schemaType, node)
  {
  }

  lemma ChildFits(index: SchemaIndex, schemaType: SchemaType, parent: SchemaNode, node: SchemaNode)
    requires Known(index, schemaType, node) && IsParent(parent, node)
    requires FitsIndex(index, schemaType, parent) && AllIndexed(index, schemaType, parent)
    ensures FitsIndex(index, schemaType, node) && AllIndexed(index, schemaType, node)
  {
    var path, last := node.pathToRoot, |node.pathToRoot| - 1;
    assert path[..last + 1] == path;
    forall i | 0 <= i < last
      ensures AddReactFlowPrefix(path[i].key, schemaType) in index
      ensures index[AddReactFlowPrefix(path[i].key, schemaType)].pathToRoot == path[..i + 1]
    {
      assert parent.pathToRoot[i] == path[i] && parent.pathToRoot[..i + 1] == path[..i + 1];
    }
  }

  /** A repeating item found on a path is a repeating node with a parent, and its parent's path is
      what precedes the item. */
  lemma FirstRepeatingNode(index: SchemaIndex, schemaType: SchemaType, node: SchemaNode)
    requires IsSchemaIndex(index, schemaType) && FitsIndex(index, schemaType, node)
    requires LastRepeating(node.pathToRoot).Some?
    requires AddReactFlowPrefix(LastRepeating(node.pathToRoot).value.key, schemaType) in index
    ensures var item := LastRepeating(node.pathToRoot).value;
            var first := index[AddReactFlowPrefix(item.key, schemaType)];
            && first.key == item.key && IsRepeating(first)
            && HasIndexedParent(index, schemaType, first) && first.parentKey != Some("")
            && var parent := index[AddReactFlowPrefix(first.parentKey.value, schemaType)];
            && Known(index, schemaType, parent)
            && |parent.pathToRoot| < |first.pathToRoot| <= |node.pathToRoot|
            && Repeatings(node.pathToRoot) == Repeatings(parent.pathToRoot) + [item]
            && Repeatings(first.pathToRoot) == Repeatings(node.pathToRoot)
  {
    LastOfRepeatings(node.pathToRoot);
    var path := node.pathToRoot;
    var item := LastRepeating(path).value;
    var i :| 0 <= i < |path| && path[i] == item && Repeatings(path) == Repeatings(path[..i]) + [path[i]];
    var first := index[AddReactFlowPrefix(item.key, schemaType)];
    assert first.pathToRoot == path[..i + 1];
    assert ItemFor(first) == path[..i + 1][i] == item;
    assert path[..i + 1][..i] == path[..i];
    var parent := index[AddReactFlowPrefix(first.parentKey.value, schemaType)];
    assert parent.pathToRoot == first.pathToRoot[..i];
  }

  // ----- dictionaries the walk can work on

  /** Inputs are mirrored and acyclic, source nodes take no inputs, and target nodes have a slot. */
  ghost predicate Ready(d: ConnectionDictionary) {
    && Mirror(d) && Tidy(d) && Acyclic(InGraph(d))
    && (forall path, s :: SourceKey(path) in d ==> !Holds(d[SourceKey(path)].inputs, s))
    && (forall path :: TargetKey(path) in d ==> d[TargetKey(path)].inputs != [])
  }

  function ParentLink(source: SchemaNode, target: SchemaNode): Action {
    LinkAction(ConnectionUnit(Schema(target), TargetKey(target.key)),
        Put(Linked(ConnectionUnit(Schema(source), SourceKey(source.key)))))
  }

  /** The inputs graph grows by the one edge. */
  ghost predicate GrowsBy(g: Graph<Key>, h: Graph<Key>, target: Key, source: Key) {
    && Subgraph(g, h) && AddsAtMost(g, h, target, source)
    && source in Successors(h, target)
  }

  lemma AppendHolds(inputs: seq<seq<InputConnection>>, unit: ConnectionUnit, s: Key)
    requires inputs != []
    ensures Holds(inputs[0 := inputs[0] + [Linked(unit)]], s) <==> Holds(inputs, s) || s == unit.reactFlowKey
  {
    var after := inputs[0 := inputs[0] + [Linked(unit)]];
    assert HoldsAt(after, 0, |inputs[0]|, unit.reactFlowKey);
    if i, j :| HoldsAt(inputs, i, j, s) {
      assert HoldsAt(after, i, j, s);
    }
    if i, j :| HoldsAt(after, i, j, s) && s != unit.reactFlowKey {
      assert HoldsAt(inputs, i, j, s);
    }
  }

  lemma LinkStores(d: ConnectionDictionary, source: SchemaNode, target: SchemaNode)
    requires Ready(d) && IsRepeating(target)
    ensures var a := ParentLink(source, target);
            && Apply(d, a).Some? && InputsBefore(d, a) != []
            && Apply(d, a).value[a.targetKey].inputs == InputsBefore(d, a)[0 := InputsBefore(d, a)[0] + [a.write.input]]
  {
    var a := ParentLink(source, target);
    assert InputsBefore(d, a) != [];
    assert Apply(d, a).Some?;
    StoredInputs(d, a);
  }

  lemma LinkHolds(d: ConnectionDictionary, source: SchemaNode, target: SchemaNode, k: Key, s: Key)
    requires Ready(d) && IsRepeating(target) && Apply(d, ParentLink(source, target)).Some?
    requires k in Apply(d, ParentLink(source, target)).value
    ensures Holds(Apply(d, ParentLink(source, target)).value[k].inputs, s)
            <==> (k in d && Holds(d[k].inputs, s)) || (k == TargetKey(target.key) && s == SourceKey(source.key))
  {
    hide Apply, Mirror, Tidy, Acyclic, Holds;
    var a := ParentLink(source, target);
    LinkStores(d, source, target);
    ApplyEffect(d, a);
    AppendHolds(InputsBefore(d, a), a.write.input.unit, s);
    EntryHoldsNothing(a.target, s);
    EntryHoldsNothing(a.write.input.unit.node, s);
  }

  lemma ParentLinkGrows(d: ConnectionDictionary, source: SchemaNode, target: SchemaNode)
    requires Ready(d) && IsRepeating(target) && Apply(d, ParentLink(source, target)).Some?
    ensures GrowsBy(InGraph(d), InGraph(Apply(d, ParentLink(source, target)).value), TargetKey(target.key),
            SourceKey(source.key))
  {
    var e := Apply(d, ParentLink(source, target)).value;
    hide Apply, Ready, Holds, ParentLink, InGraph;
    LinkDomain(d, source, target);
    forall k, s ensures s in Successors(InGraph(e), k) <==>
                        s in Successors(InGraph(d), k) || (k == TargetKey(target.key) && s == SourceKey(source.key))
    {
      SuccessorsAreHeld(d, k, s);
      SuccessorsAreHeld(e, k, s);
      if k in e {
        LinkHolds(d, source, target, k, s);
      }
    }
  }

  lemma SuccessorsAreHeld(d: ConnectionDictionary, k: Key, s: Key)
    ensures s in Successors(InGraph(d), k) <==> k in d && Holds(d[k].inputs, s)
  {
    if k in d { HeldIsSuccessor(d, k, s); }
  }

  lemma LinkDomain(d: ConnectionDictionary, source: SchemaNode, target: SchemaNode)
    requires Apply(d, ParentLink(source, target)).Some?
    ensures Apply(d, ParentLink(source, target)).value.Keys == d.Keys + {TargetKey(target.key), SourceKey(source.key)}
  {
    ApplyEffect(d, ParentLink(source, target));
  }

  lemma SourceReachesOnlyItself(d: ConnectionDictionary, path: string, k: Key)
    requires Ready(d) && Reaches(InGraph(d), SourceKey(path), k)
    ensures k == SourceKey(path)
  {
    hide Reaches, Acyclic, Mirror, Tidy, Holds;
    ReachesUnfold(InGraph(d), SourceKey(path), k);
    if n :| n in Successors(InGraph(d), SourceKey(path)) {
      HeldIsSuccessor(d, SourceKey(path), n);
    }
  }

  lemma LinkKeepsShape(d: ConnectionDictionary, source: SchemaNode, target: SchemaNode)
    requires Ready(d) && IsRepeating(target) && Apply(d, ParentLink(source, target)).Some?
    ensures var e := Apply(d, ParentLink(source, target)).value;
            && (forall path, s :: SourceKey(path) in e ==> !Holds(e[SourceKey(path)].inputs, s))
            && (forall path :: TargetKey(path) in e ==> e[TargetKey(path)].inputs != [])
  {
    var e := Apply(d, ParentLink(source, target)).value;
    LinkStores(d, source, target);
    ApplyEffect(d, ParentLink(source, target));
    hide Apply, Mirror, Tidy, Acyclic, Holds;
    forall path, s | SourceKey(path) in e ensures !Holds(e[SourceKey(path)].inputs, s) {
      LinkHolds(d, source, target, SourceKey(path), s);
    }
  }

  lemma LinkKeepsReady(d: ConnectionDictionary, source: SchemaNode, target: SchemaNode)
    requires Ready(d) && IsRepeating(target)
    ensures var after := Apply(d, ParentLink(source, target));
            && after.Some? && Ready(after.value)
            && GrowsBy(InGraph(d), InGraph(after.value), TargetKey(target.key), SourceKey(source.key))
  {
    var a := ParentLink(source, target);
    LinkStores(d, source, target);
    var e := Apply(d, a).value;
    hide Apply, Mirror, Tidy, Acyclic, Holds, Reaches, InGraph;
    FindSlotKeepsMirror(d, a);
    ApplyKeepsTidy(d, a);
    ParentLinkGrows(d, source, target);
    LinkKeepsShape(d, source, target);
    if Reaches(InGraph(d), SourceKey(source.key), TargetKey(target.key)) {
      SourceReachesOnlyItself(d, source.key, TargetKey(target.key));
    }
    AddEdgeAcyclic(InGraph(d), InGraph(e), TargetKey(target.key), SourceKey(source.key));
  }

  // ----- the walk up both paths

  ghost predicate CanLink(d: ConnectionDictionary, source: SchemaNode, target: SchemaNode, si: SchemaIndex,
                          ti: SchemaIndex) {
    && Ready(d)
    && IsSchemaIndex(si, Source) && FitsIndex(si, Source, source)
    && IsSchemaIndex(ti, Target) && Known(ti, Target, target)
  }

  function LinkFirst(d: ConnectionDictionary, source: SchemaNode, target: SchemaNode): ConnectionDictionary
    requires Ready(d) && IsRepeating(target)
  {
    LinkKeepsReady(d, source, target);
    if NodeHasSpecificInputEventually(Exactly(SourceKey(source.key)), TargetKey(target.key), d) then d
    else Apply(d, ParentLink(source, target)).value
  }

  /** The target moves up only while something above it repeats. */
  function NextTarget(first: SchemaNode, ti: SchemaIndex): SchemaNode
    requires HasIndexedParent(ti, Target, first)
  {
    var parent := ti[TargetKey(first.parentKey.value)];
    if LastRepeating(parent.pathToRoot).None? then first else parent
  }

  lemma ReadyIsAcyclic(d: ConnectionDictionary)
    requires Ready(d)
    ensures Acyclic(InGraph(d))
  {
  }

  /** Source and target of the next round. */
  function Ascend(source: SchemaNode, target: SchemaNode, si: SchemaIndex, ti: SchemaIndex) : (SchemaNode, SchemaNode)
    requires HasIndexedParent(si, Source, source) && HasIndexedParent(ti, Target, target)
  {
    (si[SourceKey(source.parentKey.value)], NextTarget(target, ti))
  }

  ghost predicate StepWorks(d: ConnectionDictionary, source: SchemaNode, target: SchemaNode, si: SchemaIndex,
                            ti: SchemaIndex, fs: SchemaNode, ft: SchemaNode)
    requires Ready(d)
  {
    && IsRepeating(ft) && HasIndexedParent(si, Source, fs) && HasIndexedParent(ti, Target, ft)
    && CanLink(LinkFirst(d, fs, ft), Ascend(fs, ft, si, ti).0, Ascend(fs, ft, si, ti).1, si, ti)
    && Known(si, Source, Ascend(fs, ft, si, ti).0)
    && |Ascend(fs, ft, si, ti).0.pathToRoot| < |source.pathToRoot|
  }

  lemma StepIsFine(d: ConnectionDictionary, source: SchemaNode, target: SchemaNode, si: SchemaIndex, ti: SchemaIndex)
    requires CanLink(d, source, target, si, ti)
    requires LastRepeating(source.pathToRoot).Some? && LastRepeating(target.pathToRoot).Some?
    requires SourceKey(LastRepeating(source.pathToRoot).value.key) in si
    ensures TargetKey(LastRepeating(target.pathToRoot).value.key) in ti
    ensures var fs := si[SourceKey(LastRepeating(source.pathToRoot).value.key)];
            var ft := ti[TargetKey(LastRepeating(target.pathToRoot).value.key)];
            && StepWorks(d, source, target, si, ti, fs, ft)
            && Repeatings(source.pathToRoot)
                  == Repeatings(Ascend(fs, ft, si, ti).0.pathToRoot) + [LastRepeating(source.pathToRoot).value]
            && (if |Repeatings(target.pathToRoot)| > 1
                then Repeatings(target.pathToRoot)
                    == Repeatings(Ascend(fs, ft, si, ti).1.pathToRoot) + [LastRepeating(target.pathToRoot).value]
                else Repeatings(target.pathToRoot) == Repeatings(Ascend(fs, ft, si, ti).1.pathToRoot)
                    == [LastRepeating(target.pathToRoot).value])
            && fs.key == LastRepeating(source.pathToRoot).value.key
            && ft.key == LastRepeating(target.pathToRoot).value.key
  {
    hide Repeatings, LastRepeating, Ready, FitsIndex, Consistent, IsParent, NodeHasSpecificInputEventually, Apply;
    var fi, gi := LastRepeating(source.pathToRoot).value, LastRepeating(target.pathToRoot).value;
    TargetIsIndexed(target, ti);
    FirstRepeatingNode(si, Source, source);
    FirstRepeatingNode(ti, Target, target);
    var fs, ft := si[SourceKey(fi.key)], ti[TargetKey(gi.key)];
    LinkKeepsReady(d, fs, ft);
    LastOfRepeatings(ti[TargetKey(ft.parentKey.value)].pathToRoot);
    KnownFits(si, Source, si[SourceKey(fs.parentKey.value)]);
  }

  lemma TargetIsIndexed(target: SchemaNode, ti: SchemaIndex)
    requires IsSchemaIndex(ti, Target) && Known(ti, Target, target) && LastRepeating(target.pathToRoot).Some?
    ensures TargetKey(LastRepeating(target.pathToRoot).value.key) in ti && FitsIndex(ti, Target, target)
    ensures ti[TargetKey(LastRepeating(target.pathToRoot).value.key)].key == LastRepeating(target.pathToRoot).value.key
  {
    KnownFits(ti, Target, target);
  }

  /** The dictionary afterwards, and whether any link was added. */
  function LinkParents(d: ConnectionDictionary, source: SchemaNode, target: SchemaNode, si: SchemaIndex,
                       ti: SchemaIndex)
    : (ConnectionDictionary, bool)
    requires CanLink(d, source, target, si, ti)
    decreases |source.pathToRoot|
  {
    if source.parentKey.None? || source.parentKey == Some("") then (d, false)
    else
      var targetItem, sourceItem := LastRepeating(target.pathToRoot), LastRepeating(source.pathToRoot);
      if targetItem.None? || sourceItem.None? || SourceKey(sourceItem.value.key) !in si then (d, false)
      else
        StepIsFine(d, source, target, si, ti);
        var fs, ft := si[SourceKey(sourceItem.value.key)], ti[TargetKey(targetItem.value.key)];
        var next := Ascend(fs, ft, si, ti);
        var connected := NodeHasSpecificInputEventually(Exactly(SourceKey(fs.key)), TargetKey(ft.key), d);
        var above := LinkParents(LinkFirst(d, fs, ft), next.0, next.1, si, ti);
        (above.0, !connected || above.1)
  }

  method AddParentConnectionForRepeatingElementsNested(store: ConnectionStore, source: SchemaNode, target: SchemaNode,
                                                       si: SchemaIndex, ti: SchemaIndex) returns (added: bool)
    requires CanLink(store.connections, source, target, si, ti)
    modifies store
    ensures (store.connections, added) == LinkParents(old(store.connections), source, target, si, ti)
    decreases |source.pathToRoot|
  {
    hide Ready, FitsIndex, IsSchemaIndex, Known, Apply, InGraph, Acyclic, NodeHasSpecificInputEventually, IsParent;
    if source.parentKey.Some? && source.parentKey.value != "" {
      var targetItem := LastRepeating(target.pathToRoot);
      var sourceItem := LastRepeating(source.pathToRoot);
      if sourceItem.Some? && targetItem.Some? {
        var sourceKey := SourceKey(sourceItem.value.key);
        if sourceKey !in si {
          return false;
        }
        StepIsFine(store.connections, source, target, si, ti);
        var targetKey := TargetKey(targetItem.value.key);
        var firstSource, firstTarget := si[sourceKey], ti[targetKey];
        LinkKeepsReady(store.connections, firstSource, firstTarget);
        ReadyIsAcyclic(store.connections);
        var alreadyConnected := NodeHasSpecificInputEventually(Exactly(sourceKey), targetKey, store.connections);
        if !alreadyConnected {
          var outcome := store.ApplyConnectionValue(
            Action(Schema(firstTarget), targetKey, None, Put(Linked(ConnectionUnit(Schema(firstSource), sourceKey))),
                true));
        }
        var nextTarget := ti[TargetKey(firstTarget.parentKey.value)];
        if LastRepeating(nextTarget.pathToRoot).None? {
          nextTarget := firstTarget;
        }
        var addedAbove := AddParentConnectionForRepeatingElementsNested(store,
            si[SourceKey(firstSource.parentKey.value)], nextTarget, si, ti);
        return !alreadyConnected || addedAbove;
      }
    }
    return false;
  }

  // ----- what the walk achieves

  /** Counted from the innermost, the j-th repeating target parent, or the outermost when there are fewer. */
  function Partner(targets: seq<PathItem>, j: nat): PathItem
    requires targets != []
  {
    if j < |targets| then targets[|targets| - 1 - j] else targets[0]
  }

  ghost predicate PairLinked(d: ConnectionDictionary, sources: seq<PathItem>, targets: seq<PathItem>, j: nat)
    requires j < |sources| && targets != []
  {
    Reaches(InGraph(d), TargetKey(Partner(targets, j).key), SourceKey(sources[|sources| - 1 - j].key))
  }

  ghost predicate AllLinked(d: ConnectionDictionary, sources: seq<PathItem>, targets: seq<PathItem>)
    requires targets != []
  {
    forall j :: 0 <= j < |sources| ==> PairLinked(d, sources, targets, j)
  }

  lemma ConnectedIffReaches(d: ConnectionDictionary, source: string, target: string)
    requires Ready(d)
    ensures NodeHasSpecificInputEventually(Exactly(SourceKey(source)), TargetKey(target), d)
            <==> Reaches(InGraph(d), TargetKey(target), SourceKey(source))
  {
    hide Holds;
    MirrorReverses(d);
    if TargetKey(target) in d {
      SpecificInputIsReachability(Exactly(SourceKey(source)), TargetKey(target), d);
      ReachableHasEntry(InGraph(d), TargetKey(target), SourceKey(source), d);
    } else {
      ReachesUnfold(InGraph(d), TargetKey(target), SourceKey(source));
    }
  }

  lemma LinkFirstEffect(d: ConnectionDictionary, fs: SchemaNode, ft: SchemaNode)
    requires Ready(d) && IsRepeating(ft)
    ensures var e := LinkFirst(d, fs, ft);
            && Ready(e) && Subgraph(InGraph(d), InGraph(e))
            && AddsAtMost(InGraph(d), InGraph(e), TargetKey(ft.key), SourceKey(fs.key))
            && Reaches(InGraph(e), TargetKey(ft.key), SourceKey(fs.key))
            && (Reaches(InGraph(d), TargetKey(ft.key), SourceKey(fs.key)) <==> e == d)
            && (e == d <==> NodeHasSpecificInputEventually(Exactly(SourceKey(fs.key)), TargetKey(ft.key), d))
  {
    hide Ready, Apply, InGraph, NodeHasSpecificInputEventually, Reaches;
    ReadyIsAcyclic(d);
    LinkKeepsReady(d, fs, ft);
    ConnectedIffReaches(d, fs.key, ft.key);
    var e := LinkFirst(d, fs, ft);
    if e != d || !NodeHasSpecificInputEventually(Exactly(SourceKey(fs.key)), TargetKey(ft.key), d) {
      ReachesStep(InGraph(e), TargetKey(ft.key), SourceKey(fs.key));
    }
  }

  /** What holds of the first pair and of the pairs above it holds of all pairs. */
  lemma PairsUnfold(d: ConnectionDictionary, sources: seq<PathItem>, targets: seq<PathItem>, above: seq<PathItem>)
    requires sources != [] && targets != [] && above != []
    requires if |targets| > 1 then above == targets[..|targets| - 1] else above == targets
    ensures forall j :: 0 < j < |sources| ==>
              (PairLinked(d, sources, targets, j) <==> PairLinked(d, sources[..|sources| - 1], above, j - 1))
    ensures AllLinked(d, sources, targets) <==>
              PairLinked(d, sources, targets, 0) && AllLinked(d, sources[..|sources| - 1], above)
  {
    hide Reaches;
    assert forall j :: 0 < j < |sources| ==> Partner(targets, j) == Partner(above, j - 1);
    if AllLinked(d, sources, targets) {
      var rest := sources[..|sources| - 1];
      forall j | 0 <= j < |rest| ensures PairLinked(d, rest, above, j) {
        assert PairLinked(d, sources, targets, j + 1);
      }
    }
  }

  ghost predicate IsPair(target: Key, source: Key, sources: seq<PathItem>, targets: seq<PathItem>, j: int)
    requires targets != []
  {
    0 <= j < |sources| && target == TargetKey(Partner(targets, j).key)
        && source == SourceKey(sources[|sources| - 1 - j].key)
  }

  ghost predicate NewLinksArePairs(d: ConnectionDictionary, e: ConnectionDictionary, sources: seq<PathItem>,
                                   targets: seq<PathItem>)
    requires targets != []
  {
    forall k, s :: s in Successors(InGraph(e), k) && s !in Successors(InGraph(d), k) ==>
      exists j :: IsPair(k, s, sources, targets, j)
  }

  lemma PairsStep(d: ConnectionDictionary, source: SchemaNode, target: SchemaNode, si: SchemaIndex, ti: SchemaIndex)
    returns (fs: SchemaNode, ft: SchemaNode, e: ConnectionDictionary, next: (SchemaNode, SchemaNode),
             ss: seq<PathItem>, ts: seq<PathItem>)
    requires CanLink(d, source, target, si, ti) && Known(si, Source, source)
    requires Repeatings(source.pathToRoot) != [] && Repeatings(target.pathToRoot) != []
    ensures StepWorks(d, source, target, si, ti, fs, ft)
    ensures e == LinkFirst(d, fs, ft) && next == Ascend(fs, ft, si, ti)
    ensures ss == Repeatings(next.0.pathToRoot) && ts == Repeatings(next.1.pathToRoot)
    ensures ss == Repeatings(source.pathToRoot)[..|Repeatings(source.pathToRoot)| - 1] && ts != []
    ensures var targets := Repeatings(target.pathToRoot);
            if |targets| > 1 then ts == targets[..|targets| - 1] else ts == targets
    ensures IsPair(TargetKey(ft.key), SourceKey(fs.key), Repeatings(source.pathToRoot),
                   Repeatings(target.pathToRoot), 0)
    ensures LinkParents(d, source, target, si, ti) ==
            (LinkParents(e, next.0, next.1, si, ti).0, e != d || LinkParents(e, next.0, next.1, si, ti).1)
  {
    hide Ready, FitsIndex, Apply, InGraph, Acyclic, NodeHasSpecificInputEventually, IsParent, Repeatings,
      LastRepeating, LinkFirst;
    LastOfRepeatings(source.pathToRoot);
    LastOfRepeatings(target.pathToRoot);
    KnownFits(si, Source, source);
    RepeatingHasParent(si, source);
    StepIsFine(d, source, target, si, ti);
    fs := si[SourceKey(LastRepeating(source.pathToRoot).value.key)];
    ft := ti[TargetKey(LastRepeating(target.pathToRoot).value.key)];
    e, next := LinkFirst(d, fs, ft), Ascend(fs, ft, si, ti);
    ss, ts := Repeatings(next.0.pathToRoot), Repeatings(next.1.pathToRoot);
    LinkFirstEffect(d, fs, ft);
  }

  lemma RepeatingHasParent(si: SchemaIndex, source: SchemaNode)
    requires IsSchemaIndex(si, Source) && Known(si, Source, source) && LastRepeating(source.pathToRoot).Some?
    ensures source.parentKey.Some? && source.parentKey != Some("")
    ensures SourceKey(LastRepeating(source.pathToRoot).value.key) in si
  {
    KnownFits(si, Source, source);
    assert AddReactFlowPrefix(source.key, Source) in si;
  }

  /** Every repeating ancestor-or-self of the source becomes an eventual input of its partner among
      the target's; no link that was there is lost, and every new link joins such a pair. */
  lemma {:induction false} LinksEveryRepeatingParent(d: ConnectionDictionary, source: SchemaNode, target: SchemaNode,
                                                     si: SchemaIndex, ti: SchemaIndex)
    requires CanLink(d, source, target, si, ti) && Known(si, Source, source) && Repeatings(target.pathToRoot) != []
    ensures var e := LinkParents(d, source, target, si, ti).0;
            var sources, targets := Repeatings(source.pathToRoot), Repeatings(target.pathToRoot);
            && CanLink(e, source, target, si, ti)
            && Subgraph(InGraph(d), InGraph(e))
            && AllLinked(e, sources, targets)
            && NewLinksArePairs(d, e, sources, targets)
    decreases |source.pathToRoot|
  {
    hide Ready, FitsIndex, IsSchemaIndex, Known, InGraph, Repeatings, LinkFirst, LinkParents, Reaches, Ascend,
      HasIndexedParent;
    var sources, targets := Repeatings(source.pathToRoot), Repeatings(target.pathToRoot);
    if sources == [] {
      NothingToLink(d, source, target, si, ti);
    } else {
      var fs, ft, m, next, ss, ts := PairsStep(d, source, target, si, ti);
      LinksEveryRepeatingParent(m, next.0, next.1, si, ti);
      var e := LinkParents(d, source, target, si, ti).0;
      LinkFirstEffect(d, fs, ft);
      SubgraphReaches(InGraph(m), InGraph(e), TargetKey(ft.key), SourceKey(fs.key));
      PairsUnfold(e, sources, targets, ts);
      NewLinksUnfold(d, m, e, fs, ft, sources, targets, ts);
    }
  }

  lemma NothingToLink(d: ConnectionDictionary, source: SchemaNode, target: SchemaNode, si: SchemaIndex, ti: SchemaIndex)
    requires CanLink(d, source, target, si, ti)
    requires Repeatings(source.pathToRoot) == [] || Repeatings(target.pathToRoot) == []
    ensures LinkParents(d, source, target, si, ti) == (d, false)
  {
    LastOfRepeatings(source.pathToRoot);
    LastOfRepeatings(target.pathToRoot);
  }

  lemma NewLinksUnfold(d: ConnectionDictionary, m: ConnectionDictionary, e: ConnectionDictionary, fs: SchemaNode,
                       ft: SchemaNode,
                       sources: seq<PathItem>, targets: seq<PathItem>, above: seq<PathItem>)
    requires sources != [] && targets != [] && above != []
    requires if |targets| > 1 then above == targets[..|targets| - 1] else above == targets
    requires IsPair(TargetKey(ft.key), SourceKey(fs.key), sources, targets, 0)
    requires AddsAtMost(InGraph(d), InGraph(m), TargetKey(ft.key), SourceKey(fs.key))
    requires NewLinksArePairs(m, e, sources[..|sources| - 1], above)
    ensures NewLinksArePairs(d, e, sources, targets)
  {
    hide InGraph;
    forall k, s | s in Successors(InGraph(e), k) && s !in Successors(InGraph(d), k)
      ensures exists j :: IsPair(k, s, sources, targets, j)
    {
      if s in Successors(InGraph(m), k) {
        assert IsPair(k, s, sources, targets, 0);
      } else {
        var j :| IsPair(k, s, sources[..|sources| - 1], above, j);
        assert IsPair(k, s, sources, targets, j + 1);
      }
    }
  }

  /** The walk reports a new link, and changes the dictionary, exactly when some pair was not linked. */
  lemma {:induction false} AddsUnlessAllLinked(d: ConnectionDictionary, source: SchemaNode, target: SchemaNode,
                                               si: SchemaIndex, ti: SchemaIndex)
    requires CanLink(d, source, target, si, ti) && Known(si, Source, source) && Repeatings(target.pathToRoot) != []
    ensures var r := LinkParents(d, source, target, si, ti);
            && (r.1 <==> !AllLinked(d, Repeatings(source.pathToRoot), Repeatings(target.pathToRoot)))
            && (r.1 <==> r.0 != d)
    decreases |source.pathToRoot|
  {
    hide Ready, FitsIndex, IsSchemaIndex, Known, InGraph, Repeatings, LinkFirst, LinkParents, Reaches, Ascend,
      HasIndexedParent;
    var sources, targets := Repeatings(source.pathToRoot), Repeatings(target.pathToRoot);
    if sources == [] {
      NothingToLink(d, source, target, si, ti);
    } else {
      var fs, ft, m, next, ss, ts := PairsStep(d, source, target, si, ti);
      LinkFirstEffect(d, fs, ft);
      PairsUnfold(d, sources, targets, ts);
      if m == d {
        AddsUnlessAllLinked(m, next.0, next.1, si, ti);
      } else {
        LinksEveryRepeatingParent(d, source, target, si, ti);
        assert !PairLinked(d, sources, targets, 0);
      }
    }
  }

  /** A second walk finds everything linked: it returns false and changes nothing. */
  lemma SecondWalkDoesNothing(d: ConnectionDictionary, source: SchemaNode, target: SchemaNode, si: SchemaIndex,
                              ti: SchemaIndex)
    requires CanLink(d, source, target, si, ti) && Known(si, Source, source)
    ensures var e := LinkParents(d, source, target, si, ti).0;
            CanLink(e, source, target, si, ti) && LinkParents(e, source, target, si, ti) == (e, false)
  {
    hide Repeatings, LinkParents, CanLink;
    if Repeatings(target.pathToRoot) == [] {
      NothingToLink(d, source, target, si, ti);
    } else {
      LinksEveryRepeatingParent(d, source, target, si, ti);
      AddsUnlessAllLinked(LinkParents(d, source, target, si, ti).0, source, target, si, ti);
    }
  }
}
