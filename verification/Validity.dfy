/** Exactly which dictionaries are valid to be written (isValidToMakeMapDefinition in DataMap.Utils.ts and
    nodeHasSourceNodeEventually in Connection.Utils.ts). */
module Validity {
  import opened Model
  import opened Graphs
  import opened Traversals
  import opened Printer

  /** A function that has inputs of its own; what has none counts as a source. */
  predicate IsChained(input: InputConnection) {
    input.Linked? && input.unit.node.Function? && input.unit.node.data.maxNumberOfInputs != 0
  }

  function ChainedKeys(inputs: seq<InputConnection>): (keys: seq<Key>)
    ensures forall k ::
              k in keys <==> exists i :: 0 <= i < |inputs| && IsChained(inputs[i]) && inputs[i].unit.reactFlowKey == k
  {
    if inputs == [] then []
    else
      var rest := ChainedKeys(inputs[1..]);
      assert forall i :: 0 < i < |inputs| ==> inputs[i] == inputs[1..][i - 1];
      assert forall i :: 0 <= i < |inputs[1..]| ==> inputs[1..][i] == inputs[i + 1];
      if IsChained(inputs[0]) then [inputs[0].unit.reactFlowKey] + rest else rest
  }

  function ChainGraph(d: ConnectionDictionary): Graph<Key> {
    map k | k in d :: ChainedKeys(FlattenInputs(d[k].inputs))
  }

  /** An entry with an empty field and no function among its inputs leads nowhere. */
  predicate IsDeadEnd(c: Connection) {
    Undefined in FlattenInputs(c.inputs) && ChainedKeys(FlattenInputs(c.inputs)) == []
  }

  ghost predicate ReachesSources(key: Key, d: ConnectionDictionary) {
    forall k :: Reaches(ChainGraph(d), key, k) ==> k in d && !IsDeadEnd(d[k])
  }

  lemma {:induction false} AllCountIff(inputs: seq<InputConnection>)
    ensures CountNodesAndCustoms(inputs) <= |inputs|
    ensures CountNodesAndCustoms(inputs) == |inputs| <==>
              forall i :: 0 <= i < |inputs| ==> !inputs[i].Undefined? && !IsChained(inputs[i])
  {
    if inputs != [] {
      AllCountIff(inputs[1..]);
      assert forall i :: 0 < i < |inputs| ==> inputs[i] == inputs[1..][i - 1];
      assert forall i :: 0 <= i < |inputs[1..]| ==> inputs[1..][i] == inputs[i + 1];
    }
  }

  lemma ReachesSourcesUnfolds(key: Key, d: ConnectionDictionary)
    ensures ReachesSources(key, d) <==>
              && key in d && !IsDeadEnd(d[key])
              && forall n :: n in Successors(ChainGraph(d), key) ==> ReachesSources(n, d)
  {
    hide IsDeadEnd, ChainGraph, Reaches;
    var g := ChainGraph(d);
    ReachesSelf(g, key);
    forall n, k | n in Successors(g, key) && Reaches(g, n, k) ensures Reaches(g, key, k) {
      ReachesUnfold(g, key, k);
    }
    forall k | Reaches(g, key, k) && k != key ensures exists n :: n in Successors(g, key) && Reaches(g, n, k) {
      ReachesUnfold(g, key, k);
    }
  }

  lemma ChainedIsSuccessor(key: Key, d: ConnectionDictionary, n: Key)
    requires key in d
    ensures n in Successors(ChainGraph(d), key) ==> n in Successors(InGraph(d), key)
  {
    if n in Successors(ChainGraph(d), key) {
      FlattenedUnitsAreSuccessors(key, d);
      var inputs := FlattenInputs(d[key].inputs);
      var i :| 0 <= i < |inputs| && IsChained(inputs[i]) && inputs[i].unit.reactFlowKey == n;
      assert Linked(inputs[i].unit) in inputs;
    }
  }

  /** The check answers true exactly if every function met on the way up has an entry, and none of them is a
      dead end. */
  lemma {:induction false} SourceNodeEventuallyIff(key: Key, d: ConnectionDictionary)
    requires Acyclic(InGraph(d))
    ensures NodeHasSourceNodeEventually(key, d) <==> ReachesSources(key, d)
    decreases ReachSet(InGraph(d), key)
  {
    ReachesSourcesUnfolds(key, d);
    if key in d {
      ReachSetShrinks(InGraph(d), key);
      forall n | n in Successors(ChainGraph(d), key)
        ensures NodeHasSourceNodeEventually(n, d) <==> ReachesSources(n, d)
      {
        ChainedIsSuccessor(key, d, n);
        SourceNodeEventuallyIff(n, d);
      }
      SourceNodeUnfolds(key, d);
    }
  }

  lemma CheckUnfolds(key: Key, d: ConnectionDictionary, inputs: seq<InputConnection>)
    requires Acyclic(InGraph(d)) && key in d && inputs == FlattenInputs(d[key].inputs)
    ensures NodeHasSourceNodeEventually(key, d) <==>
              || CountNodesAndCustoms(inputs) == |inputs|
              || (&& (exists i :: 0 <= i < |inputs| && IsChained(inputs[i]))
                  && forall i :: 0 <= i < |inputs| && IsChained(inputs[i]) ==>
                       NodeHasSourceNodeEventually(inputs[i].unit.reactFlowKey, d))
  {
    hide FlattenInputs, Acyclic, CountNodesAndCustoms;
    assert forall i :: 0 <= i < |inputs| ==>
        (IsChained(inputs[i]) <==> inputs[i].Linked? && TakesInputs(inputs[i].unit));
  }

  lemma SourceNodeUnfolds(key: Key, d: ConnectionDictionary)
    requires Acyclic(InGraph(d)) && key in d
    ensures NodeHasSourceNodeEventually(key, d) <==>
              && !IsDeadEnd(d[key])
              && forall n :: n in Successors(ChainGraph(d), key) ==> NodeHasSourceNodeEventually(n, d)
  {
    hide FlattenInputs, Acyclic, NodeHasSourceNodeEventually, IsChained, ChainedKeys, CountNodesAndCustoms;
    var inputs := FlattenInputs(d[key].inputs);
    CheckUnfolds(key, d, inputs);
    CountedIff(inputs);
    assert Successors(ChainGraph(d), key) == ChainedKeys(inputs);
    AllChainedIff(inputs, d);
    NoChainedIff(inputs);
  }

  lemma CountedIff(inputs: seq<InputConnection>)
    ensures CountNodesAndCustoms(inputs) == |inputs| <==> Undefined !in inputs && ChainedKeys(inputs) == []
  {
    AllCountIff(inputs);
    NoChainedIff(inputs);
  }

  lemma AllChainedIff(inputs: seq<InputConnection>, d: ConnectionDictionary)
    requires Acyclic(InGraph(d))
    ensures (forall i :: 0 <= i < |inputs| && IsChained(inputs[i]) ==>
               NodeHasSourceNodeEventually(inputs[i].unit.reactFlowKey, d))
            <==> forall n :: n in ChainedKeys(inputs) ==> NodeHasSourceNodeEventually(n, d)
  {
    hide Acyclic, NodeHasSourceNodeEventually, ChainedKeys;
  }

  lemma NoChainedIff(inputs: seq<InputConnection>)
    ensures ChainedKeys(inputs) == [] <==> forall i :: 0 <= i < |inputs| ==> !IsChained(inputs[i])
  {
    hide IsChained;
    if ChainedKeys(inputs) != [] {
      assert ChainedKeys(inputs)[0] in ChainedKeys(inputs);
    }
    forall i | 0 <= i < |inputs| && IsChained(inputs[i]) ensures ChainedKeys(inputs) != [] {
      ChainedIsLinked(inputs[i]);
      assert inputs[i].unit.reactFlowKey in ChainedKeys(inputs);
    }
  }

  lemma ChainedIsLinked(input: InputConnection)
    requires IsChained(input)
    ensures input.Linked?
  {
  }

  /** Every input that a function declares as required is given, in its own slot. */
  ghost predicate GivesRequired(c: Connection) {
    c.self.node.Function? ==>
      forall i :: 0 <= i < |c.self.node.data.inputs| && !c.self.node.data.inputs[i].isOptional ==>
        i < |c.inputs| && c.inputs[i] != []
  }

  /** Valid are exactly the dictionaries whose targets all lead to sources and whose functions, connected to a
      target or not, are given every required input. */
  lemma ValidIff(d: ConnectionDictionary)
    requires Acyclic(InGraph(d))
    ensures IsValidToMakeMapDefinition(d) <==>
              && (forall path :: TargetKey(path) in d ==> ReachesSources(TargetKey(path), d))
              && forall k :: k in d ==> GivesRequired(d[k])
  {
    hide NodeHasSourceNodeEventually, ReachesSources, Acyclic;
    forall k | k in d && k.TargetKey? ensures NodeHasSourceNodeEventually(k, d) <==> ReachesSources(k, d) {
      SourceNodeEventuallyIff(k, d);
    }
    assert forall k: Key :: k.TargetKey? ==> k == TargetKey(k.path);
  }
}
