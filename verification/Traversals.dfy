/** The recursive walks over the connection dictionary (Connection.Utils.ts). None of them keeps a
    visited set: each is total exactly because the graph it follows has no cycle, and its measure
    is the set of keys still reachable. */
module Traversals {
  import opened Model
  import opened Graphs

  function OutGraph(d: ConnectionDictionary): Graph<Key> {
    map k | k in d :: UnitKeys(d[k].outputs)
  }

  function InGraph(d: ConnectionDictionary): Graph<Key> {
    map k | k in d :: UnitKeys(InputUnits(d[k]))
  }

  lemma FlattenedUnitsAreSuccessors(key: Key, d: ConnectionDictionary)
    requires key in d
    ensures forall unit :: Linked(unit) in FlattenInputs(d[key].inputs) ==>
              unit.reactFlowKey in Successors(InGraph(d), key)
  {
    forall unit | Linked(unit) in FlattenInputs(d[key].inputs)
      ensures unit.reactFlowKey in Successors(InGraph(d), key)
    {
      LinkedMembers(FlattenInputs(d[key].inputs), unit);
      var i :| 0 <= i < |InputUnits(d[key])| && InputUnits(d[key])[i] == unit;
      assert UnitKeys(InputUnits(d[key]))[i] == unit.reactFlowKey;
    }
  }

  /** Follows outputs from the current node, looking for the node wanted as its input. */
  predicate NewConnectionWillHaveCircularLogic(current: Key, desired: Key, d: ConnectionDictionary)
    requires Acyclic(OutGraph(d))
    decreases ReachSet(OutGraph(d), current)
  {
    ReachSetShrinks(OutGraph(d), current);
    || current == desired
    || (current in d &&
        exists i :: 0 <= i < |d[current].outputs| &&
          NewConnectionWillHaveCircularLogic(UnitKeys(d[current].outputs)[i], desired, d))
  }

  /** The test of an exact search; a search by part of a key passes its own. */
  function Exactly(key: Key): Key -> bool {
    k => k == key
  }

  predicate NodeHasSpecificInputEventually(matches: Key -> bool, current: Key, d: ConnectionDictionary)
    requires Acyclic(InGraph(d))
    decreases ReachSet(InGraph(d), current)
  {
    ReachSetShrinks(InGraph(d), current);
    && current in d
    && (|| matches(d[current].self.reactFlowKey)
        || exists i :: 0 <= i < |InputUnits(d[current])| &&
             NodeHasSpecificInputEventually(matches, UnitKeys(InputUnits(d[current]))[i], d))
  }

  predicate NodeHasSpecificOutputEventually(matches: Key -> bool, current: Key, d: ConnectionDictionary)
    requires Acyclic(OutGraph(d))
    decreases ReachSet(OutGraph(d), current)
  {
    ReachSetShrinks(OutGraph(d), current);
    && current in d
    && (|| matches(d[current].self.reactFlowKey)
        || exists i :: 0 <= i < |d[current].outputs| &&
             NodeHasSpecificOutputEventually(matches, UnitKeys(d[current].outputs)[i], d))
  }

  lemma {:induction false} CircularLogicIsReachability(current: Key, desired: Key, d: ConnectionDictionary)
    requires Acyclic(OutGraph(d))
    ensures NewConnectionWillHaveCircularLogic(current, desired, d) <==> Reaches(OutGraph(d), current, desired)
    decreases ReachSet(OutGraph(d), current)
  {
    var g := OutGraph(d);
    ReachSetShrinks(g, current);
    ReachesUnfold(g, current, desired);
    forall n | n in Successors(g, current)
      ensures NewConnectionWillHaveCircularLogic(n, desired, d) <==> Reaches(g, n, desired)
    {
      CircularLogicIsReachability(n, desired, d);
    }
  }

  // ----- the two collecting walks

  /** Every successor has an entry: the collecting walks read it without checking. */
  ghost predicate Closed(g: Graph<Key>, d: ConnectionDictionary) {
    g.Keys == d.Keys && forall k, n :: n in Successors(g, k) ==> n in d
  }

  /** The chain from a node in pre-order; g is InGraph(d) for collectSourceNodesForConnectionChain
      and OutGraph(d) for collectTargetNodesForConnectionChain. */
  function CollectChain(g: Graph<Key>, current: Key, d: ConnectionDictionary): seq<ConnectionUnit>
    requires Acyclic(g) && Closed(g, d) && current in d
    decreases ReachSet(g, current), |Successors(g, current)| + 1
  {
    [d[current].self] + CollectFrom(g, current, 0, d)
  }

  function CollectFrom(g: Graph<Key>, current: Key, i: nat, d: ConnectionDictionary): seq<ConnectionUnit>
    requires Acyclic(g) && Closed(g, d) && current in d && i <= |Successors(g, current)|
    decreases ReachSet(g, current), |Successors(g, current)| - i
  {
    ReachSetShrinks(g, current);
    if i == |Successors(g, current)| then []
    else CollectChain(g, Successors(g, current)[i], d) + CollectFrom(g, current, i + 1, d)
  }

  /** Where the i-th successor's chain starts. */
  ghost function ChainStart(g: Graph<Key>, current: Key, i: nat, d: ConnectionDictionary): nat
    requires Acyclic(g) && Closed(g, d) && current in d && i <= |Successors(g, current)|
  {
    if i == 0 then 1
    else ChainStart(g, current, i - 1, d) + |CollectChain(g, Successors(g, current)[i - 1], d)|
  }

  /** The chain is the node itself, and then, in the order of its successors, the chain of each. */
  lemma {:induction false} ChainIsInOrder(g: Graph<Key>, current: Key, i: nat, d: ConnectionDictionary)
    requires Acyclic(g) && Closed(g, d) && current in d && i <= |Successors(g, current)|
    ensures var chain, start := CollectChain(g, current, d), ChainStart(g, current, i, d);
            && chain[0] == d[current].self && start <= |chain|
            && chain[start..] == CollectFrom(g, current, i, d)
            && (i < |Successors(g, current)| ==>
                  CollectChain(g, Successors(g, current)[i], d) <= chain[start..])
            && (i == |Successors(g, current)| ==> start == |chain|)
    decreases i
  {
    hide *;
    NextChain(g, current, i, d);
    if i > 0 {
      NextChain(g, current, i - 1, d);
      ChainIsInOrder(g, current, i - 1, d);
      NextStart(g, current, i, d);
      PieceFollows(CollectChain(g, current, d), ChainStart(g, current, i - 1, d),
                   CollectChain(g, Successors(g, current)[i - 1], d), CollectFrom(g, current, i, d));
    } else {
      NextStart(g, current, i, d);
    }
  }

  lemma NextStart(g: Graph<Key>, current: Key, i: nat, d: ConnectionDictionary)
    requires Acyclic(g) && Closed(g, d) && current in d && i <= |Successors(g, current)|
    ensures ChainStart(g, current, i, d) ==
            if i == 0 then 1
            else ChainStart(g, current, i - 1, d) + |CollectChain(g, Successors(g, current)[i - 1], d)|
    ensures i > 0 ==> Successors(g, current)[i - 1] in d
  {
    hide Acyclic, CollectChain;
  }

  lemma PieceFollows(chain: seq<ConnectionUnit>, start: nat, piece: seq<ConnectionUnit>, rest: seq<ConnectionUnit>)
    requires start <= |chain| && chain[start..] == piece + rest
    ensures start + |piece| <= |chain| && chain[start + |piece|..] == rest
  {
    assert chain[start + |piece|..] == chain[start..][|piece|..];
  }

  lemma NextChain(g: Graph<Key>, current: Key, i: nat, d: ConnectionDictionary)
    requires Acyclic(g) && Closed(g, d) && current in d && i <= |Successors(g, current)|
    ensures CollectFrom(g, current, i, d) ==
            if i == |Successors(g, current)| then []
            else CollectChain(g, Successors(g, current)[i], d) + CollectFrom(g, current, i + 1, d)
    ensures CollectChain(g, current, d) == [d[current].self] + CollectFrom(g, current, 0, d)
  {
    hide Acyclic;
  }

  function CollectSourceNodes(current: Key, d: ConnectionDictionary): seq<ConnectionUnit>
    requires Acyclic(InGraph(d)) && Closed(InGraph(d), d) && current in d
  {
    CollectChain(InGraph(d), current, d)
  }

  function CollectTargetNodes(current: Key, d: ConnectionDictionary): seq<ConnectionUnit>
    requires Acyclic(OutGraph(d)) && Closed(OutGraph(d), d) && current in d
  {
    CollectChain(OutGraph(d), current, d)
  }

  ghost predicate SelfKeyed(d: ConnectionDictionary) {
    forall k :: k in d ==> d[k].self.reactFlowKey == k
  }

  /** The chain collects exactly the units of the reachable keys. */
  lemma {:induction false} CollectChainIsReachSet(g: Graph<Key>, current: Key, d: ConnectionDictionary,
                                                  unit: ConnectionUnit)
    requires Acyclic(g) && Closed(g, d) && current in d && SelfKeyed(d)
    ensures unit in CollectChain(g, current, d) <==>
            unit.reactFlowKey in d && unit == d[unit.reactFlowKey].self && Reaches(g, current, unit.reactFlowKey)
    decreases ReachSet(g, current), |Successors(g, current)| + 1
  {
    CollectFromIsReachSet(g, current, 0, d, unit);
    ReachesUnfold(g, current, unit.reactFlowKey);
  }

  lemma {:induction false} CollectFromIsReachSet(g: Graph<Key>, current: Key, i: nat, d: ConnectionDictionary,
                                                 unit: ConnectionUnit)
    requires Acyclic(g) && Closed(g, d) && current in d && SelfKeyed(d) && i <= |Successors(g, current)|
    ensures unit in CollectFrom(g, current, i, d) <==>
            && unit.reactFlowKey in d && unit == d[unit.reactFlowKey].self
            && exists n :: n in Successors(g, current)[i..] && Reaches(g, n, unit.reactFlowKey)
    decreases ReachSet(g, current), |Successors(g, current)| - i
  {
    hide Acyclic, Reaches;
    var next := Successors(g, current);
    if i < |next| {
      ReachSetShrinks(g, current);
      CollectChainIsReachSet(g, next[i], d, unit);
      CollectFromIsReachSet(g, current, i + 1, d, unit);
      assert next[i..] == [next[i]] + next[i + 1..];
    }
  }

  lemma {:induction false} SpecificInputIsReachability(matches: Key -> bool, current: Key, d: ConnectionDictionary)
    requires Acyclic(InGraph(d)) && Closed(InGraph(d), d) && current in d && SelfKeyed(d)
    ensures NodeHasSpecificInputEventually(matches, current, d)
            <==> exists k :: k in d && matches(k) && Reaches(InGraph(d), current, k)
    decreases ReachSet(InGraph(d), current)
  {
    var g := InGraph(d);
    ReachSetShrinks(g, current);
    forall n | n in Successors(g, current)
      ensures NodeHasSpecificInputEventually(matches, n, d) <==> exists k :: k in d && matches(k) && Reaches(g, n, k)
    {
      SpecificInputIsReachability(matches, n, d);
    }
    forall k | k in d
      ensures Reaches(g, current, k) <==> current == k || exists n :: n in Successors(g, current) && Reaches(g, n, k)
    {
      ReachesUnfold(g, current, k);
    }
  }

  lemma {:induction false} SpecificOutputIsReachability(matches: Key -> bool, current: Key, d: ConnectionDictionary)
    requires Acyclic(OutGraph(d)) && Closed(OutGraph(d), d) && current in d && SelfKeyed(d)
    ensures NodeHasSpecificOutputEventually(matches, current, d)
            <==> exists k :: k in d && matches(k) && Reaches(OutGraph(d), current, k)
    decreases ReachSet(OutGraph(d), current)
  {
    var g := OutGraph(d);
    ReachSetShrinks(g, current);
    forall n | n in Successors(g, current)
      ensures NodeHasSpecificOutputEventually(matches, n, d) <==> exists k :: k in d && matches(k) && Reaches(g, n, k)
    {
      SpecificOutputIsReachability(matches, n, d);
    }
    forall k | k in d
      ensures Reaches(g, current, k) <==> current == k || exists n :: n in Successors(g, current) && Reaches(g, n, k)
    {
      ReachesUnfold(g, current, k);
    }
  }

  /** Searching for an input and collecting the inputs agree, whatever is searched for. */
  lemma SearchAgreesWithCollect(matches: Key -> bool, current: Key, d: ConnectionDictionary)
    requires Acyclic(InGraph(d)) && Closed(InGraph(d), d) && current in d && SelfKeyed(d)
    ensures NodeHasSpecificInputEventually(matches, current, d)
            <==> exists unit :: unit in CollectSourceNodes(current, d) && matches(unit.reactFlowKey)
  {
    hide NodeHasSpecificInputEventually, CollectChain, Acyclic, Reaches;
    SpecificInputIsReachability(matches, current, d);
    if k :| k in d && matches(k) && Reaches(InGraph(d), current, k) {
      CollectChainIsReachSet(InGraph(d), current, d, d[k].self);
    }
    if unit :| unit in CollectSourceNodes(current, d) && matches(unit.reactFlowKey) {
      CollectChainIsReachSet(InGraph(d), current, d, unit);
    }
  }

  lemma ReachableHasEntry(g: Graph<Key>, current: Key, k: Key, d: ConnectionDictionary)
    requires Closed(g, d) && current in d
    ensures Reaches(g, current, k) ==> k in d
  {
    if Reaches(g, current, k) {
      var p :| WalkFromTo(g, p, current, k);
      if |p| > 1 {
        assert p[|p| - 2 + 1] in Successors(g, p[|p| - 2]);
      }
    }
  }
}
