/** The cycles that a deserialized graph can have: calls whose text is cut into itself. */
module Loops {
  import opened Model
  import opened Graphs
  import opened Strings
  import opened Splitter
  import opened Expressions
  import opened FunctionUtils
  import opened Connections
  import opened Slots
  import opened ConnectionInvariants
  import opened Traversals
  import opened Schemas
  import opened Deserializer
  import opened Settling
  import opened RoundTrip

  /** Wherever the recursion goes, no call is linked to itself. */
  predicate IsLoopFree(env: Environment, source: string)
    decreases |source|
  {
    if '(' !in source then true
    else
      ChildrenAreNotLonger(source);
      forall i :: 0 <= i < |Children(source)| ==>
        assert Children(source)[i] in Children(source);
        if Children(source)[i] == source then Receiver(env, source).None? else IsLoopFree(env, Children(source)[i])
  }

  lemma {:induction false} ContainedIsLoopFree(env: Environment, source: string)
    requires Contained(env, source)
    ensures IsLoopFree(env, source)
    decreases |source|
  {
    if '(' in source {
      ContainedText(env, source);
      forall i | 0 <= i < |Children(source)| && Children(source)[i] != source
        ensures IsLoopFree(env, Children(source)[i])
      {
        assert Children(source)[i] in Children(source);
        ContainedIsLoopFree(env, Children(source)[i]);
      }
    }
  }

  /** A text has a loop if it is its own child, or one of its other children has a loop. */
  lemma LoopIsBelow(env: Environment, source: string)
    ensures IsLoopFree(env, source) <==>
              '(' in source ==>
                && !IsOwnChild(env, source)
                && forall child :: child in Children(source) && child != source ==> IsLoopFree(env, child)
  {
    if '(' in source {
      ChildrenAreNotLonger(source);
      hide Children, Receiver;
      forall child | IsLoopFree(env, source) && child in Children(source) && child != source
        ensures IsLoopFree(env, child)
      {
        var i :| 0 <= i < |Children(source)| && Children(source)[i] == child;
      }
    }
  }

  // ----- what the recursion leaves

  ghost predicate HasLoop(env: Environment, created: map<string, Key>) {
    exists s :: s in created && IsOwnChild(env, s)
  }

  /** The loops of every call that is done have been met. */
  ghost predicate Revealed(env: Environment, created: map<string, Key>, open: set<string>) {
    forall s :: s in created && CallOf(env, s).Some? && s !in open && !IsLoopFree(env, s) ==> HasLoop(env, created)
  }

  ghost predicate IsSelfLinked(d: ConnectionDictionary, k: Key) {
    k in d && Holds(d[k].inputs, k)
  }

  /** Every call that is its own child, and done, is linked to itself. */
  ghost predicate LoopsAreLinked(env: Environment, st: State, open: set<string>) {
    forall s :: s in st.created && s !in open && IsOwnChild(env, s) ==> IsSelfLinked(st.connections, st.created[s])
  }

  ghost predicate KeepsLinks(d: ConnectionDictionary, e: ConnectionDictionary) {
    forall k: Key, s: Key :: k.FunctionKey? && k in d && Holds(d[k].inputs, s) ==> k in e && Holds(e[k].inputs, s)
  }

  ghost predicate Traced(env: Environment, st: State, open: set<string>) {
    Sound(env, st) && Revealed(env, st.created, open) && LoopsAreLinked(env, st, open)
  }

  ghost predicate Grows(st: State, after: State) {
    Remembers(st.created, after.created) && KeepsLinks(st.connections, after.connections)
  }

  ghost predicate AddsLoopFree(env: Environment, created: map<string, Key>, later: map<string, Key>) {
    forall s :: s in later && s !in created ==> IsLoopFree(env, s)
  }

  lemma GrowsTwice(st: State, mid: State, after: State)
    requires Grows(st, mid) && Grows(mid, after)
    ensures Grows(st, after)
  {
    hide Holds;
  }

  lemma LoopPersists(env: Environment, created: map<string, Key>, later: map<string, Key>)
    requires HasLoop(env, created) && Remembers(created, later)
    ensures HasLoop(env, later)
  {
    hide IsOwnChild;
  }

  lemma SelfLinkPersists(st: State, after: State, k: Key)
    requires IsSelfLinked(st.connections, k) && Grows(st, after) && k.FunctionKey?
    ensures IsSelfLinked(after.connections, k)
  {
    hide Holds;
  }

  // ----- one link

  /** A write to a function that finds its slot drops no link. */
  lemma WriteKeepsLinks(env: Environment, d: ConnectionDictionary, target: ConnectionUnit, input: InputConnection)
    requires !input.Undefined? && Apply(d, LinkAction(target, Put(input))).Some?
    requires target.reactFlowKey.FunctionKey? ==> target.node.Function?
    ensures var e := Apply(d, LinkAction(target, Put(input))).value;
            KeepsLinks(d, e) && target.reactFlowKey in e
            && (input.Linked? ==> Holds(e[target.reactFlowKey].inputs, input.unit.reactFlowKey))
  {
    var a := LinkAction(target, Put(input));
    ApplyEffect(d, a);
    hide Apply, HoldsAt;
    if input.Linked? {
      TargetHoldsIff(d, a, input.unit.reactFlowKey);
    }
    forall k: Key, s: Key | k.FunctionKey? && k in d && Holds(d[k].inputs, s)
      ensures k in Apply(d, a).value && Holds(Apply(d, a).value[k].inputs, s)
    {
      if k == a.targetKey {
        TargetHoldsIff(d, a, s);
        var i, j :| HoldsAt(d[k].inputs, i, j, s);
        assert !Overwrites(a, i, j);
      }
    }
  }

  lemma LinkKeepsLinks(env: Environment, st: State, source: string, destination: Destination)
    requires WellRemembered(env, st.created) && Link(env, st, source, destination).Some?
    ensures var l := Link(env, st, source, destination).value;
            && Grows(st, l) && l.created.Keys == st.created.Keys + {source}
            && l.created[source] == KeyFor(env, st, source)
            && (CallOf(env, source).Some? && TargetOf(env, destination).Some? ==>
                  && TargetOf(env, destination).value in l.connections
                  && Holds(l.connections[TargetOf(env, destination).value].inputs, l.created[source]))
  {
    hide CallOf, KeyFor, InputFor, Apply, GetDestination, Link, Holds;
    LinkIs(env, st, source, destination);
    InputKey(env, st, source);
    LinkRemembers(env, st, source, destination);
    var target := GetDestination(env, destination);
    if target.Some? {
      DestinationKey(env, destination);
      WriteKeepsLinks(env, st.connections, target.value, InputFor(env, KeyFor(env, st, source), source));
    }
  }

  lemma LinkTraces(env: Environment, st: State, source: string, destination: Destination, open: set<string>)
    requires Traced(env, st, open) && GoesBelow(env, st, source, destination, open)
    requires Link(env, st, source, destination).Some?
    ensures var l := Link(env, st, source, destination).value;
            && Grows(st, l) && l.created.Keys == st.created.Keys + {source}
            && Traced(env, l, open + {source})
            && (source in st.created || CallOf(env, source).None? ==> Traced(env, l, open))
  {
    SoundIsNumbered(env, st);
    LinkKeepsSound(env, st, source, destination, open);
    LinkKeepsLinks(env, st, source, destination);
    hide Sound, Link, CallOf, IsLoopFree, Children, GoesBelow, Grows, KeyFor, Receiver;
    var l := Link(env, st, source, destination).value;
    LoopsStayLinked(env, st, l, open);
    LoopsStayRevealed(env, st, l, open);
    OwnChildIsCall(env, source);
  }

  lemma OwnChildIsCall(env: Environment, source: string)
    ensures IsOwnChild(env, source) ==> CallOf(env, source).Some?
  {
    hide CallOf, Children;
  }

  lemma LoopsStayLinked(env: Environment, st: State, after: State, open: set<string>)
    requires LoopsAreLinked(env, st, open) && Grows(st, after) && WellRemembered(env, st.created)
    ensures forall s :: s in st.created && s !in open && IsOwnChild(env, s) ==>
              s in after.created && IsSelfLinked(after.connections, after.created[s])
  {
    hide CallOf, Children, IsSelfLinked;
    forall s | s in st.created && s !in open && IsOwnChild(env, s)
      ensures s in after.created && IsSelfLinked(after.connections, after.created[s])
    {
      OwnChildIsCall(env, s);
      SelfLinkPersists(st, after, st.created[s]);
    }
  }

  lemma LoopsStayRevealed(env: Environment, st: State, after: State, open: set<string>)
    requires Revealed(env, st.created, open) && Grows(st, after)
    ensures forall s :: s in st.created && CallOf(env, s).Some? && s !in open && !IsLoopFree(env, s) ==>
              HasLoop(env, after.created)
  {
    hide CallOf, IsLoopFree, HasLoop;
    if HasLoop(env, st.created) {
      LoopPersists(env, st.created, after.created);
    }
  }

  // ----- the recursion

  /** What creating a text leaves: if it has a loop, a loop was met, and otherwise no new one. */
  ghost predicate Traces(
    env: Environment, st: State, source: string, open: set<string>, after: State)
  {
    && Traced(env, after, open) && Grows(st, after) && source in after.created
    && (!IsLoopFree(env, source) ==> HasLoop(env, after.created))
    && (IsLoopFree(env, source) ==> AddsLoopFree(env, st.created, after.created))
  }

  /** The same for the children from the i-th on of a text that is open. */
  ghost predicate TracesFrom(
    env: Environment, st: State, source: string, i: nat, open: set<string>, after: State)
    requires i <= |Children(source)|
  {
    && Traced(env, after, open) && Grows(st, after) && source in st.created
    && (IsOwnChild(env, source) && source in Children(source)[i..] ==>
          IsSelfLinked(after.connections, st.created[source]))
    && (forall child :: child in Children(source)[i..] && child != source && !IsLoopFree(env, child) ==>
          HasLoop(env, after.created))
    && ((forall child :: child in Children(source)[i..] && child != source ==> IsLoopFree(env, child)) ==>
          AddsLoopFree(env, st.created, after.created))
  }

  /** Where the children of a text go: to nothing, to a target schema node, or to the text's own node. */
  lemma ChildrenLeadToText(env: Environment, created: map<string, Key>, source: string)
    requires WellRemembered(env, created) && source in created
    ensures var target := TargetOf(env, ToNode(created[source]));
            && (target.Some? && target.value.FunctionKey? ==> target.value == created[source])
            && (IsOwnChild(env, source) ==> target == Some(created[source]))
            && (CallOf(env, source).Some? && Receiver(env, source).None? ==> target.None?)
  {
    hide CallOf, Search, Children, FindFunctionForKey;
  }

  lemma ChildGoesBelow(env: Environment, st: State, source: string, child: string, open: set<string>)
    requires WellRemembered(env, st.created) && source in st.created && source in open
    requires forall o :: o in open ==> |o| >= |source|
    requires |child| < |source| || (child == source && CallOf(env, source).Some?)
    requires child in Children(source) && '(' in source
    ensures GoesBelow(env, st, child, ToNode(st.created[source]), open)
    ensures |child| < |source| ==> IsAwaited(env, st, child, ToNode(st.created[source]), open)
  {
    ChildrenLeadToText(env, st.created, source);
    hide CallOf, Children, TargetOf, Receiver;
  }

  lemma {:induction false} CreateTraces(env: Environment, st: State, source: string, destination: Destination,
                                        open: set<string>)
    requires Traced(env, st, open) && IsAwaited(env, st, source, destination, open)
    requires Create(env, st, source, destination).Some?
    ensures Traces(env, st, source, open, Create(env, st, source, destination).value)
    decreases |source|, 1
  {
    CreateUnfolds(env, st, source, destination);
    var l := Link(env, st, source, destination).value;
    AwaitedIsNotOpen(env, st, source, destination, open);
    LinkTraces(env, st, source, destination, open);
    LoopIsBelow(env, source);
    hide *;
    if '(' in source && !IsKnownCall(env, st, source) {
      assert source in l.created by { assert source in st.created.Keys + {source}; }
      NoLongerChild(source);
      WholeRest(env, l, source, ToNode(l.created[source]));
      CreateRestTraces(env, l, source, 0, open + {source});
      var after := Create(env, st, source, destination).value;
      ClosedTraces(env, st, l, source, open, after);
    } else {
      LinkedTraces(env, st, l, source, open);
    }
  }

  lemma CreateUnfolds(env: Environment, st: State, source: string, destination: Destination)
    requires Create(env, st, source, destination).Some?
    ensures !IsReserved(source) && Link(env, st, source, destination).Some?
    ensures var l := Link(env, st, source, destination).value;
            if '(' in source && !IsKnownCall(env, st, source) then
              && (forall child :: child in Children(source) ==> |child| < |source| || child == source)
              && source in l.created
              && Create(env, st, source, destination)
                 == CreateAll(env, l, Children(source), ToNode(l.created[source]), source)
            else Create(env, st, source, destination) == Some(l)
  {
    hide IsReserved, Link, Children;
    CreateIs(env, st, source, destination);
  }

  lemma AwaitedIsNotOpen(env: Environment, st: State, source: string, destination: Destination, open: set<string>)
    requires IsAwaited(env, st, source, destination, open)
    ensures GoesBelow(env, st, source, destination, open) && source !in open
    ensures forall o :: o in open + {source} ==> |o| >= |source|
  {
    hide GoesBelow;
  }

  lemma NoLongerChild(source: string)
    requires '(' in source
    ensures HasNoLongerChild(source)
  {
    ChildrenAreNotLonger(source);
  }

  lemma WholeRest(env: Environment, st: State, source: string, destination: Destination)
    requires HasNoLongerChild(source)
    ensures CreateRest(env, st, source, destination, 0) == CreateAll(env, st, Children(source), destination, source)
  {
    hide CreateAll, Children;
    assert Children(source)[0..] == Children(source);
  }

  /** A text without '(', or a call that is known. */
  lemma LinkedTraces(env: Environment, st: State, l: State, source: string, open: set<string>)
    requires Revealed(env, st.created, open) && source !in open && Grows(st, l)
    requires l.created.Keys == st.created.Keys + {source}
    requires source in st.created || CallOf(env, source).None? ==> Traced(env, l, open)
    requires '(' !in source || IsKnownCall(env, st, source)
    ensures Traces(env, st, source, open, l)
  {
    CallHasParenthesis(env, source);
    hide CallOf, Sound, LoopsAreLinked, Revealed, KeepsLinks, Children;
    LoopIsBelow(env, source);
    if !IsLoopFree(env, source) {
      assert HasLoop(env, st.created) by { KnownIsRevealed(env, st, source, open); }
      LoopPersists(env, st.created, l.created);
    }
    assert source in l.created by { assert source in st.created.Keys + {source}; }
  }

  lemma KnownIsRevealed(env: Environment, st: State, source: string, open: set<string>)
    requires Revealed(env, st.created, open) && source !in open && IsKnownCall(env, st, source)
    requires !IsLoopFree(env, source)
    ensures HasLoop(env, st.created)
  {
  }

  /** A text whose children are all there need not be open any longer. */
  lemma ClosedTraces(env: Environment, st: State, l: State, source: string, open: set<string>, after: State)
    requires Grows(st, l) && l.created.Keys == st.created.Keys + {source} && '(' in source && source in l.created
    requires TracesFrom(env, l, source, 0, open + {source}, after)
    ensures Traces(env, st, source, open, after)
  {
    hide Sound, Children, Receiver, CallOf, KeepsLinks, IsSelfLinked, IsLoopFree;
    GrowsTwice(st, l, after);
    LoopIsBelow(env, source);
    assert Children(source)[0..] == Children(source);
    OwnChildIsRevealed(env, after, source);
    OpenIsClosed(env, after, source, open);
    if IsLoopFree(env, source) {
      assert AddsLoopFree(env, l.created, after.created);
      assert forall s :: s in l.created ==> s in st.created || s == source;
    }
  }

  lemma OwnChildIsRevealed(env: Environment, st: State, source: string)
    ensures IsOwnChild(env, source) && source in st.created ==> HasLoop(env, st.created) && source in Children(source)
  {
    hide Children, Receiver;
  }

  lemma OpenIsClosed(env: Environment, st: State, source: string, open: set<string>)
    requires Traced(env, st, open + {source}) && source in st.created
    requires IsOwnChild(env, source) ==> IsSelfLinked(st.connections, st.created[source])
    requires !IsLoopFree(env, source) ==> HasLoop(env, st.created)
    ensures Traced(env, st, open)
  {
    hide Sound, IsOwnChild, CallOf, IsSelfLinked, IsLoopFree, HasLoop;
  }

  lemma {:induction false} CreateRestTraces(env: Environment, st: State, source: string, i: nat, open: set<string>)
    requires Traced(env, st, open) && source in open && source in st.created && '(' in source
    requires forall o :: o in open ==> |o| >= |source|
    requires i <= |Children(source)| && HasNoLongerChild(source)
    requires CreateRest(env, st, source, ToNode(st.created[source]), i).Some?
    ensures TracesFrom(env, st, source, i, open, CreateRest(env, st, source, ToNode(st.created[source]), i).value)
    decreases |source|, 0, |Children(source)| - i
  {
    hide *;
    TracedIsRemembered(env, st, open);
    var destination := ToNode(st.created[source]);
    if i < |Children(source)| {
      NextCreated(env, st, source, destination, i);
      CreateChildTraces(env, st, source, i, open);
      var after := CreateChild(env, st, Children(source)[i], destination, source).value;
      ChildTraced(env, st, source, i, open, after);
      CreateRestTraces(env, after, source, i + 1, open);
      TracesFurther(env, st, source, i, open, after, CreateRest(env, after, source, destination, i + 1).value);
    } else {
      NoneCreated(env, st, source, destination);
      NothingTraces(env, st, source, open);
    }
  }

  lemma NothingTraces(env: Environment, st: State, source: string, open: set<string>)
    requires Traced(env, st, open) && source in st.created
    ensures TracesFrom(env, st, source, |Children(source)|, open, st)
  {
    hide Sound, Children, Receiver, CallOf, IsLoopFree;
  }

  /** What creating one child leaves. */
  ghost predicate ChildTraces(env: Environment, st: State, source: string, child: string, open: set<string>,
                              after: State)
  {
    && Traced(env, after, open) && Grows(st, after) && source in st.created
    && (child == source && IsOwnChild(env, source) ==> IsSelfLinked(after.connections, st.created[source]))
    && (child != source && !IsLoopFree(env, child) ==> HasLoop(env, after.created))
    && (child == source || IsLoopFree(env, child) ==> AddsLoopFree(env, st.created, after.created))
  }

  lemma ChildTraced(env: Environment, st: State, source: string, i: nat, open: set<string>, after: State)
    requires i < |Children(source)| && ChildTraces(env, st, source, Children(source)[i], open, after)
    ensures Traced(env, after, open) && source in st.created && source in after.created
    ensures after.created[source] == st.created[source]
  {
    hide Traced, Children, KeepsLinks, IsLoopFree, Receiver;
  }

  lemma TracesFurther(env: Environment, st: State, source: string, i: nat, open: set<string>, mid: State, after: State)
    requires i < |Children(source)| && ChildTraces(env, st, source, Children(source)[i], open, mid)
    requires WellRemembered(env, st.created)
    requires TracesFrom(env, mid, source, i + 1, open, after)
    ensures TracesFrom(env, st, source, i, open, after)
  {
    GrowsTwice(st, mid, after);
  }

  lemma {:induction false} CreateChildTraces(env: Environment, st: State, source: string, i: nat, open: set<string>)
    requires Traced(env, st, open) && source in open && source in st.created && '(' in source
    requires forall o :: o in open ==> |o| >= |source|
    requires i < |Children(source)| && HasNoLongerChild(source)
    ensures |Children(source)[i]| < |source| || Children(source)[i] == source
    ensures var r := CreateChild(env, st, Children(source)[i], ToNode(st.created[source]), source);
            r.Some? ==> ChildTraces(env, st, source, Children(source)[i], open, r.value)
    decreases |source|, 0, 0
  {
    var child, destination := Children(source)[i], ToNode(st.created[source]);
    assert child in Children(source);
    TracedIsRemembered(env, st, open);
    if CreateChild(env, st, child, destination, source).Some? {
      ChildGoesBelow(env, st, source, child, open);
      if child != source {
        hide *;
        CreateTraces(env, st, child, destination, open);
        OtherChildTraces(env, st, source, child, open, Create(env, st, child, destination).value);
      } else {
        OwnChildTraces(env, st, source, open);
      }
    }
  }

  lemma TracedIsRemembered(env: Environment, st: State, open: set<string>)
    requires Traced(env, st, open)
    ensures WellRemembered(env, st.created)
  {
    SoundIsNumbered(env, st);
  }

  lemma OtherChildTraces(env: Environment, st: State, source: string, child: string, open: set<string>, after: State)
    requires Traces(env, st, child, open, after) && child != source && source in st.created
    ensures ChildTraces(env, st, source, child, open, after)
  {
    hide Traced, KeepsLinks, IsLoopFree, IsOwnChild;
  }

  lemma OwnChildTraces(env: Environment, st: State, source: string, open: set<string>)
    requires Traced(env, st, open) && source in open && source in st.created && CallOf(env, source).Some?
    requires GoesBelow(env, st, source, ToNode(st.created[source]), open)
    requires Link(env, st, source, ToNode(st.created[source])).Some?
    ensures ChildTraces(env, st, source, source, open, Link(env, st, source, ToNode(st.created[source])).value)
  {
    TracedIsRemembered(env, st, open);
    LinkTraces(env, st, source, ToNode(st.created[source]), open);
    LinkKeepsLinks(env, st, source, ToNode(st.created[source]));
    ChildrenLeadToText(env, st.created, source);
    hide Traced, Link, KeepsLinks, IsLoopFree, IsOwnChild, CallOf, TargetOf, KeyFor, Holds;
  }

  // ----- a whole definition

  lemma PathAwaits(env: Environment, st: State, source: string, path: string)
    ensures IsAwaited(env, st, source, ToPath(path), {})
  {
    hide Search;
  }

  lemma {:induction false} DefinitionTraces(env: Environment, st: State, mappings: seq<Mapping>)
    requires Traced(env, st, {}) && DeserializeAll(env, st, mappings).Some?
    ensures var after := DeserializeAll(env, st, mappings).value;
            && Traced(env, after, {}) && Remembers(st.created, after.created)
            && (HasLoop(env, after.created) <==>
                  HasLoop(env, st.created) || exists m :: m in mappings && !IsLoopFree(env, m.text))
    decreases |mappings|
  {
    if mappings != [] {
      var m := mappings[0];
      var mid := Create(env, st, m.text, ToPath(m.path)).value;
      PathAwaits(env, st, m.text, m.path);
      hide Traced, Traces, Create, IsLoopFree, IsOwnChild, Remembers;
      CreateTraces(env, st, m.text, ToPath(m.path), {});
      MappingTraces(env, st, m.text, mid);
      DefinitionTraces(env, mid, mappings[1..]);
      RemembersTwice(st, mid, DeserializeAll(env, st, mappings).value);
      assert forall n :: n in mappings <==> n == m || n in mappings[1..];
    } else {
      hide Traced, HasLoop, IsLoopFree;
    }
  }

  lemma RemembersTwice(st: State, mid: State, after: State)
    requires Remembers(st.created, mid.created) && Remembers(mid.created, after.created)
    ensures Remembers(st.created, after.created)
  {
  }

  lemma MappingTraces(env: Environment, st: State, source: string, after: State)
    requires Traces(env, st, source, {}, after)
    ensures Traced(env, after, {}) && Remembers(st.created, after.created)
    ensures HasLoop(env, after.created) <==> HasLoop(env, st.created) || !IsLoopFree(env, source)
  {
    hide Traced, IsLoopFree, IsOwnChild, KeepsLinks;
    if HasLoop(env, st.created) {
      LoopPersists(env, st.created, after.created);
    }
    if IsLoopFree(env, source) && HasLoop(env, after.created) {
      var s :| s in after.created && IsOwnChild(env, s);
      OwnChildHasLoop(env, s);
      assert s in st.created;
    }
  }

  lemma OwnChildHasLoop(env: Environment, source: string)
    requires IsOwnChild(env, source)
    ensures !IsLoopFree(env, source)
  {
    hide IsOwnChild, Children;
    LoopIsBelow(env, source);
    assert '(' in source by { OwnChildHasParenthesis(env, source); }
  }

  lemma OwnChildHasParenthesis(env: Environment, source: string)
    requires IsOwnChild(env, source)
    ensures '(' in source
  {
  }

  // ----- cycles

  ghost function TextLength(created: map<string, Key>, k: Key): nat {
    if exists s :: s in created && created[s] == k then
      var s :| s in created && created[s] == k;
      |s|
    else 0
  }

  ghost function RankOf(created: map<string, Key>, k: Key): nat {
    if k.FunctionKey? then 1 + TextLength(created, k) else 0
  }

  lemma DescentRanksLower(env: Environment, st: State, input: Key, holder: Key)
    requires Numbered(env, st) && EdgeDescends(env, st.created, input, holder) && !HasLoop(env, st.created)
    ensures !input.TargetKey? && (holder.TargetKey? || RankOf(st.created, input) < RankOf(st.created, holder))
  {
    hide WellRemembered, IsOwnChild;
    if input.FunctionKey? && holder.FunctionKey? {
      var s, t :| s in st.created && t in st.created && st.created[s] == input && st.created[t] == holder
                  && (|s| < |t| || (s == t && IsOwnChild(env, t)));
      assert TextLength(st.created, input) == |s| && TextLength(st.created, holder) == |t|;
    }
  }

  lemma LoopFreeIsAcyclic(env: Environment, st: State)
    requires Sound(env, st) && !HasLoop(env, st.created)
    ensures Acyclic(InGraph(st.connections))
  {
    hide EdgeDescends, TextLength, Numbered, Mirror, Tidy, Holds, HasLoop;
    var g := InGraph(st.connections);
    forall k, s | s in Successors(g, k)
      ensures !s.TargetKey? && (k.TargetKey? || RankOf(st.created, s) < RankOf(st.created, k))
    {
      HeldIsSuccessor(st.connections, k, s);
      DescentRanksLower(env, st, s, k);
    }
    RankedIsAcyclic(g, (k: Key) => RankOf(st.created, k), (k: Key) => k.TargetKey?);
  }

  /** A node that is linked to itself closes a cycle. */
  lemma SelfLinkIsCycle(d: ConnectionDictionary, k: Key)
    requires IsSelfLinked(d, k)
    ensures !Acyclic(InGraph(d))
  {
    HeldIsSuccessor(d, k, k);
    ReachesSelf(InGraph(d), k);
    CycleRefutes(InGraph(d), k, k);
  }

  lemma StartIsTraced(env: Environment)
    ensures Traced(env, START_STATE, {}) && !HasLoop(env, START_STATE.created)
  {
  }

  /** The graph that a definition is read into has no cycle exactly when no text that is met, in any of its
      values, is a call that is its own child and whose node takes it. */
  lemma DeserializedIsAcyclicIff(env: Environment, mappings: seq<Mapping>)
    requires DeserializeAll(env, START_STATE, mappings).Some?
    ensures Acyclic(InGraph(DeserializeAll(env, START_STATE, mappings).value.connections))
            <==> forall m :: m in mappings ==> IsLoopFree(env, m.text)
  {
    hide IsLoopFree, Acyclic, DeserializeAll, IsOwnChild, Sound, IsSelfLinked;
    StartIsTraced(env);
    DefinitionTraces(env, START_STATE, mappings);
    var r := DeserializeAll(env, START_STATE, mappings).value;
    if HasLoop(env, r.created) {
      var s :| s in r.created && IsOwnChild(env, s);
      SelfLinkIsCycle(r.connections, r.created[s]);
    } else {
      LoopFreeIsAcyclic(env, r);
    }
  }

  // ----- a call that is not closed

  lemma UnclosedCallIsItsOwnChild(name: string)
    requires IsSeparatorFree(name) && name != "" && !IsSpace(name[0])
    ensures Children(name + "(") == [name + "("]
  {
    var s := name + "(";
    assert s == name + ['('] + "";
    FirstAt(name, '(', "");
    assert forall k :: 0 <= k < |s| ==> s[k] != ')';
    assert Parameters(s) == s;
    ScanConcat(START, name, "(");
    ScanSeparatorFree(START, name);
    assert "" + name == name;
    ScanCharacter(Scan(Plain, 0, name, []), '(', "");
    assert ['('] + "" == "(" && name + ['('] == s;
    assert ScanText(START, s) == Scan(Plain, 1, s, []);
    assert IsTrimmed(s) by { assert s[|s| - 1] == '('; }
    TrimDropsLeadingSpace(s);
    assert [] + [s] == [s];
  }

  /** A known call without its ')' is its own child: the deserializer gets through it, and leaves its node
      linked to itself. */
  lemma UnclosedCallLinksItself(env: Environment, name: string, path: string)
    requires IsSeparatorFree(name) && name != "" && !IsSpace(name[0]) && !IsReserved(name + "(")
             && UniqueFunctionKeys(env)
    requires FindFunctionForFunctionName(name, env.functions).Some?
    requires var data := FindFunctionForFunctionName(name, env.functions).value; '-' !in data.key && CanTake(data)
    ensures var r := DeserializeAll(env, START_STATE, [Mapping(path, name + "(")]);
            r.Some? && !Acyclic(InGraph(r.value.connections)) && !Acyclic(OutGraph(r.value.connections))
  {
    var s, ms := name + "(", [Mapping(path, name + "(")];
    UnclosedCallIsItsOwnChild(name);
    CallOfUnclosed(env, name);
    CalledFunctionIsFound(env, s);
    StartIsTraced(env);
    assert Receiver(env, s) == CallOf(env, s);
    assert s in [s] && IsOwnChild(env, s);
    hide UniqueFunctionKeys, Children, IsReserved, CallOf, FindFunctionForKey, FindFunctionForFunctionName, CanTake,
      IsOwnChild, Traced, DeserializeAll, Acyclic, Settles;
    SettlesUnfolds(env, s);
    StartIsShaped(env);
    DeserializeSucceedsIff(env, START_STATE, ms);
    DefinitionTraces(env, START_STATE, ms);
    DeserializedIsAcyclicIff(env, ms);
    OwnChildHasLoop(env, s);
    assert ms[0] in ms;
    TracedIsMirrored(env, DeserializeAll(env, START_STATE, ms).value);
    MirrorReverses(DeserializeAll(env, START_STATE, ms).value.connections);
  }

  lemma StartIsShaped(env: Environment)
    ensures Shaped(env, START_STATE, {})
  {
  }

  lemma TracedIsMirrored(env: Environment, st: State)
    requires Traced(env, st, {})
    ensures Mirror(st.connections)
  {
  }

  lemma CallOfUnclosed(env: Environment, name: string)
    requires IsSeparatorFree(name)
    ensures CallOf(env, name + "(") == FindFunctionForFunctionName(name, env.functions) && '(' in name + "("
  {
    var s := name + "(";
    assert s == name + ['('] + "" && s[|name|] == '(';
    FirstAt(name, '(', "");
    assert s[..|name|] == name;
  }
}
