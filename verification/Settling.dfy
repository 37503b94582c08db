/** For which texts the deserializer's recursion comes to an end without throwing. */
module Settling {
  import opened Model
  import opened Strings
  import opened Splitter
  import opened FunctionUtils
  import opened Connections
  import opened ConnectionInvariants
  import opened Slots
  import opened Schemas
  import opened Deserializer

  /** Every function is found by its own key. */
  ghost predicate UniqueFunctionKeys(env: Environment) {
    forall i :: 0 <= i < |env.functions| ==>
        FindFunctionForKey(env.functions[i].key, env.functions) == Some(env.functions[i])
  }

  /** The function that the children of a text are linked to. */
  function Receiver(env: Environment, source: string): Option<FunctionData> {
    match CallOf(env, source)
    case None => None
    case Some(data) => if '-' in data.key then None else FindFunctionForKey(data.key, env.functions)
  }

  /** No text visited is reserved, none but a call is its own child, and no function that is declared
      without inputs is given one. */
  predicate Settles(env: Environment, source: string)
    decreases |source|
  {
    if IsReserved(source) then false
    else if '(' !in source then true
    else
      ChildrenAreNotLonger(source);
      var children := Children(source);
      && (children != [] && Receiver(env, source).Some? ==> CanTake(Receiver(env, source).value))
      && forall i :: 0 <= i < |children| ==>
           assert children[i] in children;
           if children[i] == source then CallOf(env, source).Some? else Settles(env, children[i])
  }

  /** The destination is not found, or can take an input. */
  predicate Takes(env: Environment, destination: Destination) {
    var target := GetDestination(env, destination);
    target.Some? && target.value.node.Function? ==> CanTake(target.value.node.data)
  }

  ghost predicate WellRemembered(env: Environment, created: map<string, Key>) {
    forall s :: s in created ==>
      match CallOf(env, s)
      case None => created[s] == SourceKey(s)
      case Some(data) => created[s].FunctionKey? && created[s].functionKey == data.key
  }

  ghost predicate HasDeclaredSlots(env: Environment, d: ConnectionDictionary) {
    forall k :: k in d ==>
      match k
      case SourceKey(_) => true
      case TargetKey(_) => d[k].inputs != []
      case FunctionKey(functionKey, _) =>
        var found := FindFunctionForKey(functionKey, env.functions);
        found.Some? && HasShape(d[k].inputs, found.value)
  }

  /** What every state of a deserialization keeps; open are the texts whose children are being created. */
  ghost predicate Shaped(env: Environment, st: State, open: set<string>) {
    && WellRemembered(env, st.created) && HasDeclaredSlots(env, st.connections)
    && forall s :: s in st.created && CallOf(env, s).Some? && s !in open ==> Settles(env, s)
  }

  ghost predicate Remembers(before: map<string, Key>, after: map<string, Key>) {
    forall s :: s in before ==> s in after && after[s] == before[s]
  }

  lemma CalledFunctionIsFound(env: Environment, source: string)
    requires UniqueFunctionKeys(env) && CallOf(env, source).Some?
    ensures FindFunctionForKey(CallOf(env, source).value.key, env.functions) == CallOf(env, source)
  {
    var name := source[..IndexOf(source, '(')];
    var i :| 0 <= i < |env.functions| && Some(env.functions[i]) == FindFunctionForFunctionName(name, env.functions);
  }

  /** A link to a schema node never throws. */
  lemma SchemaTakesLink(d: ConnectionDictionary, target: ConnectionUnit, input: InputConnection)
    requires target.node.Schema? && !input.Undefined?
    requires target.reactFlowKey in d ==> d[target.reactFlowKey].inputs != []
    ensures var after := Apply(d, LinkAction(target, Put(input)));
            after.Some? && target.reactFlowKey in after.value && after.value[target.reactFlowKey].inputs != []
  {
    var a := LinkAction(target, Put(input));
    assert Apply(d, a).Some?;
    ApplyEffect(d, a);
    StoredInputs(d, a);
  }

  lemma FunctionTakesLinkIff(env: Environment, d: ConnectionDictionary, data: FunctionData, key: Key,
      input: InputConnection)
    requires HasDeclaredSlots(env, d) && key.FunctionKey?
             && FindFunctionForKey(key.functionKey, env.functions) == Some(data)
    requires !input.Undefined?
    ensures var after := Apply(d, FindWrite(data, key, input));
            && (after.Some? <==> CanTake(data))
            && (after.Some? ==> key in after.value && HasShape(after.value[key].inputs, data))
  {
    hide Apply, AfterFind;
    var inputs := InputsBefore(d, FindWrite(data, key, input));
    FreshEntryHasShape(data);
    FindWriteStores(d, data, key, input);
    FindKeepsShape(inputs, data, input);
  }

  lemma KeyForIsWellRemembered(env: Environment, st: State, source: string)
    requires WellRemembered(env, st.created)
    ensures match CallOf(env, source)
            case None => KeyFor(env, st, source) == SourceKey(source)
            case Some(data) => KeyFor(env, st, source).FunctionKey? && KeyFor(env, st, source).functionKey == data.key
  {
    hide CallOf;
  }

  lemma DestinationKey(env: Environment, destination: Destination)
    requires GetDestination(env, destination).Some?
    ensures var target := GetDestination(env, destination).value;
            match target.node
            case Schema(_) => target.reactFlowKey.TargetKey?
            case Function(data) => target.reactFlowKey.FunctionKey?
                                   && FindFunctionForKey(target.reactFlowKey.functionKey, env.functions) == Some(data)
  {
    hide Search, FindFunctionForKey;
  }

  lemma LinkRemembers(env: Environment, st: State, source: string, destination: Destination)
    requires WellRemembered(env, st.created) && Link(env, st, source, destination).Some?
    ensures var after := Link(env, st, source, destination).value.created;
            && WellRemembered(env, after) && Remembers(st.created, after)
            && source in after && after[source] == KeyFor(env, st, source)
            && after.Keys == st.created.Keys + {source}
  {
    hide Apply, GetDestination;
  }

  /** A link throws exactly for a function that is declared without inputs. */
  lemma LinkSucceedsIff(env: Environment, st: State, source: string, destination: Destination, open: set<string>)
    requires UniqueFunctionKeys(env) && Shaped(env, st, open)
    ensures Link(env, st, source, destination).Some? <==> Takes(env, destination)
    ensures Link(env, st, source, destination).Some? ==>
              var after := Link(env, st, source, destination).value;
              && Shaped(env, after, open + {source}) && Remembers(st.created, after.created)
              && source in after.created && after.created[source] == KeyFor(env, st, source)
  {
    hide Apply, Settles, HasDeclaredSlots, HasShape, UniqueFunctionKeys, InputFor;
    var target := GetDestination(env, destination);
    if target.Some? {
      KeyForIsWellRemembered(env, st, source);
      DestinationKey(env, destination);
      hide KeyFor, WellRemembered, CallOf, GetDestination;
      TargetTakesIff(env, st.connections, source, KeyFor(env, st, source), target.value);
    }
    if Link(env, st, source, destination).Some? {
      LinkRemembers(env, st, source, destination);
    }
  }

  /** The entries after a link still have the slots they are declared with. */
  lemma TargetTakesIff(env: Environment, d: ConnectionDictionary, source: string, key: Key, target: ConnectionUnit)
    requires UniqueFunctionKeys(env) && HasDeclaredSlots(env, d)
    requires match CallOf(env, source)
             case None => key == SourceKey(source)
             case Some(data) => key.FunctionKey? && key.functionKey == data.key
    requires match target.node
             case Schema(_) => target.reactFlowKey.TargetKey?
             case Function(data) => target.reactFlowKey.FunctionKey?
                                    && FindFunctionForKey(target.reactFlowKey.functionKey, env.functions) == Some(data)
    ensures var after := Apply(d, LinkAction(target, Put(InputFor(env, key, source))));
            && (after.Some? <==> (target.node.Function? ==> CanTake(target.node.data)))
            && (after.Some? ==> HasDeclaredSlots(env, after.value))
  {
    var input := InputFor(env, key, source);
    var a := LinkAction(target, Put(input));
    match target.node {
      case Schema(_) => SchemaTakesLink(d, target, input);
      case Function(data) => FunctionTakesLinkIff(env, d, data, target.reactFlowKey, input);
    }
    if Apply(d, a).Some? {
      hide UniqueFunctionKeys;
      if CallOf(env, source).Some? {
        CalledFunctionIsFound(env, source);
        FreshEntryHasShape(CallOf(env, source).value);
      }
      NewEntriesHaveShape(env, d, a);
    }
  }

  lemma NewEntriesHaveShape(env: Environment, d: ConnectionDictionary, a: Action)
    requires HasDeclaredSlots(env, d) && !IsRejected(a) && a.findInputSlot && Apply(d, a).Some?
    requires HasDeclaredSlots(env, map[a.targetKey := Apply(d, a).value[a.targetKey]])
    requires a.write.Put? && a.write.input.Linked? ==>
               var unit := a.write.input.unit;
               match unit.reactFlowKey
               case SourceKey(_) => true
               case TargetKey(_) => false
               case FunctionKey(functionKey, _) =>
                 unit.node.Function? && FindFunctionForKey(functionKey, env.functions) == Some(unit.node.data)
    ensures HasDeclaredSlots(env, Apply(d, a).value)
  {
    ApplyEffect(d, a);
    var e := Apply(d, a).value;
    hide Apply;
    forall k | k in e && k != a.targetKey && !k.SourceKey? ensures HasDeclaredSlots(env, map[k := e[k]]) {
      if k !in d {
        FreshEntryHasShape(a.write.input.unit.node.data);
      }
    }
    assert forall k :: k in e ==> map[k := e[k]][k] == e[k];
  }

  lemma RememberedTakesIff(env: Environment, st: State, source: string, open: set<string>)
    requires Shaped(env, st, open) && source in st.created
    ensures Takes(env, ToNode(st.created[source]))
            <==> (Receiver(env, source).Some? ==> CanTake(Receiver(env, source).value))
  {
    hide Settles, HasDeclaredSlots, Search;
  }

  /** Whether the i-th child and those after it can be created. */
  ghost predicate ChildrenSettle(env: Environment, source: string, i: nat)
    requires i <= |Children(source)|
  {
    && (i < |Children(source)| && Receiver(env, source).Some? ==> CanTake(Receiver(env, source).value))
    && forall j :: i <= j < |Children(source)| ==>
         if Children(source)[j] == source then CallOf(env, source).Some? else Settles(env, Children(source)[j])
  }

  lemma SettlesUnfolds(env: Environment, source: string)
    ensures Settles(env, source) <==> !IsReserved(source) && ('(' in source ==> ChildrenSettle(env, source, 0))
  {
    if '(' in source { ChildrenAreNotLonger(source); }
  }

  /** The deserializer gets through a text exactly when the text settles and the destination can take it. */
  lemma {:induction false} CreateSucceedsIff(env: Environment, st: State, source: string, destination: Destination,
      open: set<string>)
    requires UniqueFunctionKeys(env) && Shaped(env, st, open) && source !in open
    requires forall o :: o in open ==> |o| >= |source|
    ensures Create(env, st, source, destination).Some? <==> Settles(env, source) && Takes(env, destination)
    ensures Create(env, st, source, destination).Some? ==>
              var after := Create(env, st, source, destination).value;
              Shaped(env, after, open) && Remembers(st.created, after.created) && source in after.created
    decreases |source|, 1
  {
    hide Takes, Settles, Children, IsReserved, UniqueFunctionKeys, Shaped, Link, CreateAll, ChildrenSettle;
    SettlesUnfolds(env, source);
    LinkSucceedsIff(env, st, source, destination, open);
    if !IsReserved(source) && Link(env, st, source, destination).Some? {
      var l := Link(env, st, source, destination).value;
      if '(' in source && !IsKnownCall(env, st, source) {
        ChildrenAreNotLonger(source);
        CreateAllSucceedsIff(env, l, source, 0, open + {source});
        assert Children(source)[0..] == Children(source);
        CloseText(env, CreateAll(env, l, Children(source), ToNode(l.created[source]), source), source, open);
      } else {
        if IsKnownCall(env, st, source) {
          KnownTextSettles(env, st, source, open);
        }
        CloseText(env, Some(l), source, open);
      }
    }
  }

  lemma KnownTextSettles(env: Environment, st: State, source: string, open: set<string>)
    requires Shaped(env, st, open) && source !in open && source in st.created && CallOf(env, source).Some?
    ensures Settles(env, source)
  {
  }

  /** A text that settles need not be open any longer. */
  lemma CloseText(env: Environment, after: Option<State>, source: string, open: set<string>)
    requires after.Some? ==>
             Shaped(env, after.value, open + {source}) && (CallOf(env, source).Some? ==> Settles(env, source))
    ensures after.Some? ==> Shaped(env, after.value, open)
  {
    hide Settles, HasDeclaredSlots, WellRemembered, CallOf;
  }

  lemma {:induction false} CreateAllSucceedsIff(env: Environment, st: State, source: string, i: nat, open: set<string>)
    requires UniqueFunctionKeys(env) && Shaped(env, st, open) && source in open && source in st.created
    requires forall o :: o in open ==> |o| >= |source|
    requires '(' in source && i <= |Children(source)|
    requires forall child :: child in Children(source) ==> |child| < |source| || child == source
    ensures forall child :: child in Children(source)[i..] ==> |child| < |source| || child == source
    ensures var r := CreateAll(env, st, Children(source)[i..], ToNode(st.created[source]), source);
            && (r.Some? <==> ChildrenSettle(env, source, i))
            && (r.Some? ==> Shaped(env, r.value, open) && Remembers(st.created, r.value.created))
    decreases |source|, 0, |Children(source)| - i
  {
    hide Takes, Settles, Children, CreateChild, Shaped, UniqueFunctionKeys;
    var children, destination := Children(source), ToNode(st.created[source]);
    if i < |children| {
      var child := children[i];
      assert child in children && children[i..][0] == child && children[i..][1..] == children[i + 1..];
      RememberedTakesIff(env, st, source, open);
      CreateChildSucceedsIff(env, st, source, child, open);
      if CreateChild(env, st, child, destination, source).Some? {
        CreateAllSucceedsIff(env, CreateChild(env, st, child, destination, source).value, source, i + 1, open);
      }
    }
  }

  lemma {:induction false} CreateChildSucceedsIff(env: Environment, st: State, source: string, child: string,
      open: set<string>)
    requires UniqueFunctionKeys(env) && Shaped(env, st, open) && source in open && source in st.created
    requires forall o :: o in open ==> |o| >= |source|
    requires |child| < |source| || child == source
    ensures var r := CreateChild(env, st, child, ToNode(st.created[source]), source);
            && (r.Some? <==> Takes(env, ToNode(st.created[source]))
                             && if child == source then CallOf(env, source).Some? else Settles(env, child))
            && (r.Some? ==> Shaped(env, r.value, open) && Remembers(st.created, r.value.created))
    decreases |source|, 0, 0
  {
    hide Takes, Settles, Shaped, UniqueFunctionKeys, Link, Create;
    if child == source {
      LinkSucceedsIff(env, st, source, ToNode(st.created[source]), open);
      assert open + {source} == open;
    } else {
      ShorterIsNotOpen(open, child, source);
      CreateSucceedsIff(env, st, child, ToNode(st.created[source]), open);
    }
  }

  lemma ShorterIsNotOpen(open: set<string>, child: string, source: string)
    requires |child| < |source| && forall o :: o in open ==> |o| >= |source|
    ensures child !in open && forall o :: o in open ==> |o| >= |child|
  {
  }

  /** The deserializer gets through a definition exactly when every value's text settles. */
  lemma {:induction false} DeserializeSucceedsIff(env: Environment, st: State, mappings: seq<Mapping>)
    requires UniqueFunctionKeys(env) && Shaped(env, st, {})
    ensures DeserializeAll(env, st, mappings).Some?
            <==> forall i :: 0 <= i < |mappings| ==> Settles(env, mappings[i].text)
    decreases |mappings|
  {
    hide Shaped, Settles, Create, UniqueFunctionKeys;
    if mappings != [] {
      var m := mappings[0];
      PathTakes(env, m.path);
      CreateSucceedsIff(env, st, m.text, ToPath(m.path), {});
      if Create(env, st, m.text, ToPath(m.path)).Some? {
        DeserializeSucceedsIff(env, Create(env, st, m.text, ToPath(m.path)).value, mappings[1..]);
        assert forall i :: 0 < i < |mappings| ==> mappings[i] == mappings[1..][i - 1];
        if forall i :: 0 <= i < |mappings[1..]| ==> Settles(env, mappings[1..][i].text) {
          forall i | 0 <= i < |mappings| ensures Settles(env, mappings[i].text) {
            if i > 0 { assert mappings[1..][i - 1] == mappings[i]; }
          }
        }
      }
    }
  }

  lemma PathTakes(env: Environment, path: string)
    ensures Takes(env, ToPath(path))
  {
    hide Search;
  }
}
