/** What the texts of a definition are linked to: source paths to the nodes of the source schema, calls to
    their functions, everything else to nothing (MapDefinitionDeserializer.ts). */
module LinkedSources {
  import opened Model
  import opened Strings
  import opened Expressions
  import opened FunctionUtils
  import opened Connections
  import opened ConnectionInvariants
  import opened Slots
  import opened SlotContents
  import opened Schemas
  import opened Deserializer
  import opened Settling
  import opened RoundTrip
  import opened RoundTripPrinting

  ghost predicate IsFirstNamed(data: FunctionData, name: string, functions: seq<FunctionData>) {
    data.functionName == name
    && exists i :: 0 <= i < |functions| && functions[i] == data
                   && forall j :: 0 <= j < i ==> functions[j].functionName != name
  }

  /** The node of the source schema with this key. */
  ghost predicate IsSourceNode(env: Environment, n: SchemaNode, key: string) {
    n in FlattenNode(env.sourceRoot) && n.key == key
  }

  /** What a text has to become: a link to the source node it is the key of, a link to a node made for the
      function it calls, or the text itself. */
  ghost predicate StandsFor(env: Environment, input: InputConnection, text: string) {
    if '(' in text then
      var name := text[..IndexOf(text, '(')];
      if exists data :: IsFirstNamed(data, name, env.functions) then
        && input.Linked? && input.unit.node.Function? && IsFirstNamed(input.unit.node.data, name, env.functions)
        && input.unit.reactFlowKey.FunctionKey? && input.unit.reactFlowKey.functionKey == input.unit.node.data.key
      else input == Custom(text)
    else if exists n :: IsSourceNode(env, n, text) then
      && input.Linked? && input.unit.node.Schema? && IsSourceNode(env, input.unit.node.schema, text)
      && input.unit.reactFlowKey == SourceKey(text)
    else input == Custom(text)
  }

  lemma PathStandsFor(env: Environment, key: Key, text: string)
    requires UniqueKeys(FlattenNode(env.sourceRoot)) && '(' !in text && key == SourceKey(text)
    ensures StandsFor(env, InputFor(env, key, text), text)
  {
    hide FlattenNode, Search, UniqueKeys;
    UniqueKeysAgree(env.sourceRoot, text);
    AbsentLookUp(FlattenNode(env.sourceRoot), text);
    if n :| IsSourceNode(env, n, text) {
      UniqueIsIndexed(FlattenNode(env.sourceRoot), n);
    }
  }

  lemma CallStandsFor(env: Environment, key: Key, text: string)
    requires '(' in text
    requires CallOf(env, text).Some? ==> key.FunctionKey? && key.functionKey == CallOf(env, text).value.key
    ensures StandsFor(env, InputFor(env, key, text), text)
  {
    var name := text[..IndexOf(text, '(')];
    var found := FindFunctionForFunctionName(name, env.functions);
    assert found.Some? ==> IsFirstNamed(found.value, name, env.functions);
    assert forall data :: IsFirstNamed(data, name, env.functions) ==> data in env.functions;
  }

  /** Whatever is remembered under its key stands for its text. */
  lemma RememberedStandsFor(env: Environment, created: map<string, Key>, text: string)
    requires UniqueKeys(FlattenNode(env.sourceRoot)) && WellRemembered(env, created) && text in created
    ensures StandsFor(env, InputFor(env, created[text], text), text)
    ensures InputFor(env, created[text], text).Linked? ==>
              InputFor(env, created[text], text).unit.reactFlowKey == created[text]
  {
    hide FlattenNode, UniqueKeys, StandsFor;
    if '(' in text {
      CallStandsFor(env, created[text], text);
    } else {
      PathStandsFor(env, created[text], text);
    }
  }

  /** A linked input has an entry that lists the node holding it. */
  ghost predicate IsListed(d: ConnectionDictionary, input: InputConnection, holder: Key) {
    input.Linked? ==> input.unit.reactFlowKey in d && Lists(d[input.unit.reactFlowKey], holder)
  }

  /** The field of a function's entry for its i-th argument. */
  function ArgumentAt(inputs: seq<seq<InputConnection>>, data: FunctionData, i: nat): InputConnection {
    if data.maxNumberOfInputs == -1 then FieldAt(inputs, 0, i) else FieldAt(inputs, i, 0)
  }

  /** The node made for a call holds, for each argument in order, what the argument's text stands for; a call
      among them is made in the same way. A function with a dash in its key holds nothing. */
  ghost predicate IsBuilt(env: Environment, d: ConnectionDictionary, key: Key, e: Expr)
    decreases e
  {
    && e.Call? && key in d && d[key].self.node.Function? && d[key].self.reactFlowKey == key
    && IsFirstNamed(d[key].self.node.data, e.name, env.functions)
    && var data := d[key].self.node.data;
       if '-' in data.key then forall i: nat :: ArgumentAt(d[key].inputs, data, i).Undefined?
       else
         && (forall i: nat :: i >= |e.args| ==> ArgumentAt(d[key].inputs, data, i).Undefined?)
         && forall i :: 0 <= i < |e.args| ==>
              var input := ArgumentAt(d[key].inputs, data, i);
              && StandsFor(env, input, Render(e.args[i])) && IsListed(d, input, key)
              && (e.args[i].Call? ==> input.Linked? && IsBuilt(env, d, input.unit.reactFlowKey, e.args[i]))
  }

  lemma FilledField(data: FunctionData, values: seq<InputConnection>, i: nat)
    requires Fits(data, values)
    ensures ArgumentAt(FilledInputs(data, values), data, i) == if i < |values| then values[i] else Undefined
  {
    if i < |values| {
      assert FitsAt(data, i, values[i]);
    }
  }

  lemma HeldIsListed(d: ConnectionDictionary, holder: Key, data: FunctionData, i: nat)
    requires Mirror(d) && holder in d
    ensures IsListed(d, ArgumentAt(d[holder].inputs, data, i), holder)
  {
    hide Lists;
    var input := ArgumentAt(d[holder].inputs, data, i);
    if input.Linked? {
      if data.maxNumberOfInputs == -1 {
        assert HoldsAt(d[holder].inputs, 0, i, input.unit.reactFlowKey);
      } else {
        assert HoldsAt(d[holder].inputs, i, 0, input.unit.reactFlowKey);
      }
    }
  }

  lemma {:induction false} BuiltCallIsLinked(env: Environment, st: State, e: Expr)
    requires UniqueKeys(FlattenNode(env.sourceRoot)) && Deserializable(env, e) && e.Call?
    requires Sound(env, st) && Complete(env, st, {})
    requires Render(e) in st.created && st.created[Render(e)] in st.connections
    ensures IsBuilt(env, st.connections, st.created[Render(e)], e)
    decreases e
  {
    hide UniqueKeys, FlattenNode, Sound, Complete, Deserializable, StandsFor, FilledInputs, Fits, IsListed, Render,
      InputFor, ArgumentAt;
    var d, key, data := st.connections, st.created[Render(e)], DataOf(env, e);
    var kept := if '-' in data.key then [] else e.args;
    HeldInputs(env, st, e, kept);
    FunctionIsFirst(env, e);
    forall i: nat ensures ArgumentAt(d[key].inputs, data, i) ==
                          if i < |kept| then InputOf(env, st.created, kept[i]) else Undefined
    {
      FilledField(data, InputsOf(env, st.created, kept), i);
    }
    forall i | 0 <= i < |kept|
      ensures var input := InputOf(env, st.created, e.args[i]);
              && StandsFor(env, input, Render(e.args[i])) && IsListed(d, input, key)
              && (e.args[i].Call? ==> input.Linked? && IsBuilt(env, d, input.unit.reactFlowKey, e.args[i]))
    {
      ArgumentIsLinked(env, st, e, i);
      if e.args[i].Call? {
        BuiltCallIsLinked(env, st, e.args[i]);
      }
    }
  }

  lemma FunctionIsFirst(env: Environment, e: Expr)
    requires Deserializable(env, e) && e.Call?
    ensures IsFirstNamed(DataOf(env, e), e.name, env.functions)
  {
  }

  lemma ArgumentIsLinked(env: Environment, st: State, e: Expr, i: nat)
    requires UniqueKeys(FlattenNode(env.sourceRoot)) && Deserializable(env, e) && e.Call?
    requires Sound(env, st) && Complete(env, st, {})
    requires Render(e) in st.created && st.created[Render(e)] in st.connections
    requires '-' !in DataOf(env, e).key && i < |e.args|
    ensures var input := InputOf(env, st.created, e.args[i]);
            && StandsFor(env, input, Render(e.args[i])) && IsListed(st.connections, input, st.created[Render(e)])
            && Deserializable(env, e.args[i])
            && (e.args[i].Call? ==>
                  && Render(e.args[i]) in st.created && st.created[Render(e.args[i])] in st.connections
                  && input.Linked? && input.unit.reactFlowKey == st.created[Render(e.args[i])])
  {
    BuiltCall(env, st, e);
    ArgumentHasEntry(env, st, e, i);
    HeldInputs(env, st, e, e.args);
    hide UniqueKeys, FlattenNode, Complete, Deserializable, StandsFor, FilledInputs, Fits, IsListed, Render,
      InputFor, ArgumentAt, Mirror;
    SoundIsNumbered(env, st);
    SoundIsMirrored(env, st);
    var text := Render(e.args[i]);
    RememberedStandsFor(env, st.created, text);
    FilledField(DataOf(env, e), InputsOf(env, st.created, e.args), i);
    HeldIsListed(st.connections, st.created[Render(e)], DataOf(env, e), i);
    if e.args[i].Call? {
      CallIsLinked(env, st.created[text], e.args[i]);
    }
  }

  lemma CallIsLinked(env: Environment, key: Key, e: Expr)
    requires Deserializable(env, e) && e.Call?
    ensures InputFor(env, key, Render(e)).Linked?
  {
    TextOfCall(env, e);
    hide Deserializable, Render;
  }

  // ----- destinations

  /** The text that a destination is looked up as in the target schema. */
  function DestinationText(destination: Destination): string {
    match destination
    case ToPath(path) => path
    case ToNode(SourceKey(path)) => "source-" + path
    case ToNode(TargetKey(path)) => "target-" + path
    case ToNode(FunctionKey(functionKey, _)) => functionKey
  }

  /** Which destinations are found: a target node by its key, a function by its key if that has no dash. */
  lemma DestinationIsFound(env: Environment, destination: Destination)
    requires UniqueKeys(FlattenNode(env.targetRoot))
    ensures var text, found := DestinationText(destination), GetDestination(env, destination);
            if destination.ToNode? && destination.key.FunctionKey? then
              && (found.Some? <==> '-' !in text && exists data :: data in env.functions && data.key == text)
              && (found.Some? ==>
                    && found.value.reactFlowKey == destination.key && found.value.node.Function?
                    && found.value.node.data in env.functions && found.value.node.data.key == text)
            else
              && (found.Some? <==> exists n :: n in FlattenNode(env.targetRoot) && n.key == text)
              && (found.Some? ==>
                    && found.value.reactFlowKey == TargetKey(text) && found.value.node.Schema?
                    && found.value.node.schema in FlattenNode(env.targetRoot) && found.value.node.schema.key == text)
  {
    hide FlattenNode, Search, UniqueKeys;
    var text := DestinationText(destination);
    UniqueKeysAgree(env.targetRoot, text);
    AbsentLookUp(FlattenNode(env.targetRoot), text);
    forall n | n in FlattenNode(env.targetRoot) && n.key == text ensures Search(text, env.targetRoot) == Some(n) {
      UniqueIsIndexed(FlattenNode(env.targetRoot), n);
    }
  }

  // ----- a whole definition

  /** The target holds one input, what the text stands for; if it is linked, its node has an entry that lists
      the target. */
  ghost predicate IsLinkedAs(env: Environment, d: ConnectionDictionary, target: Key, text: string) {
    && target in d && |d[target].inputs| == 1 && |d[target].inputs[0]| == 1
    && StandsFor(env, d[target].inputs[0][0], text) && IsListed(d, d[target].inputs[0][0], target)
  }

  lemma HeldTextIsLinked(env: Environment, st: State, m: Mapping)
    requires UniqueKeys(FlattenNode(env.sourceRoot)) && Sound(env, st) && Holding(env, st, m)
    ensures IsLinkedAs(env, st.connections, TargetKey(m.path), m.text)
    ensures var input := st.connections[TargetKey(m.path)].inputs[0][0];
            input.Linked? ==> input.unit.reactFlowKey == st.created[m.text]
  {
    hide UniqueKeys, FlattenNode, Sound, StandsFor, InputFor, Search, Lists, Mirror;
    SoundIsNumbered(env, st);
    SoundIsMirrored(env, st);
    RememberedStandsFor(env, st.created, m.text);
    var inputs := st.connections[TargetKey(m.path)].inputs;
    var input: InputConnection := inputs[0][0];
    if input.Linked? {
      OneHeldIsListed(st.connections, TargetKey(m.path), input.unit);
    }
  }

  lemma OneHeldIsListed(d: ConnectionDictionary, holder: Key, unit: ConnectionUnit)
    requires Mirror(d) && holder in d && d[holder].inputs == [[Linked(unit)]]
    ensures IsListed(d, Linked(unit), holder)
  {
    hide Lists;
    assert HoldsAt(d[holder].inputs, 0, 0, unit.reactFlowKey);
  }

  lemma HeldCallIsBuilt(env: Environment, st: State, m: Mapping, e: Expr)
    requires UniqueKeys(FlattenNode(env.sourceRoot)) && Sound(env, st) && Complete(env, st, {}) && Holding(env, st, m)
    requires Deserializable(env, e) && e.Call? && Render(e) == m.text
    ensures TargetKey(m.path) in st.connections && |st.connections[TargetKey(m.path)].inputs| == 1
    ensures |st.connections[TargetKey(m.path)].inputs[0]| == 1
    ensures var input := st.connections[TargetKey(m.path)].inputs[0][0];
            input.Linked? && IsBuilt(env, st.connections, input.unit.reactFlowKey, e)
  {
    TextOfCall(env, e);
    hide UniqueKeys, FlattenNode, Sound, Complete, Deserializable, Search, StandsFor, IsListed, InputFor, CallOf,
      IsBuilt;
    HeldTextIsLinked(env, st, m);
    HeldTextHasEntry(env, st, m);
    CallIsLinked(env, st.created[m.text], e);
    BuiltCallIsLinked(env, st, e);
  }

  /** The target of a value is linked to what its text stands for, and so are, however deep, the arguments of
      the call it is linked to. */
  ghost predicate IsWellLinked(env: Environment, d: ConnectionDictionary, m: Mapping) {
    && IsLinkedAs(env, d, TargetKey(m.path), m.text)
    && forall e :: Deserializable(env, e) && e.Call? && Render(e) == m.text ==>
         && d[TargetKey(m.path)].inputs[0][0].Linked?
         && IsBuilt(env, d, d[TargetKey(m.path)].inputs[0][0].unit.reactFlowKey, e)
  }

  lemma HeldMappingIsWellLinked(env: Environment, st: State, m: Mapping)
    requires UniqueKeys(FlattenNode(env.sourceRoot)) && Sound(env, st) && Complete(env, st, {}) && Holding(env, st, m)
    ensures IsWellLinked(env, st.connections, m)
  {
    hide UniqueKeys, FlattenNode, Sound, Complete, Deserializable, StandsFor, IsListed, Holding, IsBuilt, Render;
    HeldTextIsLinked(env, st, m);
    forall e | Deserializable(env, e) && e.Call? && Render(e) == m.text
      ensures st.connections[TargetKey(m.path)].inputs[0][0].Linked?
      ensures IsBuilt(env, st.connections, st.connections[TargetKey(m.path)].inputs[0][0].unit.reactFlowKey, e)
    {
      HeldCallIsBuilt(env, st, m, e);
    }
  }

  /** After a definition was read, the targets of all its values are. */
  lemma DefinitionIsLinked(env: Environment, mappings: seq<Mapping>)
    requires IsMapDefinition(env, mappings) && UniqueKeys(FlattenNode(env.sourceRoot))
    ensures DeserializeAll(env, START_STATE, mappings).Some?
    ensures var d := DeserializeAll(env, START_STATE, mappings).value.connections;
            forall m :: m in mappings ==> IsWellLinked(env, d, m)
  {
    hide *;
    StartIsSound(env);
    MappingsAreAcceptable(env, mappings);
    DeserializeBuildsAll(env, START_STATE, [], mappings);
    assert [] + mappings == mappings;
    var r := DeserializeAll(env, START_STATE, mappings).value;
    forall m | m in mappings ensures IsWellLinked(env, r.connections, m) {
      DoneIsHeld(env, r, mappings, m);
      HeldMappingIsWellLinked(env, r, m);
    }
  }

  lemma DoneIsHeld(env: Environment, st: State, done: seq<Mapping>, m: Mapping)
    requires Done(env, st, done) && m in done
    ensures Holding(env, st, m)
  {
    hide Holding;
  }

  /** In particular, a value that is the key of a source node links its target to that node. */
  lemma SourcePathIsLinked(env: Environment, mappings: seq<Mapping>, m: Mapping, n: SchemaNode)
    requires IsMapDefinition(env, mappings) && UniqueKeys(FlattenNode(env.sourceRoot)) && m in mappings
    requires n in FlattenNode(env.sourceRoot) && n.key == m.text && '(' !in m.text
    ensures DeserializeAll(env, START_STATE, mappings).Some?
    ensures var d := DeserializeAll(env, START_STATE, mappings).value.connections;
            && TargetKey(m.path) in d
            && d[TargetKey(m.path)].inputs == [[Linked(ConnectionUnit(Schema(n), SourceKey(n.key)))]]
            && SourceKey(n.key) in d && Lists(d[SourceKey(n.key)], TargetKey(m.path))
  {
    DefinitionIsLinked(env, mappings);
    hide DeserializeAll, Deserializable, IsMapDefinition, IsBuilt, FlattenNode, Lists;
    var d := DeserializeAll(env, START_STATE, mappings).value.connections;
    assert IsWellLinked(env, d, m) && IsSourceNode(env, n, m.text);
    var unit := d[TargetKey(m.path)].inputs[0][0].unit;
    SameKeySameSource(env, n, unit.node.schema);
    var inputs := d[TargetKey(m.path)].inputs;
    assert inputs[0] == [Linked(unit)];
    assert inputs == [[Linked(unit)]];
  }

  lemma SameKeySameSource(env: Environment, n: SchemaNode, m: SchemaNode)
    requires UniqueKeys(FlattenNode(env.sourceRoot)) && n.key == m.key
    requires n in FlattenNode(env.sourceRoot) && m in FlattenNode(env.sourceRoot)
    ensures n == m
  {
    hide FlattenNode;
  }
}
