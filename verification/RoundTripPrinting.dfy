/** The second half of the round trip: what was built prints its own text, over a whole map
    definition. */
module RoundTripPrinting {
  import opened Model
  import opened Graphs
  import opened Strings
  import opened Splitter
  import opened Expressions
  import opened FunctionUtils
  import opened Connections
  import opened ConnectionInvariants
  import opened Slots
  import opened Traversals
  import opened Schemas
  import opened Printer
  import opened Deserializer
  import opened Settling
  import opened RoundTrip
  import opened Loops

  // ----- the expressions whose text is read back

  /** An ordinary function that its key finds. */
  predicate IsOrdinary(env: Environment, data: FunctionData) {
    && FindFunctionForKey(data.key, env.functions) == Some(data)
    && data.key != INDEX_KEY && data.key != IF_KEY && !(DIRECT_ACCESS_KEY <= data.key)
  }

  /** A value that is neither a call nor a path of the source schema. */
  predicate IsCustom(env: Environment, e: Expr) {
    !e.Call? && GetSourceNode(env, Render(e)).None?
  }

  /** A value that is the path of an attribute of the source schema. */
  predicate IsAttribute(env: Environment, e: Expr) {
    match GetSourceNode(env, Render(e))
    case Some(Schema(schema)) => !e.Call? && "@" <= schema.qName
    case _ => false
  }

  /** Known functions with no more arguments than they take, custom values only where they are allowed,
      no literal that is the path of an attribute or that a comma follows inside a nested call, and no
      literal whose own text, taken apart as the deserializer takes it apart, does not settle. */
  predicate Deserializable(env: Environment, e: Expr) {
    && WellFormed(e) && !IsReserved(Render(e))
    && match e
       case Call(name, args) =>
         var found := FindFunctionForFunctionName(name, env.functions);
         && found.Some? && IsOrdinary(env, found.value)
         && QuotedCommasBelow(args) == 0
         && (forall i :: 0 <= i < |args| ==> Deserializable(env, args[i]))
         && (found.value.maxNumberOfInputs != -1 && '-' !in found.value.key ==>
              && |args| <= found.value.maxNumberOfInputs
              && forall i :: 0 <= i < |args| && IsCustom(env, args[i]) ==> AllowsCustom(found.value, i))
       case _ =>
         && CallOf(env, Render(e)).None? && Settles(env, Render(e)) && Contained(env, Render(e))
         && (e.Literal? ==> !IsAttribute(env, e))
  }

  function DataOf(env: Environment, e: Expr): FunctionData
    requires e.Call? && Deserializable(env, e)
  {
    FindFunctionForFunctionName(e.name, env.functions).value
  }

  lemma TextOfCall(env: Environment, e: Expr)
    requires Deserializable(env, e) && e.Call?
    ensures CallOf(env, Render(e)) == Some(DataOf(env, e)) && '(' in Render(e)
    ensures 0 <= IndexOf(Render(e), '(') < LastIndexOf(Render(e), ')')
    ensures Children(Render(e)) == RenderAll(e.args)
    ensures Receiver(env, Render(e)) == if '-' in DataOf(env, e).key then None else Some(DataOf(env, e))
  {
    hide IsReserved, Settles, Contained, Children, Search;
    ParametersOfCall(e.name, RenderAll(e.args));
    SplitCountsCuts(e.name, e.args);
    assert Render(e)[..|e.name|] == e.name;
  }

  lemma {:induction false} DeserializableSettles(env: Environment, e: Expr)
    requires Deserializable(env, e)
    ensures Settles(env, Render(e)) && Contained(env, Render(e))
    decreases e
  {
    if e.Call? {
      TextOfCall(env, e);
      forall i | 0 <= i < |e.args| ensures Settles(env, RenderAll(e.args)[i]) && Contained(env, RenderAll(e.args)[i]) {
        RenderAllAt(e.args, i);
        DeserializableSettles(env, e.args[i]);
      }
      CallSettles(env, e);
    }
  }

  lemma CallSettles(env: Environment, e: Expr)
    requires Deserializable(env, e) && e.Call? && CallOf(env, Render(e)) == Some(DataOf(env, e))
    requires 0 <= IndexOf(Render(e), '(') < LastIndexOf(Render(e), ')') && Children(Render(e)) == RenderAll(e.args)
    requires Receiver(env, Render(e)) == if '-' in DataOf(env, e).key then None else Some(DataOf(env, e))
    requires forall i :: 0 <= i < |e.args| ==>
             Settles(env, RenderAll(e.args)[i]) && Contained(env, RenderAll(e.args)[i])
    ensures Settles(env, Render(e)) && Contained(env, Render(e))
  {
    hide IsReserved, Children, CallOf, Receiver, Render;
    ChildrenAreShorter(Render(e));
    SettlesUnfolds(env, Render(e));
  }

  /** The input that stands for an expression. */
  function InputOf(env: Environment, created: map<string, Key>, e: Expr): InputConnection {
    InputFor(env, KeyIn(created, Render(e)), Render(e))
  }

  function InputsOf(env: Environment, created: map<string, Key>, args: seq<Expr>): (inputs: seq<InputConnection>)
    ensures |inputs| == |args| && forall i :: 0 <= i < |args| ==> inputs[i] == InputOf(env, created, args[i])
  {
    seq(|args|, i requires 0 <= i < |args| => InputOf(env, created, args[i]))
  }

  // ----- what comes back from an expression

  /** A function whose key holds a dash loses its arguments, and an attribute below a call is localized. */
  function Returned(env: Environment, e: Expr): Expr
    decreases e, 0
  {
    match e
    case Call(name, args) =>
      var found := FindFunctionForFunctionName(name, env.functions);
      Call(name, if found.Some? && '-' in found.value.key then [] else LocalizedAll(env, args))
    case _ => e
  }

  function Localized(env: Environment, e: Expr): Expr
    decreases e, 1
  {
    if IsAttribute(env, e) then Atom("./" + Render(e)) else Returned(env, e)
  }

  function LocalizedAll(env: Environment, args: seq<Expr>): (r: seq<Expr>)
    ensures |r| == |args| && forall i :: 0 <= i < |args| ==> r[i] == Localized(env, args[i])
    decreases args
  {
    if args == [] then [] else [Localized(env, args[0])] + LocalizedAll(env, args[1..])
  }

  function Shown(env: Environment, e: Expr, localize: bool): Expr {
    if localize then Localized(env, e) else Returned(env, e)
  }

  /** No function with a dash in its key is given arguments, and no attribute is localized. */
  predicate KeepsText(env: Environment, e: Expr, localize: bool) {
    match e
    case Call(name, args) =>
      var found := FindFunctionForFunctionName(name, env.functions);
      && (found.Some? && '-' in found.value.key ==> args == [])
      && forall i :: 0 <= i < |args| ==> KeepsText(env, args[i], true)
    case _ => !(localize && IsAttribute(env, e))
  }

  lemma CallIsShown(env: Environment, e: Expr, localize: bool)
    requires e.Call?
    ensures var found := FindFunctionForFunctionName(e.name, env.functions);
            Shown(env, e, localize)
            == Call(e.name, if found.Some? && '-' in found.value.key then [] else LocalizedAll(env, e.args))
  {
    assert Localized(env, e) == Returned(env, e);
    match e {
      case Call(_, _) =>
    }
  }

  lemma LeafIsShown(env: Environment, e: Expr, localize: bool)
    requires !e.Call?
    ensures Shown(env, e, localize) == if localize && IsAttribute(env, e) then Atom("./" + Render(e)) else e
  {
    hide IsAttribute;
    assert Returned(env, e) == e;
  }

  /** What comes back can be taken apart again. */
  lemma {:induction false} ShownIsReadable(env: Environment, e: Expr, localize: bool)
    requires Deserializable(env, e)
    ensures WellFormed(Shown(env, e, localize)) && QuotedCommas(Shown(env, e, localize)) <= QuotedCommas(e)
    ensures Shown(env, e, localize).Literal? ==> e.Literal?
    ensures SplitSafe(Shown(env, e, localize)) && SplitSafe(e)
    decreases e
  {
    hide IsReserved, Settles, Contained, IsAttribute;
    match e {
      case Call(name, args) =>
        CallIsShown(env, e, localize);
        var kept := LocalizedAll(env, args);
        forall i | 0 <= i < |args|
          ensures WellFormed(kept[i]) && QuotedCommas(kept[i]) <= QuotedCommas(args[i])
          ensures kept[i].Literal? ==> args[i].Literal?
        {
          ShownIsReadable(env, args[i], true);
        }
        FewerQuotedCommas(kept, args);
      case _ =>
        LeafIsShown(env, e, localize);
        AtomStaysAtom(env, e);
    }
  }

  lemma AtomStaysAtom(env: Environment, e: Expr)
    requires WellFormed(e) && !e.Call? && (e.Literal? ==> !IsAttribute(env, e))
    ensures WellFormed(Localized(env, e)) && WellFormed(Returned(env, e))
  {
    hide IsAttribute;
    if e.Atom? {
      assert IsTrimmed("./" + e.text);
    }
  }

  lemma {:induction false} FewerQuotedCommas(a: seq<Expr>, b: seq<Expr>)
    requires |a| == |b|
    requires forall i :: 0 <= i < |a| ==> QuotedCommas(a[i]) <= QuotedCommas(b[i]) && (a[i].Literal? ==> b[i].Literal?)
    ensures QuotedCommasBelow(a) <= QuotedCommasBelow(b) && QuotedCommasWithin(a) <= QuotedCommasWithin(b)
    decreases |a|
  {
    if a != [] {
      FewerQuotedCommas(a[1..], b[1..]);
    }
  }

  /** Nothing changes exactly when no arguments are lost and no attribute is localized. */
  lemma {:induction false} SameShownIff(env: Environment, e: Expr, localize: bool)
    ensures Shown(env, e, localize) == e <==> KeepsText(env, e, localize)
    decreases e
  {
    hide IsAttribute;
    match e {
      case Call(name, args) =>
        CallIsShown(env, e, localize);
        var kept := LocalizedAll(env, args);
        forall i | 0 <= i < |args| ensures kept[i] == args[i] <==> KeepsText(env, args[i], true) {
          SameShownIff(env, args[i], true);
        }
        assert kept == args <==> forall i :: 0 <= i < |args| ==> kept[i] == args[i];
      case Atom(text) =>
        LeafIsShown(env, e, localize);
        assert |"./" + text| == |text| + 2;
      case Literal(_) => LeafIsShown(env, e, localize);
    }
  }

  /** A text comes back as it is exactly when no function with a dash in its key has arguments and no
      attribute is an argument of a call, nor, where the text itself is localized, the text itself. */
  lemma ShownIsSameIff(env: Environment, e: Expr, localize: bool)
    requires Deserializable(env, e)
    ensures Render(Shown(env, e, localize)) == Render(e) <==> KeepsText(env, e, localize)
  {
    IsWellFormed(env, e);
    hide Shown, Render, Deserializable, WellFormed, SplitSafe, KeepsText;
    ShownIsReadable(env, e, localize);
    SameShownIff(env, e, localize);
    if Render(Shown(env, e, localize)) == Render(e) {
      RenderIsInjective(Shown(env, e, localize), e);
    }
  }

  // ----- printing what was built

  ghost predicate InputPrints(d: ConnectionDictionary, input: InputConnection, localize: bool, text: string)
    requires Acyclic(InGraph(d))
  {
    match input
    case Undefined => false
    case Custom(value) => value == text
    case Linked(unit) => UnitText(unit, d, localize) == Printed(text)
  }

  lemma {:induction false} TextsPrint(
    d: ConnectionDictionary, key: Key, inputs: seq<InputConnection>, texts: seq<string>, localize: bool)
    requires Acyclic(InGraph(d)) && key in d && |texts| <= |inputs|
    requires forall unit :: Linked(unit) in inputs ==> unit.reactFlowKey in Successors(InGraph(d), key)
    requires forall i :: 0 <= i < |texts| ==> InputPrints(d, inputs[i], localize, texts[i]) && texts[i] != ""
    requires forall i :: |texts| <= i < |inputs| ==> inputs[i].Undefined?
    ensures InputTexts(key, inputs, d, localize) == Printed(texts)
    decreases |inputs|
  {
    hide UnitText;
    if inputs != [] {
      assert inputs[0] in inputs;
      if texts == [] {
        TextsPrint(d, key, inputs[1..], [], localize);
        assert InputText(key, inputs[0], d, localize) == Printed("");
        assert texts + texts == texts;
      } else {
        assert InputPrints(d, inputs[0], localize, texts[0]);
        TextsPrint(d, key, inputs[1..], texts[1..], localize);
        assert InputText(key, inputs[0], d, localize) == Printed(texts[0]);
        assert [texts[0]] + texts[1..] == texts;
      }
    }
  }

  lemma FilledPrints(d: ConnectionDictionary, key: Key, data: FunctionData, inputs: seq<InputConnection>,
                     texts: seq<string>, localize: bool)
    requires Acyclic(InGraph(d)) && key in d && d[key].inputs == FilledInputs(data, inputs)
    requires Fits(data, inputs) && |inputs| == |texts|
    requires forall i :: 0 <= i < |texts| ==> InputPrints(d, inputs[i], localize, texts[i]) && texts[i] != ""
    ensures GetInputValues(key, d, localize) == Printed(texts)
  {
    hide InputPrints, InputTexts, FilledInputs;
    FlattenedUnitsAreSuccessors(key, d);
    FilledReadsBackInOrder(data, inputs);
    var read := FlattenInputs(d[key].inputs);
    assert forall i :: 0 <= i < |inputs| ==> read[i] == inputs[i];
    TextsPrint(d, key, read, texts, localize);
  }

  lemma LeafPrints(env: Environment, st: State, e: Expr, localize: bool)
    requires Deserializable(env, e) && !e.Call? && Acyclic(InGraph(st.connections))
    ensures InputPrints(st.connections, InputOf(env, st.created, e), localize, Render(Shown(env, e, localize)))
  {
    LeafIsShown(env, e, localize);
    hide IsReserved, Settles, Contained, Shown, WellFormed;
    FoundIsIndexed(env.sourceRoot, Render(e));
  }

  /** A call that some entry holds has an entry itself. */
  lemma HeldCallHasEntry(d: ConnectionDictionary, holder: Key, data: FunctionData, values: seq<InputConnection>, i: nat)
    requires Mirror(d) && holder in d && d[holder].inputs == FilledInputs(data, values) && Fits(data, values)
    requires i < |values| && values[i].Linked?
    ensures values[i].unit.reactFlowKey in d
  {
    assert FitsAt(data, i, values[i]);
    var s := values[i].unit.reactFlowKey;
    if data.maxNumberOfInputs == -1 {
      assert HoldsAt(d[holder].inputs, 0, i, s);
    } else {
      assert HoldsAt(d[holder].inputs, i, 0, s);
    }
  }

  lemma ArgumentsFit(env: Environment, created: map<string, Key>, e: Expr)
    requires Deserializable(env, e) && e.Call? && '-' !in DataOf(env, e).key
    ensures Fits(DataOf(env, e), InputsOf(env, created, e.args))
  {
    forall i: nat | i < |e.args| ensures FitsAt(DataOf(env, e), i, InputOf(env, created, e.args[i])) {
      ArgumentFits(env, created, e, i);
    }
    hide Deserializable, FitsAt, InputOf;
  }

  lemma ArgumentFits(env: Environment, created: map<string, Key>, e: Expr, i: nat)
    requires Deserializable(env, e) && e.Call? && '-' !in DataOf(env, e).key && i < |e.args|
    ensures FitsAt(DataOf(env, e), i, InputOf(env, created, e.args[i]))
  {
    hide IsReserved, Settles, Contained, Children, Render, Search, CallOf;
    RenderShowsKind(e.args[i]);
    if e.args[i].Call? {
      TextOfCall(env, e.args[i]);
    }
    hide KeyIn;
  }

  /** What the node of a built call holds. */
  lemma BuiltCall(env: Environment, st: State, e: Expr)
    requires Deserializable(env, e) && e.Call? && Complete(env, st, {}) && Render(e) in st.created
    ensures CallOf(env, Render(e)) == Some(DataOf(env, e))
    ensures var data, key := DataOf(env, e), st.created[Render(e)];
            var values := if '-' in data.key then [] else InputsOf(env, st.created, e.args);
            && Fits(data, values)
            && (key in st.connections ==> st.connections[key].self == ConnectionUnit(Function(data), key))
            && FilledInputs(data, values) == SlotsOf(st.connections, key, data)
            && forall i :: 0 <= i < |e.args| ==> Render(e.args[i]) in st.created
  {
    TextOfCall(env, e);
    var data := DataOf(env, e);
    var values := if '-' in data.key then [] else InputsOf(env, st.created, e.args);
    assert HoldsFirst(env, st, Render(e), |e.args|);
    forall i | 0 <= i < |e.args| ensures RenderAll(e.args)[i] == Render(e.args[i]) {
      RenderAllAt(e.args, i);
    }
    if '-' !in data.key {
      ArgumentsFit(env, st.created, e);
    }
    hide IsReserved, Settles, Contained, Children, CallOf, Receiver, Complete, Render, Fill, FilledInputs,
      EntryInputs, InputFor, FitsAt;
    assert Received(env, st.created, Render(e), |e.args|) == values;
    FillInOrder(data, values);
  }

  lemma {:induction false} BuiltPrints(env: Environment, st: State, e: Expr, localize: bool)
    requires Deserializable(env, e) && Sound(env, st) && Complete(env, st, {}) && Acyclic(InGraph(st.connections))
    requires e.Call? ==> Render(e) in st.created && st.created[Render(e)] in st.connections
    ensures InputPrints(st.connections, InputOf(env, st.created, e), localize, Render(Shown(env, e, localize)))
    decreases e
  {
    if e.Call? {
      BuiltCall(env, st, e);
      hide Sound, Complete, Deserializable;
      forall i | 0 <= i < |e.args| && '-' !in DataOf(env, e).key
        ensures InputPrints(st.connections, InputOf(env, st.created, e.args[i]), true,
                Render(Localized(env, e.args[i])))
      {
        ArgumentHasEntry(env, st, e, i);
        BuiltPrints(env, st, e.args[i], true);
      }
      CallPrints(env, st, e, localize);
    } else {
      LeafPrints(env, st, e, localize);
    }
  }

  lemma ArgumentHasEntry(env: Environment, st: State, e: Expr, i: nat)
    requires Deserializable(env, e) && e.Call? && '-' !in DataOf(env, e).key && i < |e.args|
    requires Sound(env, st) && Complete(env, st, {}) && Render(e) in st.created
             && st.created[Render(e)] in st.connections
    ensures Deserializable(env, e.args[i])
    ensures e.args[i].Call? ==> Render(e.args[i]) in st.created && st.created[Render(e.args[i])] in st.connections
  {
    BuiltCall(env, st, e);
    if e.args[i].Call? {
      TextOfCall(env, e.args[i]);
      hide IsReserved, Settles, Contained, Children, Complete, Render;
      HeldCallHasEntry(st.connections, st.created[Render(e)], DataOf(env, e), InputsOf(env, st.created, e.args), i);
    }
  }

  lemma CallPrints(env: Environment, st: State, e: Expr, localize: bool)
    requires Deserializable(env, e) && e.Call? && Complete(env, st, {}) && Acyclic(InGraph(st.connections))
    requires Render(e) in st.created && st.created[Render(e)] in st.connections
    requires '-' !in DataOf(env, e).key ==> forall i :: 0 <= i < |e.args| ==>
               InputPrints(st.connections, InputOf(env, st.created, e.args[i]), true, Render(Localized(env, e.args[i])))
    ensures InputPrints(st.connections, InputOf(env, st.created, e), localize, Render(Shown(env, e, localize)))
  {
    hide *;
    var data, key := DataOf(env, e), st.created[Render(e)];
    var kept := if '-' in data.key then [] else e.args;
    var inputs, texts := InputsOf(env, st.created, kept), RenderAll(LocalizedAll(env, kept));
    HeldInputs(env, st, e, kept);
    ReturnedTexts(env, e, kept, localize);
    FilledPrints(st.connections, key, data, inputs, texts, true);
    OrdinaryCallPrints(env, st, e, texts, localize);
  }

  lemma HeldInputs(env: Environment, st: State, e: Expr, kept: seq<Expr>)
    requires Deserializable(env, e) && e.Call? && Complete(env, st, {})
    requires Render(e) in st.created && st.created[Render(e)] in st.connections
    requires kept == if '-' in DataOf(env, e).key then [] else e.args
    ensures CallOf(env, Render(e)) == Some(DataOf(env, e))
    ensures var data, key, inputs := DataOf(env, e), st.created[Render(e)], InputsOf(env, st.created, kept);
            && Fits(data, inputs)
            && st.connections[key].self == ConnectionUnit(Function(data), key)
            && st.connections[key].inputs == FilledInputs(data, inputs)
  {
    BuiltCall(env, st, e);
    hide IsReserved, Settles, Contained, Children, Complete, Deserializable, FilledInputs, Fits, Render, CallOf;
    assert InputsOf(env, st.created, []) == [];
  }

  lemma ReturnedTexts(env: Environment, e: Expr, kept: seq<Expr>, localize: bool)
    requires Deserializable(env, e) && e.Call? && kept == if '-' in DataOf(env, e).key then [] else e.args
    ensures Render(Shown(env, e, localize)) == CombineFunctionAndInputs(e.name, RenderAll(LocalizedAll(env, kept)))
    ensures var texts := RenderAll(LocalizedAll(env, kept));
            && |texts| == |kept|
            && forall i :: 0 <= i < |kept| ==> texts[i] == Render(Localized(env, kept[i])) && texts[i] != ""
  {
    hide IsReserved, Settles, Contained, CombineFunctionAndInputs, IsAttribute, Localized;
    var returned := LocalizedAll(env, kept);
    forall i | 0 <= i < |kept|
      ensures RenderAll(returned)[i] == Render(Localized(env, kept[i])) && RenderAll(returned)[i] != ""
    {
      RenderAllAt(returned, i);
      ShownIsNotEmpty(env, kept[i], true);
    }
    CallIsShown(env, e, localize);
  }

  lemma ShownIsNotEmpty(env: Environment, e: Expr, localize: bool)
    requires WellFormed(e)
    ensures Render(Shown(env, e, localize)) != ""
  {
    hide IsAttribute;
    RenderShowsKind(e);
    if e.Call? {
      CallIsShown(env, e, localize);
    } else {
      LeafIsShown(env, e, localize);
    }
  }

  lemma OrdinaryCallPrints(env: Environment, st: State, e: Expr, texts: seq<string>, localize: bool)
    requires Deserializable(env, e) && e.Call? && Acyclic(InGraph(st.connections))
    requires Render(e) in st.created && st.created[Render(e)] in st.connections
    requires CallOf(env, Render(e)) == Some(DataOf(env, e))
    requires st.connections[st.created[Render(e)]].self
             == ConnectionUnit(Function(DataOf(env, e)), st.created[Render(e)])
    requires GetInputValues(st.created[Render(e)], st.connections, true) == Printed(texts)
    ensures InputPrints(st.connections, InputOf(env, st.created, e), localize, CombineFunctionAndInputs(e.name, texts))
  {
    hide IsReserved, Settles, Contained, Children, GetInputValues, Render, CombineFunctionAndInputs;
    var data, key := DataOf(env, e), st.created[Render(e)];
    assert CollectFunctionValue(data, key, st.connections) == Printed(CombineFunctionAndInputs(e.name, texts));
  }

  // ----- a whole map definition

  predicate IsPlainTarget(env: Environment, path: string) {
    var found := Search(path, env.targetRoot);
    found.Some? && !IsRepeating(found.value)
  }

  ghost predicate IsValue(env: Environment, text: string) {
    exists e :: Deserializable(env, e) && Render(e) == text
  }

  /** Every value is the text of an expression the round trip covers and goes to a target schema node of
      its own that is not a loop. */
  ghost predicate IsMapDefinition(env: Environment, mappings: seq<Mapping>) {
    && (forall i :: 0 <= i < |mappings| ==> IsValue(env, mappings[i].text) && IsPlainTarget(env, mappings[i].path))
    && (forall i, j :: 0 <= i < j < |mappings| ==> mappings[i].path != mappings[j].path)
  }

  /** The target is the node found for the path, and holds one input, the text's. */
  ghost predicate Holding(env: Environment, st: State, m: Mapping) {
    && m.text in st.created && TargetKey(m.path) in st.connections && Search(m.path, env.targetRoot).Some?
    && st.connections[TargetKey(m.path)].self
          == ConnectionUnit(Schema(Search(m.path, env.targetRoot).value), TargetKey(m.path))
    && st.connections[TargetKey(m.path)].inputs == [[InputFor(env, st.created[m.text], m.text)]]
  }

  /** A find-slot write to a new schema node that does not repeat puts the value into its slot. */
  lemma PlainTargetStores(d: ConnectionDictionary, target: ConnectionUnit, input: InputConnection)
    requires target.node.Schema? && !IsRepeating(target.node.schema) && !input.Undefined? && target.reactFlowKey !in d
    ensures var after := Apply(d, LinkAction(target, Put(input)));
            && after.Some? && target.reactFlowKey in after.value
            && after.value[target.reactFlowKey].self == target && after.value[target.reactFlowKey].inputs == [[input]]
  {
    var a := LinkAction(target, Put(input));
    assert SetAt([], 0, input) == [input];
    assert StoreInput([[]], a.target, 0, a.write) == Some([[]][0 := [input]]);
    ApplyEffect(d, a);
    StoredInputs(d, a);
  }

  lemma TargetIsLinked(env: Environment, st: State, m: Mapping)
    requires WellRemembered(env, st.created) && IsPlainTarget(env, m.path) && TargetKey(m.path) !in st.connections
    ensures GetDestination(env, ToPath(m.path))
            == Some(ConnectionUnit(Schema(Search(m.path, env.targetRoot).value), TargetKey(m.path)))
    ensures var r := Link(env, st, m.text, ToPath(m.path));
            r.Some? && m.text in r.value.created && Holding(env, r.value, m)
  {
    FoundIsIndexed(env.targetRoot, m.path);
    var target := ConnectionUnit(Schema(Search(m.path, env.targetRoot).value), TargetKey(m.path));
    hide Apply, Search, KeyFor, InputFor;
    PlainTargetStores(st.connections, target, InputFor(env, KeyFor(env, st, m.text), m.text));
    InputKey(env, st, m.text);
  }

  /** A value that settles and is contained is created, and its target holds it. */
  lemma CreateMapping(env: Environment, st: State, m: Mapping)
    requires Sound(env, st) && Complete(env, st, {}) && IsPlainTarget(env, m.path)
             && TargetKey(m.path) !in st.connections
    requires Settles(env, m.text) && Contained(env, m.text)
    ensures var r := Create(env, st, m.text, ToPath(m.path));
            && r.Some? && Sound(env, r.value) && Complete(env, r.value, {})
            && Extends(env, st, r.value, Some(TargetKey(m.path))) && Holding(env, r.value, m)
  {
    SoundIsNumbered(env, st);
    TargetIsLinked(env, st, m);
    hide Sound, Complete, Settles, Contained, Create, Extends, Link, Search, InputFor;
    CreateText(env, st, m.text, ToPath(m.path), {});
  }

  lemma HoldingPersists(env: Environment, st: State, after: State, except: Key, m: Mapping)
    requires Holding(env, st, m) && Extends(env, st, after, Some(except)) && except != TargetKey(m.path)
    ensures Holding(env, after, m)
  {
    hide CallOf, Search, InputFor;
  }

  /** The mappings done so far hold their inputs, and no other target node has an entry. */
  ghost predicate Done(env: Environment, st: State, done: seq<Mapping>) {
    && (forall m :: m in done ==> Holding(env, st, m))
    && (forall p :: TargetKey(p) in st.connections ==> exists m :: m in done && m.path == p)
  }

  lemma DoneGrows(env: Environment, st: State, after: State, done: seq<Mapping>, m: Mapping)
    requires Done(env, st, done) && Holding(env, after, m)
    requires Extends(env, st, after, Some(TargetKey(m.path))) && forall n :: n in done ==> n.path != m.path
    ensures Done(env, after, done + [m])
  {
    hide Extends, Holding;
    forall n | n in done + [m] ensures Holding(env, after, n) {
      if n in done { HoldingPersists(env, st, after, TargetKey(m.path), n); }
    }
    NoOtherTargets(env, st, after, m.path);
    forall p | TargetKey(p) in after.connections ensures exists n :: n in done + [m] && n.path == p {
      if p == m.path {
        assert m in done + [m];
      } else {
        var n :| n in done && n.path == p;
        assert n in done + [m];
      }
    }
  }

  lemma NoOtherTargets(env: Environment, st: State, after: State, path: string)
    requires Extends(env, st, after, Some(TargetKey(path)))
    ensures forall p :: TargetKey(p) in after.connections ==> TargetKey(p) in st.connections || p == path
  {
    hide CallOf;
  }

  ghost predicate Acceptable(env: Environment, m: Mapping) {
    Settles(env, m.text) && Contained(env, m.text) && IsPlainTarget(env, m.path)
  }

  /** Deserializing never fails on such values; afterwards the graph is sound, every call is completely
      built, and every target holds its own input. */
  lemma {:induction false} DeserializeBuildsAll(env: Environment, st: State, done: seq<Mapping>, todo: seq<Mapping>)
    requires forall m :: m in todo ==> Acceptable(env, m)
    requires forall i, j :: 0 <= i < j < |todo| ==> todo[i].path != todo[j].path
    requires forall m, n :: m in done && n in todo ==> m.path != n.path
    requires Sound(env, st) && Complete(env, st, {}) && Done(env, st, done)
    ensures DeserializeAll(env, st, todo).Some?
    ensures var r := DeserializeAll(env, st, todo).value;
            Sound(env, r) && Complete(env, r, {}) && Done(env, r, done + todo)
    decreases |todo|
  {
    hide Settles, Contained, Sound, Complete, Create, Holding, IsPlainTarget, Extends;
    if todo == [] {
      assert done + todo == done;
    } else {
      var m := todo[0];
      assert m in todo && Acceptable(env, m);
      NewTarget(env, st, done, m);
      CreateMapping(env, st, m);
      var after := Create(env, st, m.text, ToPath(m.path)).value;
      DoneGrows(env, st, after, done, m);
      assert done + todo == done + [m] + todo[1..];
      DeserializeBuildsAll(env, after, done + [m], todo[1..]);
    }
  }

  lemma NewTarget(env: Environment, st: State, done: seq<Mapping>, m: Mapping)
    requires Done(env, st, done) && forall n :: n in done ==> n.path != m.path
    ensures TargetKey(m.path) !in st.connections
  {
    hide Holding;
  }

  lemma OneInputFlattens(input: InputConnection)
    ensures FlattenInputs([[input]]) == [input]
  {
    assert [[input]][1..] == [];
  }

  /** What a target holds prints. */
  lemma HoldingInputPrints(env: Environment, st: State, m: Mapping, e: Expr, localize: bool)
    requires Sound(env, st) && Complete(env, st, {}) && Holding(env, st, m) && Deserializable(env, e)
             && Render(e) == m.text && Acyclic(InGraph(st.connections))
    ensures InputPrints(st.connections, InputFor(env, st.created[m.text], m.text), localize,
                        Render(Shown(env, e, localize)))
  {
    if e.Call? {
      TextOfCall(env, e);
    }
    HeldTextHasEntry(env, st, m);
    hide Sound, Complete, Deserializable, InputPrints, InputFor, Shown;
    BuiltPrints(env, st, e, localize);
  }

  lemma HeldTextHasEntry(env: Environment, st: State, m: Mapping)
    requires Sound(env, st) && Holding(env, st, m)
    ensures CallOf(env, m.text).Some? ==> st.created[m.text] in st.connections
  {
    SoundIsNumbered(env, st);
    InputKey(env, st, m.text);
    hide CallOf, Search, InputFor, WellRemembered;
    if CallOf(env, m.text).Some? {
      assert HoldsAt(st.connections[TargetKey(m.path)].inputs, 0, 0, st.created[m.text]);
    }
  }

  lemma HoldingPrints(env: Environment, st: State, m: Mapping, e: Expr, localize: bool)
    requires Sound(env, st) && Complete(env, st, {}) && Holding(env, st, m) && Deserializable(env, e)
             && Render(e) == m.text && Acyclic(InGraph(st.connections))
    ensures GetInputValues(TargetKey(m.path), st.connections, localize) == Printed([Render(Shown(env, e, localize))])
  {
    hide Deserializable, InputPrints, InputTexts, Sound, InputFor, Complete, Search, Shown, WellFormed, Render, Acyclic;
    HoldingInputPrints(env, st, m, e, localize);
    IsWellFormed(env, e);
    ShownIsNotEmpty(env, e, localize);
    var key := TargetKey(m.path);
    FlattenedUnitsAreSuccessors(key, st.connections);
    OneInputFlattens(InputFor(env, st.created[m.text], m.text));
    TextsPrint(st.connections, key, FlattenInputs(st.connections[key].inputs), [Render(Shown(env, e, localize))],
        localize);
  }

  lemma StartIsSound(env: Environment)
    ensures Sound(env, START_STATE) && Complete(env, START_STATE, {}) && Done(env, START_STATE, [])
            && Shaped(env, START_STATE, {})
  {
  }

  lemma MappingsAreAcceptable(env: Environment, mappings: seq<Mapping>)
    requires IsMapDefinition(env, mappings)
    ensures forall m :: m in mappings ==> Acceptable(env, m)
    ensures forall i, j :: 0 <= i < j < |mappings| ==> mappings[i].path != mappings[j].path
  {
    hide Deserializable, IsPlainTarget, Settles, Contained;
    forall m | m in mappings ensures Acceptable(env, m) {
      var e :| Deserializable(env, e) && Render(e) == m.text;
      DeserializableSettles(env, e);
    }
  }

  lemma SoundIsMirrored(env: Environment, st: State)
    requires Sound(env, st)
    ensures Mirror(st.connections) && Tidy(st.connections)
  {
  }

  lemma DonePrints(env: Environment, st: State, done: seq<Mapping>, m: Mapping, e: Expr, localize: bool)
    requires Sound(env, st) && Complete(env, st, {}) && Done(env, st, done) && m in done
    requires Deserializable(env, e) && Render(e) == m.text && Acyclic(InGraph(st.connections))
    ensures GetInputValues(TargetKey(m.path), st.connections, localize) == Printed([Render(Shown(env, e, localize))])
  {
    hide Sound, Complete, Deserializable, Holding, Shown;
    HoldingPrints(env, st, m, e, localize);
  }

  lemma AcceptableIsAcyclic(env: Environment, mappings: seq<Mapping>)
    requires forall m :: m in mappings ==> Acceptable(env, m)
    requires DeserializeAll(env, START_STATE, mappings).Some?
    ensures Acyclic(InGraph(DeserializeAll(env, START_STATE, mappings).value.connections))
  {
    DeserializedIsAcyclicIff(env, mappings);
    hide Settles, Contained, IsLoopFree, Acyclic;
    forall m | m in mappings ensures IsLoopFree(env, m.text) {
      ContainedIsLoopFree(env, m.text);
    }
  }

  /** Deserializing a map definition and printing every target gives back every value's text, however
      many calls the values share, exactly when no function with a dash in its key is given arguments and
      no attribute is localized; the graph in between is mirrored and has no cycle. */
  lemma DeserializeThenPrintIsIdentity(env: Environment, mappings: seq<Mapping>)
    requires IsMapDefinition(env, mappings)
    ensures DeserializeAll(env, START_STATE, mappings).Some?
    ensures var d := DeserializeAll(env, START_STATE, mappings).value.connections;
            && Mirror(d) && Tidy(d) && Acyclic(InGraph(d))
            && forall m, e, localize :: m in mappings && Deserializable(env, e) && Render(e) == m.text ==>
                 (GetInputValues(TargetKey(m.path), d, localize) == Printed([m.text]) <==> KeepsText(env, e, localize))
  {
    hide *;
    StartIsSound(env);
    MappingsAreAcceptable(env, mappings);
    DeserializeBuildsAll(env, START_STATE, [], mappings);
    assert [] + mappings == mappings;
    var r := DeserializeAll(env, START_STATE, mappings).value;
    AcceptableIsAcyclic(env, mappings);
    SoundIsMirrored(env, r);
    forall m, e, localize | m in mappings && Deserializable(env, e) && Render(e) == m.text
      ensures GetInputValues(TargetKey(m.path), r.connections, localize) == Printed([m.text])
              <==> KeepsText(env, e, localize)
    {
      DonePrints(env, r, mappings, m, e, localize);
      ShownIsSameIff(env, e, localize);
      OneText(Render(Shown(env, e, localize)), m.text);
    }
  }

  lemma IsWellFormed(env: Environment, e: Expr)
    requires Deserializable(env, e)
    ensures WellFormed(e)
  {
  }

  lemma OneText(a: string, b: string)
    ensures Printed([a]) == Printed([b]) <==> a == b
  {
    assert [a][0] == a && [b][0] == b;
  }

  // ----- a literal with parentheses

  lemma OuterParentheses(left: string, inside: string, right: string)
    requires '(' !in left && ')' !in right
    ensures var s := left + "(" + inside + ")" + right;
            && IndexOf(s, '(') == |left| && LastIndexOf(s, ')') == |left| + 1 + |inside|
            && s[..|left|] == left && Parameters(s) == inside
  {
    var s, close := left + "(" + inside + ")" + right, |left| + 1 + |inside|;
    assert s[..|left|] == left && s[|left|] == '(' && s[close] == ')' && s[close + 1..] == right;
    assert forall k :: 0 <= k < |left| ==> s[k] == left[k];
    assert forall k :: close < k < |s| ==> s[k] == right[k - close - 1];
    assert s[|left| + 1..close] == inside;
  }

  lemma PlainInside(s: string, inside: string)
    requires IsSeparatorFree(inside) && IsTrimmed(inside) && Parameters(s) == inside
    ensures Children(s) == [inside]
  {
    ScanSeparatorFree(START, inside);
    assert "" + inside == inside;
    TrimDropsLeadingSpace(inside);
    assert [] + [inside] == [inside];
  }

  /** An ordinary text with parentheses, such as "Total (USD)", is read and printed like any other literal:
      the deserializer takes the inside apart, but finds nothing to link it to. */
  lemma ParenthesizedLiteralIsRead(env: Environment, before: string, inside: string, after: string)
    requires IsSeparatorFree(before) && IsSeparatorFree(inside) && IsSeparatorFree(after) && IsTrimmed(inside)
    requires FindFunctionForFunctionName("\"" + before, env.functions).None? && !IsReserved(inside)
    requires var s := Render(Literal(before + "(" + inside + ")" + after));
             !IsReserved(s) && FindTarget(env, "source-" + s).None?
    ensures Deserializable(env, Literal(before + "(" + inside + ")" + after))
  {
    var body, left, right := before + "(" + inside + ")" + after, "\"" + before, after + "\"";
    var s := Render(Literal(body));
    assert s == left + "(" + inside + ")" + right && s[|left|] == '(' && '"' !in body;
    OuterParentheses(left, inside, right);
    PlainInside(s, inside);
    assert CallOf(env, s).None? && '(' in s;
    hide *;
    assert '(' !in inside by { PlainHasNoParenthesis(inside); }
    TextWithPlainChildSettles(env, s, inside);
    LiteralIsRead(env, body);
  }

  lemma PlainHasNoParenthesis(text: string)
    requires IsSeparatorFree(text)
    ensures '(' !in text
  {
  }

  lemma LiteralIsRead(env: Environment, body: string)
    requires '"' !in body && !IsReserved(Render(Literal(body))) && CallOf(env, Render(Literal(body))).None?
    requires Settles(env, Render(Literal(body))) && Contained(env, Render(Literal(body)))
    requires '(' in Render(Literal(body))
    ensures Deserializable(env, Literal(body))
  {
    hide IsReserved, Settles, Contained, CallOf;
  }

  lemma TextWithPlainChildSettles(env: Environment, s: string, inside: string)
    requires Children(s) == [inside] && '(' in s && IndexOf(s, '(') < LastIndexOf(s, ')') && '(' !in inside
    requires !IsReserved(s) && !IsReserved(inside) && CallOf(env, s).None? && FindTarget(env, "source-" + s).None?
    ensures Settles(env, s) && Contained(env, s)
  {
    hide IsReserved, Children, FindTarget, CallOf;
    assert inside != s;
  }
}
