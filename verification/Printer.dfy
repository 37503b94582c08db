/** Printing what is connected to a node (getInputValues and collectFunctionValue in
    DataMap.Utils.ts), and the validity check that makes printing total. */
module Printer {
  import opened Model
  import opened Graphs
  import opened Strings
  import opened FunctionUtils
  import opened Traversals
  import opened Expressions

  /** Printing succeeds, meets a missing connection (or a missing slot of one), or formats a direct
      access that lacks one of its three values. The last two throw in the source. */
  datatype Printing<+T> = Printed(value: T) | MissingConnection | IncompleteDirectAccess {
    predicate IsFailure() { !Printed? }
    function PropagateFailure<U>(): Printing<U>
      requires IsFailure()
    {
      if MissingConnection? then Printing<U>.MissingConnection else Printing<U>.IncompleteDirectAccess
    }
    function Extract(): T
      requires Printed?
    {
      value
    }
  }

  function NodeKey(node: Node): string {
    match node
    case Schema(schema) => schema.key
    case Function(data) => data.key
  }

  function SchemaText(schema: SchemaNode, localize: bool): string {
    if localize && "@" <= schema.qName then "./" + schema.key else schema.key
  }

  function IndexValueForConnection(key: Key, d: ConnectionDictionary): Printing<string> {
    if key !in d || d[key].inputs == [] then MissingConnection
    else
      var row := d[key].inputs[0];
      if row != [] && row[0].Linked? && row[0].unit.node.Schema? then Printed(IndexValue(row[0].unit.node.schema))
      else Printed("")
  }

  /** Empty and undefined texts are left out. */
  function GetInputValues(key: Key, d: ConnectionDictionary, localize: bool): Printing<seq<string>>
    requires Acyclic(InGraph(d))
    decreases ReachSet(InGraph(d), key), 1, 0
  {
    if key in d then
      FlattenedUnitsAreSuccessors(key, d);
      InputTexts(key, FlattenInputs(d[key].inputs), d, localize)
    else Printed([])
  }

  function InputTexts(key: Key, inputs: seq<InputConnection>, d: ConnectionDictionary,
                      localize: bool): Printing<seq<string>>
    requires Acyclic(InGraph(d)) && key in d
    requires forall unit :: Linked(unit) in inputs ==> unit.reactFlowKey in Successors(InGraph(d), key)
    decreases ReachSet(InGraph(d), key), 0, |inputs|
  {
    if inputs == [] then Printed([])
    else
      assert inputs[0] in inputs;
      var first :- InputText(key, inputs[0], d, localize);
      var rest :- InputTexts(key, inputs[1..], d, localize);
      Printed((if first == "" then [] else [first]) + rest)
  }

  function InputText(key: Key, input: InputConnection, d: ConnectionDictionary, localize: bool): Printing<string>
    requires Acyclic(InGraph(d)) && key in d
    requires input.Linked? ==> input.unit.reactFlowKey in Successors(InGraph(d), key)
    decreases ReachSet(InGraph(d), key), 0, 0
  {
    ReachSetShrinks(InGraph(d), key);
    match input
    case Undefined => Printed("")
    case Custom(value) => Printed(value)
    case Linked(unit) => UnitText(unit, d, localize)
  }

  function UnitText(unit: ConnectionUnit, d: ConnectionDictionary, localize: bool): Printing<string>
    requires Acyclic(InGraph(d))
    decreases ReachSet(InGraph(d), unit.reactFlowKey), 3, 0
  {
    match unit.node
    case Schema(schema) => Printed(SchemaText(schema, localize))
    case Function(data) =>
      if data.key == INDEX_KEY then IndexValueForConnection(unit.reactFlowKey, d)
      else if DIRECT_ACCESS_KEY <= data.key then
        var values :- GetInputValues(unit.reactFlowKey, d, false);
        if |values| < 3 then IncompleteDirectAccess
        else Printed(FormatDirectAccess(values[0], values[1], values[2]))
      else CollectFunctionValue(data, unit.reactFlowKey, d)
  }

  /** An `if` prints its condition alone; without one it prints nothing. */
  function CollectFunctionValue(data: FunctionData, key: Key, d: ConnectionDictionary): Printing<string>
    requires Acyclic(InGraph(d))
    decreases ReachSet(InGraph(d), key), 2, 0
  {
    if key !in d then MissingConnection
    else if NodeKey(d[key].self.node) == INDEX_KEY then IndexValueForConnection(key, d)
    else
      var values :- GetInputValues(key, d, true);
      if NodeKey(d[key].self.node) == IF_KEY then Printed(if values == [] then "" else values[0])
      else Printed(CombineFunctionAndInputs(data.functionName, values))
  }

  // ----- validity

  predicate TakesInputs(unit: ConnectionUnit) {
    unit.node.Function? && unit.node.data.maxNumberOfInputs != 0
  }

  function CountNodesAndCustoms(inputs: seq<InputConnection>): nat {
    if inputs == [] then 0
    else
      (if inputs[0].Custom? || (inputs[0].Linked? && !TakesInputs(inputs[0].unit)) then 1 else 0)
      + CountNodesAndCustoms(inputs[1..])
  }

  /** Every chain of functions above the node ends in schema nodes, custom values or functions
      without inputs. */
  predicate NodeHasSourceNodeEventually(key: Key, d: ConnectionDictionary)
    requires Acyclic(InGraph(d))
    decreases ReachSet(InGraph(d), key)
  {
    && key in d
    && var inputs := FlattenInputs(d[key].inputs);
       ReachSetShrinks(InGraph(d), key);
       FlattenedUnitsAreSuccessors(key, d);
       || CountNodesAndCustoms(inputs) == |inputs|
       || (&& (exists i :: 0 <= i < |inputs| && inputs[i].Linked? && TakesInputs(inputs[i].unit))
           && forall i :: 0 <= i < |inputs| ==>
                assert inputs[i] in inputs;
                inputs[i].Linked? && TakesInputs(inputs[i].unit) ==>
                  NodeHasSourceNodeEventually(inputs[i].unit.reactFlowKey, d))
  }

  predicate RequiredInputsFilled(c: Connection) {
    c.self.node.Function? ==>
      forall i :: 0 <= i < |c.self.node.data.inputs| ==>
        c.self.node.data.inputs[i].isOptional || (i < |c.inputs| && c.inputs[i] != [])
  }

  predicate IsValidToMakeMapDefinition(d: ConnectionDictionary)
    requires Acyclic(InGraph(d))
  {
    && (forall k :: k in d && k.TargetKey? ==> NodeHasSourceNodeEventually(k, d))
    && (forall k :: k in d ==> RequiredInputsFilled(d[k]))
  }

  /** What the validity check does not look at: a linked function without inputs has an entry and
      nothing above it, and an index function's entry has its one slot. */
  ghost predicate EnrichersHaveEntries(d: ConnectionDictionary) {
    forall k, unit :: k in d && Linked(unit) in FlattenInputs(d[k].inputs) && unit.node.Function? ==>
      && (!TakesInputs(unit) ==> unit.reactFlowKey in d && d[unit.reactFlowKey].inputs == [])
      && ((unit.reactFlowKey in d && INDEX_KEY in {unit.node.data.key, NodeKey(d[unit.reactFlowKey].self.node)}) ==>
            d[unit.reactFlowKey].inputs != [])
  }

  lemma {:induction false} AllCountedTakeNoInputs(inputs: seq<InputConnection>)
    ensures CountNodesAndCustoms(inputs) <= |inputs|
    ensures CountNodesAndCustoms(inputs) == |inputs| ==>
              forall unit :: Linked(unit) in inputs ==> !TakesInputs(unit)
  {
    if inputs != [] {
      AllCountedTakeNoInputs(inputs[1..]);
      assert inputs == [inputs[0]] + inputs[1..];
    }
  }

  /** Validity passes to every function one step above. */
  lemma SourceNodeAbove(key: Key, d: ConnectionDictionary, unit: ConnectionUnit)
    requires Acyclic(InGraph(d)) && NodeHasSourceNodeEventually(key, d) && EnrichersHaveEntries(d)
    requires Linked(unit) in FlattenInputs(d[key].inputs) && unit.node.Function?
    ensures unit.reactFlowKey in d
    ensures TakesInputs(unit) ==> NodeHasSourceNodeEventually(unit.reactFlowKey, d)
  {
    hide Acyclic, FlattenInputs;
    AllCountedTakeNoInputs(FlattenInputs(d[key].inputs));
    var i :| 0 <= i < |FlattenInputs(d[key].inputs)| && FlattenInputs(d[key].inputs)[i] == Linked(unit);
  }

  /** A linked unit whose printing is known to be total. */
  ghost predicate Sourced(unit: ConnectionUnit, d: ConnectionDictionary)
    requires Acyclic(InGraph(d))
  {
    unit.node.Function? ==>
      && unit.reactFlowKey in d
      && (if TakesInputs(unit) then NodeHasSourceNodeEventually(unit.reactFlowKey, d)
            else d[unit.reactFlowKey].inputs == [])
      && (INDEX_KEY in {unit.node.data.key, NodeKey(d[unit.reactFlowKey].self.node)} ==>
            d[unit.reactFlowKey].inputs != [])
  }

  /** If a node passes the validity check, printing what is above it never meets a missing
      connection, however deep the chain. */
  lemma {:induction false} ValidityMakesPrintingTotal(key: Key, d: ConnectionDictionary, localize: bool)
    requires Acyclic(InGraph(d)) && EnrichersHaveEntries(d)
    requires NodeHasSourceNodeEventually(key, d)
    ensures !GetInputValues(key, d, localize).MissingConnection?
    decreases ReachSet(InGraph(d), key), 1, 0
  {
    FlattenedUnitsAreSuccessors(key, d);
    var inputs := FlattenInputs(d[key].inputs);
    forall unit | Linked(unit) in inputs ensures Sourced(unit, d) {
      if unit.node.Function? { SourceNodeAbove(key, d, unit); }
    }
    TextsAreTotal(key, inputs, d, localize);
  }

  lemma {:induction false} TextsAreTotal(key: Key, inputs: seq<InputConnection>, d: ConnectionDictionary,
                                         localize: bool)
    requires Acyclic(InGraph(d)) && EnrichersHaveEntries(d) && key in d
    requires forall unit :: Linked(unit) in inputs ==>
              unit.reactFlowKey in Successors(InGraph(d), key) && Sourced(unit, d)
    ensures !InputTexts(key, inputs, d, localize).MissingConnection?
    decreases ReachSet(InGraph(d), key), 0, |inputs|
  {
    hide Sourced, EnrichersHaveEntries, InputText, Acyclic;
    if inputs != [] {
      assert inputs[0] in inputs;
      TextsAreTotal(key, inputs[1..], d, localize);
      InputTextIsTotal(key, inputs[0], d, localize);
    }
  }

  lemma {:induction false} InputTextIsTotal(key: Key, input: InputConnection, d: ConnectionDictionary, localize: bool)
    requires Acyclic(InGraph(d)) && EnrichersHaveEntries(d) && key in d
    requires input.Linked? ==> input.unit.reactFlowKey in Successors(InGraph(d), key) && Sourced(input.unit, d)
    ensures !InputText(key, input, d, localize).MissingConnection?
    decreases ReachSet(InGraph(d), key), 0, 0
  {
    ReachSetShrinks(InGraph(d), key);
    if input.Linked? {
      UnitTextIsTotal(input.unit, d, localize);
    }
  }

  lemma NothingAbovePrintsNothing(key: Key, d: ConnectionDictionary, localize: bool)
    requires Acyclic(InGraph(d)) && key in d && d[key].inputs == []
    ensures GetInputValues(key, d, localize) == Printed([])
  {
    FlattenedUnitsAreSuccessors(key, d);
    assert FlattenInputs(d[key].inputs) == [];
  }

  lemma {:induction false} UnitTextIsTotal(unit: ConnectionUnit, d: ConnectionDictionary, localize: bool)
    requires Acyclic(InGraph(d)) && EnrichersHaveEntries(d) && Sourced(unit, d)
    ensures !UnitText(unit, d, localize).MissingConnection?
    decreases ReachSet(InGraph(d), unit.reactFlowKey), 2, 0
  {
    if unit.node.Function? {
      if TakesInputs(unit) {
        ValidityMakesPrintingTotal(unit.reactFlowKey, d, false);
        ValidityMakesPrintingTotal(unit.reactFlowKey, d, true);
      } else {
        NothingAbovePrintsNothing(unit.reactFlowKey, d, false);
        NothingAbovePrintsNothing(unit.reactFlowKey, d, true);
      }
    }
  }

  /** In a valid dictionary the inputs of every target schema node can be printed. */
  lemma ValidMapPrints(d: ConnectionDictionary, target: Key, localize: bool)
    requires Acyclic(InGraph(d)) && EnrichersHaveEntries(d) && IsValidToMakeMapDefinition(d)
    requires target in d && target.TargetKey?
    ensures !GetInputValues(target, d, localize).MissingConnection?
  {
    ValidityMakesPrintingTotal(target, d, localize);
  }
}
