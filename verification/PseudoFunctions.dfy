/** What functions print that hold given inputs: ordinary ones, and the three the source treats specially,
    by themselves, inside calls, as the values of targets and in a map definition. */
module PseudoFunctions {
  import opened Model
  import opened Graphs
  import opened Expressions
  import opened FunctionUtils
  import opened DirectAccess
  import opened Connections
  import opened Slots
  import opened Traversals
  import opened Printer
  import opened RoundTripPrinting
  import opened MapWriter
  import opened MapWrites
  import opened Serializer

  /** The unit's entry holds the inputs in order, and they print the texts. */
  ghost predicate HoldsPrinting(d: ConnectionDictionary, unit: ConnectionUnit, inputs: seq<InputConnection>,
                                localize: bool, texts: seq<string>)
    requires Acyclic(InGraph(d))
  {
    && unit.node.Function? && unit.reactFlowKey in d && d[unit.reactFlowKey].self == unit
    && Fits(unit.node.data, inputs) && d[unit.reactFlowKey].inputs == FilledInputs(unit.node.data, inputs)
    && |texts| == |inputs|
    && forall i :: 0 <= i < |inputs| ==> InputPrints(d, inputs[i], localize, texts[i]) && texts[i] != ""
  }

  lemma HeldInputsPrint(d: ConnectionDictionary, unit: ConnectionUnit, inputs: seq<InputConnection>, localize: bool,
                        texts: seq<string>)
    requires Acyclic(InGraph(d)) && HoldsPrinting(d, unit, inputs, localize, texts)
    ensures GetInputValues(unit.reactFlowKey, d, localize) == Printed(texts)
  {
    hide InputPrints;
    FilledPrints(d, unit.reactFlowKey, unit.node.data, inputs, texts, localize);
  }

  /** The text of an input, where that can be had; an empty field has none. */
  ghost predicate HasText(d: ConnectionDictionary, input: InputConnection, localize: bool, text: string)
    requires Acyclic(InGraph(d))
  {
    if input.Undefined? then text == "" else InputPrints(d, input, localize, text)
  }

  function NotEmpty(texts: seq<string>): seq<string> {
    if texts == [] then [] else (if texts[0] != "" then [texts[0]] else []) + NotEmpty(texts[1..])
  }

  /** What a node's inputs print: their texts in order, but for the empty ones. */
  lemma {:induction false} InputTextsInOrder(d: ConnectionDictionary, key: Key, inputs: seq<InputConnection>,
                                        localize: bool, texts: seq<string>)
    requires Acyclic(InGraph(d)) && key in d && |texts| == |inputs|
    requires forall unit :: Linked(unit) in inputs ==> unit.reactFlowKey in Successors(InGraph(d), key)
    requires forall i :: 0 <= i < |inputs| ==> HasText(d, inputs[i], localize, texts[i])
    ensures InputTexts(key, inputs, d, localize) == Printed(NotEmpty(texts))
    decreases |inputs|
  {
    hide UnitText, Acyclic;
    if inputs != [] {
      assert inputs[0] in inputs;
      InputTextsInOrder(d, key, inputs[1..], localize, texts[1..]);
      assert HasText(d, inputs[0], localize, texts[0]);
      assert InputText(key, inputs[0], d, localize) == Printed(texts[0]);
    }
  }

  lemma NodePrintsInOrder(d: ConnectionDictionary, key: Key, localize: bool, texts: seq<string>)
    requires Acyclic(InGraph(d)) && key in d
    requires var inputs := FlattenInputs(d[key].inputs);
             |texts| == |inputs| && forall i :: 0 <= i < |inputs| ==> HasText(d, inputs[i], localize, texts[i])
    ensures GetInputValues(key, d, localize) == Printed(NotEmpty(texts))
  {
    hide HasText, FlattenInputs, Acyclic;
    FlattenedUnitsAreSuccessors(key, d);
    InputTextsInOrder(d, key, FlattenInputs(d[key].inputs), localize, texts);
  }

  /** There is a first field, but no schema node in it. */
  predicate HoldsNoNode(inputs: seq<seq<InputConnection>>) {
    inputs != [] && (inputs[0] != [] && inputs[0][0].Linked? ==> !inputs[0][0].unit.node.Schema?)
  }

  /** A function without an entry cannot be printed, and neither can a direct access that lacks one of its
      three texts, nor an index without its slot; an index that is linked to no node prints nothing. */
  lemma MissingPartsFail(d: ConnectionDictionary, unit: ConnectionUnit, localize: bool)
    requires Acyclic(InGraph(d)) && unit.node.Function?
    ensures unit.reactFlowKey !in d ==>
              UnitText(unit, d, localize) ==
              if "directAccess" <= unit.node.data.key then IncompleteDirectAccess else MissingConnection
    ensures unit.reactFlowKey in d && unit.node.data.key == "index" && d[unit.reactFlowKey].inputs == [] ==>
              UnitText(unit, d, localize) == MissingConnection
    ensures unit.reactFlowKey in d && unit.node.data.key == "index" && HoldsNoNode(d[unit.reactFlowKey].inputs) ==>
              UnitText(unit, d, localize) == Printed("")
    ensures forall texts :: "directAccess" <= unit.node.data.key && |texts| < 3
                            && GetInputValues(unit.reactFlowKey, d, false) == Printed(texts) ==>
              UnitText(unit, d, localize) == IncompleteDirectAccess
  {
    assert INDEX_KEY == "index" && !("directAccess" <= "index");
  }

  /** Where one input cannot be printed, the node it belongs to cannot either. */
  lemma {:induction false} FailureSpreads(d: ConnectionDictionary, key: Key, inputs: seq<InputConnection>,
                                          localize: bool, i: nat)
    requires Acyclic(InGraph(d)) && key in d && i < |inputs| && inputs[i].Linked?
    requires forall unit :: Linked(unit) in inputs ==> unit.reactFlowKey in Successors(InGraph(d), key)
    requires !UnitText(inputs[i].unit, d, localize).Printed?
    ensures !InputTexts(key, inputs, d, localize).Printed?
    decreases |inputs|
  {
    hide UnitText, Acyclic;
    assert inputs[0] in inputs;
    if i == 0 {
      assert InputText(key, inputs[0], d, localize) == UnitText(inputs[0].unit, d, localize);
    } else {
      FailureSpreads(d, key, inputs[1..], localize, i - 1);
    }
  }

  /** A function without a meaning of its own prints its name and, localized, its inputs. */
  lemma OrdinaryFunctionPrints(d: ConnectionDictionary, unit: ConnectionUnit, inputs: seq<InputConnection>,
                               texts: seq<string>, localize: bool)
    requires Acyclic(InGraph(d)) && HoldsPrinting(d, unit, inputs, true, texts)
    requires unit.node.data.key != "index" && unit.node.data.key != "if" && !("directAccess" <= unit.node.data.key)
    ensures InputPrints(d, Linked(unit), localize, CombineFunctionAndInputs(unit.node.data.functionName, texts))
  {
    HeldInputsPrint(d, unit, inputs, true, texts);
    hide GetInputValues, HoldsPrinting, CombineFunctionAndInputs;
    HolderIsItself(d, unit, inputs, true, texts);
    assert CollectFunctionValue(unit.node.data, unit.reactFlowKey, d)
           == Printed(CombineFunctionAndInputs(unit.node.data.functionName, texts));
  }

  lemma HolderIsItself(d: ConnectionDictionary, unit: ConnectionUnit, inputs: seq<InputConnection>, localize: bool,
                       texts: seq<string>)
    requires Acyclic(InGraph(d)) && HoldsPrinting(d, unit, inputs, localize, texts)
    ensures unit.node.Function? && unit.reactFlowKey in d && d[unit.reactFlowKey].self == unit
  {
  }

  /** A direct access prints its scope, the index in brackets, and the rest of its target's path; its own
      inputs are not localized. */
  lemma DirectAccessPrints(d: ConnectionDictionary, unit: ConnectionUnit, inputs: seq<InputConnection>, index: string,
                           scope: string, suffix: string, localize: bool)
    requires Acyclic(InGraph(d)) && HoldsPrinting(d, unit, inputs, false, [index, scope, scope + suffix])
    requires "directAccess" <= unit.node.data.key && IsPlainReplacement(scope + "[" + index + "]")
    ensures InputPrints(d, Linked(unit), localize, Access(index, scope, suffix))
  {
    HeldInputsPrint(d, unit, inputs, false, [index, scope, scope + suffix]);
    hide GetInputValues, HoldsPrinting, FormatDirectAccess, Access;
    FormatGivesAccess(index, scope, suffix);
    HolderIsItself(d, unit, inputs, false, [index, scope, scope + suffix]);
    assert unit.node.data.key != INDEX_KEY;
  }

  /** An index prints the loop variable of the source node it is linked to, wherever it stands. */
  lemma IndexPrints(d: ConnectionDictionary, unit: ConnectionUnit, source: SchemaNode, sourceKey: Key, localize: bool)
    requires Acyclic(InGraph(d)) && unit.node.Function? && unit.node.data.key == "index"
    requires unit.reactFlowKey in d && d[unit.reactFlowKey].self == unit
    requires d[unit.reactFlowKey].inputs
             == FilledInputs(unit.node.data, [Linked(ConnectionUnit(Schema(source), sourceKey))])
    requires Fits(unit.node.data, [Linked(ConnectionUnit(Schema(source), sourceKey))])
    ensures InputPrints(d, Linked(unit), localize, IndexValue(source))
    ensures CollectFunctionValue(unit.node.data, unit.reactFlowKey, d) == Printed(IndexValue(source))
  {
    assert FitsAt(unit.node.data, 0, Linked(ConnectionUnit(Schema(source), sourceKey)));
    hide IndexValue, GetInputValues, Acyclic;
  }

  /** A conditional prints the first of its inputs, its condition. */
  lemma ConditionPrints(d: ConnectionDictionary, unit: ConnectionUnit, inputs: seq<InputConnection>,
                        texts: seq<string>, localize: bool)
    requires Acyclic(InGraph(d)) && HoldsPrinting(d, unit, inputs, true, texts)
    requires unit.node.data.key == "if" && texts != []
    ensures InputPrints(d, Linked(unit), localize, texts[0])
  {
    HeldInputsPrint(d, unit, inputs, true, texts);
    hide GetInputValues, HoldsPrinting;
    HolderIsItself(d, unit, inputs, true, texts);
    assert CollectFunctionValue(unit.node.data, unit.reactFlowKey, d) == Printed(texts[0]);
  }

  /** A direct access as the argument of a call. */
  lemma CallOnAccessPrints(d: ConnectionDictionary, unit: ConnectionUnit, access: ConnectionUnit,
                           inputs: seq<InputConnection>, index: string, scope: string, suffix: string, localize: bool)
    requires Acyclic(InGraph(d)) && HoldsPrinting(d, access, inputs, false, [index, scope, scope + suffix])
    requires "directAccess" <= access.node.data.key && IsPlainReplacement(scope + "[" + index + "]")
    requires unit.node.Function? && unit.reactFlowKey in d && d[unit.reactFlowKey].self == unit
    requires unit.node.data.key != "index" && unit.node.data.key != "if" && !("directAccess" <= unit.node.data.key)
    requires Fits(unit.node.data, [Linked(access)])
    requires d[unit.reactFlowKey].inputs == FilledInputs(unit.node.data, [Linked(access)])
    ensures InputPrints(d, Linked(unit), localize,
                        CombineFunctionAndInputs(unit.node.data.functionName, [scope + "[" + index + "]" + suffix]))
  {
    hide InputPrints, FilledInputs, Fits, CombineFunctionAndInputs, FormatDirectAccess;
    DirectAccessPrints(d, access, inputs, index, scope, suffix, true);
    OrdinaryFunctionPrints(d, unit, [Linked(access)], [Access(index, scope, suffix)], localize);
  }

  // ----- the same as the value of a target

  /** A target that holds one input prints its text. */
  lemma TargetPrintsInput(d: ConnectionDictionary, target: Key, input: InputConnection, localize: bool, text: string)
    requires Acyclic(InGraph(d)) && target in d && d[target].inputs == [[input]]
    requires InputPrints(d, input, localize, text) && text != ""
    ensures GetInputValues(target, d, localize) == Printed([text])
  {
    hide InputPrints, InputTexts;
    FlattenedUnitsAreSuccessors(target, d);
    OneInputFlattens(input);
    TextsPrint(d, target, [input], [text], localize);
  }

  /** And a target node's function, an index or a direct access among them, is written as the text it prints. */
  lemma FunctionIsWritten(d: ConnectionDictionary, n: SchemaNode, unit: ConnectionUnit, text: string, t: Fields)
    requires Acyclic(InGraph(d)) && unit.node.Function? && unit.reactFlowKey in d && d[unit.reactFlowKey].self == unit
    requires !("if" <= unit.node.data.key) && InputPrints(d, Linked(unit), false, text)
    ensures WriteInputs(d, n, Linked(unit), [Linked(unit)], t) == PutPath(t, WrittenFor(n, text))
  {
    hide CollectFunctionValue, WriteAt, ItemsFor, GetInputValues;
    assert InputValue(Linked(unit), d) == Printed(text) by {
      IndexIsCollected(d, unit);
    }
    assert LocalValue(Linked(unit), text) == text;
    assert [Linked(unit)][1..] == [];
    ItemsAreWritten(n, text);
  }

  lemma ItemsAreWritten(n: SchemaNode, text: string)
    ensures ItemsFor(n, text) == Items(WrittenFor(n, text).keys, WrittenFor(n, text).value)
  {
  }

  /** An index is collected like a call. */
  lemma IndexIsCollected(d: ConnectionDictionary, unit: ConnectionUnit)
    requires Acyclic(InGraph(d)) && unit.node.Function? && unit.reactFlowKey in d && d[unit.reactFlowKey].self == unit
    ensures unit.node.data.key == INDEX_KEY ==>
              UnitText(unit, d, false) == CollectFunctionValue(unit.node.data, unit.reactFlowKey, d)
  {
    hide GetInputValues, IndexValueForConnection;
  }

  /** A direct access on a target outside loops and conditionals is written as scope[index]suffix. */
  lemma DirectAccessIsWritten(d: ConnectionDictionary, n: SchemaNode, unit: ConnectionUnit,
                              inputs: seq<InputConnection>, index: string, scope: string, suffix: string, t: Fields)
    requires Acyclic(InGraph(d)) && HoldsPrinting(d, unit, inputs, false, [index, scope, scope + suffix])
    requires "directAccess" <= unit.node.data.key && IsPlainReplacement(scope + "[" + index + "]")
    ensures WriteInputs(d, n, Linked(unit), [Linked(unit)], t)
            == PutPath(t, WrittenFor(n, scope + "[" + index + "]" + suffix))
  {
    hide HoldsPrinting, InputPrints, WriteInputs, PutPath, FormatDirectAccess;
    DirectAccessPrints(d, unit, inputs, index, scope, suffix, false);
    HolderIsItself(d, unit, inputs, false, [index, scope, scope + suffix]);
    FunctionIsWritten(d, n, unit, Access(index, scope, suffix), t);
  }
}
