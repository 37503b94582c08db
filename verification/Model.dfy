/** The values the data mapper works on: schema nodes, functions, and the connection dictionary. */
module Model {

  datatype Option<+T> = None | Some(value: T)

  /** A React Flow key. The source writes these as text: a `source-` or `target-` prefix in front
      of a schema path, or a function key followed by a generated guid. */
  datatype Key =
    | SourceKey(path: string)
    | TargetKey(path: string)
    | FunctionKey(functionKey: string, guid: nat)

  datatype SchemaNodeProperty =
    | NoProperty | Optional | Repeating | Attribute | Complex
    | MaxDepth | Cyclic | JArray | ArrayItem | AnyOf

  datatype NormalizedDataType =
    | AnyType | ArrayType | BinaryType | BooleanType | ComplexType | DateTimeType
    | DecimalType | IntegerType | NumberType | ObjectType | StringType

  datatype PathItem = PathItem(key: string, qName: string, repeating: bool)

  datatype SchemaNode = SchemaNode(
    key: string,
    qName: string,
    nodeType: NormalizedDataType,
    nodeProperties: seq<SchemaNodeProperty>,
    pathToRoot: seq<PathItem>,
    parentKey: Option<string>,
    children: seq<SchemaNode>)

  datatype FunctionInput = FunctionInput(isOptional: bool, allowCustomInput: bool)

  /** maxNumberOfInputs is -1 for a function that takes any number of inputs. */
  datatype FunctionData = FunctionData(
    key: string,
    functionName: string,
    maxNumberOfInputs: int,
    inputs: seq<FunctionInput>)

  datatype Node = Schema(schema: SchemaNode) | Function(data: FunctionData)

  datatype ConnectionUnit = ConnectionUnit(node: Node, reactFlowKey: Key)

  datatype InputConnection = Undefined | Custom(value: string) | Linked(unit: ConnectionUnit)

  /** inputs[i] is the array stored under input number i. */
  datatype Connection = Connection(
    self: ConnectionUnit,
    inputs: seq<seq<InputConnection>>,
    outputs: seq<ConnectionUnit>)

  type ConnectionDictionary = map<Key, Connection>

  /** What a write stores: `null` asks for the input to be deleted, anything else is put in place
      (`undefined` clears). */
  datatype Write = Delete | Put(input: InputConnection)

  datatype Action = Action(
    target: Node,
    targetKey: Key,
    inputIndex: Option<nat>,
    write: Write,
    findInputSlot: bool)

  /** A write goes through, is refused with a logged error, or throws. */
  datatype Outcome = Applied | Rejected | Threw

  ghost predicate NoDuplicates<T>(s: seq<T>) {
    forall i, j :: 0 <= i < j < |s| ==> s[i] != s[j]
  }

  /** JavaScript's `!value` on an input. */
  predicate IsFalsy(input: InputConnection) {
    input.Undefined? || input == Custom("")
  }

  predicate IsRepeating(node: SchemaNode) {
    Repeating in node.nodeProperties
  }

  /** All inputs of the node share one growing array. */
  predicate IsUnbounded(node: Node) {
    match node
    case Schema(schema) => IsRepeating(schema)
    case Function(data) => data.maxNumberOfInputs == -1
  }

  function UnitKeys(units: seq<ConnectionUnit>): seq<Key> {
    seq(|units|, i requires 0 <= i < |units| => units[i].reactFlowKey)
  }

  function FlattenInputs(inputs: seq<seq<InputConnection>>): seq<InputConnection> {
    if inputs == [] then [] else inputs[0] + FlattenInputs(inputs[1..])
  }

  /** The connection units among a list of inputs, in order. */
  function LinkedUnits(inputs: seq<InputConnection>): seq<ConnectionUnit> {
    if inputs == [] then []
    else (if inputs[0].Linked? then [inputs[0].unit] else []) + LinkedUnits(inputs[1..])
  }

  function InputUnits(connection: Connection): seq<ConnectionUnit> {
    LinkedUnits(FlattenInputs(connection.inputs))
  }

  lemma {:induction false} FlattenMembers(inputs: seq<seq<InputConnection>>, input: InputConnection)
    ensures input in FlattenInputs(inputs) <==> exists i :: 0 <= i < |inputs| && input in inputs[i]
  {
    if inputs != [] {
      FlattenMembers(inputs[1..], input);
      if i :| 0 <= i < |inputs| && input in inputs[i] {
        if i > 0 { assert inputs[1..][i - 1] == inputs[i]; }
      }
      if input in FlattenInputs(inputs[1..]) {
        var i :| 0 <= i < |inputs[1..]| && input in inputs[1..][i];
        assert input in inputs[i + 1];
      }
    }
  }

  lemma {:induction false} LinkedMembers(inputs: seq<InputConnection>, unit: ConnectionUnit)
    ensures unit in LinkedUnits(inputs) <==> Linked(unit) in inputs
  {
    if inputs != [] {
      LinkedMembers(inputs[1..], unit);
      assert inputs == [inputs[0]] + inputs[1..];
    }
  }

  lemma InputUnitsMembers(connection: Connection, unit: ConnectionUnit)
    ensures unit in InputUnits(connection) <==>
            exists i :: 0 <= i < |connection.inputs| && Linked(unit) in connection.inputs[i]
  {
    LinkedMembers(FlattenInputs(connection.inputs), unit);
    FlattenMembers(connection.inputs, Linked(unit));
  }
}
