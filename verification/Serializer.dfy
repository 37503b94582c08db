/** Writing the values of a connection dictionary into a map definition, for targets outside loops,
    conditionals and array items (MapDefinitionSerializer.ts). */
module Serializer {
  import opened Model
  import opened Graphs
  import Traversals
  import opened Strings
  import opened FunctionUtils
  import opened Printer
  import opened MapWriter
  import opened MapWrites

  // ----- the path of a target node

  predicate IsObjectType(nodeType: NormalizedDataType) {
    nodeType.ComplexType? || nodeType.ObjectType?
  }

  /** An attribute's name is marked. */
  function KeyOf(name: string): string {
    if name != [] && name[0] == '@' then ['$'] + name else name
  }

  function KeysOf(path: seq<PathItem>): (keys: seq<string>)
    ensures |keys| == |path| && forall i :: 0 <= i < |keys| ==> keys[i] == KeyOf(path[i].qName)
  {
    seq(|path|, i requires 0 <= i < |path| => KeyOf(path[i].qName))
  }

  /** The value of a node with the Complex property goes under an extra key. */
  predicate IsComplex(n: SchemaNode) {
    SchemaNodeProperty.Complex in n.nodeProperties
  }

  function PathKeys(n: SchemaNode): seq<string> {
    KeysOf(n.pathToRoot) + if IsComplex(n) then ["$value"] else []
  }

  /** Without that property, a node of object type is given no text. */
  predicate WritesText(n: SchemaNode) {
    IsComplex(n) || !IsObjectType(n.nodeType)
  }

  function ItemsFor(n: SchemaNode, value: string): seq<OutputPathItem> {
    Items(PathKeys(n), if WritesText(n) then value else "")
  }

  /** The path items of a target, pushed one after the other. */
  method CreateNewPathItems(n: SchemaNode, value: string) returns (newPath: seq<OutputPathItem>)
    requires n.pathToRoot != []
    ensures newPath == ItemsFor(n, value)
  {
    newPath := [];
    for i := 0 to |n.pathToRoot|
      invariant newPath == if i < |n.pathToRoot| then Items(KeysOf(n.pathToRoot)[..i], "") else ItemsFor(n, value)
    {
      var key := KeyOf(n.pathToRoot[i].qName);
      ItemsAppend(KeysOf(n.pathToRoot)[..i], key, "");
      assert KeysOf(n.pathToRoot)[..i + 1] == KeysOf(n.pathToRoot)[..i] + [key];
      if i + 1 < |n.pathToRoot| {
        newPath := newPath + [OutputPathItem(key, "")];
      } else {
        assert KeysOf(n.pathToRoot)[..i + 1] == KeysOf(n.pathToRoot);
        if IsComplex(n) {
          ItemsAppend(KeysOf(n.pathToRoot), "$value", value);
          newPath := newPath + [OutputPathItem(key, "")];
          newPath := newPath + [OutputPathItem("$value", value)];
        } else {
          ItemsAppend(KeysOf(n.pathToRoot)[..i], key, if WritesText(n) then value else "");
          assert PathKeys(n) == KeysOf(n.pathToRoot);
          newPath := newPath + [OutputPathItem(key, if value != "" && !IsObjectType(n.nodeType) then value else "")];
        }
      }
    }
  }

  lemma {:induction false} ItemsAppend(keys: seq<string>, key: string, value: string)
    ensures Items(keys + [key], value) == Items(keys, "") + [OutputPathItem(key, value)]
    decreases |keys|
  {
    if keys == [] {
      assert ([key])[1..] == [];
    } else {
      assert (keys + [key])[1..] == keys[1..] + [key];
      ItemsAppend(keys[1..], key, value);
    }
  }

  // ----- the value written for a target

  /** The value of an input, before it is made relative to the loops around it. */
  function InputValue(input: InputConnection, d: ConnectionDictionary): Printing<string>
    requires Acyclic(Traversals.InGraph(d))
  {
    match input
    case Undefined => Printed("")
    case Custom(value) => Printed(value)
    case Linked(ConnectionUnit(Schema(schema), _)) => Printed(schema.key)
    case Linked(ConnectionUnit(Function(data), key)) =>
      if DIRECT_ACCESS_KEY <= data.key then UnitText(input.unit, d, false) else CollectFunctionValue(data, key, d)
  }

  /** The last repeating item of a path other than the value itself. */
  function LastOtherRepeating(path: seq<PathItem>, value: string): Option<PathItem> {
    if path == [] then None
    else
      var last := path[|path| - 1];
      if last.repeating && last.key != value then Some(last) else LastOtherRepeating(path[..|path| - 1], value)
  }

  /** A value without the key of the loop around it. */
  function WithoutLoop(schema: SchemaNode, value: string): string {
    var outer := LastOtherRepeating(schema.pathToRoot, value);
    if outer.Some? && outer.value.key != "" then ReplaceFirst(value, outer.value.key + "/", "") else value
  }

  /** A source node inside a loop is written relative to it; outside $for there is nothing else to cut off. */
  function LocalValue(first: InputConnection, value: string): string {
    match first
    case Linked(ConnectionUnit(Schema(schema), _)) =>
      if value == schema.key && IsRepeating(schema) then "."
      else if "@" <= WithoutLoop(schema, value) then "./" + WithoutLoop(schema, value)
      else WithoutLoop(schema, value)
    case _ => value
  }

  /** Nothing is cut off and nothing put in front. */
  predicate StaysLocal(schema: SchemaNode, value: string) {
    if value == schema.key && IsRepeating(schema) then value == "."
    else
      var outer := LastOtherRepeating(schema.pathToRoot, value);
      || (!("@" <= value) && (outer.None? || outer.value.key == "" || !Contains(value, outer.value.key + "/")))
      || (outer.Some? && outer.value.key == "." && "./@" <= value)
  }

  /** What a loop's key cuts off a value. */
  lemma WithoutLoopCuts(schema: SchemaNode, value: string) returns (i: int)
    ensures var outer := LastOtherRepeating(schema.pathToRoot, value);
            var cut := WithoutLoop(schema, value);
            && (cut == value <==> outer.None? || outer.value.key == "" || !Contains(value, outer.value.key + "/"))
            && (cut != value ==>
                  && 0 <= i && i + |outer.value.key| + 1 <= |value|
                  && i == FindText(value, outer.value.key + "/") && outer.value.key + "/" <= value[i..]
                  && cut == value[..i] + value[i + |outer.value.key| + 1..])
  {
    var outer := LastOtherRepeating(schema.pathToRoot, value);
    hide LastOtherRepeating, FindText, Contains, ReplaceFirst;
    i := 0;
    if outer.Some? && outer.value.key != "" {
      i := FindText(value, outer.value.key + "/");
      CutIsShorter(value, outer.value.key + "/");
    }
  }

  /** Putting "./" in front of what is left gives the value back only below a node whose key is a dot. */
  lemma DotRestores(value: string, key: string, i: nat)
    requires i + |key| + 1 <= |value| && key + "/" <= value[i..]
    requires var cut := value[..i] + value[i + |key| + 1..]; "@" <= cut && "./" + cut == value
    ensures key == "." && "./@" <= value
  {
    var cut := value[..i] + value[i + |key| + 1..];
    assert |key| == 1 && cut[0] == value[2] == '@' && value[0] == '.';
    assert i == 0 && key[0] == value[0];
  }

  lemma DotIsCut(schema: SchemaNode, value: string)
    requires var outer := LastOtherRepeating(schema.pathToRoot, value); outer.Some? && outer.value.key == "."
    requires "./@" <= value
    ensures WithoutLoop(schema, value) == value[2..] && "@" <= value[2..] && "./" + value[2..] == value
  {
    assert "." + "/" == "./" && "./" <= value;
    assert FindText(value, "./") == 0;
  }

  /** LocalValue leaves a value as it is exactly when it cuts nothing off and puts nothing in front; that
      it puts back what it cut off happens only below a node whose key is a dot. */
  lemma LocalValueIsSameIff(schema: SchemaNode, key: Key, value: string)
    ensures LocalValue(Linked(ConnectionUnit(Schema(schema), key)), value) == value <==> StaysLocal(schema, value)
  {
    hide WithoutLoop, LastOtherRepeating, Contains, FindText;
    var outer, cut := LastOtherRepeating(schema.pathToRoot, value), WithoutLoop(schema, value);
    if !(value == schema.key && IsRepeating(schema)) {
      var i := WithoutLoopCuts(schema, value);
      if cut != value && "@" <= cut && "./" + cut == value {
        DotRestores(value, outer.value.key, i);
      }
      if outer.Some? && outer.value.key == "." && "./@" <= value {
        DotIsCut(schema, value);
      }
    }
  }

  /** Cutting out a text removes its first occurrence, or nothing. */
  lemma CutIsShorter(s: string, text: string)
    requires text != ""
    ensures !Contains(s, text) ==> ReplaceFirst(s, text, "") == s
    ensures Contains(s, text) ==>
              var i := FindText(s, text);
              0 <= i && i + |text| <= |s| && text <= s[i..] && ReplaceFirst(s, text, "") == s[..i] + s[i + |text|..]
  {
    FindTextFinds(s, text);
  }

  lemma FindTextFinds(s: string, text: string)
    ensures FindText(s, text) >= 0 <==> Contains(s, text)
  {
  }

  /** The loop next to a node, other than the value itself. */
  lemma {:induction false} LoopIsLast(path: seq<PathItem>, value: string)
    ensures match LastOtherRepeating(path, value)
            case None => forall i :: 0 <= i < |path| && path[i].repeating ==> path[i].key == value
            case Some(item) =>
              exists i :: 0 <= i < |path| && path[i] == item && item.repeating && item.key != value
                          && forall j :: i < j < |path| && path[j].repeating ==> path[j].key == value
  {
    if path != [] {
      var last := |path| - 1;
      if !(path[last].repeating && path[last].key != value) {
        LoopIsLast(path[..last], value);
      }
    }
  }

  /** A path below the loop next to it is written as what follows the loop's key, an attribute marked as one
      of the loop itself; the loop itself as a dot. */
  lemma LocalBelowLoop(schema: SchemaNode, key: Key, loop: PathItem, rest: string)
    requires loop.key != "" && schema.key == loop.key + "/" + rest && !IsRepeating(schema)
    requires LastOtherRepeating(schema.pathToRoot, schema.key) == Some(loop)
    ensures LocalValue(Linked(ConnectionUnit(Schema(schema), key)), schema.key)
            == if "@" <= rest then "./" + rest else rest
  {
    hide LastOtherRepeating;
    var text := loop.key + "/";
    assert schema.key == text + rest;
    assert schema.key[0..] == schema.key && text <= schema.key;
    assert FindText(schema.key, text) == 0;
    assert schema.key[..0] == "" && schema.key[|text|..] == rest;
    assert WithoutLoop(schema, schema.key) == rest;
  }

  lemma LoopIsDot(schema: SchemaNode, key: Key)
    requires IsRepeating(schema)
    ensures LocalValue(Linked(ConnectionUnit(Schema(schema), key)), schema.key) == "."
  {
  }

  // ----- a whole definition

  function FirstInput(c: Connection): InputConnection {
    if c.inputs != [] && c.inputs[0] != [] then c.inputs[0][0] else Undefined
  }

  /** A function or a source node counts as a conditional by the first letters of its key. */
  lemma ConditionalByKey(input: InputConnection)
    ensures IsConditionalInput(input) <==>
              && input.Linked?
              && match input.unit.node
                 case Schema(schema) => "if" <= schema.key
                 case Function(data) => "if" <= data.key
  {
  }

  /** Every input of a target is made relative by the first field of its first slot. */
  lemma FirstFieldDecides(c: Connection, first: InputConnection, row: seq<InputConnection>,
      slots: seq<seq<InputConnection>>)
    requires c.inputs == [[first] + row] + slots
    ensures FirstInput(c) == first
  {
  }

  predicate IsConditionalInput(input: InputConnection) {
    input.Linked? && IF_KEY <= NodeKey(input.unit.node)
  }

  /** On the way to the node, itself included, nothing connected is a loop or a conditional. */
  predicate IsPlainPath(d: ConnectionDictionary, n: SchemaNode) {
    && n.pathToRoot != [] && n.pathToRoot[|n.pathToRoot| - 1].key == n.key
    && forall i :: 0 <= i < |n.pathToRoot| && TargetKey(n.pathToRoot[i].key) in d ==>
         var c := d[TargetKey(n.pathToRoot[i].key)];
         !n.pathToRoot[i].repeating && c.inputs != [] && !IsConditionalInput(FirstInput(c))
  }

  /** The targets that are written by themselves: schema nodes that do not repeat. */
  predicate IsWritten(c: Connection) {
    c.self.node.Schema? && !IsRepeating(c.self.node.schema)
  }

  predicate IsPlainTargetOf(d: ConnectionDictionary, target: Key) {
    && target in d
    && (IsWritten(d[target]) ==>
          var n := d[target].self.node.schema;
          && target == TargetKey(n.key) && IsPlainPath(d, n)
          && forall i :: 0 <= i < |FlattenInputs(d[target].inputs)| ==>
               !IsConditionalInput(FlattenInputs(d[target].inputs)[i]))
  }

  /** One input after another is written for a target; None where that throws. */
  function WriteInputs(d: ConnectionDictionary, n: SchemaNode, first: InputConnection, inputs: seq<InputConnection>,
      t: Fields): Option<Fields>
    requires Acyclic(Traversals.InGraph(d))
    decreases |inputs|
  {
    if inputs == [] then Some(t)
    else if IsFalsy(inputs[0]) then WriteInputs(d, n, first, inputs[1..], t)
    else
      match InputValue(inputs[0], d)
      case Printed(value) =>
        (match WriteAt(t, ItemsFor(n, LocalValue(first, value)))
         case None => None
         case Some(next) => WriteInputs(d, n, first, inputs[1..], next))
      case _ => None
  }

  /** The targets, in whatever order they are sorted, are written one after another. */
  function GenerateBody(d: ConnectionDictionary, targets: seq<Key>, t: Fields): Option<Fields>
    requires Acyclic(Traversals.InGraph(d))
    requires forall k :: k in targets ==> IsPlainTargetOf(d, k)
    decreases |targets|
  {
    if targets == [] then Some(t)
    else
      assert IsPlainTargetOf(d, targets[0]);
      var c := d[targets[0]];
      if !IsWritten(c) then GenerateBody(d, targets[1..], t)
      else
        match WriteInputs(d, c.self.node.schema, FirstInput(c), FlattenInputs(c.inputs), t)
        case None => None
        case Some(next) => GenerateBody(d, targets[1..], next)
  }

  method WriteTarget(mapDefinition: MapDefinitionEntry, d: ConnectionDictionary, target: Key) returns (ok: bool)
    requires mapDefinition.Valid() && Acyclic(Traversals.InGraph(d))
    requires IsPlainTargetOf(d, target) && IsWritten(d[target])
    modifies mapDefinition.Repr
    ensures var c := d[target];
            var after := WriteInputs(d, c.self.node.schema, FirstInput(c), FlattenInputs(c.inputs),
                old(mapDefinition.Contents()));
            && (ok <==> after.Some?)
            && (ok ==> mapDefinition.Valid() && fresh(mapDefinition.Repr - old(mapDefinition.Repr))
                       && after == Some(mapDefinition.Contents()))
  {
    var n, first, inputs := d[target].self.node.schema, FirstInput(d[target]), FlattenInputs(d[target].inputs);
    ghost var result := WriteInputs(d, n, first, inputs, mapDefinition.Contents());
    PlainPathIsNotEmpty(d, target);
    assert inputs[0..] == inputs;
    hide WriteInputs, WriteAt, InputValue, LocalValue, ItemsFor, IsPlainTargetOf, Acyclic, FlattenInputs, FirstInput;
    for i := 0 to |inputs|
      invariant mapDefinition.Valid() && fresh(mapDefinition.Repr - old(mapDefinition.Repr))
      invariant result == WriteInputs(d, n, first, inputs[i..], mapDefinition.Contents())
    {
      NextInput(d, n, first, inputs, i, mapDefinition.Contents());
      if !IsFalsy(inputs[i]) {
        var value := InputValue(inputs[i], d);
        if !value.Printed? {
          return false;
        }
        var path := CreateNewPathItems(n, LocalValue(first, value.value));
        ok := mapDefinition.ApplyValueAtPath(path);
        if !ok {
          return;
        }
      }
    }
    NoInputLeft(d, n, first, inputs, mapDefinition.Contents());
    ok := true;
  }

  lemma NextInput(d: ConnectionDictionary, n: SchemaNode, first: InputConnection, inputs: seq<InputConnection>,
      i: nat, t: Fields)
    requires Acyclic(Traversals.InGraph(d)) && i < |inputs|
    ensures WriteInputs(d, n, first, inputs[i..], t) ==
            if IsFalsy(inputs[i]) then WriteInputs(d, n, first, inputs[i + 1..], t)
            else if !InputValue(inputs[i], d).Printed? then None
            else
              var after := WriteAt(t, ItemsFor(n, LocalValue(first, InputValue(inputs[i], d).value)));
              if after.None? then None else WriteInputs(d, n, first, inputs[i + 1..], after.value)
  {
    hide WriteAt, InputValue, LocalValue, ItemsFor, Acyclic;
    assert inputs[i..][1..] == inputs[i + 1..];
  }

  lemma NoInputLeft(d: ConnectionDictionary, n: SchemaNode, first: InputConnection, inputs: seq<InputConnection>,
      t: Fields)
    requires Acyclic(Traversals.InGraph(d))
    ensures WriteInputs(d, n, first, inputs[|inputs|..], t) == Some(t)
  {
  }

  lemma PlainPathIsNotEmpty(d: ConnectionDictionary, target: Key)
    requires IsPlainTargetOf(d, target) && IsWritten(d[target])
    ensures d[target].self.node.schema.pathToRoot != []
  {
  }

  method GenerateMapDefinitionBody(mapDefinition: MapDefinitionEntry, d: ConnectionDictionary, targets: seq<Key>)
    returns (ok: bool)
    requires mapDefinition.Valid() && Acyclic(Traversals.InGraph(d))
    requires forall k :: k in targets ==> IsPlainTargetOf(d, k)
    modifies mapDefinition.Repr
    ensures ok <==> GenerateBody(d, targets, old(mapDefinition.Contents())).Some?
    ensures ok ==> mapDefinition.Valid() && fresh(mapDefinition.Repr - old(mapDefinition.Repr))
                   && GenerateBody(d, targets, old(mapDefinition.Contents())) == Some(mapDefinition.Contents())
  {
    ghost var result := GenerateBody(d, targets, mapDefinition.Contents());
    hide WriteInputs, IsPlainPath, FirstInput;
    for i := 0 to |targets|
      invariant mapDefinition.Valid() && fresh(mapDefinition.Repr - old(mapDefinition.Repr))
      invariant result == GenerateBody(d, targets[i..], mapDefinition.Contents())
    {
      assert targets[i] in targets && targets[i..][1..] == targets[i + 1..];
      if IsWritten(d[targets[i]]) {
        ok := WriteTarget(mapDefinition, d, targets[i]);
        if !ok {
          return;
        }
      }
    }
    ok := true;
  }

  /** Where a target has several inputs, the last of them that has a text is what stands there. */
  lemma {:induction false} LastInputStands(d: ConnectionDictionary, n: SchemaNode, first: InputConnection,
      inputs: seq<InputConnection>, texts: seq<string>, t: Fields)
    requires Acyclic(Traversals.InGraph(d)) && n.pathToRoot != [] && WritesText(n) && |texts| == |inputs|
    requires forall i :: 0 <= i < |inputs| ==> !IsFalsy(inputs[i]) && InputValue(inputs[i], d) == Printed(texts[i])
    requires forall i :: 0 <= i < |inputs| ==> LocalValue(first, texts[i]) != ""
    requires inputs != [] && WriteInputs(d, n, first, inputs, t).Some?
    ensures TextAt(WriteInputs(d, n, first, inputs, t).value, PathKeys(n))
            == Some(LocalValue(first, texts[|texts| - 1]))
    decreases |inputs|
  {
    hide InputValue, LocalValue, Acyclic, TextAt, WriteAt, ItemsFor;
    var next := WriteAt(t, ItemsFor(n, LocalValue(first, texts[0]))).value;
    assert WriteInputs(d, n, first, inputs, t) == WriteInputs(d, n, first, inputs[1..], next);
    if |inputs| == 1 {
      assert inputs[1..] == [];
      ValueIsWrittenIff(t, n, LocalValue(first, texts[0]));
    } else {
      LastInputStands(d, n, first, inputs[1..], texts[1..], next);
    }
  }

  function GivenInputs(inputs: seq<InputConnection>): seq<InputConnection> {
    if inputs == [] then []
    else (if inputs[0] in {Undefined, Custom("")} then [] else [inputs[0]]) + GivenInputs(inputs[1..])
  }

  /** Empty fields are passed over. */
  lemma {:induction false} OnlyGivenInputsMatter(d: ConnectionDictionary, n: SchemaNode, first: InputConnection,
      inputs: seq<InputConnection>, t: Fields)
    requires Acyclic(Traversals.InGraph(d))
    ensures WriteInputs(d, n, first, inputs, t) == WriteInputs(d, n, first, GivenInputs(inputs), t)
    decreases |inputs|
  {
    hide InputValue, LocalValue, Acyclic, WriteAt, ItemsFor;
    if inputs != [] {
      var rest := GivenInputs(inputs[1..]);
      OnlyGivenInputsMatter(d, n, first, inputs[1..], t);
      if inputs[0] !in {Undefined, Custom("")} {
        assert GivenInputs(inputs) == [inputs[0]] + rest && GivenInputs(inputs)[1..] == rest;
        if InputValue(inputs[0], d).Printed? {
          var next := WriteAt(t, ItemsFor(n, LocalValue(first, InputValue(inputs[0], d).value)));
          if next.Some? {
            OnlyGivenInputsMatter(d, n, first, inputs[1..], next.value);
          }
        }
      } else {
        assert GivenInputs(inputs) == rest;
      }
    }
  }

  /** Targets that repeat are passed over. */
  lemma {:induction false} OnlyWrittenTargetsMatter(d: ConnectionDictionary, targets: seq<Key>, t: Fields)
    requires Acyclic(Traversals.InGraph(d)) && forall k :: k in targets ==> IsPlainTargetOf(d, k)
    ensures forall k :: k in WrittenTargets(d, targets) ==> k in targets && k in d && IsWritten(d[k])
    ensures GenerateBody(d, targets, t) == GenerateBody(d, WrittenTargets(d, targets), t)
    decreases |targets|
  {
    hide Acyclic, WriteInputs, IsPlainTargetOf, FirstInput, FlattenInputs;
    if targets != [] {
      assert IsPlainTargetOf(d, targets[0]);
      var rest := WrittenTargets(d, targets[1..]);
      OnlyWrittenTargetsMatter(d, targets[1..], t);
      TargetHasEntry(d, targets[0]);
      if d[targets[0]].self.node.Schema? && !IsRepeating(d[targets[0]].self.node.schema) {
        assert ([targets[0]] + rest)[1..] == rest;
        var c := d[targets[0]];
        var next := WriteInputs(d, c.self.node.schema, FirstInput(c), FlattenInputs(c.inputs), t);
        if next.Some? {
          OnlyWrittenTargetsMatter(d, targets[1..], next.value);
        }
      }
    }
  }

  lemma TargetHasEntry(d: ConnectionDictionary, target: Key)
    requires IsPlainTargetOf(d, target)
    ensures target in d
  {
  }

  function WrittenTargets(d: ConnectionDictionary, targets: seq<Key>): seq<Key> {
    if targets == [] then []
    else if targets[0] in d && d[targets[0]].self.node.Schema? && !IsRepeating(d[targets[0]].self.node.schema) then
      [targets[0]] + WrittenTargets(d, targets[1..])
    else WrittenTargets(d, targets[1..])
  }

  // ----- which mappings survive being written

  /** What is written for a node: its path, and the value unless the node is given no text. */
  function WrittenFor(n: SchemaNode, value: string): ValuedPath {
    ValuedPath(PathKeys(n), if WritesText(n) then value else "")
  }

  /** A value is written for a node exactly when the node has the Complex property or is not of object type. */
  lemma ValueIsWrittenIff(t: Fields, n: SchemaNode, value: string)
    requires n.pathToRoot != [] && value != "" && WriteAt(t, ItemsFor(n, value)).Some?
    ensures TextAt(WriteAt(t, ItemsFor(n, value)).value, PathKeys(n)) ==
            if WritesText(n) then Some(value) else TextAt(t, PathKeys(n))
  {
    ReadsBackOwn(t, WrittenFor(n, value));
  }

  /** One mapping that is lost: an object node without the Complex property, of either kind. */
  lemma ObjectValueIsLost(nodeType: NormalizedDataType)
    requires nodeType in {ObjectType, NormalizedDataType.ComplexType}
    ensures var n := SchemaNode("/r", "r", nodeType, [], [PathItem("/r", "r", false)], None, []);
            WriteAt(map[], ItemsFor(n, "x")) == Some(map["r" := Branch(map[])])
  {
    var n := SchemaNode("/r", "r", nodeType, [], [PathItem("/r", "r", false)], None, []);
    assert PathKeys(n) == ["r"];
    assert Items(["r"], "")[1..] == [];
  }

  /** With that property the value stands under a key of its own, and an attribute under its marked name. */
  lemma ComplexValueHasKey(nodeType: NormalizedDataType)
    ensures var n := SchemaNode("/r", "r", nodeType, [SchemaNodeProperty.Complex], [PathItem("/r", "r", false)], None,
            []);
            WriteAt(map[], ItemsFor(n, "x")) == Some(map["r" := Branch(map["$value" := Leaf("x")])])
  {
    var n := SchemaNode("/r", "r", nodeType, [SchemaNodeProperty.Complex], [PathItem("/r", "r", false)], None, []);
    assert PathKeys(n) == ["r", "$value"];
    assert ["r", "$value"][1..] == ["$value"] && ["$value"][1..] == [];
    assert Items(["r", "$value"], "x") == [OutputPathItem("r", "")] + Items(["$value"], "x");
    assert Items(["$value"], "x") == [OutputPathItem("$value", "x")];
    assert Items(["r", "$value"], "x")[1..] == [OutputPathItem("$value", "x")];
  }

  /** An attribute stands under its marked name. */
  lemma AttributeIsMarked(name: string)
    ensures var path := [PathItem("/r", "r", false), PathItem("/r/@" + name, "@" + name, false)];
            var n := SchemaNode("/r/@" + name, "@" + name, StringType, [], path, Some("/r"), []);
            WriteAt(map[], ItemsFor(n, "x")) == Some(map["r" := Branch(map["$@" + name := Leaf("x")])])
  {
    var path := [PathItem("/r", "r", false), PathItem("/r/@" + name, "@" + name, false)];
    var n := SchemaNode("/r/@" + name, "@" + name, StringType, [], path, Some("/r"), []);
    assert KeyOf("@" + name) == "$@" + name;
    assert PathKeys(n) == ["r", "$@" + name];
    assert ["r", "$@" + name][1..] == ["$@" + name] && ["$@" + name][1..] == [];
    assert Items(["$@" + name], "x") == [OutputPathItem("$@" + name, "x")];
    assert Items(["r", "$@" + name], "x") == [OutputPathItem("r", "")] + Items(["$@" + name], "x");
    assert Items(["r", "$@" + name], "x")[1..] == [OutputPathItem("$@" + name, "x")];
  }

  // ----- which two targets can be mapped in one definition

  /** A name that the definition's syntax gives no meaning of its own. */
  predicate IsPlainName(name: string) {
    name != [] && name[0] != '$' && !Contains(name, "$for") && !Contains(name, "$if")
  }

  function Names(n: SchemaNode): (names: seq<string>)
    ensures |names| == |n.pathToRoot| && forall i :: 0 <= i < |names| ==> names[i] == n.pathToRoot[i].qName
  {
    seq(|n.pathToRoot|, i requires 0 <= i < |n.pathToRoot| => n.pathToRoot[i].qName)
  }

  predicate HasPlainNames(n: SchemaNode) {
    n.pathToRoot != [] && forall i :: 0 <= i < |n.pathToRoot| ==> IsPlainName(n.pathToRoot[i].qName)
  }

  /** The text of the first node stands where the second node's own text or fields have to go. */
  predicate Clash(n: SchemaNode, m: SchemaNode) {
    WritesText(n) &&
    if IsComplex(n) then IsComplex(m) && Names(n) == Names(m)
    else Names(n) < Names(m) || (Names(n) == Names(m) && WritesText(m))
  }

  /** Written one after the other, both go through and the texts given to them are there. */
  ghost predicate BothSurvive(p: ValuedPath, q: ValuedPath) {
    var first := PutPath(map[], p);
    && first.Some? && PutPath(first.value, q).Some?
    && var t := PutPath(first.value, q).value;
       && (p.value != "" ==> TextAt(t, p.keys) == Some(p.value))
       && (q.value != "" ==> TextAt(t, q.keys) == Some(q.value))
  }

  predicate Spoils(p: ValuedPath, q: ValuedPath) {
    p.value != "" && (p.keys < q.keys || (p.keys == q.keys && q.value != "" && p.value != q.value))
  }

  lemma BothSurviveIff(p: ValuedPath, q: ValuedPath)
    requires p.keys != [] && q.keys != []
    ensures BothSurvive(p, q) && BothSurvive(q, p) <==> !Spoils(p, q) && !Spoils(q, p)
  {
    OneOrderSurvivesIff(p, q);
    OneOrderSurvivesIff(q, p);
  }

  lemma OneOrderSurvivesIff(p: ValuedPath, q: ValuedPath)
    requires p.keys != [] && q.keys != []
    ensures BothSurvive(p, q) <==> !Spoils(p, q) && !(Spoils(q, p) && (p.value != ""))
  {
    hide PutPath, TextAt;
    OnlyText(p, p.keys);
    var t := PutPath(map[], p).value;
    SecondGoesThroughIff(p, q);
    if PutPath(t, q).Some? {
      ReadsBackOwn(t, q);
      if p.value != "" {
        SecondWriteKeepsFirstIff(map[], p, q);
      }
    }
  }

  /** A single write leaves its own text and no other. */
  lemma {:induction false} OnlyText(p: ValuedPath, keys: seq<string>)
    requires p.keys != []
    ensures PutPath(map[], p).Some?
    ensures TextAt(PutPath(map[], p).value, keys) == if keys == p.keys && p.value != "" then Some(p.value) else None
    decreases |p.keys|
  {
    PutUnfolds(map[], p);
    if |p.keys| > 1 {
      var rest := ValuedPath(p.keys[1..], p.value);
      assert Below(map[], p.keys[0]) == map[];
      OnlyText(rest, if keys == [] then [] else keys[1..]);
      assert p.keys == [p.keys[0]] + rest.keys;
    }
    if |keys| > 1 {
      assert keys == [keys[0]] + keys[1..];
      hide PutPath;
      TextBelow(PutPath(map[], p).value, keys);
    }
  }

  lemma SecondGoesThroughIff(p: ValuedPath, q: ValuedPath)
    requires p.keys != [] && q.keys != []
    ensures PutPath(map[], p).Some?
    ensures PutPath(PutPath(map[], p).value, q).Some? <==> !(p.value != "" && p.keys < q.keys)
  {
    hide PutPath, TextAt;
    OnlyText(p, p.keys);
    var t := PutPath(map[], p).value;
    PutThrowsIff(t, q);
    forall n | 0 < n < |q.keys| ensures TextAt(t, q.keys[..n]).Some? <==> q.keys[..n] == p.keys && p.value != "" {
      OnlyText(p, q.keys[..n]);
    }
    if p.keys < q.keys {
      assert q.keys[..|p.keys|] == p.keys;
    }
  }

  lemma KeysOrder(n: SchemaNode, m: SchemaNode)
    requires HasPlainNames(n) && HasPlainNames(m)
    ensures KeysOf(n.pathToRoot) <= KeysOf(m.pathToRoot) <==> Names(n) <= Names(m)
    ensures KeysOf(n.pathToRoot) == KeysOf(m.pathToRoot) <==> Names(n) == Names(m)
    ensures "$value" !in KeysOf(n.pathToRoot)
  {
    forall i | 0 <= i < |n.pathToRoot| ensures KeysOf(n.pathToRoot)[i] != "$value" {
      assert IsPlainName(n.pathToRoot[i].qName);
      assert "$value"[1] == 'v';
    }
    forall i | 0 <= i < |n.pathToRoot| && i < |m.pathToRoot|
      ensures KeysOf(n.pathToRoot)[i] == KeysOf(m.pathToRoot)[i] <==> Names(n)[i] == Names(m)[i]
    {
      SameKeySameName(n.pathToRoot[i].qName, m.pathToRoot[i].qName);
    }
  }

  lemma SameKeySameName(a: string, b: string)
    requires IsPlainName(a) && IsPlainName(b)
    ensures KeyOf(a) == KeyOf(b) <==> a == b
  {
    assert a[0] == '@' ==> KeyOf(a)[0] == '$' && KeyOf(a)[1..] == a;
    assert b[0] == '@' ==> KeyOf(b)[0] == '$' && KeyOf(b)[1..] == b;
  }

  lemma ClashIsSpoiling(n: SchemaNode, m: SchemaNode, v: string, w: string)
    requires HasPlainNames(n) && HasPlainNames(m) && v != "" && w != "" && v != w
    ensures Clash(n, m) <==> Spoils(WrittenFor(n, v), WrittenFor(m, w))
  {
    hide HasPlainNames, IsObjectType;
    KeysOrder(n, m);
    KeysOrder(m, n);
    var a, b := KeysOf(n.pathToRoot), KeysOf(m.pathToRoot);
    assert a + [] == a && b + [] == b;
    MarkedOrder(a, b, "$value");
    MarkedOrder(b, a, "$value");
  }

  lemma MarkedOrder(a: seq<string>, b: seq<string>, mark: string)
    requires mark !in a && mark !in b
    ensures a + [mark] <= b + [mark] <==> a == b
    ensures !(a + [mark] <= b)
    ensures a <= b + [mark] <==> a <= b
    ensures a + [mark] == b + [mark] <==> a == b
  {
    var x, y := a + [mark], b + [mark];
    assert x[|a|] == mark && y[|b|] == mark && x[..|a|] == a && y[..|b|] == b;
    assert forall i :: 0 <= i < |b| ==> y[i] == b[i] && b[i] != mark;
    assert forall i :: 0 <= i < |a| ==> x[i] == a[i] && a[i] != mark;
  }

  /** Different values can be written for two targets, in whatever order, exactly when neither clashes
      with the other: a text must not stand above another target, at the place of another text, or
      where the fields of a Complex node go. */
  lemma TargetsCoexistIff(n: SchemaNode, m: SchemaNode, v: string, w: string)
    requires HasPlainNames(n) && HasPlainNames(m) && v != "" && w != "" && v != w
    ensures BothSurvive(WrittenFor(n, v), WrittenFor(m, w)) && BothSurvive(WrittenFor(m, w), WrittenFor(n, v))
            <==> !Clash(n, m) && !Clash(m, n)
  {
    assert PathKeys(n) != [] && PathKeys(m) != [];
    hide HasPlainNames, BothSurvive, Spoils, Clash;
    BothSurviveIff(WrittenFor(n, v), WrittenFor(m, w));
    ClashIsSpoiling(n, m, v, w);
    ClashIsSpoiling(m, n, w, v);
  }
}
