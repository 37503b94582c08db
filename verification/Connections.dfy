/** Writing to the connection dictionary (Connection.Utils.ts): the specification of one write,
    and the class whose methods carry it out step by step. */
module Connections {
  import opened Model

  /** The first index that is marked, or -1: JavaScript's findIndex. */
  function FirstMarked(marks: seq<bool>): (r: int)
    ensures -1 <= r < |marks|
    ensures r >= 0 ==> marks[r] && forall i :: 0 <= i < r ==> !marks[i]
    ensures r == -1 ==> forall i :: 0 <= i < |marks| ==> !marks[i]
  {
    if marks == [] then -1
    else if marks[0] then 0
    else
      var r := FirstMarked(marks[1..]);
      if r == -1 then -1 else r + 1
  }

  function FalsyMarks(values: seq<InputConnection>): (marks: seq<bool>)
    ensures |marks| == |values|
    ensures forall i :: 0 <= i < |values| ==> (marks[i] <==> IsFalsy(values[i]))
  {
    seq(|values|, i requires 0 <= i < |values| => IsFalsy(values[i]))
  }

  function EmptyMarks(inputs: seq<seq<InputConnection>>): (marks: seq<bool>)
    ensures |marks| == |inputs|
    ensures forall i :: 0 <= i < |inputs| ==> (marks[i] <==> inputs[i] == [])
  {
    seq(|inputs|, i requires 0 <= i < |inputs| => inputs[i] == [])
  }

  function OpenToCustomMarks(inputs: seq<seq<InputConnection>>, data: FunctionData): (marks: seq<bool>)
    ensures |marks| == |inputs|
    ensures forall i :: 0 <= i < |inputs| ==> (marks[i] <==> inputs[i] == [] && AllowsCustom(data, i))
  {
    seq(|inputs|, i requires 0 <= i < |inputs| => inputs[i] == [] && AllowsCustom(data, i))
  }

  /** Assignment to an array element, filling any gap before it with undefined. */
  function SetAt(s: seq<InputConnection>, i: nat, x: InputConnection): seq<InputConnection> {
    if i < |s| then s[i := x] else s + seq(i - |s|, _ => Undefined) + [x]
  }

  /** Units whose key differs from k, in order. */
  function Without(units: seq<ConnectionUnit>, k: Key): seq<ConnectionUnit> {
    if units == [] then []
    else if units[0].reactFlowKey == k then Without(units[1..], k)
    else [units[0]] + Without(units[1..], k)
  }

  /** The first unit of every key, in order. */
  function UniqueUnits(units: seq<ConnectionUnit>): seq<ConnectionUnit> {
    if units == [] then []
    else
      var last := units[|units| - 1];
      var r := UniqueUnits(units[..|units| - 1]);
      if last.reactFlowKey in UnitKeys(r) then r else r + [last]
  }

  lemma KeysAppend(units: seq<ConnectionUnit>, unit: ConnectionUnit)
    ensures UnitKeys(units + [unit]) == UnitKeys(units) + [unit.reactFlowKey]
    ensures UnitKeys([unit] + units) == [unit.reactFlowKey] + UnitKeys(units)
  {
  }

  lemma DistinctAppend<T>(s: seq<T>, x: T)
    ensures NoDuplicates(s + [x]) <==> NoDuplicates(s) && x !in s
    ensures NoDuplicates([x] + s) <==> NoDuplicates(s) && x !in s
  {
    var a, b := s + [x], [x] + s;
    if NoDuplicates(a) {
      assert forall i :: 0 <= i < |s| ==> a[i] == s[i] && a[i] != a[|s|];
    }
    if NoDuplicates(b) {
      assert forall i :: 0 <= i < |s| ==> b[i + 1] == s[i] && b[0] != b[i + 1];
    }
  }

  lemma {:induction false} WithoutKeys(units: seq<ConnectionUnit>, k: Key)
    ensures k !in UnitKeys(Without(units, k))
    ensures forall x :: x != k ==> (x in UnitKeys(Without(units, k)) <==> x in UnitKeys(units))
    ensures NoDuplicates(UnitKeys(units)) ==> NoDuplicates(UnitKeys(Without(units, k)))
  {
    if units != [] {
      var r := Without(units[1..], k);
      WithoutKeys(units[1..], k);
      assert units == [units[0]] + units[1..];
      KeysAppend(units[1..], units[0]);
      KeysAppend(r, units[0]);
      DistinctAppend(UnitKeys(units[1..]), units[0].reactFlowKey);
      DistinctAppend(UnitKeys(r), units[0].reactFlowKey);
    }
  }

  lemma {:induction false} UniqueUnitsKeys(units: seq<ConnectionUnit>)
    ensures NoDuplicates(UnitKeys(UniqueUnits(units)))
    ensures forall k :: k in UnitKeys(UniqueUnits(units)) <==> k in UnitKeys(units)
    ensures NoDuplicates(UnitKeys(units)) ==> UniqueUnits(units) == units
  {
    if units != [] {
      var last := units[|units| - 1];
      var front := units[..|units| - 1];
      var r := UniqueUnits(front);
      UniqueUnitsKeys(front);
      assert units == front + [last];
      KeysAppend(front, last);
      KeysAppend(r, last);
      DistinctAppend(UnitKeys(front), last.reactFlowKey);
      DistinctAppend(UnitKeys(r), last.reactFlowKey);
    }
  }

  // ----- the specification of one write

  function EntryInputs(node: Node): seq<seq<InputConnection>> {
    match node
    case Schema(_) => [[]]
    case Function(data) =>
      if data.maxNumberOfInputs == -1 then [[Undefined, Undefined]]
      else EmptySlots(if data.maxNumberOfInputs > 0 then data.maxNumberOfInputs else 0)
  }

  function EmptySlots(n: nat): seq<seq<InputConnection>> {
    seq(n, _ => [])
  }

  function WithEntry(d: ConnectionDictionary, node: Node, key: Key): ConnectionDictionary {
    if key in d then d else d[key := Connection(ConnectionUnit(node, key), EntryInputs(node), [])]
  }

  /** The write that links a target, in a slot of its own finding, to a value. */
  function LinkAction(target: ConnectionUnit, w: Write): Action {
    Action(target.node, target.reactFlowKey, None, w, true)
  }

  /** Writes refused before anything is touched: an index write without an index, and a
      find-slot write without a value. */
  predicate IsRejected(a: Action) {
    || (!a.findInputSlot && a.inputIndex.None?)
    || (a.findInputSlot && (a.write.Delete? || a.write.input.Undefined?))
  }

  /** The value an index write is about to replace; None where reading it throws. */
  function SlotValue(c: Connection, target: Node, index: nat): Option<InputConnection> {
    if IsUnbounded(target) then
      if c.inputs == [] then None
      else Some(if index < |c.inputs[0]| then c.inputs[0][index] else Undefined)
    else
      if index >= |c.inputs| then None
      else Some(if c.inputs[index] != [] then c.inputs[index][0] else Undefined)
  }

  /** An index write first drops the target from the outputs of the source it displaces. */
  function Release(d: ConnectionDictionary, a: Action): Option<ConnectionDictionary>
    requires !IsRejected(a)
  {
    if a.findInputSlot || a.targetKey !in d then Some(d)
    else
      match SlotValue(d[a.targetKey], a.target, a.inputIndex.value)
      case None => None
      case Some(Linked(unit)) =>
        var source := unit.reactFlowKey;
        if source !in d then None
        else Some(d[source := d[source].(outputs := Without(d[source].outputs, a.targetKey))])
      case Some(_) => Some(d)
  }

  predicate AllowsCustom(data: FunctionData, i: nat) {
    i < |data.inputs| && data.inputs[i].allowCustomInput
  }

  /** The slot a write goes to; -1 appends to the first array. */
  function ChosenSlot(c: Connection, a: Action): (slot: int)
    ensures slot >= -1
  {
    var given := if a.inputIndex.Some? then a.inputIndex.value else 0;
    if !a.findInputSlot then given
    else
      match a.target
      case Schema(schema) => if IsRepeating(schema) then -1 else given
      case Function(data) =>
        var inputs := c.inputs;
        if data.maxNumberOfInputs == -1 then
          if inputs == [] then -1
          else FirstMarked(FalsyMarks(inputs[0]))
        else if a.write.Put? && a.write.input.Linked? then FirstMarked(EmptyMarks(inputs))
        else FirstMarked(OpenToCustomMarks(inputs, data))
  }

  /** The inputs after the write; None where storing throws. */
  function StoreInput(inputs: seq<seq<InputConnection>>, target: Node, slot: int, w: Write)
    : Option<seq<seq<InputConnection>>>
    requires slot >= -1
  {
    if IsUnbounded(target) then
      if inputs == [] then None
      else match w
        case Delete =>
          Some(if 0 <= slot < |inputs[0]| then inputs[0 := inputs[0][..slot] + inputs[0][slot + 1..]] else inputs)
        case Put(x) =>
          Some(inputs[0 := if slot == -1 then inputs[0] + [x] else SetAt(inputs[0], slot, x)])
    else match w
      case Delete => Some(inputs)
      case Put(x) =>
        var row := if slot == -1 then 0 else slot;
        if row >= |inputs| then None
        else if x.Undefined? then Some(inputs[row := []])
        else Some(inputs[row := if slot == -1 then inputs[0] + [x] else SetAt(inputs[row], 0, x)])
  }

  /** A connection unit put in place gets an entry of its own that lists the target once. */
  function RecordOutput(d: ConnectionDictionary, target: ConnectionUnit, w: Write): ConnectionDictionary {
    if w.Put? && w.input.Linked? then
      var source := w.input.unit;
      var e := WithEntry(d, source.node, source.reactFlowKey);
      var c := e[source.reactFlowKey];
      e[source.reactFlowKey := c.(outputs := UniqueUnits(c.outputs + [target]))]
    else d
  }

  /** One write to the dictionary; None where the source throws. */
  function Apply(d: ConnectionDictionary, a: Action): Option<ConnectionDictionary> {
    if IsRejected(a) then Some(d)
    else
      var released := Release(d, a);
      if released.None? then None
      else
        var e := WithEntry(released.value, a.target, a.targetKey);
        var c := e[a.targetKey];
        var stored := StoreInput(c.inputs, a.target, ChosenSlot(c, a), a.write);
        if stored.None? then None
        else Some(RecordOutput(e[a.targetKey := c.(inputs := stored.value)], ConnectionUnit(a.target, a.targetKey),
            a.write))
  }

  // ----- the writes as the source carries them out

  class ConnectionStore {
    var connections: ConnectionDictionary

    constructor ()
      ensures connections == map[]
    {
      connections := map[];
    }

    method CreateConnectionEntryIfNeeded(node: Node, key: Key)
      modifies this
      ensures connections == WithEntry(old(connections), node, key)
    {
      if key !in connections {
        var inputs: seq<seq<InputConnection>> := [];
        match node {
          case Function(data) =>
            if data.maxNumberOfInputs != -1 {
              var index := 0;
              while index < data.maxNumberOfInputs
                invariant 0 <= index && (index == 0 || index <= data.maxNumberOfInputs)
                invariant inputs == EmptySlots(index) && connections == old(connections)
              {
                inputs := inputs + [[]];
                index := index + 1;
              }
            } else {
              inputs := [[Undefined, Undefined]];
            }
          case Schema(_) =>
            inputs := [[]];
        }
        connections := connections[key := Connection(ConnectionUnit(node, key), inputs, [])];
      }
    }

    /** Drops the target from the outputs of the source an index write displaces. */
    method ReleaseDisplaced(a: Action) returns (threw: bool)
      requires !IsRejected(a)
      modifies this
      ensures threw <==> Release(old(connections), a).None?
      ensures !threw ==> Release(old(connections), a) == Some(connections)
    {
      if !a.findInputSlot && a.targetKey in connections {
        var displaced := SlotValue(connections[a.targetKey], a.target, a.inputIndex.value);
        if displaced.None? {
          return true;
        }
        if displaced.value.Linked? {
          var source := displaced.value.unit.reactFlowKey;
          if source !in connections {
            return true;
          }
          var entry := connections[source];
          connections := connections[source := entry.(outputs := Without(entry.outputs, a.targetKey))];
        }
      }
      return false;
    }

    /** Puts the value into the chosen slot of the target's entry. */
    method StoreInSlot(a: Action, slot: int) returns (threw: bool)
      requires a.targetKey in connections && slot >= -1
      modifies this
      ensures var c := old(connections)[a.targetKey];
              var stored := StoreInput(c.inputs, a.target, slot, a.write);
              && (threw <==> stored.None?)
              && (!threw ==> connections == old(connections)[a.targetKey := c.(inputs := stored.value)])
    {
      var connection := connections[a.targetKey];
      var inputs := connection.inputs;
      if IsUnbounded(a.target) {
        if inputs == [] {
          return true;
        }
        var values := inputs[0];
        match a.write {
          case Delete =>
            if 0 <= slot < |values| {
              values := values[..slot] + values[slot + 1..];
            }
          case Put(x) =>
            values := if slot == -1 then values + [x] else SetAt(values, slot, x);
        }
        assert inputs[0 := inputs[0]] == inputs;
        inputs := inputs[0 := values];
      } else if a.write.Put? {
        var row := if slot == -1 then 0 else slot;
        if row >= |inputs| {
          return true;
        }
        if a.write.input.Undefined? {
          inputs := inputs[row := []];
        } else if slot == -1 {
          inputs := inputs[row := inputs[row] + [a.write.input]];
        } else {
          inputs := inputs[row := SetAt(inputs[row], 0, a.write.input)];
        }
      }
      connections := connections[a.targetKey := connection.(inputs := inputs)];
      return false;
    }

    method ApplyConnectionValue(a: Action) returns (outcome: Outcome)
      modifies this
      ensures outcome.Rejected? <==> IsRejected(a)
      ensures outcome.Threw? <==> Apply(old(connections), a).None?
      ensures !outcome.Threw? ==> Apply(old(connections), a) == Some(connections)
    {
      if || (!a.findInputSlot && a.inputIndex.None?)
         || (a.findInputSlot && (a.write == Delete || a.write.input.Undefined?)) {
        return Rejected;
      }
      var threw := ReleaseDisplaced(a);
      if threw {
        return Threw;
      }
      CreateConnectionEntryIfNeeded(a.target, a.targetKey);
      threw := StoreInSlot(a, ChosenSlot(connections[a.targetKey], a));
      if threw {
        return Threw;
      }
      if a.write.Put? && a.write.input.Linked? {
        var source := a.write.input.unit;
        CreateConnectionEntryIfNeeded(source.node, source.reactFlowKey);
        var entry := connections[source.reactFlowKey];
        connections := connections[source.reactFlowKey :=
            entry.(outputs := UniqueUnits(entry.outputs + [ConnectionUnit(a.target, a.targetKey)]))];
      }
      return Applied;
    }
  }
}
