/** How find-slot writes allocate the input slots of a function (Connection.Utils.ts). */
module Slots {
  import opened Model
  import opened Connections
  import opened ConnectionInvariants

  predicate IsFunctionInputSlotAvailable(inputs: Option<seq<seq<InputConnection>>>, max: int) {
    !(max != -1 && inputs.Some? && |FlattenInputs(inputs.value)| == max)
  }

  /** A bounded function's entry with at most one input in every slot. */
  predicate SlotsWithin(inputs: seq<seq<InputConnection>>, max: nat) {
    |inputs| == max && forall i :: 0 <= i < max ==> |inputs[i]| <= 1
  }

  predicate HasEmptySlot(inputs: seq<seq<InputConnection>>) {
    exists i :: 0 <= i < |inputs| && inputs[i] == []
  }

  lemma {:induction false} FlattenCountsFilledSlots(inputs: seq<seq<InputConnection>>)
    requires SlotsWithin(inputs, |inputs|)
    ensures |FlattenInputs(inputs)| <= |inputs|
    ensures |FlattenInputs(inputs)| < |inputs| <==> HasEmptySlot(inputs)
  {
    if inputs != [] {
      FlattenCountsFilledSlots(inputs[1..]);
      if HasEmptySlot(inputs[1..]) {
        var i :| 0 <= i < |inputs[1..]| && inputs[1..][i] == [];
        assert inputs[i + 1] == [];
      }
    }
  }

  /** By pigeonhole, a slot is reported available exactly when one is empty. */
  lemma AvailableIffEmptySlot(inputs: seq<seq<InputConnection>>, max: nat)
    requires SlotsWithin(inputs, max)
    ensures IsFunctionInputSlotAvailable(Some(inputs), max) <==> HasEmptySlot(inputs)
  {
    FlattenCountsFilledSlots(inputs);
  }

  /** A function without an entry, or without a limit, has room; and so, by the same test, is one reported
      that holds more inputs than it has slots. */
  lemma AvailableBeyondSlots(inputs: seq<seq<InputConnection>>, max: int)
    ensures IsFunctionInputSlotAvailable(None, max) && IsFunctionInputSlotAvailable(Some(inputs), -1)
    ensures |FlattenInputs(inputs)| > max ==> IsFunctionInputSlotAvailable(Some(inputs), max)
  {
  }

  function FindWrite(data: FunctionData, key: Key, input: InputConnection): Action {
    LinkAction(ConnectionUnit(Function(data), key), Put(input))
  }

  /** The inputs of a function after a write that finds its own slot; None where storing throws. */
  function AfterFind(inputs: seq<seq<InputConnection>>, data: FunctionData, input: InputConnection)
    : Option<seq<seq<InputConnection>>>
  {
    var key := FunctionKey(data.key, 0);
    var slot := ChosenSlot(Connection(ConnectionUnit(Function(data), key), inputs, []), FindWrite(data, key, input));
    StoreInput(inputs, Function(data), slot, Put(input))
  }

  /** A link to a bounded function stays within the slots exactly when a slot was available. */
  lemma LinkStaysWithinIffAvailable(inputs: seq<seq<InputConnection>>, data: FunctionData, unit: ConnectionUnit)
    requires data.maxNumberOfInputs > 0 && SlotsWithin(inputs, data.maxNumberOfInputs)
    ensures var after := AfterFind(inputs, data, Linked(unit));
            && after.Some?
            && (SlotsWithin(after.value, data.maxNumberOfInputs)
                <==> IsFunctionInputSlotAvailable(Some(inputs), data.maxNumberOfInputs))
  {
    AvailableIffEmptySlot(inputs, data.maxNumberOfInputs);
    var slot := FirstMarked(EmptyMarks(inputs));
    if slot == -1 {
      assert forall i :: 0 <= i < |inputs| ==> !EmptyMarks(inputs)[i];
      assert |AfterFind(inputs, data, Linked(unit)).value[0]| == 2;
    } else {
      assert inputs[slot] == [];
    }
  }

  predicate HasSlotForCustom(inputs: seq<seq<InputConnection>>, data: FunctionData) {
    exists i :: 0 <= i < |inputs| && inputs[i] == [] && AllowsCustom(data, i)
  }

  /** A custom value also needs a slot that allows one; otherwise it lands in slot 0, which
      overflows unless it happens to be empty. */
  lemma CustomStaysWithinIff(inputs: seq<seq<InputConnection>>, data: FunctionData, value: string)
    requires data.maxNumberOfInputs > 0 && SlotsWithin(inputs, data.maxNumberOfInputs)
    ensures var after := AfterFind(inputs, data, Custom(value));
            && after.Some?
            && (SlotsWithin(after.value, data.maxNumberOfInputs) <==>
                  (inputs[0] == [] || HasSlotForCustom(inputs, data)))
  {
    var slot := FirstMarked(OpenToCustomMarks(inputs, data));
    if slot == -1 {
      assert |AfterFind(inputs, data, Custom(value)).value[0]| == |inputs[0]| + 1;
    } else {
      assert inputs[slot] == [] && AllowsCustom(data, slot);
    }
  }

  // ----- when a function can take an input

  predicate CanTake(data: FunctionData) {
    data.maxNumberOfInputs == -1 || data.maxNumberOfInputs > 0
  }

  /** The slots a function is declared with, whatever they hold. */
  predicate HasShape(inputs: seq<seq<InputConnection>>, data: FunctionData) {
    if data.maxNumberOfInputs == -1 then inputs != []
    else |inputs| == if data.maxNumberOfInputs > 0 then data.maxNumberOfInputs else 0
  }

  lemma FreshEntryHasShape(data: FunctionData)
    ensures HasShape(EntryInputs(Function(data)), data)
  {
  }

  /** A find-slot write throws exactly for a function that is declared without inputs. */
  lemma FindKeepsShape(inputs: seq<seq<InputConnection>>, data: FunctionData, input: InputConnection)
    requires HasShape(inputs, data) && !input.Undefined?
    ensures AfterFind(inputs, data, input).Some? <==> CanTake(data)
    ensures AfterFind(inputs, data, input).Some? ==> HasShape(AfterFind(inputs, data, input).value, data)
  {
  }

  /** On the dictionary: the write goes through exactly when the slots take it, and leaves them so. */
  lemma FindWriteStores(d: ConnectionDictionary, data: FunctionData, key: Key, input: InputConnection)
    requires !input.Undefined?
    ensures var a := FindWrite(data, key, input);
            && (Apply(d, a).Some? <==> AfterFind(InputsBefore(d, a), data, input).Some?)
            && (Apply(d, a).Some? ==>
                  && key in Apply(d, a).value
                  && AfterFind(InputsBefore(d, a), data, input) == Some(Apply(d, a).value[key].inputs))
  {
    var a := FindWrite(data, key, input);
    if Apply(d, a).Some? {
      ApplyEffect(d, a);
      StoredInputs(d, a);
    }
  }

  /** What a fresh entry holds after inputs were written one after another. */
  function Fill(data: FunctionData, values: seq<InputConnection>): Option<seq<seq<InputConnection>>> {
    if values == [] then Some(EntryInputs(Function(data)))
    else
      match Fill(data, values[..|values| - 1])
      case None => None
      case Some(inputs) => AfterFind(inputs, data, values[|values| - 1])
  }

  lemma {:induction false} FillSucceedsIff(data: FunctionData, values: seq<InputConnection>)
    requires forall i :: 0 <= i < |values| ==> !values[i].Undefined?
    ensures Fill(data, values).Some? <==> values == [] || CanTake(data)
    ensures Fill(data, values).Some? ==> HasShape(Fill(data, values).value, data)
    decreases |values|
  {
    hide AfterFind, HasShape, CanTake;
    if values == [] {
      FreshEntryHasShape(data);
    } else {
      var front := values[..|values| - 1];
      FillSucceedsIff(data, front);
      if Fill(data, front).Some? {
        FindKeepsShape(Fill(data, front).value, data, values[|values| - 1]);
      }
    }
  }

  // ----- inputs that arrive in order

  /** The entry of a function whose first inputs, in order, are the given ones. */
  function FilledInputs(data: FunctionData, values: seq<InputConnection>): seq<seq<InputConnection>> {
    if data.maxNumberOfInputs == -1 then
      [values + seq(if |values| < 2 then 2 - |values| else 0, _ => Undefined)]
    else
      seq(if data.maxNumberOfInputs > 0 then data.maxNumberOfInputs else 0,
          i requires 0 <= i => if i < |values| then [values[i]] else [])
  }

  /** An input that fits as number i: a bounded function takes a custom value only where its
      declaration allows one. */
  predicate FitsAt(data: FunctionData, i: nat, input: InputConnection) {
    && !IsFalsy(input)
    && (data.maxNumberOfInputs != -1 ==>
          i < data.maxNumberOfInputs && (input.Custom? ==> AllowsCustom(data, i)))
  }

  predicate Fits(data: FunctionData, values: seq<InputConnection>) {
    forall i: nat :: i < |values| ==> FitsAt(data, i, values[i])
  }

  lemma FreshEntryIsFilled(data: FunctionData)
    ensures EntryInputs(Function(data)) == FilledInputs(data, [])
  {
    if data.maxNumberOfInputs == -1 {
      assert FilledInputs(data, [])[0] == [Undefined, Undefined];
    }
  }

  /** The next input goes to the next slot. */
  lemma NextInputTakesNextSlot(data: FunctionData, values: seq<InputConnection>, input: InputConnection)
    requires Fits(data, values) && FitsAt(data, |values|, input)
    ensures AfterFind(FilledInputs(data, values), data, input) == Some(FilledInputs(data, values + [input]))
    ensures Fits(data, values + [input])
  {
    if data.maxNumberOfInputs == -1 {
      hide AfterFind, FilledInputs;
      NextInputOfUnbounded(data, values, input);
    } else {
      hide AfterFind, FilledInputs;
      NextInputOfBounded(data, values, input);
    }
  }

  lemma NextInputOfUnbounded(data: FunctionData, values: seq<InputConnection>, input: InputConnection)
    requires data.maxNumberOfInputs == -1 && Fits(data, values) && FitsAt(data, |values|, input)
    ensures AfterFind(FilledInputs(data, values), data, input) == Some(FilledInputs(data, values + [input]))
  {
    hide AllowsCustom, EntryInputs;
    var row, after := FilledInputs(data, values)[0], FilledInputs(data, values + [input]);
    assert FilledInputs(data, values) == [row];
    FirstOpenField(data, values);
    if |values| < 2 {
      assert SetAt(row, |values|, input) == after[0];
    } else {
      assert row == values && row + [input] == after[0];
    }
    assert [row][0 := after[0]] == after;
  }

  /** The first falsy field of an unbounded function follows its inputs. */
  lemma FirstOpenField(data: FunctionData, values: seq<InputConnection>)
    requires data.maxNumberOfInputs == -1 && Fits(data, values)
    ensures var row := FilledInputs(data, values)[0];
            FirstMarked(FalsyMarks(row)) == if |values| < 2 then |values| else -1
  {
    var row := FilledInputs(data, values)[0];
    assert forall i: nat :: i < |values| ==> row[i] == values[i] && FitsAt(data, i, values[i]);
    if |values| < 2 {
      assert FalsyMarks(row)[|values|];
    }
  }

  lemma NextInputOfBounded(data: FunctionData, values: seq<InputConnection>, input: InputConnection)
    requires data.maxNumberOfInputs != -1 && Fits(data, values) && FitsAt(data, |values|, input)
    ensures AfterFind(FilledInputs(data, values), data, input) == Some(FilledInputs(data, values + [input]))
  {
    var inputs, after := FilledInputs(data, values), FilledInputs(data, values + [input]);
    FirstOpenSlot(data, values, input);
    assert SetAt([], 0, input) == [input];
    assert inputs[|values| := [input]] == after;
  }

  lemma FirstOpenSlot(data: FunctionData, values: seq<InputConnection>, input: InputConnection)
    requires data.maxNumberOfInputs != -1 && Fits(data, values) && FitsAt(data, |values|, input)
    ensures FirstMarked(EmptyMarks(FilledInputs(data, values))) == |values|
    ensures input.Custom? ==> FirstMarked(OpenToCustomMarks(FilledInputs(data, values), data)) == |values|
  {
    var inputs := FilledInputs(data, values);
    assert forall i :: 0 <= i < |values| ==> inputs[i] == [values[i]];
    assert EmptyMarks(inputs)[|values|];
    assert input.Custom? ==> OpenToCustomMarks(inputs, data)[|values|];
  }

  /** Inputs that fit fill the slots in order. */
  lemma {:induction false} FillInOrder(data: FunctionData, values: seq<InputConnection>)
    requires Fits(data, values)
    ensures Fill(data, values) == Some(FilledInputs(data, values))
    decreases |values|
  {
    hide AfterFind, FilledInputs, FitsAt;
    if values == [] {
      FreshEntryIsFilled(data);
    } else {
      var front, last := values[..|values| - 1], values[|values| - 1];
      FillInOrder(data, front);
      NextInputTakesNextSlot(data, front, last);
      assert front + [last] == values;
    }
  }

  /** Reading a filled entry back gives the inputs in order of arrival, then only empty fields. */
  lemma FilledReadsBackInOrder(data: FunctionData, values: seq<InputConnection>)
    requires Fits(data, values)
    ensures var read := FlattenInputs(FilledInputs(data, values));
            && values <= read
            && forall i :: |values| <= i < |read| ==> read[i].Undefined?
  {
    if data.maxNumberOfInputs == -1 {
      var row := FilledInputs(data, values)[0];
      assert FlattenInputs([row]) == row + FlattenInputs([]);
    } else {
      FlattenBounded(data, values, 0);
    }
  }

  lemma RowsOfBounded(data: FunctionData, values: seq<InputConnection>)
    requires data.maxNumberOfInputs != -1
    ensures var rows := FilledInputs(data, values);
            forall i :: 0 <= i < |rows| ==> rows[i] == if i < |values| then [values[i]] else []
  {
  }

  lemma ValuesHaveRows(data: FunctionData, values: seq<InputConnection>)
    requires data.maxNumberOfInputs != -1 && Fits(data, values)
    ensures |values| <= |FilledInputs(data, values)|
  {
    if |values| > 0 { assert FitsAt(data, |values| - 1, values[|values| - 1]); }
  }

  lemma {:induction false} FlattenBounded(data: FunctionData, values: seq<InputConnection>, from: nat)
    requires data.maxNumberOfInputs != -1 && Fits(data, values)
    requires from <= |FilledInputs(data, values)|
    ensures FlattenInputs(FilledInputs(data, values)[from..]) == if from <= |values| then values[from..] else []
    decreases |FilledInputs(data, values)| - from
  {
    hide Fits, FitsAt, FilledInputs;
    var rows := FilledInputs(data, values);
    ValuesHaveRows(data, values);
    RowsOfBounded(data, values);
    if from < |rows| {
      FlattenBounded(data, values, from + 1);
      assert rows[from..][0] == rows[from] && rows[from..][1..] == rows[from + 1..];
      if from < |values| {
        assert values[from..] == [values[from]] + values[from + 1..];
      }
    }
  }

  function FindWrites(data: FunctionData, key: Key, values: seq<InputConnection>): seq<Action> {
    seq(|values|, i requires 0 <= i < |values| => FindWrite(data, key, values[i]))
  }

  /** One find-slot write to a function whose slots were filled in order never throws and takes
      the next slot, whatever the rest of the dictionary holds. */
  lemma FindWriteFills(d: ConnectionDictionary, data: FunctionData, key: Key, before: seq<InputConnection>,
                       input: InputConnection)
    requires InputsBefore(d, FindWrite(data, key, input)) == FilledInputs(data, before)
    requires Fits(data, before) && FitsAt(data, |before|, input)
    ensures Apply(d, FindWrite(data, key, input)).Some? && key in Apply(d, FindWrite(data, key, input)).value
    ensures Apply(d, FindWrite(data, key, input)).value[key].inputs == FilledInputs(data, before + [input])
    ensures Fits(data, before + [input])
  {
    hide AfterFind, FilledInputs, Apply;
    NextInputTakesNextSlot(data, before, input);
    FindWriteStores(d, data, key, input);
  }

  /** Inputs written one after another to a function fill its slots in the order they came. */
  lemma {:induction false} WritesInOrderFillSlots(
    d: ConnectionDictionary, data: FunctionData, key: Key, before: seq<InputConnection>, values: seq<InputConnection>)
    requires key in d && d[key].inputs == FilledInputs(data, before)
    requires Fits(data, before + values)
    ensures Run(d, FindWrites(data, key, values)).Some?
    ensures var e := Run(d, FindWrites(data, key, values)).value;
            key in e && e[key].inputs == FilledInputs(data, before + values)
    decreases |values|
  {
    hide Apply, FilledInputs, FitsAt;
    if values == [] {
      assert before + values == before;
    } else {
      var all := before + values;
      assert forall i: nat :: i < |before| ==> all[i] == before[i];
      assert FitsAt(data, |before|, all[|before|]);
      assert Fits(data, before);
      FindWriteFills(d, data, key, before, values[0]);
      assert FindWrites(data, key, values)[1..] == FindWrites(data, key, values[1..]);
      assert before + [values[0]] + values[1..] == all;
      WritesInOrderFillSlots(Apply(d, FindWrite(data, key, values[0])).value, data, key, before + [values[0]],
          values[1..]);
    }
  }
}
