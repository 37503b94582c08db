/** What every field of a target's inputs reads after a write, linked or custom (Connection.Utils.ts). */
module SlotContents {
  import opened Model
  import opened Connections
  import opened ConnectionInvariants

  /** Reading a field that does not exist gives undefined. */
  function FieldAt(inputs: seq<seq<InputConnection>>, i: int, j: int): InputConnection {
    if 0 <= i < |inputs| && 0 <= j < |inputs[i]| then inputs[i][j] else Undefined
  }

  /** One field reads x, every other field what it read; the row is only as much longer as it has to be. */
  ghost predicate OnlyFieldChanged(
    before: seq<seq<InputConnection>>, after: seq<seq<InputConnection>>, i: int, j: int, x: InputConnection)
  {
    && |after| == |before| && 0 <= i < |after| && 0 <= j
    && FieldAt(after, i, j) == x
    && (forall k, l :: !(k == i && l == j) ==> FieldAt(after, k, l) == FieldAt(before, k, l))
    && (forall k :: 0 <= k < |after| && k != i ==> |after[k]| == |before[k]|)
    && |after[i]| == if |before[i]| > j then |before[i]| else j + 1
  }

  ghost predicate OnlyRowChanged(
    before: seq<seq<InputConnection>>, after: seq<seq<InputConnection>>, i: int, row: seq<InputConnection>)
  {
    && |after| == |before| && 0 <= i < |after| && after[i] == row
    && forall k :: 0 <= k < |after| && k != i ==> after[k] == before[k]
  }

  /** The inputs of the target after a write. */
  function InputsAfter(d: ConnectionDictionary, a: Action): (inputs: seq<seq<InputConnection>>)
    requires !IsRejected(a) && Apply(d, a).Some?
  {
    ApplyEffect(d, a);
    Apply(d, a).value[a.targetKey].inputs
  }

  lemma SetReadsBack(row: seq<InputConnection>, i: nat, x: InputConnection)
    ensures |SetAt(row, i, x)| == if |row| > i then |row| else i + 1
    ensures forall j :: 0 <= j < |SetAt(row, i, x)| ==>
              SetAt(row, i, x)[j] == if j == i then x else if j < |row| then row[j] else Undefined
  {
  }

  lemma RowSet(before: seq<seq<InputConnection>>, i: nat, j: nat, x: InputConnection)
    requires i < |before|
    ensures OnlyFieldChanged(before, before[i := SetAt(before[i], j, x)], i, j, x)
  {
    hide SetAt;
    SetReadsBack(before[i], j, x);
  }

  lemma RowAppended(before: seq<seq<InputConnection>>, i: nat, x: InputConnection)
    requires i < |before|
    ensures OnlyFieldChanged(before, before[i := before[i] + [x]], i, |before[i]|, x)
  {
  }

  // ----- writes by index

  /** A put by index reads back what was put, linked or custom, and changes nothing else; clearing a slot
      of its own empties it. */
  lemma IndexPutReadsBack(d: ConnectionDictionary, a: Action)
    requires !IsRejected(a) && !a.findInputSlot && a.write.Put? && Apply(d, a).Some?
    ensures var before, after, index, x := InputsBefore(d, a), InputsAfter(d, a), a.inputIndex.value, a.write.input;
            if IsUnbounded(a.target) then OnlyFieldChanged(before, after, 0, index, x)
            else if x.Undefined? then OnlyRowChanged(before, after, index, [])
            else OnlyFieldChanged(before, after, index, 0, x)
  {
    var before, index := InputsBefore(d, a), a.inputIndex.value;
    StoredInputs(d, a);
    hide Apply, OnlyFieldChanged, InputsBefore, SetAt;
    if IsUnbounded(a.target) {
      RowSet(before, 0, index, a.write.input);
    } else if index < |before| && !a.write.input.Undefined? {
      RowSet(before, index, 0, a.write.input);
    }
  }

  /** A delete takes exactly one element out of a shared array, and leaves a slot of its own as it is. */
  lemma IndexDeleteRemoves(d: ConnectionDictionary, a: Action)
    requires !IsRejected(a) && !a.findInputSlot && a.write.Delete? && Apply(d, a).Some?
    ensures var before, after, index := InputsBefore(d, a), InputsAfter(d, a), a.inputIndex.value;
            if IsUnbounded(a.target) && index < |before[0]| then
              && |after| == |before| && |after[0]| == |before[0]| - 1
              && (forall j :: 0 <= j < index ==> after[0][j] == before[0][j])
              && (forall j :: index < j < |before[0]| ==> after[0][j - 1] == before[0][j])
              && forall k :: 0 < k < |after| ==> after[k] == before[k]
            else after == before
  {
    StoredInputs(d, a);
    hide Apply, InputsBefore;
  }

  // ----- writes that find their slot

  lemma FoundPutOnSchema(d: ConnectionDictionary, a: Action)
    requires !IsRejected(a) && a.findInputSlot && a.target.Schema? && Apply(d, a).Some?
    ensures var before, after, x := InputsBefore(d, a), InputsAfter(d, a), a.write.input;
            if IsRepeating(a.target.schema) then
              before != [] && OnlyFieldChanged(before, after, 0, |before[0]|, x)
            else
              OnlyFieldChanged(before, after, if a.inputIndex.Some? then a.inputIndex.value else 0, 0, x)
  {
    var before, slot := InputsBefore(d, a), if a.inputIndex.Some? then a.inputIndex.value else 0;
    StoredInputs(d, a);
    hide Apply, OnlyFieldChanged, InputsBefore, SetAt;
    if IsRepeating(a.target.schema) {
      RowAppended(before, 0, a.write.input);
    } else if slot < |before| {
      RowSet(before, slot, 0, a.write.input);
    }
  }

  /** Where the next input of a function goes: an open field, the first of its kind, or, where none is
      open, the end of the first array. */
  predicate IsNextField(before: seq<seq<InputConnection>>, data: FunctionData, x: InputConnection, i: nat, j: nat) {
    if data.maxNumberOfInputs == -1 then
      && i == 0 && before != [] && j <= |before[0]|
      && (j < |before[0]| ==> before[0][j] in {Undefined, Custom("")})
      && forall l :: 0 <= l < j ==> before[0][l] !in {Undefined, Custom("")}
    else if exists k :: 0 <= k < |before| && IsOpenSlot(before, data, x, k) then
      && i < |before| && j == 0 && IsOpenSlot(before, data, x, i)
      && forall k :: 0 <= k < i ==> !IsOpenSlot(before, data, x, k)
    else
      i == 0 && before != [] && j == |before[0]|
  }

  /** An empty slot that takes the value. */
  predicate IsOpenSlot(before: seq<seq<InputConnection>>, data: FunctionData, x: InputConnection, k: nat) {
    k < |before| && before[k] == [] && (x.Linked? || (k < |data.inputs| && data.inputs[k].allowCustomInput))
  }

  lemma FoundPutOnFunction(d: ConnectionDictionary, a: Action) returns (i: nat, j: nat)
    requires !IsRejected(a) && a.findInputSlot && a.target.Function? && Apply(d, a).Some?
    ensures IsNextField(InputsBefore(d, a), a.target.data, a.write.input, i, j)
    ensures OnlyFieldChanged(InputsBefore(d, a), InputsAfter(d, a), i, j, a.write.input)
  {
    var before, data, x := InputsBefore(d, a), a.target.data, a.write.input;
    StoredInputs(d, a);
    hide Apply, OnlyFieldChanged, InputsBefore, SetAt;
    var slot := SlotFor(before, a);
    if data.maxNumberOfInputs == -1 {
      i, j := 0, if slot == -1 then |before[0]| else slot;
      if slot == -1 {
        RowAppended(before, 0, x);
      } else {
        RowSet(before, 0, slot, x);
      }
    } else {
      var marks := if x.Linked? then EmptyMarks(before) else OpenToCustomMarks(before, data);
      assert forall k: nat :: k < |before| ==> (marks[k] <==> IsOpenSlot(before, data, x, k));
      if slot == -1 {
        i, j := 0, |before[0]|;
        RowAppended(before, 0, x);
      } else {
        i, j := slot, 0;
        RowSet(before, slot, 0, x);
      }
    }
  }

  // ----- when a write throws

  /** An index write meets a slot that its entry does not have, or displaces a source without an entry. */
  ghost predicate ReleaseThrows(d: ConnectionDictionary, a: Action)
    requires !IsRejected(a)
  {
    && !a.findInputSlot && a.targetKey in d
    && var inputs, index := d[a.targetKey].inputs, a.inputIndex.value;
       || (if IsUnbounded(a.target) then inputs == [] else index >= |inputs|)
       || var displaced := if IsUnbounded(a.target) then FieldAt(inputs, 0, index) else FieldAt(inputs, index, 0);
          displaced.Linked? && displaced.unit.reactFlowKey !in d
  }

  /** A write throws exactly there, or where the target has no slot to put the value into. */
  lemma WriteThrowsIff(d: ConnectionDictionary, a: Action)
    requires !IsRejected(a)
    ensures Apply(d, a).None? <==>
            || ReleaseThrows(d, a)
            || (if IsUnbounded(a.target) then InputsBefore(d, a) == []
                else a.write.Put? && var slot := SlotFor(InputsBefore(d, a), a);
                                     |InputsBefore(d, a)| <= if slot == -1 then 0 else slot)
  {
    if Release(d, a).Some? {
      ReleaseEffect(d, a);
    }
  }
}
