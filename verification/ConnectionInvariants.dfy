/** What every run of writes keeps: inputs are mirrored by outputs, and guarded connecting
    never closes a cycle. */
module ConnectionInvariants {
  import opened Model
  import opened Graphs
  import opened Connections
  import opened Traversals

  ghost predicate HoldsAt(inputs: seq<seq<InputConnection>>, i: int, j: int, source: Key) {
    && 0 <= i < |inputs| && 0 <= j < |inputs[i]|
    && inputs[i][j].Linked? && inputs[i][j].unit.reactFlowKey == source
  }

  ghost predicate Holds(inputs: seq<seq<InputConnection>>, source: Key) {
    exists i, j :: HoldsAt(inputs, i, j, source)
  }

  ghost predicate Lists(c: Connection, target: Key) {
    target in UnitKeys(c.outputs)
  }

  /** Every connection unit held in a slot has its own entry, and that entry lists the holder. */
  ghost predicate Mirror(d: ConnectionDictionary) {
    forall k, s :: k in d && Holds(d[k].inputs, s) ==> s in d && Lists(d[s], k)
  }

  /** Entries know their key, list every output once, and list only keys with an entry. */
  ghost predicate Tidy(d: ConnectionDictionary) {
    && SelfKeyed(d)
    && (forall k :: k in d ==> NoDuplicates(UnitKeys(d[k].outputs)))
    && (forall k, n :: k in d && Lists(d[k], n) ==> n in d)
  }

  // ----- what one write does to every entry

  /** The source an index write displaces. */
  function Displaced(d: ConnectionDictionary, a: Action): Option<Key>
    requires !IsRejected(a)
  {
    if a.findInputSlot || a.targetKey !in d then None
    else
      match SlotValue(d[a.targetKey], a.target, a.inputIndex.value)
      case Some(Linked(unit)) => Some(unit.reactFlowKey)
      case _ => None
  }

  /** The source a write links the target to. */
  function NewSource(w: Write): Option<Key> {
    if w.Put? && w.input.Linked? then Some(w.input.unit.reactFlowKey) else None
  }

  function InputsBefore(d: ConnectionDictionary, a: Action): seq<seq<InputConnection>> {
    if a.targetKey in d then d[a.targetKey].inputs else EntryInputs(a.target)
  }

  lemma ReleaseEffect(d: ConnectionDictionary, a: Action)
    requires !IsRejected(a) && Release(d, a).Some?
    ensures var e := Release(d, a).value;
            && e.Keys == d.Keys
            && (forall k :: k in d ==> e[k].self == d[k].self && e[k].inputs == d[k].inputs)
            && (forall k, n :: k in d ==>
                  (Lists(e[k], n) <==> Lists(d[k], n) && !(n == a.targetKey && Displaced(d, a) == Some(k))))
            && (forall k :: k in d && NoDuplicates(UnitKeys(d[k].outputs)) ==> NoDuplicates(UnitKeys(e[k].outputs)))
  {
    if Displaced(d, a).Some? {
      WithoutKeys(d[Displaced(d, a).value].outputs, a.targetKey);
    }
  }

  /** The dictionary after the target's inputs are stored, before the source's outputs are updated. */
  function Stored(d: ConnectionDictionary, a: Action): ConnectionDictionary
    requires !IsRejected(a) && Apply(d, a).Some?
  {
    var e := WithEntry(Release(d, a).value, a.target, a.targetKey);
    var c := e[a.targetKey];
    e[a.targetKey := c.(inputs := StoreInput(c.inputs, a.target, ChosenSlot(c, a), a.write).value)]
  }

  lemma StoredEffect(d: ConnectionDictionary, a: Action)
    requires !IsRejected(a) && Apply(d, a).Some?
    ensures var e := Stored(d, a);
            && e.Keys == d.Keys + {a.targetKey}
            && (forall k :: k in d ==> e[k].self == d[k].self)
            && (forall k :: k in d && k != a.targetKey ==> e[k].inputs == d[k].inputs)
            && (forall k, n :: k in d ==>
                  (Lists(e[k], n) <==> Lists(d[k], n) && !(n == a.targetKey && Displaced(d, a) == Some(k))))
            && (forall k :: k in d && NoDuplicates(UnitKeys(d[k].outputs)) ==> NoDuplicates(UnitKeys(e[k].outputs)))
            && (a.targetKey !in d ==>
                  e[a.targetKey].self == ConnectionUnit(a.target, a.targetKey) && e[a.targetKey].outputs == [])
            && Apply(d, a) == Some(RecordOutput(e, ConnectionUnit(a.target, a.targetKey), a.write))
  {
    ReleaseEffect(d, a);
  }

  lemma RecordKeeps(d: ConnectionDictionary, target: ConnectionUnit, w: Write)
    ensures var e := RecordOutput(d, target, w);
            && e.Keys == d.Keys + (if NewSource(w).Some? then {NewSource(w).value} else {})
            && (forall k :: k in d ==> e[k].self == d[k].self && e[k].inputs == d[k].inputs)
            && (forall k :: k in e && k !in d ==>
                  k == w.input.unit.reactFlowKey && e[k].self == w.input.unit
                      && e[k].inputs == EntryInputs(w.input.unit.node))
  {
    hide UniqueUnits, EntryInputs;
  }

  lemma RecordLists(d: ConnectionDictionary, target: ConnectionUnit, w: Write, k: Key)
    requires k in RecordOutput(d, target, w)
    ensures var after := UnitKeys(RecordOutput(d, target, w)[k].outputs);
            var before := if k in d then UnitKeys(d[k].outputs) else [];
            && (forall n :: n in after <==> n in before || (n == target.reactFlowKey && NewSource(w) == Some(k)))
            && (NoDuplicates(before) ==> NoDuplicates(after))
  {
    hide UniqueUnits, UnitKeys, NoDuplicates, EntryInputs;
    if NewSource(w) == Some(k) {
      RecordedOutputs(WithEntry(d, w.input.unit.node, k)[k], target);
    }
  }

  lemma RecordEffect(d: ConnectionDictionary, target: ConnectionUnit, w: Write)
    ensures var e := RecordOutput(d, target, w);
            && e.Keys == d.Keys + (if NewSource(w).Some? then {NewSource(w).value} else {})
            && (forall k :: k in d ==> e[k].self == d[k].self && e[k].inputs == d[k].inputs)
            && (forall k :: k in e && k !in d ==>
                  k == w.input.unit.reactFlowKey && e[k].self == w.input.unit
                      && e[k].inputs == EntryInputs(w.input.unit.node))
            && (forall k, n :: k in e ==>
                  (Lists(e[k], n) <==>
                    || (k in d && Lists(d[k], n))
                    || (n == target.reactFlowKey && NewSource(w) == Some(k))))
            && (forall k :: k in e && (k in d ==> NoDuplicates(UnitKeys(d[k].outputs))) ==>
                  NoDuplicates(UnitKeys(e[k].outputs)))
  {
    hide RecordOutput, UnitKeys, EntryInputs;
    var e := RecordOutput(d, target, w);
    RecordKeeps(d, target, w);
    forall k | k in e
      ensures forall n ::
                Lists(e[k], n) <==> (k in d && Lists(d[k], n)) || (n == target.reactFlowKey && NewSource(w) == Some(k))
      ensures (k in d ==> NoDuplicates(UnitKeys(d[k].outputs))) ==> NoDuplicates(UnitKeys(e[k].outputs))
    {
      RecordLists(d, target, w, k);
    }
  }

  lemma RecordedOutputs(c: Connection, target: ConnectionUnit)
    ensures var after := UniqueUnits(c.outputs + [target]);
            && NoDuplicates(UnitKeys(after))
            && forall n :: n in UnitKeys(after) <==> n in UnitKeys(c.outputs) || n == target.reactFlowKey
    ensures UnitKeys([]) == []
  {
    UniqueUnitsKeys(c.outputs + [target]);
    KeysAppend(c.outputs, target);
  }

  lemma EntryHoldsNothing(node: Node, source: Key)
    ensures !Holds(EntryInputs(node), source)
  {
  }

  /** The target's inputs become what StoreInput says; every other entry keeps its inputs;
      outputs change only by losing the target at the displaced source and gaining it, once,
      at the new source. */
  lemma ApplyEffect(d: ConnectionDictionary, a: Action)
    requires !IsRejected(a) && Apply(d, a).Some?
    ensures var e := Apply(d, a).value;
            && e.Keys == d.Keys + {a.targetKey} + (if NewSource(a.write).Some? then {NewSource(a.write).value} else {})
            && (forall k :: k in d ==> e[k].self == d[k].self)
            && (a.targetKey !in d ==> e[a.targetKey].self == ConnectionUnit(a.target, a.targetKey))
            && (forall k :: k in d && k != a.targetKey ==> e[k].inputs == d[k].inputs)
            && (forall k :: k in e && k !in d && k != a.targetKey ==>
                  e[k].self == a.write.input.unit && e[k].inputs == EntryInputs(a.write.input.unit.node))
            && (forall k, n :: k in e ==>
                  (Lists(e[k], n) <==>
                    || (n == a.targetKey && NewSource(a.write) == Some(k))
                    || (k in d && Lists(d[k], n) && !(n == a.targetKey && Displaced(d, a) == Some(k)))))
            && e[a.targetKey].inputs == Stored(d, a)[a.targetKey].inputs
  {
    StoredEffect(d, a);
    RecordEffect(Stored(d, a), ConnectionUnit(a.target, a.targetKey), a.write);
  }

  lemma StoredIsTidy(d: ConnectionDictionary, a: Action)
    requires Tidy(d) && !IsRejected(a) && Apply(d, a).Some?
    ensures Tidy(Stored(d, a))
  {
    hide Apply, Stored, NoDuplicates;
    StoredEffect(d, a);
    DistinctNothing();
  }

  lemma RecordKeepsTidy(d: ConnectionDictionary, target: ConnectionUnit, w: Write)
    requires Tidy(d) && target.reactFlowKey in d
    ensures Tidy(RecordOutput(d, target, w))
  {
    hide RecordOutput, NoDuplicates, UnitKeys;
    RecordEffect(d, target, w);
  }

  lemma DistinctNothing()
    ensures UnitKeys([]) == [] && NoDuplicates(UnitKeys([]))
  {
  }

  lemma ApplyKeepsTidy(d: ConnectionDictionary, a: Action)
    requires Tidy(d) && Apply(d, a).Some?
    ensures Tidy(Apply(d, a).value)
  {
    if !IsRejected(a) {
      hide Apply, Stored, Tidy, RecordOutput;
      StoredEffect(d, a);
      StoredIsTidy(d, a);
      RecordKeepsTidy(Stored(d, a), ConnectionUnit(a.target, a.targetKey), a.write);
    }
  }

  // ----- the mirror invariant

  /** The positions a write overwrites. By index: one element of a shared array, or the first element
      of a slot, or a whole slot when it is cleared; a delete touches only shared arrays. A write that
      finds its slot overwrites nothing but the first input of a schema node that does not repeat. */
  predicate Overwrites(a: Action, i: int, j: int)
    requires !IsRejected(a)
  {
    if a.findInputSlot then
      && a.target.Schema? && !IsRepeating(a.target.schema)
      && i == (if a.inputIndex.Some? then a.inputIndex.value else 0) && j == 0
    else if IsUnbounded(a.target) then i == 0 && j == a.inputIndex.value
    else a.write.Put? && i == a.inputIndex.value && (a.write.input.Undefined? || j == 0)
  }

  ghost predicate HoldsElsewhere(inputs: seq<seq<InputConnection>>, a: Action, source: Key)
    requires !IsRejected(a)
  {
    exists i, j :: HoldsAt(inputs, i, j, source) && !Overwrites(a, i, j)
  }

  /** What a caller can look up before an index write: the displaced source, if there is one,
      fills no position the write leaves alone, or is the very source being put back. */
  ghost predicate SafeIndexWrite(d: ConnectionDictionary, a: Action)
    requires !IsRejected(a) && !a.findInputSlot
  {
    Displaced(d, a).Some? ==>
      || NewSource(a.write) == Displaced(d, a)
      || !HoldsElsewhere(d[a.targetKey].inputs, a, Displaced(d, a).value)
  }

  /** The slot a write goes to, given the inputs of its target. */
  function SlotFor(inputs: seq<seq<InputConnection>>, a: Action): (slot: int)
    ensures slot >= -1
  {
    ChosenSlot(Connection(ConnectionUnit(a.target, a.targetKey), inputs, []), a)
  }

  lemma FoundSlotPosition(inputs: seq<seq<InputConnection>>, a: Action, i: int, j: int, s: Key)
    requires !IsRejected(a) && a.findInputSlot && StoreInput(inputs, a.target, SlotFor(inputs, a), a.write).Some?
    ensures var after := StoreInput(inputs, a.target, SlotFor(inputs, a), a.write).value;
            && (HoldsAt(after, i, j, s) && NewSource(a.write) != Some(s) ==>
                  HoldsAt(inputs, i, j, s) && !Overwrites(a, i, j))
            && (HoldsAt(inputs, i, j, s) && !Overwrites(a, i, j) ==> HoldsAt(after, i, j, s))
  {
  }

  lemma FoundIsHeld(inputs: seq<seq<InputConnection>>, a: Action, s: Key)
    requires !IsRejected(a) && a.findInputSlot && NewSource(a.write) == Some(s)
    requires StoreInput(inputs, a.target, SlotFor(inputs, a), a.write).Some?
    ensures Holds(StoreInput(inputs, a.target, SlotFor(inputs, a), a.write).value, s)
  {
    var slot := SlotFor(inputs, a);
    var after := StoreInput(inputs, a.target, slot, a.write).value;
    if IsUnbounded(a.target) {
      assert HoldsAt(after, 0, if slot == -1 then |inputs[0]| else slot, s);
    } else {
      assert HoldsAt(after, if slot == -1 then 0 else slot, if slot == -1 then |inputs[0]| else 0, s);
    }
  }

  /** What is held after a write that finds its slot. */
  lemma FoundSlotHolds(inputs: seq<seq<InputConnection>>, a: Action, s: Key)
    requires !IsRejected(a) && a.findInputSlot && StoreInput(inputs, a.target, SlotFor(inputs, a), a.write).Some?
    ensures Holds(StoreInput(inputs, a.target, SlotFor(inputs, a), a.write).value, s)
            <==> HoldsElsewhere(inputs, a, s) || NewSource(a.write) == Some(s)
  {
    hide StoreInput, HoldsAt, SlotFor;
    var after := StoreInput(inputs, a.target, SlotFor(inputs, a), a.write).value;
    if NewSource(a.write) == Some(s) {
      FoundIsHeld(inputs, a, s);
    } else {
      if i, j :| HoldsAt(after, i, j, s) {
        FoundSlotPosition(inputs, a, i, j, s);
      }
      if i, j :| HoldsAt(inputs, i, j, s) && !Overwrites(a, i, j) {
        FoundSlotPosition(inputs, a, i, j, s);
      }
    }
  }

  /** Every position the write leaves alone keeps its link, though a delete moves the later ones down. */
  lemma IndexedSlotPosition(inputs: seq<seq<InputConnection>>, a: Action, i: int, j: int, s: Key)
    requires !IsRejected(a) && !a.findInputSlot
    requires StoreInput(inputs, a.target, a.inputIndex.value, a.write).Some?
    ensures var index := a.inputIndex.value;
            var after := StoreInput(inputs, a.target, index, a.write).value;
            var removed := IsUnbounded(a.target) && a.write.Delete? && index < |inputs[0]|;
            && (HoldsAt(after, i, j, s) && NewSource(a.write) != Some(s) ==>
                 var k := if removed && i == 0 && j >= index then j + 1 else j;
                 HoldsAt(inputs, i, k, s) && !Overwrites(a, i, k))
            && (HoldsAt(inputs, i, j, s) && !Overwrites(a, i, j) ==>
                 HoldsAt(after, i, if removed && i == 0 && j > index then j - 1 else j, s))
  {
  }

  lemma PutIsHeld(inputs: seq<seq<InputConnection>>, a: Action, s: Key)
    requires !IsRejected(a) && !a.findInputSlot && NewSource(a.write) == Some(s)
    requires StoreInput(inputs, a.target, a.inputIndex.value, a.write).Some?
    ensures Holds(StoreInput(inputs, a.target, a.inputIndex.value, a.write).value, s)
  {
    var index := a.inputIndex.value;
    var after := StoreInput(inputs, a.target, index, a.write).value;
    if IsUnbounded(a.target) {
      assert HoldsAt(after, 0, index, s);
    } else {
      assert HoldsAt(after, index, 0, s);
    }
  }

  lemma IndexedSlotHolds(inputs: seq<seq<InputConnection>>, a: Action, s: Key)
    requires !IsRejected(a) && !a.findInputSlot
    requires StoreInput(inputs, a.target, a.inputIndex.value, a.write).Some?
    ensures Holds(StoreInput(inputs, a.target, a.inputIndex.value, a.write).value, s)
            <==> HoldsElsewhere(inputs, a, s) || NewSource(a.write) == Some(s)
  {
    hide StoreInput, HoldsAt;
    var index := a.inputIndex.value;
    var after := StoreInput(inputs, a.target, index, a.write).value;
    if NewSource(a.write) == Some(s) {
      PutIsHeld(inputs, a, s);
    } else {
      if i, j :| HoldsAt(after, i, j, s) {
        IndexedSlotPosition(inputs, a, i, j, s);
      }
      if i, j :| HoldsAt(inputs, i, j, s) && !Overwrites(a, i, j) {
        IndexedSlotPosition(inputs, a, i, j, s);
      }
    }
  }

  lemma StoredInputs(d: ConnectionDictionary, a: Action)
    requires !IsRejected(a) && Apply(d, a).Some?
    ensures var slot := SlotFor(InputsBefore(d, a), a);
            StoreInput(InputsBefore(d, a), a.target, slot, a.write) == Some(Apply(d, a).value[a.targetKey].inputs)
  {
    ReleaseEffect(d, a);
    ApplyEffect(d, a);
  }

  /** After any write the target holds what stood at positions the write leaves alone, and the new source. */
  lemma TargetHoldsIff(d: ConnectionDictionary, a: Action, s: Key)
    requires !IsRejected(a) && Apply(d, a).Some?
    ensures Holds(Apply(d, a).value[a.targetKey].inputs, s)
            <==> HoldsElsewhere(InputsBefore(d, a), a, s) || NewSource(a.write) == Some(s)
  {
    hide Apply, StoreInput, Holds, HoldsElsewhere, InputsBefore;
    StoredInputs(d, a);
    if a.findInputSlot {
      FoundSlotHolds(InputsBefore(d, a), a, s);
    } else {
      IndexedSlotHolds(InputsBefore(d, a), a, s);
    }
  }

  /** Every write that finds its own slot keeps the mirror. */
  lemma FindSlotKeepsMirror(d: ConnectionDictionary, a: Action)
    requires Mirror(d) && a.findInputSlot && Apply(d, a).Some?
    ensures Mirror(Apply(d, a).value)
  {
    if !IsRejected(a) {
      var e := Apply(d, a).value;
      ApplyEffect(d, a);
      hide Apply;
      forall k, s | k in e && Holds(e[k].inputs, s) ensures s in e && Lists(e[s], k) {
        EntryHoldsNothing(a.target, s);
        if k == a.targetKey {
          TargetHoldsIff(d, a, s);
        } else if k !in d {
          EntryHoldsNothing(a.write.input.unit.node, s);
        }
      }
    }
  }

  /** A write by index keeps the mirror exactly when it is safe. */
  lemma IndexWriteKeepsMirrorIff(d: ConnectionDictionary, a: Action)
    requires Mirror(d) && !IsRejected(a) && !a.findInputSlot && Apply(d, a).Some?
    ensures Mirror(Apply(d, a).value) <==> SafeIndexWrite(d, a)
  {
    var e := Apply(d, a).value;
    ApplyEffect(d, a);
    hide Apply;
    if SafeIndexWrite(d, a) {
      forall k, s | k in e && Holds(e[k].inputs, s) ensures s in e && Lists(e[s], k) {
        EntryHoldsNothing(a.target, s);
        if k == a.targetKey {
          TargetHoldsIff(d, a, s);
        } else if k !in d {
          EntryHoldsNothing(a.write.input.unit.node, s);
        }
      }
    } else {
      var s := Displaced(d, a).value;
      TargetHoldsIff(d, a, s);
      assert Holds(e[a.targetKey].inputs, s) && !Lists(e[s], a.targetKey);
    }
  }

  // ----- stale outputs

  /** Every listed output is still an input of its target: no output is stale. */
  ghost predicate Backed(d: ConnectionDictionary) {
    forall k, n :: k in d && Lists(d[k], n) ==> n in d && Holds(d[n].inputs, k)
  }

  /** What a caller can look up before any write: every source that lists the target is released by the
      write, put in place by it, or held at a position it leaves alone. */
  ghost predicate LeavesNoneStale(d: ConnectionDictionary, a: Action)
    requires !IsRejected(a)
  {
    forall k :: k in d && Lists(d[k], a.targetKey) ==>
      || Displaced(d, a) == Some(k)
      || NewSource(a.write) == Some(k)
      || HoldsElsewhere(InputsBefore(d, a), a, k)
  }

  /** A write leaves no stale output exactly under that condition. */
  lemma WriteKeepsBackedIff(d: ConnectionDictionary, a: Action)
    requires Backed(d) && !IsRejected(a) && Apply(d, a).Some?
    ensures Backed(Apply(d, a).value) <==> LeavesNoneStale(d, a)
  {
    hide Apply, Holds, HoldsElsewhere, InputsBefore, Displaced, NewSource;
    var e := Apply(d, a).value;
    ApplyEffect(d, a);
    forall k ensures Holds(e[a.targetKey].inputs, k)
                     <==> HoldsElsewhere(InputsBefore(d, a), a, k) || NewSource(a.write) == Some(k) {
      TargetHoldsIff(d, a, k);
    }
    if LeavesNoneStale(d, a) {
      forall k, n | k in e && Lists(e[k], n) ensures n in e && Holds(e[n].inputs, k) {
      }
    }
    if Backed(e) {
      forall k | k in d && Lists(d[k], a.targetKey) && Displaced(d, a) != Some(k)
        ensures NewSource(a.write) == Some(k) || HoldsElsewhere(InputsBefore(d, a), a, k)
      {
        assert Lists(e[k], a.targetKey);
      }
    }
  }

  /** A write to a function that finds its slot never leaves a stale output. */
  lemma FunctionWriteLeavesNoneStale(d: ConnectionDictionary, a: Action)
    requires Backed(d) && !IsRejected(a) && a.findInputSlot && a.target.Function?
    ensures LeavesNoneStale(d, a)
  {
    hide HoldsAt;
    forall k | k in d && Lists(d[k], a.targetKey) ensures HoldsElsewhere(InputsBefore(d, a), a, k) {
      var i, j :| HoldsAt(d[a.targetKey].inputs, i, j, k);
      assert !Overwrites(a, i, j);
    }
  }

  function SourceLink(target: SchemaNode, source: SchemaNode): Action {
    LinkAction(ConnectionUnit(Schema(target), TargetKey(target.key)),
               Put(Linked(ConnectionUnit(Schema(source), SourceKey(source.key)))))
  }

  lemma SourceLinkReplaces(d: ConnectionDictionary, target: SchemaNode, source: SchemaNode)
    requires !IsRepeating(target)
    requires var inputs := InputsBefore(d, SourceLink(target, source)); |inputs| == 1 && |inputs[0]| <= 1
    ensures var r := Apply(d, SourceLink(target, source));
            && r.Some? && TargetKey(target.key) in r.value
            && r.value[TargetKey(target.key)].inputs
               == [[Linked(ConnectionUnit(Schema(source), SourceKey(source.key)))]]
  {
    var a := SourceLink(target, source);
    var inputs := InputsBefore(d, a);
    assert SetAt(inputs[0], 0, a.write.input) == [a.write.input];
    assert inputs[0 := [a.write.input]] == [[a.write.input]];
    assert StoreInput(inputs, a.target, 0, a.write) == Some([[a.write.input]]);
    StoredInputs(d, a);
    ApplyEffect(d, a);
  }

  lemma RunOfTwo(d: ConnectionDictionary, a: Action, b: Action)
    ensures Run(d, [a, b]) == if Apply(d, a).None? then None else Apply(Apply(d, a).value, b)
  {
    hide Apply;
    assert [a, b][1..] == [b] && [b][1..] == [];
    if Apply(d, a).Some? {
      var e := Apply(d, a).value;
      assert Run(e, [b]) == if Apply(e, b).None? then None else Run(Apply(e, b).value, []);
    }
  }

  /** One stale output: a second source for a schema node that does not repeat takes the first one's place,
      and the first one goes on listing the node. */
  lemma SecondSourceLeavesStaleOutput(target: SchemaNode, first: SchemaNode, second: SchemaNode)
    requires !IsRepeating(target) && first.key != second.key
    ensures var run := [SourceLink(target, first), SourceLink(target, second)];
            Run(map[], run).Some? && Mirror(Run(map[], run).value) && !Backed(Run(map[], run).value)
  {
    hide Apply;
    var a, b := SourceLink(target, first), SourceLink(target, second);
    RunOfTwo(map[], a, b);
    SourceLinkReplaces(map[], target, first);
    var d := Apply(map[], a).value;
    SourceLinkReplaces(d, target, second);
    hide *;
    EmptyIsBacked();
    FirstSourceIsListed(target, first);
    FirstIsNotLeft(d, target, first, second);
  }

  lemma EmptyIsBacked()
    ensures Backed(map[]) && Mirror(map[])
  {
  }

  /** What the first link leaves. */
  lemma FirstSourceIsListed(target: SchemaNode, first: SchemaNode)
    requires Apply(map[], SourceLink(target, first)).Some?
    ensures var d := Apply(map[], SourceLink(target, first)).value;
            Mirror(d) && SourceKey(first.key) in d && Lists(d[SourceKey(first.key)], TargetKey(target.key))
  {
    FindSlotKeepsMirror(map[], SourceLink(target, first));
    ApplyEffect(map[], SourceLink(target, first));
  }

  lemma FirstIsNotLeft(d: ConnectionDictionary, target: SchemaNode, first: SchemaNode, second: SchemaNode)
    requires !IsRepeating(target) && first.key != second.key
    requires Mirror(d) && SourceKey(first.key) in d && Lists(d[SourceKey(first.key)], TargetKey(target.key))
    requires TargetKey(target.key) in d
    requires d[TargetKey(target.key)].inputs == [[Linked(ConnectionUnit(Schema(first), SourceKey(first.key)))]]
    requires Apply(d, SourceLink(target, second)).Some?
    ensures var e := Apply(d, SourceLink(target, second)).value; Mirror(e) && !Backed(e)
  {
    var b := SourceLink(target, second);
    FindSlotKeepsMirror(d, b);
    ApplyEffect(d, b);
    TargetHoldsIff(d, b, SourceKey(first.key));
    assert !HoldsElsewhere(InputsBefore(d, b), b, SourceKey(first.key));
  }

  // ----- runs

  /** A run is a list of writes, each applied to the dictionary the one before it left. */
  function Run(d: ConnectionDictionary, actions: seq<Action>): Option<ConnectionDictionary>
    decreases |actions|
  {
    if actions == [] then Some(d)
    else
      var e := Apply(d, actions[0]);
      if e.None? then None else Run(e.value, actions[1..])
  }

  ghost predicate SafeWrite(d: ConnectionDictionary, a: Action) {
    IsRejected(a) || a.findInputSlot || SafeIndexWrite(d, a)
  }

  /** Before a link is drawn, the guard asks whether its target already leads to its source. */
  ghost predicate GuardAllows(d: ConnectionDictionary, a: Action)
    requires Acyclic(OutGraph(d))
  {
    !IsRejected(a) && NewSource(a.write).Some? ==>
      !NewConnectionWillHaveCircularLogic(a.targetKey, NewSource(a.write).value, d)
  }

  ghost predicate SafeRun(d: ConnectionDictionary, actions: seq<Action>)
    decreases |actions|
  {
    actions != [] ==>
      && SafeWrite(d, actions[0])
      && (Apply(d, actions[0]).Some? ==> SafeRun(Apply(d, actions[0]).value, actions[1..]))
  }

  ghost predicate GuardedRun(d: ConnectionDictionary, actions: seq<Action>)
    decreases |actions|
  {
    actions != [] ==>
      && (Acyclic(OutGraph(d)) ==> GuardAllows(d, actions[0]))
      && (Apply(d, actions[0]).Some? ==> GuardedRun(Apply(d, actions[0]).value, actions[1..]))
  }

  lemma {:induction false} SafeRunKeepsMirror(d: ConnectionDictionary, actions: seq<Action>)
    requires Mirror(d) && Tidy(d) && SafeRun(d, actions) && Run(d, actions).Some?
    ensures Mirror(Run(d, actions).value) && Tidy(Run(d, actions).value)
    decreases |actions|
  {
    if actions != [] {
      var a := actions[0];
      ApplyKeepsTidy(d, a);
      if !IsRejected(a) {
        if a.findInputSlot { FindSlotKeepsMirror(d, a); } else { IndexWriteKeepsMirrorIff(d, a); }
      }
      SafeRunKeepsMirror(Apply(d, a).value, actions[1..]);
    }
  }

  /** After every write of the run, inputs and outputs mirror each other both ways. */
  ghost predicate StaysMirrored(d: ConnectionDictionary, actions: seq<Action>)
    decreases |actions|
  {
    && Mirror(d) && Backed(d)
    && (actions != [] && Apply(d, actions[0]).Some? ==> StaysMirrored(Apply(d, actions[0]).value, actions[1..]))
  }

  /** Every write of the run is safe and leaves no output stale. */
  ghost predicate CleanRun(d: ConnectionDictionary, actions: seq<Action>)
    decreases |actions|
  {
    actions != [] ==>
      && SafeWrite(d, actions[0])
      && (!IsRejected(actions[0]) ==> LeavesNoneStale(d, actions[0]))
      && (Apply(d, actions[0]).Some? ==> CleanRun(Apply(d, actions[0]).value, actions[1..]))
  }

  /** One write keeps the mirror both ways exactly when it is safe and leaves no output stale. */
  lemma WriteKeepsBothIff(d: ConnectionDictionary, a: Action)
    requires Mirror(d) && Backed(d) && Apply(d, a).Some?
    ensures Mirror(Apply(d, a).value) && Backed(Apply(d, a).value)
            <==> SafeWrite(d, a) && (!IsRejected(a) ==> LeavesNoneStale(d, a))
  {
    hide Mirror, Backed, LeavesNoneStale, SafeIndexWrite;
    if !IsRejected(a) {
      WriteKeepsBackedIff(d, a);
      if a.findInputSlot { FindSlotKeepsMirror(d, a); } else { IndexWriteKeepsMirrorIff(d, a); }
    }
  }

  /** Inputs and outputs mirror each other both ways throughout a run exactly when all its writes are clean. */
  lemma {:induction false} RunStaysMirroredIff(d: ConnectionDictionary, actions: seq<Action>)
    requires Mirror(d) && Backed(d) && Run(d, actions).Some?
    ensures StaysMirrored(d, actions) <==> CleanRun(d, actions)
    ensures CleanRun(d, actions) ==> Mirror(Run(d, actions).value) && Backed(Run(d, actions).value)
    decreases |actions|
  {
    hide Mirror, Backed, SafeWrite, LeavesNoneStale, Apply;
    if actions != [] {
      var e := Apply(d, actions[0]).value;
      WriteKeepsBothIff(d, actions[0]);
      if Mirror(e) && Backed(e) {
        RunStaysMirroredIff(e, actions[1..]);
      } else {
        NotMirrored(e, actions[1..]);
      }
    }
  }

  lemma NotMirrored(d: ConnectionDictionary, actions: seq<Action>)
    requires !(Mirror(d) && Backed(d))
    ensures !StaysMirrored(d, actions)
  {
  }

  // ----- acyclicity

  lemma OutGraphAfterWrite(d: ConnectionDictionary, a: Action)
    requires !IsRejected(a) && Apply(d, a).Some?
    ensures var g, h := OutGraph(d), OutGraph(Apply(d, a).value);
            && (NewSource(a.write).None? ==> Subgraph(h, g))
            && (NewSource(a.write).Some? ==>
                 && AddsAtMost(g, h, NewSource(a.write).value, a.targetKey)
                 && a.targetKey in Successors(h, NewSource(a.write).value))
            && (a.findInputSlot ==> Subgraph(g, h))
  {
    ApplyEffect(d, a);
    SuccessorsAreOutputs(d);
    SuccessorsAreOutputs(Apply(d, a).value);
  }

  lemma SuccessorsAreOutputs(d: ConnectionDictionary)
    ensures forall k, n :: n in Successors(OutGraph(d), k) <==> k in d && Lists(d[k], n)
  {
  }

  /** The guard's answer before a link is drawn decides whether the graph has a cycle after it. */
  lemma GuardDecidesCycle(d: ConnectionDictionary, a: Action)
    requires Acyclic(OutGraph(d)) && Apply(d, a).Some?
    ensures GuardAllows(d, a) ==> Acyclic(OutGraph(Apply(d, a).value))
    ensures a.findInputSlot && Acyclic(OutGraph(Apply(d, a).value)) ==> GuardAllows(d, a)
  {
    if !IsRejected(a) {
      var g, h := OutGraph(d), OutGraph(Apply(d, a).value);
      OutGraphAfterWrite(d, a);
      if NewSource(a.write).None? {
        SubgraphAcyclic(h, g);
      } else {
        var s := NewSource(a.write).value;
        CircularLogicIsReachability(a.targetKey, s, d);
        if GuardAllows(d, a) {
          AddEdgeAcyclic(g, h, s, a.targetKey);
        } else if a.findInputSlot {
          SubgraphReaches(g, h, a.targetKey, s);
          CycleRefutes(h, s, a.targetKey);
        }
      }
    }
  }

  lemma {:induction false} GuardedRunKeepsAcyclic(d: ConnectionDictionary, actions: seq<Action>)
    requires Acyclic(OutGraph(d)) && GuardedRun(d, actions) && Run(d, actions).Some?
    ensures Acyclic(OutGraph(Run(d, actions).value))
    decreases |actions|
  {
    if actions != [] {
      GuardDecidesCycle(d, actions[0]);
      GuardedRunKeepsAcyclic(Apply(d, actions[0]).value, actions[1..]);
    }
  }

  lemma HeldIsSuccessor(d: ConnectionDictionary, k: Key, s: Key)
    requires k in d
    ensures s in Successors(InGraph(d), k) <==> Holds(d[k].inputs, s)
  {
    if s in Successors(InGraph(d), k) {
      var n :| 0 <= n < |InputUnits(d[k])| && InputUnits(d[k])[n].reactFlowKey == s;
      InputUnitsMembers(d[k], InputUnits(d[k])[n]);
      var i :| 0 <= i < |d[k].inputs| && Linked(InputUnits(d[k])[n]) in d[k].inputs[i];
      var j :| 0 <= j < |d[k].inputs[i]| && d[k].inputs[i][j] == Linked(InputUnits(d[k])[n]);
      assert HoldsAt(d[k].inputs, i, j, s);
    }
    if i, j :| HoldsAt(d[k].inputs, i, j, s) {
      var unit := d[k].inputs[i][j].unit;
      assert Linked(unit) in d[k].inputs[i];
      InputUnitsMembers(d[k], unit);
      var n :| 0 <= n < |InputUnits(d[k])| && InputUnits(d[k])[n] == unit;
      assert UnitKeys(InputUnits(d[k]))[n] == s;
    }
  }

  /** Under the mirror the inputs graph is part of the outputs graph turned round. */
  lemma MirrorReverses(d: ConnectionDictionary)
    requires Mirror(d)
    ensures ReversedIn(InGraph(d), OutGraph(d)) && Closed(InGraph(d), d)
    ensures Acyclic(OutGraph(d)) ==> Acyclic(InGraph(d))
  {
    hide Holds, Acyclic;
    forall k, s | s in Successors(InGraph(d), k) ensures s in d && k in Successors(OutGraph(d), s) {
      HeldIsSuccessor(d, k, s);
    }
    if Acyclic(OutGraph(d)) {
      ReversedAcyclic(InGraph(d), OutGraph(d));
    }
  }

  /** Where no output is stale either, the two graphs are each other's reverse. */
  lemma BackedReverses(d: ConnectionDictionary)
    requires Mirror(d) && Backed(d)
    ensures forall k, s :: s in Successors(InGraph(d), k) <==> k in Successors(OutGraph(d), s)
    ensures Acyclic(OutGraph(d)) <==> Acyclic(InGraph(d))
  {
    hide Holds, Acyclic, Lists, Mirror;
    MirrorReverses(d);
    SuccessorsAreOutputs(d);
    forall k, s | k in Successors(OutGraph(d), s) ensures s in Successors(InGraph(d), k) {
      HeldIsSuccessor(d, k, s);
    }
    if Acyclic(InGraph(d)) {
      ReversedAcyclic(OutGraph(d), InGraph(d));
    }
  }

  /** From an empty dictionary, a run whose index writes are safe and whose links pass the guard
      ends with mirrored inputs and with no cycle either way: every recursive walk terminates. */
  lemma WalksTerminateAfterEveryRun(actions: seq<Action>)
    requires SafeRun(map[], actions) && GuardedRun(map[], actions) && Run(map[], actions).Some?
    ensures var d := Run(map[], actions).value;
            Mirror(d) && Tidy(d) && Acyclic(OutGraph(d)) && Acyclic(InGraph(d)) && Closed(InGraph(d), d)
  {
    SafeRunKeepsMirror(map[], actions);
    RankedIsAcyclic(OutGraph(map[]), (k: Key) => 0, (k: Key) => false);
    GuardedRunKeepsAcyclic(map[], actions);
    MirrorReverses(Run(map[], actions).value);
  }

  lemma ReversedReaches(d: ConnectionDictionary, x: Key, y: Key)
    requires Mirror(d) && Reaches(InGraph(d), y, x)
    ensures Reaches(OutGraph(d), x, y)
  {
    MirrorReverses(d);
    var p :| WalkFromTo(InGraph(d), p, y, x);
    ReversedWalk(InGraph(d), OutGraph(d), p);
  }

  /** Whatever is collected as a source of y collects y as a target. */
  lemma CollectedSourceHasTarget(d: ConnectionDictionary, x: Key, y: Key)
    requires Mirror(d) && Tidy(d) && Acyclic(OutGraph(d)) && x in d && y in d
    requires Acyclic(InGraph(d)) && Closed(InGraph(d), d)
    requires d[x].self in CollectSourceNodes(y, d)
    ensures Closed(OutGraph(d), d) && d[y].self in CollectTargetNodes(x, d)
  {
    assert Closed(OutGraph(d), d);
    CollectChainIsReachSet(InGraph(d), y, d, d[x].self);
    ReversedReaches(d, x, y);
    CollectChainIsReachSet(OutGraph(d), x, d, d[y].self);
  }
}
