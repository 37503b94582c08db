/** The graph that a value's text is turned into: every call is remembered, shared, and holds what its
    own text lists. */
module RoundTrip {
  import opened Model
  import opened Graphs
  import opened Strings
  import opened Splitter
  import opened FunctionUtils
  import opened Connections
  import opened ConnectionInvariants
  import opened Slots
  import opened Traversals
  import opened Schemas
  import opened Deserializer
  import opened Settling

  /** A call whose text is cut into itself, and whose node takes it: the node is linked to itself. */
  predicate IsOwnChild(env: Environment, source: string) {
    '(' in source && source in Children(source) && Receiver(env, source).Some?
  }

  /** Wherever the recursion goes, no call is linked to itself, a function is found by its key, and what
      stands in a text that is no call is linked to nothing. */
  predicate Contained(env: Environment, source: string)
    decreases |source|
  {
    if '(' !in source then true
    else
      ChildrenAreNotLonger(source);
      && (match CallOf(env, source)
          case None => FindTarget(env, "source-" + source).None?
          case Some(data) => FindFunctionForKey(data.key, env.functions) == Some(data))
      && forall i :: 0 <= i < |Children(source)| ==>
           assert Children(source)[i] in Children(source);
           if Children(source)[i] == source then Receiver(env, source).None? else Contained(env, Children(source)[i])
  }

  function KeyIn(created: map<string, Key>, source: string): Key {
    if source in created then created[source] else SourceKey(source)
  }

  /** What the node of a call is given for its first n children. */
  function Received(env: Environment, created: map<string, Key>, source: string, n: nat): seq<InputConnection>
    requires n <= |Children(source)|
  {
    if Receiver(env, source).None? then []
    else seq(n, i requires 0 <= i < n => InputFor(env, KeyIn(created, Children(source)[i]), Children(source)[i]))
  }

  function SlotsOf(d: ConnectionDictionary, key: Key, data: FunctionData): seq<seq<InputConnection>> {
    if key in d then d[key].inputs else EntryInputs(Function(data))
  }

  /** The node remembered for a call holds the call's first n children, in the slots they were given. */
  ghost predicate HoldsFirst(env: Environment, st: State, source: string, n: nat)
    requires CallOf(env, source).Some? && source in st.created && n <= |Children(source)|
  {
    var data, key := CallOf(env, source).value, st.created[source];
    && (forall i :: 0 <= i < n ==> Children(source)[i] in st.created)
    && (key in st.connections ==> st.connections[key].self == ConnectionUnit(Function(data), key))
    && Fill(data, Received(env, st.created, source, n)) == Some(SlotsOf(st.connections, key, data))
  }

  // ----- the invariant of a deserialization

  ghost predicate Numbered(env: Environment, st: State) {
    && WellRemembered(env, st.created)
    && (forall s :: s in st.created && st.created[s].FunctionKey? ==> st.created[s].guid < st.next)
    && (forall k :: k in st.connections && k.FunctionKey? ==> k.guid < st.next)
    && (forall s, t ::
          s in st.created && t in st.created && st.created[s] == st.created[t] && st.created[s].FunctionKey? ==>
          s == t)
  }

  /** The input was made for a shorter text than its holder, or for the same, if that is its own child. */
  ghost predicate Descends(env: Environment, created: map<string, Key>, input: Key, holder: Key) {
    exists s, t :: s in created && t in created && created[s] == input && created[t] == holder
                   && (|s| < |t| || (s == t && IsOwnChild(env, t)))
  }

  /** An input of a function is a source node or a function made for a text below the holder's; nothing
      leads into a source node, and a target node leads nowhere. */
  ghost predicate EdgeDescends(env: Environment, created: map<string, Key>, input: Key, holder: Key) {
    && !input.TargetKey? && !holder.SourceKey?
    && (input.FunctionKey? && holder.FunctionKey? ==> Descends(env, created, input, holder))
  }

  ghost predicate Ranked(env: Environment, st: State) {
    forall k, s :: k in st.connections && Holds(st.connections[k].inputs, s) ==> EdgeDescends(env, st.created, s, k)
  }

  ghost predicate TargetsHaveSlots(d: ConnectionDictionary) {
    forall p :: TargetKey(p) in d ==> d[TargetKey(p)].inputs != []
  }

  ghost predicate Sound(env: Environment, st: State) {
    Numbered(env, st) && Ranked(env, st) && Mirror(st.connections) && Tidy(st.connections)
        && TargetsHaveSlots(st.connections)
  }

  /** Every call made so far holds all its children; open are those still being filled. */
  ghost predicate Complete(env: Environment, st: State, open: set<string>) {
    forall s :: s in st.created && CallOf(env, s).Some? && s !in open ==> HoldsFirst(env, st, s, |Children(s)|)
  }

  /** Nothing remembered is lost, only the excepted entry's inputs change, no other target schema node
      gets an entry, and calls made earlier get at most an empty one. */
  ghost predicate Extends(env: Environment, st: State, after: State, except: Option<Key>) {
    && Remembers(st.created, after.created)
    && (forall k :: k in st.connections ==>
          && k in after.connections
          && after.connections[k].self == st.connections[k].self
          && (Some(k) != except ==> after.connections[k].inputs == st.connections[k].inputs))
    && (forall p :: TargetKey(p) in after.connections && TargetKey(p) !in st.connections ==>
          Some(TargetKey(p)) == except)
    && (forall s :: s in st.created && CallOf(env, s).Some? && st.created[s] !in st.connections
                    && st.created[s] in after.connections && Some(st.created[s]) != except ==>
          && after.connections[st.created[s]].self == ConnectionUnit(Function(CallOf(env, s).value), st.created[s])
          && after.connections[st.created[s]].inputs == EntryInputs(Function(CallOf(env, s).value)))
  }

  lemma ReceivedStable(env: Environment, created: map<string, Key>, later: map<string, Key>, source: string, n: nat)
    requires Remembers(created, later) && n <= |Children(source)|
    requires forall i :: 0 <= i < n ==> Children(source)[i] in created
    ensures Received(env, later, source, n) == Received(env, created, source, n)
  {
    hide Children, InputFor, Receiver;
  }

  lemma HoldsFirstPersists(env: Environment, st: State, after: State, except: Option<Key>, source: string, n: nat)
    requires CallOf(env, source).Some? && source in st.created && n <= |Children(source)|
    requires HoldsFirst(env, st, source, n) && Extends(env, st, after, except) && Some(st.created[source]) != except
    ensures HoldsFirst(env, after, source, n)
  {
    hide Children, Fill, Received, CallOf, EntryInputs;
    ReceivedStable(env, st.created, after.created, source, n);
  }

  /** Two growths with the same exception make one. */
  lemma ExtendsTwice(env: Environment, st: State, mid: State, after: State, except: Option<Key>)
    requires Extends(env, st, mid, except) && Extends(env, mid, after, except)
    ensures Extends(env, st, after, except)
  {
    hide CallOf, EntryInputs;
  }

  /** What changes below a node made on the way does not show outside. */
  lemma ExtendsThrough(env: Environment, st: State, mid: State, after: State, except: Option<Key>, made: Option<Key>)
    requires Extends(env, st, mid, except) && Extends(env, mid, after, made)
    requires made.Some? ==> made.value.FunctionKey? && made.value !in st.connections && made != except
    requires made.Some? ==> forall s :: s in st.created ==> st.created[s] != made.value
    ensures Extends(env, st, after, except)
  {
    hide CallOf, EntryInputs;
  }

  // ----- one link

  function TargetOf(env: Environment, destination: Destination): Option<Key> {
    match GetDestination(env, destination)
    case None => None
    case Some(target) => Some(target.reactFlowKey)
  }

  /** The destination is not found, a target schema node, or the function of an open text that the source
      is below. */
  ghost predicate GoesBelow(env: Environment, st: State, source: string, destination: Destination, open: set<string>) {
    TargetOf(env, destination).Some? && TargetOf(env, destination).value.FunctionKey? ==>
      exists t :: t in open && t in st.created && st.created[t] == TargetOf(env, destination).value
                  && (|source| < |t| || (source == t && IsOwnChild(env, t)))
  }

  /** And all open texts are longer. */
  ghost predicate IsAwaited(env: Environment, st: State, source: string, destination: Destination, open: set<string>) {
    (forall o :: o in open ==> |o| > |source|) && GoesBelow(env, st, source, destination, open)
  }

  lemma DestinationIsNoSource(env: Environment, destination: Destination)
    ensures TargetOf(env, destination).Some? ==> !TargetOf(env, destination).value.SourceKey?
  {
    hide Search, FindFunctionForKey;
  }

  /** The write a link makes, where the destination is found. */
  function LinkWrite(env: Environment, st: State, source: string, target: ConnectionUnit): Action {
    LinkAction(target, Put(InputFor(env, KeyFor(env, st, source), source)))
  }

  lemma LinkIs(env: Environment, st: State, source: string, destination: Destination)
    requires Link(env, st, source, destination).Some?
    ensures var l, target := Link(env, st, source, destination).value, GetDestination(env, destination);
            && l.created == st.created[source := KeyFor(env, st, source)]
            && l.next == (if CallOf(env, source).Some? && source !in st.created then st.next + 1 else st.next)
            && (target.None? ==> l.connections == st.connections)
            && (target.Some? ==> Apply(st.connections, LinkWrite(env, st, source, target.value)) == Some(l.connections))
  {
    hide Apply, GetDestination, CallOf, KeyFor, InputFor;
  }

  /** The unit a text is linked as carries the key it is remembered under. */
  lemma InputKey(env: Environment, st: State, source: string)
    requires WellRemembered(env, st.created)
    ensures var key, input := KeyFor(env, st, source), InputFor(env, KeyFor(env, st, source), source);
            && (input.Linked? ==> input.unit.reactFlowKey == key)
            && (CallOf(env, source).Some? ==> input == Linked(ConnectionUnit(Function(CallOf(env, source).value), key)))
            && (match CallOf(env, source)
                case None => key == SourceKey(source)
                case Some(data) => key.FunctionKey? && key.functionKey == data.key)
            && (source in st.created ==> st.created[source] == key)
  {
    hide Search, FindFunctionForFunctionName;
  }

  lemma LinkAddsKeys(env: Environment, st: State, source: string, destination: Destination)
    requires WellRemembered(env, st.created) && Link(env, st, source, destination).Some?
    ensures forall k :: k in Link(env, st, source, destination).value.connections ==>
              k in st.connections || Some(k) == TargetOf(env, destination) || k == KeyFor(env, st, source)
  {
    hide CallOf, KeyFor, InputFor, Apply, GetDestination, Link, Lists;
    LinkIs(env, st, source, destination);
    InputKey(env, st, source);
    var target := GetDestination(env, destination);
    if target.Some? {
      ApplyEffect(st.connections, LinkWrite(env, st, source, target.value));
    }
  }

  lemma LinkKeepsNumbered(env: Environment, st: State, source: string, destination: Destination, open: set<string>)
    requires Numbered(env, st) && GoesBelow(env, st, source, destination, open)
             && Link(env, st, source, destination).Some?
    ensures Numbered(env, Link(env, st, source, destination).value)
  {
    hide CallOf, KeyFor, InputFor, Apply, TargetOf, Link, Lists, LinkWrite;
    LinkIs(env, st, source, destination);
    InputKey(env, st, source);
    LinkAddsKeys(env, st, source, destination);
    NewKey(env, st, source);
  }

  lemma NewKey(env: Environment, st: State, source: string)
    ensures CallOf(env, source).Some? && source !in st.created ==>
              KeyFor(env, st, source) == FunctionKey(CallOf(env, source).value.key, st.next)
  {
    hide CallOf;
  }

  lemma DescentPersists(env: Environment, created: map<string, Key>, later: map<string, Key>, s: Key, k: Key)
    requires EdgeDescends(env, created, s, k) && Remembers(created, later)
    ensures EdgeDescends(env, later, s, k)
  {
    hide IsOwnChild;
    if s.FunctionKey? && k.FunctionKey? {
      var u, t :| u in created && t in created && created[u] == s && created[t] == k
                  && (|u| < |t| || (u == t && IsOwnChild(env, t)));
      assert later[u] == s && later[t] == k;
    }
  }

  /** The only link a write adds is from its source to its target. */
  lemma WriteHolds(d: ConnectionDictionary, target: ConnectionUnit, input: InputConnection, k: Key, s: Key)
    requires !input.Undefined? && Apply(d, LinkAction(target, Put(input))).Some?
    requires var e := Apply(d, LinkAction(target, Put(input))).value; k in e && Holds(e[k].inputs, s)
    requires !(k in d && Holds(d[k].inputs, s))
    ensures k == target.reactFlowKey && input.Linked? && input.unit.reactFlowKey == s
  {
    var a := LinkAction(target, Put(input));
    ApplyEffect(d, a);
    if k == target.reactFlowKey {
      EntryHoldsNothing(a.target, s);
      TargetHoldsIff(d, a, s);
    } else if k !in d {
      EntryHoldsNothing(a.write.input.unit.node, s);
    }
  }

  /** The edge a link adds descends. */
  lemma NewEdgeDescends(env: Environment, st: State, source: string, destination: Destination, open: set<string>)
    requires Numbered(env, st) && GoesBelow(env, st, source, destination, open)
             && Link(env, st, source, destination).Some?
    requires TargetOf(env, destination).Some?
    ensures EdgeDescends(env, Link(env, st, source, destination).value.created, KeyFor(env, st, source),
            TargetOf(env, destination).value)
  {
    hide CallOf, KeyFor, InputFor, Apply, GetDestination, Link, TargetOf, LinkWrite, IsOwnChild;
    LinkIs(env, st, source, destination);
    InputKey(env, st, source);
    DestinationIsNoSource(env, destination);
    var key, holder, created := KeyFor(env, st, source), TargetOf(env, destination).value,
        Link(env, st, source, destination).value.created;
    if holder.FunctionKey? {
      var t :| t in open && t in st.created && st.created[t] == holder
               && (|source| < |t| || (source == t && IsOwnChild(env, t)));
      assert created[source] == key && created[t] == holder;
    }
  }

  lemma LinkKeepsRanked(env: Environment, st: State, source: string, destination: Destination, open: set<string>)
    requires Numbered(env, st) && Ranked(env, st) && GoesBelow(env, st, source, destination, open)
    requires Link(env, st, source, destination).Some?
    ensures Ranked(env, Link(env, st, source, destination).value)
  {
    var l, target := Link(env, st, source, destination).value, GetDestination(env, destination);
    hide CallOf, KeyFor, Apply, GetDestination, Link, Holds, EdgeDescends, GoesBelow, Numbered, WellRemembered;
    LinkIs(env, st, source, destination);
    NumberedIsRemembered(env, st);
    InputKey(env, st, source);
    forall k, s | k in l.connections && Holds(l.connections[k].inputs, s) ensures EdgeDescends(env, l.created, s, k) {
      if k in st.connections && Holds(st.connections[k].inputs, s) {
        DescentPersists(env, st.created, l.created, s, k);
      } else {
        WriteHolds(st.connections, target.value, InputFor(env, KeyFor(env, st, source), source), k, s);
        NewEdgeDescends(env, st, source, destination, open);
      }
    }
  }

  lemma NumberedIsRemembered(env: Environment, st: State)
    requires Numbered(env, st)
    ensures WellRemembered(env, st.created)
  {
  }

  lemma LinkKeepsSlots(env: Environment, st: State, source: string, destination: Destination)
    requires TargetsHaveSlots(st.connections) && WellRemembered(env, st.created)
             && Link(env, st, source, destination).Some?
    ensures TargetsHaveSlots(Link(env, st, source, destination).value.connections)
  {
    hide CallOf, KeyFor, InputFor, Link, Apply;
    var target := GetDestination(env, destination);
    LinkIs(env, st, source, destination);
    InputKey(env, st, source);
    if target.Some? {
      var input := InputFor(env, KeyFor(env, st, source), source);
      if target.value.node.Schema? {
        SchemaTakesLink(st.connections, target.value, input);
      }
      ApplyEffect(st.connections, LinkWrite(env, st, source, target.value));
    }
  }

  /** A link keeps the whole invariant. */
  lemma LinkKeepsSound(env: Environment, st: State, source: string, destination: Destination, open: set<string>)
    requires Sound(env, st) && GoesBelow(env, st, source, destination, open) && Link(env, st, source, destination).Some?
    ensures Sound(env, Link(env, st, source, destination).value)
  {
    var target := GetDestination(env, destination);
    LinkKeepsNumbered(env, st, source, destination, open);
    LinkKeepsRanked(env, st, source, destination, open);
    LinkKeepsSlots(env, st, source, destination);
    hide CallOf, KeyFor, InputFor, Apply, GetDestination, Link, Mirror, Tidy, Numbered, Ranked, TargetsHaveSlots;
    LinkIs(env, st, source, destination);
    if target.Some? {
      FindSlotKeepsMirror(st.connections, LinkWrite(env, st, source, target.value));
      ApplyKeepsTidy(st.connections, LinkWrite(env, st, source, target.value));
    }
  }

  /** Entries after a write: only the target's inputs change, and only the target and the source are new. */
  ghost predicate GrowsByWrite(d: ConnectionDictionary, e: ConnectionDictionary, target: Key, input: InputConnection) {
    && (forall k :: k in d ==>
          k in e && e[k].self == d[k].self && (k != target ==> e[k].inputs == d[k].inputs))
    && (forall k :: k in e && k !in d && k != target ==>
          && input.Linked? && k == input.unit.reactFlowKey
          && e[k].self == input.unit && e[k].inputs == EntryInputs(input.unit.node))
  }

  lemma WriteGrows(d: ConnectionDictionary, target: ConnectionUnit, input: InputConnection)
    requires !input.Undefined? && Apply(d, LinkAction(target, Put(input))).Some?
    ensures GrowsByWrite(d, Apply(d, LinkAction(target, Put(input))).value, target.reactFlowKey, input)
  {
    ApplyEffect(d, LinkAction(target, Put(input)));
  }

  lemma GrownExtends(env: Environment, st: State, after: State, target: Key, source: string, input: InputConnection)
    requires GrowsByWrite(st.connections, after.connections, target, input) && Remembers(st.created, after.created)
    requires input.Linked? ==> !input.unit.reactFlowKey.TargetKey?
    requires forall s ::
             s in st.created && CallOf(env, s).Some? && input.Linked? && st.created[s] == input.unit.reactFlowKey ==>
                 s == source
    requires CallOf(env, source).Some? && input.Linked? ==> input.unit.node == Function(CallOf(env, source).value)
    ensures Extends(env, st, after, Some(target))
  {
    hide CallOf, EntryInputs;
  }

  /** What a link changes. */
  lemma LinkExtends(env: Environment, st: State, source: string, destination: Destination)
    requires Numbered(env, st) && Link(env, st, source, destination).Some?
    ensures Extends(env, st, Link(env, st, source, destination).value, TargetOf(env, destination))
  {
    var target := GetDestination(env, destination);
    NumberedIsRemembered(env, st);
    hide CallOf, KeyFor, InputFor, Apply, GetDestination, Link, EntryInputs, WellRemembered, Numbered, Extends,
      GrowsByWrite;
    LinkIs(env, st, source, destination);
    InputKey(env, st, source);
    if target.Some? {
      var input := InputFor(env, KeyFor(env, st, source), source);
      WriteGrows(st.connections, target.value, input);
      SameKeySameCall(env, st, source);
      GrownExtends(env, st, Link(env, st, source, destination).value, target.value.reactFlowKey, source, input);
    } else {
      NothingWrittenExtends(env, st, Link(env, st, source, destination).value);
    }
  }

  lemma NothingWrittenExtends(env: Environment, st: State, after: State)
    requires Remembers(st.created, after.created) && after.connections == st.connections
    ensures Extends(env, st, after, None)
  {
    hide CallOf;
  }

  /** A text whose key is the source's is the source, or is no call. */
  lemma SameKeySameCall(env: Environment, st: State, source: string)
    requires Numbered(env, st)
    ensures forall s :: s in st.created && CallOf(env, s).Some? && st.created[s] == KeyFor(env, st, source) ==>
            s == source
  {
    hide CallOf;
  }

  /** A call just made is open; all others hold what they held. */
  lemma LinkKeepsComplete(env: Environment, st: State, source: string, destination: Destination, open: set<string>)
    requires Numbered(env, st) && Complete(env, st, open) && IsAwaited(env, st, source, destination, open)
    requires Link(env, st, source, destination).Some?
    ensures var l := Link(env, st, source, destination).value;
            && Complete(env, l, open + {source})
            && (source in st.created || CallOf(env, source).None? ==> Complete(env, l, open))
  {
    var l := Link(env, st, source, destination).value;
    LinkExtends(env, st, source, destination);
    LinkIs(env, st, source, destination);
    hide CallOf, KeyFor, Link, HoldsFirst, Extends, Numbered, Children, TargetOf, GetDestination;
    forall s | s in l.created && CallOf(env, s).Some? && s !in open && (s == source ==> source in st.created)
      ensures HoldsFirst(env, l, s, |Children(s)|)
    {
      OtherCallsAreNotTarget(env, st, source, destination, open, s);
      HoldsFirstPersists(env, st, l, TargetOf(env, destination), s, |Children(s)|);
    }
  }

  lemma OtherCallsAreNotTarget(env: Environment, st: State, source: string, destination: Destination,
      open: set<string>, s: string)
    requires Numbered(env, st) && IsAwaited(env, st, source, destination, open)
    requires s in st.created && CallOf(env, s).Some? && s !in open
    ensures Some(st.created[s]) != TargetOf(env, destination)
  {
    hide CallOf, GetDestination;
  }

  /** A new call holds nothing yet. */
  lemma NewCallHoldsNothing(env: Environment, st: State, source: string, destination: Destination, open: set<string>)
    requires Sound(env, st) && IsAwaited(env, st, source, destination, open) && Link(env, st, source, destination).Some?
    requires CallOf(env, source).Some? && source !in st.created
    ensures var l := Link(env, st, source, destination).value;
            source in l.created && HoldsFirst(env, l, source, 0)
            && l.created[source].FunctionKey? && l.created[source] !in st.connections
            && Some(l.created[source]) != TargetOf(env, destination)
            && forall s :: s in st.created ==> st.created[s] != l.created[source]
  {
    var target := GetDestination(env, destination);
    hide CallOf, KeyFor, Apply, GetDestination, Link, EntryInputs, Children, InputFor, Ranked, Mirror, Tidy,
      TargetsHaveSlots;
    LinkIs(env, st, source, destination);
    InputKey(env, st, source);
    NewKey(env, st, source);
    if target.Some? {
      WriteGrows(st.connections, target.value, InputFor(env, KeyFor(env, st, source), source));
    }
  }

  // ----- creating a text with everything below it

  ghost predicate KeepsEntry(st: State, after: State, key: Key) {
    && key in st.connections && key in after.connections
    && after.connections[key].self == st.connections[key].self
    && after.connections[key].inputs == st.connections[key].inputs
  }

  /** The state after a text was created: nothing outside its target changed, and the target holds what
      the text's own link left. */
  ghost predicate Grown(env: Environment, st: State, source: string, destination: Destination, open: set<string>,
      after: State) {
    && Sound(env, after) && Complete(env, after, open) && Extends(env, st, after, TargetOf(env, destination))
    && Link(env, st, source, destination).Some?
    && var l := Link(env, st, source, destination).value;
       && source in after.created && source in l.created && after.created[source] == l.created[source]
       && (TargetOf(env, destination).Some? ==> KeepsEntry(l, after, TargetOf(env, destination).value))
  }

  lemma LinkedTargetHasEntry(env: Environment, st: State, source: string, destination: Destination)
    requires Link(env, st, source, destination).Some? && TargetOf(env, destination).Some?
    ensures TargetOf(env, destination).value in Link(env, st, source, destination).value.connections
  {
    hide CallOf, KeyFor, InputFor, Link, Apply;
    LinkIs(env, st, source, destination);
    ApplyEffect(st.connections, LinkWrite(env, st, source, GetDestination(env, destination).value));
  }

  lemma LinkGrows(env: Environment, st: State, source: string, destination: Destination, open: set<string>)
    requires Sound(env, st) && Complete(env, st, open) && IsAwaited(env, st, source, destination, open)
    requires Link(env, st, source, destination).Some?
    ensures Grown(env, st, source, destination, open + {source}, Link(env, st, source, destination).value)
    ensures source in st.created || CallOf(env, source).None? ==>
              Grown(env, st, source, destination, open, Link(env, st, source, destination).value)
  {
    LinkKeepsSound(env, st, source, destination, open);
    SoundIsNumbered(env, st);
    LinkExtends(env, st, source, destination);
    LinkKeepsComplete(env, st, source, destination, open);
    LinkIs(env, st, source, destination);
    if TargetOf(env, destination).Some? {
      LinkedTargetHasEntry(env, st, source, destination);
    }
    hide *;
    GrownBecause(env, st, source, destination, open + {source}, Link(env, st, source, destination).value);
    if source in st.created || CallOf(env, source).None? {
      GrownBecause(env, st, source, destination, open, Link(env, st, source, destination).value);
    }
  }

  lemma SoundIsNumbered(env: Environment, st: State)
    requires Sound(env, st)
    ensures Numbered(env, st) && WellRemembered(env, st.created)
  {
  }

  lemma GrownBecause(env: Environment, st: State, source: string, destination: Destination, open: set<string>,
      after: State)
    requires Sound(env, after) && Complete(env, after, open) && Extends(env, st, after, TargetOf(env, destination))
    requires Link(env, st, source, destination).Some? && source in Link(env, st, source, destination).value.created
    requires var l := Link(env, st, source, destination).value;
             && source in after.created && after.created[source] == l.created[source]
             && (TargetOf(env, destination).Some? ==> KeepsEntry(l, after, TargetOf(env, destination).value))
    ensures Grown(env, st, source, destination, open, after)
  {
    hide Sound, Complete, Extends, TargetOf, Link;
  }

  /** Where the children of a remembered text go. */
  lemma ChildrenGoTo(env: Environment, st: State, source: string)
    requires WellRemembered(env, st.created) && source in st.created && '(' in source && Contained(env, source)
    ensures CallOf(env, source).None? ==> GetDestination(env, ToNode(st.created[source])) == None
    ensures CallOf(env, source).Some? && Receiver(env, source).None? ==>
            GetDestination(env, ToNode(st.created[source])) == None
    ensures Receiver(env, source).Some? ==>
              && Receiver(env, source) == CallOf(env, source)
              && GetDestination(env, ToNode(st.created[source]))
                 == Some(ConnectionUnit(Function(CallOf(env, source).value), st.created[source]))
  {
    hide CallOf, FindTarget, Children;
  }

  lemma ContainedText(env: Environment, source: string)
    requires '(' in source && Contained(env, source)
    ensures forall child :: child in Children(source) ==>
              if child == source then Receiver(env, source).None? else |child| < |source| && Contained(env, child)
  {
    ChildrenAreNotLonger(source);
    forall child | child in Children(source)
      ensures if child == source then Receiver(env, source).None? else |child| < |source| && Contained(env, child)
    {
      var i :| 0 <= i < |Children(source)| && Children(source)[i] == child;
    }
  }

  lemma SettledText(env: Environment, source: string)
    requires '(' in source && Settles(env, source)
    ensures !IsReserved(source)
    ensures Children(source) != [] && Receiver(env, source).Some? ==> CanTake(Receiver(env, source).value)
    ensures forall child :: child in Children(source) ==>
              if child == source then CallOf(env, source).Some? else Settles(env, child)
  {
    ChildrenAreNotLonger(source);
    forall child | child in Children(source)
      ensures if child == source then CallOf(env, source).Some? else Settles(env, child)
    {
      var i :| 0 <= i < |Children(source)| && Children(source)[i] == child;
    }
  }

  /** The next child of a call can be linked, and takes the next place. */
  lemma NextChildLinks(env: Environment, st: State, source: string, i: nat)
    requires WellRemembered(env, st.created) && source in st.created && '(' in source && Contained(env, source)
    requires Settles(env, source) && i < |Children(source)|
    requires CallOf(env, source).Some? ==> HoldsFirst(env, st, source, i)
    ensures var r := Link(env, st, Children(source)[i], ToNode(st.created[source]));
            && r.Some?
            && (Receiver(env, source).Some? ==>
                  var data, key, child := CallOf(env, source).value, st.created[source], Children(source)[i];
                  && key in r.value.connections && r.value.connections[key].self == ConnectionUnit(Function(data), key)
                  && AfterFind(SlotsOf(st.connections, key, data), data, InputFor(env, KeyFor(env, st, child), child))
                     == Some(r.value.connections[key].inputs))
  {
    SettledText(env, source);
    ChildrenGoTo(env, st, source);
    var child := Children(source)[i];
    hide Contained, Settles, CallOf, GetDestination, Children, InputFor, KeyFor, Apply, AfterFind, CanTake, HasShape,
      WellRemembered;
    if Receiver(env, source).Some? {
      var data, key, input := CallOf(env, source).value, st.created[source],
          InputFor(env, KeyFor(env, st, child), child);
      ReceivedIsDefined(env, st.created, source, i);
      FillSucceedsIff(data, Received(env, st.created, source, i));
      FindKeepsShape(SlotsOf(st.connections, key, data), data, input);
      FindWriteStores(st.connections, data, key, input);
      WriteLabels(st.connections, data, key, input);
    }
  }

  lemma ReceivedIsDefined(env: Environment, created: map<string, Key>, source: string, n: nat)
    requires n <= |Children(source)|
    ensures forall i :: 0 <= i < |Received(env, created, source, n)| ==>
            !Received(env, created, source, n)[i].Undefined?
  {
    hide Children, Receiver;
  }

  lemma WriteLabels(d: ConnectionDictionary, data: FunctionData, key: Key, input: InputConnection)
    requires !input.Undefined? && Apply(d, FindWrite(data, key, input)).Some?
    requires key in d ==> d[key].self == ConnectionUnit(Function(data), key)
    ensures var e := Apply(d, FindWrite(data, key, input)).value;
            key in e && e[key].self == ConnectionUnit(Function(data), key)
  {
    ApplyEffect(d, FindWrite(data, key, input));
  }

  /** A text whose children are being created. */
  ghost predicate IsOpenText(env: Environment, st: State, source: string, open: set<string>, i: nat) {
    && '(' in source && Contained(env, source) && Settles(env, source)
    && source in open && source in st.created && (forall o :: o in open ==> |o| >= |source|)
    && i <= |Children(source)| && (CallOf(env, source).Some? ==> HoldsFirst(env, st, source, i))
  }

  lemma ChildIsAwaited(env: Environment, st: State, source: string, open: set<string>, i: nat)
    requires IsOpenText(env, st, source, open, i) && i < |Children(source)| && WellRemembered(env, st.created)
    requires Children(source)[i] != source
    ensures IsAwaited(env, st, Children(source)[i], ToNode(st.created[source]), open)
    ensures Settles(env, Children(source)[i]) && Contained(env, Children(source)[i])
    ensures |Children(source)[i]| < |source|
  {
    SettledText(env, source);
    ContainedText(env, source);
    ChildrenGoTo(env, st, source);
    hide Contained, Settles, Children, CallOf, HoldsFirst, GetDestination, IsOwnChild;
    assert Children(source)[i] in Children(source);
  }

  /** After a child was created, its parent holds one more. */
  lemma ParentHoldsNext(env: Environment, st: State, source: string, open: set<string>, i: nat, after: State)
    requires Sound(env, st) && IsOpenText(env, st, source, open, i) && i < |Children(source)|
    requires Grown(env, st, Children(source)[i], ToNode(st.created[source]), open, after)
    ensures IsOpenText(env, after, source, open, i + 1) && after.created[source] == st.created[source]
  {
    SoundIsNumbered(env, st);
    if CallOf(env, source).Some? && Receiver(env, source).Some? {
      ReceivingParentHoldsNext(env, st, source, open, i, after);
    } else if CallOf(env, source).Some? {
      SilentParentHoldsNext(env, st, source, open, i, after);
    }
    hide Contained, Settles, Children, CallOf, Sound, Complete, Link, HoldsFirst, Receiver, TargetOf;
  }

  /** A function whose key is cut short receives nothing. */
  lemma SilentParentHoldsNext(env: Environment, st: State, source: string, open: set<string>, i: nat, after: State)
    requires WellRemembered(env, st.created) && IsOpenText(env, st, source, open, i) && i < |Children(source)|
    requires CallOf(env, source).Some? && Receiver(env, source).None?
    requires Grown(env, st, Children(source)[i], ToNode(st.created[source]), open, after)
    ensures source in after.created && HoldsFirst(env, after, source, i + 1)
  {
    hide Contained, Settles, Children, CallOf, Sound, Complete, Link, Fill, Receiver;
    ChildrenGoTo(env, st, source);
    HoldsFirstPersists(env, st, after, None, source, i);
  }

  lemma ReceivingParentHoldsNext(env: Environment, st: State, source: string, open: set<string>, i: nat, after: State)
    requires WellRemembered(env, st.created) && IsOpenText(env, st, source, open, i) && i < |Children(source)|
    requires Receiver(env, source).Some? && CallOf(env, source).Some?
    requires Grown(env, st, Children(source)[i], ToNode(st.created[source]), open, after)
    ensures source in after.created && HoldsFirst(env, after, source, i + 1)
  {
    NextChildLinks(env, st, source, i);
    ChildrenGoTo(env, st, source);
    LinkIs(env, st, Children(source)[i], ToNode(st.created[source]));
    hide Contained, Settles, Children, CallOf, Sound, Complete, Link, Fill, InputFor, KeyFor, AfterFind,
      GetDestination, Receiver;
    ParentTakes(env, st, after, source, i);
  }

  lemma ParentTakes(env: Environment, st: State, after: State, source: string, i: nat)
    requires CallOf(env, source).Some? && Receiver(env, source).Some? && source in st.created && i < |Children(source)|
    requires HoldsFirst(env, st, source, i) && Remembers(st.created, after.created)
    requires Children(source)[i] in after.created
    requires var data, key, child := CallOf(env, source).value, st.created[source], Children(source)[i];
             && key in after.connections && after.connections[key].self == ConnectionUnit(Function(data), key)
             && AfterFind(SlotsOf(st.connections, key, data), data, InputFor(env, after.created[child], child))
                == Some(after.connections[key].inputs)
    ensures HoldsFirst(env, after, source, i + 1)
  {
    hide Children, CallOf, Fill, InputFor, AfterFind, Receiver, Received;
    var data, child := CallOf(env, source).value, Children(source)[i];
    ReceivedStable(env, st.created, after.created, source, i);
    ReceivedNext(env, after.created, source, i);
    FillNext(data, Received(env, after.created, source, i), InputFor(env, KeyIn(after.created, child), child));
  }

  lemma ReceivedNext(env: Environment, created: map<string, Key>, source: string, i: nat)
    requires i < |Children(source)| && Receiver(env, source).Some?
    ensures Received(env, created, source, i + 1) ==
            Received(env, created, source, i)
            + [InputFor(env, KeyIn(created, Children(source)[i]), Children(source)[i])]
  {
    hide Children, Receiver, InputFor;
  }

  lemma FillNext(data: FunctionData, values: seq<InputConnection>, input: InputConnection)
    ensures Fill(data, values + [input]) ==
            match Fill(data, values) case None => None case Some(inputs) => AfterFind(inputs, data, input)
  {
    hide AfterFind;
    assert (values + [input])[..|values|] == values;
  }

  /** A text that settles and is contained is created with everything below it, and disturbs nothing. */
  lemma {:induction false} CreateText(env: Environment, st: State, source: string, destination: Destination,
      open: set<string>)
    requires Sound(env, st) && Complete(env, st, open) && IsAwaited(env, st, source, destination, open)
    requires Settles(env, source) && Contained(env, source) && Link(env, st, source, destination).Some?
    ensures Create(env, st, source, destination).Some?
    ensures Grown(env, st, source, destination, open, Create(env, st, source, destination).value)
    decreases |source|, 1
  {
    var l := Link(env, st, source, destination).value;
    hide Sound, Complete, Contained, Settles, Children, CallOf, Link, Grown, Create, CreateAll, IsReserved, IsAwaited,
      TargetOf;
    SettlesUnfolds(env, source);
    CallHasParenthesis(env, source);
    LinkGrows(env, st, source, destination, open);
    CreateIs(env, st, source, destination);
    if '(' in source && !IsKnownCall(env, st, source) {
      CreateBelow(env, st, source, destination, open, l);
    }
  }

  lemma CreateIs(env: Environment, st: State, source: string, destination: Destination)
    requires !IsReserved(source) && Link(env, st, source, destination).Some?
    ensures var l := Link(env, st, source, destination).value;
            if '(' in source && !IsKnownCall(env, st, source) then
              && (forall child :: child in Children(source) ==> |child| < |source| || child == source)
              && source in l.created
              && Create(env, st, source, destination)
                    == CreateAll(env, l, Children(source), ToNode(l.created[source]), source)
            else Create(env, st, source, destination) == Some(l)
  {
    LinkIs(env, st, source, destination);
    if '(' in source { ChildrenAreNotLonger(source); }
    hide Children, CallOf, Link, CreateAll, IsReserved;
  }

  lemma CallHasParenthesis(env: Environment, source: string)
    ensures CallOf(env, source).Some? ==> '(' in source
  {
  }

  lemma {:induction false} CreateBelow(env: Environment, st: State, source: string, destination: Destination,
      open: set<string>, l: State)
    requires Sound(env, st) && IsAwaited(env, st, source, destination, open)
    requires Settles(env, source) && Contained(env, source) && Link(env, st, source, destination) == Some(l)
    requires '(' in source && !IsKnownCall(env, st, source)
    requires Grown(env, st, source, destination, open + {source}, l)
    ensures forall child :: child in Children(source) ==> |child| < |source| || child == source
    ensures source in l.created
    ensures var r := CreateAll(env, l, Children(source), ToNode(l.created[source]), source);
            r.Some? && Grown(env, st, source, destination, open, r.value)
    decreases |source|, 0, |Children(source)| + 1
  {
    OpenedText(env, st, source, destination, open, l);
    hide Contained, Settles, Children, CallOf, Link, Grown, CreateAll, HoldsFirst, Sound, Complete, Extends,
      IsAwaited, TargetOf;
    assert Children(source)[0..] == Children(source);
    CreateChildren(env, l, source, open + {source}, 0);
    var after := CreateAll(env, l, Children(source), ToNode(l.created[source]), source).value;
    FinishText(env, after, source, open);
    GrownThrough(env, st, source, destination, open, l, after);
  }

  /** Right after its link, a new text is open and holds nothing; what it is linked to was not there before. */
  lemma OpenedText(env: Environment, st: State, source: string, destination: Destination, open: set<string>, l: State)
    requires Sound(env, st) && IsAwaited(env, st, source, destination, open)
    requires Settles(env, source) && Contained(env, source) && Link(env, st, source, destination) == Some(l)
    requires '(' in source && !IsKnownCall(env, st, source)
    requires Grown(env, st, source, destination, open + {source}, l)
    ensures forall child :: child in Children(source) ==> |child| < |source| || child == source
    ensures Sound(env, l) && Complete(env, l, open + {source}) && IsOpenText(env, l, source, open + {source}, 0)
    ensures source in l.created
    ensures var made := TargetOf(env, ToNode(l.created[source]));
            made.Some? ==>
              && made.value.FunctionKey? && made.value !in st.connections && made != TargetOf(env, destination)
              && forall s :: s in st.created ==> st.created[s] != made.value
  {
    hide Contained, Settles, Children, CallOf, Link, Grown, HoldsFirst, Sound, Complete, GetDestination;
    ContainedText(env, source);
    SoundIsNumbered(env, st);
    if CallOf(env, source).Some? {
      NewCallHoldsNothing(env, st, source, destination, open);
    }
    IsGrown(env, st, source, destination, open + {source}, l);
    SoundIsNumbered(env, l);
    ChildrenGoTo(env, l, source);
  }

  lemma IsGrown(env: Environment, st: State, source: string, destination: Destination, open: set<string>, after: State)
    requires Grown(env, st, source, destination, open, after)
    ensures Sound(env, after) && Complete(env, after, open) && source in after.created
  {
    hide Sound, Complete, Extends, Link;
  }

  /** Once all children are in place the text need not be open any longer. */
  lemma FinishText(env: Environment, after: State, source: string, open: set<string>)
    requires Complete(env, after, open + {source}) && source in after.created
    requires CallOf(env, source).Some? ==> HoldsFirst(env, after, source, |Children(source)|)
    ensures Complete(env, after, open)
  {
    hide CallOf, Children, HoldsFirst;
  }

  lemma GrownThrough(env: Environment, st: State, source: string, destination: Destination, open: set<string>,
      l: State, after: State)
    requires Grown(env, st, source, destination, open + {source}, l) && Link(env, st, source, destination) == Some(l)
    requires Sound(env, after) && Complete(env, after, open)
    requires source in l.created && Extends(env, l, after, TargetOf(env, ToNode(l.created[source])))
    requires var made := TargetOf(env, ToNode(l.created[source]));
             made.Some? ==>
               && made.value.FunctionKey? && made.value !in st.connections && made != TargetOf(env, destination)
               && forall s :: s in st.created ==> st.created[s] != made.value
    ensures Grown(env, st, source, destination, open, after)
  {
    ExtendsThrough(env, st, l, after, TargetOf(env, destination), TargetOf(env, ToNode(l.created[source])));
    hide Sound, Complete, Link, CallOf, TargetOf, EntryInputs;
  }

  /** After more children of the text have been created, all before the i-th. */
  ghost predicate CreatedTo(
    env: Environment, st: State, source: string, open: set<string>, i: nat, after: Option<State>)
  {
    && after.Some? && Sound(env, after.value) && Complete(env, after.value, open)
    && IsOpenText(env, after.value, source, open, i)
    && source in st.created && source in after.value.created && after.value.created[source] == st.created[source]
    && Extends(env, st, after.value, TargetOf(env, ToNode(st.created[source])))
  }

  lemma CreatedFurther(env: Environment, st: State, source: string, open: set<string>, i: nat, mid: State, j: nat,
      after: Option<State>)
    requires CreatedTo(env, st, source, open, i, Some(mid)) && CreatedTo(env, mid, source, open, j, after)
    ensures CreatedTo(env, st, source, open, j, after)
  {
    hide Sound, Complete, Extends, IsOpenText, TargetOf;
    ExtendsTwice(env, st, mid, after.value, TargetOf(env, ToNode(st.created[source])));
  }

  lemma NothingMoreCreated(env: Environment, st: State, source: string, open: set<string>, i: nat)
    requires Sound(env, st) && Complete(env, st, open) && IsOpenText(env, st, source, open, i)
    ensures CreatedTo(env, st, source, open, i, Some(st))
  {
    OpenTextIsCreated(env, st, source, open, i);
    hide Sound, Complete, Extends, IsOpenText, TargetOf;
    NothingExtends(env, st, TargetOf(env, ToNode(st.created[source])));
  }

  /** Creating the children from the i-th on. */
  ghost function CreateRest(env: Environment, st: State, source: string, destination: Destination, i: nat)
    : Option<State>
    requires i <= |Children(source)| && HasNoLongerChild(source)
  {
    CreateAll(env, st, Children(source)[i..], destination, source)
  }

  ghost predicate HasNoLongerChild(source: string) {
    forall child :: child in Children(source) ==> |child| < |source| || child == source
  }

  lemma {:induction false} CreateChildren(env: Environment, st: State, source: string, open: set<string>, i: nat)
    requires Sound(env, st) && Complete(env, st, open) && IsOpenText(env, st, source, open, i)
    ensures source in st.created && i <= |Children(source)| && HasNoLongerChild(source)
    ensures CreatedTo(env, st, source, open, |Children(source)|,
                      CreateRest(env, st, source, ToNode(st.created[source]), i))
    decreases |source|, 0, |Children(source)| - i
  {
    hide *;
    OpenTextIsCreated(env, st, source, open, i);
    var destination := ToNode(st.created[source]);
    if i < |Children(source)| {
      var after := CreateNextChild(env, st, source, open, i);
      CreateChildren(env, after, source, open, i + 1);
      FirstAndRestCreated(env, st, source, open, i, after);
    } else {
      NoneCreated(env, st, source, destination);
      NothingMoreCreated(env, st, source, open, i);
    }
  }

  /** Creating one child and then the rest. */
  lemma FirstAndRestCreated(env: Environment, st: State, source: string, open: set<string>, i: nat, mid: State)
    requires i < |Children(source)| && HasNoLongerChild(source) && source in st.created && source in mid.created
    requires |Children(source)[i]| < |source| || Children(source)[i] == source
    requires CreateChild(env, st, Children(source)[i], ToNode(st.created[source]), source) == Some(mid)
    requires mid.created[source] == st.created[source] && CreatedTo(env, st, source, open, i + 1, Some(mid))
    requires CreatedTo(env, mid, source, open, |Children(source)|,
                       CreateRest(env, mid, source, ToNode(mid.created[source]), i + 1))
    ensures CreatedTo(env, st, source, open, |Children(source)|,
                      CreateRest(env, st, source, ToNode(st.created[source]), i))
  {
    hide *;
    NextCreated(env, st, source, ToNode(st.created[source]), i);
    CreatedFurther(env, st, source, open, i + 1, mid, |Children(source)|,
                   CreateRest(env, mid, source, ToNode(mid.created[source]), i + 1));
  }

  lemma NextCreated(env: Environment, st: State, source: string, destination: Destination, i: nat)
    requires i < |Children(source)| && HasNoLongerChild(source)
    ensures |Children(source)[i]| < |source| || Children(source)[i] == source
    ensures CreateRest(env, st, source, destination, i) ==
            match CreateChild(env, st, Children(source)[i], destination, source)
            case None => None
            case Some(after) => CreateRest(env, after, source, destination, i + 1)
  {
    hide CreateChild, Children;
    var children := Children(source);
    assert children[i] in children && children[i..][0] == children[i] && children[i..][1..] == children[i + 1..];
  }

  lemma NoneCreated(env: Environment, st: State, source: string, destination: Destination)
    requires HasNoLongerChild(source)
    ensures CreateRest(env, st, source, destination, |Children(source)|) == Some(st)
  {
  }

  lemma OpenTextIsCreated(env: Environment, st: State, source: string, open: set<string>, i: nat)
    requires IsOpenText(env, st, source, open, i)
    ensures source in st.created && i <= |Children(source)|
    ensures HasNoLongerChild(source)
  {
    ChildrenAreNotLonger(source);
  }

  lemma NothingExtends(env: Environment, st: State, except: Option<Key>)
    ensures Extends(env, st, st, except)
  {
    hide CallOf;
  }

  lemma {:induction false} CreateNextChild(env: Environment, st: State, source: string, open: set<string>, i: nat)
    returns (after: State)
    requires Sound(env, st) && Complete(env, st, open) && IsOpenText(env, st, source, open, i) && i < |Children(source)|
    ensures |Children(source)[i]| < |source| || Children(source)[i] == source
    ensures CreateChild(env, st, Children(source)[i], ToNode(st.created[source]), source) == Some(after)
    ensures CreatedTo(env, st, source, open, i + 1, Some(after))
    ensures Sound(env, after) && Complete(env, after, open) && IsOpenText(env, after, source, open, i + 1)
    ensures source in st.created && source in after.created && after.created[source] == st.created[source]
    decreases |source|, 0, 0
  {
    SoundIsNumbered(env, st);
    OpenTextIsCreated(env, st, source, open, i);
    var child, destination := Children(source)[i], ToNode(st.created[source]);
    assert child in Children(source);
    if child == source {
      hide *;
      OwnTextChangesNothing(env, st, source, open, i);
      NothingMoreCreated(env, st, source, open, i + 1);
      after := st;
    } else {
      ChildIsAwaited(env, st, source, open, i);
      NextChildLinks(env, st, source, i);
      hide Sound, Complete, Children, Extends, IsOpenText, TargetOf, Create, Link, Grown, Settles, Contained;
      CreateText(env, st, child, destination, open);
      after := Create(env, st, child, destination).value;
      ParentHoldsNext(env, st, source, open, i, after);
      GrownExtendsTarget(env, st, child, destination, open, after);
    }
  }

  /** A call that is its own child, but whose node takes nothing, is left as it is. */
  lemma OwnTextChangesNothing(env: Environment, st: State, source: string, open: set<string>, i: nat)
    requires WellRemembered(env, st.created) && IsOpenText(env, st, source, open, i)
    requires i < |Children(source)| && Children(source)[i] == source
    ensures CreateChild(env, st, source, ToNode(st.created[source]), source) == Some(st)
    ensures IsOpenText(env, st, source, open, i + 1)
  {
    hide Contained, Settles, Children, CallOf, Receiver, GetDestination, InputFor, Fill, WellRemembered, Link;
    ContainedText(env, source);
    SettledText(env, source);
    ChildrenGoTo(env, st, source);
    assert source in Children(source);
    OwnLinkChangesNothing(env, st, source);
    assert Received(env, st.created, source, i + 1) == Received(env, st.created, source, i) == [];
  }

  lemma OwnLinkChangesNothing(env: Environment, st: State, source: string)
    requires WellRemembered(env, st.created) && source in st.created && CallOf(env, source).Some?
    requires GetDestination(env, ToNode(st.created[source])).None?
    ensures Link(env, st, source, ToNode(st.created[source])) == Some(st)
  {
    hide CallOf, GetDestination, InputFor;
    InputKey(env, st, source);
    assert st.created[source := st.created[source]] == st.created;
  }

  lemma GrownExtendsTarget(env: Environment, st: State, source: string, destination: Destination, open: set<string>,
      after: State)
    requires Grown(env, st, source, destination, open, after)
    ensures Sound(env, after) && Complete(env, after, open) && Extends(env, st, after, TargetOf(env, destination))
  {
    hide Sound, Complete, Extends, Link;
  }
}
