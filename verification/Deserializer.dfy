/** Turning the text of a map definition's values back into connections (_createConnections in
    MapDefinitionDeserializer.ts), outside loops, conditionals and direct accesses. */
module Deserializer {
  import opened Model
  import opened Strings
  import opened Splitter
  import opened FunctionUtils
  import opened Connections
  import opened Schemas

  datatype Environment = Environment(functions: seq<FunctionData>, sourceRoot: SchemaNode, targetRoot: SchemaNode)

  /** Where a value goes: a path of the target schema, or a node made earlier. */
  datatype Destination = ToPath(path: string) | ToNode(key: Key)

  /** created is the memo from the text of a value to the node made for it; next is the number of
      the next generated guid. */
  datatype State = State(created: map<string, Key>, connections: ConnectionDictionary, next: nat)

  const START_STATE := State(map[], map[], 0)

  predicate IsHex(c: char) {
    '0' <= c <= '9' || 'a' <= c <= 'f' || 'A' <= c <= 'F'
  }

  predicate HasGuidCharacters(s: string) {
    |s| == 36 && forall i :: 0 <= i < 36 ==> if i in {8, 13, 18, 23} then s[i] == '-' else IsHex(s[i])
  }

  predicate IsAGuid(s: string) {
    var left := if "{" <= s then s[1..] else s;
    var core := if |left| == 37 && left[36] == '}' then left[..36] else left;
    HasGuidCharacters(core)
  }

  /** Texts that the source gives a special meaning: index variables, pseudo functions, loops and
      direct accesses. They are not part of this model. */
  predicate IsReserved(source: string) {
    || "$" <= source || INDEX_KEY <= source || DIRECT_ACCESS_KEY <= source || Contains(source, "$for")
    || ('[' in source && ']' in source)
    || (IF_KEY <= source && |source| > 2 && (source[2] == '(' || IsAGuid(source[3..])))
  }

  predicate IsAllHex(s: string) {
    forall i :: 0 <= i < |s| ==> '0' <= s[i] <= '9' || 'a' <= s[i] <= 'f' || 'A' <= s[i] <= 'F'
  }

  predicate HasGuidShape(s: string) {
    |s| == 36 && IsAllHex(s[..8]) && IsAllHex(s[9..13]) && IsAllHex(s[14..18]) && IsAllHex(s[19..23])
        && IsAllHex(s[24..])
    && s[8] == '-' && s[13] == '-' && s[18] == '-' && s[23] == '-'
  }

  lemma ShapeByCharacter(s: string)
    ensures HasGuidShape(s) <==> HasGuidCharacters(s)
  {
    if |s| == 36 {
      ShapeByPosition(s);
    }
  }

  lemma ShapeByPosition(s: string)
    requires |s| == 36
    ensures HasGuidShape(s) <==> HasGuidCharacters(s)
  {
    var a, b, c, e, f := s[..8], s[9..13], s[14..18], s[19..23], s[24..];
    assert forall i :: 0 <= i < 8 ==> a[i] == s[i];
    assert forall i :: 0 <= i < 4 ==> b[i] == s[9 + i] && c[i] == s[14 + i] && e[i] == s[19 + i];
    assert forall i :: 0 <= i < 12 ==> f[i] == s[24 + i];
    if HasGuidShape(s) {
      forall i | 0 <= i < 36 ensures if i in {8, 13, 18, 23} then s[i] == '-' else IsHex(s[i]) {
        assert i < 8 ==> a[i] == s[i];
        assert 9 <= i < 13 ==> b[i - 9] == s[i];
        assert 14 <= i < 18 ==> c[i - 14] == s[i];
        assert 19 <= i < 23 ==> e[i - 19] == s[i];
        assert 24 <= i ==> f[i - 24] == s[i];
      }
    }
  }

  /** A guid is five groups of hexadecimal digits with dashes in between, with or without braces. */
  lemma GroupsAreGuid(s: string)
    requires |s| == 36
    ensures IsAGuid(s) <==> HasGuidShape(s)
    ensures IsAGuid("{" + s + "}") <==> HasGuidShape(s)
  {
    ShapeByCharacter(s);
    hide HasGuidShape;
    if s[0] == '{' {
      assert !IsHex(s[0]) && !HasGuidCharacters(s);
      assert |s[1..]| == 35;
    }
    hide HasGuidCharacters;
    var t := "{" + s + "}";
    assert "{" <= t && t[1..] == s + "}" && t[1..][36] == '}' && t[1..][..36] == s;
    if s[0] == '{' {
      assert !IsAGuid(s) by { ShortIsNoGuid(s[1..]); }
    }
  }

  lemma ShortIsNoGuid(s: string)
    requires |s| != 36
    ensures !HasGuidCharacters(s)
  {
  }

  /** Which texts are reserved, and a wide class that is not. */
  lemma ReservedTexts(s: string)
    ensures "$" <= s || "index" <= s || "directAccess" <= s || "if(" <= s ==> IsReserved(s)
    ensures ('[' in s && ']' in s) || Contains(s, "$for") ==> IsReserved(s)
    ensures |s| > 2 && "if" <= s && IsAGuid(s[3..]) ==> IsReserved(s)
    ensures '$' !in s && ('[' !in s || ']' !in s) && !("index" <= s) && !("directAccess" <= s) && !("if" <= s) ==>
              !IsReserved(s)
  {
    assert forall i :: 0 <= i <= |s| && "$for" <= s[i..] ==> s[i] == s[i..][0] == '$';
    assert "$" <= s ==> s[0] == '$';
  }

  /** The function that a text with a '(' calls. */
  function CallOf(env: Environment, source: string): Option<FunctionData> {
    var end := IndexOf(source, '(');
    if end > -1 then FindFunctionForFunctionName(source[..end], env.functions) else None
  }

  function GetSourceNode(env: Environment, source: string): Option<Node> {
    if IndexOf(source, '(') > -1 then
      match CallOf(env, source)
      case None => None
      case Some(data) => Some(Function(data))
    else
      match Search(source, env.sourceRoot)
      case None => None
      case Some(node) => Some(Schema(node))
  }

  function FindTarget(env: Environment, path: string): Option<ConnectionUnit> {
    match Search(path, env.targetRoot)
    case None => None
    case Some(node) => Some(ConnectionUnit(Schema(node), TargetKey(node.key)))
  }

  /** A source or target key is looked up as the text it is written as. The text of a function's key is
      cut at its first dash, and only a guid may follow: a function key with a dash is not found. */
  function GetDestination(env: Environment, destination: Destination): Option<ConnectionUnit> {
    match destination
    case ToPath(path) => FindTarget(env, path)
    case ToNode(SourceKey(path)) => FindTarget(env, "source-" + path)
    case ToNode(TargetKey(path)) => FindTarget(env, "target-" + path)
    case ToNode(FunctionKey(functionKey, guid)) =>
      if '-' in functionKey then None
      else
        match FindFunctionForKey(functionKey, env.functions)
        case None => None
        case Some(data) => Some(ConnectionUnit(Function(data), destination.key))
  }

  /** The key a text is remembered under. */
  function KeyFor(env: Environment, st: State, source: string): Key {
    match CallOf(env, source)
    case None => SourceKey(source)
    case Some(data) => if source in st.created then st.created[source] else FunctionKey(data.key, st.next)
  }

  /** What a text is linked as: the node found for it, or the text itself. */
  function InputFor(env: Environment, key: Key, source: string): (input: InputConnection)
    ensures !input.Undefined?
  {
    match GetSourceNode(env, source)
    case None => Custom(source)
    case Some(node) => Linked(ConnectionUnit(node, key))
  }

  predicate IsKnownCall(env: Environment, st: State, source: string) {
    CallOf(env, source).Some? && source in st.created
  }

  /** The node for the source text is looked up or made, remembered, and linked to the destination. */
  function Link(env: Environment, st: State, source: string, destination: Destination): Option<State> {
    var key := KeyFor(env, st, source);
    var created := st.created[source := key];
    var next := if CallOf(env, source).Some? && source !in st.created then st.next + 1 else st.next;
    match GetDestination(env, destination)
    case None => Some(State(created, st.connections, next))
    case Some(target) =>
      match Apply(st.connections, LinkAction(target, Put(InputFor(env, key, source))))
      case None => None
      case Some(connections) => Some(State(created, connections, next))
  }

  /** None where the source throws, recurses for ever, or meets a reserved text. */
  function Create(env: Environment, st: State, source: string, destination: Destination): Option<State>
    decreases |source|, 1
  {
    if IsReserved(source) then None
    else
      var linked := Link(env, st, source, destination);
      if linked.None? || IndexOf(source, '(') == -1 || IsKnownCall(env, st, source) then linked
      else
        ChildrenAreNotLonger(source);
        CreateAll(env, linked.value, Children(source), ToNode(linked.value.created[source]), source)
  }

  function CreateAll(env: Environment, st: State, sources: seq<string>, destination: Destination,
      parent: string): Option<State>
    requires forall s :: s in sources ==> |s| < |parent| || s == parent
    decreases |parent|, 0, |sources|
  {
    if sources == [] then Some(st)
    else
      assert sources[0] in sources;
      match CreateChild(env, st, sources[0], destination, parent)
      case None => None
      case Some(after) => CreateAll(env, after, sources[1..], destination, parent)
  }

  /** A child that is the parent's own text again ends there if the parent is a call, which is remembered
      by now, and is linked to itself; otherwise the recursion has no end. */
  function CreateChild(env: Environment, st: State, child: string, destination: Destination,
      parent: string): Option<State>
    requires |child| < |parent| || child == parent
    decreases |parent|, 0, 0
  {
    if child != parent then Create(env, st, child, destination)
    else if IsKnownCall(env, st, parent) then Link(env, st, parent, destination)
    else None
  }

  /** One value of a map definition: the path of a target schema node and the value's text. */
  datatype Mapping = Mapping(path: string, text: string)

  /** The deserializer run over the values one after another. */
  function DeserializeAll(env: Environment, st: State, mappings: seq<Mapping>): Option<State>
    decreases |mappings|
  {
    if mappings == [] then Some(st)
    else
      match Create(env, st, mappings[0].text, ToPath(mappings[0].path))
      case None => None
      case Some(after) => DeserializeAll(env, after, mappings[1..])
  }

  class MapDefinitionDeserializer {
    const env: Environment
    const store: ConnectionStore
    var createdNodes: map<string, Key>
    var nextGuid: nat

    ghost function Current(): State
      reads this, store
    {
      State(createdNodes, store.connections, nextGuid)
    }

    constructor (env: Environment)
      ensures Current() == START_STATE && this.env == env && fresh(store)
    {
      this.env := env;
      store := new ConnectionStore();
      createdNodes := map[];
      nextGuid := 0;
    }

    method LinkSource(source: string, destination: Destination) returns (ok: bool)
      modifies this, store
      ensures ok <==> Link(env, old(Current()), source, destination).Some?
      ensures ok ==> Link(env, old(Current()), source, destination) == Some(Current()) && source in createdNodes
    {
      var sourceNode := GetSourceNode(env, source);
      var sourceKey := SourceKey(source);
      if sourceNode.Some? && sourceNode.value.Function? {
        if source in createdNodes {
          sourceKey := createdNodes[source];
        } else {
          sourceKey := FunctionKey(sourceNode.value.data.key, nextGuid);
          nextGuid := nextGuid + 1;
        }
      }
      createdNodes := createdNodes[source := sourceKey];
      var target := GetDestination(env, destination);
      if target.Some? {
        var outcome := store.ApplyConnectionValue(
          LinkAction(target.value,
              Put(if sourceNode.Some? then Linked(ConnectionUnit(sourceNode.value, sourceKey)) else Custom(source))));
        return !outcome.Threw?;
      }
      return true;
    }

    method CreateConnections(source: string, destination: Destination) returns (ok: bool)
      modifies this, store
      ensures ok <==> Create(env, old(Current()), source, destination).Some?
      ensures ok ==> Create(env, old(Current()), source, destination) == Some(Current())
      decreases |source|, 1
    {
      hide Link, GetSourceNode, Children;
      if IsReserved(source) {
        return false;
      }
      var endOfFunctionName := IndexOf(source, '(');
      var isAlreadyCreated := CallOf(env, source).Some? && source in createdNodes;
      ok := LinkSource(source, destination);
      if !ok || endOfFunctionName == -1 || isAlreadyCreated {
        return;
      }
      ChildrenAreNotLonger(source);
      var inputKeys := SplitKeyIntoChildren(source);
      ok := CreateInputs(inputKeys, ToNode(createdNodes[source]), source);
    }

    /** Not ok where a child would start its parent's creation all over again. */
    method CreateInputs(inputKeys: seq<string>, destination: Destination, parent: string) returns (ok: bool)
      requires forall s :: s in inputKeys ==> |s| < |parent| || s == parent
      modifies this, store
      ensures ok <==> CreateAll(env, old(Current()), inputKeys, destination, parent).Some?
      ensures ok ==> CreateAll(env, old(Current()), inputKeys, destination, parent) == Some(Current())
      decreases |parent|, 0
    {
      ghost var result := CreateAll(env, Current(), inputKeys, destination, parent);
      for i := 0 to |inputKeys|
        invariant result == CreateAll(env, Current(), inputKeys[i..], destination, parent)
      {
        assert inputKeys[i..][1..] == inputKeys[i + 1..] && inputKeys[i] in inputKeys;
        if inputKeys[i] != parent {
          ok := CreateConnections(inputKeys[i], destination);
        } else if CallOf(env, parent).Some? && parent in createdNodes {
          ok := LinkSource(parent, destination);
        } else {
          ok := false;
        }
        if !ok {
          return;
        }
      }
      ok := true;
    }
  }
}
