/** Reading a map definition into connections and writing the connections back, without loops,
    conditionals or array items (MapDefinitionDeserializer.ts against MapDefinitionSerializer.ts). */
module DefinitionRoundTrip {
  import opened Model
  import opened Graphs
  import opened Strings
  import opened Expressions
  import opened FunctionUtils
  import opened Traversals
  import opened Schemas
  import opened Printer
  import opened Deserializer
  import opened Settling
  import opened RoundTrip
  import opened RoundTripPrinting
  import opened MapWriter
  import opened MapWrites
  import opened Definitions
  import opened Serializer

  // ----- the target path that a value is read for

  predicate EndsWith(s: string, suffix: string) {
    |suffix| <= |s| && s[|s| - |suffix|..] == suffix
  }

  function ChildName(childKey: string): string {
    if "$@" <= childKey then childKey[1..] else childKey
  }

  /** Where reading goes on from a key. A key that repeats the end of the path is taken for a conditional
      around an object, and not read as a target, unless the schema has a node there. */
  function ReadBelow(env: Environment, targetPath: string, childKey: string): Option<string> {
    if childKey == "$value" then Some(targetPath)
    else
      var below := targetPath + "/" + ChildName(childKey);
      var isNode := LastWithKey(FlattenNode(env.targetRoot), below).Some?;
      if !EndsWith(targetPath, ChildName(childKey)) || isNode then Some(below)
      else None
  }

  function ReadPath(env: Environment, targetPath: string, keys: seq<string>): Option<string>
    decreases |keys|
  {
    if keys == [] then Some(targetPath)
    else
      match ReadBelow(env, targetPath, keys[0])
      case None => None
      case Some(below) => ReadPath(env, below, keys[1..])
  }

  function TargetPath(env: Environment, keys: seq<string>): Option<string> {
    if keys == [] then None else ReadPath(env, "/" + keys[0], keys[1..])
  }

  /** The values that are read, each with its target path: a whole definition's, or those below an entry
      that is read for a target path. */
  function Mappings(env: Environment, above: Option<string>, ps: seq<ValuedPath>): seq<Mapping>
    decreases |ps|
  {
    if ps == [] then []
    else
      match PathFrom(env, above, ps[0].keys)
      case None => Mappings(env, above, ps[1..])
      case Some(path) => [Mapping(path, ps[0].value)] + Mappings(env, above, ps[1..])
  }

  function PathFrom(env: Environment, above: Option<string>, keys: seq<string>): Option<string> {
    if above.Some? then ReadPath(env, above.value, keys) else TargetPath(env, keys)
  }

  // ----- reading a tree

  lemma {:induction false} MappingsConcat(env: Environment, targetPath: string, ps: seq<ValuedPath>,
      qs: seq<ValuedPath>)
    ensures Mappings(env, Some(targetPath), ps + qs)
            == Mappings(env, Some(targetPath), ps) + Mappings(env, Some(targetPath), qs)
    decreases |ps|
  {
    if ps == [] {
      assert ps + qs == qs;
    } else {
      assert (ps + qs)[1..] == ps[1..] + qs;
      MappingsConcat(env, targetPath, ps[1..], qs);
    }
  }

  lemma {:induction false} MappingsUnder(env: Environment, targetPath: string, k: string, ps: seq<ValuedPath>)
    ensures Mappings(env, Some(targetPath), Under(k, ps)) ==
            match ReadBelow(env, targetPath, k) case None => [] case Some(below) => Mappings(env, Some(below), ps)
    decreases |ps|
  {
    hide ReadBelow;
    if ps != [] {
      assert Under(k, ps)[1..] == Under(k, ps[1..]) && ([k] + ps[0].keys)[1..] == ps[0].keys;
      MappingsUnder(env, targetPath, k, ps[1..]);
    }
  }

  lemma {:induction false} RootMappings(env: Environment, k: string, ps: seq<ValuedPath>)
    ensures Mappings(env, None, Under(k, ps)) == Mappings(env, Some("/" + k), ps)
    decreases |ps|
  {
    hide ReadPath;
    if ps != [] {
      assert Under(k, ps)[1..] == Under(k, ps[1..]) && ([k] + ps[0].keys)[1..] == ps[0].keys;
      RootMappings(env, k, ps[1..]);
    }
  }

  lemma {:induction false} DeserializeConcat(env: Environment, st: State, ms: seq<Mapping>, ns: seq<Mapping>)
    ensures DeserializeAll(env, st, ms + ns) ==
            match DeserializeAll(env, st, ms) case None => None case Some(after) => DeserializeAll(env, after, ns)
    decreases |ms|
  {
    hide Create;
    if ms == [] {
      assert ms + ns == ns;
    } else {
      assert (ms + ns)[1..] == ms[1..] + ns;
      match Create(env, st, ms[0].text, ToPath(ms[0].path)) {
        case None =>
        case Some(after) => DeserializeConcat(env, after, ms[1..], ns);
      }
    }
  }

  /** Reading the values of one more field. */
  lemma FieldIsRead(
    env: Environment, st: State, targetPath: string, ps: seq<ValuedPath>, k: string, qs: seq<ValuedPath>, mid: State)
    requires DeserializeAll(env, st, Mappings(env, Some(targetPath), ps)) == Some(mid)
    ensures DeserializeAll(env, st, Mappings(env, Some(targetPath), ps + Under(k, qs))) ==
            match ReadBelow(env, targetPath, k)
            case None => Some(mid)
            case Some(below) => DeserializeAll(env, mid, Mappings(env, Some(below), qs))
  {
    hide ReadBelow, Mappings, Create;
    MappingsConcat(env, targetPath, ps, Under(k, qs));
    MappingsUnder(env, targetPath, k, qs);
    DeserializeConcat(env, st, Mappings(env, Some(targetPath), ps), Mappings(env, Some(targetPath), Under(k, qs)));
  }

  lemma FailedStaysFailed(env: Environment, st: State, targetPath: string, ps: seq<ValuedPath>, qs: seq<ValuedPath>)
    requires DeserializeAll(env, st, Mappings(env, Some(targetPath), ps)).None?
    ensures DeserializeAll(env, st, Mappings(env, Some(targetPath), ps + qs)).None?
  {
    hide Mappings, Create;
    MappingsConcat(env, targetPath, ps, qs);
    DeserializeConcat(env, st, Mappings(env, Some(targetPath), ps), Mappings(env, Some(targetPath), qs));
  }

  /** The fields read so far are all but the remaining ones. */
  ghost predicate ReadsSoFar(children: Fields, remaining: Fields, ps: seq<ValuedPath>) {
    && remaining.Keys <= children.Keys && (forall k :: k in remaining ==> remaining[k] == children[k])
    && ListsTexts(children - remaining.Keys, ps)
  }

  lemma NothingReadYet(children: Fields)
    ensures ReadsSoFar(children, children, [])
  {
    NothingToList();
    assert children - children.Keys == map[];
  }

  lemma OneMoreField(children: Fields, remaining: Fields, ps: seq<ValuedPath>, k: string, qs: seq<ValuedPath>)
    requires ReadsSoFar(children, remaining, ps) && k in remaining && IsFull(children[k]) && EntryLists(children[k], qs)
    ensures ReadsSoFar(children, remaining - {k}, ps + Under(k, qs))
  {
    hide ListsTexts;
    ListsOne(k, children[k], qs);
    ListsUnion(children - remaining.Keys, map[k := children[k]], ps, Under(k, qs));
    assert (children - remaining.Keys) + map[k := children[k]] == children - (remaining - {k}).Keys;
  }

  lemma AllFieldsRead(children: Fields, ps: seq<ValuedPath>)
    requires ReadsSoFar(children, map[], ps)
    ensures ListsTexts(children, ps)
  {
    var nothing: Fields := map[];
    assert children - nothing.Keys == children;
  }

  /** The fields that are not read any more after a failure. */
  lemma TheRest(children: Fields, remaining: Fields, ps: seq<ValuedPath>) returns (rest: seq<ValuedPath>)
    requires IsFull(Branch(children)) && ReadsSoFar(children, remaining, ps)
    ensures ListsTexts(children, ps + rest)
  {
    hide ListsTexts, IsFull;
    rest := HasList(Branch(children), remaining);
    ListsUnion(children - remaining.Keys, remaining, ps, rest);
    assert (children - remaining.Keys) + remaining == children;
  }

  /** A text is connected to the target, an object is read field by field. All values are read, but those
      under a key that is taken for a conditional. */
  method ParseDefinitionToConnection(deserializer: MapDefinitionDeserializer, e: Entry, targetPath: string)
    returns (ok: bool, ghost ps: seq<ValuedPath>)
    requires IsFull(e)
    modifies deserializer, deserializer.store
    ensures EntryLists(e, ps)
    ensures ok <==> DeserializeAll(deserializer.env, old(deserializer.Current()),
            Mappings(deserializer.env, Some(targetPath), ps)).Some?
    ensures ok ==>
            DeserializeAll(deserializer.env, old(deserializer.Current()),
                Mappings(deserializer.env, Some(targetPath), ps))
                   == Some(deserializer.Current())
    decreases e, 1
  {
    match e {
      case Leaf(text) =>
        ok := deserializer.CreateConnections(text, ToPath(targetPath));
        ps := [ValuedPath([], text)];
        OneMapping(deserializer.env, old(deserializer.Current()), targetPath, text);
      case Branch(children) =>
        ok, ps := CallChildObjects(deserializer, children, targetPath);
    }
  }

  lemma OneMapping(env: Environment, st: State, targetPath: string, text: string)
    ensures DeserializeAll(env, st, Mappings(env, Some(targetPath), [ValuedPath([], text)]))
            == Create(env, st, text, ToPath(targetPath))
  {
    hide Create;
    assert Mappings(env, Some(targetPath), [ValuedPath([], text)]) == [Mapping(targetPath, text)];
    assert [Mapping(targetPath, text)][1..] == [];
  }

  method CallChildObjects(deserializer: MapDefinitionDeserializer, children: Fields, targetPath: string)
    returns (ok: bool, ghost ps: seq<ValuedPath>)
    requires IsFull(Branch(children))
    modifies deserializer, deserializer.store
    ensures ListsTexts(children, ps)
    ensures ok <==> DeserializeAll(deserializer.env, old(deserializer.Current()),
            Mappings(deserializer.env, Some(targetPath), ps)).Some?
    ensures ok ==>
            DeserializeAll(deserializer.env, old(deserializer.Current()),
                Mappings(deserializer.env, Some(targetPath), ps))
                   == Some(deserializer.Current())
    decreases Branch(children), 0
  {
    ghost var env, st := deserializer.env, deserializer.Current();
    assert forall k :: k in children ==> IsFull(children[k]);
    hide Create, ReadBelow, ReadsSoFar, ListsTexts, EntryLists, IsFull;
    ok, ps := true, [];
    var remaining := children;
    NothingReadYet(children);
    while remaining != map[]
      invariant remaining.Keys <= children.Keys && ReadsSoFar(children, remaining, ps)
      invariant DeserializeAll(env, st, Mappings(env, Some(targetPath), ps)) == Some(deserializer.Current())
      decreases |remaining|
    {
      var childKey :| childKey in remaining.Keys;
      ghost var qs, mid := [], deserializer.Current();
      match ReadBelow(deserializer.env, targetPath, childKey) {
        case None => qs := EntryHasList(children[childKey]);
        case Some(childTargetPath) =>
          ok, qs := ParseDefinitionToConnection(deserializer, children[childKey], childTargetPath);
      }
      FieldIsRead(env, st, targetPath, ps, childKey, qs, mid);
      OneMoreField(children, remaining, ps, childKey, qs);
      ps := ps + Under(childKey, qs);
      remaining := remaining - {childKey};
      if !ok {
        ghost var rest := TheRest(children, remaining, ps);
        FailedStaysFailed(env, st, targetPath, ps, rest);
        ps := ps + rest;
        return;
      }
    }
    AllFieldsRead(children, ps);
  }

  lemma NothingToRead(env: Environment, st: State)
    ensures DeserializeAll(env, st, Mappings(env, None, [])) == Some(st)
  {
  }

  /** Of the body of a definition, one root is read. */
  method ConvertFromMapDefinition(deserializer: MapDefinitionDeserializer, definition: Fields)
    returns (ok: bool, ghost root: Fields, ghost ps: seq<ValuedPath>)
    requires IsFullTree(definition)
    modifies deserializer, deserializer.store
    ensures root == map[] == definition || exists k :: k in definition && root == map[k := definition[k]]
    ensures ListsTexts(root, ps)
    ensures ok <==> DeserializeAll(deserializer.env, old(deserializer.Current()),
            Mappings(deserializer.env, None, ps)).Some?
    ensures ok ==> DeserializeAll(deserializer.env, old(deserializer.Current()), Mappings(deserializer.env, None, ps))
                   == Some(deserializer.Current())
  {
    hide ListsTexts, Mappings, Create;
    if definition == map[] {
      NothingToList();
      NothingToRead(deserializer.env, deserializer.Current());
      return true, map[], [];
    }
    var rootNodeKey :| rootNodeKey in definition.Keys;
    ghost var below;
    ok, below := ParseDefinitionToConnection(deserializer, definition[rootNodeKey], "/" + rootNodeKey);
    root, ps := map[rootNodeKey := definition[rootNodeKey]], Under(rootNodeKey, below);
    ListsOne(rootNodeKey, definition[rootNodeKey], below);
    RootMappings(deserializer.env, rootNodeKey, below);
  }

  // ----- the nodes of a target schema

  /** The tree is a loaded schema's, and no two of its nodes have the same key. */
  ghost predicate IsTargetSchema(env: Environment, loaded: LoadedNode) {
    env.targetRoot == ConvertNode(loaded, None, []) && UniqueKeys(FlattenNode(env.targetRoot))
  }

  /** Every key on the path is the key above it and the name, as it is outside array items. */
  predicate FollowsNames(n: SchemaNode) {
    && n.pathToRoot != [] && n.pathToRoot[0].key == "/" + n.pathToRoot[0].qName && !("@" <= n.pathToRoot[0].qName)
    && forall i :: 0 < i < |n.pathToRoot| ==>
          n.pathToRoot[i].key == n.pathToRoot[i - 1].key + "/" + n.pathToRoot[i].qName
  }

  lemma NodeIsFound(env: Environment, loaded: LoadedNode, n: SchemaNode)
    requires IsTargetSchema(env, loaded) && n in FlattenNode(env.targetRoot)
    ensures LastWithKey(FlattenNode(env.targetRoot), n.key) == Some(n) && Search(n.key, env.targetRoot) == Some(n)
    ensures n.pathToRoot != [] && n.pathToRoot[|n.pathToRoot| - 1] == ItemFor(n)
  {
    hide UniqueKeys, FlattenNode, ConvertNode;
    UniqueIsIndexed(FlattenNode(env.targetRoot), n);
    UniqueKeysAgree(env.targetRoot, n.key);
    ConvertedPaths(loaded, None, []);
  }

  lemma {:induction false} ItemIsNode(env: Environment, loaded: LoadedNode, n: SchemaNode, i: nat)
    returns (a: SchemaNode)
    requires IsTargetSchema(env, loaded) && n in FlattenNode(env.targetRoot) && i < |n.pathToRoot|
    ensures a in FlattenNode(env.targetRoot) && n.pathToRoot[i] == ItemFor(a)
    decreases |n.pathToRoot|
  {
    NodeIsFound(env, loaded, n);
    if i == |n.pathToRoot| - 1 {
      a := n;
    } else {
      TopIsAlone(loaded);
      hide UniqueKeys, FlattenNode, ConvertNode, ItemFor;
      var parent := ParentOf(loaded, n);
      a := ItemIsNode(env, loaded, parent, i);
    }
  }

  lemma TopIsAlone(loaded: LoadedNode)
    ensures |ConvertNode(loaded, None, []).pathToRoot| == 1
  {
  }

  lemma NameIsRead(env: Environment, above: string, name: string, n: SchemaNode)
    requires IsPlainName(name) && n.key == above + "/" + name && LastWithKey(FlattenNode(env.targetRoot), n.key).Some?
    ensures ReadBelow(env, above, KeyOf(name)) == Some(n.key)
  {
    hide FlattenNode;
    assert "$value"[1] == 'v';
    assert ChildName(KeyOf(name)) == name;
  }

  lemma {:induction false} ReadsFrom(env: Environment, loaded: LoadedNode, n: SchemaNode, i: nat)
    requires IsTargetSchema(env, loaded) && n in FlattenNode(env.targetRoot)
    requires HasPlainNames(n) && FollowsNames(n) && i < |n.pathToRoot|
    ensures ReadPath(env, n.pathToRoot[i].key, PathKeys(n)[i + 1..]) == Some(n.key)
    decreases |n.pathToRoot| - i
  {
    var keys := PathKeys(n);
    if i + 1 < |n.pathToRoot| {
      var a := ItemIsNode(env, loaded, n, i + 1);
      NodeIsFound(env, loaded, a);
      NameIsRead(env, n.pathToRoot[i].key, n.pathToRoot[i + 1].qName, a);
      assert keys[i + 1..][0] == KeyOf(n.pathToRoot[i + 1].qName) && keys[i + 1..][1..] == keys[i + 2..];
      hide FlattenNode, ReadBelow, UniqueKeys, IsPlainName, PathKeys;
      ReadsFrom(env, loaded, n, i + 1);
    } else {
      NodeIsFound(env, loaded, n);
      assert keys[i + 1..] == if IsComplex(n) then ["$value"] else [];
    }
  }

  /** The keys that a node is written under lead, when they are read, back to the node. */
  lemma WrittenPathIsRead(env: Environment, loaded: LoadedNode, n: SchemaNode)
    requires IsTargetSchema(env, loaded) && n in FlattenNode(env.targetRoot) && HasPlainNames(n) && FollowsNames(n)
    ensures PathKeys(n) != [] && TargetPath(env, PathKeys(n)) == Some(n.key)
    ensures Search(n.key, env.targetRoot) == Some(n)
  {
    NodeIsFound(env, loaded, n);
    ReadsFrom(env, loaded, n, 0);
  }

  /** A key that repeats the end of its path, where the schema has no node for it, is not read: nothing below
      it becomes a value. */
  lemma RepeatedKeyIsNotRead(env: Environment, targetPath: string, above: string, key: string, ps: seq<ValuedPath>)
    requires targetPath == above + key && key != "$value" && !("$@" <= key)
    requires forall n :: n in FlattenNode(env.targetRoot) ==> n.key != targetPath + "/" + key
    ensures Mappings(env, Some(targetPath), Under(key, ps)) == []
  {
    hide FlattenNode;
    AbsentLookUp(FlattenNode(env.targetRoot), targetPath + "/" + key);
    assert targetPath[|targetPath| - |key|..] == key;
    MappingsUnder(env, targetPath, key, ps);
  }

  // ----- what comes back for one value

  /** The value is for this node, and read as this expression; a function whose key begins with "if" would
      be written as a condition. */
  ghost predicate IsFor(env: Environment, p: ValuedPath, n: SchemaNode, e: Expr) {
    && n in FlattenNode(env.targetRoot) && !IsRepeating(n) && HasPlainNames(n) && FollowsNames(n)
    && PathKeys(n) == p.keys
    && Deserializable(env, e) && Render(e) == p.value
    && (GetSourceNode(env, p.value).Some? ==> !(IF_KEY <= NodeKey(GetSourceNode(env, p.value).value)))
  }

  function WrittenText(env: Environment, e: Expr): string {
    LocalValue(InputFor(env, SourceKey(Render(e)), Render(e)), Render(Returned(env, e)))
  }

  /** Nothing is cut off the text of a source node; in a call, no function with a dash in its key has
      arguments, and no argument is an attribute. */
  predicate ComesBack(env: Environment, e: Expr) {
    match GetSourceNode(env, Render(e))
    case Some(Schema(schema)) => StaysLocal(schema, Render(e))
    case _ => KeepsText(env, e, false)
  }

  predicate Survives(env: Environment, n: SchemaNode, e: Expr) {
    WritesText(n) && ComesBack(env, e)
  }

  lemma SourceNodeIsNoCall(env: Environment, e: Expr)
    requires Deserializable(env, e) && GetSourceNode(env, Render(e)).Some?
             && GetSourceNode(env, Render(e)).value.Schema?
    ensures !e.Call? && Returned(env, e) == e
  {
    hide IsReserved, Search;
    if e.Call? {
      TextOfCall(env, e);
    }
  }

  lemma WrittenTextIsSameIff(env: Environment, e: Expr)
    requires Deserializable(env, e)
    ensures WrittenText(env, e) == Render(e) <==> ComesBack(env, e)
  {
    hide Deserializable, Render, Returned, KeepsText, GetSourceNode;
    match GetSourceNode(env, Render(e)) {
      case Some(Schema(schema)) =>
        SourceNodeIsNoCall(env, e);
        LocalValueIsSameIff(schema, SourceKey(Render(e)), Render(e));
      case _ =>
        IsWellFormed(env, e);
        ShownIsSameIff(env, e, false);
    }
  }

  /** The target holds one input, whose text is the expression's. */
  ghost predicate HoldsText(env: Environment, d: ConnectionDictionary, n: SchemaNode, e: Expr)
    requires Acyclic(InGraph(d))
  {
    && TargetKey(n.key) in d && d[TargetKey(n.key)].self.node == Schema(n)
    && |d[TargetKey(n.key)].inputs| == 1 && |d[TargetKey(n.key)].inputs[0]| == 1
    && var input := d[TargetKey(n.key)].inputs[0][0];
       && !IsFalsy(input) && !IsConditionalInput(input)
       && InputValue(input, d) == Printed(Render(Returned(env, e)))
       && LocalValue(input, Render(Returned(env, e))) == WrittenText(env, e)
  }

  lemma PrintedInputValue(env: Environment, d: ConnectionDictionary, key: Key, text: string, printed: string)
    requires Acyclic(InGraph(d)) && InputPrints(d, InputFor(env, key, text), false, printed)
    requires CallOf(env, text).Some? ==> CallOf(env, text).value.key != INDEX_KEY
    ensures InputValue(InputFor(env, key, text), d) == Printed(printed)
  {
    hide IsReserved, CollectFunctionValue, CallOf;
    SourceIsFoundByKey(env, text);
  }

  lemma CalledIsNoIndex(env: Environment, e: Expr)
    requires Deserializable(env, e) && CallOf(env, Render(e)).Some?
    ensures CallOf(env, Render(e)).value.key != INDEX_KEY
  {
    hide IsReserved, Settles, Contained;
    if e.Call? {
      TextOfCall(env, e);
    }
  }

  lemma LocalTextIgnoresKey(env: Environment, key: Key, text: string, value: string)
    requires text != ""
    ensures LocalValue(InputFor(env, key, text), value) == LocalValue(InputFor(env, SourceKey(text), text), value)
    ensures !IsFalsy(InputFor(env, key, text))
  {
    hide WithoutLoop, GetSourceNode, CallOf;
  }

  lemma SourceIsFoundByKey(env: Environment, text: string)
    ensures match GetSourceNode(env, text) case Some(Schema(schema)) => schema.key == text case _ => true
  {
    FoundIsIndexed(env.sourceRoot, text);
  }

  lemma HeldTextIsWritten(env: Environment, loaded: LoadedNode, st: State, p: ValuedPath, n: SchemaNode, e: Expr)
    requires IsTargetSchema(env, loaded) && IsFor(env, p, n, e)
    requires Sound(env, st) && Complete(env, st, {}) && Holding(env, st, Mapping(n.key, p.value))
    requires Acyclic(InGraph(st.connections))
    ensures HoldsText(env, st.connections, n, e)
  {
    hide UniqueKeys, FlattenNode, Deserializable, Sound, Complete, InputFor, InputPrints, Returned, Render, LocalValue,
      InputValue;
    WrittenPathIsRead(env, loaded, n);
    HoldingInputPrints(env, st, Mapping(n.key, p.value), e, false);
    ReturnedIsShown(env, e);
    IsWellFormed(env, e);
    TextIsNotEmpty(e);
    if CallOf(env, p.value).Some? {
      CalledIsNoIndex(env, e);
    }
    PrintedInputValue(env, st.connections, st.created[p.value], p.value, Render(Returned(env, e)));
    LocalTextIgnoresKey(env, st.created[p.value], p.value, Render(Returned(env, e)));
    InputIsNoConditional(env, st.created[p.value], p.value);
  }

  lemma ReturnedIsShown(env: Environment, e: Expr)
    ensures Shown(env, e, false) == Returned(env, e)
  {
  }

  lemma TextIsNotEmpty(e: Expr)
    requires WellFormed(e)
    ensures Render(e) != ""
  {
    RenderShowsKind(e);
  }

  lemma InputIsNoConditional(env: Environment, key: Key, text: string)
    requires GetSourceNode(env, text).Some? ==> !(IF_KEY <= NodeKey(GetSourceNode(env, text).value))
    ensures !IsConditionalInput(InputFor(env, key, text))
  {
  }

  // ----- a whole definition

  /** Every value is for a node of its own, and every node's value can be read. */
  ghost predicate IsDefinition(env: Environment, ps: seq<ValuedPath>, nodes: seq<SchemaNode>, es: seq<Expr>) {
    && |nodes| == |ps| && |es| == |ps|
    && forall i :: 0 <= i < |ps| ==> IsFor(env, ps[i], nodes[i], es[i])
  }

  lemma {:induction false} AllAreRead(env: Environment, loaded: LoadedNode, ps: seq<ValuedPath>,
      nodes: seq<SchemaNode>, es: seq<Expr>)
    requires IsTargetSchema(env, loaded) && IsDefinition(env, ps, nodes, es)
    ensures |Mappings(env, None, ps)| == |ps|
    ensures forall i :: 0 <= i < |ps| ==> Mappings(env, None, ps)[i] == Mapping(nodes[i].key, ps[i].value)
    decreases |ps|
  {
    hide IsFor, IsTargetSchema, TargetPath;
    if ps != [] {
      assert IsFor(env, ps[0], nodes[0], es[0]);
      OneIsRead(env, loaded, ps[0], nodes[0], es[0]);
      AllAreRead(env, loaded, ps[1..], nodes[1..], es[1..]);
    }
  }

  lemma OneIsRead(env: Environment, loaded: LoadedNode, p: ValuedPath, n: SchemaNode, e: Expr)
    requires IsTargetSchema(env, loaded) && IsFor(env, p, n, e)
    ensures TargetPath(env, p.keys) == Some(n.key) && IsPlainTarget(env, n.key)
            && Search(n.key, env.targetRoot) == Some(n)
    ensures IsValue(env, p.value)
  {
    hide Deserializable, Search, UniqueKeys;
    WrittenPathIsRead(env, loaded, n);
  }

  lemma {:induction false} PathsStartAtRoot(env: Environment, loaded: LoadedNode, n: SchemaNode)
    requires IsTargetSchema(env, loaded) && n in FlattenNode(env.targetRoot)
    ensures n.pathToRoot != [] && n.pathToRoot[0].qName == env.targetRoot.qName
    decreases |n.pathToRoot|
  {
    NodeIsFound(env, loaded, n);
    if n != env.targetRoot {
      hide UniqueKeys, FlattenNode;
      var parent := ParentOf(loaded, n);
      PathsStartAtRoot(env, loaded, parent);
    }
  }

  /** A definition has no other root than the schema's, so all of it is read. */
  lemma OnlyOneRoot(
    env: Environment, loaded: LoadedNode, t: Fields, ps: seq<ValuedPath>, nodes: seq<SchemaNode>, es: seq<Expr>)
    requires IsTargetSchema(env, loaded) && IsFullTree(t) && ListsTexts(t, ps) && IsDefinition(env, ps, nodes, es)
    ensures forall k :: k in t ==> k == env.targetRoot.qName && t == map[k := t[k]]
  {
    hide IsTargetSchema, UniqueKeys, FlattenNode, Deserializable, GetSourceNode, TextAt;
    forall k | k in t ensures k == env.targetRoot.qName {
      var keys := FieldHasText(t, k);
      var i :| 0 <= i < |ps| && ps[i].keys == keys;
      assert IsFor(env, ps[i], nodes[i], es[i]);
      PathsStartAtRoot(env, loaded, nodes[i]);
      assert KeysOf(nodes[i].pathToRoot)[0] == KeyOf(nodes[i].pathToRoot[0].qName);
    }
  }

  lemma DefinitionIsMapDefinition(
    env: Environment, loaded: LoadedNode, t: Fields, ps: seq<ValuedPath>, nodes: seq<SchemaNode>, es: seq<Expr>)
    requires IsTargetSchema(env, loaded) && ListsTexts(t, ps) && IsDefinition(env, ps, nodes, es)
    ensures IsMapDefinition(env, Mappings(env, None, ps))
    ensures forall i, j :: 0 <= i < j < |nodes| ==> nodes[i].key != nodes[j].key
  {
    hide TargetPath, IsTargetSchema, IsValue, IsPlainTarget, TextAt, Mappings;
    AllAreRead(env, loaded, ps, nodes, es);
    forall i, j | 0 <= i < j < |ps| ensures nodes[i].key != nodes[j].key {
      SameKeySameNode(env, loaded, ps, nodes, es, i, j);
    }
    forall i | 0 <= i < |ps| ensures IsValue(env, ps[i].value) && IsPlainTarget(env, nodes[i].key) {
      OneIsRead(env, loaded, ps[i], nodes[i], es[i]);
    }
  }

  lemma SameKeySameNode(
    env: Environment, loaded: LoadedNode, ps: seq<ValuedPath>, nodes: seq<SchemaNode>, es: seq<Expr>, i: nat, j: nat)
    requires IsTargetSchema(env, loaded) && IsDefinition(env, ps, nodes, es) && i < |ps| && j < |ps|
    ensures nodes[i].key == nodes[j].key ==> ps[i].keys == ps[j].keys
  {
    hide IsTargetSchema, Deserializable, Search, HasPlainNames, FollowsNames, GetSourceNode;
    OneIsRead(env, loaded, ps[i], nodes[i], es[i]);
    OneIsRead(env, loaded, ps[j], nodes[j], es[j]);
  }

  /** Every target holds its node's text, and there are no other targets. */
  ghost predicate HoldsAll(env: Environment, d: ConnectionDictionary, nodes: seq<SchemaNode>, es: seq<Expr>)
    requires Acyclic(InGraph(d))
  {
    && |es| == |nodes|
    && (forall i :: 0 <= i < |nodes| ==> HoldsText(env, d, nodes[i], es[i]))
    && (forall path :: TargetKey(path) in d ==> exists i :: 0 <= i < |nodes| && nodes[i].key == path)
  }

  lemma DefinitionIsHeld(
    env: Environment, loaded: LoadedNode, t: Fields, ps: seq<ValuedPath>, nodes: seq<SchemaNode>, es: seq<Expr>)
    requires IsTargetSchema(env, loaded) && ListsTexts(t, ps) && IsDefinition(env, ps, nodes, es)
    ensures DeserializeAll(env, START_STATE, Mappings(env, None, ps)).Some?
    ensures var d := DeserializeAll(env, START_STATE, Mappings(env, None, ps)).value.connections;
            Acyclic(InGraph(d)) && HoldsAll(env, d, nodes, es)
  {
    hide *;
    var ms := Mappings(env, None, ps);
    StartIsSound(env);
    DefinitionIsMapDefinition(env, loaded, t, ps, nodes, es);
    MappingsAreAcceptable(env, ms);
    DeserializeBuildsAll(env, START_STATE, [], ms);
    assert [] + ms == ms;
    var r := DeserializeAll(env, START_STATE, ms).value;
    AcceptableIsAcyclic(env, ms);
    AllAreRead(env, loaded, ps, nodes, es);
    DoneHoldsAll(env, loaded, r, ps, nodes, es);
  }

  lemma DoneHoldsAll(
    env: Environment, loaded: LoadedNode, st: State, ps: seq<ValuedPath>, nodes: seq<SchemaNode>, es: seq<Expr>)
    requires IsTargetSchema(env, loaded) && IsDefinition(env, ps, nodes, es)
    requires Sound(env, st) && Complete(env, st, {}) && Done(env, st, Mappings(env, None, ps))
             && Acyclic(InGraph(st.connections))
    requires |Mappings(env, None, ps)| == |ps|
    requires forall i :: 0 <= i < |ps| ==> Mappings(env, None, ps)[i] == Mapping(nodes[i].key, ps[i].value)
    ensures HoldsAll(env, st.connections, nodes, es)
  {
    hide Sound, Complete, Mappings, IsFor, IsTargetSchema, Holding, HoldsText, Acyclic;
    var ms := Mappings(env, None, ps);
    forall i | 0 <= i < |nodes| ensures HoldsText(env, st.connections, nodes[i], es[i]) {
      assert ms[i] in ms;
      HeldTextIsWritten(env, loaded, st, ps[i], nodes[i], es[i]);
    }
    forall path | TargetKey(path) in st.connections ensures exists i :: 0 <= i < |nodes| && nodes[i].key == path {
      var m :| m in ms && m.path == path;
      var i :| 0 <= i < |ms| && ms[i] == m;
      assert nodes[i].key == path;
    }
  }

  /** The one input that a target holds. */
  lemma HeldInput(env: Environment, d: ConnectionDictionary, n: SchemaNode, e: Expr) returns (input: InputConnection)
    requires Acyclic(InGraph(d)) && HoldsText(env, d, n, e)
    ensures TargetKey(n.key) in d && d[TargetKey(n.key)].self.node == Schema(n)
    ensures FirstInput(d[TargetKey(n.key)]) == input && FlattenInputs(d[TargetKey(n.key)].inputs) == [input]
    ensures !IsFalsy(input) && !IsConditionalInput(input) && InputValue(input, d) == Printed(Render(Returned(env, e)))
    ensures LocalValue(input, Render(Returned(env, e))) == WrittenText(env, e)
  {
    hide Acyclic, InputValue, IsConditionalInput, Returned, Render, LocalValue, WrittenText;
    input := d[TargetKey(n.key)].inputs[0][0];
    OneInputFlattens(input);
    assert d[TargetKey(n.key)].inputs[0] == [input];
    assert d[TargetKey(n.key)].inputs == [[input]];
  }

  /** No loop and no conditional stands on the way to a target. */
  lemma PathIsPlain(
    env: Environment, loaded: LoadedNode, d: ConnectionDictionary, ps: seq<ValuedPath>, nodes: seq<SchemaNode>,
        es: seq<Expr>,
    n: SchemaNode)
    requires IsTargetSchema(env, loaded) && IsDefinition(env, ps, nodes, es) && n in FlattenNode(env.targetRoot)
    requires Acyclic(InGraph(d)) && HoldsAll(env, d, nodes, es)
    ensures IsPlainPath(d, n)
  {
    NodeIsFound(env, loaded, n);
    hide IsTargetSchema, HoldsText, IsFor, Acyclic, FlattenNode;
    forall i | 0 <= i < |n.pathToRoot| && TargetKey(n.pathToRoot[i].key) in d
      ensures var c := d[TargetKey(n.pathToRoot[i].key)];
              !n.pathToRoot[i].repeating && c.inputs != [] && !IsConditionalInput(FirstInput(c))
    {
      var m :| 0 <= m < |nodes| && nodes[m].key == n.pathToRoot[i].key;
      var a := ItemIsNode(env, loaded, n, i);
      ItemIsPlain(env, loaded, d, ps[m], a, nodes[m], es[m]);
    }
  }

  lemma TargetsArePlain(
    env: Environment, loaded: LoadedNode, d: ConnectionDictionary, ps: seq<ValuedPath>, nodes: seq<SchemaNode>,
        es: seq<Expr>)
    requires IsTargetSchema(env, loaded) && IsDefinition(env, ps, nodes, es)
    requires Acyclic(InGraph(d)) && HoldsAll(env, d, nodes, es)
    ensures forall i :: 0 <= i < |nodes| ==>
            IsPlainTargetOf(d, TargetKey(nodes[i].key)) && IsWritten(d[TargetKey(nodes[i].key)])
  {
    hide IsTargetSchema, HoldsText, Acyclic, FlattenNode, HasPlainNames, FollowsNames, PathKeys, Deserializable,
      GetSourceNode, IsPlainPath;
    forall i | 0 <= i < |nodes|
      ensures IsPlainTargetOf(d, TargetKey(nodes[i].key)) && IsWritten(d[TargetKey(nodes[i].key)])
    {
      assert IsFor(env, ps[i], nodes[i], es[i]);
      PathIsPlain(env, loaded, d, ps, nodes, es, nodes[i]);
      var input := HeldInput(env, d, nodes[i], es[i]);
    }
  }

  lemma ItemIsPlain(env: Environment, loaded: LoadedNode, d: ConnectionDictionary, p: ValuedPath, a: SchemaNode,
      n: SchemaNode, e: Expr)
    requires IsTargetSchema(env, loaded) && a in FlattenNode(env.targetRoot) && IsFor(env, p, n, e) && a.key == n.key
    requires Acyclic(InGraph(d)) && HoldsText(env, d, n, e)
    ensures var c := d[TargetKey(a.key)];
            !ItemFor(a).repeating && c.inputs != [] && !IsConditionalInput(FirstInput(c))
  {
    NodeIsFound(env, loaded, a);
    NodeIsFound(env, loaded, n);
  }

  // ----- writing it back

  ghost predicate AreTargets(d: ConnectionDictionary, targets: seq<Key>) {
    NoDuplicates(targets) && forall k: Key :: k in targets <==> k in d && k.TargetKey?
  }

  ghost function IndexFor(nodes: seq<SchemaNode>, k: Key): (i: nat)
    requires exists i :: 0 <= i < |nodes| && TargetKey(nodes[i].key) == k
    ensures i < |nodes| && TargetKey(nodes[i].key) == k
  {
    var i :| 0 <= i < |nodes| && TargetKey(nodes[i].key) == k;
    i
  }

  /** The nodes of the targets, each once. */
  ghost predicate Indexes(nodes: seq<SchemaNode>, targets: seq<Key>, order: seq<nat>) {
    && |order| == |targets|
    && forall j :: 0 <= j < |targets| ==> order[j] < |nodes| && targets[j] == TargetKey(nodes[order[j]].key)
  }

  function TextsInOrder(env: Environment, nodes: seq<SchemaNode>, es: seq<Expr>, order: seq<nat>): (r: seq<ValuedPath>)
    requires |es| == |nodes| && forall j :: 0 <= j < |order| ==> order[j] < |nodes|
    ensures |r| == |order| && forall j :: 0 <= j < |r| ==>
            r[j] == WrittenFor(nodes[order[j]], WrittenText(env, es[order[j]]))
  {
    seq(|order|, j requires 0 <= j < |order| => WrittenFor(nodes[order[j]], WrittenText(env, es[order[j]])))
  }

  /** A target's one input is written under the node's keys. */
  lemma OneIsWritten(env: Environment, d: ConnectionDictionary, n: SchemaNode, e: Expr, t: Fields)
    requires Acyclic(InGraph(d)) && HoldsText(env, d, n, e)
    ensures var c := d[TargetKey(n.key)];
            WriteInputs(d, n, FirstInput(c), FlattenInputs(c.inputs), t)
                == PutPath(t, WrittenFor(n, WrittenText(env, e)))
  {
    var input := HeldInput(env, d, n, e);
    hide Acyclic, InputValue, Returned, Render, LocalValue, WrittenText, HoldsText, FirstInput, FlattenInputs, WriteAt;
    assert [input][1..] == [];
  }

  lemma {:induction false} BodyIsPutAll(
    env: Environment, d: ConnectionDictionary, nodes: seq<SchemaNode>, es: seq<Expr>, targets: seq<Key>,
        order: seq<nat>, t: Fields)
    requires Acyclic(InGraph(d)) && HoldsAll(env, d, nodes, es) && Indexes(nodes, targets, order)
    requires forall i :: 0 <= i < |nodes| ==>
             IsPlainTargetOf(d, TargetKey(nodes[i].key)) && IsWritten(d[TargetKey(nodes[i].key)])
    ensures forall k :: k in targets ==> IsPlainTargetOf(d, k)
    ensures GenerateBody(d, targets, t) == PutAll(t, TextsInOrder(env, nodes, es, order))
    decreases |targets|
  {
    hide Acyclic, HoldsText, IsPlainTargetOf, WriteInputs, PutPath, WrittenFor, WrittenText, FirstInput, FlattenInputs;
    if targets != [] {
      var n, e := nodes[order[0]], es[order[0]];
      assert HoldsText(env, d, n, e);
      OneIsWritten(env, d, n, e, t);
      var input := HeldInput(env, d, n, e);
      var ws := TextsInOrder(env, nodes, es, order);
      assert ws[1..] == TextsInOrder(env, nodes, es, order[1..]);
      if PutPath(t, ws[0]).Some? {
        BodyIsPutAll(env, d, nodes, es, targets[1..], order[1..], PutPath(t, ws[0]).value);
      } else {
        BodyIsPutAll(env, d, nodes, es, targets[1..], order[1..], t);
      }
    }
  }

  function InOrder(ps: seq<ValuedPath>, order: seq<nat>): (r: seq<ValuedPath>)
    requires forall j :: 0 <= j < |order| ==> order[j] < |ps|
    ensures |r| == |order| && forall j :: 0 <= j < |r| ==> r[j] == ps[order[j]]
  {
    seq(|order|, j requires 0 <= j < |order| => ps[order[j]])
  }

  lemma OrderOf(env: Environment, d: ConnectionDictionary, nodes: seq<SchemaNode>, es: seq<Expr>, targets: seq<Key>)
    returns (order: seq<nat>)
    requires Acyclic(InGraph(d)) && HoldsAll(env, d, nodes, es) && AreTargets(d, targets)
    requires forall i, j :: 0 <= i < j < |nodes| ==> nodes[i].key != nodes[j].key
    ensures Indexes(nodes, targets, order) && NoDuplicates(order)
    ensures forall i :: 0 <= i < |nodes| ==> i in order
  {
    hide Acyclic, HoldsText;
    forall j | 0 <= j < |targets| ensures exists i :: 0 <= i < |nodes| && TargetKey(nodes[i].key) == targets[j] {
      assert targets[j] in targets;
      assert TargetKey(targets[j].path) in d;
      var i :| 0 <= i < |nodes| && nodes[i].key == targets[j].path;
      assert TargetKey(nodes[i].key) == targets[j];
    }
    order := seq(|targets|, j requires 0 <= j < |targets| => IndexFor(nodes, targets[j]));
    assert Indexes(nodes, targets, order);
    forall i | 0 <= i < |nodes| ensures i in order {
      assert HoldsText(env, d, nodes[i], es[i]);
      var input := HeldInput(env, d, nodes[i], es[i]);
      assert TargetKey(nodes[i].key) in targets;
      var j :| 0 <= j < |targets| && targets[j] == TargetKey(nodes[i].key);
      assert nodes[order[j]].key == nodes[i].key;
      assert order[j] == i;
    }
  }

  /** The values in the order of their targets are still all the values of the tree. */
  lemma InOrderLists(t: Fields, ps: seq<ValuedPath>, order: seq<nat>)
    requires ListsTexts(t, ps) && NoDuplicates(order) && forall j :: 0 <= j < |order| ==> order[j] < |ps|
    requires forall i :: 0 <= i < |ps| ==> i in order
    ensures ListsTexts(t, InOrder(ps, order))
  {
    hide TextAt;
    var qs := InOrder(ps, order);
    forall keys: seq<string> | keys != [] && TextAt(t, keys).Some?
      ensures exists j :: 0 <= j < |qs| && qs[j].keys == keys
    {
      var i :| 0 <= i < |ps| && ps[i].keys == keys;
      assert i in order;
      var j :| 0 <= j < |order| && order[j] == i;
      assert qs[j].keys == keys;
    }
    forall i, j | 0 <= i < j < |qs| ensures qs[i].keys != qs[j].keys {
      assert order[i] != order[j];
    }
  }

  /** The texts written in some order, against the tree's own texts. */
  ghost predicate WrittenInOrder(ps: seq<ValuedPath>, order: seq<nat>, written: seq<ValuedPath>, same: seq<bool>) {
    && |written| == |order| && |same| == |ps| && NoDuplicates(order)
    && (forall j :: 0 <= j < |order| ==> order[j] < |ps|)
    && (forall i :: 0 <= i < |ps| ==> i in order)
    && (forall j :: 0 <= j < |order| ==>
          written[j].keys == ps[order[j]].keys && (written[j] == ps[order[j]] <==> same[order[j]]))
  }

  lemma AllSameIff(ps: seq<ValuedPath>, order: seq<nat>, written: seq<ValuedPath>, same: seq<bool>)
    requires WrittenInOrder(ps, order, written, same)
    ensures written == InOrder(ps, order) <==> forall i :: 0 <= i < |ps| ==> same[i]
  {
    var qs := InOrder(ps, order);
    assert written == qs <==> forall j :: 0 <= j < |order| ==> written[j] == qs[j];
    if forall j :: 0 <= j < |order| ==> written[j] == qs[j] {
      forall i | 0 <= i < |ps| ensures same[i] {
        assert i in order;
        var j :| 0 <= j < |order| && order[j] == i;
        assert written[j] == qs[j];
      }
    }
  }

  /** A value comes back exactly if its own text is written, and the tree exactly if all are. */
  lemma TreeComesBackIff(t: Fields, ps: seq<ValuedPath>, order: seq<nat>, written: seq<ValuedPath>, same: seq<bool>)
    requires IsFullTree(t) && ListsTexts(t, ps) && WrittenInOrder(ps, order, written, same)
    ensures PutAll(map[], written).Some?
    ensures forall i :: 0 <= i < |ps| ==>
            (TextAt(PutAll(map[], written).value, ps[i].keys) == Some(ps[i].value) <==> same[i])
    ensures PutAll(map[], written).value == t <==> forall i :: 0 <= i < |ps| ==> same[i]
  {
    hide PutAll, IsFullTree, AllFit, PrefixFree, TextAt, ListsTexts;
    InOrderLists(t, ps, order);
    WritesGiveTreeIff(t, InOrder(ps, order), written);
    NoMappingIsLost(map[], written);
    AllSameIff(ps, order, written, same);
    var r := PutAll(map[], written).value;
    forall i | 0 <= i < |ps| ensures TextAt(r, ps[i].keys) == Some(ps[i].value) <==> same[i] {
      assert i in order;
      var j :| 0 <= j < |order| && order[j] == i;
      ListedIsText(t, ps, i);
      EmptyHasNoText(written[j].keys);
    }
  }

  lemma ListedIsText(t: Fields, ps: seq<ValuedPath>, i: nat)
    requires ListsTexts(t, ps) && i < |ps|
    ensures ps[i].value != ""
  {
  }

  lemma EmptyHasNoText(keys: seq<string>)
    ensures TextAt(map[], keys) == None
  {
  }

  lemma OneSurvivesIff(env: Environment, p: ValuedPath, n: SchemaNode, e: Expr)
    requires IsFor(env, p, n, e)
    ensures var w := WrittenFor(n, WrittenText(env, e)); w.keys == p.keys && (w == p <==> Survives(env, n, e))
  {
    hide Deserializable, WrittenText, ComesBack, Render, WritesText;
    WrittenTextIsSameIff(env, e);
    IsWellFormed(env, e);
    TextIsNotEmpty(e);
  }

  lemma OrderedTextsAreWritten(
    env: Environment, ps: seq<ValuedPath>, nodes: seq<SchemaNode>, es: seq<Expr>, order: seq<nat>, same: seq<bool>)
    requires IsDefinition(env, ps, nodes, es) && NoDuplicates(order)
    requires forall j :: 0 <= j < |order| ==> order[j] < |nodes|
    requires forall i :: 0 <= i < |nodes| ==> i in order
    requires |same| == |ps| && forall i :: 0 <= i < |ps| ==> (same[i] <==> Survives(env, nodes[i], es[i]))
    ensures WrittenInOrder(ps, order, TextsInOrder(env, nodes, es, order), same)
  {
    hide IsFor, Survives, WrittenFor, WrittenText;
    forall j | 0 <= j < |order|
      ensures var w := WrittenFor(nodes[order[j]], WrittenText(env, es[order[j]]));
              w.keys == ps[order[j]].keys && (w == ps[order[j]] <==> same[order[j]])
    {
      OneSurvivesIff(env, ps[order[j]], nodes[order[j]], es[order[j]]);
    }
  }

  lemma IndexesAreInside(nodes: seq<SchemaNode>, targets: seq<Key>, order: seq<nat>)
    requires Indexes(nodes, targets, order)
    ensures forall j :: 0 <= j < |order| ==> order[j] < |nodes|
  {
  }

  /** The targets are written as the definition's own paths, in the order of the targets. */
  lemma BodyIsWritten(
    env: Environment, loaded: LoadedNode, t: Fields, ps: seq<ValuedPath>, nodes: seq<SchemaNode>, es: seq<Expr>,
    d: ConnectionDictionary, targets: seq<Key>, same: seq<bool>) returns (order: seq<nat>, written: seq<ValuedPath>)
    requires IsTargetSchema(env, loaded) && ListsTexts(t, ps) && IsDefinition(env, ps, nodes, es)
    requires Acyclic(InGraph(d)) && HoldsAll(env, d, nodes, es) && AreTargets(d, targets)
    requires |same| == |ps| && forall i :: 0 <= i < |ps| ==> (same[i] <==> Survives(env, nodes[i], es[i]))
    ensures forall k :: k in targets ==> IsPlainTargetOf(d, k)
    ensures WrittenInOrder(ps, order, written, same) && GenerateBody(d, targets, map[]) == PutAll(map[], written)
  {
    SizesAgree(env, ps, nodes, es);
    hide *;
    DefinitionIsMapDefinition(env, loaded, t, ps, nodes, es);
    TargetsArePlain(env, loaded, d, ps, nodes, es);
    order := OrderOf(env, d, nodes, es, targets);
    BodyIsPutAll(env, d, nodes, es, targets, order, map[]);
    IndexesAreInside(nodes, targets, order);
    written := TextsInOrder(env, nodes, es, order);
    OrderedTextsAreWritten(env, ps, nodes, es, order, same);
  }

  /** What the targets' texts are after all of them have been written. */
  lemma WrittenBackIff(
    env: Environment, loaded: LoadedNode, t: Fields, ps: seq<ValuedPath>, nodes: seq<SchemaNode>, es: seq<Expr>,
    d: ConnectionDictionary, targets: seq<Key>)
    requires IsTargetSchema(env, loaded) && IsFullTree(t) && ListsTexts(t, ps) && IsDefinition(env, ps, nodes, es)
    requires Acyclic(InGraph(d)) && HoldsAll(env, d, nodes, es) && AreTargets(d, targets)
    ensures forall k :: k in targets ==> IsPlainTargetOf(d, k)
    ensures var r := GenerateBody(d, targets, map[]);
            && r.Some?
            && (forall i :: 0 <= i < |ps| ==>
                  (TextAt(r.value, ps[i].keys) == Some(ps[i].value) <==> Survives(env, nodes[i], es[i])))
            && (r.value == t <==> forall i :: 0 <= i < |ps| ==> Survives(env, nodes[i], es[i]))
  {
    SizesAgree(env, ps, nodes, es);
    hide *;
    var same := seq(|ps|, i requires 0 <= i < |ps| => Survives(env, nodes[i], es[i]));
    var order, written := BodyIsWritten(env, loaded, t, ps, nodes, es, d, targets, same);
    TreeComesBackIff(t, ps, order, written, same);
  }

  /** Reading a definition never fails, and writing what was read, its targets in any order, goes through:
      each value stands again where it was read exactly when its node is one that texts are written for and
      the value comes back; and the definition is the same again exactly when this holds for every value. */
  lemma DefinitionRoundTripIff(
    env: Environment, loaded: LoadedNode, t: Fields, ps: seq<ValuedPath>, nodes: seq<SchemaNode>, es: seq<Expr>)
    requires IsTargetSchema(env, loaded) && IsFullTree(t) && ListsTexts(t, ps) && IsDefinition(env, ps, nodes, es)
    ensures DeserializeAll(env, START_STATE, Mappings(env, None, ps)).Some?
    ensures var d := DeserializeAll(env, START_STATE, Mappings(env, None, ps)).value.connections;
            && Acyclic(InGraph(d))
            && forall targets :: AreTargets(d, targets) ==>
                 && (forall k :: k in targets ==> IsPlainTargetOf(d, k))
                 && var r := GenerateBody(d, targets, map[]);
                    && r.Some?
                    && (forall i :: 0 <= i < |ps| ==>
                          (TextAt(r.value, ps[i].keys) == Some(ps[i].value) <==> Survives(env, nodes[i], es[i])))
                    && (r.value == t <==> forall i :: 0 <= i < |ps| ==> Survives(env, nodes[i], es[i]))
  {
    SizesAgree(env, ps, nodes, es);
    hide *;
    DefinitionIsHeld(env, loaded, t, ps, nodes, es);
    var d := DeserializeAll(env, START_STATE, Mappings(env, None, ps)).value.connections;
    forall targets | AreTargets(d, targets)
      ensures forall k :: k in targets ==> IsPlainTargetOf(d, k)
      ensures var r := GenerateBody(d, targets, map[]);
              && r.Some?
              && (forall i :: 0 <= i < |ps| ==>
                    (TextAt(r.value, ps[i].keys) == Some(ps[i].value) <==> Survives(env, nodes[i], es[i])))
              && (r.value == t <==> forall i :: 0 <= i < |ps| ==> Survives(env, nodes[i], es[i]))
    {
      WrittenBackIff(env, loaded, t, ps, nodes, es, d, targets);
    }
  }

  lemma SizesAgree(env: Environment, ps: seq<ValuedPath>, nodes: seq<SchemaNode>, es: seq<Expr>)
    requires IsDefinition(env, ps, nodes, es)
    ensures |nodes| == |ps| && |es| == |ps|
  {
  }
}