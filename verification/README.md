# The Data Mapper engine

A model of the Data Mapper engine of `libs/data-mapper`, and proofs about it. The engine keeps a
dictionary of connections between the nodes of a source schema, functions, and the nodes of a target
schema. It reads this graph from the text of a map definition, prints it back, and places it on a canvas.

| files | what they hold |
|---|---|
| `Model`, `Graphs`, `Strings`, `Numbers` | keys, nodes, connections; walks, reachability and acyclicity; the JavaScript string operations |
| `Connections`, `ConnectionInvariants`, `SlotContents`, `Traversals`, `Slots` | writing to the connection dictionary, what every run of writes keeps, what each field reads afterwards, the recursive walks over it, slot allocation |
| `Splitter`, `Expressions`, `Printer`, `PseudoFunctions`, `Validity` | cutting a call into its arguments, the text of an expression, printing functions of every kind, and which dictionaries are valid |
| `Deserializer`, `Settling`, `RoundTrip`, `Loops`, `RoundTripPrinting`, `LinkedSources` | building the shared graph from text, for which texts that succeeds and when it leaves a cycle, printing it again, and what every text is linked to |
| `FunctionUtils`, `DirectAccess` | loop variables; the direct-access rewriting |
| `Schemas`, `RepeatingParents` | the schema tree, its index and its search; linking repeating parents |
| `MapWriter`, `MapWrites`, `Definitions` | nested writes in place, what they leave behind, and the values of a whole tree |
| `Serializer`, `DefinitionRoundTrip` | the paths and values written for targets; a whole definition read and written back |
| `Layout`, `LayoutPlacement` | the placement of nodes |
| `Routing`, `PathfindingGrid` | bounding boxes, grid coordinates and the walkable grid |

Code that works step by step on objects is modelled by classes and methods (`ConnectionStore`,
`MapDefinitionDeserializer`, `MapDefinitionEntry`, `CustomLayout`, the grid); each method is proved
equal to a specification on values, or against the property it is for, and the main results are
lemmas about those specifications.

## Where the code and the intention part

These are facts of the code that the statements follow.

- Splitting cuts behind a closing quote and comma at any depth of parentheses, so printing and
  splitting are inverse exactly when no literal is followed by a comma inside a nested call.
- A text that holds '(' is taken apart like a call. A literal such as "Total (USD)" survives that, because
  its parts are linked to nothing. A literal that ends in '(' is its own child, on which the deserializer
  recurses for ever; a known call without its ')' is its own child too, but is remembered by then, and its
  node is linked to itself.
- An attribute of the source schema is printed with "./" in front as an argument of a call, and reading
  does not take that off again.
- The text of a destination is cut at its first dash, and only a guid may follow. A function with a dash in
  its key is therefore not found as a destination, and all its arguments are lost.
- A target node of object type without the Complex property is given no text: a value mapped to it is
  written as an empty object.
- A source path below a loop is written without the loop's key, also outside loops.
- A write by index removes the target from the displaced source's outputs even if that source fills
  another slot, and a null-delete on a bounded slot removes the output but keeps the input. A
  find-slot write to a schema node that does not repeat overwrites slot 0 and leaves the old source's
  output behind. So outputs may be stale, and of all runs only "an input is listed as an output" is kept.
- A function that holds more inputs than it has slots is reported to have room.
- With repeated keys the index holds the last node inside the one that the search finds.
- A function node without inputs that feeds another function is placed at twice the start of the
  function area, because that start is added again at the end.
- A node that only feeds the target schema is placed without a search, so two of them may collide.
- A handle on the far edge of the graph's box, within half a cell, is off the grid, and asking for a grid throws.
- The canvas conversions step with `!==`; they end exactly when the minima are aligned with the grid.
- If a target handle's cell is already cleared by the source handle's ray, nothing is cleared beyond
  it, so the cell after it may stay blocked.

## Model

| member | source | states |
|---|---|---|
| Connections.ConnectionStore.CreateConnectionEntryIfNeeded | libs/data-mapper/src/lib/utils/Connection.Utils.ts:23-49 | a missing entry is made with one empty slot per declared input, the two-field array of an unbounded function, or the single slot of a schema node; an existing entry stays as it is |
| Connections.ConnectionStore.ReleaseDisplaced | libs/data-mapper/src/lib/utils/Connection.Utils.ts:91-108 | a write by index first removes the target from the outputs of the source it displaces, and throws exactly where that source or the slot is missing |
| Connections.ConnectionStore.StoreInSlot | libs/data-mapper/src/lib/utils/Connection.Utils.ts:142-184 | the value goes into the chosen slot: spliced out, replaced, cleared or appended, with the gaps JavaScript leaves filled; every other entry is unchanged |
| Connections.ConnectionStore.ApplyConnectionValue | libs/data-mapper/src/lib/utils/Connection.Utils.ts:63-198 | the step-by-step write equals the specification of one write on the whole dictionary, including which writes are refused and which throw |
| Connections.UniqueUnitsKeys | libs/data-mapper/src/lib/utils/Connection.Utils.ts:256-258 | keeping the first unit of every key loses no key, repeats none, and does nothing to a list without repetitions |
| ConnectionInvariants.ApplyEffect | libs/data-mapper/src/lib/utils/Connection.Utils.ts:63-198 | what one write does to every entry: only the target's inputs change, and outputs change only by losing the target at the displaced source and gaining it once at the new one |
| ConnectionInvariants.ApplyKeepsTidy | libs/data-mapper/src/lib/utils/Connection.Utils.ts:186-197 | after any write, entries know their own key, list each output once, and list only keys that have entries |
| ConnectionInvariants.FindSlotKeepsMirror | libs/data-mapper/src/lib/utils/Connection.Utils.ts:110-197 | every write that finds its own slot keeps each held input listed as an output of its source |
| ConnectionInvariants.IndexedSlotHolds | libs/data-mapper/src/lib/utils/Connection.Utils.ts:91-184 | what is held after a write by index: what was held at a position it leaves alone, and the new source |
| ConnectionInvariants.FoundSlotHolds | libs/data-mapper/src/lib/utils/Connection.Utils.ts:110-184 | what is held after a write that finds its slot: everything but the first input of a schema node that does not repeat, and the new source |
| ConnectionInvariants.IndexWriteKeepsMirrorIff | libs/data-mapper/src/lib/utils/Connection.Utils.ts:91-197 | a write by index keeps the mirror exactly when the displaced source fills no position the write leaves alone, or is put back |
| ConnectionInvariants.WriteKeepsBackedIff | libs/data-mapper/src/lib/utils/Connection.Utils.ts:91-197 | a write leaves no listed output stale exactly when every source that lists the target is released by the write, put in place by it, or held at a position it leaves alone |
| ConnectionInvariants.FunctionWriteLeavesNoneStale | libs/data-mapper/src/lib/utils/Connection.Utils.ts:110-184 | a write to a function that finds its slot leaves no output stale |
| ConnectionInvariants.SecondSourceLeavesStaleOutput | libs/data-mapper/src/lib/utils/Connection.Utils.ts:110-197 | one stale output: the first of two sources written to a schema node that does not repeat |
| ConnectionInvariants.RunStaysMirroredIff | libs/data-mapper/src/lib/utils/Connection.Utils.ts:63-198 | after every write of a run, inputs and outputs mirror each other both ways exactly when every write is safe and leaves no output stale |
| ConnectionInvariants.BackedReverses | libs/data-mapper/src/lib/utils/Connection.Utils.ts:260-379 | where no output is stale, the two graphs are each other's reverse, and one has a cycle exactly when the other has |
| ConnectionInvariants.SafeRunKeepsMirror | libs/data-mapper/src/lib/utils/Connection.Utils.ts:63-198 | the mirror and tidiness hold after every run of writes whose index writes are safe |
| ConnectionInvariants.GuardDecidesCycle | libs/data-mapper/src/lib/utils/Connection.Utils.ts:362-379 | the guard's answer decides whether the outputs graph has a cycle after the link is drawn (both directions for writes that find their slot) |
| ConnectionInvariants.GuardedRunKeepsAcyclic | libs/data-mapper/src/lib/utils/Connection.Utils.ts:362-379 | every guarded run leaves the outputs graph without a cycle |
| ConnectionInvariants.MirrorReverses | libs/data-mapper/src/lib/utils/Connection.Utils.ts:260-379 | under the mirror the inputs graph is part of the outputs graph turned round, so it has no cycle either and its walks meet only existing entries |
| ConnectionInvariants.WalksTerminateAfterEveryRun | libs/data-mapper/src/lib/utils/Connection.Utils.ts:63-379 | from an empty dictionary, every safe and guarded run ends mirrored, tidy and with no cycle either way: all the recursive walks terminate |
| Traversals.CircularLogicIsReachability | libs/data-mapper/src/lib/utils/Connection.Utils.ts:362-379 | the circularity search answers true exactly when the desired input is reachable over outputs |
| Traversals.SpecificInputIsReachability | libs/data-mapper/src/lib/utils/Connection.Utils.ts:287-310 | the search for an input, by a whole key or by part of one, answers true exactly when a key that matches is reachable over inputs |
| Traversals.SpecificOutputIsReachability | libs/data-mapper/src/lib/utils/Connection.Utils.ts:312-334 | the search for an output, by a whole key or by part of one, answers true exactly when a key that matches is reachable over outputs |
| Traversals.CollectChainIsReachSet | libs/data-mapper/src/lib/utils/Connection.Utils.ts:336-360 | each collecting walk returns exactly the units of the reachable keys |
| Traversals.ChainIsInOrder | libs/data-mapper/src/lib/utils/Connection.Utils.ts:336-360 | the chain is the node itself and then, in the order of its neighbours, the chain of each |
| Traversals.SearchAgreesWithCollect | libs/data-mapper/src/lib/utils/Connection.Utils.ts:287-347 | searching for an input and looking it up among the collected source nodes agree |
| ConnectionInvariants.CollectedSourceHasTarget | libs/data-mapper/src/lib/utils/Connection.Utils.ts:336-360 | whatever is collected as a source of a node collects that node as a target |
| SlotContents.IndexPutReadsBack | libs/data-mapper/src/lib/utils/Connection.Utils.ts:142-184 | a put by index reads back exactly what was put, linked or custom, in a slot of its own or a shared array; every other field reads what it read, gaps read undefined, and clearing a slot empties it |
| SlotContents.IndexDeleteRemoves | libs/data-mapper/src/lib/utils/Connection.Utils.ts:142-160 | a delete takes exactly one element out of a shared array and leaves a slot of its own as it is |
| SlotContents.FoundPutOnSchema | libs/data-mapper/src/lib/utils/Connection.Utils.ts:110-184 | a put that finds its slot replaces the first input of a schema node, or is appended where the node repeats, and changes no other field |
| SlotContents.FoundPutOnFunction | libs/data-mapper/src/lib/utils/Connection.Utils.ts:110-184 | on a function it goes to the first field that is open to it, or behind the first array where none is, and changes no other field |
| SlotContents.WriteThrowsIff | libs/data-mapper/src/lib/utils/Connection.Utils.ts:63-184 | a write throws exactly where the slot it reads or writes does not exist, or the source it displaces has no entry |
| Slots.AvailableIffEmptySlot | libs/data-mapper/src/lib/utils/Connection.Utils.ts:240-247 | by pigeonhole, a bounded function reports a free slot exactly when one is empty |
| Slots.AvailableBeyondSlots | libs/data-mapper/src/lib/utils/Connection.Utils.ts:240-247 | a node without an entry or without a limit has room; and so is one reported that already holds more than its slots |
| Slots.LinkStaysWithinIffAvailable | libs/data-mapper/src/lib/utils/Connection.Utils.ts:113-184 | a link keeps at most one input per slot exactly when a slot was reported free; otherwise slot 0 overflows |
| Slots.CustomStaysWithinIff | libs/data-mapper/src/lib/utils/Connection.Utils.ts:113-184 | a custom value stays within the slots exactly when slot 0 is empty or an empty slot allows custom values |
| Slots.NextInputTakesNextSlot | libs/data-mapper/src/lib/utils/Connection.Utils.ts:113-184 | on an entry filled in order, the next input goes to the next slot |
| Slots.FillInOrder | libs/data-mapper/src/lib/utils/Connection.Utils.ts:110-184 | writing any inputs that fit, each to the slot it finds, ends with them in slots 0, 1, 2 and so on |
| Slots.WritesInOrderFillSlots | libs/data-mapper/src/lib/utils/Connection.Utils.ts:63-198 | writing inputs one after another fills slots 0, 1, 2 and so on in the order they came, for bounded and unbounded functions, in a whole run |
| Slots.FilledReadsBackInOrder | libs/data-mapper/src/lib/utils/Connection.Utils.ts:249-249 | flattening a filled entry gives the inputs in order of arrival, then only empty fields |
| Splitter.SplitKeyIntoChildren | libs/data-mapper/src/lib/utils/DataMap.Utils.ts:221-269 | the character loop, with its jump over the comma after a closing quote, computes what the one-character-at-a-time automaton does |
| Splitter.ChildrenArePieces | libs/data-mapper/src/lib/utils/DataMap.Utils.ts:221-269 | for any text, the children are the trimmed pieces between commas: with the commas in between, the pieces are the parameters again |
| Strings.TrimDropsSpace | libs/data-mapper/src/lib/utils/DataMap.Utils.ts:240-262 | trimming drops white space around a text and nothing else, and leaves none at either end |
| Splitter.ChildrenAreShorter | libs/data-mapper/src/lib/utils/DataMap.Utils.ts:221-269 | whenever a '(' comes before the last ')', every child is at least two characters shorter than the text |
| Splitter.UnclosedLiteralIsItsOwnChild | libs/data-mapper/src/lib/utils/DataMap.Utils.ts:221-269 | without a ')' that measure fails: a quoted literal ending in '(' is its own only child |
| Expressions.SplitCountsCuts | libs/data-mapper/src/lib/utils/DataMap.Utils.ts:74-269 | splitting a printed call gives one child per argument plus one per literal that a comma follows inside a nested call |
| Expressions.SplitInvertsCombineIff | libs/data-mapper/src/lib/utils/DataMap.Utils.ts:74-269 | splitting undoes printing exactly when no literal is followed by a comma inside a nested call |
| Expressions.NestedLiteralBreaksRoundTrip | libs/data-mapper/src/lib/utils/DataMap.Utils.ts:247-255 | one printed call whose children are not its arguments |
| Expressions.RenderIsInjective | libs/data-mapper/src/lib/utils/DataMap.Utils.ts:74-92 | among expressions without such literals the text determines the expression |
| Printer.SourceNodeAbove | libs/data-mapper/src/lib/utils/Connection.Utils.ts:260-285 | validity passes to every function one step above, and that function has an entry |
| Printer.ValidityMakesPrintingTotal | libs/data-mapper/src/lib/utils/Connection.Utils.ts:260-285 | a node that passes the source-node check prints without ever meeting a missing connection, however deep the chain |
| Printer.ValidMapPrints | libs/data-mapper/src/lib/utils/DataMap.Utils.ts:100-120 | in a valid dictionary the inputs of every target schema node can be printed |
| Validity.SourceNodeEventuallyIff | libs/data-mapper/src/lib/utils/Connection.Utils.ts:260-285 | the source-node check answers true exactly if every function met on the way up has an entry, and none of them has an empty field without a function beside it |
| Validity.ValidIff | libs/data-mapper/src/lib/utils/DataMap.Utils.ts:100-120 | valid are exactly the dictionaries whose targets all pass that check and whose functions are given every required input in its slot |
| PseudoFunctions.NodePrintsInOrder | libs/data-mapper/src/lib/utils/DataMap.Utils.ts:42-72 | what a node's inputs print: their texts in order, but for the empty ones |
| PseudoFunctions.OrdinaryFunctionPrints | libs/data-mapper/src/lib/utils/DataMap.Utils.ts:74-92 | a function without a meaning of its own prints its name and the texts of its inputs, localized |
| PseudoFunctions.DirectAccessPrints | libs/data-mapper/src/lib/utils/DataMap.Utils.ts:60-66 | a direct access whose inputs print an index, a scope and a path below it prints scope[index]rest, wherever it stands |
| PseudoFunctions.CallOnAccessPrints | libs/data-mapper/src/lib/utils/DataMap.Utils.ts:42-92 | so it does as the argument of a call |
| PseudoFunctions.DirectAccessIsWritten | libs/data-mapper/src/lib/mapDefinitions/MapDefinitionSerializer.ts:145-153 | and as the text that is written for a target |
| PseudoFunctions.FunctionIsWritten | libs/data-mapper/src/lib/mapDefinitions/MapDefinitionSerializer.ts:141-160 | a target's function is written as the text it prints as an input |
| PseudoFunctions.TargetPrintsInput | libs/data-mapper/src/lib/utils/DataMap.Utils.ts:42-72 | a target that holds one input prints its text |
| PseudoFunctions.IndexPrints | libs/data-mapper/src/lib/utils/Function.Utils.ts:82-99 | an index prints the loop variable of the node it is linked to |
| PseudoFunctions.ConditionPrints | libs/data-mapper/src/lib/utils/DataMap.Utils.ts:86-89 | a conditional prints its first input |
| PseudoFunctions.MissingPartsFail | libs/data-mapper/src/lib/utils/DataMap.Utils.ts:42-92 | what cannot be printed: functions without an entry, direct accesses that lack one of three texts, indexes without their slot |
| PseudoFunctions.FailureSpreads | libs/data-mapper/src/lib/utils/DataMap.Utils.ts:42-72 | what cannot be printed makes the nodes it feeds unprintable |
| Deserializer.ReservedTexts | libs/data-mapper/src/lib/utils/DataMap.Utils.ts:163-184 | which texts have a meaning of their own, and a wide class that has not |
| Deserializer.GroupsAreGuid | libs/utils/src/lib/helpers/guid.ts:44-51 | a guid is five groups of hexadecimal digits, with or without braces |
| LinkedSources.DestinationIsFound | libs/data-mapper/src/lib/utils/DataMap.Utils.ts:193-207 | a destination is found exactly if a target node has its key or, for a function's key without a dash, a function has it |
| Deserializer.MapDefinitionDeserializer.LinkSource | libs/data-mapper/src/lib/mapDefinitions/MapDefinitionDeserializer.ts:250-400 | one value is resolved to a node, remembered under its text, and linked to its destination, as the specification of one step says |
| Deserializer.MapDefinitionDeserializer.CreateConnections | libs/data-mapper/src/lib/mapDefinitions/MapDefinitionDeserializer.ts:217-409 | the recursive method, on its memo and its dictionary, computes the specified outcome and terminates |
| Deserializer.MapDefinitionDeserializer.CreateInputs | libs/data-mapper/src/lib/mapDefinitions/MapDefinitionDeserializer.ts:402-408 | the children of a call are created one after another, each against the state the one before left |
| Settling.LinkSucceedsIff | libs/data-mapper/src/lib/mapDefinitions/MapDefinitionDeserializer.ts:250-400 | a link throws exactly for a function that is declared without inputs |
| Settling.CreateSucceedsIff | libs/data-mapper/src/lib/mapDefinitions/MapDefinitionDeserializer.ts:217-409 | as long as nothing reserved is met, which the model counts as not got through: the deserializer gets through a text exactly when none but a call is its own child, no input goes to a function without inputs, and its destination can take it |
| RoundTrip.LinkKeepsSound | libs/data-mapper/src/lib/mapDefinitions/MapDefinitionDeserializer.ts:250-400 | every link keeps the invariant of deserialization: fresh numbered keys, inputs only from shorter texts, the mirror, tidiness, the declared slots |
| RoundTrip.CreateText | libs/data-mapper/src/lib/mapDefinitions/MapDefinitionDeserializer.ts:217-409 | creating a text that settles, and below which no call is linked to itself, never fails, links the children of every call in order or reuses the shared call, and disturbs nothing else |
| LinkedSources.DefinitionIsLinked | libs/data-mapper/src/lib/mapDefinitions/MapDefinitionDeserializer.ts:217-409 | after a definition was read, every target is linked to what its value's text stands for, the source node with that key, a node made for the function it calls, or the text itself; so are, however deep, the arguments of calls, each in its place; and every linked node's entry lists its holder |
| LinkedSources.SourcePathIsLinked | libs/data-mapper/src/lib/mapDefinitions/MapDefinitionDeserializer.ts:247-397 | a value that is the key of a source node links its target to that node, whose entry lists the target |
| LinkedSources.BuiltCallIsLinked | libs/data-mapper/src/lib/mapDefinitions/MapDefinitionDeserializer.ts:402-408 | the node made for a call holds, for each argument in order, what its text stands for |
| RoundTripPrinting.ParenthesizedLiteralIsRead | libs/data-mapper/src/lib/mapDefinitions/MapDefinitionDeserializer.ts:217-409 | an ordinary literal with a part in parentheses is one of the values that are read and printed back |
| Settling.DeserializeSucceedsIff | libs/data-mapper/src/lib/mapDefinitions/MapDefinitionDeserializer.ts:217-409 | the same for a whole definition: the deserializer gets through it exactly when every value's text settles |
| Loops.DefinitionTraces | libs/data-mapper/src/lib/mapDefinitions/MapDefinitionDeserializer.ts:217-409 | every call that is its own child is linked to itself once its children are there, and one has been met exactly when the text of some value has one below it |
| Loops.DeserializedIsAcyclicIff | libs/data-mapper/src/lib/mapDefinitions/MapDefinitionDeserializer.ts:217-409 | the graph that a definition is read into has no cycle exactly when no text met in any of its values is a call that is its own child and whose node takes it; otherwise along every link texts get shorter |
| Loops.UnclosedCallLinksItself | libs/data-mapper/src/lib/mapDefinitions/MapDefinitionDeserializer.ts:402-408 | one graph with a cycle: a known call without its ')' is got through, and leaves its node linked to itself |
| RoundTripPrinting.BuiltPrints | libs/data-mapper/src/lib/utils/DataMap.Utils.ts:42-92 | a built expression prints its own text, localized or not, but for the arguments of functions with a dash in their key, and for the attributes below a call, which get './' in front |
| RoundTripPrinting.ShownIsSameIff | libs/data-mapper/src/lib/utils/DataMap.Utils.ts:42-92 | that text is the expression's own exactly when no function with a dash in its key has arguments and no attribute is localized, below a call or by itself |
| RoundTripPrinting.DeserializeThenPrintIsIdentity | libs/data-mapper/src/lib/mapDefinitions/MapDefinitionDeserializer.ts:217-409 | deserializing a map definition never fails and leaves a mirrored graph without a cycle; printing a target gives back its value's text, however many calls the values share, exactly when no function with a dash in its key has arguments and no attribute is localized |
| FunctionUtils.FindFunctionForFunctionName | libs/data-mapper/src/lib/utils/Function.Utils.ts:53-54 | the result is the first function of that name, and there is none only if no function has it |
| FunctionUtils.FindFunctionForKey | libs/data-mapper/src/lib/utils/Function.Utils.ts:56-57 | the result is the first function of that key, and there is none only if no function has it |
| FunctionUtils.CalculateIndexValue | libs/data-mapper/src/lib/utils/Function.Utils.ts:101-115 | the loop terminates with the letters for the number of repeating nodes on the path |
| FunctionUtils.LettersCountRepeatingNodes | libs/data-mapper/src/lib/utils/Function.Utils.ts:101-115 | the letters, counted a = 1 to z = 26, add up to the number of repeating nodes |
| FunctionUtils.LoopVariable | libs/data-mapper/src/lib/utils/Function.Utils.ts:101-115 | a loop variable is a dollar sign and letters that count the repeating nodes of the path, all but the last of them 'z' |
| FunctionUtils.PatternsExpand | libs/data-mapper/src/lib/utils/Function.Utils.ts:117-119 | what each of the four patterns of a replacement text stands for |
| FunctionUtils.IndexValueIsInjective | libs/data-mapper/src/lib/utils/Function.Utils.ts:101-115 | two nodes have the same index variable exactly when equally many repeating nodes are on their paths |
| FunctionUtils.LoopsOnOnePathDiffer | libs/data-mapper/src/lib/utils/Function.Utils.ts:101-115 | two loops on one path to the root never share an index variable |
| DirectAccess.AmendSourceKeyForDirectAccessIfNeeded | libs/data-mapper/src/lib/utils/DataMap.Utils.ts:122-161 | the two character loops and the substrings compute the specified rewriting |
| DirectAccess.AmendFindsAccess | libs/data-mapper/src/lib/utils/DataMap.Utils.ts:122-161 | amending an access, alone or as an argument of a call, replaces exactly the access by its call, whatever the index holds |
| DirectAccess.SplitAccessCall | libs/data-mapper/src/lib/utils/DataMap.Utils.ts:221-269 | splitting the call of an access returns its index, scope and target |
| DirectAccess.FormatGivesAccess | libs/data-mapper/src/lib/utils/Function.Utils.ts:117-119 | formatting the three parts writes the index behind the scope, for texts without replacement patterns |
| DirectAccess.DirectAccessRoundTrip | libs/data-mapper/src/lib/utils/DataMap.Utils.ts:122-269 | format, amend, split and format again: the access comes back, alone or inside a call |
| DirectAccess.PathAccessRoundTrip | libs/data-mapper/src/lib/utils/DataMap.Utils.ts:122-269 | for schema paths, which hold no separators, only the index has to be a whole text for that |
| DirectAccess.NoAccessStays | libs/data-mapper/src/lib/utils/DataMap.Utils.ts:122-161 | a text without brackets is left alone |
| DirectAccess.AccessIsWhole | libs/data-mapper/src/lib/utils/DataMap.Utils.ts:221-269 | an access with a whole index is kept in one piece by splitting, so indices may nest to any depth |
| RepeatingParents.AddParentConnectionForRepeatingElementsNested | libs/data-mapper/src/lib/utils/DataMap.Utils.ts:379-437 | the recursive method terminates, because the source's path shrinks, and computes the specified dictionary and answer |
| RepeatingParents.FirstRepeatingNode | libs/data-mapper/src/lib/utils/DataMap.Utils.ts:387-397 | the last repeating item of a path is an indexed repeating node whose parent's path is what precedes it |
| RepeatingParents.LinkKeepsReady | libs/data-mapper/src/lib/utils/DataMap.Utils.ts:406-418 | linking two repeating nodes never throws, adds exactly one edge over inputs, closes no cycle and keeps every requirement of the walk |
| RepeatingParents.LinksEveryRepeatingParent | libs/data-mapper/src/lib/utils/DataMap.Utils.ts:379-437 | every repeating ancestor-or-self of the source becomes an eventual input of its partner among the target's; no link is lost, and every new one joins such a pair |
| RepeatingParents.AddsUnlessAllLinked | libs/data-mapper/src/lib/utils/DataMap.Utils.ts:398-432 | the walk answers true, and changes the dictionary, exactly when some pair was not linked |
| RepeatingParents.SecondWalkDoesNothing | libs/data-mapper/src/lib/utils/DataMap.Utils.ts:379-437 | an immediate second walk returns false and changes nothing |
| Schemas.SearchChildrenNodeForKey | libs/data-mapper/src/lib/utils/Schema.Utils.ts:120-135 | the loop that overwrites its result finds what the specification of the search finds |
| Schemas.NodeCount | libs/data-mapper/src/lib/utils/Schema.Utils.ts:213-220 | the count equals the number of flattened nodes |
| Schemas.FlattenSchemaIntoDictionary | libs/data-mapper/src/lib/utils/Schema.Utils.ts:74-86 | looking a key up gives the last flattened node with that key, and only prefixed keys occur |
| Schemas.IndexedIsBelowFound | libs/data-mapper/src/lib/utils/Schema.Utils.ts:74-135 | of all nodes with a key the index holds the last one inside the node that the search finds |
| Schemas.IndexAgreesWithSearchIff | libs/data-mapper/src/lib/utils/Schema.Utils.ts:74-135 | index and search agree on a key, present or absent, exactly when the last node with that key, in document order, is not below another node with it |
| Schemas.UniqueKeysAgree | libs/data-mapper/src/lib/utils/Schema.Utils.ts:74-135 | in a tree with unique keys index and search agree on every key, present or absent |
| Schemas.ConvertingKeepsNodes | libs/data-mapper/src/lib/utils/Schema.Utils.ts:33-61 | converting a schema gives one node for every loaded one, in order, with its key, name, type and properties, its parent's key, and itself at the end of its parent's path |
| Schemas.ConvertedPaths | libs/data-mapper/src/lib/utils/Schema.Utils.ts:33-61 | in a converted tree every node's path is its parent's path and itself, and its parent key is its parent's key |
| Schemas.ConvertedIndexIsConsistent | libs/data-mapper/src/lib/utils/Schema.Utils.ts:33-86 | the index of a converted schema with unique keys holds every node's parent under its parent key |
| MapWriter.MapDefinitionEntry.ApplyValueAtPath | libs/data-mapper/src/lib/mapDefinitions/MapDefinitionSerializer.ts:349-384 | the write on nested objects, in place, leaves the contents that the specification of one write gives, or throws where it does |
| MapWriter.MapDefinitionEntry.ApplyBelow | libs/data-mapper/src/lib/mapDefinitions/MapDefinitionSerializer.ts:349-384 | writing below a key changes nothing beside it |
| MapWriter.MapDefinitionEntry.Attach | libs/data-mapper/src/lib/mapDefinitions/MapDefinitionSerializer.ts:367-369 | putting an object under a key changes that key only |
| MapWrites.PutThrowsIff | libs/data-mapper/src/lib/mapDefinitions/MapDefinitionSerializer.ts:349-384 | a write throws exactly when a text stands on the way |
| MapWrites.ReadsBackOwn | libs/data-mapper/src/lib/mapDefinitions/MapDefinitionSerializer.ts:349-384 | a write that goes through reads back its value; one without a value leaves the text that was there |
| MapWrites.OtherPathsUnchanged | libs/data-mapper/src/lib/mapDefinitions/MapDefinitionSerializer.ts:349-384 | a path off the written one reads what it read before |
| MapWrites.SecondWriteKeepsFirstIff | libs/data-mapper/src/lib/mapDefinitions/MapDefinitionSerializer.ts:349-384 | a second write leaves the first value standing exactly when the two paths are apart, the mappings are the same, or the second has no value and ends at the first or above it |
| MapWrites.WritesCommute | libs/data-mapper/src/lib/mapDefinitions/MapDefinitionSerializer.ts:349-384 | writes to paths that are apart can be exchanged |
| MapWrites.NoMappingIsLost | libs/data-mapper/src/lib/mapDefinitions/MapDefinitionSerializer.ts:83-110 | after all writes to prefix-free paths every mapping reads back its value, a path written without one the text it had, and every other path what it read before |
| MapWrites.OrderDoesNotMatter | libs/data-mapper/src/lib/mapDefinitions/MapDefinitionSerializer.ts:83-110 | the tree after all writes does not depend on their order |
| MapWrites.EmptyDefinitionTakesAll | libs/data-mapper/src/lib/mapDefinitions/MapDefinitionSerializer.ts:83-110 | into an empty definition every prefix-free set of writes goes through |
| Definitions.SameTextsSameTree | libs/data-mapper/src/lib/mapDefinitions/MapDefinitionSerializer.ts:349-384 | a tree without empty texts and empty objects is determined by its texts |
| Definitions.ListedTreeIsWritten | libs/data-mapper/src/lib/mapDefinitions/MapDefinitionSerializer.ts:83-110 | writing the values of such a tree, in whatever order they are listed, gives the tree |
| Definitions.WritesGiveTreeIff | libs/data-mapper/src/lib/mapDefinitions/MapDefinitionSerializer.ts:83-110 | writing to all paths of such a tree, with values or without, goes through, and gives the tree exactly when every value is the tree's own |
| Serializer.CreateNewPathItems | libs/data-mapper/src/lib/mapDefinitions/MapDefinitionSerializer.ts:112-211 | the loop over a node's path to the root pushes one key per name, an attribute's marked, and the value under an extra key, under the last name, or nowhere, by the node's property and type |
| Serializer.ValueIsWrittenIff | libs/data-mapper/src/lib/mapDefinitions/MapDefinitionSerializer.ts:195-204 | a value reads back where it is written exactly for a node with the Complex property or not of object type; for the others the text there does not change |
| Serializer.ObjectValueIsLost | libs/data-mapper/src/lib/mapDefinitions/MapDefinitionSerializer.ts:203 | one value that is lost: a node of object type without the Complex property gets an empty object |
| Serializer.ComplexValueHasKey | libs/data-mapper/src/lib/mapDefinitions/MapDefinitionSerializer.ts:195-199 | with the Complex property the value stands under a key of its own |
| Serializer.AttributeIsMarked | libs/data-mapper/src/lib/mapDefinitions/MapDefinitionSerializer.ts:200-203 | an attribute's value stands under its marked name |
| Serializer.LoopIsLast | libs/data-mapper/src/lib/mapDefinitions/MapDefinitionSerializer.ts:182 | the loop that a source path is made relative to is the last repeating item of its path other than the value itself |
| Serializer.LocalBelowLoop | libs/data-mapper/src/lib/mapDefinitions/MapDefinitionSerializer.ts:182-190 | a path below its loop is written as what follows the loop's key, with './' in front of an attribute of the loop |
| Serializer.LoopIsDot | libs/data-mapper/src/lib/mapDefinitions/MapDefinitionSerializer.ts:184-186 | the loop's own node is written as a dot |
| Serializer.FirstFieldDecides | libs/data-mapper/src/lib/mapDefinitions/MapDefinitionSerializer.ts:160-164 | all inputs of a target are made relative by the first field of its first slot |
| Serializer.ConditionalByKey | libs/data-mapper/src/lib/mapDefinitions/MapDefinitionSerializer.ts:129 | an input counts as a conditional by the first letters of its node's key |
| Serializer.LastInputStands | libs/data-mapper/src/lib/mapDefinitions/MapDefinitionSerializer.ts:100-109 | where a target has several inputs, the text of the last one stands there in the end |
| Serializer.OnlyGivenInputsMatter | libs/data-mapper/src/lib/mapDefinitions/MapDefinitionSerializer.ts:100-109 | empty fields of a target are passed over |
| Serializer.OnlyWrittenTargetsMatter | libs/data-mapper/src/lib/mapDefinitions/MapDefinitionSerializer.ts:89-98 | targets that repeat are passed over |
| Serializer.LocalValueIsSameIff | libs/data-mapper/src/lib/mapDefinitions/MapDefinitionSerializer.ts:180-192 | a source path is written as it is exactly when no loop's key is cut off it and nothing is put in front |
| Serializer.WriteTarget | libs/data-mapper/src/lib/mapDefinitions/MapDefinitionSerializer.ts:100-109 | the inputs of a target are written one after another, in place, as specified, or throw where specified |
| Serializer.GenerateMapDefinitionBody | libs/data-mapper/src/lib/mapDefinitions/MapDefinitionSerializer.ts:83-110 | the loop over the targets leaves the contents that writing them one after another specifies, or throws where it does |
| Serializer.TargetsCoexistIff | libs/data-mapper/src/lib/mapDefinitions/MapDefinitionSerializer.ts:112-211 | different values can be written for two schema nodes, in either order, exactly when no text stands above the other node, at the place of the other's text, or where the fields of a Complex node go |
| DefinitionRoundTrip.ParseDefinitionToConnection | libs/data-mapper/src/lib/mapDefinitions/MapDefinitionDeserializer.ts:85-105 | the recursion over a nested definition, its fields in any order, deserializes all the values the tree lists, each for the target path its keys lead to |
| DefinitionRoundTrip.CallChildObjects | libs/data-mapper/src/lib/mapDefinitions/MapDefinitionDeserializer.ts:122-215 | going through the fields of an object, in any order, does so for every field, and stops where one throws |
| DefinitionRoundTrip.ConvertFromMapDefinition | libs/data-mapper/src/lib/mapDefinitions/MapDefinitionDeserializer.ts:53-67 | one root of a definition is read, with all the values it lists |
| DefinitionRoundTrip.WrittenPathIsRead | libs/data-mapper/src/lib/mapDefinitions/MapDefinitionDeserializer.ts:119-215 | the keys that a schema node is written under lead, when they are read, to the node's own key, which finds the node |
| DefinitionRoundTrip.RepeatedKeyIsNotRead | libs/data-mapper/src/lib/mapDefinitions/MapDefinitionDeserializer.ts:168-200 | a key that repeats the end of its path, where the schema has no node for it, is not read, and nothing below it is |
| DefinitionRoundTrip.OnlyOneRoot | libs/data-mapper/src/lib/mapDefinitions/MapDefinitionDeserializer.ts:53-67 | a definition of values for one target schema has no other root, so all of it is read |
| DefinitionRoundTrip.DefinitionIsHeld | libs/data-mapper/src/lib/mapDefinitions/MapDefinitionDeserializer.ts:53-409 | reading a definition never fails, and every target then holds one input, its value's text, and there are no other targets |
| DefinitionRoundTrip.WrittenTextIsSameIff | libs/data-mapper/src/lib/mapDefinitions/MapDefinitionSerializer.ts:127-192 | the text written for a value that was read is the value's own exactly when no loop's key is cut off it and, in a call, no function with a dash in its key has arguments and no argument is an attribute |
| DefinitionRoundTrip.DefinitionRoundTripIff | libs/data-mapper/src/lib/mapDefinitions/MapDefinitionSerializer.ts:83-211 | a definition, read into connections and written back with its targets in any order: each value stands again where it was read exactly when its node is given texts and its text comes back, and the tree is the same tree exactly when this holds for every value |
| Layout.InputIsPlaceable | libs/data-mapper/src/lib/utils/Layout.Utils.ts:208-268 | an input of a function node is never left for the toolbar or for the target schema, so the recursive call always places it |
| Layout.RightOfEveryInput | libs/data-mapper/src/lib/utils/Layout.Utils.ts:310-326 | a function node's offset is at least one interval more than each of its inputs' |
| Layout.OffsetIsWidestChain | libs/data-mapper/src/lib/utils/Layout.Utils.ts:284-330 | a node's offset is the width of its widest input chain: no chain is wider and some chain is as wide |
| Layout.SlotsApart | libs/data-mapper/src/lib/utils/Layout.Utils.ts:284-293 | no two toolbar slots collide |
| Layout.TwoSpotsPerBlocker | libs/data-mapper/src/lib/utils/Layout.Utils.ts:339-357 | each node blocks at most two of the downward spots, so n blocked spots need n/2 nodes |
| LayoutPlacement.PlaceSchemaNodes | libs/data-mapper/src/lib/utils/Layout.Utils.ts:193-200 | schema nodes are stacked from the top in the order they are listed |
| LayoutPlacement.FindFreeSpot | libs/data-mapper/src/lib/utils/Layout.Utils.ts:332-357 | the search ends at the first spot, in its down-up order, that collides with no other node, after fewer than four tries per other node |
| LayoutPlacement.TriesAreBounded | libs/data-mapper/src/lib/utils/Layout.Utils.ts:349-354 | if the spots tried so far all collide, there are enough other nodes to block them |
| LayoutPlacement.BesideInputs | libs/data-mapper/src/lib/utils/Layout.Utils.ts:310-327 | right of the rightmost input and level with the average of all inputs; one input is the same rule |
| LayoutPlacement.CustomLayout.LocateInput | libs/data-mapper/src/lib/utils/Layout.Utils.ts:219-240 | an input is placed first if it has to be, and is then known with its offset |
| LayoutPlacement.CustomLayout.CompileInputPositionsAndOutputDetails | libs/data-mapper/src/lib/utils/Layout.Utils.ts:208-270 | the edge loop returns the positions of exactly the inputs, counts the outputs, and moves no placed node |
| LayoutPlacement.CustomLayout.CalculateFnNodePosition | libs/data-mapper/src/lib/utils/Layout.Utils.ts:272-366 | the recursion over input chains terminates; the node lands in its toolbar slot, at the first free spot from its wanted height, or on the waiting list, and no placed node moves, not even one that is placed again |
| LayoutPlacement.CustomLayout.Place | libs/data-mapper/src/lib/utils/Layout.Utils.ts:329-366 | the final coordinate is the first free spot from the wanted height, and placing a node again does not move it |
| LayoutPlacement.PlacingAgainMovesNothing | libs/data-mapper/src/lib/utils/Layout.Utils.ts:329-366 | a node that is placed again, after whatever was placed in between, ends at the coordinate it had |
| LayoutPlacement.FirstFreeStays | libs/data-mapper/src/lib/utils/Layout.Utils.ts:332-357 | placing further nodes leaves a node at the first spot that is free from its wanted height |
| LayoutPlacement.CustomLayout.PlaceFunctionNodes | libs/data-mapper/src/lib/utils/Layout.Utils.ts:368-370 | after the loop exactly the nodes that do not wait for the target schema are placed, and the waiting list holds the others in order |
| LayoutPlacement.CustomLayout.PlaceWaitingNodes | libs/data-mapper/src/lib/utils/Layout.Utils.ts:379-394 | each waiting node goes to the farthest column, level with the average of the targets it feeds; nobody else moves |
| LayoutPlacement.CustomLayout.ApplyCustomLayout | libs/data-mapper/src/lib/utils/Layout.Utils.ts:180-404 | the finished layout: every node in its column and at the first free spot from its wanted height, no two function nodes colliding apart from waiting ones, nothing right of the farthest column; and the size of the diagram |
| LayoutPlacement.SchemasAreStacked | libs/data-mapper/src/lib/utils/Layout.Utils.ts:193-200 | in a finished layout each schema stands in one column from the top, every card 8 pixels below the one before it, so that no two overlap |
| LayoutPlacement.Measures | libs/data-mapper/src/lib/utils/Layout.Utils.ts:185-192 | the intervals, thresholds and starts of the layout in pixels |
| LayoutPlacement.CentralHeight | libs/data-mapper/src/lib/utils/Layout.Utils.ts:298-307 | a function without inputs that feeds another wants to be level with the middle source node, or two intervals down |
| LayoutPlacement.SpotsInOrder | libs/data-mapper/src/lib/utils/Layout.Utils.ts:332-357 | the spots are tried an interval below the wanted height, one above, two below, two above, and so on, none above the top |
| LayoutPlacement.WantedIsMiddle | libs/data-mapper/src/lib/utils/Layout.Utils.ts:310-326 | a node with inputs wants to be level with their middle |
| LayoutPlacement.AverageIsMiddle | libs/data-mapper/src/lib/utils/Layout.Utils.ts:318-326 | n times the average of n heights is their sum |
| LayoutPlacement.LevelWithOnlyTarget | libs/data-mapper/src/lib/utils/Layout.Utils.ts:379-394 | a node that feeds one target and nothing else ends level with it |
| LayoutPlacement.WaitingNodesCollideIff | libs/data-mapper/src/lib/utils/Layout.Utils.ts:379-394 | two nodes that wait for the target schema collide exactly when the averages of the heights they feed are closer than the threshold |
| LayoutPlacement.SameTargetCollides | libs/data-mapper/src/lib/utils/Layout.Utils.ts:379-394 | two of them that feed one and the same target end on top of each other |
| LayoutPlacement.LeftToRight | libs/data-mapper/src/lib/utils/Layout.Utils.ts:310-377 | in a finished layout every function node is at least one interval right of each input, and every target schema node right of all function nodes |
| Routing.GenerateBoundingBoxes | libs/data-mapper/src/lib/utils/Edge.Utils.ts:90-201 | the loop over running minima and maxima gives every node's box and the rounded extreme of all boxes |
| Routing.BoxCoversNode | libs/data-mapper/src/lib/utils/Edge.Utils.ts:96-134 | a box covers its node with the padding, and is aligned with the grid if it is rounded |
| Routing.BoxIsTight | libs/data-mapper/src/lib/utils/Edge.Utils.ts:96-155 | it reaches less than a cell beyond the padded node, its corners are those of a rectangle, and what is not known of the node counts as a pixel at the origin |
| Routing.GraphBoxIsTight | libs/data-mapper/src/lib/utils/Edge.Utils.ts:157-201 | the graph's box keeps twice the padding from every box, and ends less than a cell beyond that around some box, on every side |
| Routing.NoNodesNoBox | libs/data-mapper/src/lib/utils/Edge.Utils.ts:91-94 | without nodes the graph's box is inside out |
| Routing.EveryBoxHasMargin | libs/data-mapper/src/lib/utils/Edge.Utils.ts:90-201 | every node's box lies inside the graph's box with at least one cell of margin on every side |
| PathfindingGrid.SteppingEndsIff | libs/data-mapper/src/lib/utils/Edge.Utils.ts:210-232 | stepping a reference towards 1 comes to an end exactly for whole references, that is for aligned minima |
| PathfindingGrid.ConvertCanvasToGridPoint | libs/data-mapper/src/lib/utils/Edge.Utils.ts:203-235 | for aligned minima the stepping loops terminate with the scaled and shifted point |
| PathfindingGrid.ConvertGridToCanvasPoint | libs/data-mapper/src/lib/utils/Edge.Utils.ts:237-269 | for aligned minima the stepping loops terminate with the point scaled and shifted back |
| PathfindingGrid.ConversionsAreInverse | libs/data-mapper/src/lib/utils/Edge.Utils.ts:203-269 | the two conversions undo each other, both ways |
| PathfindingGrid.AlignedIffOnGrid | libs/data-mapper/src/lib/utils/Edge.Utils.ts:203-235 | exactly the aligned coordinates fall on grid points |
| PathfindingGrid.CellsKeepMargin | libs/data-mapper/src/lib/utils/Edge.Utils.ts:283-299 | the cells of a side stay inside the allocated grid, off its first two cells and its last |
| PathfindingGrid.GeneratedBoxesFit | libs/data-mapper/src/lib/utils/Edge.Utils.ts:90-201 | the boxes generated for any nodes, with positive padding, fit into the grid allocated for them |
| PathfindingGrid.CoveredIffInside | libs/data-mapper/src/lib/utils/Edge.Utils.ts:283-299 | seen from the canvas, a box takes the cells whose points lie in it, but for its right and lower edge |
| PathfindingGrid.HandleCellIsNearest | libs/data-mapper/src/lib/utils/Edge.Utils.ts:301-318 | the point of a handle's cell is no further than half a cell from the handle |
| PathfindingGrid.HandleOnBoxIsOnGrid | libs/data-mapper/src/lib/utils/Edge.Utils.ts:301-318 | a handle on or inside a node's box gets a cell of that box or on its edges, so it is on the grid |
| PathfindingGrid.HandleIsOnGridIff | libs/data-mapper/src/lib/utils/Edge.Utils.ts:301-318 | exactly which handles are on the grid: from one and a half cells before the graph's box to half a cell before its far edge |
| PathfindingGrid.RayIsStraight | libs/data-mapper/src/lib/utils/Edge.Utils.ts:67-78 | stepping k times from a cell leads k cells straight in the given direction |
| PathfindingGrid.GuaranteeWalkablePath | libs/data-mapper/src/lib/utils/Edge.Utils.ts:80-88 | the walk ends inside the grid at the first walkable cell of the ray and turns exactly the cells before it walkable |
| PathfindingGrid.BlockedStartIsCleared | libs/data-mapper/src/lib/utils/Edge.Utils.ts:80-88 | a blocked start is on the cleared stretch, and the next cell is on it or ends it |
| PathfindingGrid.BlockNodes | libs/data-mapper/src/lib/utils/Edge.Utils.ts:288-299 | exactly the cells that some node covers are blocked, all inside the grid, and the outermost ring stays free |
| PathfindingGrid.LeaveHandle | libs/data-mapper/src/lib/utils/Edge.Utils.ts:321-328 | exactly the cells before the first walkable one are cleared; the handle ends walkable, and the next cell exactly if the handle was blocked or the cell was walkable |
| PathfindingGrid.StretchIsUnique | libs/data-mapper/src/lib/utils/Edge.Utils.ts:80-88 | the cleared stretch is determined by the nodes |
| PathfindingGrid.GeneratePathfindingGrid | libs/data-mapper/src/lib/utils/Edge.Utils.ts:271-331 | the whole grid cell by cell, with each handle's stretch ending at the first cell that is free by then; which handles throw; and that the end of the path is walkable exactly if its handle's cell was still blocked or the cell itself is free |
| PathfindingGrid.PathEndMayStayBlocked | libs/data-mapper/src/lib/utils/Edge.Utils.ts:321-328 | one path end that stays blocked, because its handle lies on the stretch cleared for the other one |

## Left out

- Keys are values of a datatype instead of text, and generated guids are numbers; a schema path whose
  text looks like a function key with a guid, and a function key that contains `target-`, are outside it.
- Type compatibility, deletion, undo and the other reducers of the state slice are left out.
- StoreInSlot: clearing a slot by index that is not declared throws, as every other write there does; the
  source adds a stray field instead if the entry was made by the same write.
- ApplyConnectionValue: the same case, and the dictionary that a throw leaves behind is not described. A
  function is taken to declare as many inputs as its maximum.
- Strings are sequences of Unicode scalar values rather than UTF-16 units, numbers on the canvas are reals
  without rounding errors, and an undefined text prints like an empty one.
- `$for`, `$if` and `*` in map definitions, index variables and direct accesses inside the deserializer, the
  regular expressions of loop keys, and the order of target nodes are left out. `Create` is undefined on the
  reserved texts these start from.
- CreateConnections: index variables, direct accesses and the other reserved texts are not gone on with.
- CreateSucceedsIff: so texts that visit one count as not got through.
- DeserializeSucceedsIff: the same for definitions.
- DeserializeThenPrintIsIdentity: claimed for known functions with no more arguments than they take, custom
  values only where allowed, and no literal that is the path of an attribute, precedes a comma inside a nested
  call, or holds text that does not settle or is linked to itself.
- CreateNewPathItems: paths through loops, conditionals and array items are left out.
- ParseDefinitionToConnection: arrays in a definition are left out.
- CallChildObjects: a key that repeats the end of its path and names no node is not read, and only keys
  without the syntax of loops and conditionals are modelled. Where a conditional for the object exists, the
  source then connects the common parent of the values below that key.
- ConvertFromMapDefinition: the map header, and the cleanup of connections around `if` nodes at the end, are
  left out; which root is read, if there are several, is open.
- DefinitionRoundTripIff: for targets outside loops and array items, and trees without empty texts and empty
  objects. A value that is a call must not be of a function whose key begins with `if`, which the source
  writes as a condition.
- ConvertedPaths: parsing the property string of a node and the index of an array item are left out.
- ApplyValueAtPath: array items, which are merged shallowly, are left out, and so are the order of keys and
  keys that are names of built-in string properties. It is carried out by recursion into the nested object
  where the source moves a reference.
- FormatGivesAccess: scopes and indices must not hold one of the four `$` patterns of replace(), which
  formatting would expand.
- AddParentConnectionForRepeatingElementsNested: requires the roots not to repeat and the target's path to be
  indexed; without them the source reads a field of an undefined node.
- ApplyCustomLayout: graphs with a cycle over inputs, on which the recursion has no end, are left out, and so is
  the conversion from connections to a layout tree.
- GenerateBoundingBoxes: a grid size of zero, which divides by zero, is excluded.
- Path search, SVG text, bend offsets and curves are left out.
