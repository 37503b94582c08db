/** Loop index variables and the text of a direct access (Function.Utils.ts). */
module FunctionUtils {
  import opened Model
  import opened Strings

  const INDEX_KEY := "index"
  const IF_KEY := "if"
  const DIRECT_ACCESS_KEY := "directAccess"

  function FindFunctionForFunctionName(name: string, functions: seq<FunctionData>): (r: Option<FunctionData>)
    ensures r.Some? ==> r.value.functionName == name
    ensures r.Some? ==>
              exists i :: 0 <= i < |functions| && functions[i] == r.value
                          && forall j :: 0 <= j < i ==> functions[j].functionName != name
    ensures r.None? ==> forall f :: f in functions ==> f.functionName != name
  {
    if functions == [] then None
    else if functions[0].functionName == name then Some(functions[0])
    else FindFunctionForFunctionName(name, functions[1..])
  }

  function FindFunctionForKey(key: string, functions: seq<FunctionData>): (r: Option<FunctionData>)
    ensures r.Some? ==> r.value.key == key
    ensures r.Some? ==>
              exists i :: 0 <= i < |functions| && functions[i] == r.value
                          && forall j :: 0 <= j < i ==> functions[j].key != key
    ensures r.None? ==> forall f :: f in functions ==> f.key != key
  {
    if functions == [] then None
    else if functions[0].key == key then Some(functions[0])
    else FindFunctionForKey(key, functions[1..])
  }

  // ----- loop index variables

  function RepeatingCount(path: seq<PathItem>): nat {
    if path == [] then 0
    else (if path[0].repeating then 1 else 0) + RepeatingCount(path[1..])
  }

  function LoopLetters(n: nat): string {
    if n == 0 then ""
    else if n >= 26 then "z" + LoopLetters(n - 26)
    else [(96 + n) as char]
  }

  function IndexValue(node: SchemaNode): string {
    "$" + LoopLetters(RepeatingCount(node.pathToRoot))
  }

  method CalculateIndexValue(node: SchemaNode) returns (result: string)
    ensures result == IndexValue(node)
  {
    var repeatedNodes := RepeatingCount(node.pathToRoot);
    result := "$";
    while repeatedNodes > 0
      invariant result + LoopLetters(repeatedNodes) == IndexValue(node)
    {
      if repeatedNodes >= 26 {
        assert result + LoopLetters(repeatedNodes) == result + "z" + LoopLetters(repeatedNodes - 26);
        result := result + "z";
        repeatedNodes := repeatedNodes - 26;
      } else {
        result := result + [(96 + repeatedNodes) as char];
        break;
      }
    }
  }

  /** The letters counted a = 1 to z = 26. */
  function LetterSum(letters: string): int {
    if letters == "" then 0 else letters[0] as int - 96 + LetterSum(letters[1..])
  }

  lemma {:induction false} LettersCountRepeatingNodes(n: nat)
    ensures LetterSum(LoopLetters(n)) == n
    ensures forall c :: c in LoopLetters(n) ==> 'a' <= c <= 'z'
  {
    if n >= 26 {
      LettersCountRepeatingNodes(n - 26);
      assert LoopLetters(n)[1..] == LoopLetters(n - 26);
    }
  }

  /** The repeating nodes of a path, counted one by one. */
  lemma {:induction false} RepeatingCountCounts(path: seq<PathItem>)
    ensures RepeatingCount(path) == |RepeatingIndexes(path)|
  {
    if path != [] {
      var last := |path| - 1;
      RepeatingCountCounts(path[..last]);
      RepeatingCountConcat(path[..last], [path[last]]);
      assert path == path[..last] + [path[last]];
      assert RepeatingIndexes(path) ==
             RepeatingIndexes(path[..last]) + if path[last].repeating then {last} else {};
    }
  }

  function RepeatingIndexes(path: seq<PathItem>): set<nat> {
    set i: nat | i < |path| && path[i].repeating
  }

  /** A loop variable is a dollar sign and the letters that count the loop. */
  lemma LoopVariable(node: SchemaNode) returns (letters: string)
    ensures IndexValue(node) == "$" + letters && LetterSum(letters) == |RepeatingIndexes(node.pathToRoot)|
    ensures (forall c :: c in letters ==> 'a' <= c <= 'z') && forall i :: 0 <= i < |letters| - 1 ==> letters[i] == 'z'
  {
    letters := LoopLetters(RepeatingCount(node.pathToRoot));
    RepeatingCountCounts(node.pathToRoot);
    LettersCountRepeatingNodes(RepeatingCount(node.pathToRoot));
    LettersAreCanonical(RepeatingCount(node.pathToRoot));
  }

  /** As few letters as can be: all but the last are 'z'. */
  lemma {:induction false} LettersAreCanonical(n: nat)
    ensures |LoopLetters(n)| == (n + 25) / 26
    ensures forall i :: 0 <= i < |LoopLetters(n)| - 1 ==> LoopLetters(n)[i] == 'z'
  {
    if n >= 26 {
      LettersAreCanonical(n - 26);
      assert LoopLetters(n) == "z" + LoopLetters(n - 26);
    }
  }

  /** Equal variables mean equally many repeating nodes on the path. */
  lemma IndexValueIsInjective(a: SchemaNode, b: SchemaNode)
    ensures IndexValue(a) == IndexValue(b) <==> RepeatingCount(a.pathToRoot) == RepeatingCount(b.pathToRoot)
  {
    LettersCountRepeatingNodes(RepeatingCount(a.pathToRoot));
    LettersCountRepeatingNodes(RepeatingCount(b.pathToRoot));
    assert IndexValue(a)[1..] == LoopLetters(RepeatingCount(a.pathToRoot));
    assert IndexValue(b)[1..] == LoopLetters(RepeatingCount(b.pathToRoot));
  }

  lemma {:induction false} RepeatingCountConcat(a: seq<PathItem>, b: seq<PathItem>)
    ensures RepeatingCount(a + b) == RepeatingCount(a) + RepeatingCount(b)
  {
    if a == [] {
      assert a + b == b;
    } else {
      assert (a + b)[1..] == a[1..] + b;
      RepeatingCountConcat(a[1..], b);
    }
  }

  /** Two loops on one path to the root never share an index variable. */
  lemma LoopsOnOnePathDiffer(outer: SchemaNode, inner: SchemaNode)
    requires outer.pathToRoot < inner.pathToRoot
    requires inner.pathToRoot[|inner.pathToRoot| - 1].repeating
    ensures IndexValue(outer) != IndexValue(inner)
  {
    var p := inner.pathToRoot;
    var n := |outer.pathToRoot|;
    assert p == p[..n] + (p[n..|p| - 1] + [p[|p| - 1]]);
    RepeatingCountConcat(p[..n], p[n..|p| - 1] + [p[|p| - 1]]);
    RepeatingCountConcat(p[n..|p| - 1], [p[|p| - 1]]);
    assert p[..n] == outer.pathToRoot && RepeatingCount([p[|p| - 1]]) == 1;
    IndexValueIsInjective(outer, inner);
  }

  // ----- direct access

  /** The first place where the text occurs, or -1. */
  function FindText(s: string, text: string): (i: int)
    ensures -1 <= i <= |s|
    ensures i >= 0 ==> text <= s[i..]
    ensures forall j :: 0 <= j < (if i == -1 then |s| + 1 else i) ==> !(text <= s[j..])
  {
    if text <= s then
      assert s[0..] == s;
      0
    else if s == "" then -1
    else
      var i := FindText(s[1..], text);
      assert s[0..] == s && forall j :: 0 < j <= |s| ==> s[j..] == s[1..][j - 1..];
      if i == -1 then -1 else i + 1
  }

  /** The patterns a replacement text may hold: $$, $&, $` and $'. */
  function ExpandReplacement(replacement: string, matched: string, before: string, after: string): string {
    if |replacement| < 2 then replacement
    else if replacement[0] == '$' && replacement[1] in "$&`'" then
      (match replacement[1]
       case '$' => "$"
       case '&' => matched
       case '`' => before
       case _ => after) + ExpandReplacement(replacement[2..], matched, before, after)
    else [replacement[0]] + ExpandReplacement(replacement[1..], matched, before, after)
  }

  /** What each pattern of a replacement text stands for. */
  lemma PatternsExpand(rest: string, matched: string, before: string, after: string)
    ensures ExpandReplacement("$$" + rest, matched, before, after)
            == "$" + ExpandReplacement(rest, matched, before, after)
    ensures ExpandReplacement("$&" + rest, matched, before, after)
            == matched + ExpandReplacement(rest, matched, before, after)
    ensures ExpandReplacement("$`" + rest, matched, before, after)
            == before + ExpandReplacement(rest, matched, before, after)
    ensures ExpandReplacement("$'" + rest, matched, before, after)
            == after + ExpandReplacement(rest, matched, before, after)
  {
    assert ("$$" + rest)[2..] == ("$&" + rest)[2..] == ("$`" + rest)[2..] == ("$'" + rest)[2..] == rest;
  }

  /** JavaScript's replace with a text pattern: the first occurrence only. */
  function ReplaceFirst(s: string, text: string, replacement: string): string {
    var i := FindText(s, text);
    if i == -1 then s
    else
      var before, after := s[..i], s[i + |text|..];
      before + ExpandReplacement(replacement, text, before, after) + after
  }

  function FormatDirectAccess(indexValue: string, scope: string, destination: string): string {
    ReplaceFirst(destination, scope, scope + "[" + indexValue + "]")
  }
}
