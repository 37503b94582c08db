/** Rewriting a direct access `scope[index]suffix` into the call the deserializer reads, and back
    (amendSourceKeyForDirectAccessIfNeeded in DataMap.Utils.ts, formatDirectAccess in
    Function.Utils.ts). */
module DirectAccess {
  import opened Strings
  import opened Splitter
  import opened Expressions
  import opened FunctionUtils

  /** Just after the last ' ' or '(' at or before the position; 0 without one. */
  function KeyStart(s: string, from: int): (start: nat)
    requires from < |s|
    ensures start <= from + 1 || start == 0
  {
    if from < 0 then 0
    else if s[from] == ' ' || s[from] == '(' then from + 1
    else KeyStart(s, from - 1)
  }

  /** The first ',' or ')' at or after the position; the length without one. */
  function KeyEnd(s: string, from: nat): (end: nat)
    requires from <= |s|
    ensures from <= end <= |s|
    decreases |s| - from
  {
    if from == |s| || s[from] == ',' || s[from] == ')' then from else KeyEnd(s, from + 1)
  }

  function AccessCall(s: string, start: nat, open: nat, closed: nat, end: nat): string {
    var scope := Substring(s, start, open);
    CombineFunctionAndInputs(DIRECT_ACCESS_KEY,
      [Substring(s, open + 1, closed), scope, scope + Substring(s, closed + 1, end)])
  }

  /** The amended text, and the call that stands for the access; the text itself and "" without one. */
  function Amended(s: string): (string, string) {
    var open, closed := IndexOf(s, '['), LastIndexOf(s, ']');
    if open > -1 && closed > -1 then
      var start, end := KeyStart(s, open), KeyEnd(s, closed);
      var call := AccessCall(s, start, open, closed, end);
      (Substring(s, 0, start) + call + Substring(s, end, |s|), call)
    else (s, "")
  }

  method FindKeyStart(sourceKey: string, open: nat) returns (start: nat)
    requires open < |sourceKey|
    ensures start == KeyStart(sourceKey, open)
  {
    start := 0;
    var i: int := open;
    while i >= 0
      invariant -1 <= i <= open && start == 0
      invariant KeyStart(sourceKey, open) == KeyStart(sourceKey, i)
    {
      if sourceKey[i] == ' ' || sourceKey[i] == '(' {
        start := i + 1;
        break;
      }
      i := i - 1;
    }
  }

  method FindKeyEnd(sourceKey: string, closed: nat) returns (end: nat)
    requires closed < |sourceKey|
    ensures end == KeyEnd(sourceKey, closed)
  {
    end := |sourceKey|;
    var i := closed;
    while i < |sourceKey|
      invariant closed <= i <= |sourceKey| && end == |sourceKey|
      invariant KeyEnd(sourceKey, closed) == KeyEnd(sourceKey, i)
    {
      if sourceKey[i] == ',' || sourceKey[i] == ')' {
        end := i;
        break;
      }
      i := i + 1;
    }
  }

  method AmendSourceKeyForDirectAccessIfNeeded(sourceKey: string) returns (amended: string, mockKey: string)
    ensures (amended, mockKey) == Amended(sourceKey)
  {
    var open, closed := IndexOf(sourceKey, '['), LastIndexOf(sourceKey, ']');
    if open > -1 && closed > -1 {
      var start := FindKeyStart(sourceKey, open);
      var end := FindKeyEnd(sourceKey, closed);
      mockKey := MockCall(Substring(sourceKey, open + 1, closed), Substring(sourceKey, start, open),
          Substring(sourceKey, closed + 1, end));
      amended := Substring(sourceKey, 0, start) + mockKey + Substring(sourceKey, end, |sourceKey|);
    } else {
      amended, mockKey := sourceKey, "";
    }
  }

  method MockCall(index: string, scope: string, suffix: string) returns (mockKey: string)
    ensures mockKey == CombineFunctionAndInputs(DIRECT_ACCESS_KEY, [index, scope, scope + suffix])
  {
    mockKey := DIRECT_ACCESS_KEY + "(";
    mockKey := mockKey + (index + ", ");
    mockKey := mockKey + (scope + ", ");
    mockKey := mockKey + (scope + suffix);
    mockKey := mockKey + ")";
    JoinThree(index, scope, scope + suffix);
    ConcatRegroups(DIRECT_ACCESS_KEY + "(", index, scope, scope + suffix);
  }

  lemma ConcatRegroups(start: string, a: string, b: string, c: string)
    ensures start + (a + ", ") + (b + ", ") + c + ")" == start + (a + ", " + b + ", " + c) + ")"
  {
  }

  lemma JoinThree(a: string, b: string, c: string)
    ensures Join([a, b, c], ", ") == a + ", " + b + ", " + c
  {
    assert [a, b, c][1..] == [b, c] && [b, c][1..] == [c];
    assert Join([b, c], ", ") == b + ", " + Join([c], ", ");
    assert Join([a, b, c], ", ") == a + ", " + Join([b, c], ", ");
    assert a + ", " + (b + ", " + c) == a + ", " + b + ", " + c;
  }

  function Access(index: string, scope: string, suffix: string): string {
    scope + "[" + index + "]" + suffix
  }

  // ----- amending what was formatted

  lemma {:induction false} KeyStartFinds(s: string, from: int, start: nat)
    requires start <= from + 1 <= |s|
    requires start == 0 || s[start - 1] == ' ' || s[start - 1] == '('
    requires forall k :: start <= k <= from ==> s[k] != ' ' && s[k] != '('
    ensures KeyStart(s, from) == start
    decreases from - start
  {
    if from >= start {
      KeyStartFinds(s, from - 1, start);
    }
  }

  lemma {:induction false} KeyEndFinds(s: string, from: nat, end: nat)
    requires from <= end <= |s|
    requires end == |s| || s[end] == ',' || s[end] == ')'
    requires forall k :: from <= k < end ==> s[k] != ',' && s[k] != ')'
    ensures KeyEnd(s, from) == end
    decreases end - from
  {
    if from < end {
      KeyEndFinds(s, from + 1, end);
    }
  }

  /** What stands around an access: nothing, or a call it is an argument of, without other brackets. */
  predicate Surrounds(before: string, after: string) {
    && '[' !in before && (before == "" || before[|before| - 1] == ' ' || before[|before| - 1] == '(')
    && ']' !in after && (after == "" || after[0] == ',' || after[0] == ')')
  }

  predicate CleanScope(scope: string) {
    '[' !in scope && ' ' !in scope && '(' !in scope
  }

  predicate CleanSuffix(suffix: string) {
    ']' !in suffix && ',' !in suffix && ')' !in suffix
  }

  /** Amending an access, alone or as an argument, replaces exactly the access by its call, whatever
      the index holds, nested accesses included. */
  lemma AmendFindsAccess(before: string, index: string, scope: string, suffix: string, after: string)
    requires Surrounds(before, after) && CleanScope(scope) && CleanSuffix(suffix)
    ensures var call := CombineFunctionAndInputs(DIRECT_ACCESS_KEY, [index, scope, scope + suffix]);
            Amended(before + Access(index, scope, suffix) + after) == (before + call + after, call)
  {
    hide CombineFunctionAndInputs, KeyStart, KeyEnd, IndexOf, LastIndexOf, Surrounds, CleanScope, CleanSuffix;
    var s := before + Access(index, scope, suffix) + after;
    var open, closed := |before| + |scope|, |before| + |scope| + 1 + |index|;
    Brackets(before, index, scope, suffix, after);
    AccessStart(before, index, scope, suffix, after);
    AccessEnd(before, index, scope, suffix, after);
    Pieces(before, index, scope, suffix, after);
    assert Substring(s, 0, |before|) == before && Substring(s, |before|, open) == scope;
    assert Substring(s, open + 1, closed) == index && Substring(s, closed + 1, closed + 1 + |suffix|) == suffix;
    assert Substring(s, closed + 1 + |suffix|, |s|) == after;
  }

  lemma Brackets(before: string, index: string, scope: string, suffix: string, after: string)
    requires Surrounds(before, after) && CleanScope(scope) && CleanSuffix(suffix)
    ensures var s := before + Access(index, scope, suffix) + after;
            IndexOf(s, '[') == |before| + |scope| && LastIndexOf(s, ']') == |before| + |scope| + 1 + |index|
  {
    var s := before + Access(index, scope, suffix) + after;
    assert s == (before + scope) + ['['] + (index + "]" + suffix + after);
    FirstAt(before + scope, '[', index + "]" + suffix + after);
    assert s == (before + scope + "[" + index) + [']'] + (suffix + after);
    LastAt(before + scope + "[" + index, ']', suffix + after);
  }

  lemma AccessStart(before: string, index: string, scope: string, suffix: string, after: string)
    requires Surrounds(before, after) && CleanScope(scope)
    ensures var s := before + Access(index, scope, suffix) + after;
            KeyStart(s, |before| + |scope|) == |before|
  {
    hide KeyStart;
    var s := before + Access(index, scope, suffix) + after;
    var open := |before| + |scope|;
    forall k | |before| <= k <= open ensures s[k] != ' ' && s[k] != '(' {
      assert s[k] == (scope + "[")[k - |before|];
    }
    assert before != "" ==> s[|before| - 1] == before[|before| - 1];
    KeyStartFinds(s, open, |before|);
  }

  lemma AccessEnd(before: string, index: string, scope: string, suffix: string, after: string)
    requires Surrounds(before, after) && CleanSuffix(suffix)
    ensures var s := before + Access(index, scope, suffix) + after;
            var closed := |before| + |scope| + 1 + |index|;
            KeyEnd(s, closed) == closed + 1 + |suffix|
  {
    hide KeyEnd;
    var s := before + Access(index, scope, suffix) + after;
    var closed := |before| + |scope| + 1 + |index|;
    var end := closed + 1 + |suffix|;
    forall k | closed <= k < end ensures s[k] != ',' && s[k] != ')' {
      assert s[k] == ("]" + suffix)[k - closed];
    }
    assert after != "" ==> s[end] == after[0];
    KeyEndFinds(s, closed, end);
  }

  lemma Pieces(before: string, index: string, scope: string, suffix: string, after: string)
    ensures var s := before + Access(index, scope, suffix) + after;
            var open, closed := |before| + |scope|, |before| + |scope| + 1 + |index|;
            && s[..|before|] == before && s[|before|..open] == scope && s[open + 1..closed] == index
            && s[closed + 1..closed + 1 + |suffix|] == suffix && s[closed + 1 + |suffix|..] == after
  {
  }

  // ----- splitting the call, and formatting its parts

  /** A text that splitting keeps in one piece. */
  predicate IsWhole(text: string) {
    var r := ScanText(START, text);
    IsTrimmed(text) && !r.mode.Quoted? && r.depth == 0 && r.results == []
  }

  /** The word and the results so far have no say in how a text is scanned. */
  lemma {:induction false} ScanShift(st: Scan, word: string, results: seq<string>, text: string)
    requires |ScanText(st, text).results| == |st.results|
    ensures ScanText(Scan(st.mode, st.depth, word + st.word, results), text)
            == Scan(ScanText(st, text).mode, ScanText(st, text).depth, word + ScanText(st, text).word, results)
    ensures ScanText(st, text).word == st.word + text
    decreases |text|
  {
    if text == "" {
      assert st.word + "" == st.word;
    } else {
      var next := Step(st, text[0]);
      ResultsOnlyGrow(next, text[1..]);
      ScanShift(next, word, results, text[1..]);
      assert word + st.word + [text[0]] == word + (st.word + [text[0]]);
      assert st.word + [text[0]] + text[1..] == st.word + text;
    }
  }

  lemma {:induction false} ResultsOnlyGrow(st: Scan, text: string)
    ensures |ScanText(st, text).results| >= |st.results|
    decreases |text|
  {
    if text != "" {
      ResultsOnlyGrow(Step(st, text[0]), text[1..]);
    }
  }

  lemma WholeIsOneWord(text: string, word: string, results: seq<string>)
    requires IsWhole(text)
    ensures var r := ScanText(Scan(Plain, 0, word, results), text);
            r.depth == 0 && !r.mode.Quoted? && r.word == word + text && r.results == results
  {
    ScanShift(START, word, results, text);
    assert word + "" == word && "" + text == text;
  }

  /** One whole part and the separator after it. */
  lemma WholeThenSeparator(text: string, word: string, results: seq<string>, rest: string)
    requires IsWhole(text) && (word == "" || word == " ")
    ensures ScanText(Scan(Plain, 0, word, results), text + (", " + rest))
            == ScanText(Scan(Plain, 0, " ", results + [text]), rest)
  {
    hide IsWhole, ScanText;
    WholeIsTrimmed(text);
    var st := Scan(Plain, 0, word, results);
    WholeIsOneWord(text, word, results);
    ScanSeparator(st, text, rest);
    TrimDropsLeadingSpace(text);
    assert "" + text == text;
    assert Step(ScanText(st, text), ',') == Scan(Plain, 0, "", results + [text]);
    assert "" + [' '] == " ";
  }

  lemma NameIsPlain()
    ensures '(' !in DIRECT_ACCESS_KEY
  {
  }

  lemma WholeIsTrimmed(text: string)
    requires IsWhole(text)
    ensures IsTrimmed(text)
  {
  }

  lemma SplitAccessCall(index: string, scope: string, target: string)
    requires IsWhole(index) && IsWhole(scope) && IsWhole(target)
    ensures Children(CombineFunctionAndInputs(DIRECT_ACCESS_KEY, [index, scope, target])) == [index, scope, target]
  {
    hide IsWhole, ScanText, Parameters, IndexOf, LastIndexOf, CombineFunctionAndInputs;
    NameIsPlain();
    ParametersOfCall(DIRECT_ACCESS_KEY, [index, scope, target]);
    WholeIsTrimmed(target);
    JoinThree(index, scope, target);
    var rest := scope + (", " + target);
    assert Join([index, scope, target], ", ") == index + (", " + rest);
    WholeThenSeparator(index, "", [], rest);
    WholeThenSeparator(scope, " ", [index], target);
    WholeIsOneWord(target, " ", [index, scope]);
    TrimDropsLeadingSpace(target);
    assert [] + [index] == [index] && [index] + [scope] == [index, scope];
    assert [index, scope] + [target] == [index, scope, target];
  }

  /** No `$` that replace() would read as a pattern. */
  predicate IsPlainReplacement(s: string) {
    forall i :: 0 <= i < |s| - 1 && s[i] == '$' ==> s[i + 1] !in "$&`'"
  }

  lemma {:induction false} PlainExpandsToItself(s: string, matched: string, before: string, after: string)
    requires IsPlainReplacement(s)
    ensures ExpandReplacement(s, matched, before, after) == s
    decreases |s|
  {
    if |s| >= 2 {
      forall i | 0 <= i < |s[1..]| - 1 && s[1..][i] == '$' ensures s[1..][i + 1] !in "$&`'" {
        assert s[i + 1] == '$';
      }
      PlainExpandsToItself(s[1..], matched, before, after);
    }
  }

  lemma FormatGivesAccess(index: string, scope: string, suffix: string)
    requires IsPlainReplacement(scope + "[" + index + "]")
    ensures FormatDirectAccess(index, scope, scope + suffix) == Access(index, scope, suffix)
  {
    var s := scope + suffix;
    assert scope <= s;
    assert FindText(s, scope) == 0;
    assert s[..0] == "" && s[0 + |scope|..] == suffix;
    PlainExpandsToItself(scope + "[" + index + "]", scope, "", suffix);
    assert "" + (scope + "[" + index + "]") == scope + "[" + index + "]";
  }

  /** Format, amend, split and format again: the access comes back, alone or inside a call. */
  lemma DirectAccessRoundTrip(before: string, index: string, scope: string, suffix: string, after: string)
    requires Surrounds(before, after) && CleanScope(scope) && CleanSuffix(suffix)
    requires IsWhole(index) && IsWhole(scope) && IsWhole(scope + suffix)
    requires IsPlainReplacement(scope + "[" + index + "]")
    ensures var access := FormatDirectAccess(index, scope, scope + suffix);
            var (amended, call) := Amended(before + access + after);
            && amended == before + call + after
            && Children(call) == [index, scope, scope + suffix]
            && FormatDirectAccess(Children(call)[0], Children(call)[1], Children(call)[2]) == access
  {
    FormatGivesAccess(index, scope, suffix);
    AmendFindsAccess(before, index, scope, suffix, after);
    SplitAccessCall(index, scope, scope + suffix);
  }

  /** A text without brackets is no access. */
  lemma NoAccessStays(s: string)
    requires '[' !in s || ']' !in s
    ensures Amended(s) == (s, "")
  {
  }

  /** A separator-free text is whole, so scopes and targets of schema paths are. */
  lemma SeparatorFreeIsWhole(text: string)
    requires IsSeparatorFree(text) && IsTrimmed(text)
    ensures IsWhole(text)
  {
    ScanSeparatorFree(START, text);
  }

  /** For schema paths, which have no separators, the index is all that has to be whole. */
  lemma PathAccessRoundTrip(before: string, index: string, scope: string, suffix: string, after: string)
    requires Surrounds(before, after) && CleanScope(scope) && CleanSuffix(suffix) && IsWhole(index)
    requires IsSeparatorFree(scope) && IsSeparatorFree(suffix) && IsTrimmed(scope) && IsTrimmed(scope + suffix)
    requires IsPlainReplacement(scope + "[" + index + "]")
    ensures var access := FormatDirectAccess(index, scope, scope + suffix);
            var (amended, call) := Amended(before + access + after);
            && amended == before + call + after
            && Children(call) == [index, scope, scope + suffix]
            && FormatDirectAccess(Children(call)[0], Children(call)[1], Children(call)[2]) == access
  {
    SeparatorFreeIsWhole(scope);
    SeparatorFreeIsWhole(scope + suffix);
    DirectAccessRoundTrip(before, index, scope, suffix, after);
  }

  /** An access with a whole index is itself whole: indices may nest to any depth. */
  lemma AccessIsWhole(index: string, scope: string, suffix: string)
    requires IsWhole(index) && IsSeparatorFree(scope) && IsSeparatorFree(suffix)
    requires IsTrimmed(Access(index, scope, suffix))
    ensures IsWhole(Access(index, scope, suffix))
  {
    hide IsWhole, ScanText, IsTrimmed;
    var opening := scope + "[";
    OpensPlain(scope);
    WholeIsOneWord(index, opening, []);
    var mid := Scan(Plain, 0, opening, []);
    var r := ScanText(mid, index);
    ScanConcat(START, opening, index + ("]" + suffix));
    ScanConcat(mid, index, "]" + suffix);
    ScanCharacter(r, ']', suffix);
    assert "]" + suffix == [']'] + suffix;
    ScanSeparatorFree(Step(r, ']'), suffix);
    assert Access(index, scope, suffix) == opening + (index + ("]" + suffix));
    WholeByScan(Access(index, scope, suffix));
  }

  lemma OpensPlain(scope: string)
    requires IsSeparatorFree(scope)
    ensures ScanText(START, scope + "[") == Scan(Plain, 0, scope + "[", [])
  {
    ScanSeparatorFree(START, scope + "[");
    assert "" + (scope + "[") == scope + "[";
  }

  lemma WholeByScan(text: string)
    requires IsTrimmed(text)
    requires var r := ScanText(START, text); !r.mode.Quoted? && r.depth == 0 && r.results == []
    ensures IsWhole(text)
  {
  }
}
