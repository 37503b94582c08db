/** Splitting the text of a function call into the texts of its arguments
    (splitKeyIntoChildren in DataMap.Utils.ts). */
module Splitter {
  import opened Strings

  /** AfterQuote: the last character closed a quoted literal. */
  datatype Mode = Plain | Quoted | AfterQuote

  datatype Scan = Scan(mode: Mode, depth: int, word: string, results: seq<string>)

  const START := Scan(Plain, 0, "", [])

  function Cut(st: Scan): Scan {
    Scan(Plain, st.depth, "", st.results + [Trim(st.word)])
  }

  /** One character. A comma directly after a closing quote cuts at any depth. */
  function Step(st: Scan, c: char): Scan {
    var grown := st.word + [c];
    match st.mode
    case Quoted =>
      Scan(if c == '"' then AfterQuote else Quoted, st.depth, grown, st.results)
    case _ =>
      if c == ',' && (st.mode.AfterQuote? || st.depth == 0) then Cut(st)
      else if c == '(' then Scan(Plain, st.depth + 1, grown, st.results)
      else if c == ')' then Scan(Plain, st.depth - 1, grown, st.results)
      else Scan(if c == '"' then Quoted else Plain, st.depth, grown, st.results)
  }

  function ScanText(st: Scan, s: string): Scan
    decreases |s|
  {
    if s == "" then st else ScanText(Step(st, s[0]), s[1..])
  }

  function Finish(st: Scan): seq<string> {
    if st.word == "" then st.results else st.results + [Trim(st.word)]
  }

  function Parameters(sourceKey: string): string {
    Substring(sourceKey, IndexOf(sourceKey, '(') + 1, LastIndexOf(sourceKey, ')'))
  }

  function Children(sourceKey: string): seq<string> {
    Finish(ScanText(START, Parameters(sourceKey)))
  }

  lemma {:induction false} ScanConcat(st: Scan, a: string, b: string)
    ensures ScanText(st, a + b) == ScanText(ScanText(st, a), b)
    decreases |a|
  {
    if a == "" {
      assert a + b == b;
    } else {
      assert (a + b)[1..] == a[1..] + b;
      ScanConcat(Step(st, a[0]), a[1..], b);
    }
  }

  lemma ScanCharacter(st: Scan, c: char, rest: string)
    ensures ScanText(st, [c] + rest) == ScanText(Step(st, c), rest)
  {
    assert ([c] + rest)[1..] == rest;
  }

  lemma ScanNext(st: Scan, s: string, i: nat)
    requires i < |s|
    ensures ScanText(st, s[..i + 1]) == Step(ScanText(st, s[..i]), s[i])
  {
    assert s[..i + 1] == s[..i] + [s[i]];
    ScanConcat(st, s[..i], [s[i]]);
  }

  method SplitKeyIntoChildren(sourceKey: string) returns (results: seq<string>)
    ensures results == Children(sourceKey)
  {
    var parameters := Substring(sourceKey, IndexOf(sourceKey, '(') + 1, LastIndexOf(sourceKey, ')'));
    var openParenthesis := 0;
    var isCustom := false;
    var currentWord := "";
    results := [];
    var index := 0;
    while index < |parameters|
      invariant 0 <= index <= |parameters|
      invariant var st := ScanText(START, parameters[..index]);
                && st.depth == openParenthesis && st.word == currentWord && st.results == results
                && (st.mode.Quoted? <==> isCustom)
                && (st.mode.AfterQuote? && index < |parameters| ==> parameters[index] != ',')
    {
      var element := parameters[index];
      ScanNext(START, parameters, index);
      if !isCustom {
        if element == '(' {
          openParenthesis := openParenthesis + 1;
          currentWord := currentWord + [element];
        } else if element == ')' {
          openParenthesis := openParenthesis - 1;
          currentWord := currentWord + [element];
        } else if element == ',' && openParenthesis == 0 {
          results := results + [Trim(currentWord)];
          currentWord := "";
        } else if element == '"' {
          isCustom := true;
          currentWord := currentWord + [element];
        } else {
          currentWord := currentWord + [element];
        }
      } else {
        if element == '"' {
          currentWord := currentWord + [element];
          if index + 1 < |parameters| && parameters[index + 1] == ',' {
            ScanNext(START, parameters, index + 1);
            results := results + [Trim(currentWord)];
            currentWord := "";
            index := index + 1;
          }
          isCustom := false;
        } else {
          currentWord := currentWord + [element];
        }
      }
      index := index + 1;
    }
    assert parameters[..|parameters|] == parameters;
    if currentWord != "" {
      results := results + [Trim(currentWord)];
    }
  }

  // ----- nothing of the text is lost

  /** The pieces, each with the comma that ends it. */
  function WithCommas(pieces: seq<string>): string {
    if pieces == [] then "" else WithCommas(pieces[..|pieces| - 1]) + pieces[|pieces| - 1] + ","
  }

  lemma {:induction false} ScannedPieces(s: string, i: nat) returns (pieces: seq<string>)
    requires i <= |s|
    ensures var st := ScanText(START, s[..i]);
            && |pieces| == |st.results| && (forall k :: 0 <= k < |pieces| ==> st.results[k] == Trim(pieces[k]))
            && WithCommas(pieces) + st.word == s[..i]
    decreases i
  {
    hide Trim, Step, ScanText;
    pieces := [];
    if i > 0 {
      var before := ScannedPieces(s, i - 1);
      ScanNext(START, s, i - 1);
      pieces := NextPieces(ScanText(START, s[..i - 1]), before, s[..i - 1], s[i - 1]);
      assert s[..i] == s[..i - 1] + [s[i - 1]];
    } else {
      assert s[..0] == "";
      NothingScanned();
    }
  }

  lemma NothingScanned()
    ensures ScanText(START, "") == START
  {
  }

  /** One more character goes to the current word, or ends a piece. */
  lemma NextPieces(st: Scan, before: seq<string>, s: string, c: char) returns (pieces: seq<string>)
    requires |before| == |st.results| && forall k :: 0 <= k < |before| ==> st.results[k] == Trim(before[k])
    requires WithCommas(before) + st.word == s
    ensures var next := Step(st, c);
            && |pieces| == |next.results| && (forall k :: 0 <= k < |pieces| ==> next.results[k] == Trim(pieces[k]))
            && WithCommas(pieces) + next.word == s + [c]
  {
    hide Trim;
    var next := Step(st, c);
    pieces := before;
    if next.results != st.results {
      pieces := before + [st.word];
      assert pieces[..|pieces| - 1] == before && c == ',';
      assert WithCommas(pieces) == WithCommas(before) + st.word + ",";
    } else {
      assert WithCommas(before) + (st.word + [c]) == s + [c];
    }
  }

  /** The children are the trimmed pieces of the parameters, cut at commas: with the commas in between, the
      pieces are the parameters again, whatever the text. */
  lemma ChildrenArePieces(sourceKey: string) returns (pieces: seq<string>, last: string)
    ensures WithCommas(pieces) + last == Parameters(sourceKey)
    ensures |Children(sourceKey)| == |pieces| + if last == "" then 0 else 1
    ensures forall k :: 0 <= k < |pieces| ==> Children(sourceKey)[k] == Trim(pieces[k])
    ensures last != "" ==> Children(sourceKey)[|pieces|] == Trim(last)
  {
    var s := Parameters(sourceKey);
    assert s[..|s|] == s;
    hide ScanText, Trim;
    pieces := ScannedPieces(s, |s|);
    last := ScanText(START, s).word;
  }

  // ----- every child is shorter than the text

  lemma {:induction false} ScanBounds(st: Scan, s: string, bound: nat)
    requires |st.word| + |s| <= bound && forall r :: r in st.results ==> |r| <= bound
    ensures forall r :: r in Finish(ScanText(st, s)) ==> |r| <= bound
    decreases |s|
  {
    TrimShortens(st.word);
    if s != "" {
      ScanBounds(Step(st, s[0]), s[1..], bound);
    }
  }

  /** The measure of the deserializer's recursion: whenever a '(' comes before the last ')', every
      child is at least two characters shorter than the text. */
  lemma ChildrenAreShorter(sourceKey: string)
    requires 0 <= IndexOf(sourceKey, '(') < LastIndexOf(sourceKey, ')')
    ensures forall child :: child in Children(sourceKey) ==> |child| <= |sourceKey| - 2
  {
    ScanBounds(START, Parameters(sourceKey), |sourceKey| - 2);
  }

  /** What has been scanned of a text bounds the words found in it. */
  ghost predicate WordsFit(st: Scan, s: string) {
    && (st.results == [] ==> st.word == s)
    && (st.results != [] ==> |st.word| < |s|)
    && forall r :: r in st.results ==> |r| < |s|
  }

  lemma {:induction false} ScannedWordsFit(s: string, i: nat)
    requires i <= |s|
    ensures WordsFit(ScanText(START, s[..i]), s[..i])
    decreases i
  {
    if i > 0 {
      hide ScanText, Trim;
      var st := ScanText(START, s[..i - 1]);
      ScannedWordsFit(s, i - 1);
      ScanNext(START, s, i - 1);
      TrimShortens(st.word);
      assert s[..i] == s[..i - 1] + [s[i - 1]];
    }
  }

  /** No child is longer than the text, and one that is as long is the text itself. */
  lemma ChildrenAreNotLonger(sourceKey: string)
    requires '(' in sourceKey
    ensures forall child :: child in Children(sourceKey) ==> |child| < |sourceKey| || child == sourceKey
  {
    hide Trim;
    var s := Parameters(sourceKey);
    var st := ScanText(START, s);
    assert |s| == |sourceKey| ==> s == sourceKey;
    assert |s| <= |sourceKey|;
    ScannedWordsFit(s, |s|);
    assert s[..|s|] == s;
    TrimShortens(st.word);
  }

  lemma {:induction false} ScanInsideQuote(st: Scan, s: string)
    requires st.mode.Quoted? && '"' !in s
    ensures ScanText(st, s) == st.(word := st.word + s)
    decreases |s|
  {
    if s == "" {
      assert st.word + s == st.word;
    } else {
      ScanInsideQuote(Step(st, s[0]), s[1..]);
      assert st.word + s == st.word + [s[0]] + s[1..];
    }
  }

  lemma FirstAt(a: string, c: char, b: string)
    requires c !in a
    ensures IndexOf(a + [c] + b, c) == |a|
  {
    var s := a + [c] + b;
    assert s[|a|] == c && forall k :: 0 <= k < |a| ==> s[k] == a[k];
  }

  lemma {:induction false} LastAt(a: string, c: char, b: string)
    requires c !in b
    ensures LastIndexOf(a + [c] + b, c) == |a|
    decreases |b|
  {
    var s := a + [c] + b;
    if b == "" {
      assert s[|s| - 1] == c;
    } else {
      var shorter := b[..|b| - 1];
      assert s[|s| - 1] == b[|b| - 1];
      assert s[..|s| - 1] == a + [c] + shorter;
      LastAt(a, c, shorter);
    }
  }

  /** Without a ')' the measure fails: a quoted literal that ends the text in '(' is its own only child. */
  lemma UnclosedLiteralIsItsOwnChild(body: string)
    requires '"' !in body && '(' !in body && ')' !in body
    ensures Children("\"" + body + "(") == ["\"" + body + "("]
  {
    hide Parameters, ScanText, Trim, IsTrimmed;
    var s := "\"" + body + "(";
    UnclosedIsTrimmed(body);
    UnclosedParameters(body);
    UnclosedScan(body + "(");
    assert s == "\"" + (body + "(");
    TrimDropsLeadingSpace(s);
  }

  lemma UnclosedScan(inside: string)
    requires '"' !in inside
    ensures ScanText(START, "\"" + inside) == Scan(Quoted, 0, "\"" + inside, [])
  {
    var first := Step(START, '"');
    assert ("\"" + inside)[1..] == inside;
    ScanInsideQuote(first, inside);
    assert first.word + inside == "\"" + inside;
  }

  lemma UnclosedIsTrimmed(body: string)
    ensures IsTrimmed("\"" + body + "(")
  {
  }

  lemma UnclosedParameters(body: string)
    requires '(' !in body && ')' !in body
    ensures Parameters("\"" + body + "(") == "\"" + body + "("
  {
    var s := "\"" + body + "(";
    assert s == ("\"" + body) + ['('] + "";
    FirstAt("\"" + body, '(', "");
    assert ')' !in s;
  }
}
