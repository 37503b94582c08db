/** The expressions of a map definition, and the round trip between printing a call and splitting
    its text again (combineFunctionAndInputs and splitKeyIntoChildren in DataMap.Utils.ts). */
module Expressions {
  import opened Strings
  import opened Splitter

  /** An atom is a schema path or an unquoted custom value; a literal is a quoted custom value. */
  datatype Expr =
    | Atom(text: string)
    | Literal(body: string)
    | Call(name: string, args: seq<Expr>)

  function CombineFunctionAndInputs(functionName: string, inputs: seq<string>): string {
    functionName + "(" + Join(inputs, ", ") + ")"
  }

  function Render(e: Expr): string {
    match e
    case Atom(text) => text
    case Literal(body) => "\"" + body + "\""
    case Call(name, args) => CombineFunctionAndInputs(name, RenderAll(args))
  }

  function RenderAll(args: seq<Expr>): (texts: seq<string>)
    ensures |texts| == |args|
  {
    if args == [] then [] else [Render(args[0])] + RenderAll(args[1..])
  }

  lemma {:induction false} RenderAllAt(args: seq<Expr>, i: nat)
    requires i < |args|
    ensures |RenderAll(args)| == |args| && RenderAll(args)[i] == Render(args[i])
  {
    if i > 0 {
      RenderAllAt(args[1..], i - 1);
    } else if |args| > 1 {
      RenderAllAt(args[1..], 0);
    }
  }

  predicate IsSeparatorFree(s: string) {
    '(' !in s && ')' !in s && ',' !in s && '"' !in s
  }

  predicate WellFormed(e: Expr) {
    match e
    case Atom(text) => IsSeparatorFree(text) && IsTrimmed(text)
    case Literal(body) => '"' !in body
    case Call(name, args) =>
      && IsSeparatorFree(name) && name != "" && !IsSpace(name[0])
      && forall i :: 0 <= i < |args| ==> WellFormed(args[i])
  }

  ghost predicate AllWellFormed(args: seq<Expr>) {
    forall i :: 0 <= i < |args| ==> WellFormed(args[i])
  }

  /** The literals directly followed by a comma inside a call nested in e. */
  function QuotedCommas(e: Expr): nat {
    match e
    case Call(_, args) => QuotedCommasWithin(args) + QuotedCommasBelow(args)
    case _ => 0
  }

  /** The literals among the arguments of one call that a comma follows. */
  function QuotedCommasWithin(args: seq<Expr>): nat {
    if |args| < 2 then 0
    else (if args[0].Literal? then 1 else 0) + QuotedCommasWithin(args[1..])
  }

  function QuotedCommasBelow(args: seq<Expr>): nat {
    if args == [] then 0 else QuotedCommas(args[0]) + QuotedCommasBelow(args[1..])
  }

  lemma RenderIsTrimmed(e: Expr)
    requires WellFormed(e)
    ensures IsTrimmed(Render(e))
  {
  }

  lemma {:induction false} ScanSeparatorFree(st: Scan, s: string)
    requires st.mode.Plain? && IsSeparatorFree(s)
    ensures ScanText(st, s) == st.(word := st.word + s)
    decreases |s|
  {
    if s == "" {
      assert st.word + s == st.word;
    } else {
      ScanSeparatorFree(Step(st, s[0]), s[1..]);
      assert st.word + s == st.word + [s[0]] + s[1..];
    }
  }

  /** How scanning a rendered expression, or rendered arguments inside a call, moves the state:
      the depth comes back, a cut happens once for every literal a comma follows, and without
      cuts the text is appended to the current word. */
  ghost predicate Passes(st: Scan, s: string, cuts: nat, after: Mode) {
    var r := ScanText(st, s);
    && r.depth == st.depth
    && r.mode == after
    && |r.results| == |st.results| + cuts
    && (cuts == 0 ==> r.results == st.results && r.word == st.word + s)
  }

  function EndMode(args: seq<Expr>): Mode {
    if args != [] && args[|args| - 1].Literal? then AfterQuote else Plain
  }

  lemma ScanLiteral(st: Scan, body: string)
    requires '"' !in body && st.mode.Plain?
    ensures ScanText(st, "\"" + body + "\"") == st.(mode := AfterQuote, word := st.word + ("\"" + body + "\""))
  {
    var inside := Step(st, '"');
    assert ("\"" + body + "\"")[1..] == body + "\"";
    ScanConcat(inside, body, "\"");
    ScanInsideQuote(inside, body);
    assert st.word + ['"'] + body + ['"'] == st.word + ("\"" + body + "\"");
  }

  /** A call whose arguments pass one level deeper passes itself. */
  lemma ScanCall(st: Scan, name: string, inner: string, cuts: nat, mode: Mode)
    requires IsSeparatorFree(name) && st.mode.Plain? && st.depth >= 0 && mode != Quoted
    requires Passes(Step(st.(word := st.word + name), '('), inner, cuts, mode)
    ensures Passes(st, name + "(" + inner + ")", cuts, Plain)
    ensures ScanText(st, name + "(" + inner + ")").word != ""
  {
    ScanCallText(st, name, inner);
    hide IsSeparatorFree, ScanText;
    var s := name + "(" + inner + ")";
    assert st.word + name + ['('] + inner + [')'] == st.word + s;
  }

  lemma ScanCallText(st: Scan, name: string, inner: string)
    requires IsSeparatorFree(name) && st.mode.Plain?
    ensures ScanText(st, name + "(" + inner + ")") == Step(ScanText(Step(st.(word := st.word + name), '('), inner), ')')
  {
    hide IsSeparatorFree, Step;
    var s := name + "(" + inner + ")";
    var named := st.(word := st.word + name);
    assert s == name + (['('] + (inner + ")"));
    ScanConcat(st, name, ['('] + (inner + ")"));
    ScanSeparatorFree(st, name);
    ScanCharacter(named, '(', inner + ")");
    ScanConcat(Step(named, '('), inner, ")");
    ScanCharacter(ScanText(Step(named, '('), inner), ')', "");
    assert ")" == [')'] + "";
  }

  lemma {:induction false} ScanExpr(st: Scan, e: Expr)
    requires WellFormed(e) && st.mode.Plain? && st.depth >= 0
    ensures Passes(st, Render(e), QuotedCommas(e), EndMode([e]))
    ensures ScanText(st, Render(e)).word != ""
    decreases e, 0
  {
    match e {
      case Atom(text) =>
        ScanSeparatorFree(st, text);
      case Literal(body) =>
        ScanLiteral(st, body);
      case Call(name, args) =>
        hide IsSeparatorFree, Passes;
        ScanNestedArguments(Step(st.(word := st.word + name), '('), args);
        ScanCall(st, name, Join(RenderAll(args), ", "), QuotedCommas(e), EndMode(args));
    }
  }

  lemma JoinRest(args: seq<Expr>)
    requires |args| > 1
    ensures Join(RenderAll(args), ", ") == Render(args[0]) + (", " + Join(RenderAll(args[1..]), ", "))
  {
    assert RenderAll(args)[1..] == RenderAll(args[1..]);
  }

  lemma ScanSeparator(st: Scan, first: string, rest: string)
    ensures ScanText(st, first + (", " + rest)) == ScanText(Step(Step(ScanText(st, first), ','), ' '), rest)
  {
    ScanConcat(st, first, ", " + rest);
    var mid := ScanText(st, first);
    ScanConcat(mid, ", ", rest);
    assert ", "[1..] == " ";
    assert ScanText(mid, ", ") == Step(Step(mid, ','), ' ');
  }

  function AfterSeparator(st: Scan, first: string): Scan {
    Step(Step(ScanText(st, first), ','), ' ')
  }

  lemma PassesSeparator(st: Scan, first: string, cuts: nat, mode: Mode, rest: string, cutsLater: nat, after: Mode)
    requires st.depth >= 1 && mode != Quoted && Passes(st, first, cuts, mode)
    requires Passes(AfterSeparator(st, first), rest, cutsLater, after)
    ensures Passes(st, first + (", " + rest), cuts + (if mode.AfterQuote? then 1 else 0) + cutsLater, after)
  {
    ScanSeparator(st, first, rest);
    assert st.word + first + [','] + [' '] + rest == st.word + (first + (", " + rest));
  }

  lemma {:induction false} ScanNestedArguments(st: Scan, args: seq<Expr>)
    requires AllWellFormed(args) && st.mode.Plain? && st.depth >= 1
    ensures Passes(st, Join(RenderAll(args), ", "), QuotedCommasWithin(args) + QuotedCommasBelow(args), EndMode(args))
    decreases args
  {
    if args == [] {
      assert st.word + "" == st.word;
    } else {
      var first := Render(args[0]);
      ScanExpr(st, args[0]);
      if |args| == 1 {
        assert args[1..] == [] && RenderAll(args) == [first];
      } else {
        var rest := args[1..];
        JoinRest(args);
        ScanNestedArguments(AfterSeparator(st, first), rest);
        PassesSeparator(st, first, QuotedCommas(args[0]), EndMode([args[0]]), Join(RenderAll(rest), ", "),
                        QuotedCommasWithin(rest) + QuotedCommasBelow(rest), EndMode(rest));
        assert EndMode(rest) == EndMode(args);
      }
    }
  }

  lemma AfterTopArgument(st: Scan, e: Expr)
    requires WellFormed(e) && st.mode.Plain? && st.depth == 0 && (st.word == "" || st.word == " ")
    ensures var mid := ScanText(st, Render(e));
            && AfterSeparator(st, Render(e)) == Scan(Plain, 0, " ", Finish(mid))
            && |Finish(mid)| == |st.results| + 1 + QuotedCommas(e)
            && (QuotedCommas(e) == 0 ==> Finish(mid) == st.results + [Render(e)])
  {
    hide Render, ScanText, QuotedCommas, WellFormed, IsTrimmed;
    ScanExpr(st, e);
    RenderIsTrimmed(e);
    FinishTopWord(st, ScanText(st, Render(e)), Render(e));
  }

  /** A separator, or the end, finishes the word. */
  lemma FinishTopWord(st: Scan, mid: Scan, text: string)
    requires !mid.mode.Quoted? && mid.depth == 0 && (st.word == "" || st.word == " ")
    requires IsTrimmed(text) && mid.word != ""
    requires |mid.results| == |st.results| ==> mid.word == st.word + text && mid.results == st.results
    ensures Step(Step(mid, ','), ' ') == Scan(Plain, 0, " ", Finish(mid))
    ensures |Finish(mid)| == |mid.results| + 1
    ensures |mid.results| == |st.results| ==> Finish(mid) == st.results + [text]
  {
    assert Step(mid, ',') == Scan(Plain, 0, "", Finish(mid));
    assert "" + [' '] == " ";
    if |mid.results| == |st.results| {
      TrimmedWord(st.word, text);
    }
  }

  lemma TrimmedWord(before: string, text: string)
    requires IsTrimmed(text) && (before == "" || before == " ")
    ensures Trim(before + text) == text
  {
    if before == " " {
      TrimDropsLeadingSpace(text);
    } else {
      assert before + text == text;
    }
  }

  /** The texts that scanning these arguments adds: as many as the arguments and the cuts inside
      them, and exactly the arguments when there is no cut. */
  ghost predicate AddsArguments(before: seq<string>, after: seq<string>, args: seq<Expr>) {
    && |after| == |before| + |args| + QuotedCommasBelow(args)
    && (QuotedCommasBelow(args) == 0 ==> after == before + RenderAll(args))
  }

  lemma AddsOneMore(before: seq<string>, mid: seq<string>, after: seq<string>, args: seq<Expr>)
    requires args != [] && AddsArguments(before, mid, args[..1]) && AddsArguments(mid, after, args[1..])
    ensures AddsArguments(before, after, args)
  {
    var one := args[..1];
    assert one[0] == args[0] && one[1..] == [];
    assert QuotedCommasBelow(one) == QuotedCommas(args[0]) && RenderAll(one) == [Render(args[0])];
    assert before + [Render(args[0])] + RenderAll(args[1..]) == before + RenderAll(args);
  }

  lemma {:induction false} ScanTopArguments(st: Scan, args: seq<Expr>)
    requires AllWellFormed(args) && args != []
    requires st.mode.Plain? && st.depth == 0 && (st.word == "" || st.word == " ")
    ensures AddsArguments(st.results, Finish(ScanText(st, Join(RenderAll(args), ", "))), args)
    decreases |args|
  {
    var first := Render(args[0]);
    AfterTopArgument(st, args[0]);
    assert args[..1] == [args[0]] && args[..1][1..] == [];
    assert AddsArguments(st.results, Finish(ScanText(st, first)), args[..1]);
    if |args| == 1 {
      assert args == args[..1] && RenderAll(args) == [first];
    } else {
      var next := AfterSeparator(st, first);
      ScanTopArguments(next, args[1..]);
      AddsOneMore(st.results, next.results, Finish(ScanText(next, Join(RenderAll(args[1..]), ", "))), args);
      JoinRest(args);
      ScanSeparator(st, first, Join(RenderAll(args[1..]), ", "));
    }
  }

  lemma ParametersOfCall(name: string, inputs: seq<string>)
    requires '(' !in name
    ensures var s := CombineFunctionAndInputs(name, inputs);
            && Parameters(s) == Join(inputs, ", ")
            && IndexOf(s, '(') == |name| && LastIndexOf(s, ')') == |s| - 1 && |name| < |s| - 1
  {
    var inner := Join(inputs, ", ");
    var s := CombineFunctionAndInputs(name, inputs);
    assert s == name + ['('] + (inner + ")");
    FirstAt(name, '(', inner + ")");
    assert s == (name + "(" + inner) + [')'] + "";
    LastAt(name + "(" + inner, ')', "");
    assert s[|name| + 1..|s| - 1] == inner;
  }

  /** Splitting a printed call gives one child for every argument, plus one for every literal that
      a comma follows inside a nested call. */
  lemma SplitCountsCuts(name: string, args: seq<Expr>)
    requires '(' !in name && AllWellFormed(args)
    ensures |Children(CombineFunctionAndInputs(name, RenderAll(args)))| == |args| + QuotedCommasBelow(args)
    ensures QuotedCommasBelow(args) == 0 ==>
            Children(CombineFunctionAndInputs(name, RenderAll(args))) == RenderAll(args)
  {
    ParametersOfCall(name, RenderAll(args));
    if args != [] {
      ScanTopArguments(START, args);
    }
  }

  /** The round trip holds exactly when no literal is followed by a comma inside a nested call. */
  lemma SplitInvertsCombineIff(name: string, args: seq<Expr>)
    requires '(' !in name && AllWellFormed(args)
    ensures Children(CombineFunctionAndInputs(name, RenderAll(args))) == RenderAll(args)
            <==> QuotedCommasBelow(args) == 0
  {
    SplitCountsCuts(name, args);
  }

  /** One failing text: the literal nested in lower-case(concat("a", x)) is cut off. */
  lemma NestedLiteralBreaksRoundTrip()
    ensures var inner := Call("concat", [Literal("a"), Atom("x")]);
            Children(Render(Call("lower-case", [inner]))) != [Render(inner)]
  {
    var inner := Call("concat", [Literal("a"), Atom("x")]);
    var args := [inner];
    NestedLiteralIsCounted(inner);
    SplitInvertsCombineIff("lower-case", args);
    assert RenderAll(args) == [Render(inner)];
  }

  lemma NestedLiteralIsCounted(inner: Expr)
    requires inner == Call("concat", [Literal("a"), Atom("x")])
    ensures QuotedCommasBelow([inner]) > 0 && AllWellFormed([inner])
  {
    assert QuotedCommasWithin(inner.args) == 1;
    assert QuotedCommasBelow([inner]) >= QuotedCommas(inner);
  }

  // ----- the text determines the expression

  predicate SplitSafe(e: Expr) {
    e.Call? ==> QuotedCommasBelow(e.args) == 0
  }

  lemma {:induction false} ArgumentsAreSplitSafe(args: seq<Expr>, i: nat)
    requires QuotedCommasBelow(args) == 0 && i < |args|
    ensures SplitSafe(args[i])
  {
    if i > 0 {
      ArgumentsAreSplitSafe(args[1..], i - 1);
    }
  }

  lemma {:induction false} RenderIsInjective(a: Expr, b: Expr)
    requires WellFormed(a) && SplitSafe(a) && WellFormed(b) && SplitSafe(b)
    requires Render(a) == Render(b)
    ensures a == b
  {
    var s := Render(a);
    RenderShowsKind(a);
    RenderShowsKind(b);
    if a.Call? && b.Call? {
      CallsShowTheirParts(a, b);
      forall i | 0 <= i < |a.args| ensures a.args[i] == b.args[i] {
        ArgumentsAreSplitSafe(a.args, i);
        ArgumentsAreSplitSafe(b.args, i);
        RenderAllAt(a.args, i);
        RenderAllAt(b.args, i);
        RenderIsInjective(a.args[i], b.args[i]);
      }
    } else if a.Literal? && b.Literal? {
      assert a.body == s[1..|s| - 1] && b.body == s[1..|s| - 1];
    }
  }

  lemma CallsShowTheirParts(a: Expr, b: Expr)
    requires a.Call? && WellFormed(a) && SplitSafe(a) && b.Call? && WellFormed(b) && SplitSafe(b)
    requires Render(a) == Render(b)
    ensures a.name == b.name && RenderAll(a.args) == RenderAll(b.args) && |a.args| == |b.args|
  {
    var s := Render(a);
    ParametersOfCall(a.name, RenderAll(a.args));
    ParametersOfCall(b.name, RenderAll(b.args));
    assert a.name == s[..|a.name|] && b.name == s[..|b.name|];
    SplitCountsCuts(a.name, a.args);
    SplitCountsCuts(b.name, b.args);
  }

  /** The text shows which kind of expression it prints. */
  lemma RenderShowsKind(e: Expr)
    requires WellFormed(e)
    ensures Render(e) != "" && (e.Literal? <==> Render(e)[0] == '"')
    ensures e.Call? ==> '(' in Render(e)
    ensures e.Atom? ==> '(' !in Render(e)
  {
    match e {
      case Atom(text) => assert text[0] in text;
      case Literal(_) =>
      case Call(name, args) =>
        assert name[0] in name && Render(e)[0] == name[0] && Render(e)[|name|] == '(';
    }
  }
}
