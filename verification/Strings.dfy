/** The JavaScript string operations the data mapper uses. */
module Strings {

  /** The white space and line terminators that trim() removes. */
  predicate IsSpace(c: char) {
    var n := c as int;
    || 0x9 <= n <= 0xd || n == 0x20 || n == 0xa0 || n == 0x1680 || 0x2000 <= n <= 0x200a
    || n == 0x2028 || n == 0x2029 || n == 0x202f || n == 0x205f || n == 0x3000 || n == 0xfeff
  }

  function IndexOf(s: string, c: char): (i: int)
    ensures -1 <= i < |s|
    ensures i >= 0 ==> s[i] == c
    ensures forall k :: 0 <= k < (if i == -1 then |s| else i) ==> s[k] != c
  {
    if s == "" then -1
    else if s[0] == c then 0
    else
      var i := IndexOf(s[1..], c);
      if i == -1 then -1 else i + 1
  }

  function LastIndexOf(s: string, c: char): (i: int)
    ensures -1 <= i < |s|
    ensures i >= 0 ==> s[i] == c
    ensures forall k :: i < k < |s| ==> s[k] != c
  {
    if s == "" then -1
    else if s[|s| - 1] == c then |s| - 1
    else LastIndexOf(s[..|s| - 1], c)
  }

  function Clamp(i: int, n: nat): (r: nat)
    ensures r <= n
  {
    if i < 0 then 0 else if i > n then n else i
  }

  /** substring: indices are clamped, and exchanged when they come in the wrong order. */
  function Substring(s: string, start: int, end: int): (r: string)
    ensures 0 <= start <= end <= |s| ==> r == s[start..end]
  {
    var a, b := Clamp(start, |s|), Clamp(end, |s|);
    if a <= b then s[a..b] else s[b..a]
  }

  function TrimStart(s: string): string {
    if s != "" && IsSpace(s[0]) then TrimStart(s[1..]) else s
  }

  function TrimEnd(s: string): string {
    if s != "" && IsSpace(s[|s| - 1]) then TrimEnd(s[..|s| - 1]) else s
  }

  function Trim(s: string): string {
    TrimEnd(TrimStart(s))
  }

  /** Not empty, and with no white space at either end. */
  predicate IsTrimmed(s: string) {
    s != "" && !IsSpace(s[0]) && !IsSpace(s[|s| - 1])
  }

  lemma {:induction false} TrimStartShortens(s: string)
    ensures |TrimStart(s)| < |s| || TrimStart(s) == s
  {
    if s != "" && IsSpace(s[0]) { TrimStartShortens(s[1..]); }
  }

  lemma {:induction false} TrimEndShortens(s: string)
    ensures |TrimEnd(s)| < |s| || TrimEnd(s) == s
  {
    if s != "" && IsSpace(s[|s| - 1]) { TrimEndShortens(s[..|s| - 1]); }
  }

  lemma TrimShortens(s: string)
    ensures |Trim(s)| < |s| || Trim(s) == s
  {
    TrimStartShortens(s);
    TrimEndShortens(TrimStart(s));
  }

  predicate IsAllSpace(s: string) {
    forall i :: 0 <= i < |s| ==> IsSpace(s[i])
  }

  lemma {:induction false} TrimStartDropsSpace(s: string) returns (space: string)
    ensures s == space + TrimStart(s) && IsAllSpace(space)
    ensures TrimStart(s) != "" ==> !IsSpace(TrimStart(s)[0])
  {
    space := "";
    if s != "" && IsSpace(s[0]) {
      var rest := TrimStartDropsSpace(s[1..]);
      space := [s[0]] + rest;
    }
  }

  lemma {:induction false} TrimEndDropsSpace(s: string) returns (space: string)
    ensures s == TrimEnd(s) + space && IsAllSpace(space)
    ensures TrimEnd(s) != "" ==> !IsSpace(TrimEnd(s)[|TrimEnd(s)| - 1])
  {
    space := "";
    if s != "" && IsSpace(s[|s| - 1]) {
      var rest := TrimEndDropsSpace(s[..|s| - 1]);
      space := rest + [s[|s| - 1]];
    }
  }

  /** What trimming drops is white space around the text, and none is left at either end. */
  lemma TrimDropsSpace(s: string) returns (before: string, after: string)
    ensures s == before + Trim(s) + after && IsAllSpace(before) && IsAllSpace(after)
    ensures Trim(s) != "" ==> IsTrimmed(Trim(s))
  {
    before := TrimStartDropsSpace(s);
    after := TrimEndDropsSpace(TrimStart(s));
    if Trim(s) != "" {
      assert TrimStart(s)[0] == Trim(s)[0];
    }
  }

  lemma TrimDropsLeadingSpace(s: string)
    requires IsTrimmed(s)
    ensures Trim(s) == s && Trim(" " + s) == s
  {
    assert TrimStart(" " + s) == TrimStart(s) by {
      assert (" " + s)[1..] == s;
    }
  }

  function Join(parts: seq<string>, separator: string): string {
    if parts == [] then ""
    else if |parts| == 1 then parts[0]
    else parts[0] + separator + Join(parts[1..], separator)
  }

  /** Parts that are no longer join to a text that is no longer; one as long only if all parts are. */
  lemma {:induction false} JoinLengths(a: seq<string>, b: seq<string>, separator: string)
    requires |a| == |b| && forall i :: 0 <= i < |a| ==> |a[i]| <= |b[i]|
    ensures |Join(a, separator)| <= |Join(b, separator)|
    ensures |Join(a, separator)| == |Join(b, separator)| ==> forall i :: 0 <= i < |a| ==> |a[i]| == |b[i]|
    decreases |a|
  {
    if |a| > 1 {
      JoinLengths(a[1..], b[1..], separator);
      if |Join(a, separator)| == |Join(b, separator)| {
        forall i | 0 <= i < |a| ensures |a[i]| == |b[i]| {
          if i > 0 { assert a[1..][i - 1] == a[i] && b[1..][i - 1] == b[i]; }
        }
      }
    }
  }

  /** Whether the text occurs anywhere in s. */
  predicate Contains(s: string, text: string) {
    exists i :: 0 <= i <= |s| && text <= s[i..]
  }
}
