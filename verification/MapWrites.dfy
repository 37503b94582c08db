/** No mapping is lost: what any number of nested writes leave behind. */
module MapWrites {
  import opened Model
  import opened MapWriter

  /** A mapping as it is serialized: the keys down to the target, and a value that may be empty. */
  datatype ValuedPath = ValuedPath(keys: seq<string>, value: string)

  predicate IsValued(p: ValuedPath) {
    p.keys != [] && p.value != ""
  }

  /** Only the last item carries the value. */
  function Items(keys: seq<string>, value: string): seq<OutputPathItem> {
    if keys == [] then []
    else [OutputPathItem(keys[0], if |keys| == 1 then value else "")] + Items(keys[1..], value)
  }

  function PutPath(t: Fields, p: ValuedPath): Option<Fields> {
    WriteAt(t, Items(p.keys, p.value))
  }

  function Read(t: Fields, keys: seq<string>): Option<Entry>
    decreases |keys|
  {
    if keys == [] then Some(Branch(t))
    else if keys[0] !in t then None
    else if |keys| == 1 then Some(t[keys[0]])
    else if t[keys[0]].Branch? then Read(t[keys[0]].children, keys[1..])
    else None
  }

  /** The text under the keys, if there is one. */
  function TextAt(t: Fields, keys: seq<string>): Option<string> {
    match Read(t, keys)
    case Some(Leaf(text)) => if text != "" then Some(text) else None
    case _ => None
  }

  /** Neither sequence of keys begins with the other. */
  predicate Apart(a: seq<string>, b: seq<string>) {
    !(a <= b) && !(b <= a)
  }

  /** The fields one level down, as the writer finds or makes them. */
  function Below(t: Fields, key: string): Fields {
    if key in t && t[key].Branch? then t[key].children else map[]
  }

  predicate IsText(t: Fields, key: string) {
    key in t && t[key].Leaf? && t[key].text != ""
  }

  lemma PutUnfolds(t: Fields, p: ValuedPath)
    requires p.keys != []
    ensures |p.keys| == 1 ==> PutPath(t, p) == Some(t[p.keys[0] := Place(t, OutputPathItem(p.keys[0], p.value))])
    ensures |p.keys| > 1 ==>
              var rest := PutPath(Below(t, p.keys[0]), ValuedPath(p.keys[1..], p.value));
              PutPath(t, p) == if IsText(t, p.keys[0]) || rest.None? then None
                  else Some(t[p.keys[0] := Branch(rest.value)])
  {
    var items := Items(p.keys, p.value);
    assert items[1..] == Items(p.keys[1..], p.value);
    assert |p.keys| == 1 ==> p.keys[1..] == [];
  }

  lemma TextBelow(t: Fields, keys: seq<string>)
    requires |keys| > 1
    ensures TextAt(t, keys) == TextAt(Below(t, keys[0]), keys[1..])
    ensures IsText(t, keys[0]) <==> TextAt(t, keys[..1]).Some?
  {
    assert keys[..1] == [keys[0]];
  }

  /** A write throws exactly when a text stands on the way. */
  lemma {:induction false} PutThrowsIff(t: Fields, p: ValuedPath)
    requires p.keys != []
    ensures PutPath(t, p).None? <==> exists n :: 0 < n < |p.keys| && TextAt(t, p.keys[..n]).Some?
    decreases |p.keys|
  {
    PutUnfolds(t, p);
    if |p.keys| > 1 {
      var key, rest := p.keys[0], ValuedPath(p.keys[1..], p.value);
      PutThrowsIff(Below(t, key), rest);
      hide PutPath, TextAt, Below, IsText;
      TextBelow(t, p.keys);
      forall n | 1 < n < |p.keys| ensures TextAt(t, p.keys[..n]) == TextAt(Below(t, key), rest.keys[..n - 1]) {
        TextBelow(t, p.keys[..n]);
        assert p.keys[..n][1..] == rest.keys[..n - 1];
      }
      if n :| 0 < n < |rest.keys| && TextAt(Below(t, key), rest.keys[..n]).Some? {
        assert TextAt(t, p.keys[..n + 1]) == TextAt(Below(t, key), rest.keys[..n + 1 - 1]);
      }
      if n :| 0 < n < |p.keys| && TextAt(t, p.keys[..n]).Some? && n > 1 {
        assert TextAt(Below(t, key), rest.keys[..n - 1]).Some?;
      }
    }
  }

  /** A write with a value reads back as it; one without leaves the text that was there, or none. */
  lemma {:induction false} ReadsBackOwn(t: Fields, p: ValuedPath)
    requires p.keys != [] && PutPath(t, p).Some?
    ensures TextAt(PutPath(t, p).value, p.keys) == if p.value != "" then Some(p.value) else TextAt(t, p.keys)
    decreases |p.keys|
  {
    PutUnfolds(t, p);
    if |p.keys| > 1 {
      ReadsBackOwn(Below(t, p.keys[0]), ValuedPath(p.keys[1..], p.value));
      hide PutPath, TextAt;
      TextBelow(t, p.keys);
      TextBelow(PutPath(t, p).value, p.keys);
    }
  }

  /** A path off the written one reads what it read before. */
  lemma {:induction false} OtherPathsUnchanged(t: Fields, p: ValuedPath, keys: seq<string>)
    requires p.keys != [] && PutPath(t, p).Some? && Apart(p.keys, keys)
    ensures Read(PutPath(t, p).value, keys) == Read(t, keys)
    decreases |p.keys|
  {
    PutUnfolds(t, p);
    if keys[0] == p.keys[0] {
      var below := Below(t, keys[0]);
      ApartBelow(p.keys, keys);
      OtherPathsUnchanged(below, ValuedPath(p.keys[1..], p.value), keys[1..]);
    }
  }

  lemma ApartBelow(a: seq<string>, b: seq<string>)
    requires Apart(a, b) && a[0] == b[0]
    ensures |a| > 1 && |b| > 1 && Apart(a[1..], b[1..])
  {
    assert |a| == 1 ==> a <= b;
    assert |b| == 1 ==> b <= a;
    assert a == [a[0]] + a[1..] && b == [b[0]] + b[1..];
  }

  /** What a second write does to the first: its value survives exactly when the two paths are apart,
      the two mappings are the same, or the second writes no text and ends at the first or above it. */
  lemma SecondWriteKeepsFirstIff(t: Fields, p: ValuedPath, q: ValuedPath)
    requires IsValued(p) && q.keys != [] && PutPath(t, p).Some? && PutPath(PutPath(t, p).value, q).Some?
    ensures TextAt(PutPath(PutPath(t, p).value, q).value, p.keys) == Some(p.value) <==>
            Apart(p.keys, q.keys) || p == q || (q.value == "" && q.keys <= p.keys)
  {
    var u := PutPath(t, p).value;
    ReadsBackOwn(t, p);
    ReadsBackOwn(u, q);
    if Apart(p.keys, q.keys) {
      OtherPathsUnchanged(u, q, p.keys);
    } else if p.keys < q.keys {
      NoWriteBelowText(u, p.keys, q);
    } else if q.keys < p.keys {
      if q.value == "" {
        TextlessWriteKeepsBelow(u, q, p.keys);
      } else {
        NothingBelowText(PutPath(u, q).value, q.keys, p.keys);
      }
    } else {
      assert p.keys == q.keys;
    }
  }

  /** A write without a value changes no text below it. */
  lemma {:induction false} TextlessWriteKeepsBelow(t: Fields, q: ValuedPath, keys: seq<string>)
    requires q.keys != [] && q.value == "" && q.keys < keys && PutPath(t, q).Some?
    ensures TextAt(PutPath(t, q).value, keys) == TextAt(t, keys)
    decreases |q.keys|
  {
    PutUnfolds(t, q);
    if |q.keys| > 1 {
      assert q.keys[1..] < keys[1..] && q.keys[0] == keys[0];
      TextlessWriteKeepsBelow(Below(t, q.keys[0]), ValuedPath(q.keys[1..], q.value), keys[1..]);
      hide PutPath, TextAt;
      TextBelow(t, keys);
      TextBelow(PutPath(t, q).value, keys);
    } else {
      hide PutPath;
      assert keys[0] == q.keys[0];
      TextBelow(t, keys);
      TextBelow(PutPath(t, q).value, keys);
    }
  }

  lemma NoWriteBelowText(t: Fields, keys: seq<string>, q: ValuedPath)
    requires keys != [] && keys < q.keys && TextAt(t, keys).Some?
    ensures PutPath(t, q).None?
  {
    PutThrowsIff(t, q);
    assert q.keys[..|keys|] == keys;
  }

  lemma {:induction false} NothingBelowText(t: Fields, prefix: seq<string>, keys: seq<string>)
    requires prefix < keys && prefix != [] && TextAt(t, prefix).Some?
    ensures Read(t, keys) == None
    decreases |prefix|
  {
    assert prefix[0] == keys[0];
    if |prefix| > 1 {
      NothingBelowText(t[prefix[0]].children, prefix[1..], keys[1..]);
    }
  }

  ghost predicate Commute(t: Fields, p: ValuedPath, q: ValuedPath) {
    && PutPath(t, p).Some? && PutPath(t, q).Some?
    && PutPath(PutPath(t, p).value, q).Some? && PutPath(PutPath(t, p).value, q) == PutPath(PutPath(t, q).value, p)
  }

  /** One write only concerns the field under its first key. */
  function Field(t: Fields, p: ValuedPath): Option<Entry>
    requires p.keys != []
  {
    var rest := PutPath(Below(t, p.keys[0]), ValuedPath(p.keys[1..], p.value));
    if |p.keys| == 1 then Some(Place(t, OutputPathItem(p.keys[0], p.value)))
    else if IsText(t, p.keys[0]) || rest.None? then None
    else Some(Branch(rest.value))
  }

  lemma PutSetsField(t: Fields, p: ValuedPath)
    requires p.keys != []
    ensures PutPath(t, p) == if Field(t, p).None? then None else Some(t[p.keys[0] := Field(t, p).value])
  {
    PutUnfolds(t, p);
  }

  lemma FieldDependsOnKeyOnly(t: Fields, p: ValuedPath, other: string, e: Entry)
    requires p.keys != [] && other != p.keys[0]
    ensures Field(t[other := e], p) == Field(t, p)
  {
    hide PutPath;
    assert Below(t[other := e], p.keys[0]) == Below(t, p.keys[0]);
  }

  lemma CommuteApartAtOnce(t: Fields, p: ValuedPath, q: ValuedPath)
    requires p.keys != [] && q.keys != [] && p.keys[0] != q.keys[0]
    requires PutPath(t, p).Some? && PutPath(t, q).Some?
    ensures Commute(t, p, q)
  {
    hide PutPath, Field;
    var a, b := p.keys[0], q.keys[0];
    PutSetsField(t, p);
    PutSetsField(t, q);
    var x, y := Field(t, p).value, Field(t, q).value;
    FieldDependsOnKeyOnly(t, p, b, y);
    FieldDependsOnKeyOnly(t, q, a, x);
    PutSetsField(t[a := x], q);
    PutSetsField(t[b := y], p);
    assert t[a := x][b := y] == t[b := y][a := x];
  }

  lemma CommuteBelow(t: Fields, p: ValuedPath, q: ValuedPath)
    requires p.keys != [] && q.keys != [] && |p.keys| > 1 && |q.keys| > 1 && p.keys[0] == q.keys[0]
    requires PutPath(t, p).Some? && PutPath(t, q).Some?
    requires Commute(Below(t, p.keys[0]), ValuedPath(p.keys[1..], p.value), ValuedPath(q.keys[1..], q.value))
    ensures Commute(t, p, q)
  {
    hide PutPath;
    var a, rp, rq := p.keys[0], ValuedPath(p.keys[1..], p.value), ValuedPath(q.keys[1..], q.value);
    PutSetsField(t, p);
    PutSetsField(t, q);
    var x, y := Field(t, p).value, Field(t, q).value;
    PutSetsField(t[a := x], q);
    PutSetsField(t[a := y], p);
    assert Below(t[a := x], a) == PutPath(Below(t, a), rp).value;
    assert Below(t[a := y], a) == PutPath(Below(t, a), rq).value;
    var z := PutPath(PutPath(Below(t, a), rp).value, rq).value;
    assert t[a := x][a := Branch(z)] == t[a := Branch(z)] == t[a := y][a := Branch(z)];
  }

  /** Two writes to paths that are apart can be exchanged. */
  lemma {:induction false} WritesCommute(t: Fields, p: ValuedPath, q: ValuedPath)
    requires p.keys != [] && q.keys != [] && Apart(p.keys, q.keys)
    requires PutPath(t, p).Some? && PutPath(t, q).Some?
    ensures PutPath(PutPath(t, p).value, q).Some? && PutPath(PutPath(t, q).value, p).Some?
    ensures PutPath(PutPath(t, p).value, q) == PutPath(PutPath(t, q).value, p)
    decreases |p.keys|
  {
    if p.keys[0] == q.keys[0] {
      hide PutPath;
      ApartBelow(p.keys, q.keys);
      PutSetsField(t, p);
      PutSetsField(t, q);
      WritesCommute(Below(t, p.keys[0]), ValuedPath(p.keys[1..], p.value), ValuedPath(q.keys[1..], q.value));
      CommuteBelow(t, p, q);
    } else {
      hide PutPath;
      CommuteApartAtOnce(t, p, q);
    }
  }

  // ----- all mappings of a definition

  function PutAll(t: Fields, ps: seq<ValuedPath>): Option<Fields>
    decreases |ps|
  {
    if ps == [] then Some(t)
    else
      var next := PutPath(t, ps[0]);
      if next.None? then None else PutAll(next.value, ps[1..])
  }

  /** Paths none of which begins with another. */
  ghost predicate PrefixFree(ps: seq<ValuedPath>) {
    && (forall i :: 0 <= i < |ps| ==> ps[i].keys != [])
    && (forall i, j :: 0 <= i < |ps| && 0 <= j < |ps| && i != j ==> Apart(ps[i].keys, ps[j].keys))
  }

  ghost predicate AllFit(t: Fields, ps: seq<ValuedPath>) {
    forall i :: 0 <= i < |ps| ==> PutPath(t, ps[i]).Some?
  }

  lemma FirstFitsRest(t: Fields, ps: seq<ValuedPath>)
    requires ps != [] && PrefixFree(ps) && AllFit(t, ps)
    ensures PrefixFree(ps[1..]) && AllFit(PutPath(t, ps[0]).value, ps[1..])
  {
    forall i | 0 <= i < |ps[1..]| ensures PutPath(PutPath(t, ps[0]).value, ps[1..][i]).Some? {
      WritesCommute(t, ps[0], ps[i + 1]);
    }
  }

  /** After all writes every mapping reads back its value, a path written without one reads the text it
      had before, and every other path what it read before. */
  lemma {:induction false} NoMappingIsLost(t: Fields, ps: seq<ValuedPath>)
    requires PrefixFree(ps) && AllFit(t, ps)
    ensures PutAll(t, ps).Some?
    ensures forall i :: 0 <= i < |ps| ==>
              TextAt(PutAll(t, ps).value, ps[i].keys) == if ps[i].value != "" then Some(ps[i].value)
                  else TextAt(t, ps[i].keys)
    ensures forall keys :: (forall i :: 0 <= i < |ps| ==> Apart(ps[i].keys, keys)) ==>
              Read(PutAll(t, ps).value, keys) == Read(t, keys)
    decreases |ps|
  {
    if ps != [] {
      hide PutPath, Apart, AllFit, PrefixFree;
      var next, rest := FirstAndRest(t, ps);
      NoMappingIsLost(next, rest);
      var r := PutAll(t, ps).value;
      assert Read(r, ps[0].keys) == Read(next, ps[0].keys) by { FirstIsApart(ps); }
      forall i | 0 <= i < |ps|
        ensures TextAt(r, ps[i].keys) == if ps[i].value != "" then Some(ps[i].value) else TextAt(t, ps[i].keys)
      {
        if i > 0 {
          FirstIsApart(ps);
          OtherPathsUnchanged(t, ps[0], ps[i].keys);
          assert rest[i - 1] == ps[i];
        }
      }
      forall keys | forall i :: 0 <= i < |ps| ==> Apart(ps[i].keys, keys) ensures Read(r, keys) == Read(t, keys) {
        assert forall i :: 0 <= i < |rest| ==> rest[i] == ps[i + 1];
        OtherPathsUnchanged(t, ps[0], keys);
      }
    }
  }

  lemma FirstAndRest(t: Fields, ps: seq<ValuedPath>) returns (next: Fields, rest: seq<ValuedPath>)
    requires ps != [] && PrefixFree(ps) && AllFit(t, ps)
    ensures PutPath(t, ps[0]) == Some(next) && rest == ps[1..] && PrefixFree(rest) && AllFit(next, rest)
    ensures ps[0].keys != []
            && TextAt(next, ps[0].keys) == if ps[0].value != "" then Some(ps[0].value) else TextAt(t, ps[0].keys)
  {
    FirstFitsRest(t, ps);
    next, rest := PutPath(t, ps[0]).value, ps[1..];
    ReadsBackOwn(t, ps[0]);
  }

  lemma FirstIsApart(ps: seq<ValuedPath>)
    requires ps != [] && PrefixFree(ps)
    ensures forall i :: 0 < i < |ps| ==> Apart(ps[i].keys, ps[0].keys) && Apart(ps[0].keys, ps[i].keys)
    ensures forall i :: 0 <= i < |ps[1..]| ==> Apart(ps[1..][i].keys, ps[0].keys)
  {
    hide Apart;
  }

  /** The position of a mapping does not matter: it can be written first. */
  function ToFront(ps: seq<ValuedPath>, i: nat): seq<ValuedPath>
    requires i < |ps|
  {
    [ps[i]] + ps[..i] + ps[i + 1..]
  }

  lemma FirstTwoSwap(t: Fields, p: ValuedPath, q: ValuedPath, tail: seq<ValuedPath>)
    requires p.keys != [] && q.keys != [] && Apart(p.keys, q.keys)
    requires PutPath(t, p).Some? && PutPath(t, q).Some?
    ensures PutAll(t, [p, q] + tail) == PutAll(t, [q, p] + tail)
  {
    hide PutPath;
    WritesCommute(t, p, q);
    PutFirst(t, p, [q] + tail);
    PutFirst(t, q, [p] + tail);
    PutFirst(PutPath(t, p).value, q, tail);
    PutFirst(PutPath(t, q).value, p, tail);
    assert [p] + ([q] + tail) == [p, q] + tail && [q] + ([p] + tail) == [q, p] + tail;
  }

  lemma PutFirst(t: Fields, p: ValuedPath, tail: seq<ValuedPath>)
    requires PutPath(t, p).Some?
    ensures PutAll(t, [p] + tail) == PutAll(PutPath(t, p).value, tail)
  {
    hide PutPath;
    assert ([p] + tail)[1..] == tail;
  }

  lemma {:induction false} CanGoFirst(t: Fields, ps: seq<ValuedPath>, i: nat)
    requires i < |ps| && PrefixFree(ps) && AllFit(t, ps)
    ensures PutAll(t, ps) == PutAll(t, ToFront(ps, i))
    decreases i
  {
    hide PutPath, PutAll, Apart, PrefixFree, AllFit;
    if i == 0 {
      assert ToFront(ps, i) == ps;
    } else {
      var first, rest := ps[0], ps[1..];
      var tail := ToFrontByOne(ps, i);
      BothFit(t, ps, 0, i);
      FirstFitsRest(t, ps);
      CanGoFirst(PutPath(t, first).value, rest, i - 1);
      PutFirst(t, first, rest);
      PutFirst(t, first, [ps[i]] + tail);
      FirstTwoSwap(t, first, ps[i], tail);
    }
  }

  lemma ToFrontByOne(ps: seq<ValuedPath>, i: nat) returns (tail: seq<ValuedPath>)
    requires 0 < i < |ps|
    ensures ToFront(ps[1..], i - 1) == [ps[i]] + tail && ToFront(ps, i) == [ps[i], ps[0]] + tail
    ensures [ps[0]] + ps[1..] == ps && [ps[0]] + ([ps[i]] + tail) == [ps[0], ps[i]] + tail
  {
    tail := ps[1..i] + ps[i + 1..];
  }

  lemma BothFit(t: Fields, ps: seq<ValuedPath>, i: nat, j: nat)
    requires i < |ps| && j < |ps| && i != j && PrefixFree(ps) && AllFit(t, ps)
    ensures ps[i].keys != [] && ps[j].keys != [] && Apart(ps[i].keys, ps[j].keys)
    ensures PutPath(t, ps[i]).Some? && PutPath(t, ps[j]).Some?
  {
    hide PutPath, Apart;
  }

  /** The tree after all writes does not depend on their order. */
  lemma {:induction false} OrderDoesNotMatter(t: Fields, ps: seq<ValuedPath>, qs: seq<ValuedPath>)
    requires PrefixFree(ps) && AllFit(t, ps) && multiset(ps) == multiset(qs)
    ensures PutAll(t, ps) == PutAll(t, qs)
    decreases |ps|
  {
    hide PutPath, PutAll, PrefixFree, AllFit;
    if qs == [] {
      assert multiset(ps) == multiset{};
      assert |multiset(ps)| == |ps|;
    } else {
      var i := IndexOfFirst(ps, qs);
      var moved := ToFront(ps, i);
      CanGoFirst(t, ps, i);
      SamePermuted(ps, i);
      PermutedIsPrefixFree(ps, i);
      PermutedFits(t, ps, i);
      FirstFitsRest(t, moved);
      SameRest(moved, qs);
      OrderDoesNotMatter(PutPath(t, qs[0]).value, moved[1..], qs[1..]);
      PutFirst(t, qs[0], moved[1..]);
      PutFirst(t, qs[0], qs[1..]);
      assert [qs[0]] + moved[1..] == moved && [qs[0]] + qs[1..] == qs;
    }
  }

  lemma IndexOfFirst(ps: seq<ValuedPath>, qs: seq<ValuedPath>) returns (i: nat)
    requires qs != [] && multiset(ps) == multiset(qs)
    ensures i < |ps| && ps[i] == qs[0]
  {
    assert qs[0] in multiset(qs);
    i :| 0 <= i < |ps| && ps[i] == qs[0];
  }

  lemma SameRest(ps: seq<ValuedPath>, qs: seq<ValuedPath>)
    requires ps != [] && qs != [] && ps[0] == qs[0] && multiset(ps) == multiset(qs)
    ensures multiset(ps[1..]) == multiset(qs[1..])
  {
    assert ps == [ps[0]] + ps[1..] && qs == [qs[0]] + qs[1..];
    assert multiset(ps[1..]) == multiset(ps) - multiset{ps[0]};
  }

  lemma SamePermuted(ps: seq<ValuedPath>, i: nat)
    requires i < |ps|
    ensures multiset(ToFront(ps, i)) == multiset(ps)
  {
    assert ps == ps[..i] + [ps[i]] + ps[i + 1..];
  }

  lemma PermutedIsPrefixFree(ps: seq<ValuedPath>, i: nat)
    requires i < |ps| && PrefixFree(ps)
    ensures PrefixFree(ToFront(ps, i))
  {
    hide Apart;
    var moved := ToFront(ps, i);
    assert forall j :: 0 <= j < |moved| ==> moved[j] == ps[if j == 0 then i else if j <= i then j - 1 else j];
  }

  lemma PermutedFits(t: Fields, ps: seq<ValuedPath>, i: nat)
    requires i < |ps| && AllFit(t, ps)
    ensures AllFit(t, ToFront(ps, i)) && PutPath(t, ps[i]).Some?
  {
    hide PutPath;
    var moved := ToFront(ps, i);
    assert forall j :: 0 <= j < |moved| ==> moved[j] == ps[if j == 0 then i else if j <= i then j - 1 else j];
  }

  /** From an empty definition every write fits. */
  lemma EmptyDefinitionTakesAll(ps: seq<ValuedPath>)
    requires PrefixFree(ps)
    ensures AllFit(map[], ps)
  {
    forall i | 0 <= i < |ps| ensures PutPath(map[], ps[i]).Some? {
      PutThrowsIff(map[], ps[i]);
    }
  }
}
