/** Map definitions as trees of texts: which values a tree lists, and when writing values gives a tree. */
module Definitions {
  import opened Model
  import opened MapWriter
  import opened MapWrites

  /** No text and no object in it is empty. */
  ghost predicate IsFull(e: Entry)
    decreases e
  {
    match e
    case Leaf(text) => text != ""
    case Branch(children) => children != map[] && forall k :: k in children ==> IsFull(children[k])
  }

  ghost predicate IsFullTree(t: Fields) {
    forall k :: k in t ==> IsFull(t[k])
  }

  lemma {:induction false} FullHasText(children: Fields) returns (keys: seq<string>)
    requires IsFull(Branch(children))
    ensures keys != [] && TextAt(children, keys).Some?
    decreases Branch(children)
  {
    var k :| k in children;
    assert IsFull(children[k]);
    keys := [k];
    if children[k].Branch? {
      assert children[k] == Branch(children[k].children);
      var rest := FullHasText(children[k].children);
      keys := [k] + rest;
      TextBelow(children, keys);
      assert keys[1..] == rest;
    }
  }

  lemma FieldHasText(t: Fields, k: string) returns (keys: seq<string>)
    requires k in t && IsFull(t[k])
    ensures keys != [] && keys[0] == k && TextAt(t, keys).Some?
  {
    keys := [k];
    if t[k].Branch? {
      assert t[k] == Branch(t[k].children);
      var rest := FullHasText(t[k].children);
      keys := [k] + rest;
      assert keys[1..] == rest;
      TextBelow(t, keys);
    }
  }

  lemma {:induction false} SameTextsSameEntry(e: Entry, f: Entry)
    requires IsFull(e) && IsFull(f) && e.Branch? && f.Branch?
    requires forall keys :: keys != [] ==> TextAt(e.children, keys) == TextAt(f.children, keys)
    ensures e == f
    decreases e
  {
    var t, u := e.children, f.children;
    forall k | k in t || k in u ensures k in t && k in u && t[k] == u[k] {
      SameField(t, u, k);
      if t[k].Branch? {
        FieldTextsAgree(t, u, k);
        SameTextsSameEntry(t[k], u[k]);
      }
    }
    assert t == u;
  }

  /** Fields with the same texts are of the same kind, and equal if they are texts. */
  lemma SameField(t: Fields, u: Fields, k: string)
    requires k in t || k in u
    requires k in t ==> IsFull(t[k])
    requires k in u ==> IsFull(u[k])
    requires forall keys :: keys != [] ==> TextAt(t, keys) == TextAt(u, keys)
    ensures k in t && k in u && t[k].Branch? == u[k].Branch? && (t[k].Leaf? ==> t[k] == u[k])
  {
    assert TextAt(t, [k]) == TextAt(u, [k]);
    if k in t && t[k].Branch? {
      TextInside(t, u, k);
    } else if k in u && u[k].Branch? {
      TextInside(u, t, k);
    }
  }

  lemma TextInside(t: Fields, u: Fields, k: string)
    requires k in t && t[k].Branch? && IsFull(t[k])
    requires forall keys :: keys != [] ==> TextAt(t, keys) == TextAt(u, keys)
    ensures k in u && u[k].Branch?
  {
    assert t[k] == Branch(t[k].children);
    var rest := FullHasText(t[k].children);
    var keys := [k] + rest;
    assert keys[1..] == rest;
    TextBelow(t, keys);
    TextBelow(u, keys);
    assert TextAt(t, keys) == TextAt(u, keys);
  }

  lemma FieldTextsAgree(t: Fields, u: Fields, k: string)
    requires k in t && k in u && t[k].Branch? && u[k].Branch?
    requires forall keys :: keys != [] ==> TextAt(t, keys) == TextAt(u, keys)
    ensures forall keys :: keys != [] ==> TextAt(t[k].children, keys) == TextAt(u[k].children, keys)
  {
    hide TextAt;
    forall keys: seq<string> | keys != [] ensures TextAt(t[k].children, keys) == TextAt(u[k].children, keys) {
      var longer := [k] + keys;
      assert longer[1..] == keys;
      TextBelow(t, longer);
      TextBelow(u, longer);
      assert TextAt(t, longer) == TextAt(u, longer);
    }
  }

  /** A full tree is determined by its texts. */
  lemma SameTextsSameTree(t: Fields, u: Fields)
    requires IsFullTree(t) && IsFullTree(u)
    requires forall keys :: keys != [] ==> TextAt(t, keys) == TextAt(u, keys)
    ensures t == u
  {
    hide TextAt;
    if t == map[] && u == map[] {
    } else {
      var k :| k in t || k in u;
      SameField(t, u, k);
      SameTextsSameEntry(Branch(t), Branch(u));
    }
  }

  lemma {:induction false} PutKeepsFull(t: Fields, p: ValuedPath)
    requires IsFullTree(t) && IsValued(p) && PutPath(t, p).Some?
    ensures IsFullTree(PutPath(t, p).value) && PutPath(t, p).value != map[]
    decreases |p.keys|
  {
    PutUnfolds(t, p);
    var key := p.keys[0];
    if |p.keys| > 1 {
      BelowIsFull(t, key);
      PutKeepsFull(Below(t, key), ValuedPath(p.keys[1..], p.value));
    }
    hide PutPath;
    assert key in PutPath(t, p).value;
  }

  lemma BelowIsFull(t: Fields, key: string)
    requires IsFullTree(t)
    ensures IsFullTree(Below(t, key))
  {
  }

  lemma {:induction false} PutAllKeepsFull(t: Fields, ps: seq<ValuedPath>)
    requires IsFullTree(t) && PutAll(t, ps).Some? && forall i :: 0 <= i < |ps| ==> IsValued(ps[i])
    ensures IsFullTree(PutAll(t, ps).value)
    decreases |ps|
  {
    hide PutPath, IsFull;
    if ps != [] {
      PutKeepsFull(t, ps[0]);
      PutAllKeepsFull(PutPath(t, ps[0]).value, ps[1..]);
    }
  }

  // ----- the values of a tree

  /** The paths and texts of a tree, each once, in whatever order its fields are gone through. */
  ghost predicate ListsTexts(t: Fields, ps: seq<ValuedPath>) {
    && (forall i :: 0 <= i < |ps| ==> ps[i].keys != [] && TextAt(t, ps[i].keys) == Some(ps[i].value))
    && (forall keys :: keys != [] && TextAt(t, keys).Some? ==> exists i :: 0 <= i < |ps| && ps[i].keys == keys)
    && (forall i, j :: 0 <= i < j < |ps| ==> ps[i].keys != ps[j].keys)
  }

  lemma ListedIsPrefixFree(t: Fields, ps: seq<ValuedPath>)
    requires ListsTexts(t, ps)
    ensures PrefixFree(ps) && forall i :: 0 <= i < |ps| ==> IsValued(ps[i])
  {
    forall i, j | 0 <= i < |ps| && 0 <= j < |ps| && i != j ensures Apart(ps[i].keys, ps[j].keys) {
      if ps[i].keys < ps[j].keys {
        NothingBelowText(t, ps[i].keys, ps[j].keys);
      } else if ps[j].keys < ps[i].keys {
        NothingBelowText(t, ps[j].keys, ps[i].keys);
      } else {
        assert ps[i].keys != ps[j].keys;
      }
    }
  }

  /** The texts of a tree that was written from nothing. */
  lemma {:induction false} WrittenTexts(ps: seq<ValuedPath>, keys: seq<string>)
    requires PrefixFree(ps) && keys != [] && forall i :: 0 <= i < |ps| ==> IsValued(ps[i])
    ensures PutAll(map[], ps).Some?
    ensures forall i :: 0 <= i < |ps| ==> TextAt(PutAll(map[], ps).value, ps[i].keys) == Some(ps[i].value)
    ensures TextAt(PutAll(map[], ps).value, keys).Some? ==> exists i :: 0 <= i < |ps| && ps[i].keys == keys
  {
    EmptyDefinitionTakesAll(ps);
    NoMappingIsLost(map[], ps);
    hide PutAll, AllFit, PrefixFree, Apart;
    var r := PutAll(map[], ps).value;
    if i :| 0 <= i < |ps| && !Apart(ps[i].keys, keys) {
      if ps[i].keys != keys {
        NotApartInWritten(r, ps[i], keys);
      }
    } else {
      assert Read(r, keys) == Read(map[], keys);
    }
  }

  lemma NotApartInWritten(r: Fields, p: ValuedPath, keys: seq<string>)
    requires IsValued(p) && p.keys != keys && keys != [] && !Apart(p.keys, keys) && TextAt(r, p.keys) == Some(p.value)
    ensures TextAt(r, keys).None?
  {
    if p.keys < keys {
      NothingBelowText(r, p.keys, keys);
    } else if TextAt(r, keys).Some? {
      NothingBelowText(r, keys, p.keys);
    }
  }

  /** Writing the values of a full tree, in whatever order, gives the tree. */
  lemma ListedTreeIsWritten(t: Fields, ps: seq<ValuedPath>)
    requires IsFullTree(t) && ListsTexts(t, ps)
    ensures PutAll(map[], ps) == Some(t)
  {
    ListedIsPrefixFree(t, ps);
    EmptyDefinitionTakesAll(ps);
    NoMappingIsLost(map[], ps);
    PutAllKeepsFull(map[], ps);
    var r := PutAll(map[], ps).value;
    hide PutAll, TextAt, IsFullTree, IsValued, AllFit, PrefixFree;
    forall keys: seq<string> | keys != [] ensures TextAt(r, keys) == TextAt(t, keys) {
      WrittenTexts(ps, keys);
    }
    SameTextsSameTree(r, t);
  }

  /** Writing to the paths of a full tree, with texts or without, gives the tree exactly when every text
      is the tree's own. */
  lemma WritesGiveTreeIff(t: Fields, ps: seq<ValuedPath>, written: seq<ValuedPath>)
    requires IsFullTree(t) && ListsTexts(t, ps)
    requires |written| == |ps| && forall i :: 0 <= i < |ps| ==> written[i].keys == ps[i].keys
    ensures PutAll(map[], written).Some? && PrefixFree(written) && AllFit(map[], written)
    ensures PutAll(map[], written) == Some(t) <==> written == ps
  {
    ListedIsPrefixFree(t, ps);
    SamePathsPrefixFree(ps, written);
    EmptyDefinitionTakesAll(written);
    NoMappingIsLost(map[], written);
    ListedTreeIsWritten(t, ps);
    hide PutAll, AllFit, PrefixFree, IsFullTree;
    if PutAll(map[], written) == Some(t) {
      forall i | 0 <= i < |ps| ensures written[i] == ps[i] {
        assert TextAt(t, ps[i].keys) == Some(ps[i].value);
        assert TextAt(map[], ps[i].keys) == None;
      }
    }
  }

  lemma SamePathsPrefixFree(ps: seq<ValuedPath>, written: seq<ValuedPath>)
    requires PrefixFree(ps) && |written| == |ps| && forall i :: 0 <= i < |ps| ==> written[i].keys == ps[i].keys
    ensures PrefixFree(written)
  {
    hide Apart;
  }

  // ----- listing the values

  /** The values of an entry, with their paths inside it. */
  ghost predicate EntryLists(e: Entry, ps: seq<ValuedPath>) {
    match e
    case Leaf(text) => ps == [ValuedPath([], text)]
    case Branch(children) => ListsTexts(children, ps)
  }

  function Under(k: string, ps: seq<ValuedPath>): (r: seq<ValuedPath>)
    ensures |r| == |ps| && forall i :: 0 <= i < |ps| ==> r[i] == ValuedPath([k] + ps[i].keys, ps[i].value)
  {
    seq(|ps|, i requires 0 <= i < |ps| => ValuedPath([k] + ps[i].keys, ps[i].value))
  }

  lemma TextUnder(k: string, e: Entry, keys: seq<string>)
    ensures TextAt(map[k := e], [k] + keys) ==
            if keys == [] then (if e.Leaf? && e.text != "" then Some(e.text) else None)
            else if e.Branch? then TextAt(e.children, keys) else None
  {
    assert ([k] + keys)[1..] == keys;
  }

  lemma ListsOne(k: string, e: Entry, ps: seq<ValuedPath>)
    requires IsFull(e) && EntryLists(e, ps)
    ensures ListsTexts(map[k := e], Under(k, ps))
  {
    var t, qs := map[k := e], Under(k, ps);
    hide TextAt;
    forall i | 0 <= i < |qs| ensures TextAt(t, qs[i].keys) == Some(qs[i].value) {
      TextUnder(k, e, ps[i].keys);
    }
    forall keys: seq<string> | keys != [] && TextAt(t, keys).Some?
      ensures exists i :: 0 <= i < |qs| && qs[i].keys == keys
    {
      OtherKeyHasNoText(k, e, keys);
      TextUnder(k, e, keys[1..]);
      assert keys == [k] + keys[1..];
      var i :| 0 <= i < |ps| && ps[i].keys == keys[1..];
      assert qs[i].keys == keys;
    }
    forall i, j | 0 <= i < j < |qs| ensures qs[i].keys != qs[j].keys {
      assert qs[i].keys[1..] == ps[i].keys && qs[j].keys[1..] == ps[j].keys;
    }
  }

  lemma OtherKeyHasNoText(k: string, e: Entry, keys: seq<string>)
    requires keys != []
    ensures TextAt(map[k := e], keys).Some? ==> keys[0] == k
  {
  }

  lemma TextInUnion(a: Fields, b: Fields, keys: seq<string>)
    requires a.Keys !! b.Keys && keys != []
    ensures TextAt(a + b, keys) == if keys[0] in a then TextAt(a, keys) else TextAt(b, keys)
    ensures TextAt(a, keys).Some? ==> keys[0] in a
    ensures TextAt(b, keys).Some? ==> keys[0] in b
  {
  }

  lemma ListsUnion(a: Fields, b: Fields, ps: seq<ValuedPath>, qs: seq<ValuedPath>)
    requires a.Keys !! b.Keys && ListsTexts(a, ps) && ListsTexts(b, qs)
    ensures ListsTexts(a + b, ps + qs)
  {
    var t, rs := a + b, ps + qs;
    hide TextAt;
    forall i | 0 <= i < |rs| ensures TextAt(t, rs[i].keys) == Some(rs[i].value) {
      TextInUnion(a, b, rs[i].keys);
    }
    forall keys: seq<string> | keys != [] && TextAt(t, keys).Some?
      ensures exists i :: 0 <= i < |rs| && rs[i].keys == keys
    {
      TextInUnion(a, b, keys);
      if keys[0] in a {
        var i :| 0 <= i < |ps| && ps[i].keys == keys;
        assert rs[i].keys == keys;
      } else {
        var i :| 0 <= i < |qs| && qs[i].keys == keys;
        assert rs[|ps| + i].keys == keys;
      }
    }
    forall i, j | 0 <= i < j < |rs| ensures rs[i].keys != rs[j].keys {
      TextInUnion(a, b, rs[i].keys);
      TextInUnion(a, b, rs[j].keys);
    }
  }

  /** Every full tree has a list. */
  lemma {:induction false} HasList(e: Entry, part: Fields) returns (ps: seq<ValuedPath>)
    requires IsFull(e) && e.Branch? && part.Keys <= e.children.Keys
    requires forall k :: k in part ==> part[k] == e.children[k]
    ensures ListsTexts(part, ps)
    decreases e, |part|
  {
    if part == map[] {
      ps := [];
      NothingToList();
    } else {
      var k :| k in part;
      hide ListsTexts;
      var first := EntryHasList(part[k]);
      ListsOne(k, part[k], first);
      var rest := HasList(e, part - {k});
      ListsUnion(map[k := part[k]], part - {k}, Under(k, first), rest);
      assert map[k := part[k]] + (part - {k}) == part;
      ps := Under(k, first) + rest;
    }
  }

  lemma NothingToList()
    ensures ListsTexts(map[], [])
  {
  }

  lemma {:induction false} EntryHasList(e: Entry) returns (ps: seq<ValuedPath>)
    requires IsFull(e)
    ensures EntryLists(e, ps)
    decreases e
  {
    if e.Leaf? {
      ps := [ValuedPath([], e.text)];
    } else {
      ps := HasList(e, e.children);
    }
  }
}