/** Writing the values of a map definition into nested objects (applyValueAtPath in
    MapDefinitionSerializer.ts), for paths without array items. */
module MapWriter {
  import opened Model

  /** A map definition entry as a value; the order of keys is left aside. */
  datatype Entry = Leaf(text: string) | Branch(children: Fields)

  type Fields = map<string, Entry>

  /** An absent value is written as "": the source treats both alike. */
  datatype OutputPathItem = OutputPathItem(key: string, value: string)

  // ----- the specification of one write

  /** What the first item finds or makes under its key. */
  function Place(t: Fields, item: OutputPathItem): Entry {
    if item.value != "" then Leaf(item.value)
    else if item.key in t && t[item.key] != Leaf("") then t[item.key]
    else Branch(map[])
  }

  /** None where the path goes on below a text, which throws. */
  function WriteAt(t: Fields, path: seq<OutputPathItem>): Option<Fields>
    decreases |path|
  {
    if path == [] then Some(t)
    else
      var key, placed := path[0].key, Place(t, path[0]);
      if |path| == 1 then Some(t[key := placed])
      else if placed.Leaf? then None
      else
        var below := WriteAt(placed.children, path[1..]);
        if below.None? then None else Some(t[key := Branch(below.value)])
  }

  // ----- the write as the source carries it out, on objects

  datatype Value = Text(text: string) | Nested(entry: MapDefinitionEntry)

  class MapDefinitionEntry {
    var fields: map<string, Value>
    ghost var Repr: set<object>

    ghost predicate Valid()
      reads this, Repr
      decreases Repr
    {
      && this in Repr
      && (forall k :: k in fields && fields[k].Nested? ==>
            var e := fields[k].entry;
            e in Repr && e.Repr < Repr && this !in e.Repr && e.Valid())
      && (forall k, l :: k in fields && l in fields && k != l && fields[k].Nested? && fields[l].Nested? ==>
            fields[k].entry.Repr !! fields[l].entry.Repr)
    }

    ghost function EntryAt(key: string): Entry
      requires Valid() && key in fields
      reads this, Repr
      decreases Repr, 0
    {
      match fields[key]
      case Text(text) => Leaf(text)
      case Nested(e) => Branch(e.Contents())
    }

    ghost function Contents(): Fields
      requires Valid()
      reads this, Repr
      decreases Repr, 1
    {
      map k | k in fields :: EntryAt(k)
    }

    lemma ContentsWith(before: Fields, key: string)
      requires Valid() && before.Keys + {key} == fields.Keys
      requires forall k :: k in fields && k != key ==> EntryAt(k) == before[k]
      ensures Contents() == before[key := EntryAt(key)]
    {
    }

    constructor ()
      ensures Valid() && Contents() == map[] && fresh(Repr)
    {
      fields := map[];
      Repr := {this};
    }

    method PutObject(key: string)
      requires Valid()
      modifies this
      ensures Valid() && fresh(Repr - old(Repr)) && old(Repr) <= Repr
      ensures Contents() == old(Contents())[key := Branch(map[])]
      ensures fields.Keys == old(fields).Keys + {key} && fields[key].Nested?
    {
      var child := new MapDefinitionEntry();
      Attach(key, child);
    }

    /** Puts an object that shares nothing with this one under the key. */
    method Attach(key: string, child: MapDefinitionEntry)
      requires Valid() && child.Valid() && child.Repr !! Repr
      modifies this
      ensures Valid() && Repr == old(Repr) + child.Repr
      ensures child.Valid() && child.Repr == old(child.Repr)
      ensures Contents() == old(Contents())[key := Branch(old(child.Contents()))]
      ensures fields.Keys == old(fields).Keys + {key} && fields[key].Nested?
    {
      ghost var before := Contents();
      fields := fields[key := Nested(child)];
      Repr := Repr + child.Repr;
      assert Valid();
      forall k | k in fields && k != key ensures EntryAt(k) == before[k] {
        assert before[k] == old(EntryAt(k));
      }
      ContentsWith(before, key);
    }

    method PutText(key: string, text: string)
      requires Valid()
      modifies this
      ensures Valid() && Repr == old(Repr)
      ensures Contents() == old(Contents())[key := Leaf(text)]
      ensures fields.Keys == old(fields).Keys + {key} && fields[key].Text?
    {
      fields := fields[key := Text(text)];
    }

    /** Puts a text or a new, empty object under the first item's key where the source does. */
    method PlaceFirst(item: OutputPathItem)
      requires Valid()
      modifies this
      ensures Valid() && fresh(Repr - old(Repr)) && old(Repr) <= Repr
      ensures Contents() == old(Contents())[item.key := Place(old(Contents()), item)]
      ensures item.key in fields && (fields[item.key].Text? <==> Place(old(Contents()), item).Leaf?)
    {
      ghost var before := Contents();
      if item.key !in fields || fields[item.key] == Text("") {
        PutObject(item.key);
      }
      if item.value != "" {
        PutText(item.key, item.value);
      }
      assert Contents() == before[item.key := Place(before, item)];
    }

    /** Writes the rest of the path into the object under the key; its siblings stay as they are. */
    method ApplyBelow(key: string, rest: seq<OutputPathItem>) returns (ok: bool)
      requires Valid() && key in fields && fields[key].Nested?
      modifies Repr
      ensures ok <==> WriteAt(old(fields[key].entry.Contents()), rest).Some?
      ensures ok ==> Valid() && fresh(Repr - old(Repr))
      ensures ok ==>
              Contents() == old(Contents())[key := Branch(WriteAt(old(fields[key].entry.Contents()), rest).value)]
      decreases |rest|, 1
    {
      hide WriteAt;
      var child := fields[key].entry;
      ghost var before := Contents();
      ok := child.ApplyValueAtPath(rest);
      if ok {
        Repr := Repr + child.Repr;
        assert Valid();
        forall k | k in fields && k != key ensures EntryAt(k) == before[k] {
          assert before[k] == old(EntryAt(k));
        }
        ContentsWith(before, key);
      }
    }

    method ApplyValueAtPath(path: seq<OutputPathItem>) returns (ok: bool)
      requires Valid()
      modifies Repr
      ensures ok <==> WriteAt(old(Contents()), path).Some?
      ensures ok ==> Valid() && fresh(Repr - old(Repr)) && WriteAt(old(Contents()), path) == Some(Contents())
      decreases |path|, 0
    {
      if path == [] {
        return true;
      }
      var key := path[0].key;
      ghost var before := Contents();
      PlaceFirst(path[0]);
      if |path| == 1 {
        return true;
      }
      if fields[key].Text? {
        return false;
      }
      ghost var placed := Contents();
      assert placed[key] == Branch(fields[key].entry.Contents());
      ghost var written := WriteAt(placed[key].children, path[1..]);
      ok := ApplyBelow(key, path[1..]);
      assert ok ==> Contents() == before[key := Branch(written.value)];
    }
  }
}
