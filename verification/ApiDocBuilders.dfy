/** The message skeletons built from a parsed interface document (common/api_doc_convert.py): the JSON
  * builder and the XML builder, and what the two have in common. */
module ApiDocBuilders {
  import opened Options
  import opened ApiDocMachine

  datatype Json = Text(value: string) | Object(entries: seq<Entry>) | List(items: seq<Json>)

  datatype Entry = Entry(key: string, value: Json)

  /** IndexError of an empty array; KeyError of a node without the key that is read. */
  datatype BuildError = EmptyArray | MissingKey

  /** result[key] = value on an insertion-ordered dictionary. */
  function Put(entries: seq<Entry>, key: string, value: Json): seq<Entry> {
    if entries == [] then [Entry(key, value)]
    else if entries[0].key == key then [Entry(key, value)] + entries[1..]
    else [entries[0]] + Put(entries[1..], key, value)
  }

  /** build_json(node, False). */
  function JsonOf(node: Field): Result<Json, BuildError>
    decreases node, 1
  {
    match node
    case Leaf(_, _, _) => Ok(Text(""))
    case Array(_, items) =>
      if items == [] then Err(EmptyArray)
      else
        var item := JsonOf(items[0]);
        if item.Err? then item else Ok(List([item.value]))
    case _ =>
      var entries := EntriesOf(node.children);
      if entries.Err? then Err(entries.error) else Ok(Object(entries.value))
  }

  /** The dictionary after the children have been put in, one by one. */
  function EntriesOf(cs: seq<Field>): Result<seq<Entry>, BuildError>
    decreases cs, 0
  {
    if cs == [] then Ok([])
    else
      var before := EntriesOf(cs[..|cs| - 1]);
      var child := cs[|cs| - 1];
      if before.Err? then before
      else
        var value := EntryOf(child);
        if value.Err? then Err(value.error) else Ok(Put(before.value, child.name, value.value))
  }

  /** The value stored for a child; an array's list is put in a list again. */
  function EntryOf(child: Field): (r: Result<Json, BuildError>)
    ensures r.Ok? ==> !child.Unnamed?
    decreases child, 2
  {
    match child
    case Leaf(_, _, length) => Ok(Text(length))
    case Struct(_, _) => JsonOf(child)
    case Array(_, _) =>
      var list := JsonOf(child);
      if list.Err? then list else Ok(List([list.value]))
    case Unnamed(_) => Err(MissingKey)
  }

  /** build_json as its loop over the children of a structure. */
  method BuildJson(node: Field) returns (r: Result<Json, BuildError>)
    ensures r == JsonOf(node)
    decreases node
  {
    match node {
      case Leaf(_, _, _) =>
        r := Ok(Text(""));
      case Array(_, items) =>
        if items == [] {
          return Err(EmptyArray);
        }
        r := BuildJson(items[0]);
        if r.Ok? {
          r := Ok(List([r.value]));
        }
      case _ =>
        var children := node.children;
        var result: seq<Entry> := [];
        for i := 0 to |children|
          invariant EntriesOf(children[..i]) == Ok(result)
        {
          var child := children[i];
          assert children[..i + 1][..i] == children[..i];
          if child.Unnamed? {
            EntriesFail(children, i);
            return Err(MissingKey);
          }
          var value := Text("");
          if child.Leaf? {
            value := Text(child.length);
          } else {
            var built := BuildJson(child);
            if built.Err? {
              EntriesFail(children, i);
              return built;
            }
            value := if child.Array? then List([built.value]) else built.value;
          }
          result := Put(result, child.name, value);
        }
        assert children[..|children|] == children;
        r := Ok(Object(result));
    }
  }

  /** The first child that fails makes the whole structure fail with its error. */
  lemma {:induction false} EntriesFail(cs: seq<Field>, i: nat)
    requires i < |cs| && EntriesOf(cs[..i]).Ok? && EntryOf(cs[i]).Err?
    ensures EntriesOf(cs) == Err(EntryOf(cs[i]).error)
    decreases |cs|
  {
    var m := |cs| - 1;
    if i < m {
      assert cs[..m][..i] == cs[..i];
      EntriesFail(cs[..m], i);
    }
  }

  // ---------------------------------------------------------------- repeated names

  /** Setting a key keeps the place of one that is there and appends one that is not; it has the new value, and every
    * other key its old one. */
  lemma {:induction false} PutIs(entries: seq<Entry>, key: string, value: Json)
    requires DistinctKeys(entries)
    ensures var r := Put(entries, key, value);
            && DistinctKeys(r) && Keys(r) == (if key in Keys(entries) then Keys(entries) else Keys(entries) + [key])
            && forall e :: e in r <==> e == Entry(key, value) || (e in entries && e.key != key)
  {
    if entries != [] {
      var first, rest := entries[0], entries[1..];
      assert entries == [first] + rest;
      KeysCons(first, rest);
      if first.key == key {
        KeysCons(Entry(key, value), rest);
      } else {
        PutIs(rest, key, value);
        KeysCons(first, Put(rest, key, value));
        assert ([first.key] + Keys(rest)) + [key] == [first.key] + (Keys(rest) + [key]);
      }
    } else {
      KeysCons(Entry(key, value), []);
      assert [Entry(key, value)] + [] == [Entry(key, value)];
    }
  }

  predicate DistinctKeys(entries: seq<Entry>) {
    entries == [] || (entries[0].key !in Keys(entries[1..]) && DistinctKeys(entries[1..]))
  }

  lemma {:induction false} KeysCons(e: Entry, rest: seq<Entry>)
    ensures Keys([e] + rest) == [e.key] + Keys(rest)
    ensures DistinctKeys([e] + rest) <==> e.key !in Keys(rest) && DistinctKeys(rest)
    ensures forall f :: f in rest ==> f.key in Keys(rest)
  {
    assert ([e] + rest)[1..] == rest;
    forall f | f in rest ensures f.key in Keys(rest) {
      var i :| 0 <= i < |rest| && rest[i] == f;
      assert Keys(rest)[i] == f.key;
    }
  }

  /** The child is the last of its name. */
  predicate LastOfName(cs: seq<Field>, i: int) {
    0 <= i < |cs| && !cs[i].Unnamed? && forall j :: i < j < |cs| ==> cs[j].Unnamed? || cs[j].name != cs[i].name
  }

  predicate Buildable(cs: seq<Field>) {
    forall i :: 0 <= i < |cs| ==> !cs[i].Unnamed? && EntryOf(cs[i]).Ok?
  }

  /** The entry of the last child of some name. */
  ghost predicate IsEntry(cs: seq<Field>, e: Entry)
    requires Buildable(cs)
  {
    exists i :: LastOfName(cs, i) && e == Entry(cs[i].name, EntryOf(cs[i]).value)
  }

  /** A structure has one entry for each name among its children, with the value of the last child of the name. */
  lemma {:induction false} LastChildWins(cs: seq<Field>)
    requires EntriesOf(cs).Ok?
    ensures Buildable(cs) && DistinctKeys(EntriesOf(cs).value)
    ensures forall e :: e in EntriesOf(cs).value <==> IsEntry(cs, e)
    decreases |cs|
  {
    if cs != [] {
      var m := |cs| - 1;
      LastChildWins(cs[..m]);
      MoreBuildable(cs);
      PutIs(EntriesOf(cs[..m]).value, cs[m].name, EntryOf(cs[m]).value);
      forall e ensures e in EntriesOf(cs).value <==> IsEntry(cs, e) {
        LastOfMore(cs, e);
      }
    }
  }

  lemma {:induction false} MoreBuildable(cs: seq<Field>)
    requires cs != [] && Buildable(cs[..|cs| - 1]) && EntryOf(cs[|cs| - 1]).Ok?
    ensures Buildable(cs)
  {
    assert forall i :: 0 <= i < |cs| - 1 ==> cs[..|cs| - 1][i] == cs[i];
  }

  lemma {:induction false} LastOfMore(cs: seq<Field>, e: Entry)
    requires cs != [] && Buildable(cs) && Buildable(cs[..|cs| - 1])
    ensures var m := |cs| - 1;
            IsEntry(cs, e) <==> e == Entry(cs[m].name, EntryOf(cs[m]).value) || (IsEntry(cs[..m], e) && e.key != cs[m].name)
  {
    var m := |cs| - 1;
    assert LastOfName(cs, m);
    forall i | LastOfName(cs[..m], i) && cs[i].name != cs[m].name ensures LastOfName(cs, i) {
    }
    forall i | LastOfName(cs, i) && i < m ensures LastOfName(cs[..m], i) && cs[i].name != cs[m].name {
    }
  }

  // ---------------------------------------------------------------- XML

  datatype Xml = Element(tag: string, text: Option<string>, children: seq<Xml>)

  /** build_xml for a child of an element; array items are flattened into the array's element. */
  function XmlOf(node: Field): Xml
    requires Shaped(node)
  {
    match node
    case Leaf(name, _, length) => Element(name, Some(length), [])
    case Struct(name, cs) => Element(name, None, XmlChildren(cs))
    case Array(name, cs) => Element(name, None, if cs == [] then [] else XmlLeaves(cs[0].children))
  }

  function XmlChildren(cs: seq<Field>): seq<Xml>
    requires forall i :: 0 <= i < |cs| ==> Shaped(cs[i])
  {
    if cs == [] then [] else [XmlOf(cs[0])] + XmlChildren(cs[1..])
  }

  function XmlLeaves(cs: seq<Field>): seq<Xml>
    requires Leaves(cs)
  {
    if cs == [] then [] else [Element(cs[0].name, Some(cs[0].length), [])] + XmlLeaves(cs[1..])
  }

  // ---------------------------------------------------------------- what a skeleton says

  /** A leaf of a message: the names on the way to it, and the length written there. */
  datatype Slot = Slot(path: seq<string>, length: string)

  function Under(name: string, slots: seq<Slot>): (r: seq<Slot>)
    ensures |r| == |slots|
  {
    seq(|slots|, i requires 0 <= i < |slots| => Slot([name] + slots[i].path, slots[i].length))
  }

  /** The slots of the document. */
  function Slots(node: Field): seq<Slot>
    requires Shaped(node)
  {
    match node
    case Leaf(name, _, length) => [Slot([name], length)]
    case Struct(name, cs) => Under(name, SlotsOfAll(cs))
    case Array(name, cs) => Under(name, if cs == [] then [] else SlotsOfLeaves(cs[0].children))
  }

  function SlotsOfAll(cs: seq<Field>): seq<Slot>
    requires forall i :: 0 <= i < |cs| ==> Shaped(cs[i])
  {
    if cs == [] then [] else SlotsOfAll(cs[..|cs| - 1]) + Slots(cs[|cs| - 1])
  }

  function SlotsOfLeaves(cs: seq<Field>): seq<Slot>
    requires Leaves(cs)
  {
    if cs == [] then []
    else SlotsOfLeaves(cs[..|cs| - 1]) + [Slot([cs[|cs| - 1].name], cs[|cs| - 1].length)]
  }

  /** The slots of an XML message: elements with text. */
  function XmlSlots(x: Xml): seq<Slot> {
    if x.text.Some? then [Slot([x.tag], x.text.value)] else Under(x.tag, XmlSlotsOfAll(x.children))
  }

  function XmlSlotsOfAll(xs: seq<Xml>): seq<Slot> {
    if xs == [] then [] else XmlSlots(xs[0]) + XmlSlotsOfAll(xs[1..])
  }

  /** The slots of a JSON message; lists add nothing to the path. */
  function JsonSlots(j: Json): seq<Slot> {
    match j
    case Text(length) => [Slot([], length)]
    case Object(entries) => JsonSlotsOfEntries(entries)
    case List(items) => JsonSlotsOfItems(items)
  }

  function JsonSlotsOfEntries(entries: seq<Entry>): seq<Slot> {
    if entries == [] then []
    else
      JsonSlotsOfEntries(entries[..|entries| - 1])
      + Under(entries[|entries| - 1].key, JsonSlots(entries[|entries| - 1].value))
  }

  function JsonSlotsOfItems(items: seq<Json>): seq<Slot> {
    if items == [] then [] else JsonSlotsOfItems(items[..|items| - 1]) + JsonSlots(items[|items| - 1])
  }

  lemma {:induction false} XmlSlotsSnoc(xs: seq<Xml>, x: Xml)
    ensures XmlSlotsOfAll(xs + [x]) == XmlSlotsOfAll(xs) + XmlSlots(x)
  {
    if xs == [] {
      assert [] + [x] == [x] && [x][1..] == [];
      assert XmlSlotsOfAll([x]) == XmlSlots(x) + [];
    } else {
      XmlSlotsSnoc(xs[1..], x);
      assert (xs + [x])[1..] == xs[1..] + [x];
    }
  }

  lemma {:induction false} XmlChildrenSnoc(cs: seq<Field>, c: Field)
    requires Shaped(c) && forall i :: 0 <= i < |cs| ==> Shaped(cs[i])
    ensures XmlChildren(cs + [c]) == XmlChildren(cs) + [XmlOf(c)]
  {
    if cs == [] {
      assert [] + [c] == [c] && [c][1..] == [];
    } else {
      XmlChildrenSnoc(cs[1..], c);
      assert (cs + [c])[1..] == cs[1..] + [c];
    }
  }

  lemma {:induction false} XmlLeavesSnoc(cs: seq<Field>, c: Field)
    requires c.Leaf? && Leaves(cs)
    ensures XmlLeaves(cs + [c]) == XmlLeaves(cs) + [Element(c.name, Some(c.length), [])]
  {
    if cs == [] {
      assert [] + [c] == [c] && [c][1..] == [];
    } else {
      XmlLeavesSnoc(cs[1..], c);
      assert (cs + [c])[1..] == cs[1..] + [c];
    }
  }

  lemma {:induction false} XmlLeafSlots(cs: seq<Field>)
    requires Leaves(cs)
    ensures XmlSlotsOfAll(XmlLeaves(cs)) == SlotsOfLeaves(cs)
    decreases |cs|
  {
    if cs != [] {
      var m := |cs| - 1;
      XmlLeafSlots(cs[..m]);
      XmlLeavesSnoc(cs[..m], cs[m]);
      XmlSlotsSnoc(XmlLeaves(cs[..m]), Element(cs[m].name, Some(cs[m].length), []));
      assert cs == cs[..m] + [cs[m]];
    }
  }

  /** The XML skeleton holds exactly the document's slots, in order. */
  lemma {:induction false} XmlKeepsSlots(node: Field)
    requires Shaped(node)
    ensures XmlSlots(XmlOf(node)) == Slots(node)
    decreases node, 0
  {
    match node
    case Leaf(_, _, _) =>
    case Struct(_, cs) => XmlKeepsAll(cs);
    case Array(_, cs) => XmlLeafSlots(if cs == [] then [] else cs[0].children);
  }

  lemma {:induction false} XmlKeepsAll(cs: seq<Field>)
    requires forall i :: 0 <= i < |cs| ==> Shaped(cs[i])
    ensures XmlSlotsOfAll(XmlChildren(cs)) == SlotsOfAll(cs)
    decreases cs, 1
  {
    if cs != [] {
      var m := |cs| - 1;
      XmlKeepsAll(cs[..m]);
      XmlKeepsSlots(cs[m]);
      XmlChildrenSnoc(cs[..m], cs[m]);
      XmlSlotsSnoc(XmlChildren(cs[..m]), XmlOf(cs[m]));
      assert cs == cs[..m] + [cs[m]];
    }
  }

  // ---------------------------------------------------------------- JSON keeps the slots too

  /** No array was listed without rows. */
  predicate NoEmptyArray(node: Field)
    requires Shaped(node)
  {
    match node
    case Leaf(_, _, _) => true
    case Struct(_, cs) => forall i :: 0 <= i < |cs| ==> NoEmptyArray(cs[i])
    case Array(_, cs) => cs != []
  }

  predicate DistinctNames(cs: seq<Field>) {
    forall i, j :: 0 <= i < j < |cs| ==> !cs[i].Unnamed? && !cs[j].Unnamed? && cs[i].name != cs[j].name
  }

  /** Siblings have different names, everywhere in the tree. */
  predicate Keyed(node: Field)
    requires Shaped(node)
  {
    match node
    case Leaf(_, _, _) => true
    case Struct(_, cs) => DistinctNames(cs) && forall i :: 0 <= i < |cs| ==> Keyed(cs[i])
    case Array(_, cs) => cs != [] ==> DistinctNames(cs[0].children)
  }

  function Keys(entries: seq<Entry>): (ks: seq<string>)
    ensures |ks| == |entries|
  {
    seq(|entries|, i requires 0 <= i < |entries| => entries[i].key)
  }

  lemma {:induction false} PutNew(entries: seq<Entry>, key: string, value: Json)
    requires key !in Keys(entries)
    ensures Put(entries, key, value) == entries + [Entry(key, value)]
  {
    if entries != [] {
      assert Keys(entries)[0] == entries[0].key;
      assert forall i :: 0 <= i < |entries[1..]| ==> Keys(entries[1..])[i] == Keys(entries)[i + 1];
      PutNew(entries[1..], key, value);
      assert entries == [entries[0]] + entries[1..];
    }
  }

  lemma {:induction false} NewEntry(entries: seq<Entry>, cs: seq<Field>, key: string, value: Json)
    requires |entries| == |cs| && forall i :: 0 <= i < |cs| ==> !cs[i].Unnamed? && entries[i].key == cs[i].name != key
    ensures Put(entries, key, value) == entries + [Entry(key, value)]
    ensures JsonSlotsOfEntries(Put(entries, key, value)) == JsonSlotsOfEntries(entries) + Under(key, JsonSlots(value))
  {
    forall i | 0 <= i < |entries| ensures Keys(entries)[i] != key {}
    PutNew(entries, key, value);
    assert (entries + [Entry(key, value)])[..|entries|] == entries;
  }

  /** The entries of a structure whose children have different names. */
  ghost predicate EntriesMatch(cs: seq<Field>, entries: seq<Entry>)
    requires forall i :: 0 <= i < |cs| ==> Shaped(cs[i])
  {
    && |entries| == |cs| && (forall i :: 0 <= i < |cs| ==> !cs[i].Unnamed? && entries[i].key == cs[i].name)
    && JsonSlotsOfEntries(entries) == SlotsOfAll(cs)
  }

  lemma {:induction false} ListSlots(j: Json)
    ensures JsonSlots(List([j])) == JsonSlots(j)
  {
    assert [j][..0] == [];
    assert JsonSlotsOfItems([j]) == [] + JsonSlots(j);
  }

  lemma {:induction false} LeafEntries(cs: seq<Field>)
    requires Leaves(cs) && DistinctNames(cs)
    ensures EntriesOf(cs).Ok?
    ensures var entries := EntriesOf(cs).value;
            && |entries| == |cs| && (forall i :: 0 <= i < |cs| ==> entries[i].key == cs[i].name)
            && JsonSlotsOfEntries(entries) == SlotsOfLeaves(cs)
    decreases |cs|
  {
    if cs != [] {
      var m := |cs| - 1;
      LeafEntries(cs[..m]);
      NewEntry(EntriesOf(cs[..m]).value, cs[..m], cs[m].name, Text(cs[m].length));
      assert Under(cs[m].name, [Slot([], cs[m].length)]) == [Slot([cs[m].name], cs[m].length)] by {
        assert [cs[m].name] + [] == [cs[m].name];
      }
    }
  }

  /** The value stored for a child says what the child says, below the child's name. */
  lemma {:induction false} EntrySlots(child: Field)
    requires Shaped(child) && Keyed(child) && NoEmptyArray(child)
    ensures EntryOf(child).Ok? && Under(child.name, JsonSlots(EntryOf(child).value)) == Slots(child)
    decreases child, 0
  {
    match child
    case Leaf(name, _, length) =>
      assert [name] + [] == [name];
    case Struct(name, cs) => {
      StructEntries(cs);
      assert JsonOf(child) == Ok(Object(EntriesOf(cs).value));
    }
    case Array(name, cs) => {
      LeafEntries(cs[0].children);
      var row := Object(EntriesOf(cs[0].children).value);
      assert JsonOf(cs[0]) == Ok(row);
      ListSlots(row);
      ListSlots(List([row]));
    }
  }

  lemma {:induction false} EntriesSnoc(cs: seq<Field>, child: Field)
    requires EntriesOf(cs).Ok? && EntryOf(child).Ok? && !child.Unnamed?
    ensures EntriesOf(cs + [child]) == Ok(Put(EntriesOf(cs).value, child.name, EntryOf(child).value))
  {
    assert (cs + [child])[..|cs|] == cs;
  }

  lemma {:induction false} SlotsSnoc(cs: seq<Field>, child: Field)
    requires (forall i :: 0 <= i < |cs| ==> Shaped(cs[i])) && Shaped(child)
    ensures SlotsOfAll(cs + [child]) == SlotsOfAll(cs) + Slots(child)
  {
    assert (cs + [child])[..|cs|] == cs;
  }

  /** One more child: its entry is new, and says what the child says. */
  lemma {:induction false} OneMoreEntry(cs: seq<Field>, child: Field, entries: seq<Entry>, value: Json)
    requires Shaped(child) && !child.Unnamed?
    requires forall i :: 0 <= i < |cs| ==> Shaped(cs[i]) && !cs[i].Unnamed? && cs[i].name != child.name
    requires EntriesMatch(cs, entries) && Under(child.name, JsonSlots(value)) == Slots(child)
    ensures EntriesMatch(cs + [child], Put(entries, child.name, value))
  {
    NewEntry(entries, cs, child.name, value);
    SlotsSnoc(cs, child);
  }

  lemma {:induction false} StructEntries(cs: seq<Field>)
    requires forall i :: 0 <= i < |cs| ==> Shaped(cs[i]) && Keyed(cs[i]) && NoEmptyArray(cs[i])
    requires DistinctNames(cs)
    ensures EntriesOf(cs).Ok? && EntriesMatch(cs, EntriesOf(cs).value)
    decreases cs, 1
  {
    if cs != [] {
      var m := |cs| - 1;
      StructEntries(cs[..m]);
      EntrySlots(cs[m]);
      EntriesSnoc(cs[..m], cs[m]);
      OneMoreEntry(cs[..m], cs[m], EntriesOf(cs[..m]).value, EntryOf(cs[m]).value);
      assert cs == cs[..m] + [cs[m]];
    }
  }

  /** With sibling names distinct and no array empty, the JSON skeleton and the XML skeleton of a
    * document hold the same slots, in the same order: those of the document. */
  lemma {:induction false} SkeletonsAgree(doc: Field)
    requires doc.Struct? && Shaped(doc) && Keyed(doc) && NoEmptyArray(doc)
    ensures JsonOf(doc).Ok?
    ensures Under(doc.name, JsonSlots(JsonOf(doc).value)) == XmlSlots(XmlOf(doc)) == Slots(doc)
  {
    EntrySlots(doc);
    XmlKeepsSlots(doc);
  }

  /** The JSON builder fails exactly on documents with an array that has no rows. */
  lemma {:induction false} JsonFailsIff(node: Field)
    requires Shaped(node)
    ensures JsonOf(node).Ok? <==> NoEmptyArray(node)
    ensures EntryOf(node).Ok? <==> NoEmptyArray(node)
    ensures !NoEmptyArray(node) ==> JsonOf(node) == EntryOf(node) == Err(EmptyArray)
    decreases node, 0
  {
    match node
    case Leaf(_, _, _) =>
    case Struct(_, cs) => EntriesFailIff(cs);
    case Array(_, cs) =>
      if cs != [] {
        LeafEntriesOk(cs[0].children);
        assert JsonOf(cs[0]).Ok?;
      }
  }

  lemma {:induction false} LeafEntriesOk(cs: seq<Field>)
    requires Leaves(cs)
    ensures EntriesOf(cs).Ok?
    decreases |cs|
  {
    if cs != [] {
      LeafEntriesOk(cs[..|cs| - 1]);
    }
  }

  lemma {:induction false} EntriesFailIff(cs: seq<Field>)
    requires forall i :: 0 <= i < |cs| ==> Shaped(cs[i])
    ensures EntriesOf(cs).Ok? <==> forall i :: 0 <= i < |cs| ==> NoEmptyArray(cs[i])
    ensures EntriesOf(cs).Err? ==> EntriesOf(cs) == Err(EmptyArray)
    decreases cs, 1
  {
    if cs != [] {
      var m := |cs| - 1;
      EntriesFailIff(cs[..m]);
      JsonFailsIff(cs[m]);
      assert forall i :: 0 <= i < m ==> cs[..m][i] == cs[i];
    }
  }

  /** An array with rows comes out as a list in a list. */
  lemma {:induction false} ArrayIsWrappedTwice(child: Field)
    requires child.Array? && Shaped(child) && child.children != []
    ensures var item := JsonOf(child.children[0]);
            item.Ok? && EntryOf(child) == Ok(List([List([item.value])]))
  {
    LeafEntriesOk(child.children[0].children);
  }
}
