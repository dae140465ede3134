/** In-place edits of an XML document (common/xpath_utils.py): finding parents, deleting matches one
  * at a time, creating paths and adding nodes, on element objects. Each method's effect on the heap is
  * stated as an edit of the tree value the objects form. */
module XPathEdit {
  import opened Options
  import opened PyText
  import opened Sequences
  import opened ElementTree
  import opened XPathTokens
  import opened XPathRewrite
  import opened XPathQuery
  import opened XPathCreate
  import opened XPathInherit

  class Element {
    var tag: Tag
    var text: string
    var children: seq<Element>

    constructor (tag: Tag, text: string)
      ensures this.tag == tag && this.text == text && children == []
    {
      this.tag, this.text, children := tag, text, [];
    }
  }

  ghost function Snapshot(nodes: set<Element>): map<Element, Data<Element>>
    reads nodes
  {
    map e | e in nodes :: Data(e.tag, e.text, e.children)
  }

  /** The objects below root form the tree t, each object at one place. */
  ghost predicate Document(root: Element, nodes: set<Element>, t: Tree<Element>)
    reads nodes
  {
    t.id == root && Distinct(Ids(t)) && Reflects(t, Snapshot(nodes))
  }

  // ---------------------------------------------------------------- searching

  /** Element.iter(): the element and everything below it, in document order. */
  method Iter(e: Element, ghost nodes: set<Element>, ghost t: Tree<Element>) returns (s: seq<Element>)
    requires t.id == e && Reflects(t, Snapshot(nodes))
    ensures s == Ids(t)
    decreases t
  {
    s := [e];
    var i := 0;
    assert IdsOfAll(t.kids[..0]) == [];
    while i < |e.children|
      invariant 0 <= i <= |e.children|
      invariant s == [e] + IdsOfAll(t.kids[..i])
    {
      var below := Iter(e.children[i], nodes, t.kids[i]);
      IdsSnoc(t.kids, i);
      s := s + below;
      i := i + 1;
    }
    assert t.kids[..i] == t.kids;
  }

  lemma {:induction false} IdsSnoc<Id>(ts: seq<Tree<Id>>, i: nat)
    requires i < |ts|
    ensures IdsOfAll(ts[..i + 1]) == IdsOfAll(ts[..i]) + Ids(ts[i])
  {
    assert ts[..i + 1] == ts[..i] + [ts[i]];
    IdsConcat(ts[..i], [ts[i]]);
    assert [ts[i]][1..] == [];
  }

  /** _find_parent: the element that has target as a direct child; null for the root and for an element
    * that is not in the tree. */
  method FindParent(root: Element, target: Element, ghost nodes: set<Element>, ghost t: Tree<Element>)
    returns (p: Element?)
    requires Document(root, nodes, t)
    ensures p == null <==> target !in IdsOfAll(t.kids)
    ensures p != null ==> p in Ids(t) && p in nodes && target in p.children
  {
    var all := Iter(root, nodes, t);
    ReflectsIds(t, Snapshot(nodes));
    for i := 0 to |all|
      invariant forall e :: e in all[..i] ==> e in nodes && target !in e.children
    {
      var elem := all[i];
      assert elem in Ids(t);
      for j := 0 to |elem.children|
        invariant target !in elem.children[..j]
      {
        if elem.children[j] == target {
          KidsBelow(t, Snapshot(nodes), elem);
          return elem;
        }
      }
      assert elem.children[..|elem.children|] == elem.children;
    }
    assert all[..|all|] == Ids(t);
    if target in IdsOfAll(t.kids) {
      ghost var e := HasParent(t, Snapshot(nodes), target);
    }
    p := null;
  }

  /** Element.find with one child step: the first child that passes. */
  method FindFirst(parent: Element, test: Test, ghost nodes: set<Element>, ghost t: Tree<Element>)
    returns (child: Element?, ghost i: Option<nat>)
    requires t.id == parent && Reflects(t, Snapshot(nodes))
    ensures i == FirstPassing(test, t.kids)
    ensures child == if i.None? then null else t.kids[i.value].id
  {
    for j := 0 to |parent.children|
      invariant forall k :: 0 <= k < j ==> !Passes(test, t.kids[k])
    {
      assert Reflects(t.kids[j], Snapshot(nodes));
      if Accepts(test, parent.children[j].tag) {
        FirstPassingIs(test, t.kids, Some(j));
        return parent.children[j], Some(j);
      }
    }
    FirstPassingIs(test, t.kids, None);
    child, i := null, None;
  }

  lemma {:induction false} FirstPassingIs<Id>(test: Test, ts: seq<Tree<Id>>, i: Option<nat>)
    requires i.Some? ==> i.value < |ts| && Passes(test, ts[i.value])
    requires forall k :: 0 <= k < (if i.Some? then i.value else |ts|) ==> !Passes(test, ts[k])
    ensures FirstPassing(test, ts) == i
  {
    if ts != [] && i != Some(0) {
      FirstPassingIs(test, ts[1..], if i.Some? then Some(i.value - 1) else None);
    }
  }

  /** find_child for a plain name; the last loop of the source repeats the search for any namespace. */
  method FindChild(parent: Element, name: string, ghost nodes: set<Element>, ghost t: Tree<Element>)
    returns (child: Element?, ghost i: Option<nat>)
    requires PlainName(name) && t.id == parent && Reflects(t, Snapshot(nodes))
    ensures i == ChildIndex(t.kids, name)
    ensures child == if i.None? then null else t.kids[i.value].id
  {
    child, i := FindFirst(parent, Exactly(Tag(NoNamespace, name)), nodes, t);
    if child == null {
      child, i := FindFirst(parent, AnyNamespace(name), nodes, t);
    }
  }

  // ---------------------------------------------------------------- deleting

  function Members(s: seq<Element>): set<Element> { set e | e in s }

  /** The loop of delete: every match is taken out of its parent's children; a match that an earlier
    * removal has already detached has no parent any more and is skipped. The result is the one-pass
    * pruning of the document by the set of matches. */
  method Delete(root: Element, elements: seq<Element>, ghost nodes: set<Element>, ghost t: Tree<Element>)
    requires Document(root, nodes, t)
    modifies nodes`children
    ensures Document(root, nodes, Prune(t, Members(elements)))
  {
    PruneAbsent(t, {});
    assert elements[..0] == [] && Members([]) == {};
    for i := 0 to |elements|
      invariant Document(root, nodes, Prune(t, Members(elements[..i])))
    {
      ghost var now := Prune(t, Members(elements[..i]));
      var parent := FindParent(root, elements[i], nodes, now);
      if parent != null {
        RemoveChild(root, parent, elements[i], nodes, now);
      } else {
        PruneAbsent(now, {elements[i]});
      }
      PruneTwice(t, Members(elements[..i]), {elements[i]});
      assert Members(elements[..i + 1]) == Members(elements[..i]) + {elements[i]};
    }
    assert elements[..|elements|] == elements;
  }

  /** parent.remove(elem): the first entry that is this object. */
  method RemoveChild(root: Element, parent: Element, elem: Element, ghost nodes: set<Element>, ghost t: Tree<Element>)
    requires Document(root, nodes, t) && parent in Ids(t) && parent in nodes && elem in parent.children
    modifies parent`children
    ensures Document(root, nodes, Prune(t, {elem}))
  {
    ghost var before := Snapshot(nodes);
    var k := 0;
    while parent.children[k] != elem
      invariant 0 <= k < |parent.children| && elem !in parent.children[..k]
      decreases |parent.children| - k
    {
      assert parent.children == parent.children[..k + 1] + parent.children[k + 1..];
      k := k + 1;
    }
    CutReflects(t, before, parent, k);
    PruneDistinct(t, {elem});
    parent.children := parent.children[..k] + parent.children[k + 1..];
    assert Snapshot(nodes) == Without(before, parent, k);
  }

  // ---------------------------------------------------------------- adding

  /** Appending a new element to the children of an element of the document. */
  method AppendNew(root: Element, parent: Element, elem: Element, ghost nodes: set<Element>, ghost t: Tree<Element>,
                   ghost place: seq<nat>)
    requires Document(root, nodes, t) && IsPlace(t, place) && At(t, place).id == parent
    requires elem !in nodes && elem.children == []
    modifies parent`children
    ensures Document(root, nodes + {elem}, Grow(t, place, Elem(elem, old(elem.tag), old(elem.text), [])))
  {
    ghost var before := Snapshot(nodes);
    ghost var leaf := Elem(elem, elem.tag, elem.text, []);
    ReflectsIds(t, before);
    IdsAtPlace(t, place);
    ghost var after := before[elem := Data(elem.tag, elem.text, [])][parent := before[parent].(kids := before[parent].kids + [elem])];
    GrowReflects(t, before, place, leaf, after);
    GrowDistinct(t, place, leaf);
    PlugId(t, place, At(t, place).(kids := At(t, place).kids + [leaf]));
    parent.children := parent.children + [elem];
    assert Snapshot(nodes + {elem}) == after;
  }

  /** Setting the text of an element of the document. */
  method SetText(root: Element, elem: Element, text: string, ghost nodes: set<Element>, ghost t: Tree<Element>,
                 ghost place: seq<nat>)
    requires Document(root, nodes, t) && IsPlace(t, place) && At(t, place).id == elem
    modifies elem`text
    ensures Document(root, nodes, Plug(t, place, At(t, place).(text := text)))
  {
    ghost var before := Snapshot(nodes);
    ReflectsIds(t, before);
    IdsAtPlace(t, place);
    ghost var after := before[elem := before[elem].(text := text)];
    RetextReflects(t, before, place, text, after);
    elem.text := text;
    assert Snapshot(nodes) == after;
  }

  lemma {:induction false} RetextReflects<Id>(t: Tree<Id>, store: map<Id, Data<Id>>, place: seq<nat>, text: string,
                                              store': map<Id, Data<Id>>)
    requires Reflects(t, store) && Distinct(Ids(t)) && IsPlace(t, place) && At(t, place).id in store
    requires var p := At(t, place).id; store' == store[p := store[p].(text := text)]
    ensures var u := Plug(t, place, At(t, place).(text := text));
            u.id == t.id && Distinct(Ids(u)) && Reflects(u, store')
  {
    var at := At(t, place);
    var u := at.(text := text);
    ReflectsIds(t, store);
    ReflectsAt(t, place, store);
    IdsAtPlace(t, place);
    forall i | 0 <= i < |at.kids| ensures Reflects(at.kids[i], store') {
      DistinctKids(at, i);
      OtherKid(at, store, i, at.id, store');
    }
    assert Ids(at)[0] == at.id;
    ReflectsPlug(t, place, u, store, store');
    PlugId(t, place, u);
    PlugSameIds(t, place, u);
  }

  lemma {:induction false} PlugSameIds<Id>(t: Tree<Id>, place: seq<nat>, u: Tree<Id>)
    requires IsPlace(t, place) && Ids(u) == Ids(At(t, place))
    ensures Ids(Plug(t, place, u)) == Ids(t)
  {
    if place != [] {
      var i := place[0];
      PlugSameIds(t.kids[i], place[1..], u);
      var ts := t.kids[i := Plug(t.kids[i], place[1..], u)];
      KidIds(t.kids, i);
      KidIds(ts, i);
      assert ts[..i] == t.kids[..i] && ts[i + 1..] == t.kids[i + 1..];
    }
  }

  // ---------------------------------------------------------------- creating a path

  /** Descending from t along locals, making the nodes `made` where a step is missing, leads to the tree
    * u and the place in it where the descent stands. */
  ghost predicate Leads<Id>(t: Tree<Id>, locals: seq<string>, made: seq<Id>, u: Tree<Id>, place: seq<nat>)
    decreases |locals|
  {
    if locals == [] then made == [] && u == t && place == []
    else
      && place != [] && place[0] < |u.kids|
      && var c := ChildIndex(t.kids, locals[0]);
         if c.Some? then
           && place[0] == c.value
           && u == t.(kids := t.kids[c.value := u.kids[c.value]])
           && Leads(t.kids[c.value], locals[1..], made, u.kids[c.value], place[1..])
         else
           && made != [] && place[0] == |t.kids| && |u.kids| == |t.kids| + 1
           && u == t.(kids := t.kids + [u.kids[|t.kids|]])
           && Leads(Elem(made[0], TagIn(t.tag, locals[0]), "", []), locals[1..], made[1..], u.kids[|t.kids|], place[1..])
  }

  lemma {:induction false} LeadsPlace<Id>(t: Tree<Id>, locals: seq<string>, made: seq<Id>, u: Tree<Id>, place: seq<nat>)
    requires Leads(t, locals, made, u, place)
    ensures IsPlace(u, place)
    decreases |locals|
  {
    if locals != [] {
      var c := ChildIndex(t.kids, locals[0]);
      if c.Some? {
        LeadsPlace(t.kids[c.value], locals[1..], made, u.kids[c.value], place[1..]);
      } else {
        LeadsPlace(Elem(made[0], TagIn(t.tag, locals[0]), "", []), locals[1..], made[1..], u.kids[|t.kids|], place[1..]);
      }
    }
  }

  lemma {:induction false} LeadsFurther<Id>(t: Tree<Id>, locals: seq<string>, made: seq<Id>, u: Tree<Id>, place: seq<nat>,
                                            local: string, i: nat)
    requires Leads(t, locals, made, u, place) && IsPlace(u, place)
    requires ChildIndex(At(u, place).kids, local) == Some(i)
    ensures Leads(t, locals + [local], made, u, place + [i])
    decreases |locals|
  {
    if locals == [] {
      assert ([] + [local])[1..] == [] && ([] + [i])[1..] == [];
      assert t.kids[i := t.kids[i]] == t.kids;
    } else {
      assert (locals + [local])[1..] == locals[1..] + [local];
      assert (place + [i])[1..] == place[1..] + [i];
      var c := ChildIndex(t.kids, locals[0]);
      if c.Some? {
        LeadsFurther(t.kids[c.value], locals[1..], made, u.kids[c.value], place[1..], local, i);
      } else {
        LeadsFurther(Elem(made[0], TagIn(t.tag, locals[0]), "", []), locals[1..], made[1..], u.kids[|t.kids|], place[1..], local, i);
      }
    }
  }

  lemma {:induction false} LeadsMade<Id>(t: Tree<Id>, locals: seq<string>, made: seq<Id>, u: Tree<Id>, place: seq<nat>,
                                         local: string, id: Id)
    requires Leads(t, locals, made, u, place) && IsPlace(u, place)
    requires ChildIndex(At(u, place).kids, local).None?
    ensures var at := At(u, place);
            Leads(t, locals + [local], made + [id], Grow(u, place, Elem(id, TagIn(at.tag, local), "", [])),
                  place + [|at.kids|])
    decreases |locals|
  {
    var at := At(u, place);
    var n := |at.kids|;
    if locals == [] {
      assert ([] + [local])[1..] == [] && ([] + [n])[1..] == [] && ([] + [id])[1..] == [];
    } else {
      assert (locals + [local])[1..] == locals[1..] + [local];
      assert (place + [n])[1..] == place[1..] + [n];
      var c := ChildIndex(t.kids, locals[0]);
      if c.Some? {
        LeadsMade(t.kids[c.value], locals[1..], made, u.kids[c.value], place[1..], local, id);
      } else {
        assert (made + [id])[1..] == made[1..] + [id];
        LeadsMade(Elem(made[0], TagIn(t.tag, locals[0]), "", []), locals[1..], made[1..], u.kids[|t.kids|], place[1..], local, id);
      }
    }
  }

  /** The whole descent, finished where it stands, is the creation. */
  lemma {:induction false} LeadsCreate<Id>(t: Tree<Id>, locals: seq<string>, made: seq<Id>, u: Tree<Id>, place: seq<nat>,
                                           tag: Option<string>, value: string, ids: seq<Id>)
    requires Leads(t, locals, made, u, place) && IsPlace(u, place)
    requires |ids| == if tag.Some? then 1 else 0
    ensures |made| == Missing(t, locals)
    ensures Create(t, locals, tag, value, made + ids) == Plug(u, place, Finish(At(u, place), tag, value, ids))
    decreases |locals|
  {
    if locals == [] {
      assert [] + ids == ids;
    } else {
      var c := ChildIndex(t.kids, locals[0]);
      if c.Some? {
        LeadsCreate(t.kids[c.value], locals[1..], made, u.kids[c.value], place[1..], tag, value, ids);
      } else {
        var e := Elem(made[0], TagIn(t.tag, locals[0]), "", []);
        LeadsCreate(e, locals[1..], made[1..], u.kids[|t.kids|], place[1..], tag, value, ids);
        MissingBelowNew(e, locals[1..]);
        assert (made + ids)[1..] == made[1..] + ids;
      }
    }
  }

  lemma {:induction false} LocalsSnoc(names: seq<string>, i: nat)
    requires i < |names| && forall k :: 0 <= k < |names| ==> names[k] != ""
    ensures Locals(names[..i + 1]) == Locals(names[..i]) + [LocalPart(names[i])]
  {
    if i == 0 {
      assert names[..1] == [names[0]] && names[..1][1..] == [] && names[..0] == [];
    } else {
      LocalsSnoc(names[1..], i - 1);
      assert names[..i + 1][1..] == names[1..][..i];
      assert names[..i][1..] == names[1..][..i - 1];
    }
  }

  /** `if tag`: an empty text counts as none. */
  predicate Given(tag: Option<string>) { tag.Some? && tag.value != "" }

  function TextOf(value: Option<string>): string { if value.Some? then value.value else "" }

  /** The descent over `done` has come to the object `current`. */
  ghost predicate Standing(root: Element, nodes: set<Element>, t: Tree<Element>, done: seq<string>, made: seq<Element>,
                           u: Tree<Element>, place: seq<nat>, current: Element)
    reads nodes
  {
    && current in nodes && Document(root, nodes, u) && Leads(t, done, made, u, place)
    && IsPlace(u, place) && At(u, place).id == current
  }

  /** One round of the loop of _create_path. */
  method Descend(root: Element, current: Element, local: string, ghost nodes: set<Element>, ghost t: Tree<Element>,
                 ghost done: seq<string>, ghost made: seq<Element>, ghost u: Tree<Element>, ghost place: seq<nat>)
    returns (next: Element, ghost more: seq<Element>, ghost u': Tree<Element>, ghost place': seq<nat>)
    requires Standing(root, nodes, t, done, made, u, place, current) && PlainName(local)
    modifies current
    ensures forall e :: e in more ==> fresh(e)
    ensures Standing(root, nodes + Members(more), t, done + [local], made + more, u', place', next)
  {
    ReflectsAt(u, place, Snapshot(nodes));
    var child, index := FindChild(current, local, nodes, At(u, place));
    if child == null {
      next := MakeChild(root, current, local, nodes, t, done, made, u, place);
      more := [next];
      u' := Grow(u, place, Elem(next, next.tag, "", []));
      place' := place + [|At(u, place).kids|];
      assert Members(more) == {next};
    } else {
      FoundStanding(root, nodes, t, done, made, u, place, current, local, index.value);
      next, more, u', place' := child, [], u, place + [index.value];
      assert made + more == made && nodes + Members(more) == nodes;
    }
  }

  /** The piece is there: the descent goes on to it. */
  lemma {:induction false} FoundStanding(root: Element, nodes: set<Element>, t: Tree<Element>, done: seq<string>,
      made: seq<Element>, u: Tree<Element>, place: seq<nat>, current: Element, local: string, i: nat)
    requires Standing(root, nodes, t, done, made, u, place, current)
    requires ChildIndex(At(u, place).kids, local) == Some(i)
    ensures Standing(root, nodes, t, done + [local], made, u, place + [i], At(u, place).kids[i].id)
  {
    LeadsFurther(t, done, made, u, place, local, i);
    Deeper(u, place, i);
    ReflectsIds(u, Snapshot(nodes));
    IdsAtPlace(u, place + [i]);
  }

  /** The piece is not there: a new last child is. */
  method MakeChild(root: Element, current: Element, local: string, ghost nodes: set<Element>, ghost t: Tree<Element>,
                   ghost done: seq<string>, ghost made: seq<Element>, ghost u: Tree<Element>, ghost place: seq<nat>)
    returns (child: Element)
    requires Standing(root, nodes, t, done, made, u, place, current) && ChildIndex(At(u, place).kids, local).None?
    modifies current
    ensures fresh(child)
    ensures Standing(root, nodes + {child}, t, done + [local], made + [child], Grow(u, place, Elem(child, child.tag, "", [])),
                     place + [|At(u, place).kids|], child)
  {
    ReflectsAt(u, place, Snapshot(nodes));
    child := new Element(TagIn(current.tag, local), "");
    assert Document(root, nodes, u);
    LeadsMade(t, done, made, u, place, local, child);
    AppendNew(root, current, child, nodes, u, place);
    GrownPlace(u, place, Elem(child, child.tag, "", []));
  }

  lemma {:induction false} GrownPlace<Id>(t: Tree<Id>, place: seq<nat>, leaf: Tree<Id>)
    requires IsPlace(t, place)
    ensures var p := place + [|At(t, place).kids|];
            IsPlace(Grow(t, place, leaf), p) && At(Grow(t, place, leaf), p) == leaf
  {
    var at := At(t, place);
    PlugAt(t, place, at.(kids := at.kids + [leaf]));
    Deeper(Grow(t, place, leaf), place, |at.kids|);
  }

  /** After the loop: the value goes into the element or into a new child of it. */
  method FinishAt(root: Element, current: Element, text: string, tag: Option<string>, ghost nodes: set<Element>,
                  ghost t: Tree<Element>, ghost locals: seq<string>, ghost made: seq<Element>, ghost u: Tree<Element>,
                  ghost place: seq<nat>) returns (ghost more: seq<Element>)
    requires Standing(root, nodes, t, locals, made, u, place, current)
    modifies current
    ensures forall e :: e in more ==> fresh(e)
    ensures |made + more| == Missing(t, locals) + if tag.Some? then 1 else 0
    ensures Document(root, nodes + Members(more), Create(t, locals, tag, text, made + more))
  {
    if tag.Some? {
      var elem := new Element(TagIn(current.tag, tag.value), text);
      assert Document(root, nodes, u);
      ReflectsAt(u, place, Snapshot(nodes));
      more := [elem];
      LeadsCreate(t, locals, made, u, place, tag, text, more);
      AppendNew(root, current, elem, nodes, u, place);
      assert Members(more) == {elem};
    } else {
      more := [];
      LeadsCreate(t, locals, made, u, place, tag, text, more);
      SetText(root, current, text, nodes, u, place);
      assert nodes + Members(more) == nodes;
    }
  }

  /** _create_path, for pieces whose local part is a plain name. */
  method CreatePath(root: Element, xpath: string, value: Option<string>, tag: Option<string>, ghost nodes: set<Element>,
                    ghost t: Tree<Element>) returns (ghost made: seq<Element>)
    requires Document(root, nodes, t)
    requires PathParts(xpath).Some? ==> PlainLocals(PathParts(xpath).value)
    modifies nodes
    ensures forall e :: e in made ==> fresh(e)
    ensures PathParts(xpath).None? ==> made == [] && Document(root, nodes, t)
    ensures PathParts(xpath).Some? ==>
              var locals := Locals(PathParts(xpath).value);
              var child := if tag.Some? && tag.value != "" then Some(LocalName(tag.value)) else None;
              var text := if value.Some? then value.value else "";
              && |made| == Missing(t, locals) + (if child.Some? then 1 else 0)
              && Document(root, nodes + Members(made), Create(t, locals, child, text, made))
              && NewInherit(Create(t, locals, child, text, made), locals, child, made)
  {
    var parts := PathParts(xpath);
    if parts.None? {
      made := [];
    } else {
      var child := if Given(tag) then Some(LocalName(tag.value)) else None;
      OldIds(root, nodes, t);
      made := CreateAlong(root, parts.value, TextOf(value), child, nodes, t);
      AllInherit(t, Locals(parts.value), child, TextOf(value), made);
    }
  }

  lemma {:induction false} OldIds(root: Element, nodes: set<Element>, t: Tree<Element>)
    requires Document(root, nodes, t)
    ensures forall x :: x in Ids(t) ==> x in nodes
  {
    ReflectsIds(t, Snapshot(nodes));
  }

  predicate PlainLocals(names: seq<string>) {
    forall i :: 0 <= i < |names| ==> names[i] != "" && PlainName(LocalPart(names[i]))
  }

  /** Its loop over the pieces, and the step after it. */
  method CreateAlong(root: Element, names: seq<string>, text: string, tag: Option<string>, ghost nodes: set<Element>,
                     ghost t: Tree<Element>) returns (ghost made: seq<Element>)
    requires Document(root, nodes, t) && PlainLocals(names)
    modifies nodes
    ensures forall e :: e in made ==> fresh(e)
    ensures |made| == Missing(t, Locals(names)) + (if tag.Some? then 1 else 0)
    ensures Document(root, nodes + Members(made), Create(t, Locals(names), tag, text, made))
  {
    var current: Element;
    ghost var u, place;
    current, made, u, place := DescendAlong(root, names, nodes, t);
    ghost var more := FinishAt(root, current, text, tag, nodes + Members(made), t, Locals(names), made, u, place);
    assert nodes + Members(made + more) == nodes + Members(made) + Members(more);
    made := made + more;
  }

  /** The loop of _create_path over the pieces. */
  method DescendAlong(root: Element, names: seq<string>, ghost nodes: set<Element>, ghost t: Tree<Element>)
    returns (current: Element, ghost made: seq<Element>, ghost u: Tree<Element>, ghost place: seq<nat>)
    requires Document(root, nodes, t) && PlainLocals(names)
    modifies nodes
    ensures forall e :: e in made ==> fresh(e)
    ensures Standing(root, nodes + Members(made), t, Locals(names), made, u, place, current)
  {
    made := [];
    current := root;
    u := t;
    place := [];
    ReflectsIds(t, Snapshot(nodes));
    assert root in Ids(t);
    ghost var all, done := nodes, Locals(names[..0]);
    for i := 0 to |names|
      invariant forall e :: e in made ==> fresh(e)
      invariant all == nodes + Members(made) && done == Locals(names[..i])
      invariant Standing(root, all, t, done, made, u, place, current)
    {
      LocalsSnoc(names, i);
      ghost var more;
      current, more, u, place := Descend(root, current, LocalPart(names[i]), all, t, done, made, u, place);
      MembersConcat(made, more);
      all, done, made := all + Members(more), done + [LocalPart(names[i])], made + more;
    }
    assert names[..|names|] == names;
  }

  lemma {:induction false} MembersConcat(a: seq<Element>, b: seq<Element>)
    ensures Members(a + b) == Members(a) + Members(b)
  {
  }

  // ---------------------------------------------------------------- adding at a match

  lemma {:induction false} BelowRootPlace<Id>(t: Tree<Id>, place: seq<nat>)
    requires IsPlace(t, place) && place != []
    ensures At(t, place).id in IdsOfAll(t.kids)
    ensures Distinct(Ids(t)) ==> At(t, place).id != t.id
  {
    IdsAtPlace(t.kids[place[0]], place[1..]);
    KidIds(t.kids, place[0]);
    DistinctParts([t.id], IdsOfAll(t.kids));
    assert t.id in [t.id];
  }

  /** The element that has the node at a place among its children stands one step up. */
  lemma {:induction false} ParentIs<Id>(t: Tree<Id>, store: map<Id, Data<Id>>, place: seq<nat>, p: Id)
    requires Reflects(t, store) && Distinct(Ids(t)) && IsPlace(t, place) && place != []
    requires p in Ids(t) && p in store && At(t, place).id in store[p].kids
    ensures IsPlace(t, place[..|place| - 1]) && At(t, place[..|place| - 1]).id == p
    decreases t
  {
    var x, k := At(t, place).id, place[0];
    var front := place[..|place| - 1];
    IdsAtPlace(t.kids[k], place[1..]);
    DistinctKids(t, k);
    if p == t.id {
      var i :| 0 <= i < |t.kids| && store[p].kids[i] == x;
      assert x in Ids(t.kids[i]);
      assert i == k;
      if place[1..] != [] {
        BelowRootPlace(t.kids[k], place[1..]);
      }
      assert front == [];
    } else {
      var m := InSomeKid(t.kids, p);
      KidsBelow(t.kids[m], store, p);
      assert m == k;
      NotInOthers(t, k, x);
      assert place[1..] != [];
      ParentIs(t.kids[k], store, place[1..], p);
      assert front[1..] == place[1..][..|place[1..]| - 1];
    }
  }

  /** add, when the path has a match: target is the last one. A leaf without a given tag gets a sibling
    * of its own name, everything else a new last child. */
  method AddAtMatch(root: Element, target: Element, value: Option<string>, tag: Option<string>,
                    ghost nodes: set<Element>, ghost t: Tree<Element>, ghost spot: seq<nat>)
    returns (elem: Element, ghost place: seq<nat>)
    requires Document(root, nodes, t) && IsPlace(t, spot) && At(t, spot).id == target
    modifies nodes
    ensures fresh(elem)
    ensures var kids := At(t, spot).kids;
            var named := tag.Some? && tag.value != "";
            var local := if named then LocalName(tag.value)
                         else if kids != [] then kids[|kids| - 1].tag.local else At(t, spot).tag.local;
            var text := if value.Some? then value.value else "";
            && place == (if !named && kids == [] && spot != [] then spot[..|spot| - 1] else spot)
            && IsPlace(t, place)
            && Document(root, nodes + {elem}, Grow(t, place, Elem(elem, Tag(At(t, place).tag.ns, local), text, [])))
  {
    ReflectsAt(t, spot, Snapshot(nodes));
    IdsAtPlace(t, spot);
    ReflectsIds(t, Snapshot(nodes));
    var children := target.children;
    var local := target.tag.local;
    if Given(tag) {
      local := LocalName(tag.value);
    } else if children != [] {
      assert Reflects(At(t, spot).kids[|children| - 1], Snapshot(nodes));
      local := children[|children| - 1].tag.local;
    }
    var under := target;
    place := spot;
    if children == [] && !Given(tag) {
      var parent := FindParent(root, target, nodes, t);
      if spot != [] {
        BelowRootPlace(t, spot);
      } else {
        DistinctParts([t.id], IdsOfAll(t.kids));
        assert t.id in [t.id];
      }
      if parent != null {
        ParentIs(t, Snapshot(nodes), spot, parent);
        under, place := parent, spot[..|spot| - 1];
        ReflectsAt(t, place, Snapshot(nodes));
      }
    }
    elem := new Element(TagIn(under.tag, local), TextOf(value));
    assert Document(root, nodes, t);
    AppendNew(root, under, elem, nodes, t, place);
  }
}
