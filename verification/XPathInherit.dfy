/** The names of the nodes that are made for a path (common/xpath_utils.py, _create_path and add): each has the local
  * name asked for, in the namespace of the element it is put into. */
module XPathInherit {
  import opened Options
  import opened ElementTree
  import opened XPathTokens
  import opened XPathQuery
  import opened XPathCreate

  /** The node at a place has this local name, and the namespace of the node one step above. */
  predicate Inherits<Id>(u: Tree<Id>, place: seq<nat>, local: string)
    requires IsPlace(u, place)
  {
    && place != [] && IsPlace(u, place[..|place| - 1])
    && At(u, place).tag.ns == At(u, place[..|place| - 1]).tag.ns && At(u, place).tag.local == local
  }

  /** The name asked for at a depth: that of the piece, or the given tag below the last piece. */
  function NameAt(locals: seq<string>, tag: Option<string>, depth: nat): string
    requires 0 < depth <= |locals| + if tag.Some? then 1 else 0
  {
    if depth <= |locals| then locals[depth - 1] else tag.value
  }

  predicate Inside(locals: seq<string>, tag: Option<string>, depth: nat) {
    0 < depth <= |locals| + if tag.Some? then 1 else 0
  }

  lemma {:induction false} UpperPlace<Id>(u: Tree<Id>, place: seq<nat>)
    requires IsPlace(u, place) && place != []
    ensures IsPlace(u, place[..|place| - 1])
    decreases |place|
  {
    if |place| > 1 {
      UpperPlace(u.kids[place[0]], place[1..]);
      assert place[..|place| - 1][1..] == place[1..][..|place| - 2];
    }
  }

  /** A node of a kid is named and placed in the whole tree as in the kid. */
  lemma {:induction false} InheritsInKid<Id>(u: Tree<Id>, place: seq<nat>, local: string)
    requires |place| > 1 && IsPlace(u, place) && Inherits(u.kids[place[0]], place[1..], local)
    ensures Inherits(u, place, local)
  {
    UpperPlace(u, place);
    var up := place[..|place| - 1];
    assert up[0] == place[0] && up[1..] == place[1..][..|place| - 2];
  }

  /** A kid of the root of the tree. */
  lemma {:induction false} InheritsHere<Id>(u: Tree<Id>, place: seq<nat>, local: string)
    requires |place| == 1 && IsPlace(u, place)
    requires u.kids[place[0]].tag.ns == u.tag.ns && u.kids[place[0]].tag.local == local
    ensures Inherits(u, place, local)
  {
    assert place[1..] == [] && place[..0] == [];
  }

  lemma {:induction false} NameBelow(locals: seq<string>, tag: Option<string>, depth: nat)
    requires locals != [] && Inside(locals[1..], tag, depth)
    ensures Inside(locals, tag, depth + 1) && NameAt(locals, tag, depth + 1) == NameAt(locals[1..], tag, depth)
  {
  }

  /** The new last child of a finished node. */
  lemma {:induction false} FinishedNames<Id>(t: Tree<Id>, tag: Option<string>, value: string, ids: seq<Id>, place: seq<nat>)
    requires |ids| == if tag.Some? then 1 else 0
    requires var u := Finish(t, tag, value, ids); IsPlace(u, place) && place != [] && place[0] >= |t.kids|
    ensures tag.Some? && |place| == 1 && Inherits(Finish(t, tag, value, ids), place, tag.value)
  {
    var u := Finish(t, tag, value, ids);
    if |place| == 1 {
      InheritsHere(u, place, tag.value);
    }
  }

  /** Everything below a new node is named so. */
  lemma {:induction false} NewNames<Id>(made: Tree<Id>, locals: seq<string>, tag: Option<string>, value: string, ids: seq<Id>,
                                        place: seq<nat>)
    requires made.kids == [] && |ids| == |locals| + if tag.Some? then 1 else 0
    requires Missing(made, locals) == |locals| && IsPlace(Create(made, locals, tag, value, ids), place) && place != []
    ensures Inside(locals, tag, |place|)
    ensures Inherits(Create(made, locals, tag, value, ids), place, NameAt(locals, tag, |place|))
    decreases |locals|
  {
    var u := Create(made, locals, tag, value, ids);
    if locals == [] {
      FinishedNames(made, tag, value, ids, place);
    } else {
      var next := Elem(ids[0], TagIn(made.tag, locals[0]), "", []);
      MissingBelowNew(next, locals[1..]);
      var kid := Create(next, locals[1..], tag, value, ids[1..]);
      assert u.kids == [kid];
      NamedBelow(u, kid, locals, tag, value, next, ids[1..], place);
    }
  }

  /** A new child and what is below it. */
  lemma {:induction false} NamedBelow<Id>(u: Tree<Id>, kid: Tree<Id>, locals: seq<string>, tag: Option<string>, value: string,
                                          next: Tree<Id>, ids: seq<Id>, place: seq<nat>)
    requires IsPlace(u, place) && place != [] && u.kids[place[0]] == kid
    requires locals != [] && next.kids == [] && next.tag == Tag(u.tag.ns, locals[0])
    requires |ids| == |locals| - 1 + (if tag.Some? then 1 else 0) && Missing(next, locals[1..]) == |locals| - 1
    requires kid == Create(next, locals[1..], tag, value, ids)
    ensures Inside(locals, tag, |place|) && Inherits(u, place, NameAt(locals, tag, |place|))
    decreases |locals|, 0
  {
    if |place| == 1 {
      InheritsHere(u, place, locals[0]);
    } else {
      NewNames(next, locals[1..], tag, value, ids, place[1..]);
      NameBelow(locals, tag, |place| - 1);
      InheritsInKid(u, place, NameAt(locals, tag, |place|));
    }
  }

  /** An old node keeps its place among the old identities. */
  lemma {:induction false} OldKid<Id>(t: Tree<Id>, u: Tree<Id>, place: seq<nat>)
    requires IsPlace(u, place) && place != [] && place[0] < |t.kids| && u.kids[place[0]] == t.kids[place[0]]
    ensures At(u, place).id in Ids(t)
  {
    IdsAtPlace(t.kids[place[0]], place[1..]);
    KidIds(t.kids, place[0]);
  }

  lemma {:induction false} RootId<Id>(t: Tree<Id>)
    ensures t.id in Ids(t)
  {
    assert Ids(t)[0] == t.id;
  }

  /** In the tree after the creation every node with a new identity has the name asked for at its depth, in the
    * namespace of the node one step above. */
  lemma {:induction false} CreatedInherits<Id>(t: Tree<Id>, locals: seq<string>, tag: Option<string>, value: string, ids: seq<Id>,
                                               place: seq<nat>)
    requires |ids| == Missing(t, locals) + if tag.Some? then 1 else 0
    requires forall x :: x in Ids(t) ==> x !in ids
    requires var u := Create(t, locals, tag, value, ids); IsPlace(u, place) && At(u, place).id in ids
    ensures Inside(locals, tag, |place|)
    ensures Inherits(Create(t, locals, tag, value, ids), place, NameAt(locals, tag, |place|))
    decreases |locals|
  {
    var u := Create(t, locals, tag, value, ids);
    RootId(t);
    assert place != [];
    var c := if locals == [] then None else ChildIndex(t.kids, locals[0]);
    if place[0] < |t.kids| && u.kids[place[0]] == t.kids[place[0]] {
      OldKid(t, u, place);
      assert false;
    } else if locals == [] {
      FinishedNames(t, tag, value, ids, place);
    } else if c.Some? {
      KidIds(t.kids, c.value);
      CreatedInherits(t.kids[c.value], locals[1..], tag, value, ids, place[1..]);
      NameBelow(locals, tag, |place| - 1);
      InheritsInKid(u, place, NameAt(locals, tag, |place|));
    } else {
      var next := Elem(ids[0], TagIn(t.tag, locals[0]), "", []);
      MissingBelowNew(next, locals[1..]);
      NamedBelow(u, Create(next, locals[1..], tag, value, ids[1..]), locals, tag, value, next, ids[1..], place);
    }
  }

  /** So it is at every place. */
  ghost predicate NewInherit<Id>(u: Tree<Id>, locals: seq<string>, tag: Option<string>, ids: seq<Id>) {
    forall place :: IsPlace(u, place) && At(u, place).id in ids ==>
      Inside(locals, tag, |place|) && Inherits(u, place, NameAt(locals, tag, |place|))
  }

  lemma {:induction false} AllInherit<Id>(t: Tree<Id>, locals: seq<string>, tag: Option<string>, value: string, ids: seq<Id>)
    requires |ids| == Missing(t, locals) + if tag.Some? then 1 else 0
    requires forall x :: x in Ids(t) ==> x !in ids
    ensures NewInherit(Create(t, locals, tag, value, ids), locals, tag, ids)
  {
    var u := Create(t, locals, tag, value, ids);
    forall place | IsPlace(u, place) && At(u, place).id in ids
      ensures Inside(locals, tag, |place|) && Inherits(u, place, NameAt(locals, tag, |place|))
    {
      CreatedInherits(t, locals, tag, value, ids, place);
    }
  }

  /** Where nothing of the path is there, every new node is in the namespace of the root. */
  lemma {:induction false} RootNamespace<Id>(t: Tree<Id>, locals: seq<string>, tag: Option<string>, value: string, ids: seq<Id>,
                                             place: seq<nat>)
    requires locals != [] && ChildIndex(t.kids, locals[0]).None?
    requires |ids| == Missing(t, locals) + if tag.Some? then 1 else 0
    requires forall x :: x in Ids(t) ==> x !in ids
    requires var u := Create(t, locals, tag, value, ids); IsPlace(u, place) && At(u, place).id in ids
    ensures At(Create(t, locals, tag, value, ids), place).tag.ns == t.tag.ns
    decreases |place|
  {
    var u := Create(t, locals, tag, value, ids);
    CreatedInherits(t, locals, tag, value, ids, place);
    if |place| > 1 {
      var up := place[..|place| - 1];
      assert place[0] >= |t.kids| by {
        if place[0] < |t.kids| {
          OldKid(t, u, place);
          assert false;
        }
      }
      var next := Elem(ids[0], TagIn(t.tag, locals[0]), "", []);
      MissingBelowNew(next, locals[1..]);
      NewNamespace(next, locals[1..], tag, value, ids[1..], place[1..]);
    } else {
      assert place[..0] == [];
    }
  }

  lemma {:induction false} NewNamespace<Id>(made: Tree<Id>, locals: seq<string>, tag: Option<string>, value: string, ids: seq<Id>,
                                            place: seq<nat>)
    requires made.kids == [] && |ids| == |locals| + if tag.Some? then 1 else 0
    requires Missing(made, locals) == |locals| && IsPlace(Create(made, locals, tag, value, ids), place)
    ensures At(Create(made, locals, tag, value, ids), place).tag.ns == made.tag.ns
    decreases |place|
  {
    if place != [] {
      NewNames(made, locals, tag, value, ids, place);
      NewNamespace(made, locals, tag, value, ids, place[..|place| - 1]);
    }
  }

  /** The leaf that was grown at a place, and nothing else, is new; when it has the namespace of that place, it inherits. */
  lemma {:induction false} GrownInherits<Id>(t: Tree<Id>, place: seq<nat>, leaf: Tree<Id>, spot: seq<nat>)
    requires IsPlace(t, place) && leaf.id !in Ids(t) && leaf.kids == [] && leaf.tag.ns == At(t, place).tag.ns
    requires IsPlace(Grow(t, place, leaf), spot) && At(Grow(t, place, leaf), spot).id == leaf.id
    ensures spot == place + [|At(t, place).kids|] && Inherits(Grow(t, place, leaf), spot, leaf.tag.local)
    decreases |place|
  {
    var u := Grow(t, place, leaf);
    RootId(t);
    assert spot != [] by {
      PlugId(t, place, At(t, place).(kids := At(t, place).kids + [leaf]));
    }
    if spot[0] < |t.kids| && u.kids[spot[0]] == t.kids[spot[0]] {
      OldKid(t, u, spot);
      assert false;
    } else if place == [] {
      if |spot| == 1 {
        InheritsHere(u, spot, leaf.tag.local);
      }
      assert [] + [|t.kids|] == [|t.kids|];
    } else {
      KidIds(t.kids, place[0]);
      GrownInherits(t.kids[place[0]], place[1..], leaf, spot[1..]);
      InheritsInKid(u, spot, leaf.tag.local);
      assert place + [|At(t, place).kids|] == [place[0]] + (place[1..] + [|At(t, place).kids|]);
    }
  }
}
