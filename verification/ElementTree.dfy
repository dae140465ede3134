/** Element trees as values over node identities, and the edits of such trees that the XML tools make
  * (common/xpath_utils.py): removing nodes, and replacing the subtree at a place. */
module ElementTree {
  import opened Sequences

  /** An element name, in or out of a namespace. */
  datatype Namespace = NoNamespace | Uri(uri: string)
  datatype Tag = Tag(ns: Namespace, local: string)

  datatype Tree<Id> = Elem(id: Id, tag: Tag, text: string, kids: seq<Tree<Id>>)

  /** All identities, in document order. */
  function Ids<Id>(t: Tree<Id>): seq<Id> {
    [t.id] + IdsOfAll(t.kids)
  }

  function IdsOfAll<Id>(ts: seq<Tree<Id>>): seq<Id> {
    if ts == [] then [] else Ids(ts[0]) + IdsOfAll(ts[1..])
  }

  lemma {:induction false} DistinctParts<T>(a: seq<T>, b: seq<T>)
    ensures Distinct(a + b) <==> Distinct(a) && Distinct(b) && forall x :: x in a ==> x !in b
  {
    var s := a + b;
    assert forall i :: 0 <= i < |a| ==> a[i] == s[i] && a[i] in a;
    assert forall i :: 0 <= i < |b| ==> b[i] == s[|a| + i] && b[i] in b;
  }

  lemma {:induction false} IdsConcat<Id>(a: seq<Tree<Id>>, b: seq<Tree<Id>>)
    ensures IdsOfAll(a + b) == IdsOfAll(a) + IdsOfAll(b)
  {
    if a == [] {
      assert a + b == b;
    } else {
      assert (a + b)[1..] == a[1..] + b;
      IdsConcat(a[1..], b);
    }
  }

  lemma {:induction false} KidIds<Id>(ts: seq<Tree<Id>>, i: nat)
    requires i < |ts|
    ensures IdsOfAll(ts) == IdsOfAll(ts[..i]) + Ids(ts[i]) + IdsOfAll(ts[i + 1..])
    ensures forall x :: x in Ids(ts[i]) ==> x in IdsOfAll(ts)
  {
    IdsConcat(ts[..i], ts[i..]);
    assert ts == ts[..i] + ts[i..];
    assert ts[i..][1..] == ts[i + 1..];
  }

  lemma {:induction false} InSomeKid<Id>(ts: seq<Tree<Id>>, x: Id) returns (i: nat)
    requires x in IdsOfAll(ts)
    ensures i < |ts| && x in Ids(ts[i])
  {
    if x in Ids(ts[0]) {
      i := 0;
    } else {
      i := InSomeKid(ts[1..], x);
      i := i + 1;
    }
  }

  /** In a tree with distinct identities, so are the subtrees, and they do not overlap. */
  lemma {:induction false} DistinctKids<Id>(t: Tree<Id>, i: nat)
    requires Distinct(Ids(t)) && i < |t.kids|
    ensures Distinct(Ids(t.kids[i])) && t.id !in Ids(t.kids[i]) && t.id !in IdsOfAll(t.kids)
    ensures forall j :: 0 <= j < |t.kids| && j != i ==> forall x :: x in Ids(t.kids[i]) ==> x !in Ids(t.kids[j])
  {
    KidIds(t.kids, i);
    DistinctParts([t.id], IdsOfAll(t.kids));
    assert t.id in [t.id];
    var a, b, c := IdsOfAll(t.kids[..i]), Ids(t.kids[i]), IdsOfAll(t.kids[i + 1..]);
    DistinctParts(a + b, c);
    DistinctParts(a, b);
    forall j | 0 <= j < |t.kids| && j != i
      ensures forall x :: x in Ids(t.kids[i]) ==> x !in Ids(t.kids[j])
    {
      if j < i {
        KidIds(t.kids[..i], j);
      } else {
        KidIds(t.kids[i + 1..], j - i - 1);
      }
    }
  }

  // ---------------------------------------------------------------- pruning

  /** One pass: every node of `gone` below the root is cut off with what is under it. */
  function Prune<Id(==)>(t: Tree<Id>, gone: set<Id>): Tree<Id> {
    t.(kids := PruneAll(t.kids, gone))
  }

  function PruneAll<Id(==)>(ts: seq<Tree<Id>>, gone: set<Id>): seq<Tree<Id>> {
    if ts == [] then []
    else (if ts[0].id in gone then [] else [Prune(ts[0], gone)]) + PruneAll(ts[1..], gone)
  }

  /** Pruning twice is pruning once by both sets. */
  lemma {:induction false} PruneTwice<Id>(t: Tree<Id>, a: set<Id>, b: set<Id>)
    ensures Prune(Prune(t, a), b) == Prune(t, a + b)
    decreases t, 0
  {
    PruneAllTwice(t.kids, a, b);
  }

  lemma {:induction false} PruneAllTwice<Id>(ts: seq<Tree<Id>>, a: set<Id>, b: set<Id>)
    ensures PruneAll(PruneAll(ts, a), b) == PruneAll(ts, a + b)
    decreases ts, 1
  {
    if ts != [] {
      PruneAllTwice(ts[1..], a, b);
      var p := PruneAll(ts, a);
      if ts[0].id !in a {
        PruneTwice(ts[0], a, b);
        assert p[0] == Prune(ts[0], a) && p[1..] == PruneAll(ts[1..], a);
      } else {
        assert p == PruneAll(ts[1..], a);
      }
    }
  }

  /** Nodes that are not there cannot be cut. */
  lemma {:induction false} PruneAbsent<Id>(t: Tree<Id>, gone: set<Id>)
    requires forall x :: x in IdsOfAll(t.kids) ==> x !in gone
    ensures Prune(t, gone) == t
    decreases t, 0
  {
    PruneAllAbsent(t.kids, gone);
  }

  lemma {:induction false} PruneAllAbsent<Id>(ts: seq<Tree<Id>>, gone: set<Id>)
    requires forall x :: x in IdsOfAll(ts) ==> x !in gone
    ensures PruneAll(ts, gone) == ts
    decreases ts, 1
  {
    if ts != [] {
      assert ts[0].id in Ids(ts[0]);
      PruneAbsent(ts[0], gone);
      PruneAllAbsent(ts[1..], gone);
      assert ts == [ts[0]] + ts[1..];
    }
  }

  lemma {:induction false} PruneCons<Id>(t: Tree<Id>, ts: seq<Tree<Id>>, gone: set<Id>)
    ensures PruneAll([t] + ts, gone) == (if t.id in gone then [] else [Prune(t, gone)]) + PruneAll(ts, gone)
  {
    assert ([t] + ts)[1..] == ts;
  }

  lemma {:induction false} PruneConcat<Id>(a: seq<Tree<Id>>, b: seq<Tree<Id>>, gone: set<Id>)
    ensures PruneAll(a + b, gone) == PruneAll(a, gone) + PruneAll(b, gone)
  {
    if a == [] {
      assert a + b == b;
    } else {
      assert a + b == [a[0]] + (a[1..] + b) && a == [a[0]] + a[1..];
      PruneCons(a[0], a[1..] + b, gone);
      PruneCons(a[0], a[1..], gone);
      PruneConcat(a[1..], b, gone);
    }
  }

  /** A change of one child that pruning takes back. */
  lemma {:induction false} PruneReplaced<Id>(ts: seq<Tree<Id>>, i: nat, u: Tree<Id>, gone: set<Id>)
    requires i < |ts| && u.id == ts[i].id && Prune(u, gone) == ts[i]
    requires forall x :: x in IdsOfAll(ts) ==> x !in gone
    ensures PruneAll(ts[i := u], gone) == ts
  {
    var kept := ts[0];
    assert kept.id in Ids(kept);
    if i == 0 {
      assert ts[0 := u][1..] == ts[1..];
      PruneAllAbsent(ts[1..], gone);
      assert ts == [kept] + ts[1..];
    } else {
      assert ts[i := u][1..] == ts[1..][i - 1 := u];
      PruneReplaced(ts[1..], i - 1, u, gone);
      PruneAbsent(kept, gone);
      assert ts == [kept] + ts[1..];
    }
  }

  /** Document order restricted to the survivors: a subsequence of the original order. */
  ghost predicate Subsequence<T>(a: seq<T>, b: seq<T>) {
    a == [] || (b != [] && ((a[0] == b[0] && Subsequence(a[1..], b[1..])) || Subsequence(a, b[1..])))
  }

  lemma {:induction false} SubsequenceConcat<T>(a: seq<T>, b: seq<T>, c: seq<T>, d: seq<T>)
    requires Subsequence(a, b) && Subsequence(c, d)
    ensures Subsequence(a + c, b + d)
    decreases |b|
  {
    if b == [] {
      assert a + c == c && b + d == d;
    } else {
      assert (b + d)[1..] == b[1..] + d;
      if a != [] && a[0] == b[0] && Subsequence(a[1..], b[1..]) {
        SubsequenceConcat(a[1..], b[1..], c, d);
        assert (a + c)[1..] == a[1..] + c;
      } else {
        EmptySubsequence(b[1..]);
        SubsequenceConcat(a, b[1..], c, d);
      }
    }
  }

  lemma {:induction false} EmptySubsequence<T>(b: seq<T>)
    ensures Subsequence([], b)
  {
  }

  lemma {:induction false} SubsequenceRefl<T>(a: seq<T>)
    ensures Subsequence(a, a)
  {
    if a != [] {
      SubsequenceRefl(a[1..]);
    }
  }

  lemma {:induction false} SubsequenceIn<T>(a: seq<T>, b: seq<T>)
    requires Subsequence(a, b)
    ensures forall x :: x in a ==> x in b
    ensures |a| <= |b|
    decreases |b|
  {
    if a != [] {
      assert a == [a[0]] + a[1..] && b == [b[0]] + b[1..];
      if a[0] == b[0] && Subsequence(a[1..], b[1..]) {
        SubsequenceIn(a[1..], b[1..]);
      } else {
        SubsequenceIn(a, b[1..]);
      }
    }
  }

  /** Pruning keeps the root and the order of everything that survives. */
  lemma {:induction false} PruneKeepsOrder<Id>(t: Tree<Id>, gone: set<Id>)
    ensures Prune(t, gone).id == t.id && Subsequence(Ids(Prune(t, gone)), Ids(t))
    decreases t, 0
  {
    PruneAllKeepsOrder(t.kids, gone);
    SubsequenceRefl([t.id]);
    SubsequenceConcat([t.id], [t.id], IdsOfAll(PruneAll(t.kids, gone)), IdsOfAll(t.kids));
  }

  lemma {:induction false} PruneAllKeepsOrder<Id>(ts: seq<Tree<Id>>, gone: set<Id>)
    ensures Subsequence(IdsOfAll(PruneAll(ts, gone)), IdsOfAll(ts))
    decreases ts, 1
  {
    if ts != [] {
      PruneAllKeepsOrder(ts[1..], gone);
      var rest := PruneAll(ts[1..], gone);
      if ts[0].id in gone {
        EmptySubsequence(Ids(ts[0]));
        SubsequenceConcat([], Ids(ts[0]), IdsOfAll(rest), IdsOfAll(ts[1..]));
        assert [] + IdsOfAll(rest) == IdsOfAll(rest);
        assert PruneAll(ts, gone) == rest;
      } else {
        PruneKeepsOrder(ts[0], gone);
        SubsequenceConcat(Ids(Prune(ts[0], gone)), Ids(ts[0]), IdsOfAll(rest), IdsOfAll(ts[1..]));
        assert PruneAll(ts, gone)[1..] == rest;
      }
    }
  }

  // ---------------------------------------------------------------- places

  /** A place in a tree: the child positions on the way to it. */
  predicate IsPlace<Id>(t: Tree<Id>, place: seq<nat>) {
    place == [] || (place[0] < |t.kids| && IsPlace(t.kids[place[0]], place[1..]))
  }

  function At<Id>(t: Tree<Id>, place: seq<nat>): Tree<Id>
    requires IsPlace(t, place)
  {
    if place == [] then t else At(t.kids[place[0]], place[1..])
  }

  /** The tree with another subtree at a place. */
  function Plug<Id>(t: Tree<Id>, place: seq<nat>, u: Tree<Id>): Tree<Id>
    requires IsPlace(t, place)
  {
    if place == [] then u
    else t.(kids := t.kids[place[0] := Plug(t.kids[place[0]], place[1..], u)])
  }

  lemma {:induction false} PlugAt<Id>(t: Tree<Id>, place: seq<nat>, u: Tree<Id>)
    requires IsPlace(t, place)
    ensures IsPlace(Plug(t, place, u), place) && At(Plug(t, place, u), place) == u
    ensures forall v :: Plug(Plug(t, place, u), place, v) == Plug(t, place, v)
    ensures Plug(t, place, At(t, place)) == t
  {
    if place != [] {
      PlugAt(t.kids[place[0]], place[1..], u);
      var p := Plug(t, place, u);
      assert p.kids[place[0]] == Plug(t.kids[place[0]], place[1..], u);
      forall v ensures Plug(p, place, v) == Plug(t, place, v) {
        assert p.kids[place[0] := Plug(t.kids[place[0]], place[1..], v)]
               == t.kids[place[0] := Plug(t.kids[place[0]], place[1..], v)];
      }
      assert t.kids[place[0] := t.kids[place[0]]] == t.kids;
    }
  }

  /** One level further down. */
  lemma {:induction false} Deeper<Id>(t: Tree<Id>, place: seq<nat>, i: nat)
    requires IsPlace(t, place) && i < |At(t, place).kids|
    ensures IsPlace(t, place + [i]) && At(t, place + [i]) == At(t, place).kids[i]
    ensures forall u ::
              Plug(t, place + [i], u) == Plug(t, place, At(t, place).(kids := At(t, place).kids[i := u]))
  {
    if place == [] {
      assert [] + [i] == [i] && [i][1..] == [];
    } else {
      Deeper(t.kids[place[0]], place[1..], i);
      assert (place + [i])[1..] == place[1..] + [i];
    }
  }

  lemma {:induction false} IdsAtPlace<Id>(t: Tree<Id>, place: seq<nat>)
    requires IsPlace(t, place)
    ensures forall x :: x in Ids(At(t, place)) ==> x in Ids(t)
    ensures At(t, place).id in Ids(t)
    ensures Distinct(Ids(t)) ==> Distinct(Ids(At(t, place)))
  {
    if place == [] {
      assert Ids(t)[0] == t.id;
    } else {
      IdsAtPlace(t.kids[place[0]], place[1..]);
      KidIds(t.kids, place[0]);
      if Distinct(Ids(t)) {
        DistinctKids(t, place[0]);
      }
    }
  }

  lemma {:induction false} PlaceOf<Id>(t: Tree<Id>, x: Id) returns (place: seq<nat>)
    requires x in Ids(t)
    ensures IsPlace(t, place) && At(t, place).id == x
    ensures place == [] <==> x == t.id
  {
    if x == t.id {
      place := [];
    } else {
      var i := InSomeKid(t.kids, x);
      var rest := PlaceOf(t.kids[i], x);
      place := [i] + rest;
      assert place[1..] == rest;
    }
  }

  /** A tree keeps the node at a place when neither it nor a node above it, other than the root, is cut. */
  lemma {:induction false} SurvivesIff<Id>(t: Tree<Id>, gone: set<Id>, place: seq<nat>)
    requires IsPlace(t, place) && Distinct(Ids(t))
    ensures At(t, place).id in Ids(Prune(t, gone)) <==> Untouched(t, gone, place)
  {
    var x := At(t, place).id;
    if place != [] {
      var k := place[0];
      IdsAtPlace(t.kids[k], place[1..]);
      DistinctKids(t, k);
      KidIds(t.kids, k);
      SurvivesIff(t.kids[k], gone, place[1..]);
      PrunedKids(t.kids, gone, k, x);
      PruneKeepsOrder(t, gone);
    }
  }

  /** No node strictly below the root on the way to the place is in the set. */
  predicate Untouched<Id(==)>(t: Tree<Id>, gone: set<Id>, place: seq<nat>)
    requires IsPlace(t, place)
  {
    place == [] || (t.kids[place[0]].id !in gone && Untouched(t.kids[place[0]], gone, place[1..]))
  }

  lemma {:induction false} PrunedKids<Id>(ts: seq<Tree<Id>>, gone: set<Id>, k: nat, x: Id)
    requires k < |ts| && x in Ids(ts[k]) && forall j :: 0 <= j < |ts| && j != k ==> x !in Ids(ts[j])
    ensures x in IdsOfAll(PruneAll(ts, gone)) <==> ts[k].id !in gone && x in Ids(Prune(ts[k], gone))
  {
    var rest := PruneAll(ts[1..], gone);
    if ts[0].id !in gone {
      assert PruneAll(ts, gone)[1..] == rest;
      PruneKeepsOrder(ts[0], gone);
      SubsequenceIn(Ids(Prune(ts[0], gone)), Ids(ts[0]));
    } else {
      assert PruneAll(ts, gone) == rest;
    }
    if k > 0 {
      PrunedKids(ts[1..], gone, k - 1, x);
    } else {
      PruneAllKeepsOrder(ts[1..], gone);
      SubsequenceIn(IdsOfAll(rest), IdsOfAll(ts[1..]));
      assert forall j :: 0 <= j < |ts| - 1 ==> ts[1..][j] == ts[j + 1];
      if x in IdsOfAll(ts[1..]) {
        var j := InSomeKid(ts[1..], x);
      }
    }
  }

  lemma {:induction false} PruneDistinct<Id>(t: Tree<Id>, gone: set<Id>)
    requires Distinct(Ids(t))
    ensures Distinct(Ids(Prune(t, gone)))
  {
    PruneKeepsOrder(t, gone);
    SubsequenceDistinct(Ids(Prune(t, gone)), Ids(t));
  }

  lemma {:induction false} SubsequenceDistinct<T>(a: seq<T>, b: seq<T>)
    requires Subsequence(a, b) && Distinct(b)
    ensures Distinct(a)
    decreases |b|
  {
    if a != [] {
      assert Distinct(b[1..]);
      if a[0] == b[0] && Subsequence(a[1..], b[1..]) {
        SubsequenceDistinct(a[1..], b[1..]);
        SubsequenceIn(a[1..], b[1..]);
        DistinctParts([b[0]], b[1..]);
        assert b == [b[0]] + b[1..] && a == [a[0]] + a[1..];
        assert a[0] in [b[0]];
        DistinctParts([a[0]], a[1..]);
      } else {
        SubsequenceDistinct(a, b[1..]);
      }
    }
  }

  // ---------------------------------------------------------------- one more node

  /** The tree with a new last child under the node at a place. */
  function Grow<Id>(t: Tree<Id>, place: seq<nat>, leaf: Tree<Id>): Tree<Id>
    requires IsPlace(t, place)
  {
    Plug(t, place, At(t, place).(kids := At(t, place).kids + [leaf]))
  }

  lemma {:induction false} GrowIds<Id>(t: Tree<Id>, place: seq<nat>, leaf: Tree<Id>) returns (k: nat)
    requires IsPlace(t, place) && leaf.kids == []
    ensures k <= |Ids(t)| && Ids(Grow(t, place, leaf)) == Ids(t)[..k] + [leaf.id] + Ids(t)[k..]
  {
    if place == [] {
      k := |Ids(t)|;
      IdsConcat(t.kids, [leaf]);
      assert [leaf][1..] == [] && IdsOfAll([leaf]) == [leaf.id];
    } else {
      var i := place[0];
      var m := GrowIds(t.kids[i], place[1..], leaf);
      var u := Grow(t.kids[i], place[1..], leaf);
      KidIds(t.kids, i);
      KidIds(t.kids[i := u], i);
      assert t.kids[i := u][..i] == t.kids[..i] && t.kids[i := u][i + 1..] == t.kids[i + 1..];
      k := 1 + |IdsOfAll(t.kids[..i])| + m;
      Inserted([t.id], IdsOfAll(t.kids[..i]), Ids(t.kids[i]), IdsOfAll(t.kids[i + 1..]), m, leaf.id);
    }
  }

  lemma {:induction false} Inserted<T>(a: seq<T>, b: seq<T>, c: seq<T>, d: seq<T>, m: nat, x: T)
    requires m <= |c|
    ensures var s, k := a + (b + c + d), |a| + |b| + m;
            a + (b + (c[..m] + [x] + c[m..]) + d) == s[..k] + [x] + s[k..]
  {
  }

  lemma {:induction false} GrowDistinct<Id>(t: Tree<Id>, place: seq<nat>, leaf: Tree<Id>)
    requires IsPlace(t, place) && leaf.kids == [] && Distinct(Ids(t)) && leaf.id !in Ids(t)
    ensures Distinct(Ids(Grow(t, place, leaf)))
    ensures forall x :: x in Ids(Grow(t, place, leaf)) <==> x in Ids(t) || x == leaf.id
  {
    var k := GrowIds(t, place, leaf);
    var a, b := Ids(t)[..k], Ids(t)[k..];
    assert Ids(t) == a + b;
    DistinctParts(a, b);
    DistinctParts(a, [leaf.id]);
    DistinctParts(a + [leaf.id], b);
  }

  /** Taking the new node away again gives back the tree. */
  lemma {:induction false} GrowThenPrune<Id>(t: Tree<Id>, place: seq<nat>, leaf: Tree<Id>)
    requires IsPlace(t, place) && leaf.id !in Ids(t)
    ensures Prune(Grow(t, place, leaf), {leaf.id}) == t
  {
    var gone := {leaf.id};
    assert forall x :: x in IdsOfAll(t.kids) ==> x in Ids(t);
    if place == [] {
      PruneAllAbsent(t.kids, gone);
      PruneConcat(t.kids, [leaf], gone);
      assert [leaf][1..] == [];
    } else {
      var i := place[0];
      KidIds(t.kids, i);
      GrowThenPrune(t.kids[i], place[1..], leaf);
      PruneReplaced(t.kids, i, Grow(t.kids[i], place[1..], leaf), gone);
    }
  }

  // ---------------------------------------------------------------- trees read off a store

  /** What an element object holds. */
  datatype Data<Id> = Data(tag: Tag, text: string, kids: seq<Id>)

  /** The objects of a store, read from t.id on, form the tree t. */
  ghost predicate Reflects<Id>(t: Tree<Id>, store: map<Id, Data<Id>>) {
    && t.id in store
    && store[t.id].tag == t.tag && store[t.id].text == t.text
    && |store[t.id].kids| == |t.kids|
    && forall i :: 0 <= i < |t.kids| ==> store[t.id].kids[i] == t.kids[i].id && Reflects(t.kids[i], store)
  }

  lemma {:induction false} ReflectsIds<Id>(t: Tree<Id>, store: map<Id, Data<Id>>)
    requires Reflects(t, store)
    ensures forall x :: x in Ids(t) ==> x in store
  {
    forall x | x in IdsOfAll(t.kids) ensures x in store {
      var i := InSomeKid(t.kids, x);
      ReflectsIds(t.kids[i], store);
    }
  }

  /** Objects outside the tree do not matter. */
  lemma {:induction false} ReflectsElsewhere<Id>(t: Tree<Id>, store: map<Id, Data<Id>>, store': map<Id, Data<Id>>)
    requires Reflects(t, store)
    requires forall x :: x in Ids(t) ==> x in store && x in store' && store'[x] == store[x]
    ensures Reflects(t, store')
  {
    assert Ids(t)[0] == t.id;
    forall i | 0 <= i < |t.kids| ensures Reflects(t.kids[i], store') {
      KidIds(t.kids, i);
      ReflectsElsewhere(t.kids[i], store, store');
    }
  }

  /** Changing what hangs at one place changes the tree at that place only. */
  lemma {:induction false} ReflectsPlug<Id>(t: Tree<Id>, place: seq<nat>, u: Tree<Id>, store: map<Id, Data<Id>>,
                                            store': map<Id, Data<Id>>)
    requires Reflects(t, store) && IsPlace(t, place) && Distinct(Ids(t))
    requires u.id == At(t, place).id && Reflects(u, store')
    requires forall x :: x in Ids(t) && x !in Ids(At(t, place)) ==> x in store && x in store' && store'[x] == store[x]
    ensures Reflects(Plug(t, place, u), store')
  {
    if place != [] {
      var k := place[0];
      DistinctKids(t, k);
      KidIds(t.kids, k);
      IdsAtPlace(t.kids[k], place[1..]);
      assert forall x :: x in Ids(t.kids[k]) ==> x in Ids(t);
      ReflectsPlug(t.kids[k], place[1..], u, store, store');
      PlugId(t.kids[k], place[1..], u);
      assert Ids(t)[0] == t.id && t.id in Ids(t);
      ReflectsIds(t, store);
      forall i | 0 <= i < |t.kids| && i != k ensures Reflects(t.kids[i], store') {
        KidIds(t.kids, i);
        DistinctKids(t, i);
        ReflectsElsewhere(t.kids[i], store, store');
      }
    }
  }

  lemma {:induction false} PlugId<Id>(t: Tree<Id>, place: seq<nat>, u: Tree<Id>)
    requires IsPlace(t, place) && u.id == At(t, place).id
    ensures Plug(t, place, u).id == t.id
  {
  }

  // ---------------------------------------------------------------- edits of the store

  /** What hangs below a node of the tree is in the tree, below the root. */
  lemma {:induction false} KidsBelow<Id>(t: Tree<Id>, store: map<Id, Data<Id>>, p: Id)
    requires Reflects(t, store) && p in Ids(t)
    ensures p in store && forall x :: x in store[p].kids ==> x in IdsOfAll(t.kids)
  {
    if p == t.id {
      forall x | x in store[p].kids ensures x in IdsOfAll(t.kids) {
        var i :| 0 <= i < |t.kids| && store[p].kids[i] == x;
        KidIds(t.kids, i);
        assert Ids(t.kids[i])[0] == x;
      }
    } else {
      var i := InSomeKid(t.kids, p);
      KidsBelow(t.kids[i], store, p);
      KidIds(t.kids, i);
    }
  }

  /** Every node but the root hangs below some node of the tree. */
  lemma {:induction false} HasParent<Id>(t: Tree<Id>, store: map<Id, Data<Id>>, x: Id) returns (p: Id)
    requires Reflects(t, store) && x in IdsOfAll(t.kids)
    ensures p in Ids(t) && p in store && x in store[p].kids
  {
    var i := InSomeKid(t.kids, x);
    if x == t.kids[i].id {
      p := t.id;
      assert store[t.id].kids[i] == x;
    } else {
      p := HasParent(t.kids[i], store, x);
      KidIds(t.kids, i);
    }
  }

  lemma {:induction false} NoneCutHere<Id>(ts: seq<Tree<Id>>, gone: set<Id>)
    requires forall i :: 0 <= i < |ts| ==> ts[i].id !in gone
    ensures |PruneAll(ts, gone)| == |ts|
    ensures forall i :: 0 <= i < |ts| ==> PruneAll(ts, gone)[i] == Prune(ts[i], gone)
  {
    if ts != [] {
      NoneCutHere(ts[1..], gone);
    }
  }

  lemma {:induction false} CutMiddle<Id>(a: seq<Tree<Id>>, m: Tree<Id>, c: seq<Tree<Id>>)
    requires m.id !in IdsOfAll(a) && m.id !in IdsOfAll(c)
    ensures PruneAll(a + ([m] + c), {m.id}) == a + c
  {
    PruneConcat(a, [m] + c, {m.id});
    PruneMiddle(m, c);
    PruneAllAbsent(a, {m.id});
  }

  lemma {:induction false} PruneMiddle<Id>(m: Tree<Id>, c: seq<Tree<Id>>)
    requires m.id !in IdsOfAll(c)
    ensures PruneAll([m] + c, {m.id}) == c
  {
    PruneCons(m, c, {m.id});
    PruneAllAbsent(c, {m.id});
    assert [] + c == c;
  }

  lemma {:induction false} CutHere<Id>(t: Tree<Id>, k: nat)
    requires k < |t.kids| && Distinct(Ids(t))
    ensures Prune(t, {t.kids[k].id}) == t.(kids := t.kids[..k] + t.kids[k + 1..])
  {
    var ts := t.kids;
    assert ts[k].id in Ids(ts[k]);
    KidIds(ts, k);
    DistinctParts([t.id], IdsOfAll(ts));
    DistinctParts(IdsOfAll(ts[..k]) + Ids(ts[k]), IdsOfAll(ts[k + 1..]));
    DistinctParts(IdsOfAll(ts[..k]), Ids(ts[k]));
    CutMiddle(ts[..k], ts[k], ts[k + 1..]);
    assert ts == ts[..k] + ([ts[k]] + ts[k + 1..]);
  }

  function Without<Id>(store: map<Id, Data<Id>>, p: Id, k: nat): map<Id, Data<Id>>
    requires p in store && k < |store[p].kids|
  {
    store[p := store[p].(kids := store[p].kids[..k] + store[p].kids[k + 1..])]
  }

  /** A child subtree that does not hold the changed node. */
  lemma {:induction false} OtherKid<Id>(t: Tree<Id>, store: map<Id, Data<Id>>, i: nat, p: Id, store': map<Id, Data<Id>>)
    requires Reflects(t, store) && i < |t.kids| && p !in Ids(t.kids[i])
    requires p in store && forall x :: x in store && x != p ==> x in store' && store'[x] == store[x]
    ensures Reflects(t.kids[i], store')
  {
    ReflectsIds(t.kids[i], store);
    ReflectsElsewhere(t.kids[i], store, store');
  }

  lemma {:induction false} CutReflectsHere<Id>(t: Tree<Id>, store: map<Id, Data<Id>>, k: nat)
    requires Reflects(t, store) && Distinct(Ids(t)) && k < |t.kids|
    ensures Reflects(Prune(t, {t.kids[k].id}), Without(store, t.id, k))
  {
    CutHere(t, k);
    forall i | 0 <= i < |t.kids| ensures Reflects(t.kids[i], Without(store, t.id, k)) {
      DistinctKids(t, i);
      OtherKid(t, store, i, t.id, Without(store, t.id, k));
    }
  }

  /** Removing one entry from one child list is pruning by that one node. */
  lemma {:induction false} CutReflects<Id>(t: Tree<Id>, store: map<Id, Data<Id>>, p: Id, k: nat)
    requires Reflects(t, store) && Distinct(Ids(t)) && p in Ids(t) && p in store && k < |store[p].kids|
    ensures Reflects(Prune(t, {store[p].kids[k]}), Without(store, p, k))
  {
    var x := store[p].kids[k];
    if p == t.id {
      CutReflectsHere(t, store, k);
      assert t.kids[k].id == x;
    } else {
      var m := InSomeKid(t.kids, p);
      DistinctKids(t, m);
      CutReflects(t.kids[m], store, p, k);
      KidsBelow(t.kids[m], store, p);
      NotInOthers(t, m, x);
      forall i | 0 <= i < |t.kids| && i != m ensures Reflects(Prune(t.kids[i], {x}), Without(store, p, k)) {
        OtherKid(t, store, i, p, Without(store, p, k));
        PruneAbsent(t.kids[i], {x});
      }
      NoneCutHere(t.kids, {x});
    }
  }

  lemma {:induction false} NotInOthers<Id>(t: Tree<Id>, m: nat, x: Id)
    requires Distinct(Ids(t)) && m < |t.kids| && x in IdsOfAll(t.kids[m].kids)
    ensures forall i :: 0 <= i < |t.kids| ==> t.kids[i].id != x
    ensures forall i :: 0 <= i < |t.kids| && i != m ==> x !in Ids(t.kids[i])
  {
    DistinctKids(t, m);
    DistinctParts([t.kids[m].id], IdsOfAll(t.kids[m].kids));
    assert t.kids[m].id in [t.kids[m].id];
    forall i | 0 <= i < |t.kids| && i != m ensures x !in Ids(t.kids[i]) && t.kids[i].id != x {
      assert x in Ids(t.kids[m]);
      assert t.kids[i].id in Ids(t.kids[i]);
    }
  }

  /** Appending a new node to one child list. */
  lemma {:induction false} GrowReflects<Id>(t: Tree<Id>, store: map<Id, Data<Id>>, place: seq<nat>, leaf: Tree<Id>,
                                            store': map<Id, Data<Id>>)
    requires Reflects(t, store) && Distinct(Ids(t)) && IsPlace(t, place)
    requires leaf.kids == [] && leaf.id !in Ids(t) && At(t, place).id in store
    requires var p := At(t, place).id;
             store' == store[leaf.id := Data(leaf.tag, leaf.text, [])][p := store[p].(kids := store[p].kids + [leaf.id])]
    ensures Reflects(Grow(t, place, leaf), store')
  {
    var at := At(t, place);
    var u := at.(kids := at.kids + [leaf]);
    ReflectsIds(t, store);
    ReflectsAt(t, place, store);
    IdsAtPlace(t, place);
    forall i | 0 <= i < |at.kids| ensures Reflects(at.kids[i], store') {
      KidIds(at.kids, i);
      DistinctKids(at, i);
      ReflectsElsewhere(at.kids[i], store, store');
    }
    assert Reflects(u, store');
    assert Ids(at)[0] == at.id;
    ReflectsPlug(t, place, u, store, store');
  }

  lemma {:induction false} ReflectsAt<Id>(t: Tree<Id>, place: seq<nat>, store: map<Id, Data<Id>>)
    requires Reflects(t, store) && IsPlace(t, place)
    ensures Reflects(At(t, place), store)
  {
    if place != [] {
      ReflectsAt(t.kids[place[0]], place[1..], store);
    }
  }
}
