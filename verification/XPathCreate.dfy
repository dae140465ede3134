/** Creating the nodes of a path that is not there (common/xpath_utils.py, _create_path), on tree
  * values: what is added, what the query finds afterwards, and that nothing else changed. */
module XPathCreate {
  import opened Options
  import opened ElementTree
  import opened PyText
  import opened XPathTokens
  import opened XPathRewrite
  import opened XPathWidening
  import opened XPathSteps
  import opened XPathQuery
  import opened XPathFallback

  // ---------------------------------------------------------------- descent

  function FirstPassing<Id>(test: Test, ts: seq<Tree<Id>>): (i: Option<nat>)
    ensures i.Some? ==> i.value < |ts| && Passes(test, ts[i.value])
  {
    if ts == [] then None
    else if Passes(test, ts[0]) then Some(0)
    else
      var i := FirstPassing(test, ts[1..]);
      if i.None? then None else Some(i.value + 1)
  }

  /** find_child for a plain local name: a child without namespace first, then one in any namespace. */
  function ChildIndex<Id>(ts: seq<Tree<Id>>, local: string): (i: Option<nat>)
    ensures i.Some? ==> i.value < |ts| && Passes(AnyNamespace(local), ts[i.value])
  {
    var exact := FirstPassing(Exactly(Tag(NoNamespace, local)), ts);
    if exact.Some? then exact else FirstPassing(AnyNamespace(local), ts)
  }

  /** _tag_in_parent_ns. */
  function TagIn(parent: Tag, local: string): Tag { Tag(parent.ns, local) }

  /** How many nodes the descent has to add. */
  function Missing<Id>(t: Tree<Id>, locals: seq<string>): nat
    decreases |locals|
  {
    if locals == [] then 0
    else
      var i := ChildIndex(t.kids, locals[0]);
      if i.Some? then Missing(t.kids[i.value], locals[1..]) else |locals|
  }

  /** The last step: the value becomes the text of the node, or of a new child when a tag is given. */
  function Finish<Id>(t: Tree<Id>, tag: Option<string>, value: string, ids: seq<Id>): Tree<Id>
    requires |ids| == if tag.Some? then 1 else 0
  {
    if tag.None? then t.(text := value)
    else t.(kids := t.kids + [Elem(ids[0], TagIn(t.tag, tag.value), value, [])])
  }

  /** The tree after _create_path, given the identities of the nodes it makes. */
  function Create<Id>(t: Tree<Id>, locals: seq<string>, tag: Option<string>, value: string, ids: seq<Id>): (r: Tree<Id>)
    requires |ids| == Missing(t, locals) + if tag.Some? then 1 else 0
    ensures r.id == t.id && r.tag == t.tag
    decreases |locals|
  {
    if locals == [] then Finish(t, tag, value, ids)
    else
      var i := ChildIndex(t.kids, locals[0]);
      if i.Some? then
        t.(kids := t.kids[i.value := Create(t.kids[i.value], locals[1..], tag, value, ids)])
      else
        var made := Elem(ids[0], TagIn(t.tag, locals[0]), "", []);
        MissingBelowNew(made, locals[1..]);
        t.(kids := t.kids + [Create(made, locals[1..], tag, value, ids[1..])])
  }

  lemma {:induction false} MissingBelowNew<Id>(made: Tree<Id>, locals: seq<string>)
    requires made.kids == []
    ensures Missing(made, locals) == |locals|
  {
  }

  // ---------------------------------------------------------------- what the path reaches

  function Selected<Id>(test: Test, ts: seq<Tree<Id>>): seq<Tree<Id>> {
    if ts == [] then []
    else (if Passes(test, ts[0]) then [ts[0]] else []) + Selected(test, ts[1..])
  }

  /** The selected children of some elements. */
  function StepFrom<Id>(test: Test, ctx: seq<Tree<Id>>): seq<Tree<Id>> {
    if ctx == [] then [] else Selected(test, ctx[0].kids) + StepFrom(test, ctx[1..])
  }

  /** The nodes reached from a context by child steps that accept any namespace. */
  function Reach<Id>(locals: seq<string>, ctx: seq<Tree<Id>>): seq<Tree<Id>>
    decreases |locals|
  {
    if locals == [] then ctx else Reach(locals[1..], StepFrom(AnyNamespace(locals[0]), ctx))
  }

  lemma {:induction false} StepConcat<Id>(test: Test, a: seq<Tree<Id>>, b: seq<Tree<Id>>)
    ensures StepFrom(test, a + b) == StepFrom(test, a) + StepFrom(test, b)
  {
    if a == [] {
      assert a + b == b;
    } else {
      assert (a + b)[1..] == a[1..] + b;
      StepConcat(test, a[1..], b);
    }
  }

  lemma {:induction false} ReachConcat<Id>(locals: seq<string>, a: seq<Tree<Id>>, b: seq<Tree<Id>>)
    ensures Reach(locals, a + b) == Reach(locals, a) + Reach(locals, b)
    decreases |locals|
  {
    if locals != [] {
      var test := AnyNamespace(locals[0]);
      StepConcat(test, a, b);
      ReachConcat(locals[1..], StepFrom(test, a), StepFrom(test, b));
    }
  }

  lemma {:induction false} SelectedCons<Id>(test: Test, t: Tree<Id>, ts: seq<Tree<Id>>)
    ensures Selected(test, [t] + ts) == (if Passes(test, t) then [t] else []) + Selected(test, ts)
  {
    assert ([t] + ts)[1..] == ts;
  }

  lemma {:induction false} SelectedConcat<Id>(test: Test, a: seq<Tree<Id>>, b: seq<Tree<Id>>)
    ensures Selected(test, a + b) == Selected(test, a) + Selected(test, b)
  {
    if a == [] {
      assert a + b == b;
    } else {
      assert a + b == [a[0]] + (a[1..] + b) && a == [a[0]] + a[1..];
      SelectedCons(test, a[0], a[1..] + b);
      SelectedCons(test, a[0], a[1..]);
      SelectedConcat(test, a[1..], b);
    }
  }

  lemma {:induction false} StepOne<Id>(test: Test, t: Tree<Id>)
    ensures StepFrom(test, [t]) == Selected(test, t.kids)
  {
    assert [t][1..] == [];
  }

  lemma {:induction false} NoneSelected<Id>(test: Test, ts: seq<Tree<Id>>)
    requires FirstPassing(test, ts).None?
    ensures Selected(test, ts) == []
  {
    if ts != [] {
      NoneSelected(test, ts[1..]);
    }
  }

  lemma {:induction false} NoneExact<Id>(local: string, ts: seq<Tree<Id>>)
    requires ChildIndex(ts, local).None?
    ensures FirstPassing(AnyNamespace(local), ts).None?
  {
  }

  lemma {:induction false} SelectedAround<Id>(test: Test, ts: seq<Tree<Id>>, i: nat, u: Tree<Id>)
    requires i < |ts| && Passes(test, u)
    ensures Selected(test, ts[i := u]) == Selected(test, ts[..i]) + [u] + Selected(test, ts[i + 1..])
  {
    assert ts[i := u] == ts[..i] + ([u] + ts[i + 1..]);
    SelectedConcat(test, ts[..i], [u] + ts[i + 1..]);
    SelectedConcat(test, [u], ts[i + 1..]);
    assert [u][1..] == [];
  }

  /** Replacing one matching child replaces its share of what is reached. */
  lemma {:induction false} ReachThrough<Id>(locals: seq<string>, t: Tree<Id>, i: nat, u: Tree<Id>)
    requires locals != [] && i < |t.kids| && Passes(AnyNamespace(locals[0]), u)
    ensures Reach(locals, [t.(kids := t.kids[i := u])])
            == Reach(locals[1..], Selected(AnyNamespace(locals[0]), t.kids[..i])) + Reach(locals[1..], [u])
               + Reach(locals[1..], Selected(AnyNamespace(locals[0]), t.kids[i + 1..]))
  {
    var test := AnyNamespace(locals[0]);
    StepOne(test, t.(kids := t.kids[i := u]));
    SelectedAround(test, t.kids, i, u);
    var a, c := Selected(test, t.kids[..i]), Selected(test, t.kids[i + 1..]);
    ReachConcat(locals[1..], a + [u], c);
    ReachConcat(locals[1..], a, [u]);
  }

  /** The node that the value goes to when the path was not there. */
  ghost predicate IsCreatedLeaf<Id>(leaf: Tree<Id>, local: string, tag: Option<string>, value: string, ids: seq<Id>) {
    && |ids| > (if tag.Some? then 1 else 0)
    && leaf.tag.local == local
    && var n := |ids| - (if tag.Some? then 1 else 0);
       && leaf.id == ids[n - 1]
       && if tag.None? then leaf.text == value && leaf.kids == []
          else leaf.text == "" && leaf.kids == [Elem(ids[n], Tag(leaf.tag.ns, tag.value), value, [])]
  }

  lemma {:induction false} LeafLater<Id>(leaf: Tree<Id>, local: string, tag: Option<string>, value: string, ids: seq<Id>, before: Id)
    requires IsCreatedLeaf(leaf, local, tag, value, ids)
    ensures IsCreatedLeaf(leaf, local, tag, value, [before] + ids)
  {
    var n := |ids| - if tag.Some? then 1 else 0;
    assert ([before] + ids)[n + 1..] == ids[n..];
  }

  lemma {:induction false} NewReaches<Id>(made: Tree<Id>, locals: seq<string>, tag: Option<string>, value: string,
                                          ids: seq<Id>, before: Id)
    returns (leaf: Tree<Id>)
    requires made.kids == [] && made.text == "" && made.id == before
    requires |ids| == |locals| + if tag.Some? then 1 else 0
    ensures Missing(made, locals) == |locals|
    ensures Reach(locals, [Create(made, locals, tag, value, ids)]) == [leaf]
    ensures IsCreatedLeaf(leaf, if locals == [] then made.tag.local else locals[|locals| - 1], tag, value, [before] + ids)
    decreases |locals|
  {
    MissingBelowNew(made, locals);
    var u := Create(made, locals, tag, value, ids);
    if locals == [] {
      leaf := u;
      assert ([before] + ids)[1..] == ids;
    } else {
      var next := Elem(ids[0], TagIn(made.tag, locals[0]), "", []);
      leaf := NewReaches(next, locals[1..], tag, value, ids[1..], ids[0]);
      assert [ids[0]] + ids[1..] == ids;
      LeafLater(leaf, locals[|locals| - 1], tag, value, ids, before);
      assert u.kids == [Create(next, locals[1..], tag, value, ids[1..])];
      assert u.kids[1..] == [];
      StepOne(AnyNamespace(locals[0]), u);
    }
  }

  lemma {:induction false} ReachesNothingBelow<Id>(t: Tree<Id>, locals: seq<string>)
    requires locals != [] && Reach(locals, [t]) == [] && ChildIndex(t.kids, locals[0]).Some?
    ensures var i := ChildIndex(t.kids, locals[0]).value;
            && locals[1..] != [] && Reach(locals[1..], [t.kids[i]]) == []
            && Reach(locals[1..], Selected(AnyNamespace(locals[0]), t.kids[..i])) == []
            && Reach(locals[1..], Selected(AnyNamespace(locals[0]), t.kids[i + 1..])) == []
  {
    var i := ChildIndex(t.kids, locals[0]).value;
    var kid := t.kids[i];
    assert t.kids[i := kid] == t.kids;
    assert t.(kids := t.kids) == t;
    ReachThrough(locals, t, i, kid);
    assert Reach([], [kid]) == [kid];
  }

  /** The first missing step makes one new child, and everything below it is new. */
  lemma {:induction false} CreatedBelow<Id>(t: Tree<Id>, locals: seq<string>, tag: Option<string>, value: string, ids: seq<Id>)
    returns (leaf: Tree<Id>)
    requires locals != [] && ChildIndex(t.kids, locals[0]).None?
    requires |ids| == |locals| + if tag.Some? then 1 else 0
    ensures Reach(locals, [Create(t, locals, tag, value, ids)]) == [leaf]
    ensures IsCreatedLeaf(leaf, locals[|locals| - 1], tag, value, ids)
  {
    var test := AnyNamespace(locals[0]);
    NoneExact(locals[0], t.kids);
    NoneSelected(test, t.kids);
    var made := Elem(ids[0], TagIn(t.tag, locals[0]), "", []);
    leaf := NewReaches(made, locals[1..], tag, value, ids[1..], ids[0]);
    assert [ids[0]] + ids[1..] == ids;
    var u := Create(made, locals[1..], tag, value, ids[1..]);
    StepOne(test, t.(kids := t.kids + [u]));
    SelectedConcat(test, t.kids, [u]);
    assert [u][1..] == [];
    assert Selected(test, [u]) == [u];
    assert [] + [u] == [u];
  }

  /** When the path reaches nothing, after the creation it reaches exactly the one new leaf. */
  lemma {:induction false} CreatedReaches<Id>(t: Tree<Id>, locals: seq<string>, tag: Option<string>, value: string, ids: seq<Id>)
    returns (leaf: Tree<Id>)
    requires locals != [] && Reach(locals, [t]) == []
    requires |ids| == Missing(t, locals) + if tag.Some? then 1 else 0
    ensures Missing(t, locals) > 0
    ensures Reach(locals, [Create(t, locals, tag, value, ids)]) == [leaf]
    ensures IsCreatedLeaf(leaf, locals[|locals| - 1], tag, value, ids)
    decreases |locals|
  {
    var test := AnyNamespace(locals[0]);
    var c := ChildIndex(t.kids, locals[0]);
    if c.Some? {
      ReachesNothingBelow(t, locals);
      var i := c.value;
      var kid := t.kids[i];
      leaf := CreatedReaches(kid, locals[1..], tag, value, ids);
      ReachThrough(locals, t, i, Create(kid, locals[1..], tag, value, ids));
    } else {
      leaf := CreatedBelow(t, locals, tag, value, ids);
    }
  }

  // ---------------------------------------------------------------- nothing else changes

  /** Taking the new nodes away again gives back the tree, text and all. */
  lemma {:induction false} CreateOnlyAdds<Id>(t: Tree<Id>, locals: seq<string>, tag: Option<string>, value: string,
                                              ids: seq<Id>, gone: set<Id>)
    requires |ids| == Missing(t, locals) + if tag.Some? then 1 else 0
    requires Missing(t, locals) > 0
    requires (forall x :: x in Ids(t) ==> x !in gone) && (forall x :: x in ids ==> x in gone)
    ensures Prune(Create(t, locals, tag, value, ids), gone) == t
    decreases |locals|
  {
    assert forall x :: x in IdsOfAll(t.kids) ==> x in Ids(t);
    var c := ChildIndex(t.kids, locals[0]);
    if c.Some? {
      var i := c.value;
      KidIds(t.kids, i);
      CreateOnlyAdds(t.kids[i], locals[1..], tag, value, ids, gone);
      PruneReplaced(t.kids, i, Create(t.kids[i], locals[1..], tag, value, ids), gone);
    } else {
      var made := Elem(ids[0], TagIn(t.tag, locals[0]), "", []);
      MissingBelowNew(made, locals[1..]);
      var u := Create(made, locals[1..], tag, value, ids[1..]);
      assert ids[0] in ids;
      PruneAllAbsent(t.kids, gone);
      PruneConcat(t.kids, [u], gone);
      assert [u][1..] == [];
    }
  }

  // ---------------------------------------------------------------- paths as text

  /** A step of a simple path: a name, or a prefix and a name. */
  predicate PathName(s: string) {
    && s != "" && s[0] !in {'.', '*'}
    && (forall i :: 0 <= i < |s| ==> NameChar(s[i]) && s[i] !in {'{', '}', '\'', '"'})
    && PlainName(AfterColon(s))
  }

  predicate PathNames(names: seq<string>) {
    names != [] && forall i :: 0 <= i < |names| ==> PathName(names[i])
  }

  function NameTokens(names: seq<string>): (ts: seq<Token>)
    requires names != []
  {
    if |names| == 1 then [Seg(names[0])] else [Seg(names[0]), Slash] + NameTokens(names[1..])
  }

  function PathTokens(dot: bool, names: seq<string>): seq<Token>
    requires names != []
  {
    (if dot then [Seg("."), Slash] else []) + NameTokens(names)
  }

  /** The path a/b/c or ./a/b/c. */
  function PathText(dot: bool, names: seq<string>): string
    requires names != []
  {
    Render(PathTokens(dot, names))
  }

  predicate HasDoubleSlash(x: string) {
    exists i :: 0 <= i < |x| - 1 && x[i] == '/' && x[i + 1] == '/'
  }

  function Segments(ts: seq<Token>): seq<string> {
    if ts == [] then [] else (if ts[0].Seg? then [ts[0].text] else []) + Segments(ts[1..])
  }

  lemma {:induction false} SegmentsNotEmpty(ts: seq<Token>)
    requires Normal(ts)
    ensures forall i :: 0 <= i < |Segments(ts)| ==> Segments(ts)[i] != ""
  {
    if ts != [] {
      SegmentsNotEmpty(ts[1..]);
    }
  }

  /** The pieces _create_path walks along; None where it returns without doing anything. */
  function PathParts(xpath: string): (r: Option<seq<string>>)
    ensures r.Some? ==> r.value != [] && forall i :: 0 <= i < |r.value| ==> r.value[i] != ""
  {
    var path := Strip(xpath);
    var rest := if |path| >= 2 && path[0] == '.' && path[1] == '/' then path[2..] else path;
    var simple := if rest != "" && rest[0] == '/' then rest[1..] else rest;
    TokensNormal(simple);
    SegmentsNotEmpty(Tokens(simple));
    if HasDoubleSlash(simple) || '[' in simple || Segments(Tokens(simple)) == [] then None
    else Some(Segments(Tokens(simple)))
  }

  /** _local_name: what follows the last closing brace. */
  function LocalName(tag: string): string {
    if '}' !in tag then tag
    else if tag[|tag| - 1] == '}' then ""
    else LocalName(tag[..|tag| - 1]) + [tag[|tag| - 1]]
  }

  /** The local name a piece stands for. */
  function LocalPart(part: string): string
    requires part != ""
  {
    if part[0] == '{' then LocalName(part) else if ':' in part then AfterColon(part) else LocalName(part)
  }

  function Locals(names: seq<string>): (r: seq<string>)
    requires forall i :: 0 <= i < |names| ==> names[i] != ""
    ensures |r| == |names|
  {
    if names == [] then [] else [LocalPart(names[0])] + Locals(names[1..])
  }

  // ---------------------------------------------------------------- a simple path reads as its names

  lemma {:induction false} NameTokensUnfold(names: seq<string>)
    requires PathNames(names)
    ensures var ts := NameTokens(names);
            && ts != [] && ts[0] == Seg(names[0])
            && (|names| == 1 ==> ts[1..] == [])
            && (|names| > 1 ==> PathNames(names[1..]) && |ts| > 2 && ts[1] == Slash && ts[1..][0] == Slash
                                && ts[1..][1..] == NameTokens(names[1..]) && ts[2..] == NameTokens(names[1..]))
  {
  }

  lemma {:induction false} NameTokensNormal(names: seq<string>)
    requires PathNames(names)
    ensures Normal(NameTokens(names)) && NameTokens(names) != [] && NameTokens(names)[0] == Seg(names[0])
  {
    NameTokensUnfold(names);
    NameFree(names[0]);
    if |names| > 1 {
      NameTokensNormal(names[1..]);
      NormalCons(NameTokens(names));
    }
  }

  lemma {:induction false} SegmentsCons(name: string, rest: seq<Token>)
    ensures Segments([Seg(name)]) == [name]
    ensures Segments([Seg(name), Slash] + rest) == [name] + Segments(rest)
  {
    var ts := [Seg(name), Slash] + rest;
    assert [Seg(name)][1..] == [];
    assert ts[1..] == [Slash] + rest && ts[1..][1..] == rest;
  }

  lemma {:induction false} NameSegments(names: seq<string>)
    requires PathNames(names)
    ensures Segments(NameTokens(names)) == names
  {
    if |names| == 1 {
      SegmentsCons(names[0], []);
      assert names == [names[0]];
    } else {
      NameSegments(names[1..]);
      SegmentsCons(names[0], NameTokens(names[1..]));
      assert names == [names[0]] + names[1..];
    }
  }

  lemma {:induction false} NormalCons(ts: seq<Token>)
    requires |ts| > 2 && ts[0].Seg? && NormalToken(ts[0]) && ts[1..][0] == Slash
    requires ts[1..][1..] != [] && ts[1..][1..][0].Seg? && Normal(ts[1..][1..])
    ensures Normal(ts)
  {
    assert Normal(ts[1..]);
  }

  lemma {:induction false} LastNameToken(names: seq<string>)
    requires PathNames(names)
    ensures var ts := NameTokens(names);
            ts != [] && ts[|ts| - 1] == Seg(names[|names| - 1])
  {
    if |names| > 1 {
      LastNameToken(names[1..]);
    }
  }

  lemma {:induction false} NameTokensFree(names: seq<string>, c: char)
    requires PathNames(names) && c != '/' && forall i :: 0 <= i < |names| ==> c !in names[i]
    ensures Free(NameTokens(names), c)
  {
    NameTokensUnfold(names);
    if |names| > 1 {
      NameTokensFree(names[1..], c);
    }
  }

  lemma {:induction false} NameFree(name: string)
    requires PathName(name)
    ensures '[' !in name && '{' !in name && '}' !in name && '/' !in name && '@' !in name
  {
  }

  lemma {:induction false} NamesText(names: seq<string>)
    requires PathNames(names)
    ensures |names| == 1 ==> Render(NameTokens(names)) == names[0]
    ensures |names| > 1 ==> Render(NameTokens(names)) == names[0] + ("/" + Render(NameTokens(names[1..])))
  {
    NameTokensUnfold(names);
    assert names[0] + "" == names[0];
  }

  /** A text that starts and ends with names, without adjacent slashes, brackets or braces. */
  lemma {:induction false} NamesTextShape(names: seq<string>)
    requires PathNames(names)
    ensures var x := Render(NameTokens(names));
            && x != "" && x[0] == names[0][0] && !IsSpace(x[|x| - 1]) && x[|x| - 1] != '/'
            && !HasDoubleSlash(x)
  {
    NamesText(names);
    var x := Render(NameTokens(names));
    if |names| > 1 {
      NamesTextShape(names[1..]);
      var rest := Render(NameTokens(names[1..]));
      var n := |names[0]|;
      forall i | 0 <= i < |x| - 1 && x[i] == '/' ensures x[i + 1] != '/' {
        if i >= n + 1 {
          assert x[i] == rest[i - n - 1] && x[i + 1] == rest[i - n];
        } else if i == n {
          assert x[i + 1] == rest[0];
        }
      }
    }
  }

  lemma {:induction false} StripNothing(s: string)
    requires s != "" && !IsSpace(s[0]) && !IsSpace(s[|s| - 1])
    ensures Strip(s) == s
  {
  }

  lemma {:induction false} DotText(names: seq<string>)
    requires PathNames(names)
    ensures PathText(false, names) == Render(NameTokens(names))
    ensures PathText(true, names) == "." + ("/" + Render(NameTokens(names)))
  {
    var ts := [Seg("."), Slash] + NameTokens(names);
    assert ts[1..] == [Slash] + NameTokens(names);
    assert ts[1..][1..] == NameTokens(names);
    assert Render(ts[1..]) == "/" + Render(NameTokens(names));
    assert [] + NameTokens(names) == NameTokens(names);
  }

  /** _create_path walks along exactly the names of the path. */
  lemma {:induction false} PartsOfPath(dot: bool, names: seq<string>)
    requires PathNames(names)
    ensures PathParts(PathText(dot, names)) == Some(names)
  {
    DotText(names);
    NamesTextShape(names);
    NameTokensNormal(names);
    NameSegments(names);
    var x, p := PathText(dot, names), Render(NameTokens(names));
    StripNothing(x);
    assert x[|x| - 1] == p[|p| - 1];
    assert dot ==> x[2..] == p;
    forall i | 0 <= i < |names| ensures '[' !in names[i] {
      NameFree(names[i]);
    }
    NameTokensFree(names, '[');
    RenderFree(NameTokens(names), '[');
    TokensOfRender(NameTokens(names));
  }

  lemma {:induction false} NameRewritten(name: string)
    requires PathName(name)
    ensures RewriteSegment(name) == "{*}" + LocalPart(name) && PlainName(LocalPart(name))
  {
    NameFree(name);
    UntilIs(name, 0, Is('['), |name|);
    assert name[..|name|] == name && name[|name|..] == "";
    assert "{*}" + AfterColon(name) + "" == "{*}" + AfterColon(name);
  }

  /** The rewritten text of the names. */
  function WideText(names: seq<string>): string
    requires names != []
  {
    RenderRewritten(NameTokens(names))
  }

  lemma {:induction false} WideTextIs(names: seq<string>)
    requires PathNames(names)
    ensures |names| == 1 ==> WideText(names) == "{*}" + LocalPart(names[0])
    ensures |names| > 1 ==> WideText(names) == "{*}" + LocalPart(names[0]) + ("/" + WideText(names[1..]))
  {
    var ts := NameTokens(names);
    NameTokensUnfold(names);
    NameRewritten(names[0]);
    assert ts == [Seg(names[0])] + ts[1..];
    RenderCons(Seg(names[0]), ts[1..]);
    if |names| > 1 {
      assert ts[1..] == [Slash] + NameTokens(names[1..]);
      RenderCons(Slash, NameTokens(names[1..]));
    } else {
      assert RenderRewritten([]) == "" && "{*}" + LocalPart(names[0]) + "" == "{*}" + LocalPart(names[0]);
    }
  }

  function WideSteps(locals: seq<string>): seq<Step> {
    if locals == [] then [] else [Go(false, AnyNamespace(locals[0]))] + WideSteps(locals[1..])
  }

  lemma {:induction false} LocalFirst(local: string, t: string)
    requires PlainName(local) && (t != "" ==> t[0] == '/')
    ensures Begins("{*}" + local + t, Some(Name("{*}" + local)), t)
  {
    var u := local + t;
    assert forall k :: 0 <= k < |local| ==> u[k] == local[k];
    UntilIs(u, 0, NameOver, |local|);
    WildcardFirst(u, |local|);
    assert u[..|local|] == local && u[|local|..] == t;
    assert "{*}" + u == "{*}" + local + t;
  }

  lemma {:induction false} LocalStep(local: string, ts: seq<Lexeme>, place: Place)
    requires PlainName(local) && !place.Below?
    ensures Parse([Name("{*}" + local)] + ts, place) == Then(Go(false, AnyNamespace(local)), Parse(ts, After))
  {
    PlainTest(local);
    assert ([Name("{*}" + local)] + ts)[1..] == ts;
  }

  /** It reads as child steps in any namespace. */
  lemma {:induction false} WideParses(names: seq<string>)
    requires PathNames(names)
    ensures WideText(names) != "" && WideText(names)[0] == '{' && WideText(names)[|WideText(names)| - 1] != '/'
    ensures Parse(Lex(WideText(names), 0), First) == Some(WideSteps(Locals(names)))
  {
    WideTextIs(names);
    NameRewritten(names[0]);
    var local := LocalPart(names[0]);
    if |names| == 1 {
      LocalFirst(local, "");
      assert "{*}" + local + "" == "{*}" + local && Lex("", 0) == [];
      LocalStep(local, [], First);
      assert [Name("{*}" + local)] + [] == [Name("{*}" + local)];
      assert Locals(names[1..]) == [];
    } else {
      var rest := WideText(names[1..]);
      WideParses(names[1..]);
      LocalFirst(local, "/" + rest);
      SingleSlash("/" + rest, rest);
      SlashStep(Lex(rest, 0));
      LocalStep(local, [Mark("/")] + Lex(rest, 0), First);
    }
  }

  lemma {:induction false} SlashStep(ts: seq<Lexeme>)
    ensures Parse([Mark("/")] + ts, After) == Parse(ts, First)
  {
    assert ([Mark("/")] + ts)[1..] == ts;
  }

  lemma {:induction false} DotLexes(rest: string)
    requires rest != "" && rest[0] != '/'
    ensures Lex("./" + rest, 0) == [Mark(".")] + ([Mark("/")] + Lex(rest, 0))
  {
    var t := "/" + rest;
    assert "./" + rest == "." + t;
    DotFirst("." + t, t);
    SingleSlash(t, rest);
  }

  lemma {:induction false} DotFirst(y: string, t: string)
    requires y == "." + t && t != "" && t[0] == '/'
    ensures Begins(y, Some(Mark(".")), t)
  {
    assert LexemeEnd(y, 0) == 1 && y[0..1] == ".";
    BeginsWith(y, ".", t);
  }

  lemma {:induction false} DotParses(rest: string)
    requires rest != "" && rest[0] != '/' && Parse(Lex(rest, 0), First).Some?
    ensures Parse(Lex("./" + rest, 0), First) == Some([Self] + Parse(Lex(rest, 0), First).value)
  {
    DotLexes(rest);
    SlashStep(Lex(rest, 0));
    var ts := [Mark("/")] + Lex(rest, 0);
    assert ([Mark(".")] + ts)[1..] == ts;
  }

  /** The text of the rewritten path. */
  lemma {:induction false} PathRewritten(dot: bool, names: seq<string>)
    requires PathNames(names)
    ensures PathText(dot, names) != "" && '{' !in PathText(dot, names)
    ensures Rewrite(PathText(dot, names)) == if dot then "./" + WideText(names) else WideText(names)
  {
    var ts := PathTokens(dot, names);
    PathTokensNormal(dot, names);
    DotText(names);
    NamesTextShape(names);
    RenderFree(ts, '{');
    TokensOfRender(ts);
    if dot {
      DotRewritten(NameTokens(names));
      assert ts == [Seg(".")] + ([Slash] + NameTokens(names));
    } else {
      assert ts == NameTokens(names);
    }
  }

  lemma {:induction false} DotRewritten(ts: seq<Token>)
    ensures RenderRewritten([Seg(".")] + ([Slash] + ts)) == "./" + RenderRewritten(ts)
  {
    RenderCons(Seg("."), [Slash] + ts);
    RenderCons(Slash, ts);
    assert RewriteSegment(".") == ".";
    assert "." + ("/" + RenderRewritten(ts)) == "./" + RenderRewritten(ts);
  }

  function PathSteps(dot: bool, names: seq<string>): seq<Step>
    requires PathNames(names)
  {
    (if dot then [Self] else []) + WideSteps(Locals(names))
  }

  lemma {:induction false} WideCompiled(dot: bool, names: seq<string>)
    requires PathNames(names)
    ensures Compiled(Rewrite(PathText(dot, names))) == Some(PathSteps(dot, names))
  {
    PathRewritten(dot, names);
    if dot {
      WideParses(names);
      DotCompiled(WideText(names));
    } else {
      PlainCompiled(names);
    }
  }

  lemma {:induction false} PlainCompiled(names: seq<string>)
    requires PathNames(names)
    ensures Compiled(WideText(names)) == Some([] + WideSteps(Locals(names)))
  {
    WideParses(names);
    WideTextIs(names);
    WildcardIsPath(WideText(names));
    NoDot(WideText(names), WideSteps(Locals(names)));
  }

  lemma {:induction false} NoDot(w: string, steps: seq<Step>)
    requires IsPath(w) && w != "" && w[0] != '/' && w[|w| - 1] != '/' && Parse(Lex(w, 0), First) == Some(steps)
    ensures Compiled(w) == Some([] + steps)
  {
    assert [] + steps == steps;
  }

  lemma {:induction false} DotCompiled(w: string)
    requires w != "" && w[0] != '/' && w[|w| - 1] != '/' && Parse(Lex(w, 0), First).Some?
    ensures Compiled("./" + w) == Some([Self] + Parse(Lex(w, 0), First).value)
  {
    DotParses(w);
    DotIsPath(w);
  }

  lemma {:induction false} DotIsPath(w: string)
    requires w != "" && w[|w| - 1] != '/'
    ensures var y := "./" + w; IsPath(y) && y[0] != '/' && y[|y| - 1] != '/'
  {
    PathCharAt("./" + w, 0, 0);
    assert ("./" + w)[|w| + 1] == w[|w| - 1];
  }

  lemma {:induction false} WildcardIsPath(w: string)
    requires |w| >= 3 && w[..3] == "{*}"
    ensures IsPath(w)
  {
    assert w[0] == w[..3][0] && w[1] == w[..3][1] && w[2] == w[..3][2];
  }

  lemma {:induction false} PathTokensNormal(dot: bool, names: seq<string>)
    requires PathNames(names)
    ensures Normal(PathTokens(dot, names)) && Free(PathTokens(dot, names), '{')
  {
    NameTokensNormal(names);
    forall i | 0 <= i < |names| ensures '{' !in names[i] {
      NameFree(names[i]);
    }
    NameTokensFree(names, '{');
    var ts := PathTokens(dot, names);
    if dot {
      assert ts[1..] == [Slash] + NameTokens(names) && ts[1..][1..] == NameTokens(names);
    } else {
      assert ts == NameTokens(names);
    }
  }

  lemma {:induction false} TreesConcat<Id>(a: seq<Node<Id>>, b: seq<Node<Id>>)
    ensures Trees(a + b) == Trees(a) + Trees(b)
  {
    if a == [] {
      assert a + b == b;
    } else {
      assert (a + b)[1..] == a[1..] + b;
      TreesConcat(a[1..], b);
    }
  }

  lemma {:induction false} PickedChildren<Id>(test: Test, above: seq<Tree<Id>>, ts: seq<Tree<Id>>)
    ensures Trees(Pick(test, Children(above, ts))) == Selected(test, ts)
  {
    if ts != [] {
      PickedChildren(test, above, ts[1..]);
      var n := Node(above, ts[0]);
      assert Children(above, ts)[1..] == Children(above, ts[1..]);
      TreesConcat(if Passes(test, n.tree) then [n] else [], Pick(test, Children(above, ts[1..])));
      assert [n][1..] == [];
    }
  }

  lemma {:induction false} MovedTrees<Id>(test: Test, ctx: seq<Node<Id>>)
    ensures Trees(Move(false, test, ctx)) == StepFrom(test, Trees(ctx))
  {
    if ctx != [] {
      MovedTrees(test, ctx[1..]);
      PickedChildren(test, ctx[0].above + [ctx[0].tree], ctx[0].tree.kids);
      TreesConcat(Pick(test, From(false, ctx[0])), Move(false, test, ctx[1..]));
      assert Trees(ctx)[1..] == Trees(ctx[1..]);
    }
  }

  lemma {:induction false} EvalWide<Id>(keep: Filter<Id>, locals: seq<string>, ctx: seq<Node<Id>>)
    ensures Trees(Eval(keep, WideSteps(locals), ctx)) == Reach(locals, Trees(ctx))
    decreases |locals|
  {
    if locals != [] {
      var test := AnyNamespace(locals[0]);
      assert WideSteps(locals)[1..] == WideSteps(locals[1..]);
      MovedTrees(test, ctx);
      EvalWide(keep, locals[1..], Move(false, test, ctx));
    }
  }

  /** On a simple path the any-namespace query is the plain descent. */
  lemma {:induction false} WideQuery<Id>(keep: Filter<Id>, dot: bool, names: seq<string>, root: Tree<Id>)
    requires PathNames(names)
    ensures Query(keep, Rewrite(PathText(dot, names)), root) == Some(Reach(Locals(names), [root]))
  {
    WideCompiled(dot, names);
    var start, wide := [Node([], root)], WideSteps(Locals(names));
    assert start[1..] == [] && Trees(start) == [root];
    EvalWide(keep, Locals(names), start);
    if dot {
      assert ([Self] + wide)[1..] == wide;
    } else {
      assert [] + wide == wide;
    }
  }

  // ---------------------------------------------------------------- a simple path is unbroken

  /** Pieces begin with a name. */
  predicate StartsWell(x: string) {
    && (forall k :: 0 <= k < |x| ==> x[k] !in {'\'', '"'})
    && forall k {:trigger x[k]} :: 0 < k < |x| && x[k - 1] == '/' ==> NameChar(x[k]) && x[k] !in {'.', '*'}
  }

  lemma {:induction false} NameRun(x: string, k: nat)
    requires k < |x| && NameChar(x[k]) && x[k] !in {'.', '*'}
    ensures !Dead(Run(x, k))
  {
    assert Run(x, k)[0] == x[k];
  }

  lemma {:induction false} KeepsNames(x: string, i: nat, start: bool)
    requires i <= |x| && StartsWell(x) && (start ==> i > 0 && x[i - 1] == '/')
    ensures Keeps(x, i, start)
    decreases |x| - i
  {
    if i < |x| {
      if start && x[i] != '/' {
        NameRun(x, i);
      }
      var j := LexemeEnd(x, i);
      assert x[i] == '/' ==> x[j - 1] == '/';
      KeepsNames(x, j, x[i] == '/');
    }
  }

  lemma {:induction false} NamesStartWell(names: seq<string>)
    requires PathNames(names)
    ensures var p := Render(NameTokens(names)); p != "" && NameChar(p[0]) && p[0] !in {'.', '*'} && StartsWell(p)
  {
    NamesText(names);
    if |names| > 1 {
      NamesStartWell(names[1..]);
      StartsOn(names[0], Render(NameTokens(names[1..])));
    }
  }

  lemma {:induction false} StartsOn(name: string, rest: string)
    requires (PathName(name) || name == ".") && rest != "" && NameChar(rest[0]) && rest[0] !in {'.', '*'} && StartsWell(rest)
    ensures StartsWell(name + ("/" + rest))
  {
    var x, n := name + ("/" + rest), |name|;
    assert forall k :: 0 <= k < n ==> x[k] == name[k];
    assert forall k :: n < k < |x| ==> x[k] == rest[k - n - 1];
    forall k | 0 < k < |x| && x[k - 1] == '/' ensures NameChar(x[k]) && x[k] !in {'.', '*'} {
      if k > n + 1 {
        assert rest[k - n - 2] == '/' && NameChar(rest[k - n - 1]);
      }
    }
  }

  /** The rewriting breaks no simple path. */
  lemma {:induction false} PathUnbroken(dot: bool, names: seq<string>)
    requires PathNames(names)
    ensures Unbroken(PathText(dot, names))
  {
    var x, p := PathText(dot, names), Render(NameTokens(names));
    DotText(names);
    NamesTextShape(names);
    NamesStartWell(names);
    assert x[|x| - 1] == p[|p| - 1];
    if dot {
      StartsOn(".", p);
      UntilIs(x, 0, Is('/'), 1);
      assert Piece(x, 0) == ".";
    } else {
      NameRun(x, 0);
    }
    KeepsNames(x, LexemeEnd(x, 0), false);
  }

  lemma {:induction false} WideGoesDown(locals: seq<string>)
    ensures Up !in WideSteps(locals)
  {
    if locals != [] {
      WideGoesDown(locals[1..]);
    }
  }

  /** A simple path that finds nothing: after _create_path, findall on it returns exactly the new leaf,
    * whatever the namespaces of the nodes that were already there. */
  lemma {:induction false} CreatedIsFound<Id>(keep: Filter<Id>, dot: bool, names: seq<string>, t: Tree<Id>,
                                              tag: Option<string>, value: string, ids: seq<Id>)
    returns (leaf: Tree<Id>)
    requires PathNames(names) && FindAll(keep, PathText(dot, names), t) == []
    requires |ids| == Missing(t, Locals(names)) + if tag.Some? then 1 else 0
    ensures FindAll(keep, PathText(dot, names), Create(t, Locals(names), tag, value, ids)) == [leaf]
    ensures IsCreatedLeaf(leaf, LocalPart(names[|names| - 1]), tag, value, ids)
  {
    var x := PathText(dot, names);
    PathRewritten(dot, names);
    PathUnbroken(dot, names);
    WideQuery(keep, dot, names, t);
    FindAllAgrees(keep, x, t);
    leaf := CreatedReaches(t, Locals(names), tag, value, ids);
    var u := Create(t, Locals(names), tag, value, ids);
    WideQuery(keep, dot, names, u);
    FindAllAgrees(keep, x, u);
    NoWayUp(dot, names);
    OnlyOne(keep, x, u, leaf);
    LastLocal(names);
  }

  lemma {:induction false} LastLocal(names: seq<string>)
    requires PathNames(names)
    ensures Locals(names)[|names| - 1] == LocalPart(names[|names| - 1])
  {
    if |names| > 1 {
      LastLocal(names[1..]);
    }
  }

  lemma {:induction false} NoWayUp(dot: bool, names: seq<string>)
    requires PathNames(names)
    ensures var x := PathText(dot, names);
            Compiled(x).Some? && (!IsPath(x) ==> !DirectTest(x).Nothing?) ==> Up !in Compiled(x).value
  {
    var x := PathText(dot, names);
    if Compiled(x).Some? && (!IsPath(x) ==> !DirectTest(x).Nothing?) {
      PathUnbroken(dot, names);
      KeptSteps(x);
      WideCompiled(dot, names);
      WideGoesDown(Locals(names));
    }
  }

  lemma {:induction false} OnlyOne<Id>(keep: Filter<Id>, x: string, u: Tree<Id>, leaf: Tree<Id>)
    requires x != "" && Unbroken(x) && Found(keep, Rewrite(x), u) == [leaf] && FindAll(keep, x, u) != []
    requires Compiled(x).Some? && (!IsPath(x) ==> !DirectTest(x).Nothing?) ==> Up !in Compiled(x).value
    ensures FindAll(keep, x, u) == [leaf]
  {
    var exact := Found(keep, x, u);
    if exact != [] {
      if !IsPath(x) && DirectTest(x).Nothing? {
        NothingDirect(keep, x, u);
        assert false;
      } else {
        RewriteLosesNothing(keep, x, u);
        SubsequenceIn(exact, [leaf]);
        assert exact[0] in exact && exact == [exact[0]];
      }
    }
  }
}
