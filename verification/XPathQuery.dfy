/** Queries of element trees (common/xpath_utils.py): ElementTree's evaluation of a path, findall with its
  * fallback to any namespace, and what wider steps find. */
module XPathQuery {
  import opened Options
  import opened PyText
  import opened ElementTree
  import opened XPathTokens
  import opened XPathRewrite
  import opened XPathWidening
  import opened XPathSteps

  // ---------------------------------------------------------------- evaluation

  /** An element with the elements it is in, outermost first. */
  datatype Node<Id> = Node(above: seq<Tree<Id>>, tree: Tree<Id>)

  predicate Accepts(test: Test, tag: Tag) {
    match test
    case Nothing => false
    case AnyName => true
    case Exactly(wanted) => tag == wanted
    case AnyNamespace(local) => tag.local == local
    case InNamespace(ns) => tag.ns == ns
  }

  predicate Passes<Id>(test: Test, t: Tree<Id>) { Accepts(test, t.tag) }

  function Children<Id>(above: seq<Tree<Id>>, ts: seq<Tree<Id>>): seq<Node<Id>> {
    if ts == [] then [] else [Node(above, ts[0])] + Children(above, ts[1..])
  }

  /** What is below, in document order. */
  function Descendants<Id>(above: seq<Tree<Id>>, ts: seq<Tree<Id>>): seq<Node<Id>>
    decreases ts
  {
    if ts == [] then []
    else [Node(above, ts[0])] + Descendants(above + [ts[0]], ts[0].kids) + Descendants(above, ts[1..])
  }

  function From<Id>(deep: bool, n: Node<Id>): seq<Node<Id>> {
    if deep then Descendants(n.above + [n.tree], n.tree.kids) else Children(n.above + [n.tree], n.tree.kids)
  }

  function Pick<Id>(test: Test, ns: seq<Node<Id>>): seq<Node<Id>> {
    if ns == [] then [] else (if Passes(test, ns[0].tree) then [ns[0]] else []) + Pick(test, ns[1..])
  }

  /** One step from every context node; nested context nodes select a node several times. */
  function Move<Id>(deep: bool, test: Test, ctx: seq<Node<Id>>): seq<Node<Id>> {
    if ctx == [] then [] else Pick(test, From(deep, ctx[0])) + Move(deep, test, ctx[1..])
  }

  function Parent<Id>(n: Node<Id>): Node<Id>
    requires n.above != []
  {
    var k := |n.above| - 1;
    Node(n.above[..k], n.above[k])
  }

  /** The parents within the tree, each once. */
  function Parents<Id(==)>(ctx: seq<Node<Id>>): seq<Node<Id>> {
    if ctx == [] then []
    else
      var before, n := Parents(ctx[..|ctx| - 1]), ctx[|ctx| - 1];
      if n.above == [] || Parent(n) in before then before else before + [Parent(n)]
  }

  /** What bracketed conditions mean: a condition on the element at its place, given by the caller. */
  type Filter<!Id> = (seq<Lexeme>, Node<Id>) -> bool

  function Filtered<Id>(keep: Filter<Id>, p: seq<Lexeme>, ns: seq<Node<Id>>): seq<Node<Id>> {
    if ns == [] then [] else (if keep(p, ns[0]) then [ns[0]] else []) + Filtered(keep, p, ns[1..])
  }

  function Apply<Id(==)>(keep: Filter<Id>, step: Step, ctx: seq<Node<Id>>): seq<Node<Id>> {
    match step
    case Self => ctx
    case Up => Parents(ctx)
    case Go(deep, test) => Move(deep, test, ctx)
    case Where(p) => Filtered(keep, p, ctx)
  }

  function Eval<Id(==)>(keep: Filter<Id>, steps: seq<Step>, ctx: seq<Node<Id>>): seq<Node<Id>>
    decreases |steps|
  {
    if steps == [] then ctx else Eval(keep, steps[1..], Apply(keep, steps[0], ctx))
  }

  function Trees<Id>(ns: seq<Node<Id>>): seq<Tree<Id>> {
    if ns == [] then [] else [ns[0].tree] + Trees(ns[1..])
  }

  /** A character that makes ElementTree read the text as a path rather than compare tags with it. */
  predicate PathChar(c: char) { c in {'/', '*', '[', '@', '.'} }

  predicate HasPathChar(s: string, i: nat, open: bool)
    requires i <= |s|
    decreases |s| - i
  {
    i < |s| && ((open && PathChar(s[i])) || HasPathChar(s, i + 1, if s[i] == '{' then false else s[i] == '}' || open))
  }

  /** Outside braces there is such a character, or the text starts with a wildcard. */
  predicate IsPath(s: string) {
    || (|s| >= 3 && s[0] == '{' && (s[1] == '}' || (s[1] == '*' && s[2] == '}')))
    || HasPathChar(s, 0, true)
  }

  /** Children whose tag is the text itself. */
  function DirectTest(x: string): Test {
    if x != "" && x[0] == '{' then TestOf(x)
    else if x != "" && (forall i :: 0 <= i < |x| ==> NameChar(x[i])) && ':' !in x then Exactly(Tag(NoNamespace, x))
    else Nothing
  }

  /** The steps of a path; None where findall raises. */
  function Compiled(x: string): Option<seq<Step>> {
    if !IsPath(x) then Some([Go(false, DirectTest(x))])
    else if x[0] == '/' then None
    else Parse(Lex(Completed(x), 0), First)
  }

  /** root.findall(path); None where it raises. */
  function Query<Id(==)>(keep: Filter<Id>, x: string, root: Tree<Id>): Option<seq<Tree<Id>>> {
    if Compiled(x).None? then None else Some(Trees(Eval(keep, Compiled(x).value, [Node([], root)])))
  }

  /** What it finds, with nothing where it raises. */
  function Found<Id(==)>(keep: Filter<Id>, x: string, root: Tree<Id>): seq<Tree<Id>> {
    var r := Query(keep, x, root);
    if r.Some? then r.value else []
  }

  /** XPathUtils.findall: the path as given, then the rewritten path. */
  function FindAll<Id(==)>(keep: Filter<Id>, x: string, root: Tree<Id>): seq<Tree<Id>> {
    if x == "" then []
    else if Found(keep, x, root) != [] then Found(keep, x, root)
    else if Rewrite(x) == x then []
    else Found(keep, Rewrite(x), root)
  }

  // ---------------------------------------------------------------- what a path can find

  /** Steps that find nothing whatever the tree: a blank for a name, or ".." above the root, where
    * `depth` is how deep the context can be (None: any depth). */
  predicate Barren(steps: seq<Step>, depth: Option<nat>)
    decreases |steps|
  {
    if steps == [] then false
    else match steps[0]
      case Self => Barren(steps[1..], depth)
      case Where(_) => Barren(steps[1..], depth)
      case Go(deep, test) => test.Nothing? || Barren(steps[1..], if deep || depth.None? then None else Some(depth.value + 1))
      case Up => depth == Some(0) || Barren(steps[1..], if depth.None? then None else Some(depth.value - 1))
  }

  /** The path can be evaluated, and finds something in some tree. */
  predicate Selects(x: string) {
    Compiled(x).Some? && !Barren(Compiled(x).value, Some(0))
  }

  /** The text of the path shows that rewriting it keeps what it asks for: see Keeps. */
  predicate Unbroken(x: string) {
    !IsPath(x) || '{' in x || Keeps(Completed(x), 0, true)
  }

  // ---------------------------------------------------------------- nothing is lost

  predicate Included<T(==)>(a: seq<T>, b: seq<T>) {
    forall i :: 0 <= i < |a| ==> a[i] in b
  }

  lemma {:induction false} PickIn<Id>(test: Test, ns: seq<Node<Id>>, n: Node<Id>)
    ensures n in Pick(test, ns) <==> n in ns && Passes(test, n.tree)
  {
    if ns != [] {
      PickIn(test, ns[1..], n);
    }
  }

  lemma {:induction false} MoveIn<Id>(deep: bool, test: Test, ctx: seq<Node<Id>>, n: Node<Id>)
    ensures n in Move(deep, test, ctx) <==> Passes(test, n.tree) && exists i :: 0 <= i < |ctx| && n in From(deep, ctx[i])
  {
    if ctx != [] {
      PickIn(test, From(deep, ctx[0]), n);
      MoveIn(deep, test, ctx[1..], n);
      assert n in From(deep, ctx[0]) ==> exists i :: 0 <= i < |ctx| && n in From(deep, ctx[i]);
      forall i | 0 <= i < |ctx| && n in From(deep, ctx[i])
        ensures n in From(deep, ctx[0]) || exists j :: 0 <= j < |ctx[1..]| && n in From(deep, ctx[1..][j])
      {
        assert i > 0 ==> ctx[1..][i - 1] == ctx[i];
      }
    }
  }

  lemma {:induction false} ParentsIn<Id>(ctx: seq<Node<Id>>, n: Node<Id>)
    ensures n in Parents(ctx) <==> exists i :: 0 <= i < |ctx| && ctx[i].above != [] && n == Parent(ctx[i])
  {
    if ctx != [] {
      var k := |ctx| - 1;
      ParentsIn(ctx[..k], n);
      assert forall i :: 0 <= i < k ==> ctx[..k][i] == ctx[i];
    }
  }

  lemma {:induction false} FilteredIn<Id>(keep: Filter<Id>, p: seq<Lexeme>, ns: seq<Node<Id>>, n: Node<Id>)
    ensures n in Filtered(keep, p, ns) <==> n in ns && keep(p, n)
  {
    if ns != [] {
      FilteredIn(keep, p, ns[1..], n);
    }
  }

  lemma {:induction false} ApplyIncluded<Id>(keep: Filter<Id>, a: Step, b: Step, ctx: seq<Node<Id>>, ctx': seq<Node<Id>>)
    requires WiderStep(a, b) && Included(ctx, ctx')
    ensures Included(Apply(keep, a, ctx), Apply(keep, b, ctx'))
  {
    var r := Apply(keep, a, ctx);
    forall i | 0 <= i < |r| ensures r[i] in Apply(keep, b, ctx') {
      assert r[i] in r;
      match a
      case Self =>
      case Up =>
        ParentsIn(ctx, r[i]);
        ParentsIn(ctx', r[i]);
      case Where(p) =>
        FilteredIn(keep, p, ctx, r[i]);
        FilteredIn(keep, p, ctx', r[i]);
      case Go(deep, test) =>
        MoveIn(deep, test, ctx, r[i]);
        MoveIn(deep, b.test, ctx', r[i]);
    }
  }

  lemma {:induction false} EvalIncluded<Id>(keep: Filter<Id>, a: seq<Step>, b: seq<Step>, ctx: seq<Node<Id>>, ctx': seq<Node<Id>>)
    requires Wider(a, b) && Included(ctx, ctx')
    ensures Included(Eval(keep, a, ctx), Eval(keep, b, ctx'))
    decreases |a|
  {
    if a != [] {
      assert WiderStep(a[0], b[0]);
      ApplyIncluded(keep, a[0], b[0], ctx, ctx');
      EvalIncluded(keep, a[1..], b[1..], Apply(keep, a[0], ctx), Apply(keep, b[0], ctx'));
    }
  }

  lemma {:induction false} TreesAre<Id>(ns: seq<Node<Id>>)
    ensures |Trees(ns)| == |ns| && forall i :: 0 <= i < |ns| ==> Trees(ns)[i] == ns[i].tree
  {
    if ns != [] {
      TreesAre(ns[1..]);
    }
  }

  lemma {:induction false} TreesIncluded<Id>(a: seq<Node<Id>>, b: seq<Node<Id>>)
    requires Included(a, b)
    ensures Included(Trees(a), Trees(b))
  {
    TreesAre(a);
    TreesAre(b);
    forall i | 0 <= i < |a| ensures Trees(a)[i] in Trees(b) {
      var j :| 0 <= j < |b| && b[j] == a[i];
      assert Trees(b)[j] == Trees(a)[i];
    }
  }

  // ---------------------------------------------------------------- the order

  lemma {:induction false} PickOrdered<Id>(a: Test, b: Test, ns: seq<Node<Id>>)
    requires forall t: Tag :: Accepts(a, t) ==> Accepts(b, t)
    ensures Subsequence(Pick(a, ns), Pick(b, ns))
  {
    if ns != [] {
      PickOrdered(a, b, ns[1..]);
      var x: seq<Node<Id>> := if Passes(a, ns[0].tree) then [ns[0]] else [];
      var y: seq<Node<Id>> := if Passes(b, ns[0].tree) then [ns[0]] else [];
      assert Subsequence(x, y) by {
        if x == [] { EmptySubsequence(y); } else { SubsequenceRefl(x); }
      }
      SubsequenceConcat(x, y, Pick(a, ns[1..]), Pick(b, ns[1..]));
    }
  }

  lemma {:induction false} MoveOrdered<Id>(deep: bool, a: Test, b: Test, ctx: seq<Node<Id>>, ctx': seq<Node<Id>>)
    requires (forall t: Tag :: Accepts(a, t) ==> Accepts(b, t)) && Subsequence(ctx, ctx')
    ensures Subsequence(Move(deep, a, ctx), Move(deep, b, ctx'))
    decreases |ctx'|
  {
    if ctx' != [] {
      var from' := From(deep, ctx'[0]);
      if ctx != [] && ctx[0] == ctx'[0] && Subsequence(ctx[1..], ctx'[1..]) {
        PickOrdered(a, b, from');
        MoveOrdered(deep, a, b, ctx[1..], ctx'[1..]);
        SubsequenceConcat(Pick(a, from'), Pick(b, from'), Move(deep, a, ctx[1..]), Move(deep, b, ctx'[1..]));
      } else {
        EmptySubsequence(ctx'[1..]);
        MoveOrdered(deep, a, b, ctx, ctx'[1..]);
        EmptySubsequence(Pick(b, from'));
        SubsequenceConcat([], Pick(b, from'), Move(deep, a, ctx), Move(deep, b, ctx'[1..]));
        assert [] + Move(deep, a, ctx) == Move(deep, a, ctx);
      }
    }
  }

  lemma {:induction false} FilteredOrdered<Id>(keep: Filter<Id>, p: seq<Lexeme>, a: seq<Node<Id>>, b: seq<Node<Id>>)
    requires Subsequence(a, b)
    ensures Subsequence(Filtered(keep, p, a), Filtered(keep, p, b))
    decreases |b|
  {
    if b == [] {
    } else {
      var x: seq<Node<Id>> := if keep(p, b[0]) then [b[0]] else [];
      if a != [] && a[0] == b[0] && Subsequence(a[1..], b[1..]) {
        FilteredOrdered(keep, p, a[1..], b[1..]);
        SubsequenceRefl(x);
        SubsequenceConcat(x, x, Filtered(keep, p, a[1..]), Filtered(keep, p, b[1..]));
      } else {
        EmptySubsequence(b[1..]);
        FilteredOrdered(keep, p, a, b[1..]);
        EmptySubsequence(x);
        SubsequenceConcat([], x, Filtered(keep, p, a), Filtered(keep, p, b[1..]));
        assert [] + Filtered(keep, p, a) == Filtered(keep, p, a);
      }
    }
  }

  lemma {:induction false} EvalOrdered<Id>(keep: Filter<Id>, a: seq<Step>, b: seq<Step>, ctx: seq<Node<Id>>, ctx': seq<Node<Id>>)
    requires Wider(a, b) && Up !in a && Subsequence(ctx, ctx')
    ensures Subsequence(Eval(keep, a, ctx), Eval(keep, b, ctx'))
    decreases |a|
  {
    if a != [] {
      assert WiderStep(a[0], b[0]);
      match a[0]
      case Self =>
        EvalOrdered(keep, a[1..], b[1..], ctx, ctx');
      case Where(p) =>
        FilteredOrdered(keep, p, ctx, ctx');
        EvalOrdered(keep, a[1..], b[1..], Filtered(keep, p, ctx), Filtered(keep, p, ctx'));
      case Go(deep, test) =>
        MoveOrdered(deep, test, b[0].test, ctx, ctx');
        EvalOrdered(keep, a[1..], b[1..], Move(deep, test, ctx), Move(deep, b[0].test, ctx'));
    }
  }

  lemma {:induction false} TreesOrdered<Id>(a: seq<Node<Id>>, b: seq<Node<Id>>)
    requires Subsequence(a, b)
    ensures Subsequence(Trees(a), Trees(b))
    decreases |b|
  {
    if a != [] {
      if a[0] == b[0] && Subsequence(a[1..], b[1..]) {
        TreesOrdered(a[1..], b[1..]);
      } else {
        TreesOrdered(a, b[1..]);
      }
    }
  }

  // ---------------------------------------------------------------- documents without namespaces

  /** Every tag of the tree is of a kind. */
  predicate Throughout<Id>(kind: Tag -> bool, t: Tree<Id>) {
    kind(t.tag) && forall i :: 0 <= i < |t.kids| ==> Throughout(kind, t.kids[i])
  }

  predicate NodeThroughout<Id>(kind: Tag -> bool, n: Node<Id>) {
    Throughout(kind, n.tree) && forall i :: 0 <= i < |n.above| ==> Throughout(kind, n.above[i])
  }

  predicate AllThroughout<Id>(kind: Tag -> bool, ns: seq<Node<Id>>) {
    forall i :: 0 <= i < |ns| ==> NodeThroughout(kind, ns[i])
  }

  predicate Unqualified<Id>(t: Tree<Id>) { Throughout(PlainTag, t) }

  predicate PlainTag(tag: Tag) { tag.ns == NoNamespace }

  lemma {:induction false} ChildrenThroughout<Id>(kind: Tag -> bool, above: seq<Tree<Id>>, ts: seq<Tree<Id>>)
    requires forall i :: 0 <= i < |above| ==> Throughout(kind, above[i])
    requires forall i :: 0 <= i < |ts| ==> Throughout(kind, ts[i])
    ensures AllThroughout(kind, Children(above, ts))
  {
    if ts != [] {
      ChildrenThroughout(kind, above, ts[1..]);
    }
  }

  lemma {:induction false} DescendantsThroughout<Id>(kind: Tag -> bool, above: seq<Tree<Id>>, ts: seq<Tree<Id>>)
    requires forall i :: 0 <= i < |above| ==> Throughout(kind, above[i])
    requires forall i :: 0 <= i < |ts| ==> Throughout(kind, ts[i])
    ensures AllThroughout(kind, Descendants(above, ts))
    decreases ts
  {
    if ts != [] {
      DescendantsThroughout(kind, above + [ts[0]], ts[0].kids);
      DescendantsThroughout(kind, above, ts[1..]);
    }
  }

  lemma {:induction false} FromThroughout<Id>(kind: Tag -> bool, deep: bool, n: Node<Id>)
    requires NodeThroughout(kind, n)
    ensures AllThroughout(kind, From(deep, n))
  {
    ChildrenThroughout(kind, n.above + [n.tree], n.tree.kids);
    DescendantsThroughout(kind, n.above + [n.tree], n.tree.kids);
  }

  lemma {:induction false} ApplyThroughout<Id>(kind: Tag -> bool, keep: Filter<Id>, step: Step, ctx: seq<Node<Id>>)
    requires AllThroughout(kind, ctx)
    ensures AllThroughout(kind, Apply(keep, step, ctx))
  {
    var r := Apply(keep, step, ctx);
    forall i | 0 <= i < |r| ensures NodeThroughout(kind, r[i]) {
      assert r[i] in r;
      match step
      case Self =>
      case Up => ParentsIn(ctx, r[i]);
      case Where(p) => FilteredIn(keep, p, ctx, r[i]);
      case Go(deep, test) =>
        MoveIn(deep, test, ctx, r[i]);
        var j :| 0 <= j < |ctx| && r[i] in From(deep, ctx[j]);
        FromThroughout(kind, deep, ctx[j]);
    }
  }

  lemma {:induction false} PickSame<Id>(a: Step, b: Step, ns: seq<Node<Id>>)
    requires a.Go? && WiderStep(a, b) && AllThroughout(PlainTag, ns)
    ensures Pick(a.test, ns) == Pick(b.test, ns)
  {
    if ns != [] {
      PickSame(a, b, ns[1..]);
    }
  }

  lemma {:induction false} MoveSame<Id>(a: Step, b: Step, ctx: seq<Node<Id>>)
    requires a.Go? && WiderStep(a, b) && AllThroughout(PlainTag, ctx)
    ensures Move(a.deep, a.test, ctx) == Move(a.deep, b.test, ctx)
  {
    if ctx != [] {
      FromThroughout(PlainTag, a.deep, ctx[0]);
      PickSame(a, b, From(a.deep, ctx[0]));
      MoveSame(a, b, ctx[1..]);
    }
  }

  /** On unqualified nodes a name and its widening select the same. */
  lemma {:induction false} EvalSame<Id>(keep: Filter<Id>, a: seq<Step>, b: seq<Step>, ctx: seq<Node<Id>>)
    requires Wider(a, b) && AllThroughout(PlainTag, ctx)
    ensures Eval(keep, a, ctx) == Eval(keep, b, ctx)
    decreases |a|
  {
    if a != [] {
      assert WiderStep(a[0], b[0]);
      if a[0].Go? {
        MoveSame(a[0], b[0], ctx);
      }
      ApplyThroughout(PlainTag, keep, a[0], ctx);
      EvalSame(keep, a[1..], b[1..], Apply(keep, a[0], ctx));
    }
  }
}
