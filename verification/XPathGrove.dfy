/** Which steps find nothing in any tree, and a tree in which all others find something: for
  * common/xpath_utils.py, findall. */
module XPathGrove {
  import opened Options
  import opened Sequences
  import opened ElementTree
  import opened XPathTokens
  import opened XPathWidening
  import opened XPathSteps
  import opened XPathQuery

  // ---------------------------------------------------------------- steps that find nothing

  lemma {:induction false} EvalNothing<Id>(keep: Filter<Id>, steps: seq<Step>)
    ensures Eval(keep, steps, []) == []
    decreases |steps|
  {
    if steps != [] {
      EvalNothing(keep, steps[1..]);
    }
  }

  lemma {:induction false} PickNothing<Id>(ns: seq<Node<Id>>)
    ensures Pick(Nothing, ns) == []
  {
    if ns != [] {
      PickNothing(ns[1..]);
    }
  }

  lemma {:induction false} MoveNothing<Id>(deep: bool, ctx: seq<Node<Id>>)
    ensures Move(deep, Nothing, ctx) == []
  {
    if ctx != [] {
      PickNothing(From(deep, ctx[0]));
      MoveNothing(deep, ctx[1..]);
    }
  }

  predicate AtMost<Id>(ctx: seq<Node<Id>>, depth: Option<nat>) {
    forall i :: 0 <= i < |ctx| && depth.Some? ==> |ctx[i].above| <= depth.value
  }

  lemma {:induction false} ChildrenAbove<Id>(above: seq<Tree<Id>>, ts: seq<Tree<Id>>, n: Node<Id>)
    requires n in Children(above, ts)
    ensures n.above == above
  {
    if n in Children(above, ts[1..]) {
      ChildrenAbove(above, ts[1..], n);
    }
  }

  lemma {:induction false} MoveDepth<Id>(test: Test, ctx: seq<Node<Id>>, depth: nat)
    requires AtMost(ctx, Some(depth))
    ensures AtMost(Move(false, test, ctx), Some(depth + 1))
  {
    var r := Move(false, test, ctx);
    forall i | 0 <= i < |r| ensures |r[i].above| <= depth + 1 {
      assert r[i] in r;
      MoveIn(false, test, ctx, r[i]);
      var j :| 0 <= j < |ctx| && r[i] in From(false, ctx[j]);
      ChildrenAbove(ctx[j].above + [ctx[j].tree], ctx[j].tree.kids, r[i]);
    }
  }

  lemma {:induction false} NoParents<Id>(ctx: seq<Node<Id>>)
    requires AtMost(ctx, Some(0))
    ensures Parents(ctx) == []
  {
    if ctx != [] {
      NoParents(ctx[..|ctx| - 1]);
    }
  }

  lemma {:induction false} ParentsDepth<Id>(ctx: seq<Node<Id>>, depth: nat)
    requires AtMost(ctx, Some(depth)) && depth > 0
    ensures AtMost(Parents(ctx), Some(depth - 1))
  {
    var r := Parents(ctx);
    forall i | 0 <= i < |r| ensures |r[i].above| <= depth - 1 {
      assert r[i] in r;
      ParentsIn(ctx, r[i]);
    }
  }

  lemma {:induction false} FilteredDepth<Id>(keep: Filter<Id>, p: seq<Lexeme>, ctx: seq<Node<Id>>, depth: Option<nat>)
    requires AtMost(ctx, depth)
    ensures AtMost(Filtered(keep, p, ctx), depth)
  {
    var r := Filtered(keep, p, ctx);
    forall i | 0 <= i < |r| && depth.Some? ensures |r[i].above| <= depth.value {
      assert r[i] in r;
      FilteredIn(keep, p, ctx, r[i]);
    }
  }

  /** Barren steps find nothing in any tree. */
  lemma {:induction false} BarrenFindsNothing<Id>(keep: Filter<Id>, steps: seq<Step>, ctx: seq<Node<Id>>, depth: Option<nat>)
    requires Barren(steps, depth) && AtMost(ctx, depth)
    ensures Eval(keep, steps, ctx) == []
    decreases |steps|
  {
    match steps[0]
    case Self => BarrenFindsNothing(keep, steps[1..], ctx, depth);
    case Where(p) =>
      FilteredDepth(keep, p, ctx, depth);
      BarrenFindsNothing(keep, steps[1..], Filtered(keep, p, ctx), depth);
    case Up =>
      if depth == Some(0) {
        NoParents(ctx);
        EvalNothing(keep, steps[1..]);
      } else {
        if depth.Some? {
          ParentsDepth(ctx, depth.value);
        }
        BarrenFindsNothing(keep, steps[1..], Parents(ctx), if depth.None? then None else Some(depth.value - 1));
      }
    case Go(deep, test) =>
      if test.Nothing? {
        MoveNothing(deep, ctx);
        EvalNothing(keep, steps[1..]);
      } else {
        if depth.Some? && !deep {
          MoveDepth(test, ctx, depth.value);
        }
        BarrenFindsNothing(keep, steps[1..], Move(deep, test, ctx),
                           if deep || depth.None? then None else Some(depth.value + 1));
      }
  }

  /** A name an element can have. */
  predicate LiveTag(tag: Tag) { !Dead(tag.local) }

  /** The marked conditions among the steps hold nowhere. */
  ghost predicate Rejects<Id(!new)>(keep: Filter<Id>, steps: seq<Step>) {
    forall i, n :: 0 <= i < |steps| && steps[i].Where? && Marked(steps[i].condition) ==> !keep(steps[i].condition, n)
  }

  /** A dead step finds nothing where every element has a proper name and marked conditions fail. */
  lemma {:induction false} DeadFindsNothing<Id(!new)>(keep: Filter<Id>, steps: seq<Step>, ctx: seq<Node<Id>>)
    requires HasDead(steps) && AllThroughout(LiveTag, ctx) && Rejects(keep, steps)
    ensures Eval(keep, steps, ctx) == []
    decreases |steps|
  {
    var r := Apply(keep, steps[0], ctx);
    if DeadStep(steps[0]) {
      if r != [] {
        assert r[0] in r;
        ApplyThroughout(LiveTag, keep, steps[0], ctx);
        if steps[0].Go? {
          MoveIn(steps[0].deep, steps[0].test, ctx, r[0]);
        } else {
          FilteredIn(keep, steps[0].condition, ctx, r[0]);
        }
        assert false;
      }
      EvalNothing(keep, steps[1..]);
    } else {
      var i :| 0 <= i < |steps| && DeadStep(steps[i]);
      assert steps[1..][i - 1] == steps[i];
      ApplyThroughout(LiveTag, keep, steps[0], ctx);
      DeadFindsNothing(keep, steps[1..], r);
    }
  }

  // ---------------------------------------------------------------- a tree in which much is found

  type Path = seq<nat>

  /** Below every node, down to a height, a child of each name; a node's identity is its path. */
  function Grove(names: seq<string>, height: nat, at: Path, j: nat): seq<Tree<Path>>
    requires j <= |names|
    decreases height, |names| - j
  {
    if height == 0 || j == |names| then []
    else [Elem(at + [j], Tag(NoNamespace, names[j]), "", Grove(names, height - 1, at + [j], 0))]
         + Grove(names, height, at, j + 1)
  }

  lemma {:induction false} GroveSize(names: seq<string>, height: nat, at: Path, j: nat)
    requires height > 0 && j <= |names|
    ensures |Grove(names, height, at, j)| == |names| - j
    decreases |names| - j
  {
    if j < |names| {
      GroveSize(names, height, at, j + 1);
    }
  }

  lemma {:induction false} GroveAt(names: seq<string>, height: nat, at: Path, j: nat, i: nat)
    requires height > 0 && j <= i < |names|
    ensures var ts := Grove(names, height, at, j);
            |ts| == |names| - j
            && ts[i - j] == Elem(at + [i], Tag(NoNamespace, names[i]), "", Grove(names, height - 1, at + [i], 0))
    decreases i - j
  {
    GroveSize(names, height, at, j);
    if j < i {
      GroveAt(names, height, at, j + 1, i);
    }
  }

  lemma {:induction false} GroveIds(names: seq<string>, height: nat, at: Path, j: nat)
    requires j <= |names|
    ensures forall p :: p in IdsOfAll(Grove(names, height, at, j)) ==> |p| > |at| && p[..|at|] == at && p[|at|] >= j
    ensures Distinct(IdsOfAll(Grove(names, height, at, j)))
    decreases height, |names| - j
  {
    if height > 0 && j < |names| {
      var ts, here := Grove(names, height, at, j), at + [j];
      GroveIds(names, height - 1, here, 0);
      GroveIds(names, height, at, j + 1);
      var below, rest := IdsOfAll(ts[0].kids), IdsOfAll(ts[1..]);
      DistinctParts([here], below);
      forall p | p in [here] + below ensures |p| > |at| && p[..|at|] == at && p[|at|] == j {
        if p in below {
          assert p[..|at|] == p[..|at| + 1][..|at|] && p[|at|] == p[..|at| + 1][|at|];
        }
      }
      DistinctParts([here] + below, rest);
      assert IdsOfAll(ts) == ([here] + below) + rest;
    }
  }

  lemma {:induction false} GroveThroughout(kind: Tag -> bool, names: seq<string>, height: nat, at: Path, j: nat)
    requires j <= |names| && forall i :: 0 <= i < |names| ==> kind(Tag(NoNamespace, names[i]))
    ensures forall i :: 0 <= i < |Grove(names, height, at, j)| ==> Throughout(kind, Grove(names, height, at, j)[i])
    decreases height, |names| - j
  {
    if height > 0 && j < |names| {
      GroveThroughout(kind, names, height - 1, at + [j], 0);
      GroveThroughout(kind, names, height, at, j + 1);
    }
  }

  /** A node of the grove, with so much height below it. */
  predicate InGrove(names: seq<string>, n: Node<Path>, height: nat) {
    && n.tree.kids == Grove(names, height, n.tree.id, 0)
    && forall i {:trigger n.above[i]} :: 0 <= i < |n.above| ==>
         n.above[i].kids == Grove(names, height + |n.above| - i, n.above[i].id, 0)
  }

  lemma {:induction false} GroveParent(names: seq<string>, n: Node<Path>, height: nat)
    requires InGrove(names, n, height) && n.above != []
    ensures InGrove(names, Parent(n), height + 1)
  {
  }

  lemma {:induction false} ChildIn<Id>(above: seq<Tree<Id>>, ts: seq<Tree<Id>>, i: nat)
    requires i < |ts|
    ensures Node(above, ts[i]) in Children(above, ts)
  {
    if i > 0 {
      ChildIn(above, ts[1..], i - 1);
    }
  }

  lemma {:induction false} BelowChild<Id>(above: seq<Tree<Id>>, ts: seq<Tree<Id>>, i: nat)
    requires i < |ts|
    ensures Node(above, ts[i]) in Descendants(above, ts)
    ensures forall m :: m in Descendants(above + [ts[i]], ts[i].kids) ==> m in Descendants(above, ts)
  {
    if i > 0 {
      BelowChild(above, ts[1..], i - 1);
    }
  }

  lemma {:induction false} GroveChild(names: seq<string>, n: Node<Path>, height: nat, i: nat) returns (m: Node<Path>)
    requires InGrove(names, n, height) && height > 0 && i < |names|
    ensures m in From(false, n) && m in From(true, n) && |m.above| == |n.above| + 1
    ensures m.tree.tag == Tag(NoNamespace, names[i]) && InGrove(names, m, height - 1)
    ensures forall k :: k in From(true, m) ==> k in From(true, n)
  {
    GroveAt(names, height, n.tree.id, 0, i);
    m := Node(n.above + [n.tree], n.tree.kids[i]);
    ChildIn(n.above + [n.tree], n.tree.kids, i);
    BelowChild(n.above + [n.tree], n.tree.kids, i);
  }

  /** A descendant of a name, so much deeper. */
  lemma {:induction false} GroveBelow(names: seq<string>, n: Node<Path>, height: nat, i: nat, more: nat) returns (m: Node<Path>)
    requires InGrove(names, n, height) && height > more && i < |names|
    ensures m in From(true, n) && |m.above| == |n.above| + 1 + more
    ensures m.tree.tag == Tag(NoNamespace, names[i]) && InGrove(names, m, height - 1 - more)
    decreases more
  {
    if more == 0 {
      m := GroveChild(names, n, height, i);
    } else {
      var c := GroveChild(names, n, height, i);
      m := GroveBelow(names, c, height - 1, i, more - 1);
    }
  }

  /** The height the steps need. */
  function Need(steps: seq<Step>): nat
    decreases |steps|
  {
    if steps == [] then 0
    else (if steps[0].Go? then (if steps[0].deep then 1 + |steps| else 1) else 0) + Need(steps[1..])
  }

  /** Steps for which the grove has what they ask. */
  ghost predicate Served(keep: Filter<Path>, names: seq<string>, step: Step) {
    match step
    case Go(_, test) => test.Nothing? || test.AnyName? || (test.Exactly? && test.tag.ns == NoNamespace && test.tag.local in names)
    case Where(p) => forall n :: keep(p, n)
    case _ => true
  }

  lemma {:induction false} GroveMove(names: seq<string>, ctx: seq<Node<Path>>, n: Node<Path>, height: nat, step: Step, more: nat)
    returns (m: Node<Path>)
    requires n in ctx && InGrove(names, n, height) && names != [] && height > more
    requires step.Go? && (!step.deep ==> more == 0)
    requires step.test.AnyName? || (step.test.Exactly? && step.test.tag.ns == NoNamespace && step.test.tag.local in names)
    ensures m in Move(step.deep, step.test, ctx) && |m.above| == |n.above| + 1 + more && InGrove(names, m, height - 1 - more)
  {
    var i := if step.test.AnyName? then 0 else var i :| 0 <= i < |names| && names[i] == step.test.tag.local; i;
    if step.deep {
      m := GroveBelow(names, n, height, i, more);
    } else {
      m := GroveChild(names, n, height, i);
    }
    MoveIn(step.deep, step.test, ctx, m);
  }

  /** Steps that are not barren find something in the grove. */
  lemma {:induction false} GroveServes(keep: Filter<Path>, names: seq<string>, steps: seq<Step>, ctx: seq<Node<Path>>,
                                       n: Node<Path>, height: nat, depth: Option<nat>)
    returns (m: Node<Path>)
    requires names != [] && (forall i :: 0 <= i < |steps| ==> Served(keep, names, steps[i])) && !Barren(steps, depth)
    requires n in ctx && InGrove(names, n, height) && height >= Need(steps)
    requires |n.above| >= if depth.Some? then depth.value else |steps|
    ensures m in Eval(keep, steps, ctx)
    decreases |steps|
  {
    if steps == [] {
      m := n;
    } else {
      var rest, r := steps[1..], Apply(keep, steps[0], ctx);
      assert Served(keep, names, steps[0]);
      match steps[0]
      case Self =>
        m := GroveServes(keep, names, rest, r, n, height, depth);
      case Where(p) =>
        FilteredIn(keep, p, ctx, n);
        m := GroveServes(keep, names, rest, r, n, height, depth);
      case Up =>
        GroveParent(names, n, height);
        ParentsIn(ctx, Parent(n));
        m := GroveServes(keep, names, rest, r, Parent(n), height + 1, if depth.None? then None else Some(depth.value - 1));
      case Go(deep, test) =>
        var more := if deep then |steps| else 0;
        var c := GroveMove(names, ctx, n, height, steps[0], more);
        m := GroveServes(keep, names, rest, r, c, height - 1 - more, if deep || depth.None? then None else Some(depth.value + 1));
    }
  }

  function NamesOf(steps: seq<Step>): seq<string> {
    if steps == [] then []
    else (if steps[0].Go? && steps[0].test.Exactly? then [steps[0].test.tag.local] else []) + NamesOf(steps[1..])
  }

  lemma {:induction false} NamesIn(steps: seq<Step>, i: nat)
    requires i < |steps| && steps[i].Go? && steps[i].test.Exactly?
    ensures steps[i].test.tag.local in NamesOf(steps)
  {
    if i > 0 {
      NamesIn(steps[1..], i - 1);
    }
  }

  lemma {:induction false} NamesLive(steps: seq<Step>)
    requires forall i :: 0 <= i < |steps| ==> Ordinary(steps[i])
    ensures forall i :: 0 <= i < |NamesOf(steps)| ==> !Dead(NamesOf(steps)[i])
  {
    if steps != [] {
      assert Ordinary(steps[0]);
      assert forall i :: 0 <= i < |steps[1..]| ==> steps[1..][i] == steps[i + 1];
      NamesLive(steps[1..]);
    }
  }

  /** A document in which the steps find something. */
  function Witness(steps: seq<Step>): Tree<Path> {
    Elem([], Tag(NoNamespace, "a"), "", Grove(["a"] + NamesOf(steps), Need(steps), [], 0))
  }

  function Unmarked(): Filter<Path> { (p, n) => !Marked(p) }

  lemma {:induction false} WitnessIs(steps: seq<Step>)
    requires forall i :: 0 <= i < |steps| ==> Ordinary(steps[i])
    ensures Distinct(Ids(Witness(steps))) && Throughout(PlainTag, Witness(steps)) && Throughout(LiveTag, Witness(steps))
    ensures !Barren(steps, Some(0)) ==> Eval(Unmarked(), steps, [Node([], Witness(steps))]) != []
  {
    var names, h, root := ["a"] + NamesOf(steps), Need(steps), Witness(steps);
    GroveIds(names, h, [], 0);
    DistinctParts([root.id], IdsOfAll(root.kids));
    NamesLive(steps);
    GroveThroughout(PlainTag, names, h, [], 0);
    GroveThroughout(LiveTag, names, h, [], 0);
    if !Barren(steps, Some(0)) {
      forall i | 0 <= i < |steps| ensures Served(Unmarked(), names, steps[i]) {
        assert Ordinary(steps[i]);
        if steps[i].Go? && steps[i].test.Exactly? {
          NamesIn(steps, i);
        }
      }
      var n := Node([], root);
      var m := GroveServes(Unmarked(), names, steps, [n], n, h, Some(0));
    }
  }
}
