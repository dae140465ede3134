/** Numbering a step tree and handing its nodes to a new case
  * (celery_scheduler/tasks/task_public_api_to_script.py).  Steps are objects whose numbers and case ids
  * are assigned in place; the shape of the tree does not change. */
module StepNumbering {
  import opened Sequences

  /** The shape of a step tree over node identities. */
  datatype Tree<Id> = Node(id: Id, isIf: bool, branches: seq<Branch<Id>>, children: seq<Tree<Id>>)
  datatype Branch<Id> = Branch(steps: seq<Tree<Id>>)

  // ---------------------------------------------------------------- the two traversals

  function SizeOf<Id>(t: Tree<Id>): nat
    decreases t, 0
  {
    1 + SizeOfBranches(t.branches) + SizeOfAll(t.children)
  }

  function SizeOfAll<Id>(f: seq<Tree<Id>>): nat
    decreases f, 1
  {
    if f == [] then 0 else SizeOfAll(f[..|f| - 1]) + SizeOf(f[|f| - 1])
  }

  function SizeOfBranches<Id>(bs: seq<Branch<Id>>): nat
    decreases bs, 2
  {
    if bs == [] then 0 else SizeOfBranches(bs[..|bs| - 1]) + SizeOfAll(bs[|bs| - 1].steps)
  }

  /** The steps of all branches in one list. */
  function Joined<Id>(bs: seq<Branch<Id>>): seq<Tree<Id>> {
    if bs == [] then [] else Joined(bs[..|bs| - 1]) + bs[|bs| - 1].steps
  }

  /** Nodes in the order _assign_step_nos visits them. */
  function Numbered<Id>(t: Tree<Id>): seq<Id>
    decreases SizeOf(t), 0
  {
    SizeOfJoined(t.branches);
    [t.id] + (if t.isIf then NumberedAll(Joined(t.branches)) else []) + NumberedAll(t.children)
  }

  function NumberedAll<Id>(f: seq<Tree<Id>>): seq<Id>
    decreases SizeOfAll(f), 1, |f|
  {
    if f == [] then [] else NumberedAll(f[..|f| - 1]) + Numbered(f[|f| - 1])
  }

  /** Nodes in the order _recursive_update_case_id visits them. */
  function Claimed<Id>(t: Tree<Id>): seq<Id>
    decreases t, 0
  {
    [t.id] + ClaimedAll(t.children) + ClaimedBranches(t.branches)
  }

  function ClaimedAll<Id>(f: seq<Tree<Id>>): seq<Id>
    decreases f, 1
  {
    if f == [] then [] else ClaimedAll(f[..|f| - 1]) + Claimed(f[|f| - 1])
  }

  function ClaimedBranches<Id>(bs: seq<Branch<Id>>): seq<Id>
    decreases bs, 2
  {
    if bs == [] then [] else ClaimedBranches(bs[..|bs| - 1]) + ClaimedAll(bs[|bs| - 1].steps)
  }

  lemma {:induction false} SizeOfConcat<Id>(f: seq<Tree<Id>>, g: seq<Tree<Id>>)
    ensures SizeOfAll(f + g) == SizeOfAll(f) + SizeOfAll(g)
    decreases |g|
  {
    if g == [] {
      assert f + g == f;
    } else {
      SizeOfConcat(f, g[..|g| - 1]);
      assert (f + g)[..|f + g| - 1] == f + g[..|g| - 1];
    }
  }

  lemma {:induction false} SizeOfJoined<Id>(bs: seq<Branch<Id>>)
    ensures SizeOfAll(Joined(bs)) == SizeOfBranches(bs)
    decreases |bs|
  {
    if bs != [] {
      SizeOfJoined(bs[..|bs| - 1]);
      SizeOfConcat(Joined(bs[..|bs| - 1]), bs[|bs| - 1].steps);
    }
  }

  lemma {:induction false} NumberedSnoc<Id>(f: seq<Tree<Id>>, t: Tree<Id>)
    ensures NumberedAll(f + [t]) == NumberedAll(f) + Numbered(t)
  {
    assert (f + [t])[..|f|] == f;
  }

  lemma {:induction false} Assoc<T>(a: seq<T>, b: seq<T>, c: seq<T>)
    ensures (a + b) + c == a + (b + c)
  {
  }

  lemma {:induction false} NumberedConcat<Id>(f: seq<Tree<Id>>, g: seq<Tree<Id>>)
    ensures NumberedAll(f + g) == NumberedAll(f) + NumberedAll(g)
    decreases |g|
  {
    if g == [] {
      assert f + g == f;
    } else {
      var m := |g| - 1;
      NumberedConcat(f, g[..m]);
      NumberedSnoc(f + g[..m], g[m]);
      NumberedSnoc(g[..m], g[m]);
      assert f + g == f + g[..m] + [g[m]] && g == g[..m] + [g[m]];
      Assoc(NumberedAll(f), NumberedAll(g[..m]), Numbered(g[m]));
    }
  }

  lemma {:induction false} ClaimedSnoc<Id>(f: seq<Tree<Id>>, t: Tree<Id>)
    ensures ClaimedAll(f + [t]) == ClaimedAll(f) + Claimed(t)
  {
    assert (f + [t])[..|f|] == f;
  }

  lemma {:induction false} ClaimedConcat<Id>(f: seq<Tree<Id>>, g: seq<Tree<Id>>)
    ensures ClaimedAll(f + g) == ClaimedAll(f) + ClaimedAll(g)
    decreases |g|
  {
    if g == [] {
      assert f + g == f;
    } else {
      var m := |g| - 1;
      ClaimedConcat(f, g[..m]);
      ClaimedSnoc(f + g[..m], g[m]);
      ClaimedSnoc(g[..m], g[m]);
      assert f + g == f + g[..m] + [g[m]] && g == g[..m] + [g[m]];
      Assoc(ClaimedAll(f), ClaimedAll(g[..m]), Claimed(g[m]));
    }
  }

  lemma {:induction false} ClaimedJoined<Id>(bs: seq<Branch<Id>>)
    ensures ClaimedAll(Joined(bs)) == ClaimedBranches(bs)
    decreases |bs|
  {
    if bs != [] {
      ClaimedJoined(bs[..|bs| - 1]);
      ClaimedConcat(Joined(bs[..|bs| - 1]), bs[|bs| - 1].steps);
    }
  }

  // ---------------------------------------------------------------- which nodes they visit

  /** Of the steps that get numbers, only IF steps carry branch steps. */
  predicate OnlyIfBranches<Id>(t: Tree<Id>)
    decreases SizeOf(t), 0
  {
    SizeOfJoined(t.branches);
    && (t.isIf || Joined(t.branches) == [])
    && (t.isIf ==> OnlyIfBranchesAll(Joined(t.branches)))
    && OnlyIfBranchesAll(t.children)
  }

  predicate OnlyIfBranchesAll<Id>(f: seq<Tree<Id>>)
    decreases SizeOfAll(f), 1, |f|
  {
    f == [] || (OnlyIfBranchesAll(f[..|f| - 1]) && OnlyIfBranches(f[|f| - 1]))
  }

  /** Every numbered node is claimed, as often as it is numbered. */
  lemma {:induction false} NumberedWithin<Id>(t: Tree<Id>)
    ensures multiset(Numbered(t)) <= multiset(Claimed(t))
    ensures multiset(Numbered(t)) == multiset(Claimed(t)) <==> OnlyIfBranches(t)
    decreases SizeOf(t), 0
  {
    SizeOfJoined(t.branches);
    var j := Joined(t.branches);
    var inBranches: seq<Id> := if t.isIf then NumberedAll(j) else [];
    NumberedParts(t, inBranches);
    NumberedAllWithin(t.children);
    if t.isIf {
      NumberedAllWithin(j);
    } else {
      ClaimedNonEmpty(j);
    }
    SumEqual(multiset(inBranches), multiset(ClaimedAll(j)),
             multiset(NumberedAll(t.children)), multiset(ClaimedAll(t.children)), multiset{t.id});
  }

  lemma {:induction false} NumberedParts<Id>(t: Tree<Id>, inBranches: seq<Id>)
    requires inBranches == if t.isIf then NumberedAll(Joined(t.branches)) else []
    ensures multiset(Numbered(t)) == multiset{t.id} + multiset(inBranches) + multiset(NumberedAll(t.children))
    ensures multiset(Claimed(t)) ==
            multiset{t.id} + multiset(ClaimedAll(t.children)) + multiset(ClaimedAll(Joined(t.branches)))
  {
    ClaimedJoined(t.branches);
    assert Numbered(t) == [t.id] + inBranches + NumberedAll(t.children);
  }

  lemma {:induction false} NumberedAllWithin<Id>(f: seq<Tree<Id>>)
    ensures multiset(NumberedAll(f)) <= multiset(ClaimedAll(f))
    ensures multiset(NumberedAll(f)) == multiset(ClaimedAll(f)) <==> OnlyIfBranchesAll(f)
    decreases SizeOfAll(f), 1, |f|
  {
    if f != [] {
      var m := |f| - 1;
      NumberedAllWithin(f[..m]);
      NumberedWithin(f[m]);
      assert multiset(NumberedAll(f)) == multiset(NumberedAll(f[..m])) + multiset(Numbered(f[m])) + multiset{};
      assert multiset(ClaimedAll(f)) == multiset(ClaimedAll(f[..m])) + multiset(Claimed(f[m])) + multiset{};
      SumEqual(multiset(NumberedAll(f[..m])), multiset(ClaimedAll(f[..m])),
               multiset(Numbered(f[m])), multiset(Claimed(f[m])), multiset{});
    }
  }

  lemma {:induction false} ClaimedNonEmpty<Id>(f: seq<Tree<Id>>)
    ensures f != [] ==> multiset(ClaimedAll(f)) != multiset{}
    ensures f == [] ==> multiset(ClaimedAll(f)) == multiset{}
  {
    if f != [] {
      var t := f[|f| - 1];
      assert Claimed(t)[0] == t.id && t.id in Claimed(t);
      assert t.id in ClaimedAll(f);
    }
  }

  lemma {:induction false} SumEqual<T>(a: multiset<T>, a': multiset<T>, b: multiset<T>, b': multiset<T>, c: multiset<T>)
    requires a <= a' && b <= b'
    ensures c + a + b <= c + a' + b' && a + b + c <= a' + b' + c
    ensures c + a + b == c + b' + a' <==> a == a' && b == b'
    ensures a + b + c == a' + b' + c <==> a == a' && b == b'
  {
    assert c + b' + a' == c + a' + b';
    if a + b + c == a' + b' + c {
      forall x ensures a[x] == a'[x] && b[x] == b'[x] {
        assert (a + b + c)[x] == (a' + b' + c)[x];
      }
    }
    if c + a + b == c + b' + a' {
      forall x ensures a[x] == a'[x] && b[x] == b'[x] {
        assert (c + a + b)[x] == (c + b' + a')[x];
      }
    }
  }

  // ---------------------------------------------------------------- steps as objects

  class Step {
    const isIf: bool
    const branchItems: seq<seq<Step>>
    const children: seq<Step>
    var stepNo: int
    var caseId: int

    constructor (isIf: bool, branchItems: seq<seq<Step>>, children: seq<Step>)
      ensures this.isIf == isIf && this.branchItems == branchItems && this.children == children
    {
      this.isIf, this.branchItems, this.children := isIf, branchItems, children;
      stepNo, caseId := 0, 0;
    }
  }

  /** The list of steps has this shape. */
  ghost predicate Reflects(steps: seq<Step>, f: seq<Tree<Step>>)
    decreases f, 0
  {
    |steps| == |f| && forall i :: 0 <= i < |f| ==> f[i].id == steps[i] && ReflectsStep(f[i])
  }

  ghost predicate ReflectsStep(t: Tree<Step>)
    decreases t
  {
    && t.isIf == t.id.isIf
    && Reflects(t.id.children, t.children)
    && |t.branches| == |t.id.branchItems|
    && forall i :: 0 <= i < |t.branches| ==> Reflects(t.id.branchItems[i], t.branches[i].steps)
  }

  /** The nodes carry the numbers from n on, in this order. */
  ghost predicate CountFrom(nodes: seq<Step>, n: int)
    reads nodes
  {
    forall k :: 0 <= k < |nodes| ==> nodes[k].stepNo == n + k
  }

  ghost predicate AllOf(nodes: seq<Step>, caseId: int)
    reads nodes
  {
    forall s :: s in nodes ==> s.caseId == caseId
  }

  ghost function Steps(nodes: seq<Step>): set<Step> {
    set s | s in nodes
  }

  // ---------------------------------------------------------------- the order of the numbers

  /** Every node of the first list has a smaller number than every node of the second. */
  ghost predicate Before(a: seq<Step>, b: seq<Step>)
    reads a, b
  {
    forall x, y :: x in a && y in b ==> x.stepNo < y.stepNo
  }

  /** A step comes before what is below it, and what is below its branches, if it is an IF step, before what is below
    * its plain children; and so on below. */
  ghost predicate Ordered(t: Tree<Step>)
    reads Steps(Numbered(t))
    decreases SizeOf(t), 0
  {
    NumberedInParts(t);
    SizeOfJoined(t.branches);
    && Before([t.id], NumberedBranches(t)) && Before([t.id], NumberedAll(t.children))
    && Before(NumberedBranches(t), NumberedAll(t.children))
    && (t.isIf ==> OrderedAll(Joined(t.branches))) && OrderedAll(t.children)
  }

  /** Each step with what is below it comes before the next. */
  ghost predicate OrderedAll(f: seq<Tree<Step>>)
    reads Steps(NumberedAll(f))
    decreases SizeOfAll(f), 1, |f|
  {
    f == [] ||
    (var k := |f| - 1;
     OrderedAll(f[..k]) && Ordered(f[k]) && Before(NumberedAll(f[..k]), Numbered(f[k])))
  }

  lemma {:induction false} CountedBefore(a: seq<Step>, b: seq<Step>, n: int)
    requires CountFrom(a + b, n)
    ensures CountFrom(a, n) && CountFrom(b, n + |a|) && Before(a, b)
  {
    var s := a + b;
    assert forall k :: 0 <= k < |a| ==> s[k] == a[k];
    assert forall k :: 0 <= k < |b| ==> s[|a| + k] == b[k];
  }

  /** Consecutive numbers in visiting order are ordered so. */
  lemma {:induction false} CountOrders(t: Tree<Step>, n: int)
    requires CountFrom(Numbered(t), n)
    ensures Ordered(t)
    decreases SizeOf(t), 0
  {
    NumberedInParts(t);
    SizeOfJoined(t.branches);
    var inBranches, inChildren := NumberedBranches(t), NumberedAll(t.children);
    CountedBefore([t.id] + inBranches, inChildren, n);
    CountedBefore([t.id], inBranches, n);
    CountOrdersAll(t.children, n + 1 + |inBranches|);
    if t.isIf {
      CountOrdersAll(Joined(t.branches), n + 1);
    }
  }

  lemma {:induction false} CountOrdersAll(f: seq<Tree<Step>>, n: int)
    requires CountFrom(NumberedAll(f), n)
    ensures OrderedAll(f)
    decreases SizeOfAll(f), 1, |f|
  {
    if f != [] {
      var k := |f| - 1;
      CountedBefore(NumberedAll(f[..k]), Numbered(f[k]), n);
      CountOrdersAll(f[..k], n);
      CountOrders(f[k], n + |NumberedAll(f[..k])|);
    }
  }

  /** _assign_step_nos: the visited nodes get consecutive numbers in visiting order, and no other
    * object changes; `kept` are nodes that are not visited. */
  method AssignStepNos(steps: seq<Step>, start: int, ghost f: seq<Tree<Step>>, ghost kept: set<Step>)
    returns (counter: int)
    requires Reflects(steps, f) && Distinct(NumberedAll(f)) && forall s :: s in NumberedAll(f) ==> s !in kept
    modifies Steps(NumberedAll(f))`stepNo
    ensures counter == start + |NumberedAll(f)|
    ensures CountFrom(NumberedAll(f), start) && forall s :: s in kept ==> s.stepNo == old(s.stepNo)
    decreases SizeOfAll(f), 2
  {
    counter := start;
    for i := 0 to |steps|
      invariant counter == start + |NumberedAll(f[..i])|
      invariant CountFrom(NumberedAll(f[..i]), start) && forall s :: s in kept ==> s.stepNo == old(s.stepNo)
    {
      PrefixOfVisit(f, i);
      SplitDistinct(f, i);
      counter := AssignStep(steps[i], counter, f[i], kept + Steps(NumberedAll(f[..i])));
    }
    assert f[..|f|] == f;
  }

  /** One round of the loop: a step, its branches if it is an IF step, its children. */
  method AssignStep(step: Step, start: int, ghost t: Tree<Step>, ghost kept: set<Step>) returns (counter: int)
    requires t.id == step && ReflectsStep(t) && Distinct(Numbered(t)) && forall s :: s in Numbered(t) ==> s !in kept
    modifies Steps(Numbered(t))`stepNo
    ensures counter == start + |Numbered(t)|
    ensures CountFrom(Numbered(t), start) && forall s :: s in kept ==> s.stepNo == old(s.stepNo)
    decreases SizeOf(t), 1
  {
    ghost var inBranches, inChildren := NumberedBranches(t), NumberedAll(t.children);
    NumberedInParts(t);
    ThreeParts([step], inBranches, inChildren);
    step.stepNo := start;
    counter := AssignBranches(step, start + 1, t, kept + {step});
    counter := AssignStepNos(step.children, counter, t.children, kept + {step} + Steps(inBranches));
  }

  /** The nodes numbered below the branches of a step. */
  ghost function NumberedBranches<Id>(t: Tree<Id>): seq<Id> {
    if t.isIf then NumberedAll(Joined(t.branches)) else []
  }

  lemma {:induction false} NumberedInParts<Id>(t: Tree<Id>)
    ensures Numbered(t) == [t.id] + NumberedBranches(t) + NumberedAll(t.children)
    ensures t.id in [t.id] && SizeOfAll(t.children) < SizeOf(t)
  {
  }

  /** Only an IF step's branches are numbered. */
  method AssignBranches(step: Step, start: int, ghost t: Tree<Step>, ghost kept: set<Step>) returns (counter: int)
    requires t.id == step && ReflectsStep(t) && Distinct(NumberedBranches(t))
    requires forall s :: s in NumberedBranches(t) ==> s !in kept
    modifies Steps(NumberedBranches(t))`stepNo
    ensures counter == start + |NumberedBranches(t)|
    ensures CountFrom(NumberedBranches(t), start) && forall s :: s in kept ==> s.stepNo == old(s.stepNo)
    decreases SizeOf(t), 0
  {
    counter := start;
    if step.isIf {
      SizeOfJoined(t.branches);
      var branchChildren := CollectBranches(step, t);
      counter := AssignStepNos(branchChildren, counter, Joined(t.branches), kept);
    }
  }

  /** branch_children.extend(...) over the branches. */
  method CollectBranches(step: Step, ghost t: Tree<Step>) returns (branchChildren: seq<Step>)
    requires t.id == step && ReflectsStep(t)
    ensures Reflects(branchChildren, Joined(t.branches))
  {
    branchChildren := [];
    for b := 0 to |step.branchItems|
      invariant Reflects(branchChildren, Joined(t.branches[..b]))
    {
      ReflectsConcat(t, b, branchChildren);
      branchChildren := branchChildren + step.branchItems[b];
      assert t.branches[..b + 1][..b] == t.branches[..b];
    }
    assert t.branches[..|t.branches|] == t.branches;
  }

  lemma {:induction false} ThreeParts<T>(a: seq<T>, b: seq<T>, c: seq<T>)
    requires Distinct(a + b + c)
    ensures Distinct(b) && Distinct(c)
    ensures forall x :: x in a ==> x !in b && x !in c
    ensures forall x :: x in b ==> x !in c
    ensures forall x :: x in b || x in c || x in a ==> x in a + b + c
  {
    var s := a + b + c;
    assert forall i :: 0 <= i < |a| ==> s[i] == a[i];
    assert forall i :: 0 <= i < |b| ==> s[|a| + i] == b[i];
    assert forall i :: 0 <= i < |c| ==> s[|a| + |b| + i] == c[i];
  }

  lemma {:induction false} ReflectsConcat(t: Tree<Step>, b: nat, before: seq<Step>)
    requires ReflectsStep(t) && b < |t.branches| && Reflects(before, Joined(t.branches[..b]))
    ensures Reflects(before + t.id.branchItems[b], Joined(t.branches[..b]) + t.branches[b].steps)
  {
  }

  lemma {:induction false} SliceDistinct<T>(s: seq<T>, a: nat, b: nat, part: seq<T>)
    requires Distinct(s) && a <= b <= |s| && part == s[a..b]
    ensures Distinct(part)
  {
  }

  lemma {:induction false} PrefixOfVisit<Id>(f: seq<Tree<Id>>, i: nat)
    requires i < |f|
    ensures NumberedAll(f[..i + 1]) == NumberedAll(f[..i]) + Numbered(f[i])
    ensures NumberedAll(f) == NumberedAll(f[..i + 1]) + NumberedAll(f[i + 1..])
    ensures SizeOf(f[i]) <= SizeOfAll(f)
  {
    assert f[..i + 1][..i] == f[..i];
    NumberedConcat(f[..i + 1], f[i + 1..]);
    SizeOfConcat(f[..i + 1], f[i + 1..]);
    assert f == f[..i + 1] + f[i + 1..];
  }

  lemma {:induction false} SplitDistinct<Id>(f: seq<Tree<Id>>, i: nat)
    requires i < |f| && Distinct(NumberedAll(f))
    ensures Distinct(Numbered(f[i]))
    ensures forall s :: s in NumberedAll(f[..i]) ==> s !in Numbered(f[i])
    ensures forall s :: s in Numbered(f[i]) ==> s in NumberedAll(f)
    ensures forall s :: s in NumberedAll(f[..i]) ==> s in NumberedAll(f)
  {
    PrefixOfVisit(f, i);
    var a, b := NumberedAll(f[..i]), Numbered(f[i]);
    var all := NumberedAll(f);
    SliceDistinct(all, |a|, |a| + |b|, b);
    assert forall k :: 0 <= k < |a| ==> all[k] == a[k];
    assert forall k :: 0 <= k < |b| ==> all[|a| + k] == b[k];
  }

  /** _recursive_update_case_id: every visited node gets the case id, and no other object changes.
    * `marked` are nodes that have it already. */
  method RecursiveUpdateCaseId(steps: seq<Step>, caseId: int, ghost f: seq<Tree<Step>>, ghost marked: set<Step>)
    requires Reflects(steps, f) && forall s :: s in marked ==> s.caseId == caseId
    modifies Steps(ClaimedAll(f))`caseId
    ensures AllOf(ClaimedAll(f), caseId) && forall s :: s in marked ==> s.caseId == caseId
    decreases f, 1
  {
    for i := 0 to |steps|
      invariant forall s :: s in marked + Steps(ClaimedAll(f[..i])) ==> s.caseId == caseId
    {
      ClaimedPrefix(f, i);
      UpdateStep(steps[i], caseId, f[i], marked + Steps(ClaimedAll(f[..i])));
    }
    assert f[..|f|] == f;
  }

  method UpdateStep(step: Step, caseId: int, ghost t: Tree<Step>, ghost marked: set<Step>)
    requires t.id == step && ReflectsStep(t) && forall s :: s in marked ==> s.caseId == caseId
    modifies Steps(Claimed(t))`caseId
    ensures AllOf(Claimed(t), caseId) && forall s :: s in marked ==> s.caseId == caseId
    decreases t, 0
  {
    step.caseId := caseId;
    ghost var now := marked + {step};
    RecursiveUpdateCaseId(step.children, caseId, t.children, now);
    now := now + Steps(ClaimedAll(t.children));
    for b := 0 to |step.branchItems|
      invariant forall s :: s in now + Steps(ClaimedBranches(t.branches[..b])) ==> s.caseId == caseId
    {
      BranchPrefix(t.branches, b);
      RecursiveUpdateCaseId(step.branchItems[b], caseId, t.branches[b].steps,
                            now + Steps(ClaimedBranches(t.branches[..b])));
    }
    assert t.branches[..|t.branches|] == t.branches;
  }

  lemma {:induction false} ClaimedPrefix<Id>(f: seq<Tree<Id>>, i: nat)
    requires i < |f|
    ensures ClaimedAll(f[..i + 1]) == ClaimedAll(f[..i]) + Claimed(f[i])
    ensures ClaimedAll(f) == ClaimedAll(f[..i + 1]) + ClaimedAll(f[i + 1..])
  {
    assert f[..i + 1][..i] == f[..i];
    ClaimedConcat(f[..i + 1], f[i + 1..]);
    assert f == f[..i + 1] + f[i + 1..];
  }

  lemma {:induction false} BranchPrefix<Id>(bs: seq<Branch<Id>>, b: nat)
    requires b < |bs|
    ensures ClaimedBranches(bs[..b + 1]) == ClaimedBranches(bs[..b]) + ClaimedAll(bs[b].steps)
    ensures forall s :: s in ClaimedAll(bs[b].steps) ==> s in ClaimedBranches(bs)
    decreases |bs|
  {
    assert bs[..b + 1][..b] == bs[..b];
    if b + 1 < |bs| {
      BranchPrefix(bs[..|bs| - 1], b);
      assert bs[..|bs| - 1][..b + 1] == bs[..b + 1];
    } else {
      assert bs[..b + 1] == bs;
    }
  }
}
