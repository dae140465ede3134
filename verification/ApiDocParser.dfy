/** APIDocConvert.parse_excel_data as the loop it is: nodes are objects, the stack and the current node
  * are references to them, and rows append to `children` in place.  The loop is proved to build the
  * tree that the stack machine of ApiDocMachine builds. */
module ApiDocParser {
  import opened Options
  import opened ApiDocMachine
  import opened ApiDocSheet

  datatype NodeKind = LeafNode | StructNode | ArrayNode | UnnamedNode

  /** A node dictionary.  `field` is the tree below a node that is complete; `parent` is its only owner. */
  class Node {
    const kind: NodeKind
    const name: string
    const fieldType: string
    const length: string
    var children: seq<Node>
    ghost var field: Field
    ghost var parent: Node?

    constructor (kind: NodeKind, name: string, fieldType: string, length: string)
      ensures this.kind == kind && this.name == name && this.fieldType == fieldType && this.length == length
      ensures children == [] && parent == null && Consistent()
    {
      this.kind, this.name, this.fieldType, this.length := kind, name, fieldType, length;
      children, parent := [], null;
      field := match kind
               case LeafNode => Leaf(name, fieldType, length)
               case StructNode => Struct(name, [])
               case ArrayNode => Array(name, [])
               case UnnamedNode => Unnamed([]);
    }

    /** `field` is what the node and the fields of its children say. */
    ghost predicate Consistent()
      reads this`field, this`children, children`field
    {
      match kind
      case LeafNode => field == Leaf(name, fieldType, length) && children == []
      case StructNode => field.Struct? && field.name == name && FieldsAre(children, field.children)
      case ArrayNode => field.Array? && field.name == name && FieldsAre(children, field.children)
      case UnnamedNode => field.Unnamed? && FieldsAre(children, field.children)
    }
  }

  ghost predicate FieldsAre(nodes: seq<Node>, fs: seq<Field>)
    reads nodes`field
  {
    |nodes| == |fs| && forall k :: 0 <= k < |nodes| ==> nodes[k].field == fs[k]
  }

  /** Every node owns its children, once each. */
  ghost predicate Owned(nodes: set<Node>)
    reads nodes`children, nodes`parent
  {
    && (forall n, i :: n in nodes && 0 <= i < |n.children| ==> n.children[i] in nodes && n.children[i].parent == n)
    && (forall n, i, j :: n in nodes && 0 <= i < j < |n.children| ==> n.children[i] != n.children[j])
  }

  /** A finished tree: `root` stands for f. */
  ghost predicate Represents(nodes: set<Node>, root: Node, f: Field)
    reads nodes
  {
    root in nodes && root.field == f && Owned(nodes) && forall n {:trigger n.Consistent()} :: n in nodes ==> n.Consistent()
  }

  /** The chain node n at some place of the path: its complete children stand for the frame's, and
    * `next` says whether its last child is the next chain node. */
  ghost predicate Holds(n: Node, frame: Frame, next: Node?)
    reads n`children, n.children`field
  {
    && n.kind == (if frame.isArray then ArrayNode else StructNode)
    && n.name == frame.name
    && |n.children| == |frame.children| + (if next == null then 0 else 1)
    && (next != null ==> n.children[|n.children| - 1] == next)
    && forall k :: 0 <= k < |frame.children| ==> n.children[k].field == frame.children[k]
  }

  ghost function Next(chain: seq<Node>, i: nat): Node?
    requires i < |chain|
  {
    if i + 1 < |chain| then chain[i + 1] else null
  }

  /** chain is a path of nodes, each the owner of the next. */
  ghost predicate Chained(nodes: set<Node>, chain: seq<Node>)
    reads nodes`parent
  {
    && chain != []
    && (forall i :: 0 <= i < |chain| ==> chain[i] in nodes)
    && (forall i, j :: 0 <= i < j < |chain| ==> chain[i] != chain[j])
    && chain[0].parent == null
    && (forall i {:trigger chain[i].parent} :: 0 < i < |chain| ==> chain[i].parent == chain[i - 1])
  }

  /** The nodes off the chain are complete. */
  ghost predicate Completed(nodes: set<Node>, chain: seq<Node>)
    requires Owned(nodes)
    reads nodes
  {
    forall n {:trigger n.Consistent()} :: n in nodes && n !in chain ==> n.Consistent()
  }

  /** The chain nodes are as the machine's path says. */
  ghost predicate Held(nodes: set<Node>, chain: seq<Node>, path: seq<Frame>)
    requires Owned(nodes) && Chained(nodes, chain)
    reads nodes
  {
    |chain| == |path| && forall i {:trigger Next(chain, i)} :: 0 <= i < |chain| ==> Holds(chain[i], path[i], Next(chain, i))
  }

  /** chain leads from the root to the current node. */
  ghost predicate Inv(nodes: set<Node>, chain: seq<Node>, path: seq<Frame>)
    reads nodes
  {
    Owned(nodes) && Chained(nodes, chain) && Completed(nodes, chain) && Held(nodes, chain, path)
  }

  ghost function Last<T>(s: seq<T>): T
    requires s != []
  {
    s[|s| - 1]
  }

  /** What the machine's path says of the current node. */
  lemma {:induction false} CurrentHolds(nodes: set<Node>, chain: seq<Node>, path: seq<Frame>)
    requires Inv(nodes, chain, path)
    ensures |chain| == |path| > 0 && Holds(Last(chain), Last(path), null)
  {
    assert Next(chain, |chain| - 1) == null;
  }

  /** A node is a child of its owner only. */
  lemma {:induction false} NotAmong(nodes: set<Node>, n: Node, child: Node)
    requires Owned(nodes) && n in nodes && n != child.parent
    ensures child !in n.children
  {
  }

  lemma {:induction false} ChainedSnoc(nodes: set<Node>, chain: seq<Node>, child: Node)
    requires Chained(nodes, chain) && child in nodes && child !in chain && child.parent == Last(chain)
    ensures Chained(nodes, chain + [child])
  {
  }

  // ---------------------------------------------------------------- appending a new node

  /** current["children"].append(child), for a new node without children. */
  method Attach(current: Node, child: Node, ghost nodes: set<Node>, ghost chain: seq<Node>, ghost path: seq<Frame>)
    requires Inv(nodes, chain, path) && current == Last(chain)
    requires child !in nodes && child.children == []
    modifies current`children, child`parent
    ensures |chain| == |path| && current.children == old(current.children) + [child]
    ensures Owned(nodes + {child}) && Chained(nodes + {child}, chain) && child.parent == current && child !in chain
    ensures forall n {:trigger n.Consistent()} :: n in nodes && n !in chain ==> n.Consistent()
    ensures forall i {:trigger Next(chain, i)} :: 0 <= i < |chain| - 1 ==> Holds(chain[i], path[i], Next(chain, i))
    ensures |current.children| == |Last(path).children| + 1
    ensures forall k :: 0 <= k < |Last(path).children| ==> current.children[k].field == Last(path).children[k]
  {
    child.parent := current;
    Push(current, child, nodes, chain, path);
  }

  /** The new node already knows its owner. */
  method Push(current: Node, child: Node, ghost nodes: set<Node>, ghost chain: seq<Node>, ghost path: seq<Frame>)
    requires Inv(nodes, chain, path) && current == Last(chain)
    requires child !in nodes && child.children == [] && child.parent == current
    modifies current`children
    ensures |chain| == |path| && current.children == old(current.children) + [child]
    ensures Owned(nodes + {child}) && Chained(nodes + {child}, chain) && child !in chain
    ensures forall n {:trigger n.Consistent()} :: n in nodes && n !in chain ==> n.Consistent()
    ensures forall i {:trigger Next(chain, i)} :: 0 <= i < |chain| - 1 ==> Holds(chain[i], path[i], Next(chain, i))
    ensures |current.children| == |Last(path).children| + 1
    ensures forall k :: 0 <= k < |Last(path).children| ==> current.children[k].field == Last(path).children[k]
  {
    CurrentHolds(nodes, chain, path);
    current.children := current.children + [child];
    forall n | n in nodes && n !in chain ensures n.Consistent() {
      assert old(n.Consistent());
    }
    forall i | 0 <= i < |chain| - 1 ensures Holds(chain[i], path[i], Next(chain, i)) {
      assert old(Holds(chain[i], path[i], Next(chain, i)));
    }
  }

  /** The new child is complete. */
  method AppendNew(current: Node, child: Node, ghost nodes: set<Node>, ghost chain: seq<Node>, ghost path: seq<Frame>)
    requires Inv(nodes, chain, path) && current == Last(chain)
    requires child !in nodes && child.Consistent() && child.children == []
    modifies current`children, child`parent
    ensures current.children == old(current.children) + [child]
    ensures |chain| == |path| && Inv(nodes + {child}, chain, Append(path, child.field))
  {
    CurrentHolds(nodes, chain, path);
    Attach(current, child, nodes, chain, path);
    ChainedSnoc(nodes + {child}, chain, child);
    assert child.Consistent();
    assert Holds(current, AddChild(Last(path), child.field), null);
    assert Held(nodes + {child}, chain, Append(path, child.field));
  }

  /** The new child becomes the current node. */
  method OpenNew(current: Node, child: Node, ghost nodes: set<Node>, ghost chain: seq<Node>, ghost path: seq<Frame>)
    requires Inv(nodes, chain, path) && current == Last(chain)
    requires child !in nodes && child.children == [] && (child.kind == StructNode || child.kind == ArrayNode)
    modifies current`children, child`parent
    ensures current.children == old(current.children) + [child]
    ensures Inv(nodes + {child}, chain + [child], path + [Frame(child.kind == ArrayNode, child.name, [])])
  {
    CurrentHolds(nodes, chain, path);
    Attach(current, child, nodes, chain, path);
    ChainedSnoc(nodes + {child}, chain, child);
    ghost var longer := chain + [child];
    ghost var after := path + [Frame(child.kind == ArrayNode, child.name, [])];
    forall i | 0 <= i < |longer| ensures Holds(longer[i], after[i], Next(longer, i)) {
      if i + 1 < |chain| {
        assert Next(longer, i) == Next(chain, i);
      }
    }
  }

  // ---------------------------------------------------------------- growing the last child

  /** A child of the current node is off the chain. */
  lemma {:induction false} OffChain(nodes: set<Node>, chain: seq<Node>, last: Node)
    requires Owned(nodes) && Chained(nodes, chain) && last in nodes && last.parent == Last(chain)
    ensures last !in chain
    ensures forall n :: n in nodes && n != Last(chain) ==> last !in n.children
  {
    forall i | 0 <= i < |chain| ensures chain[i] != last {
      assert chain[i].parent != Last(chain);
    }
    forall n | n in nodes && n != Last(chain) ensures last !in n.children {
      NotAmong(nodes, n, last);
    }
  }

  /** A complete child of the current node gets one more leaf, which already knows its owner. */
  method Grow(last: Node, leaf: Node, ghost nodes: set<Node>, ghost chain: seq<Node>, ghost path: seq<Frame>)
    requires Inv(nodes, chain, path) && leaf !in nodes && leaf.Consistent() && leaf.children == []
    requires last in nodes && last !in chain && last.kind != LeafNode && leaf.parent == last
    requires forall n :: n in nodes && n != Last(chain) ==> last !in n.children
    modifies last`children, last`field
    ensures !old(last.field).Leaf?
    ensures last.field == old(last.field).(children := old(last.field).children + [leaf.field])
    ensures Owned(nodes + {leaf}) && Chained(nodes + {leaf}, chain) && Completed(nodes + {leaf}, chain)
    ensures |chain| == |path|
    ensures forall i {:trigger Next(chain, i)} :: 0 <= i < |chain| - 1 ==> Holds(chain[i], path[i], Next(chain, i))
  {
    assert last.Consistent();
    last.children := last.children + [leaf];
    last.field := last.field.(children := last.field.children + [leaf.field]);
    assert last.Consistent() && leaf.Consistent();
    forall n | n in nodes && n !in chain && n != last ensures n.Consistent() {
      assert old(n.Consistent());
    }
    forall i | 0 <= i < |chain| - 1 ensures Holds(chain[i], path[i], Next(chain, i)) {
      assert old(Holds(chain[i], path[i], Next(chain, i)));
    }
  }

  /** current["children"][-1]["children"].append(leaf). */
  method GrowLast(current: Node, leaf: Node, ghost nodes: set<Node>, ghost chain: seq<Node>, ghost path: seq<Frame>)
    requires Inv(nodes, chain, path) && current == Last(chain) && current.children != []
    requires current.children[|current.children| - 1].kind != LeafNode
    requires leaf !in nodes && leaf.Consistent() && leaf.children == []
    modifies current.children[|current.children| - 1], leaf`parent
    ensures current.children == old(current.children)
    ensures |chain| == |path| && Last(path).children != [] && !Last(Last(path).children).Leaf?
    ensures Inv(nodes + {leaf}, chain, GrownPath(path, leaf.field))
  {
    CurrentHolds(nodes, chain, path);
    var last := current.children[|current.children| - 1];
    ghost var kids := Last(path).children;
    OffChain(nodes, chain, last);
    assert kids[|kids| - 1] == last.field;
    leaf.parent := last;
    Grow(last, leaf, nodes, chain, path);
    assert Holds(current, Last(GrownPath(path, leaf.field)), null);
  }

  /** The path with a leaf added to the last child of the current node. */
  ghost function GrownPath(path: seq<Frame>, leaf: Field): seq<Frame>
    requires path != [] && Last(path).children != [] && !Last(Last(path).children).Leaf?
  {
    var kids := Last(path).children;
    var grown := Last(kids).(children := Last(kids).children + [leaf]);
    path[..|path| - 1] + [Last(path).(children := kids[..|kids| - 1] + [grown])]
  }

  // ---------------------------------------------------------------- closing

  /** Only its owner has the current node as a child. */
  lemma {:induction false} OnlyOwner(nodes: set<Node>, chain: seq<Node>, path: seq<Frame>)
    requires Inv(nodes, chain, path) && |chain| > 1
    ensures |chain| == |path| && Holds(Last(chain), Last(path), null)
    ensures Holds(chain[|chain| - 2], path[|chain| - 2], Last(chain))
    ensures forall n :: n in nodes && n != chain[|chain| - 2] ==> Last(chain) !in n.children
  {
    CurrentHolds(nodes, chain, path);
    assert Next(chain, |chain| - 2) == Last(chain);
    forall n | n in nodes && n != chain[|chain| - 2] ensures Last(chain) !in n.children {
      NotAmong(nodes, n, Last(chain));
    }
  }

  /** The tree of the current node is fixed; the other nodes stay as they are. */
  ghost method FixLast(top: Node, nodes: set<Node>, chain: seq<Node>, path: seq<Frame>)
    requires Inv(nodes, chain, path) && |chain| > 1 && top == Last(chain)
    modifies top`field
    ensures |chain| == |path| && top.field == Close(Last(path)) && top.Consistent()
    ensures forall i {:trigger Next(chain, i)} :: 0 <= i < |chain| - 2 ==> Holds(chain[i], path[i], Next(chain, i))
    ensures forall n {:trigger n.Consistent()} :: n in nodes && n !in chain ==> n.Consistent()
  {
    OnlyOwner(nodes, chain, path);
    top.field := Close(Last(path));
    forall i | 0 <= i < |chain| - 2 ensures Holds(chain[i], path[i], Next(chain, i)) {
      assert old(Holds(chain[i], path[i], Next(chain, i)));
    }
    forall n | n in nodes && n !in chain ensures n.Consistent() {
      assert old(n.Consistent());
    }
  }

  /** The current node is complete: its parent becomes current. */
  ghost method CloseLast(top: Node, nodes: set<Node>, chain: seq<Node>, path: seq<Frame>)
    requires Inv(nodes, chain, path) && |chain| > 1 && top == Last(chain)
    modifies top`field
    ensures |chain| == |path| && Inv(nodes, chain[..|chain| - 1], Pop(path))
  {
    OnlyOwner(nodes, chain, path);
    FixLast(top, nodes, chain, path);
    Shorter(nodes, chain, path);
  }

  /** The chain without its last node, once that node is complete. */
  lemma {:induction false} Shorter(nodes: set<Node>, chain: seq<Node>, path: seq<Frame>)
    requires Owned(nodes) && Chained(nodes, chain) && |chain| == |path| > 1
    requires forall i {:trigger Next(chain, i)} :: 0 <= i < |chain| - 2 ==> Holds(chain[i], path[i], Next(chain, i))
    requires Holds(chain[|chain| - 2], AddChild(path[|chain| - 2], Close(path[|chain| - 1])), null)
    requires forall n {:trigger n.Consistent()} :: n in nodes && n !in chain ==> n.Consistent()
    requires Last(chain).Consistent()
    ensures Inv(nodes, chain[..|chain| - 1], Pop(path))
  {
    var m := |chain| - 1;
    var shorter, after := chain[..m], Pop(path);
    assert after == path[..m - 1] + [AddChild(path[m - 1], Close(path[m]))] by {
      assert path[..m][..m - 1] == path[..m - 1];
    }
    forall i | 0 <= i < m ensures Holds(shorter[i], after[i], Next(shorter, i)) {
      assert i < m - 1 ==> Next(shorter, i) == Next(chain, i);
    }
    forall n | n in nodes && n !in shorter ensures n.Consistent() {
      assert n in chain ==> n == chain[m];
    }
  }

  /** The root is complete. */
  ghost method CloseRoot(root: Node, nodes: set<Node>, chain: seq<Node>, path: seq<Frame>)
    requires Inv(nodes, chain, path) && chain == [root]
    modifies root`field
    ensures |path| == 1 && Represents(nodes, root, Close(path[0]))
  {
    CurrentHolds(nodes, chain, path);
    forall n | n in nodes ensures root !in n.children {
      NotAmong(nodes, n, root);
    }
    root.field := Close(path[0]);
    assert root.Consistent();
    forall n | n in nodes ensures n.Consistent() {
      if n != root {
        assert old(n.Consistent());
      }
    }
  }

  /** Completes every open node, from the current one up. */
  ghost method Finish(nodes: set<Node>, chain: seq<Node>, path: seq<Frame>)
    requires Inv(nodes, chain, path)
    modifies nodes`field
    ensures Represents(nodes, chain[0], Collapse(path))
    decreases |chain|
  {
    if |chain| > 1 {
      CloseLast(Last(chain), nodes, chain, path);
      Finish(nodes, chain[..|chain| - 1], Pop(path));
    } else {
      CloseRoot(chain[0], nodes, chain, path);
    }
  }

  lemma {:induction false} RunSnoc(rows: seq<Row>, i: nat)
    requires i < |rows| && Run(INITIAL, rows[..i]).Ok?
    ensures Valid(Run(INITIAL, rows[..i]).value)
    ensures Run(INITIAL, rows[..i + 1]) == Step(Run(INITIAL, rows[..i]).value, rows[i])
    ensures Step(Run(INITIAL, rows[..i]).value, rows[i]).Err? ==> Run(INITIAL, rows) == Run(INITIAL, rows[..i + 1])
  {
    RunConcat(INITIAL, rows[..i], [rows[i]]);
    assert rows[..i + 1] == rows[..i] + [rows[i]];
    var st := Run(INITIAL, rows[..i]).value;
    var next := Step(st, rows[i]);
    assert Run(st, [rows[i]]) == next by {
      StepValid(st, rows[i]);
      assert [rows[i]][1..] == [];
    }
    if next.Err? {
      RunConcat(INITIAL, rows[..i + 1], rows[i + 1..]);
      assert rows == rows[..i + 1] + rows[i + 1..];
    }
  }

  /** The local variables of parse_excel_data. */
  datatype Vars = Vars(root: Node?, stack: seq<Node>, current: Node?, arrayFlag: bool)

  /** What the parser's variables mean in terms of the machine's state. */
  ghost predicate Tracks(st: State, nodes: set<Node>, chain: seq<Node>, v: Vars)
    reads nodes
  {
    && Valid(st) && v.arrayFlag == st.arrayFlag
    && if st.path == [] then v.root == v.current == null && v.stack == [] && nodes == {} && chain == []
       else Inv(nodes, chain, st.path) && v.root == chain[0] && v.current == Last(chain) && v.stack == chain[st.base..]
  }

  /** A STRUCT row. */
  method ReadStruct(v: Vars, name: string, ghost st: State, ghost nodes: set<Node>, ghost chain: seq<Node>)
    returns (w: Vars, ghost nodes': set<Node>, ghost chain': seq<Node>)
    requires Tracks(st, nodes, chain, v)
    modifies nodes
    ensures fresh(nodes' - nodes)
    ensures Step(st, StructRow(name)).Ok? && Tracks(Step(st, StructRow(name)).value, nodes', chain', w)
  {
    w, nodes', chain' := v, nodes, chain;
    if v.stack == [] {
      var root := new Node(StructNode, name, "", "");
      w := v.(root := root, stack := [root], current := root);
      nodes', chain' := {root}, [root];
      return;
    }
    CurrentHolds(nodes, chain, st.path);
    if v.current.name == name && v.current.kind == StructNode {
      w, chain' := EndStruct(v, name, st, nodes, chain);
    } else {
      w, nodes', chain' := BeginStruct(v, name, st, nodes, chain);
    }
  }

  /** The row repeats the name of the current structure. */
  method EndStruct(v: Vars, name: string, ghost st: State, ghost nodes: set<Node>, ghost chain: seq<Node>)
    returns (w: Vars, ghost chain': seq<Node>)
    requires Tracks(st, nodes, chain, v) && v.stack != [] && Top(st.path).name == name && !Top(st.path).isArray
    modifies nodes
    ensures Step(st, StructRow(name)).Ok? && Tracks(Step(st, StructRow(name)).value, nodes, chain', w)
  {
    w, chain' := v.(stack := v.stack[..|v.stack| - 1]), chain;
    if w.stack != [] {
      w := w.(current := w.stack[|w.stack| - 1]);
      CloseLast(Last(chain), nodes, chain, st.path);
      chain' := chain[..|chain| - 1];
    }
  }

  /** The row opens a structure in the current node. */
  method BeginStruct(v: Vars, name: string, ghost st: State, ghost nodes: set<Node>, ghost chain: seq<Node>)
    returns (w: Vars, ghost nodes': set<Node>, ghost chain': seq<Node>)
    requires Tracks(st, nodes, chain, v) && v.stack != [] && (Top(st.path).name != name || Top(st.path).isArray)
    modifies nodes
    ensures fresh(nodes' - nodes)
    ensures Step(st, StructRow(name)).Ok? && Tracks(Step(st, StructRow(name)).value, nodes', chain', w)
  {
    var node := new Node(StructNode, name, "", "");
    OpenNew(v.current, node, nodes, chain, st.path);
    w := v.(stack := v.stack + [node], current := node);
    nodes', chain' := nodes + {node}, chain + [node];
  }

  /** An ARRAY row. */
  method ReadArray(v: Vars, name: string, ghost st: State, ghost nodes: set<Node>, ghost chain: seq<Node>)
    returns (w: Vars, crash: Option<Crash>, ghost nodes': set<Node>, ghost chain': seq<Node>)
    requires Tracks(st, nodes, chain, v)
    modifies nodes
    ensures fresh(nodes' - nodes)
    ensures match Step(st, ArrayRow(name))
            case Err(e) => crash == Some(e)
            case Ok(next) => crash == None && Tracks(next, nodes', chain', w)
  {
    w, crash, nodes', chain' := v, None, nodes, chain;
    if v.current == null {
      crash := Some(NoCurrent);
      return;
    }
    CurrentHolds(nodes, chain, st.path);
    if v.current.name == name && v.current.kind == ArrayNode {
      if |v.stack| <= 1 {
        crash := Some(EmptyStack);
        return;
      }
      w := w.(stack := v.stack[..|v.stack| - 1]);
      w := w.(current := w.stack[|w.stack| - 1], arrayFlag := false);
      CloseLast(Last(chain), nodes, chain, st.path);
      chain' := chain[..|chain| - 1];
    } else {
      var node := new Node(ArrayNode, name, "", "");
      OpenNew(v.current, node, nodes, chain, st.path);
      w := w.(stack := v.stack + [node], current := node, arrayFlag := true);
      nodes', chain' := nodes + {node}, chain + [node];
    }
  }

  /** A row of any other type. */
  method ReadLeaf(v: Vars, row: Row, ghost st: State, ghost nodes: set<Node>, ghost chain: seq<Node>)
    returns (crash: Option<Crash>, ghost nodes': set<Node>)
    requires Tracks(st, nodes, chain, v) && row.LeafRow?
    modifies nodes
    ensures fresh(nodes' - nodes)
    ensures match Step(st, row)
            case Err(e) => crash == Some(e)
            case Ok(next) => crash == None && Tracks(next, nodes', chain, v)
  {
    crash, nodes' := None, nodes;
    if v.current == null {
      crash := Some(NoCurrent);
      return;
    }
    CurrentHolds(nodes, chain, st.path);
    var leaf := new Node(LeafNode, row.name, row.fieldType, row.length);
    crash, nodes' := ReadNewLeaf(v, leaf, st, nodes, chain);
  }

  /** The new leaf, under the current node or wrapped in array mode. */
  method ReadNewLeaf(v: Vars, leaf: Node, ghost st: State, ghost nodes: set<Node>, ghost chain: seq<Node>)
    returns (crash: Option<Crash>, ghost nodes': set<Node>)
    requires Tracks(st, nodes, chain, v) && v.current != null
    requires leaf !in nodes && leaf.Consistent() && leaf.children == [] && leaf.field.Leaf?
    modifies nodes, leaf
    ensures fresh(nodes' - nodes - {leaf})
    ensures match StepLeaf(st, old(leaf.field))
            case Err(e) => crash == Some(e)
            case Ok(next) => crash == None && Tracks(next, nodes', chain, v)
  {
    crash, nodes' := None, nodes;
    if !v.arrayFlag {
      AppendNew(v.current, leaf, nodes, chain, st.path);
      nodes' := nodes + {leaf};
    } else {
      crash, nodes' := AppendWrapped(v.current, leaf, nodes, chain, st.path);
    }
  }

  /** A leaf in array mode goes into the last child of the current node, an unnamed structure at first. */
  method AppendWrapped(current: Node, leaf: Node, ghost nodes: set<Node>, ghost chain: seq<Node>, ghost path: seq<Frame>)
    returns (crash: Option<Crash>, ghost nodes': set<Node>)
    requires Inv(nodes, chain, path) && current == Last(chain)
    requires leaf !in nodes && leaf.Consistent() && leaf.children == []
    modifies nodes, leaf
    ensures fresh(nodes' - nodes - {leaf})
    ensures |chain| == |path| > 0
    ensures var kids := Last(path).children;
            if kids == [] then crash == None && Inv(nodes', chain, Append(path, Unnamed([leaf.field])))
            else if Last(kids).Leaf? then crash == Some(NoChildren)
            else crash == None && Inv(nodes', chain, GrownPath(path, leaf.field))
    ensures leaf.field == old(leaf.field)
  {
    crash, nodes' := None, nodes;
    CurrentHolds(nodes, chain, path);
    if current.children == [] {
      nodes' := AppendUnnamed(current, leaf, nodes, chain, path);
      return;
    }
    var last := current.children[|current.children| - 1];
    OffChain(nodes, chain, last);
    assert last.Consistent() && Last(Last(path).children) == last.field;
    if last.kind == LeafNode {
      crash := Some(NoChildren);
      return;
    }
    GrowLast(current, leaf, nodes, chain, path);
    nodes' := nodes + {leaf};
  }

  /** The first leaf of an array: its unnamed structure is made first. */
  method AppendUnnamed(current: Node, leaf: Node, ghost nodes: set<Node>, ghost chain: seq<Node>, ghost path: seq<Frame>)
    returns (ghost nodes': set<Node>)
    requires Inv(nodes, chain, path) && current == Last(chain) && current.children == []
    requires leaf !in nodes && leaf.Consistent() && leaf.children == []
    modifies current, leaf
    ensures fresh(nodes' - nodes - {leaf}) && leaf.field == old(leaf.field)
    ensures |chain| == |path| && Inv(nodes', chain, Append(path, Unnamed([leaf.field])))
  {
    CurrentHolds(nodes, chain, path);
    var unnamed := new Node(UnnamedNode, "", "", "");
    AppendNew(current, unnamed, nodes, chain, path);
    WrappedTwice(path, leaf.field);
    assert current.children[|current.children| - 1] == unnamed;
    GrowLast(current, leaf, nodes + {unnamed}, chain, Append(path, Unnamed([])));
    nodes' := nodes + {unnamed} + {leaf};
  }

  lemma {:induction false} WrappedTwice(path: seq<Frame>, leaf: Field)
    requires path != [] && Last(path).children == []
    ensures Last(Append(path, Unnamed([]))).children == [Unnamed([])]
    ensures GrownPath(Append(path, Unnamed([])), leaf) == Append(path, Unnamed([leaf]))
  {
    var longer := Append(path, Unnamed([]));
    assert longer[..|path| - 1] == path[..|path| - 1];
    assert [Unnamed([])][..0] + [Unnamed([leaf])] == [] + [Unnamed([leaf])];
    assert [] + [leaf] == [leaf];
  }

  /** parse_excel_data: a crash, or the root of objects that stand for the parsed tree. A sheet that spells the
    * listing of a tree that reads back gives objects for that tree. */
  method ParseExcelData(excelRows: seq<RawRow>) returns (root: Node?, crash: Option<Crash>, ghost nodes: set<Node>)
    ensures fresh(nodes)
    ensures forall rows :: Spelling(excelRows, rows) ==> ParsedTo(rows, root, crash, nodes)
    ensures forall f :: ReadsBack(f) && Spelling(excelRows, Rows(f)) ==>
              crash == None && root != null && Represents(nodes, root, f)
  {
    root, crash, nodes := ReadRows(excelRows);
    forall rows | Spelling(excelRows, rows) ensures ParsedTo(rows, root, crash, nodes) {
      ClassifyAllIff(excelRows, rows);
    }
    forall f | ReadsBack(f) && Spelling(excelRows, Rows(f))
      ensures crash == None && root != null && Represents(nodes, root, f)
    {
      SheetIff(excelRows, f);
    }
  }

  /** The outcome that the machine gives for these rows. */
  ghost predicate ParsedTo(rows: seq<Row>, root: Node?, crash: Option<Crash>, nodes: set<Node>)
    reads nodes
  {
    match Parse(rows)
    case Err(e) => crash == Some(e)
    case Ok(None) => crash == None && root == null
    case Ok(Some(f)) => crash == None && root != null && Represents(nodes, root, f)
  }

  /** Its loop over the rows. */
  method ReadRows(excelRows: seq<RawRow>) returns (root: Node?, crash: Option<Crash>, ghost nodes: set<Node>)
    ensures fresh(nodes)
    ensures ParsedTo(ClassifyAll(excelRows), root, crash, nodes)
  {
    root, crash, nodes := null, None, {};
    var v := Vars(null, [], null, false);
    ghost var rows := ClassifyAll(excelRows);
    ghost var st := INITIAL;
    ghost var chain: seq<Node> := [];
    for i := 0 to |excelRows|
      invariant Run(INITIAL, rows[..i]) == Ok(st)
      invariant fresh(nodes) && crash == None
      invariant Tracks(st, nodes, chain, v)
    {
      RunSnoc(rows, i);
      var row := Classify(excelRows[i]);
      match row {
        case StructRow(name) =>
          v, nodes, chain := ReadStruct(v, name, st, nodes, chain);
        case ArrayRow(name) =>
          v, crash, nodes, chain := ReadArray(v, name, st, nodes, chain);
        case LeafRow(_, _, _) =>
          crash, nodes := ReadLeaf(v, row, st, nodes, chain);
      }
      if crash != None {
        return;
      }
      st := Step(st, row).value;
    }
    assert rows[..|rows|] == rows;
    root := v.root;
    if st.path != [] {
      Finish(nodes, chain, st.path);
    }
  }
}
