/** The stack machine of the interface-document parser (common/api_doc_convert.py).
  *
  * Rows are read one by one.  A STRUCT or ARRAY row opens a node, unless it repeats the name of the
  * current node of the same kind, which it closes.  After an ARRAY row opens, leaf rows go into an
  * unnamed structure inside the current node until an array closes (`array_flag`).
  */
module ApiDocMachine {
  import opened Options
  import PyText

  /** One spreadsheet row as read from the file; the Chinese name is not used by the parser. */
  datatype RawRow = RawRow(name: string, fieldType: string, length: string)

  /** A row by what its type column says, whatever the case of its letters. */
  datatype Row = StructRow(name: string) | ArrayRow(name: string) | LeafRow(name: string, fieldType: string, length: string)

  function Classify(raw: RawRow): Row {
    var t := PyText.Upper(raw.fieldType);
    if t == "STRUCT" then StructRow(raw.name)
    else if t == "ARRAY" then ArrayRow(raw.name)
    else LeafRow(raw.name, raw.fieldType, raw.length)
  }

  /** The parsed tree.  Unnamed is the structure the parser puts inside an array by itself. */
  datatype Field =
    | Leaf(name: string, fieldType: string, length: string)
    | Struct(name: string, children: seq<Field>)
    | Array(name: string, children: seq<Field>)
    | Unnamed(children: seq<Field>)

  /** A node on the way from the root to the current node. */
  datatype Frame = Frame(isArray: bool, name: string, children: seq<Field>)

  /** `path` leads from the root to the current node; each node is the last child of the one before.
    * The Python stack is path[base..]: closing the root empties the stack and leaves it current. */
  datatype State = State(path: seq<Frame>, base: nat, arrayFlag: bool)

  const INITIAL := State([], 0, false)

  /** The exceptions of malformed listings: None used as a node, an empty stack, a leaf without children. */
  datatype Crash = NoCurrent | EmptyStack | NoChildren

  ghost predicate Valid(st: State) {
    st.base <= |st.path|
  }

  function Top(path: seq<Frame>): Frame
    requires path != []
  {
    path[|path| - 1]
  }

  function Close(f: Frame): Field {
    if f.isArray then Array(f.name, f.children) else Struct(f.name, f.children)
  }

  function AddChild(f: Frame, c: Field): Frame {
    f.(children := f.children + [c])
  }

  /** The path with a child added to the current node. */
  function Append(path: seq<Frame>, c: Field): (r: seq<Frame>)
    requires path != []
    ensures |r| == |path|
  {
    path[..|path| - 1] + [AddChild(Top(path), c)]
  }

  /** The current node becomes an ordinary last child of its parent. */
  function Pop(path: seq<Frame>): (r: seq<Frame>)
    requires |path| > 1
    ensures |r| == |path| - 1
  {
    Append(path[..|path| - 1], Close(Top(path)))
  }

  function Step(st: State, row: Row): Result<State, Crash>
    requires Valid(st)
  {
    match row
    case StructRow(name) => StepStruct(st, name)
    case ArrayRow(name) => StepArray(st, name)
    case LeafRow(name, fieldType, length) => StepLeaf(st, Leaf(name, fieldType, length))
  }

  function StepStruct(st: State, name: string): Result<State, Crash>
    requires Valid(st)
  {
    if st.base == |st.path| then Ok(State([Frame(false, name, [])], 0, st.arrayFlag))
    else if Top(st.path).name == name && !Top(st.path).isArray then
      if st.base + 1 == |st.path| then Ok(st.(base := |st.path|))
      else Ok(st.(path := Pop(st.path)))
    else Ok(st.(path := st.path + [Frame(false, name, [])]))
  }

  function StepArray(st: State, name: string): Result<State, Crash>
    requires Valid(st)
  {
    if st.path == [] then Err(NoCurrent)
    else if Top(st.path).name == name && Top(st.path).isArray then
      if st.base + 1 >= |st.path| then Err(EmptyStack)
      else Ok(State(Pop(st.path), st.base, false))
    else Ok(State(st.path + [Frame(true, name, [])], st.base, true))
  }

  function StepLeaf(st: State, leaf: Field): Result<State, Crash>
    requires Valid(st)
  {
    if st.path == [] then Err(NoCurrent)
    else if !st.arrayFlag then Ok(st.(path := Append(st.path, leaf)))
    else
      var kids := Top(st.path).children;
      if kids == [] then Ok(st.(path := Append(st.path, Unnamed([leaf]))))
      else if kids[|kids| - 1].Leaf? then Err(NoChildren)
      else
        var last := kids[|kids| - 1];
        var grown := last.(children := last.children + [leaf]);
        Ok(st.(path := st.path[..|st.path| - 1] + [Top(st.path).(children := kids[..|kids| - 1] + [grown])]))
  }

  lemma {:induction false} StepValid(st: State, row: Row)
    requires Valid(st)
    ensures Step(st, row).Ok? ==> Valid(Step(st, row).value)
  {
  }

  /** All rows from a state. */
  function Run(st: State, rows: seq<Row>): Result<State, Crash>
    requires Valid(st)
    decreases |rows|
  {
    if rows == [] then Ok(st)
    else
      var next := Step(st, rows[0]);
      StepValid(st, rows[0]);
      if next.Err? then next else Run(next.value, rows[1..])
  }

  /** The tree the current state has built: every node of the path inside the one before. */
  function Collapse(path: seq<Frame>): Field
    requires path != []
    decreases |path|
  {
    if |path| == 1 then Close(path[0]) else Collapse(Pop(path))
  }

  /** parse_excel_data: no tree for an empty listing. */
  function Parse(rows: seq<Row>): Result<Option<Field>, Crash> {
    var end := Run(INITIAL, rows);
    if end.Err? then Err(end.error)
    else if end.value.path == [] then Ok(None)
    else Ok(Some(Collapse(end.value.path)))
  }

  lemma {:induction false} RunConcat(st: State, a: seq<Row>, b: seq<Row>)
    requires Valid(st)
    ensures Run(st, a).Ok? ==> Valid(Run(st, a).value)
    ensures Run(st, a + b) == if Run(st, a).Ok? then Run(Run(st, a).value, b) else Run(st, a)
    decreases |a|
  {
    if a == [] {
      assert a + b == b;
    } else {
      StepValid(st, a[0]);
      assert (a + b)[1..] == a[1..] + b;
      if Step(st, a[0]).Ok? {
        RunConcat(Step(st, a[0]).value, a[1..], b);
      }
    }
  }

  // ---------------------------------------------------------------- listings

  predicate Leaves(fs: seq<Field>) {
    forall i :: 0 <= i < |fs| ==> fs[i].Leaf?
  }

  /** The children an array can have when it was listed with leaf rows only. */
  predicate ArrayBody(fs: seq<Field>) {
    fs == [] || (|fs| == 1 && fs[0].Unnamed? && fs[0].children != [] && Leaves(fs[0].children))
  }

  /** Trees of leaves, structures, and arrays of leaves. */
  predicate Shaped(f: Field) {
    match f
    case Leaf(_, _, _) => true
    case Struct(_, cs) => forall i :: 0 <= i < |cs| ==> Shaped(cs[i])
    case Array(_, cs) => ArrayBody(cs)
    case Unnamed(_) => false
  }

  /** The listing of a tree: opening row, children, closing row. The unnamed structure has no rows of its own. */
  function Rows(f: Field): seq<Row> {
    match f
    case Leaf(n, t, l) => [LeafRow(n, t, l)]
    case Struct(n, cs) => [StructRow(n)] + AllRows(cs) + [StructRow(n)]
    case Array(n, cs) => [ArrayRow(n)] + AllRows(cs) + [ArrayRow(n)]
    case Unnamed(cs) => AllRows(cs)
  }

  function AllRows(fs: seq<Field>): seq<Row> {
    if fs == [] then [] else AllRows(fs[..|fs| - 1]) + Rows(fs[|fs| - 1])
  }

  // ---------------------------------------------------------------- trees that read back

  /** The array mode after the rows of a field. */
  function ModeAfter(f: Field, mode: bool): bool {
    match f
    case Struct(_, cs) => ModeAfterAll(cs, mode)
    case Array(_, _) => false
    case _ => mode
  }

  function ModeAfterAll(fs: seq<Field>, mode: bool): bool {
    if fs == [] then mode else ModeAfter(fs[|fs| - 1], ModeAfterAll(fs[..|fs| - 1], mode))
  }

  /** A field that reads back in the array mode, in a node of this opening row, as its first child or a later
    * one: no structure is named like the structure it is directly in, and no array like the array; leaves are
    * outside the array mode, or first in it, in the unnamed structure. */
  predicate Fits(parent: Row, first: bool, f: Field, mode: bool)
    decreases f
  {
    match f
    case Leaf(_, _, _) => !mode
    case Struct(n, cs) => StructRow(n) != parent && KidsFit(StructRow(n), cs, mode)
    case Array(n, cs) => ArrayRow(n) != parent && KidsFit(ArrayRow(n), cs, true)
    case Unnamed(cs) => mode && first && cs != [] && Leaves(cs)
  }

  predicate KidsFit(parent: Row, fs: seq<Field>, mode: bool)
    decreases fs
  {
    fs == [] || (var k := |fs| - 1;
                 KidsFit(parent, fs[..k], mode) && Fits(parent, k == 0, fs[k], ModeAfterAll(fs[..k], mode)))
  }

  /** A tree that reads back. */
  predicate ReadsBack(f: Field) {
    f.Struct? && KidsFit(StructRow(f.name), f.children, false)
  }

  // ---------------------------------------------------------------- listing, then parsing

  function EdgeRow(f: Frame): Row {
    if f.isArray then ArrayRow(f.name) else StructRow(f.name)
  }

  /** The current node with more children. */
  function WithChildren(st: State, fs: seq<Field>): State
    requires st.path != []
  {
    st.(path := st.path[..|st.path| - 1] + [Top(st.path).(children := Top(st.path).children + fs)])
  }

  /** The same after reading them, which sets the array mode. */
  function Having(st: State, fs: seq<Field>): State
    requires st.path != []
  {
    WithChildren(st, fs).(arrayFlag := ModeAfterAll(fs, st.arrayFlag))
  }

  /** Inside an open node. */
  predicate Inside(st: State) {
    st.base < |st.path|
  }

  lemma {:induction false} NoMore(st: State)
    requires st.path != []
    ensures Having(st, []) == st
  {
    assert Top(st.path).children + [] == Top(st.path).children;
    assert st.path == st.path[..|st.path| - 1] + [Top(st.path)];
  }

  lemma {:induction false} ModeSnoc(fs: seq<Field>, f: Field, mode: bool)
    ensures ModeAfterAll(fs + [f], mode) == ModeAfter(f, ModeAfterAll(fs, mode))
    ensures ModeAfterAll([f], mode) == ModeAfter(f, mode)
  {
    assert (fs + [f])[..|fs|] == fs && [f][..0] == [];
  }

  lemma {:induction false} OneMore(st: State, fs: seq<Field>, f: Field)
    requires st.path != []
    ensures Having(Having(st, fs), [f]) == Having(st, fs + [f])
  {
    var next := Having(st, fs);
    assert next.path[..|next.path| - 1] == st.path[..|st.path| - 1];
    assert Top(st.path).children + fs + [f] == Top(st.path).children + (fs + [f]);
    ModeSnoc(fs, f, st.arrayFlag);
    ModeSnoc(fs, f, ModeAfterAll(fs, st.arrayFlag));
  }

  /** The first leaves in array mode. */
  lemma {:induction false} RunLeaves(st: State, fs: seq<Field>)
    requires Valid(st) && Inside(st) && st.arrayFlag && Leaves(fs) && Top(st.path).children == [] && fs != []
    ensures Run(st, AllRows(fs)) == Ok(WithChildren(st, [Unnamed(fs)]))
    decreases |fs|
  {
    var k := |fs| - 1;
    var row := LeafRow(fs[k].name, fs[k].fieldType, fs[k].length);
    assert fs == fs[..k] + [fs[k]];
    if k == 0 {
      RunOne(st, row, WithChildren(st, [Unnamed(fs)]));
      assert AllRows(fs[..0]) == [] && [] + [row] == [row];
    } else {
      RunLeaves(st, fs[..k]);
      var next := WithChildren(st, [Unnamed(fs[..k])]);
      LeafGrows(st, fs[..k], fs[k]);
      RunOne(next, row, WithChildren(st, [Unnamed(fs)]));
      RunConcat(st, AllRows(fs[..k]), [row]);
    }
  }

  lemma {:induction false} LeafGrows(st: State, fs: seq<Field>, leaf: Field)
    requires Valid(st) && Inside(st) && st.arrayFlag && Top(st.path).children == [] && leaf.Leaf?
    ensures StepLeaf(WithChildren(st, [Unnamed(fs)]), leaf) == Ok(WithChildren(st, [Unnamed(fs + [leaf])]))
  {
    var kids := [Unnamed(fs)];
    assert [] + kids == kids && kids[..0] + [Unnamed(fs + [leaf])] == [] + [Unnamed(fs + [leaf])];
  }

  lemma {:induction false} RunOne(st: State, row: Row, next: State)
    requires Valid(st) && Step(st, row) == Ok(next)
    ensures Run(st, [row]) == Ok(next)
  {
    StepValid(st, row);
    assert [row][1..] == [];
  }

  /** From any context: the rows of a field that fits add exactly that field to the current node, restore the
    * stack and leave the array mode as the field says. */
  lemma {:induction false} FieldRoundTrip(st: State, f: Field)
    requires Valid(st) && Inside(st) && Fits(EdgeRow(Top(st.path)), Top(st.path).children == [], f, st.arrayFlag)
    ensures Run(st, Rows(f)) == Ok(Having(st, [f]))
    decreases f, 0
  {
    ModeSnoc([], f, st.arrayFlag);
    match f
    case Leaf(n, t, l) =>
      RunOne(st, LeafRow(n, t, l), WithChildren(st, [f]));
    case Unnamed(cs) =>
      RunLeaves(st, cs);
    case Struct(n, cs) => {
      ChildrenRoundTrip(Opened(st, StructRow(n)), cs);
      NodeThrough(st, f);
    }
    case Array(n, cs) => {
      ChildrenRoundTrip(Opened(st, ArrayRow(n)), cs);
      NodeThrough(st, f);
    }
  }

  /** In a node that has just opened. */
  function Opened(st: State, row: Row): State
    requires !row.LeafRow?
  {
    State(st.path + [Frame(row.ArrayRow?, row.name, [])], st.base, row.ArrayRow? || st.arrayFlag)
  }

  lemma {:induction false} OpenRow(st: State, row: Row)
    requires Valid(st) && Inside(st) && !row.LeafRow? && EdgeRow(Top(st.path)) != row
    ensures Step(st, row) == Ok(Opened(st, row))
  {
  }

  lemma {:induction false} CloseRow(st: State, outer: State, row: Row, kids: seq<Field>)
    requires Valid(st) && Inside(outer) && st.path != [] && st.base == outer.base && !row.LeafRow?
    requires st.path == outer.path + [Frame(row.ArrayRow?, row.name, kids)]
    ensures var f := if row.ArrayRow? then Array(row.name, kids) else Struct(row.name, kids);
            Step(st, row) == Ok(WithChildren(outer, [f]).(arrayFlag := row.StructRow? && st.arrayFlag))
  {
    assert st.path[..|st.path| - 1] == outer.path;
  }

  lemma {:induction false} NodeThrough(st: State, f: Field)
    requires Valid(st) && Inside(st) && (f.Struct? || f.Array?)
    requires var row := if f.Array? then ArrayRow(f.name) else StructRow(f.name);
             && EdgeRow(Top(st.path)) != row
             && Run(Opened(st, row), AllRows(f.children)) == Ok(Having(Opened(st, row), f.children))
    ensures Run(st, Rows(f)) == Ok(WithChildren(st, [f]).(arrayFlag := ModeAfter(f, st.arrayFlag)))
  {
    var row := if f.Array? then ArrayRow(f.name) else StructRow(f.name);
    var inner := Opened(st, row);
    var after := Having(inner, f.children);
    OpenRow(st, row);
    assert [] + f.children == f.children;
    assert inner.path[..|inner.path| - 1] == st.path;
    CloseRow(after, st, row, f.children);
    RunThrough(st, row, inner, AllRows(f.children), after,
               WithChildren(st, [f]).(arrayFlag := ModeAfter(f, st.arrayFlag)));
  }

  /** An opening row, a body, the same row again. */
  lemma {:induction false} RunThrough(st: State, row: Row, inner: State, body: seq<Row>, after: State, end: State)
    requires Valid(st) && Valid(inner) && Valid(after)
    requires Step(st, row) == Ok(inner) && Run(inner, body) == Ok(after) && Step(after, row) == Ok(end)
    ensures Run(st, [row] + body + [row]) == Ok(end)
  {
    RunOne(after, row, end);
    RunConcat(inner, body, [row]);
    assert ([row] + body + [row])[1..] == body + [row];
  }

  /** And the rows of a list of fields, in a node without children. */
  lemma {:induction false} ChildrenRoundTrip(st: State, fs: seq<Field>)
    requires Valid(st) && Inside(st) && Top(st.path).children == []
    requires KidsFit(EdgeRow(Top(st.path)), fs, st.arrayFlag)
    ensures Run(st, AllRows(fs)) == Ok(Having(st, fs))
    decreases fs, 1
  {
    if fs == [] {
      NoMore(st);
    } else {
      var k := |fs| - 1;
      NextFits(st, fs, k);
      ChildrenRoundTrip(st, fs[..k]);
      FieldRoundTrip(Having(st, fs[..k]), fs[k]);
      RunBoth(st, fs[..k], fs[k]);
      assert fs[..k] + [fs[k]] == fs;
    }
  }

  lemma {:induction false} HavingIs(st: State, fs: seq<Field>)
    requires Valid(st) && Inside(st) && Top(st.path).children == []
    ensures var next := Having(st, fs);
            && Valid(next) && Inside(next) && Top(next.path).children == fs
            && EdgeRow(Top(next.path)) == EdgeRow(Top(st.path)) && next.arrayFlag == ModeAfterAll(fs, st.arrayFlag)
  {
    assert [] + fs == fs;
  }

  lemma {:induction false} NextFits(st: State, fs: seq<Field>, k: nat)
    requires Valid(st) && Inside(st) && Top(st.path).children == []
    requires k == |fs| - 1 && KidsFit(EdgeRow(Top(st.path)), fs, st.arrayFlag)
    ensures KidsFit(EdgeRow(Top(st.path)), fs[..k], st.arrayFlag)
    ensures var next := Having(st, fs[..k]);
            && Valid(next) && Inside(next)
            && Fits(EdgeRow(Top(next.path)), Top(next.path).children == [], fs[k], next.arrayFlag)
  {
    HavingIs(st, fs[..k]);
  }

  lemma {:induction false} RunBoth(st: State, fs: seq<Field>, f: Field)
    requires Valid(st) && st.path != [] && Run(st, AllRows(fs)) == Ok(Having(st, fs))
    requires Valid(Having(st, fs)) && Run(Having(st, fs), Rows(f)) == Ok(Having(Having(st, fs), [f]))
    ensures Run(st, AllRows(fs + [f])) == Ok(Having(st, fs + [f]))
  {
    RunConcat(st, AllRows(fs), Rows(f));
    OneMore(st, fs, f);
    AllRowsSnoc(fs, f);
  }

  lemma {:induction false} AllRowsSnoc(fs: seq<Field>, f: Field)
    ensures AllRows(fs + [f]) == AllRows(fs) + Rows(f)
  {
    assert (fs + [f])[..|fs|] == fs;
  }

  /** Parsing the listing of such a tree gives the tree, with the stack empty at the end. */
  lemma {:induction false} ListThenParse(f: Field)
    requires ReadsBack(f)
    ensures Run(INITIAL, Rows(f)) == Ok(State([Frame(false, f.name, f.children)], 1, ModeAfter(f, false)))
    ensures Parse(Rows(f)) == Ok(Some(f))
  {
    var row := StructRow(f.name);
    var inner := State([Frame(false, f.name, [])], 0, false);
    ChildrenRoundTrip(inner, f.children);
    var after := State([Frame(false, f.name, f.children)], 0, ModeAfter(f, false));
    RootRead(inner, f.children, after);
    RunThrough(INITIAL, row, inner, AllRows(f.children), after, after.(base := 1));
  }

  lemma {:induction false} RootRead(st: State, fs: seq<Field>, after: State)
    requires |st.path| == 1 && Top(st.path).children == []
    requires after == State([st.path[0].(children := fs)], st.base, ModeAfterAll(fs, st.arrayFlag))
    ensures Having(st, fs) == after
  {
    assert [] + fs == fs;
  }
}
