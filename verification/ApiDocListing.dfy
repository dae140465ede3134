/** When parsing a listing gives back the listed tree, and when a parsed tree lists the rows it was parsed from:
  * one direction of the first is ApiDocMachine.ListThenParse; this module proves the others by reading the
  * parser's path back as the rows that built it. */
module ApiDocListing {
  import opened Options
  import opened ApiDocMachine

  // ---------------------------------------------------------------- the rows behind a path

  /** The rows of the tree under construction, up to the closing rows of its open nodes. */
  function OpenRows(path: seq<Frame>): seq<Row> {
    if path == [] then [] else OpenRows(path[..|path| - 1]) + ([EdgeRow(Top(path))] + AllRows(Top(path).children))
  }

  lemma {:induction false} KidsRows(path: seq<Frame>, kids: seq<Field>)
    requires path != []
    ensures OpenRows(path[..|path| - 1] + [Top(path).(children := kids)])
            == OpenRows(path[..|path| - 1]) + ([EdgeRow(Top(path))] + AllRows(kids))
  {
    var changed := path[..|path| - 1] + [Top(path).(children := kids)];
    assert changed[..|changed| - 1] == path[..|path| - 1];
  }

  lemma {:induction false} NewKids(path: seq<Frame>, kids: seq<Field>, more: seq<Row>)
    requires path != [] && AllRows(kids) == AllRows(Top(path).children) + more
    ensures OpenRows(path[..|path| - 1] + [Top(path).(children := kids)]) == OpenRows(path) + more
  {
    KidsRows(path, kids);
  }

  lemma {:induction false} AppendRows(path: seq<Frame>, c: Field)
    requires path != []
    ensures OpenRows(Append(path, c)) == OpenRows(path) + Rows(c)
  {
    AllRowsSnoc(Top(path).children, c);
    NewKids(path, Top(path).children + [c], Rows(c));
  }

  lemma {:induction false} PushRows(path: seq<Frame>, f: Frame)
    requires f.children == []
    ensures OpenRows(path + [f]) == OpenRows(path) + [EdgeRow(f)]
  {
    assert (path + [f])[..|path|] == path;
  }

  lemma {:induction false} PopRows(path: seq<Frame>)
    requires |path| > 1
    ensures OpenRows(Pop(path)) == OpenRows(path) + [EdgeRow(Top(path))]
  {
    AppendRows(path[..|path| - 1], Close(Top(path)));
    CloseRows(Top(path));
  }

  lemma {:induction false} CloseRows(f: Frame)
    ensures Rows(Close(f)) == [EdgeRow(f)] + AllRows(f.children) + [EdgeRow(f)]
  {
  }

  /** The field with one more leaf. */
  function WithLeaf(f: Field, leaf: Field): Field
    requires !f.Leaf?
  {
    f.(children := f.children + [leaf])
  }

  /** A leaf in array mode goes into the last child of the current node. */
  function Grown(path: seq<Frame>, leaf: Field): seq<Frame>
    requires path != [] && Top(path).children != [] && !Top(path).children[|Top(path).children| - 1].Leaf?
  {
    var kids := Top(path).children;
    path[..|path| - 1] + [Top(path).(children := kids[..|kids| - 1] + [WithLeaf(kids[|kids| - 1], leaf)])]
  }

  function BeforeLast(rows: seq<Row>, row: Row): seq<Row>
    requires rows != []
  {
    rows[..|rows| - 1] + [row, rows[|rows| - 1]]
  }

  /** In the unnamed structure the leaf is listed last; in a closed node, before its closing row. */
  lemma {:induction false} WithLeafRows(f: Field, leaf: Field)
    requires !f.Leaf? && leaf.Leaf?
    ensures f.Unnamed? ==> Rows(WithLeaf(f, leaf)) == Rows(f) + Rows(leaf)
    ensures !f.Unnamed? ==> Rows(f) != [] && !Rows(f)[|Rows(f)| - 1].LeafRow?
    ensures !f.Unnamed? ==> Rows(WithLeaf(f, leaf)) == BeforeLast(Rows(f), Rows(leaf)[0])
  {
    AllRowsSnoc(f.children, leaf);
  }

  lemma {:induction false} BeforeLastOf(a: seq<Row>, b: seq<Row>, row: Row)
    requires b != []
    ensures BeforeLast(a + b, row) == a + BeforeLast(b, row)
  {
  }

  /** The rows before the last child of the current node, when the other children are these. */
  function RowsBefore(path: seq<Frame>, kids: seq<Field>): seq<Row>
    requires path != []
  {
    OpenRows(path[..|path| - 1]) + ([EdgeRow(Top(path))] + AllRows(kids))
  }

  lemma {:induction false} LastKidRows(path: seq<Frame>, kids: seq<Field>, last: Field)
    requires path != []
    ensures OpenRows(path[..|path| - 1] + [Top(path).(children := kids + [last])]) == RowsBefore(path, kids) + Rows(last)
  {
    KidsRows(path, kids + [last]);
    AllRowsSnoc(kids, last);
    RowsAssoc(OpenRows(path[..|path| - 1]), [EdgeRow(Top(path))], AllRows(kids), Rows(last));
  }

  lemma {:induction false} RowsAssoc(a: seq<Row>, b: seq<Row>, c: seq<Row>, d: seq<Row>)
    ensures a + (b + (c + d)) == a + (b + c) + d
  {
  }

  lemma {:induction false} GrownRows(path: seq<Frame>, leaf: Field)
    requires path != [] && Top(path).children != [] && leaf.Leaf?
    requires !Top(path).children[|Top(path).children| - 1].Leaf?
    ensures var open := OpenRows(path);
            if Top(path).children[|Top(path).children| - 1].Unnamed? then OpenRows(Grown(path, leaf)) == open + Rows(leaf)
            else open != [] && !open[|open| - 1].LeafRow? && OpenRows(Grown(path, leaf)) == BeforeLast(open, Rows(leaf)[0])
  {
    var kids := Top(path).children;
    var first, last := kids[..|kids| - 1], kids[|kids| - 1];
    assert kids == first + [last] && path == path[..|path| - 1] + [Top(path).(children := first + [last])];
    LastKidRows(path, first, last);
    LastKidRows(path, first, WithLeaf(last, leaf));
    GrownAfter(RowsBefore(path, first), last, leaf);
  }

  lemma {:induction false} GrownAfter(before: seq<Row>, last: Field, leaf: Field)
    requires !last.Leaf? && leaf.Leaf?
    ensures var open, grown := before + Rows(last), before + Rows(WithLeaf(last, leaf));
            if last.Unnamed? then grown == open + Rows(leaf)
            else open != [] && !open[|open| - 1].LeafRow? && grown == BeforeLast(open, Rows(leaf)[0])
  {
    WithLeafRows(last, leaf);
    if !last.Unnamed? {
      BeforeLastOf(before, Rows(last), Rows(leaf)[0]);
    }
  }

  // ---------------------------------------------------------------- one row

  /** A leaf row that goes into a closed node. */
  predicate Misplaced(st: State, row: Row) {
    && row.LeafRow? && st.arrayFlag && st.path != [] && Top(st.path).children != []
    && var last := Top(st.path).children[|Top(st.path).children| - 1];
       last.Struct? || last.Array?
  }

  predicate ClosesRoot(st: State, row: Row) {
    st.base + 1 == |st.path| && row.StructRow? && EdgeRow(Top(st.path)) == row
  }

  predicate Restarts(st: State, row: Row) {
    st.base == |st.path| && row.StructRow?
  }

  /** What a row does to the rows of the open tree. */
  lemma {:induction false} StepRows(st: State, row: Row)
    requires Valid(st) && st.path != [] && !Restarts(st, row) && Step(st, row).Ok?
    ensures var open, path' := OpenRows(st.path), Step(st, row).value.path;
            if ClosesRoot(st, row) then path' == st.path
            else if Misplaced(st, row) then
              open != [] && !open[|open| - 1].LeafRow? && OpenRows(path') == BeforeLast(open, row)
            else OpenRows(path') == open + [row]
  {
    match row
    case LeafRow(n, t, l) => LeafRowStep(st, row);
    case StructRow(n) =>
      if EdgeRow(Top(st.path)) != row {
        PushRows(st.path, Frame(false, n, []));
      } else if !ClosesRoot(st, row) {
        PopRows(st.path);
      }
    case ArrayRow(n) =>
      if EdgeRow(Top(st.path)) != row {
        PushRows(st.path, Frame(true, n, []));
      } else {
        PopRows(st.path);
      }
  }

  lemma {:induction false} LeafRowStep(st: State, row: Row)
    requires Valid(st) && st.path != [] && row.LeafRow? && Step(st, row).Ok?
    ensures var open, path' := OpenRows(st.path), Step(st, row).value.path;
            if Misplaced(st, row) then
              open != [] && !open[|open| - 1].LeafRow? && OpenRows(path') == BeforeLast(open, row)
            else OpenRows(path') == open + [row]
  {
    var leaf := Leaf(row.name, row.fieldType, row.length);
    if !st.arrayFlag {
      AppendRows(st.path, leaf);
    } else if Top(st.path).children == [] {
      AppendRows(st.path, Unnamed([leaf]));
      AllRowsSnoc([], leaf);
      assert [] + [leaf] == [leaf];
    } else {
      GrownRows(st.path, leaf);
    }
  }

  // ---------------------------------------------------------------- rows that have gone astray

  /** The root is a structure; what is opened after it has closed is an array. */
  predicate Sound(st: State) {
    && st.base <= 1 && st.path != [] && !st.path[0].isArray
    && (st.base == 1 && |st.path| > 1 ==> st.path[1].isArray)
  }

  lemma {:induction false} SoundStep(st: State, row: Row)
    requires Sound(st) && Valid(st) && Step(st, row).Ok?
    ensures Sound(Step(st, row).value)
    ensures st.base == 1 < |st.path| ==> Step(st, row).value.base == 1 < |Step(st, row).value.path|
  {
  }

  /** Somewhere the open tree lists a leaf where the rows read so far have none. */
  ghost predicate Apart(read: seq<Row>, open: seq<Row>) {
    exists p :: 0 <= p < |open| && p < |read| && open[p].LeafRow? && !read[p].LeafRow?
  }

  lemma {:induction false} ApartStays(read: seq<Row>, open: seq<Row>, row: Row)
    requires Apart(read, open)
    ensures Apart(read + [row], open + [row]) && Apart(read + [row], open)
    ensures !open[|open| - 1].LeafRow? ==> Apart(read + [row], BeforeLast(open, row))
  {
    var p :| 0 <= p < |open| && p < |read| && open[p].LeafRow? && !read[p].LeafRow?;
    assert (read + [row])[p] == read[p] && (open + [row])[p] == open[p];
    if !open[|open| - 1].LeafRow? {
      assert BeforeLast(open, row)[p] == open[p];
    }
  }

  /** The rows read so far are not those of the open tree, and never will be: a leaf is in the wrong place, or
    * an earlier root is forgotten, or an array is open behind the closed root. */
  ghost predicate Astray(read: seq<Row>, st: State) {
    && Sound(st) && Valid(st) && |read| >= 2
    && (Apart(read, OpenRows(st.path)) || |OpenRows(st.path)| + 1 < |read| || st.base == 1 < |st.path|)
  }

  lemma {:induction false} AstrayStep(read: seq<Row>, st: State, row: Row)
    requires Astray(read, st) && Step(st, row).Ok?
    ensures Astray(read + [row], Step(st, row).value)
  {
    SoundStep(st, row);
    StepValid(st, row);
    if Restarts(st, row) {
      RestartRows(st, row);
    } else {
      StepRows(st, row);
      if Apart(read, OpenRows(st.path)) {
        ApartStays(read, OpenRows(st.path), row);
      }
    }
  }

  /** A new root forgets the rows before. */
  lemma {:induction false} RestartRows(st: State, row: Row)
    requires Valid(st) && Restarts(st, row)
    ensures Step(st, row).Ok? && OpenRows(Step(st, row).value.path) == [row]
  {
    OneFrame(Frame(false, row.name, []));
  }

  lemma {:induction false} OneFrame(f: Frame)
    requires f.children == []
    ensures OpenRows([f]) == [EdgeRow(f)]
  {
    PushRows([], f);
    assert [] + [f] == [f];
    assert OpenRows([]) == [];
    assert [] + [EdgeRow(f)] == [EdgeRow(f)];
  }

  // ---------------------------------------------------------------- rows in order

  /** The array mode when the current node was opened, and now. */
  function ModeAtTop(path: seq<Frame>): bool
    requires path != []
    decreases |path|, 0
  {
    Top(path).isArray || ModeOf(path[..|path| - 1])
  }

  function ModeOf(path: seq<Frame>): bool
    decreases |path|, 1
  {
    path != [] && ModeAfterAll(Top(path).children, ModeAtTop(path))
  }

  /** Every node of the path has children that read back, and is not closed by the row that opened it. */
  predicate PathFits(path: seq<Frame>) {
    path == [] ||
    var outer := path[..|path| - 1];
    && PathFits(outer) && KidsFit(EdgeRow(Top(path)), Top(path).children, ModeAtTop(path))
    && (outer != [] ==> EdgeRow(Top(path)) != EdgeRow(Top(outer)))
  }

  /** The rows read so far are those of the open tree. */
  predicate InOrder(read: seq<Row>, st: State) {
    && st.base == 0 && Sound(st) && PathFits(st.path) && st.arrayFlag == ModeOf(st.path)
    && read == OpenRows(st.path)
  }

  /** The rows read so far are those of the closed tree. */
  predicate Done(read: seq<Row>, st: State) {
    && st.base == 1 == |st.path| && Sound(st) && PathFits(st.path)
    && read == OpenRows(st.path) + [EdgeRow(st.path[0])]
  }

  lemma {:induction false} KidsFitSnoc(parent: Row, fs: seq<Field>, f: Field, mode: bool)
    requires KidsFit(parent, fs, mode) && Fits(parent, fs == [], f, ModeAfterAll(fs, mode))
    ensures KidsFit(parent, fs + [f], mode)
  {
    assert (fs + [f])[..|fs|] == fs;
  }

  lemma {:induction false} AppendFits(path: seq<Frame>, c: Field)
    requires path != [] && PathFits(path) && Fits(EdgeRow(Top(path)), Top(path).children == [], c, ModeOf(path))
    ensures PathFits(Append(path, c)) && ModeOf(Append(path, c)) == ModeAfter(c, ModeOf(path))
  {
    var path' := Append(path, c);
    assert path'[..|path'| - 1] == path[..|path| - 1];
    KidsFitSnoc(EdgeRow(Top(path)), Top(path).children, c, ModeAtTop(path));
    ModeSnoc(Top(path).children, c, ModeAtTop(path));
  }

  lemma {:induction false} PushFits(path: seq<Frame>, f: Frame)
    requires PathFits(path) && f.children == [] && (path != [] ==> EdgeRow(f) != EdgeRow(Top(path)))
    ensures PathFits(path + [f]) && ModeOf(path + [f]) == (f.isArray || ModeOf(path))
  {
    assert (path + [f])[..|path|] == path;
  }

  lemma {:induction false} PopFits(path: seq<Frame>)
    requires |path| > 1 && PathFits(path)
    ensures PathFits(Pop(path)) && ModeOf(Pop(path)) == (!Top(path).isArray && ModeOf(path))
  {
    AppendFits(path[..|path| - 1], Close(Top(path)));
  }

  lemma {:induction false} GrownFits(path: seq<Frame>, leaf: Field)
    requires path != [] && PathFits(path) && leaf.Leaf? && Top(path).children != []
    requires Top(path).children[|Top(path).children| - 1].Unnamed?
    ensures PathFits(Grown(path, leaf)) && ModeOf(Grown(path, leaf)) == ModeOf(path)
  {
    var kids, mode := Top(path).children, ModeAtTop(path);
    var last := kids[|kids| - 1];
    assert Fits(EdgeRow(Top(path)), |kids| == 1, last, ModeAfterAll(kids[..|kids| - 1], mode));
    assert kids[..|kids| - 1] == [];
    var more := WithLeaf(last, leaf);
    KidsFitSnoc(EdgeRow(Top(path)), [], more, mode);
    ModeSnoc([], more, mode);
    ModeSnoc([], last, mode);
    assert [] + [more] == [more] && kids == [last];
    var path' := Grown(path, leaf);
    assert path'[..|path'| - 1] == path[..|path| - 1] && Top(path').children == [more];
  }

  /** A row that is neither misplaced nor the root's closing row. */
  lemma {:induction false} OrderStep(st: State, row: Row)
    requires Sound(st) && Valid(st) && st.base == 0 && PathFits(st.path) && st.arrayFlag == ModeOf(st.path)
    requires Step(st, row).Ok? && !Misplaced(st, row) && !ClosesRoot(st, row)
    ensures var st' := Step(st, row).value;
            st'.base == 0 && PathFits(st'.path) && st'.arrayFlag == ModeOf(st'.path)
  {
    match row
    case LeafRow(n, t, l) => LeafFits(st, row);
    case StructRow(n) =>
      if EdgeRow(Top(st.path)) != row {
        PushFits(st.path, Frame(false, n, []));
      } else {
        PopFits(st.path);
      }
    case ArrayRow(n) =>
      if EdgeRow(Top(st.path)) != row {
        PushFits(st.path, Frame(true, n, []));
      } else {
        PopFits(st.path);
      }
  }

  lemma {:induction false} LeafFits(st: State, row: Row)
    requires Valid(st) && st.path != [] && PathFits(st.path) && st.arrayFlag == ModeOf(st.path)
    requires row.LeafRow? && Step(st, row).Ok? && !Misplaced(st, row)
    ensures var st' := Step(st, row).value;
            st'.base == st.base && PathFits(st'.path) && st'.arrayFlag == ModeOf(st'.path)
  {
    var leaf := Leaf(row.name, row.fieldType, row.length);
    if !st.arrayFlag {
      AppendFits(st.path, leaf);
    } else if Top(st.path).children == [] {
      AppendFits(st.path, Unnamed([leaf]));
    } else {
      GrownFits(st.path, leaf);
    }
  }

  lemma {:induction false} InOrderStep(read: seq<Row>, st: State, row: Row)
    requires InOrder(read, st) && Step(st, row).Ok?
    ensures var st' := Step(st, row).value;
            if Misplaced(st, row) then Astray(read + [row], st')
            else if ClosesRoot(st, row) then Done(read + [row], st')
            else InOrder(read + [row], st')
  {
    SoundStep(st, row);
    StepRows(st, row);
    StepValid(st, row);
    if Misplaced(st, row) {
      MisplacedApart(read, row);
    } else if !ClosesRoot(st, row) {
      OrderStep(st, row);
    }
  }

  lemma {:induction false} MisplacedApart(read: seq<Row>, row: Row)
    requires read != [] && !read[|read| - 1].LeafRow? && row.LeafRow?
    ensures Apart(read + [row], BeforeLast(read, row))
  {
    var p := |read| - 1;
    assert BeforeLast(read, row)[p] == row && (read + [row])[p] == read[p];
  }

  /** After the root has closed, any row leads astray. */
  lemma {:induction false} DoneStep(read: seq<Row>, st: State, row: Row)
    requires Done(read, st) && Step(st, row).Ok?
    ensures Astray(read + [row], Step(st, row).value)
  {
    var open := OpenRows(st.path);
    SoundStep(st, row);
    StepValid(st, row);
    assert open != [];
    if Restarts(st, row) {
      RestartRows(st, row);
    } else if row.LeafRow? {
      StepRows(st, row);
      DoneApart(open, EdgeRow(st.path[0]), row);
    }
  }

  lemma {:induction false} DoneApart(open: seq<Row>, edge: Row, row: Row)
    requires row.LeafRow? && !edge.LeafRow? && open != []
    ensures Apart(open + [edge] + [row], open + [row])
    ensures !open[|open| - 1].LeafRow? ==> Apart(open + [edge] + [row], BeforeLast(open, row))
  {
    var read, p := open + [edge] + [row], |open| - 1;
    assert read[p] == open[p] && read[p + 1] == edge && (open + [row])[p + 1] == row;
    assert BeforeLast(open, row)[p] == row;
  }

  // ---------------------------------------------------------------- whole runs

  lemma {:induction false} RunSnoc(rows: seq<Row>, k: nat)
    requires k < |rows| && Run(INITIAL, rows[..k + 1]).Ok?
    ensures Run(INITIAL, rows[..k]).Ok? && Valid(Run(INITIAL, rows[..k]).value)
    ensures Step(Run(INITIAL, rows[..k]).value, rows[k]) == Run(INITIAL, rows[..k + 1])
  {
    RunConcat(INITIAL, rows[..k], [rows[k]]);
    assert rows[..k + 1] == rows[..k] + [rows[k]] && [rows[k]][1..] == [];
    var st := Run(INITIAL, rows[..k]).value;
    StepValid(st, rows[k]);
  }

  lemma {:induction false} RunPrefix(rows: seq<Row>, k: nat)
    requires k <= |rows| && Run(INITIAL, rows).Ok?
    ensures Run(INITIAL, rows[..k]).Ok? && Valid(Run(INITIAL, rows[..k]).value)
  {
    RunConcat(INITIAL, rows[..k], rows[k..]);
    assert rows[..k] + rows[k..] == rows;
  }

  /** The state after k rows. */
  function At(rows: seq<Row>, k: nat): State
    requires k <= |rows|
  {
    var r := Run(INITIAL, rows[..k]);
    if r.Ok? then r.value else INITIAL
  }

  /** No row before the last closes the root, and no leaf goes into a closed node. */
  predicate Straight(rows: seq<Row>, n: nat)
    requires n <= |rows|
  {
    forall k :: 0 < k < n ==> At(rows, k).base == 0 && !Misplaced(At(rows, k), rows[k])
  }

  /** The rows up to n are in order exactly when they are read straight. */
  lemma {:induction false} ReadUpTo(rows: seq<Row>, n: nat)
    requires 0 < n <= |rows| && Run(INITIAL, rows).Ok?
    ensures var st := At(rows, n);
            if Straight(rows, n) then InOrder(rows[..n], st) || Done(rows[..n], st) else Astray(rows[..n], st)
  {
    var k := n - 1;
    AtSnoc(rows, k);
    assert rows[..n] == rows[..k] + [rows[k]];
    if k == 0 {
      FirstRow(rows[0]);
      assert rows[..0] == [];
    } else {
      ReadUpTo(rows, k);
      NextRow(rows[..k], At(rows, k), rows[k]);
      StraightSnoc(rows, k);
    }
  }

  lemma {:induction false} StraightSnoc(rows: seq<Row>, k: nat)
    requires 0 < k < |rows|
    ensures Straight(rows, k + 1) <==> Straight(rows, k) && At(rows, k).base == 0 && !Misplaced(At(rows, k), rows[k])
  {
  }

  lemma {:induction false} FirstRow(row: Row)
    requires Step(INITIAL, row).Ok?
    ensures InOrder([] + [row], Step(INITIAL, row).value)
  {
    var f := Frame(false, row.name, []);
    OneFrame(f);
    PushFits([], f);
    assert [] + [f] == [f];
  }

  lemma {:induction false} NextRow(read: seq<Row>, st: State, row: Row)
    requires (InOrder(read, st) || Done(read, st) || Astray(read, st)) && Valid(st) && Step(st, row).Ok?
    ensures var st' := Step(st, row).value;
            if Astray(read, st) || st.base != 0 || Misplaced(st, row) then Astray(read + [row], st')
            else InOrder(read + [row], st') || Done(read + [row], st')
  {
    if Astray(read, st) {
      AstrayStep(read, st, row);
    } else if InOrder(read, st) {
      InOrderStep(read, st, row);
    } else {
      DoneStep(read, st, row);
    }
  }

  // ---------------------------------------------------------------- every listing closes what it opens

  /** The opening rows of the nodes that are open and not closed yet, by their names alone. */
  function Toggle(open: seq<Row>, row: Row): seq<Row> {
    if row.LeafRow? then open
    else if open != [] && open[|open| - 1] == row then open[..|open| - 1]
    else open + [row]
  }

  function Toggles(open: seq<Row>, rows: seq<Row>): seq<Row> {
    if rows == [] then open else Toggle(Toggles(open, rows[..|rows| - 1]), rows[|rows| - 1])
  }

  /** No row stands directly on itself. */
  predicate Reduced(open: seq<Row>) {
    |open| <= 1 || (Reduced(open[..|open| - 1]) && open[|open| - 1] != open[|open| - 2])
  }

  lemma {:induction false} TogglePop(open: seq<Row>, row: Row)
    requires Reduced(open + [row]) && !row.LeafRow?
    ensures Reduced(open) && Toggle(open + [row], row) == open && Toggle(open, row) == open + [row]
  {
    var more := open + [row];
    assert more[..|more| - 1] == open && more[|more| - 1] == row;
  }

  lemma {:induction false} TogglePush(open: seq<Row>, row: Row)
    requires Reduced(open) && !row.LeafRow? && (open != [] ==> open[|open| - 1] != row)
    ensures Reduced(open + [row]) && Toggle(open, row) == open + [row]
  {
    var more := open + [row];
    assert more[..|more| - 1] == open;
  }

  lemma {:induction false} ToggleTwice(open: seq<Row>, row: Row)
    requires Reduced(open)
    ensures Reduced(Toggle(open, row)) && Toggle(Toggle(open, row), row) == open
  {
    if row.LeafRow? {
    } else if open != [] && open[|open| - 1] == row {
      assert open[..|open| - 1] + [row] == open;
      TogglePop(open[..|open| - 1], row);
    } else {
      TogglePush(open, row);
      TogglePop(open, row);
    }
  }

  lemma {:induction false} TogglesConcat(open: seq<Row>, a: seq<Row>, b: seq<Row>)
    ensures Toggles(open, a + b) == Toggles(Toggles(open, a), b)
  {
    if b == [] {
      assert a + b == a;
    } else {
      var k := |b| - 1;
      TogglesConcat(open, a, b[..k]);
      assert (a + b)[..|a + b| - 1] == a + b[..k] && (a + b)[|a + b| - 1] == b[k];
    }
  }

  lemma {:induction false} TogglesSnoc(rows: seq<Row>, row: Row)
    ensures Toggles([], rows + [row]) == Toggle(Toggles([], rows), row)
  {
    assert (rows + [row])[..|rows|] == rows;
  }

  lemma {:induction false} TogglesOne(open: seq<Row>, row: Row)
    ensures Toggles(open, [row]) == Toggle(open, row)
  {
    assert [row][..0] == [];
  }

  /** The rows of a node: closed by the row that opened it, whatever was open. */
  lemma {:induction false} Enclosed(open: seq<Row>, row: Row, body: seq<Row>)
    requires Reduced(open) && (Reduced(Toggle(open, row)) ==> Toggles(Toggle(open, row), body) == Toggle(open, row))
    ensures Toggles(open, [row] + body + [row]) == open
  {
    ToggleTwice(open, row);
    TogglesConcat(open, [row] + body, [row]);
    TogglesConcat(open, [row], body);
    TogglesOne(open, row);
    TogglesOne(Toggle(open, row), row);
  }

  lemma {:induction false} Balanced(open: seq<Row>, f: Field)
    requires Reduced(open)
    ensures Toggles(open, Rows(f)) == open
    decreases f, 0
  {
    match f
    case Leaf(n, t, l) => TogglesOne(open, LeafRow(n, t, l));
    case Unnamed(cs) => AllBalanced(open, cs);
    case Struct(n, cs) => {
      ToggleTwice(open, StructRow(n));
      AllBalanced(Toggle(open, StructRow(n)), cs);
      Enclosed(open, StructRow(n), AllRows(cs));
    }
    case Array(n, cs) => {
      ToggleTwice(open, ArrayRow(n));
      AllBalanced(Toggle(open, ArrayRow(n)), cs);
      Enclosed(open, ArrayRow(n), AllRows(cs));
    }
  }

  lemma {:induction false} AllBalanced(open: seq<Row>, fs: seq<Field>)
    requires Reduced(open)
    ensures Toggles(open, AllRows(fs)) == open
    decreases fs, 1
  {
    if fs != [] {
      var k := |fs| - 1;
      AllBalanced(open, fs[..k]);
      Balanced(open, fs[k]);
      TogglesConcat(open, AllRows(fs[..k]), Rows(fs[k]));
    }
  }

  /** The opening rows of the nodes on the Python stack. */
  function Edges(path: seq<Frame>): seq<Row> {
    seq(|path|, i requires 0 <= i < |path| => EdgeRow(path[i]))
  }

  /** A row that repeats no open node's. */
  lemma {:induction false} PushStack(path: seq<Frame>, base: nat, f: Frame, row: Row)
    requires base <= |path| && row == EdgeRow(f) && (base < |path| ==> EdgeRow(Top(path)) != row)
    ensures Edges((path + [f])[base..]) == Toggle(Edges(path[base..]), row)
  {
    assert (path + [f])[base..] == path[base..] + [f];
  }

  lemma {:induction false} PopStack(path: seq<Frame>, base: nat)
    requires base < |path|
    ensures Edges(path[base..|path| - 1]) == Toggle(Edges(path[base..]), EdgeRow(Top(path)))
  {
    var rest := path[base..|path| - 1];
    assert path[base..] == rest + [Top(path)];
    assert Edges(path[base..]) == Edges(rest) + [EdgeRow(Top(path))];
    assert (Edges(rest) + [EdgeRow(Top(path))])[..|Edges(rest)|] == Edges(rest);
  }

  lemma {:induction false} LeafStack(st: State, row: Row)
    requires Valid(st) && row.LeafRow? && Step(st, row).Ok?
    ensures var st' := Step(st, row).value;
            st'.base == st.base && Edges(st'.path[st.base..]) == Edges(st.path[st.base..])
  {
    SameEdges(st.path[st.base..], Step(st, row).value.path[st.base..]);
  }

  lemma {:induction false} OpeningStack(st: State, row: Row)
    requires Valid(st) && Step(st, row).Ok? && !row.LeafRow?
    requires Restarts(st, row) || (st.path != [] && EdgeRow(Top(st.path)) != row)
    ensures var st' := Step(st, row).value;
            Valid(st') && Edges(st'.path[st'.base..]) == Toggle(Edges(st.path[st.base..]), row)
  {
    var f := Frame(row.ArrayRow?, row.name, []);
    if Restarts(st, row) {
      PushStack([], 0, f, row);
      assert [] + [f] == [f] && [f][0..] == [f] && st.path[st.base..] == [];
    } else {
      PushStack(st.path, st.base, f, row);
    }
  }

  lemma {:induction false} ClosingStack(st: State, row: Row)
    requires Valid(st) && Step(st, row).Ok? && !row.LeafRow?
    requires !Restarts(st, row) && st.path != [] && EdgeRow(Top(st.path)) == row
    ensures var st' := Step(st, row).value;
            Valid(st') && Edges(st'.path[st'.base..]) == Toggle(Edges(st.path[st.base..]), row)
  {
    PopStack(st.path, st.base);
    var rest := st.path[st.base..|st.path| - 1];
    if ClosesRoot(st, row) {
      assert rest == [] && st.path[|st.path|..] == [];
    } else {
      PopEdges(st.path);
      SameEdges(rest, Pop(st.path)[st.base..]);
    }
  }

  lemma {:induction false} PopEdges(path: seq<Frame>)
    requires |path| > 1
    ensures forall i :: 0 <= i < |path| - 1 ==> EdgeRow(Pop(path)[i]) == EdgeRow(path[i])
  {
  }

  /** The rows toggle the stack, whatever else they do. */
  lemma {:induction false} StackStep(st: State, row: Row)
    requires Valid(st) && Step(st, row).Ok?
    ensures var st' := Step(st, row).value;
            Valid(st') && Edges(st'.path[st'.base..]) == Toggle(Edges(st.path[st.base..]), row)
  {
    if row.LeafRow? {
      StepValid(st, row);
      LeafStack(st, row);
    } else if Restarts(st, row) || EdgeRow(Top(st.path)) != row {
      OpeningStack(st, row);
    } else {
      ClosingStack(st, row);
    }
  }

  lemma {:induction false} SameEdges(a: seq<Frame>, b: seq<Frame>)
    requires |a| == |b| && forall i :: 0 <= i < |a| ==> EdgeRow(a[i]) == EdgeRow(b[i])
    ensures Edges(a) == Edges(b)
  {
  }

  lemma {:induction false} AtSnoc(rows: seq<Row>, k: nat)
    requires k < |rows| && Run(INITIAL, rows).Ok?
    ensures Valid(At(rows, k)) && Step(At(rows, k), rows[k]) == Ok(At(rows, k + 1))
  {
    RunPrefix(rows, k + 1);
    RunSnoc(rows, k);
  }

  lemma {:induction false} StackIs(rows: seq<Row>, n: nat)
    requires n <= |rows| && Run(INITIAL, rows).Ok?
    ensures Valid(At(rows, n)) && Edges(At(rows, n).path[At(rows, n).base..]) == Toggles([], rows[..n])
  {
    if n > 0 {
      StackIs(rows, n - 1);
      AtSnoc(rows, n - 1);
      StackStep(At(rows, n - 1), rows[n - 1]);
      TogglesSnoc(rows[..n - 1], rows[n - 1]);
      assert rows[..n] == rows[..n - 1] + [rows[n - 1]];
    }
  }

  /** The last row has closed the root, or something else that was left alone on the stack. */
  predicate Closed(rows: seq<Row>) {
    At(rows, |rows|).base == |At(rows, |rows|).path|
  }

  lemma {:induction false} BalancedCloses(f: Field, rows: seq<Row>)
    requires rows == Rows(f) && Run(INITIAL, rows).Ok?
    ensures Closed(rows)
  {
    var st := At(rows, |rows|);
    StackIs(rows, |rows|);
    assert rows[..|rows|] == rows;
    Balanced([], f);
    assert |Edges(st.path[st.base..])| == |st.path| - st.base;
  }

  // ---------------------------------------------------------------- the theorems

  /** Rows that are read straight, the last of which closes the root. */
  predicate ReadStraight(rows: seq<Row>) {
    rows != [] && Run(INITIAL, rows).Ok? && Straight(rows, |rows|) && Closed(rows)
  }

  lemma {:induction false} RootRows(path: seq<Frame>)
    requires |path| == 1
    ensures Collapse(path) == Close(path[0]) && Rows(Collapse(path)) == OpenRows(path) + [EdgeRow(path[0])]
  {
    CloseRows(path[0]);
    assert OpenRows(path[..0]) == [];
    assert OpenRows(path) == [] + ([EdgeRow(path[0])] + AllRows(path[0].children));
  }

  lemma {:induction false} AstrayRows(rows: seq<Row>, st: State)
    requires Astray(rows, st) && st.base == |st.path|
    ensures Rows(Collapse(st.path)) != rows
  {
    RootRows(st.path);
    var open := OpenRows(st.path);
    if Apart(rows, open) {
      var p :| 0 <= p < |open| && p < |rows| && open[p].LeafRow? && !rows[p].LeafRow?;
      assert (open + [EdgeRow(st.path[0])])[p] == open[p];
    }
  }

  lemma {:induction false} DoneRows(rows: seq<Row>, st: State)
    requires Done(rows, st)
    ensures Rows(Collapse(st.path)) == rows && ReadsBack(Collapse(st.path))
  {
    RootRows(st.path);
    assert !ModeOf(st.path[..0]);
  }

  /** A parsed tree lists the rows it was parsed from exactly when they are read straight: the last row closes
    * the root, none before does, and no leaf row goes into a closed node. Such a tree reads back. */
  lemma {:induction false} ParseThenListIff(rows: seq<Row>, f: Field)
    requires Parse(rows) == Ok(Some(f))
    ensures Rows(f) == rows <==> ReadStraight(rows)
    ensures ReadStraight(rows) ==> ReadsBack(f)
  {
    var n := |rows|;
    assert rows[..n] == rows && n > 0;
    ReadUpTo(rows, n);
    if Rows(f) == rows {
      BalancedCloses(f, rows);
    }
    if Closed(rows) {
      if Straight(rows, n) {
        DoneRows(rows, At(rows, n));
      } else {
        AstrayRows(rows, At(rows, n));
      }
    }
  }

  /** Parsing the listing of a tree gives the tree back exactly when the tree reads back: over all trees. */
  lemma {:induction false} ListThenParseIff(f: Field)
    ensures Parse(Rows(f)) == Ok(Some(f)) <==> ReadsBack(f)
  {
    if ReadsBack(f) {
      ListThenParse(f);
    } else if Parse(Rows(f)) == Ok(Some(f)) {
      ParseThenListIff(Rows(f), f);
    }
  }

  /** Rows are the listing of a tree that reads back exactly when they are read straight. */
  lemma {:induction false} ListingIff(rows: seq<Row>)
    ensures (exists f :: ReadsBack(f) && Rows(f) == rows) <==> ReadStraight(rows)
  {
    if ReadStraight(rows) {
      ReadUpTo(rows, |rows|);
      assert rows[..|rows|] == rows;
      DoneRows(rows, At(rows, |rows|));
    }
    forall f | ReadsBack(f) && Rows(f) == rows ensures ReadStraight(rows) {
      ListThenParse(f);
      ParseThenListIff(rows, f);
    }
  }

  // ---------------------------------------------------------------- arrays of leaves

  /** No structure is named like the structure it is directly in. */
  predicate Unambiguous(f: Field) {
    f.Struct? ==> forall i :: 0 <= i < |f.children| ==>
                    Unambiguous(f.children[i]) && (f.children[i].Struct? ==> f.children[i].name != f.name)
  }

  /** When arrays hold leaves only, nothing but such a name is in the way. */
  lemma {:induction false} ShapedReadsBackIff(f: Field)
    requires f.Struct? && Shaped(f)
    ensures ReadsBack(f) <==> Unambiguous(f)
    ensures Parse(Rows(f)) == Ok(Some(f)) <==> Unambiguous(f)
  {
    ShapedKids(f.name, f.children);
    ListThenParseIff(f);
  }

  predicate KidUnambiguous(name: string, f: Field) {
    Unambiguous(f) && (f.Struct? ==> f.name != name)
  }

  predicate KidsUnambiguous(name: string, fs: seq<Field>) {
    forall i :: 0 <= i < |fs| ==> KidUnambiguous(name, fs[i])
  }

  lemma {:induction false} ShapedKid(name: string, first: bool, f: Field)
    requires Shaped(f)
    ensures !ModeAfter(f, false) && (Fits(StructRow(name), first, f, false) <==> KidUnambiguous(name, f))
    decreases f, 0
  {
    match f
    case Struct(n, cs) =>
      ShapedKids(n, cs);
      assert Unambiguous(f) <==> KidsUnambiguous(n, cs);
    case Array(n, cs) => ArrayBodyFits(n, cs);
    case _ =>
  }

  lemma {:induction false} ShapedKids(name: string, fs: seq<Field>)
    requires forall i :: 0 <= i < |fs| ==> Shaped(fs[i])
    ensures !ModeAfterAll(fs, false) && (KidsFit(StructRow(name), fs, false) <==> KidsUnambiguous(name, fs))
    decreases fs, 1
  {
    if fs != [] {
      var k := |fs| - 1;
      ShapedKids(name, fs[..k]);
      ShapedKid(name, k == 0, fs[k]);
      KidsSnoc(name, fs[..k], fs[k]);
      assert fs == fs[..k] + [fs[k]];
    }
  }

  lemma {:induction false} KidsSnoc(name: string, fs: seq<Field>, f: Field)
    ensures KidsUnambiguous(name, fs + [f]) <==> KidsUnambiguous(name, fs) && KidUnambiguous(name, f)
  {
    var all := fs + [f];
    assert all[|fs|] == f && forall i :: 0 <= i < |fs| ==> all[i] == fs[i];
  }

  lemma {:induction false} ArrayBodyFits(name: string, fs: seq<Field>)
    requires ArrayBody(fs)
    ensures KidsFit(ArrayRow(name), fs, true)
  {
    if fs != [] {
      assert KidsFit(ArrayRow(name), fs[..0], true);
    }
  }

  // ---------------------------------------------------------------- what is lost otherwise

  /** A structure inside a structure of the same name closes it instead of opening. */
  lemma {:induction false} SameNameIsLost()
    ensures var inner := Struct("P", []);
            Parse(Rows(Struct("P", [inner]))) == Ok(Some(inner))
  {
    var edge := StructRow("P");
    var s := State([Frame(false, "P", [])], 0, false);
    var rows := Rows(Struct("P", [Struct("P", [])]));
    assert AllRows([]) == [];
    assert [Struct("P", [])][..0] == [];
    assert AllRows([Struct("P", [])]) == [edge, edge];
    assert rows == [edge, edge, edge, edge];
    assert Step(INITIAL, edge) == Ok(s) && Step(s, edge) == Ok(s.(base := 1));
    assert Step(s.(base := 1), edge) == Ok(s);
    assert Run(INITIAL, rows) == Run(s, rows[1..]) == Run(s.(base := 1), rows[1..][1..]);
    assert Run(s.(base := 1), rows[2..]) == Run(s, rows[2..][1..]) == Run(s.(base := 1), rows[3..][1..]);
    assert rows[1..][1..] == rows[2..] && rows[2..][1..] == rows[3..] && rows[3..][1..] == [];
  }

  /** A structure opened inside an array keeps the array mode: its leaves are wrapped once more. */
  lemma {:induction false} ArrayModeLeaks(st: State, name: string, leaf: Row)
    requires Valid(st) && Inside(st) && !Top(st.path).isArray && leaf.LeafRow?
    ensures var rows := [ArrayRow("A"), StructRow(name), leaf];
            && Run(st, rows).Ok? && Run(st, rows).value.path != []
            && Top(Run(st, rows).value.path)
               == Frame(false, name, [Unnamed([Leaf(leaf.name, leaf.fieldType, leaf.length)])])
  {
    var a, s := ArrayRow("A"), StructRow(name);
    var rows := [a, s, leaf];
    var st1 := State(st.path + [Frame(true, "A", [])], st.base, true);
    var st2 := State(st1.path + [Frame(false, name, [])], st.base, true);
    assert Step(st, a) == Ok(st1) && Step(st1, s) == Ok(st2);
    assert rows[1..] == [s, leaf] && [s, leaf][1..] == [leaf] && [leaf][1..] == [];
    assert Run(st, rows) == Run(st1, [s, leaf]);
    assert Run(st1, [s, leaf]) == Run(st2, [leaf]);
    var st3 := Step(st2, leaf).value;
    assert Run(st2, [leaf]) == Run(st3, []);
  }
}
