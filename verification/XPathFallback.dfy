/** Exactly when a rewritten path (common/xpath_utils.py) finds what the path finds, and findall what its
  * any-namespace query finds. */
module XPathFallback {
  import opened Options
  import opened Sequences
  import opened PyText
  import opened ElementTree
  import opened XPathTokens
  import opened XPathRewrite
  import opened XPathWidening
  import opened XPathSteps
  import opened XPathQuery
  import opened XPathGrove

  // ---------------------------------------------------------------- the rewritten path

  lemma {:induction false} PathCharAt(s: string, i: nat, k: nat)
    requires i <= k < |s| && PathChar(s[k]) && forall m :: i <= m < k ==> s[m] != '{'
    ensures HasPathChar(s, i, true)
    decreases k - i
  {
    if i < k && !PathChar(s[i]) {
      PathCharAt(s, i + 1, k);
    }
  }

  lemma {:induction false} RewriteIsOut(x: string)
    requires x != "" && '{' !in x
    ensures Rewrite(x) == Out(x, 0)
  {
    OutRenders(x, 0);
  }

  /** A path stays a path. */
  lemma {:induction false} RewrittenIsPath(x: string)
    requires '{' !in x && IsPath(x)
    ensures IsPath(Rewrite(x))
  {
    RewriteIsOut(x);
    if Changes(x, 0) {
      var m := ChangedPiece(x, 0);
      assert Out(x, 0)[..3] == "{*}";
    } else if x[0] == '/' {
      assert Out(x, 0)[0] == '/';
    } else {
      var e, y := SegEnd(x, 0), Out(x, 0);
      assert y == x[..e] + Out(x, e);
      if e < |x| {
        assert y[e] == Out(x, e)[0];
        assert forall m :: 0 <= m < e ==> y[m] == x[m] && x[m] in x;
        PathCharAt(y, 0, e);
      } else {
        assert y == x;
      }
    }
  }

  /** A path's steps are widened when its text shows that it is kept; otherwise the rewritten path raises,
    * or has a step that finds nothing. */
  lemma {:induction false} RewrittenSteps(x: string)
    requires '{' !in x && IsPath(x) && Compiled(x).Some?
    ensures Unbroken(x) ==> Compiled(Rewrite(x)).Some? && Wider(Compiled(x).value, Compiled(Rewrite(x)).value)
    ensures !Unbroken(x) ==> Compiled(Rewrite(x)).None? || HasDead(Compiled(Rewrite(x)).value)
  {
    var c := Completed(x);
    CompletedRewrite(x);
    RewrittenIsPath(x);
    RewriteIsOut(c);
    LexBraceless(c, 0);
    var ts, ts' := Lex(c, 0), Lex(Rewrite(c), 0);
    ParsedSane(ts, First);
    Simulate(c, 0, true, false);
    if Unbroken(x) {
      ParseWidened(ts, ts', First);
    } else if Parse(ts', First).Some? {
      ParseSpoiled(ts, ts', First);
    }
  }

  /** A text that is no path is one name. */
  lemma {:induction false} DirectSteps(x: string)
    requires '{' !in x && !IsPath(x) && !DirectTest(x).Nothing?
    ensures Compiled(Rewrite(x)).Some? && Wider(Compiled(x).value, Compiled(Rewrite(x)).value)
  {
    assert x[0] in x;
    NoPathChars(x);
    DirectRewritten(x);
    DirectLexes(x);
    OneName(x);
  }

  lemma {:induction false} NoPathChars(x: string)
    requires '{' !in x && !IsPath(x)
    ensures forall i :: 0 <= i < |x| ==> !PathChar(x[i])
  {
    forall i | 0 <= i < |x| ensures !PathChar(x[i]) {
      if PathChar(x[i]) {
        assert forall m :: 0 <= m < i ==> x[m] in x;
        PathCharAt(x, 0, i);
      }
    }
  }

  lemma {:induction false} DirectLexes(x: string)
    requires x != "" && forall i :: 0 <= i < |x| ==> NameChar(x[i])
    ensures var y := "{*}" + x; IsPath(y) && y[0] != '/' && Completed(y) == y && Lex(y, 0) == [Name(y)]
  {
    var y := "{*}" + x;
    UntilIs(x, 0, NameOver, |x|);
    WildcardFirst(x, |x|);
    assert x[..|x|] == x && x[|x|..] == "" && Lex("", 0) == [];
    assert y[|y| - 1] == x[|x| - 1];
  }

  lemma {:induction false} OneName(x: string)
    requires x != "" && x != "*"
    ensures Parse([Name("{*}" + x)], First) == Some([Go(false, AnyNamespace(x))])
  {
    var t := Name("{*}" + x);
    assert t.text[..3] == "{*}" && t.text[3..] == x && t.text[0] == '{';
    assert !Prefixed(t) && TestOf(t.text) == AnyNamespace(x);
    assert [t][1..] == [] && Parse([], After) == Some([]);
    assert [Go(false, AnyNamespace(x))] + [] == [Go(false, AnyNamespace(x))];
  }

  lemma {:induction false} DirectRewritten(x: string)
    requires x != "" && '{' !in x && ':' !in x && forall i :: 0 <= i < |x| ==> NameChar(x[i]) && !PathChar(x[i])
    ensures Rewrite(x) == "{*}" + x
  {
    RewriteIsOut(x);
    UntilIs(x, 0, Is('/'), |x|);
    UntilIs(x, 0, Is('['), |x|);
    assert Piece(x, 0) == x && x[..|x|] == x && x[|x|..] == "";
    assert RewriteSegment(x) == "{*}" + x + "";
    assert ("{*}" + x + "") + "" == "{*}" + x;
  }

  // ---------------------------------------------------------------- the theorems

  lemma {:induction false} StepsOrdinary(x: string)
    requires '{' !in x && Compiled(x).Some?
    ensures forall i :: 0 <= i < |Compiled(x).value| ==> Ordinary(Compiled(x).value[i])
  {
    if IsPath(x) {
      LexBraceless(Completed(x), 0);
      ParsedOrdinary(Lex(Completed(x), 0), First);
    } else if DirectTest(x).Exactly? {
      assert x[0] in x;
    }
  }

  lemma {:induction false} NothingDirect<Id>(keep: Filter<Id>, x: string, root: Tree<Id>)
    requires !IsPath(x) && DirectTest(x).Nothing?
    ensures Found(keep, x, root) == []
  {
    var steps := [Go(false, Nothing)];
    assert steps[1..] == [];
    MoveNothing(false, [Node([], root)]);
  }

  /** The steps of the path and of its rewriting, when the path is kept. */
  lemma {:induction false} KeptSteps(x: string)
    requires Compiled(x).Some? && Unbroken(x) && (!IsPath(x) ==> !DirectTest(x).Nothing?)
    ensures Compiled(Rewrite(x)).Some? && Wider(Compiled(x).value, Compiled(Rewrite(x)).value)
  {
    if '{' !in x {
      if IsPath(x) {
        RewrittenSteps(x);
      } else {
        DirectSteps(x);
      }
    }
  }

  /** Whatever an unbroken path finds, the rewritten path finds, and, without "..", in the same order. */
  lemma {:induction false} RewriteLosesNothing<Id>(keep: Filter<Id>, x: string, root: Tree<Id>)
    requires Unbroken(x)
    ensures Included(Found(keep, x, root), Found(keep, Rewrite(x), root))
    ensures Compiled(x).Some? && Up !in Compiled(x).value ==>
              Subsequence(Found(keep, x, root), Found(keep, Rewrite(x), root))
  {
    var start := [Node([], root)];
    if Compiled(x).Some? {
      if !IsPath(x) && DirectTest(x).Nothing? {
        NothingDirect(keep, x, root);
        EmptySubsequence(Found(keep, Rewrite(x), root));
      } else {
        KeptSteps(x);
        var a, b := Compiled(x).value, Compiled(Rewrite(x)).value;
        EvalIncluded(keep, a, b, start, start);
        TreesIncluded(Eval(keep, a, start), Eval(keep, b, start));
        if Up !in a {
          SubsequenceRefl(start);
          EvalOrdered(keep, a, b, start, start);
          TreesOrdered(Eval(keep, a, start), Eval(keep, b, start));
        }
      }
    }
  }

  /** In a document of elements with proper names, under a reading by which no condition with a brace in its
    * value holds, the rewriting of a broken path finds nothing. */
  lemma {:induction false} BrokenFindsNothing<Id(!new)>(keep: Filter<Id>, x: string, root: Tree<Id>)
    requires Compiled(x).Some? && !Unbroken(x) && Throughout(LiveTag, root) && RejectsRewritten(keep, x)
    ensures Found(keep, Rewrite(x), root) == []
  {
    RewrittenSteps(x);
    if Compiled(Rewrite(x)).Some? {
      DeadFindsNothing(keep, Compiled(Rewrite(x)).value, [Node([], root)]);
    }
  }

  ghost predicate RejectsRewritten<Id(!new)>(keep: Filter<Id>, x: string) {
    Compiled(Rewrite(x)).Some? ==> Rejects(keep, Compiled(Rewrite(x)).value)
  }

  /** For one such document and reading: the rewritten path loses nothing exactly when the text of the path is
    * unbroken, or the path finds nothing there. */
  lemma {:induction false} KeepsAnswerIff<Id(!new)>(keep: Filter<Id>, x: string, root: Tree<Id>)
    requires Throughout(LiveTag, root) && RejectsRewritten(keep, x)
    ensures Included(Found(keep, x, root), Found(keep, Rewrite(x), root))
            <==> Unbroken(x) || Found(keep, x, root) == []
  {
    if Unbroken(x) {
      RewriteLosesNothing(keep, x, root);
    } else {
      BrokenKeepsIff(keep, x, root);
    }
  }

  lemma {:induction false} BrokenKeepsIff<Id(!new)>(keep: Filter<Id>, x: string, root: Tree<Id>)
    requires !Unbroken(x) && Throughout(LiveTag, root) && RejectsRewritten(keep, x)
    ensures Included(Found(keep, x, root), Found(keep, Rewrite(x), root)) <==> Found(keep, x, root) == []
  {
    if Compiled(x).Some? {
      BrokenFindsNothing(keep, x, root);
      IncludedInNothing(Found(keep, x, root));
    }
  }

  lemma {:induction false} IncludedInNothing<T>(a: seq<T>)
    ensures Included(a, []) <==> a == []
  {
    if a != [] {
      assert a[0] !in [];
    }
  }

  /** A path that is broken by the rewriting finds something that the rewritten path does not, in a document
    * without namespaces. */
  lemma {:induction false} BrokenLoses(x: string)
    requires Selects(x) && !Unbroken(x)
    ensures var root := Witness(Compiled(x).value);
            && Distinct(Ids(root)) && Unqualified(root)
            && Found(Unmarked(), x, root) != [] && Found(Unmarked(), Rewrite(x), root) == []
  {
    var steps := Compiled(x).value;
    StepsOrdinary(x);
    WitnessIs(steps);
    var start := [Node([], Witness(steps))];
    TreesAre(Eval(Unmarked(), steps, start));
    BrokenFindsNothing(Unmarked(), x, Witness(steps));
  }

  /** The rewritten path loses nothing, on any document under any reading of the conditions, exactly when
    * the path can find nothing anyway or its text is unbroken. */
  lemma {:induction false} RewriteLosesNothingIff(x: string)
    ensures (forall keep: Filter<Path>, root: Tree<Path> | Distinct(Ids(root)) ::
               Included(Found(keep, x, root), Found(keep, Rewrite(x), root)))
            <==> (Selects(x) ==> Unbroken(x))
  {
    if Selects(x) && !Unbroken(x) {
      BrokenLoses(x);
    } else {
      forall keep: Filter<Path>, root: Tree<Path> | Distinct(Ids(root))
        ensures Included(Found(keep, x, root), Found(keep, Rewrite(x), root))
      {
        FindsOrKeeps(keep, x, root);
      }
    }
  }

  lemma {:induction false} FindsOrKeeps<Id>(keep: Filter<Id>, x: string, root: Tree<Id>)
    requires Selects(x) ==> Unbroken(x)
    ensures Included(Found(keep, x, root), Found(keep, Rewrite(x), root))
  {
    if Selects(x) {
      RewriteLosesNothing(keep, x, root);
    } else if Compiled(x).Some? {
      BarrenFindsNothing(keep, Compiled(x).value, [Node([], root)], Some(0));
    }
  }

  /** On documents without namespaces the rewriting of a path that can find something changes no answer,
    * exactly when its text is unbroken. */
  lemma {:induction false} RewriteExactIff(x: string)
    requires Selects(x)
    ensures (forall keep: Filter<Path>, root: Tree<Path> | Distinct(Ids(root)) && Unqualified(root) ::
               Found(keep, Rewrite(x), root) == Found(keep, x, root))
            <==> Unbroken(x)
  {
    if Unbroken(x) {
      forall keep: Filter<Path>, root: Tree<Path> | Distinct(Ids(root)) && Unqualified(root)
        ensures Found(keep, Rewrite(x), root) == Found(keep, x, root)
      {
        RewriteExact(keep, x, root);
      }
    } else {
      BrokenLoses(x);
    }
  }

  lemma {:induction false} RewriteExact<Id>(keep: Filter<Id>, x: string, root: Tree<Id>)
    requires Selects(x) && Unbroken(x) && Unqualified(root)
    ensures Found(keep, Rewrite(x), root) == Found(keep, x, root)
  {
    KeptSteps(x);
    EvalSame(keep, Compiled(x).value, Compiled(Rewrite(x)).value, [Node([], root)]);
  }

  /** findall finds something exactly when the any-namespace query does, and nothing that query does not. */
  predicate Agrees<Id(==)>(keep: Filter<Id>, x: string, root: Tree<Id>) {
    var wide := Found(keep, Rewrite(x), root);
    (FindAll(keep, x, root) == [] <==> wide == []) && Included(FindAll(keep, x, root), wide)
  }

  lemma {:induction false} FindAllAgrees<Id>(keep: Filter<Id>, x: string, root: Tree<Id>)
    requires Selects(x) ==> Unbroken(x)
    ensures Agrees(keep, x, root)
  {
    FindsOrKeeps(keep, x, root);
    if x == "" {
      NothingDirect(keep, x, root);
    } else if Found(keep, x, root) != [] {
      assert Found(keep, x, root)[0] in Found(keep, Rewrite(x), root);
    }
  }

  lemma {:induction false} FindAllIff(x: string)
    ensures (forall keep: Filter<Path>, root: Tree<Path> | Distinct(Ids(root)) :: Agrees(keep, x, root))
            <==> (Selects(x) ==> Unbroken(x))
  {
    if Selects(x) && !Unbroken(x) {
      BrokenLoses(x);
      assert x != "";
      var root := Witness(Compiled(x).value);
      assert !Agrees(Unmarked(), x, root);
    } else {
      forall keep: Filter<Path>, root: Tree<Path> | Distinct(Ids(root)) ensures Agrees(keep, x, root) {
        FindAllAgrees(keep, x, root);
      }
    }
  }

  // ---------------------------------------------------------------- a slash in a quoted value

  /** [@key='value'] */
  function AttributeIs(key: string, value: string): seq<Lexeme> {
    [Mark("@"), Name(key), Mark("="), Quoted(['\''] + value + ['\''])]
  }

  function AttributeText(key: string, value: string): string {
    "[" + ("@" + (key + ("=" + (['\''] + (value + (['\''] + "]"))))))
  }

  /** name[@key='value'] */
  function AttributePath(name: string, key: string, value: string): string {
    name + AttributeText(key, value)
  }

  lemma {:induction false} AttributeLexes(key: string, value: string)
    requires PlainName(key) && '\'' !in value
    ensures Lex(AttributeText(key, value), 0) == [Mark("[")] + AttributeIs(key, value) + [Mark("]")]
  {
    var end := "]";
    var quoted := ['\''] + (value + (['\''] + end));
    MarkFirst(']', "");
    assert [']'] + "" == end && Lex("", 0) == [];
    QuoteLexeme(quoted, '\'', value, end);
    MarkFirst('=', quoted);
    NameFirst(key, "=" + quoted);
    MarkFirst('@', key + ("=" + quoted));
    MarkFirst('[', "@" + (key + ("=" + quoted)));
  }

  lemma {:induction false} AttributeParses(key: string, value: string)
    requires PlainName(key)
    ensures var ts := [Mark("[")] + AttributeIs(key, value) + [Mark("]")];
            Parse(ts, After) == Some([Where(AttributeIs(key, value))])
  {
    var p := AttributeIs(key, value);
    var ts := [Mark("[")] + p + [Mark("]")];
    assert [Mark("]")][1..] == [];
    InnerOf([], [Mark("]")]);
    InnerOf([p[3]], [Mark("]")]);
    InnerOf([p[2], p[3]], [Mark("]")]);
    InnerOf([p[1], p[2], p[3]], [Mark("]")]);
    InnerOf(p, [Mark("]")]);
    assert ts[1..] == p + [Mark("]")];
    assert Parse([], After) == Some([]) && [Where(p)] + [] == [Where(p)];
  }

  lemma {:induction false} InnerOf(p: seq<Lexeme>, end: seq<Lexeme>)
    requires end == [Mark("]")] && forall i :: 0 <= i < |p| ==> !Prefixed(p[i]) && !p[i].Blank? && p[i] != Mark("]")
    ensures Inner(p + end) == Some((p, []))
  {
    if p == [] {
      assert p + end == end;
    } else {
      InnerOf(p[1..], end);
      assert (p + end)[1..] == p[1..] + end && p == [p[0]] + p[1..];
    }
  }

  lemma {:induction false} AttributePathLexes(name: string, key: string, value: string)
    requires PlainName(name) && PlainName(key) && '\'' !in value
    ensures var x, ts := AttributePath(name, key, value), [Mark("[")] + AttributeIs(key, value) + [Mark("]")];
            Lex(x, 0) == [Name(name)] + ts && Lex("{*}" + x, 0) == [Name("{*}" + name)] + ts
  {
    var text := AttributeText(key, value);
    AttributeLexes(key, value);
    NameThen(name, text);
  }

  lemma {:induction false} NameThen(name: string, t: string)
    requires PlainName(name) && t != "" && !NameChar(t[0])
    ensures Lex(name + t, 0) == [Name(name)] + Lex(t, 0)
    ensures Lex("{*}" + (name + t), 0) == [Name("{*}" + name)] + Lex(t, 0)
  {
    NameFirst(name, t);
    var x := name + t;
    assert forall k :: 0 <= k < |name| ==> x[k] == name[k];
    UntilIs(x, 0, NameOver, |name|);
    WildcardFirst(x, |name|);
    assert x[..|name|] == name && x[|name|..] == t;
  }

  lemma {:induction false} AttributePathIsPath(name: string, key: string, value: string)
    requires PlainName(name)
    ensures var x := AttributePath(name, key, value);
            && IsPath(x) && x[0] != '/' && x[|x| - 1] == ']'
            && IsPath("{*}" + x) && ("{*}" + x)[0] != '/' && ("{*}" + x)[|x| + 2] == ']'
  {
    var x, text := AttributePath(name, key, value), AttributeText(key, value);
    assert forall k :: 0 <= k < |name| ==> x[k] == name[k];
    assert x[|name|] == text[0] && text[|text| - 1] == ']';
    PathCharAt(x, 0, |name|);
  }

  /** The steps of such a path, and of the same behind a wildcard. */
  lemma {:induction false} AttributeSteps(name: string, key: string, value: string)
    requires PlainName(name) && PlainName(key) && '\'' !in value
    ensures Compiled(AttributePath(name, key, value))
            == Some([Go(false, Exactly(Tag(NoNamespace, name))), Where(AttributeIs(key, value))])
    ensures Compiled("{*}" + AttributePath(name, key, value))
            == Some([Go(false, AnyNamespace(name)), Where(AttributeIs(key, value))])
  {
    var p := AttributeIs(key, value);
    var ts := [Mark("[")] + p + [Mark("]")];
    AttributePathLexes(name, key, value);
    AttributePathIsPath(name, key, value);
    AttributeParses(key, value);
    PlainTest(name);
    StepsOf(Name(name), ts, p);
    StepsOf(Name("{*}" + name), ts, p);
  }

  lemma {:induction false} PlainTest(name: string)
    requires PlainName(name)
    ensures TestOf(name) == Exactly(Tag(NoNamespace, name)) && TestOf("{*}" + name) == AnyNamespace(name)
    ensures !Prefixed(Name(name)) && !Prefixed(Name("{*}" + name))
  {
    assert |name| >= 3 ==> name[..3][0] == name[0];
    var w := "{*}" + name;
    assert w[..3] == "{*}" && w[3..] == name && w[0] == '{';
  }

  lemma {:induction false} StepsOf(n: Lexeme, ts: seq<Lexeme>, p: seq<Lexeme>)
    requires n.Name? && !Prefixed(n) && Parse(ts, After) == Some([Where(p)])
    ensures Parse([n] + ts, First) == Some([Go(false, TestOf(n.text)), Where(p)])
  {
    assert ([n] + ts)[1..] == ts;
    assert [Go(false, TestOf(n.text))] + [Where(p)] == [Go(false, TestOf(n.text)), Where(p)];
  }

  lemma {:induction false} LastPiece(before: string, b: string)
    requires b != "" && '/' !in b
    ensures Out(before + b, |before|) == RewriteSegment(b)
  {
    var x, n := before + b, |before|;
    assert forall k :: n <= k < |x| ==> x[k] == b[k - n];
    UntilIs(x, n, Is('/'), |x|);
    assert Piece(x, n) == b;
    assert RewriteSegment(b) + "" == RewriteSegment(b);
  }

  lemma {:induction false} FirstPiece(a: string, t: string)
    requires a != "" && '/' !in a && t != "" && t[0] == '/'
    ensures Out(a + t, 0) == RewriteSegment(a) + Out(a + t, |a|)
  {
    var x := a + t;
    assert forall k :: 0 <= k < |a| ==> x[k] == a[k];
    UntilIs(x, 0, Is('/'), |a|);
    assert Piece(x, 0) == a;
  }

  lemma {:induction false} TwoPieces(a: string, b: string)
    requires a != "" && b != "" && '/' !in a && '/' !in b
    ensures Out(a + ("/" + b), 0) == RewriteSegment(a) + ("/" + RewriteSegment(b))
  {
    FirstPiece(a, "/" + b);
    SecondPiece(a, b);
  }

  lemma {:induction false} SecondPiece(a: string, b: string)
    requires b != "" && '/' !in b
    ensures Out(a + ("/" + b), |a|) == "/" + RewriteSegment(b)
  {
    var x := a + ("/" + b);
    LastPiece(a + "/", b);
    assert x == (a + "/") + b && x[|a|] == '/';
  }

  lemma {:induction false} WidenedSegment(s: string, j: nat)
    requires 0 < j <= |s| && s[0] !in {'.', '*', '@'}
    requires forall k :: 0 <= k < j ==> s[k] !in {'[', '{', ':'}
    requires j < |s| ==> s[j] == '['
    ensures RewriteSegment(s) == "{*}" + s
  {
    UntilIs(s, 0, Is('['), j);
    assert s == s[..j] + s[j..];
    assert s[0] == s[..j][0];
  }

  function Opening(name: string, key: string, before: string): string {
    name + ("[" + ("@" + (key + ("=" + (['\''] + before)))))
  }

  function Closing(after: string): string { after + (['\''] + "]") }

  lemma {:induction false} SplitValue(name: string, key: string, before: string, after: string)
    ensures AttributePath(name, key, before + ("/" + after)) == Opening(name, key, before) + ("/" + Closing(after))
  {
    var end := ['\''] + "]";
    assert (before + ("/" + after)) + end == before + ("/" + (after + end));
  }

  /** The slash in the value is taken for a step, and the value is changed. */
  lemma {:induction false} QuotedSlashRewritten(name: string, key: string, before: string, after: string)
    requires PlainName(name) && PlainName(key) && '/' !in before && '{' !in before
    requires forall c :: c in after ==> c !in {'/', '[', '.', '*', '@', '{', ':'}
    ensures Rewrite(AttributePath(name, key, before + ("/" + after)))
            == "{*}" + AttributePath(name, key, before + ("/" + ("{*}" + after)))
  {
    var a, b := Opening(name, key, before), Closing(after);
    SplitValue(name, key, before, after);
    SplitValue(name, key, before, "{*}" + after);
    ClosingWidened(after);
    AttributeChars(name, key, before);
    OpeningWidened(name, key, before);
    BothWidened(a, b);
  }

  lemma {:induction false} BothWidened(a: string, b: string)
    requires a != "" && b != "" && '/' !in a && '/' !in b && '{' !in a && '{' !in b
    requires RewriteSegment(a) == "{*}" + a && RewriteSegment(b) == "{*}" + b
    ensures Rewrite(a + ("/" + b)) == "{*}" + (a + ("/" + ("{*}" + b)))
  {
    var x := a + ("/" + b);
    assert '{' !in x && x != "";
    TwoPieces(a, b);
    RewriteIsOut(x);
    Regrouped(a, "{*}" + b);
  }

  lemma {:induction false} Regrouped(a: string, b: string)
    ensures "{*}" + (a + ("/" + b)) == ("{*}" + a) + ("/" + b)
  {
  }

  lemma {:induction false} ClosingWidened(after: string)
    requires forall c :: c in after ==> c !in {'/', '[', '.', '*', '@', '{', ':'}
    ensures var b := Closing(after);
            && b != "" && '/' !in b && '{' !in b && RewriteSegment(b) == "{*}" + b && Closing("{*}" + after) == "{*}" + b
  {
    ClosingChars(after);
    var b := Closing(after);
    WidenedSegment(b, |b|);
    assert "{*}" + after + (['\''] + "]") == "{*}" + b;
  }

  lemma {:induction false} OpeningWidened(name: string, key: string, before: string)
    requires PlainName(name)
    ensures RewriteSegment(Opening(name, key, before)) == "{*}" + Opening(name, key, before)
  {
    var a := Opening(name, key, before);
    assert forall k :: 0 <= k < |name| ==> a[k] == name[k];
    assert a[|name|] == '[';
    WidenedSegment(a, |name|);
  }

  lemma {:induction false} ClosingChars(after: string)
    requires forall c :: c in after ==> c !in {'/', '[', '.', '*', '@', '{', ':'}
    ensures var b := Closing(after); b != "" && forall k :: 0 <= k < |b| ==> b[k] !in {'/', '[', '.', '*', '@', '{', ':'}
  {
    var b := Closing(after);
    assert forall k :: 0 <= k < |after| ==> b[k] == after[k] && after[k] in after;
  }

  lemma {:induction false} AttributeChars(name: string, key: string, before: string)
    requires PlainName(name) && PlainName(key) && '/' !in before && '{' !in before
    ensures var a := Opening(name, key, before); a != "" && '/' !in a && '{' !in a
  {
    assert '/' !in name && '/' !in key && '{' !in name && '{' !in key;
  }

  /** The conditions are read as tests of an attribute, given by its value at a node. */
  ghost predicate ReadsAttribute<Id(!new)>(keep: Filter<Id>, key: string, attribute: Node<Id> -> Option<string>) {
    forall value, n :: keep(AttributeIs(key, value), n) <==> attribute(n) == Some(value)
  }

  /** What the two steps find among one child. */
  lemma {:induction false} OneChild<Id>(keep: Filter<Id>, test: Test, p: seq<Lexeme>, root: Tree<Id>, a: Tree<Id>)
    requires root.kids == [a]
    ensures Trees(Eval(keep, [Go(false, test), Where(p)], [Node([], root)]))
            == if Passes(test, a) && keep(p, Node([root], a)) then [a] else []
  {
    var start, n := Node([], root), Node([root], a);
    var steps := [Go(false, test), Where(p)];
    assert [] + [root] == [root];
    assert From(false, start) == Children([root], [a]) == [n] + Children([root], [a][1..]) == [n];
    OneMoved(test, start, n);
    assert [n][1..] == [] && Trees([n]) == [a];
    assert Filtered(keep, p, [n]) == if keep(p, n) then [n] else [];
    assert steps[1..] == [Where(p)] && steps[1..][1..] == [];
    var r := Move(false, test, [start]);
    assert Eval(keep, steps, [start]) == Eval(keep, [Where(p)], r) == Filtered(keep, p, r);
  }

  lemma {:induction false} OneMoved<Id>(test: Test, start: Node<Id>, n: Node<Id>)
    requires From(false, start) == [n]
    ensures Move(false, test, [start]) == if Passes(test, n.tree) then [n] else []
  {
    assert [start][1..] == [] && [n][1..] == [];
    assert Pick(test, [n]) == if Passes(test, n.tree) then [n] else [];
  }

  /** findall misses a namespaced element whose attribute value has a slash: asked for
    * name[@key='before/after'], the fallback looks for the value before/{*}after. */
  lemma {:induction false} QuotedSlashLosesAnswer<Id(!new)>(keep: Filter<Id>, attribute: Node<Id> -> Option<string>,
      name: string, key: string, before: string, after: string, root: Tree<Id>, a: Tree<Id>)
    requires PlainName(name) && PlainName(key) && forall c :: c in before ==> c !in {'/', '{', '\''}
    requires forall c :: c in after ==> c !in {'/', '[', '.', '*', '@', '{', ':', '\''}
    requires ReadsAttribute(keep, key, attribute) && root.kids == [a] && a.tag.local == name
    requires attribute(Node([root], a)) == Some(before + ("/" + after))
    ensures var x := AttributePath(name, key, before + ("/" + after));
            && Found(keep, Rewrite(x), root) == []
            && FindAll(keep, x, root) == if a.tag.ns == NoNamespace then [a] else []
  {
    var v, w := before + ("/" + after), before + ("/" + ("{*}" + after));
    var x := AttributePath(name, key, v);
    QuotedSlashRewritten(name, key, before, after);
    NoQuote(before, after);
    assert |v| != |w|;
    OnlyThatValue(keep, attribute, key, v, w, Node([root], a));
    ValueMissed(keep, name, key, v, w, root, a);
  }

  lemma {:induction false} OnlyThatValue<Id(!new)>(keep: Filter<Id>, attribute: Node<Id> -> Option<string>, key: string,
                                                   v: string, w: string, n: Node<Id>)
    requires ReadsAttribute(keep, key, attribute) && attribute(n) == Some(v) && v != w
    ensures keep(AttributeIs(key, v), n) && !keep(AttributeIs(key, w), n)
  {
  }

  lemma {:induction false} ValueMissed<Id>(keep: Filter<Id>, name: string, key: string, v: string, w: string,
                                           root: Tree<Id>, a: Tree<Id>)
    requires PlainName(name) && PlainName(key) && '\'' !in v && '\'' !in w && root.kids == [a] && a.tag.local == name
    requires keep(AttributeIs(key, v), Node([root], a)) && !keep(AttributeIs(key, w), Node([root], a))
    requires Rewrite(AttributePath(name, key, v)) == "{*}" + AttributePath(name, key, w)
    ensures Found(keep, Rewrite(AttributePath(name, key, v)), root) == []
    ensures FindAll(keep, AttributePath(name, key, v), root) == if a.tag.ns == NoNamespace then [a] else []
  {
    AttributeFound(keep, name, key, v, root, a);
    AttributeFound(keep, name, key, w, root, a);
    assert AttributePath(name, key, v) != "";
    FallbackMisses(keep, AttributePath(name, key, v), root);
  }

  lemma {:induction false} FallbackMisses<Id>(keep: Filter<Id>, x: string, root: Tree<Id>)
    requires x != "" && Found(keep, Rewrite(x), root) == []
    ensures FindAll(keep, x, root) == Found(keep, x, root)
  {
  }

  lemma {:induction false} NoQuote(before: string, after: string)
    requires '\'' !in before && '\'' !in after
    ensures '\'' !in before + ("/" + after) && '\'' !in before + ("/" + ("{*}" + after))
  {
  }

  /** What such a path finds among one child, as given and behind a wildcard. */
  lemma {:induction false} AttributeFound<Id>(keep: Filter<Id>, name: string, key: string, value: string, root: Tree<Id>, a: Tree<Id>)
    requires PlainName(name) && PlainName(key) && '\'' !in value && root.kids == [a] && a.tag.local == name
    ensures var x, kept := AttributePath(name, key, value), keep(AttributeIs(key, value), Node([root], a));
            && Found(keep, x, root) == (if kept && a.tag.ns == NoNamespace then [a] else [])
            && Found(keep, "{*}" + x, root) == (if kept then [a] else [])
  {
    AttributeSteps(name, key, value);
    var x := AttributePath(name, key, value);
    FoundBy(keep, x, Exactly(Tag(NoNamespace, name)), AttributeIs(key, value), root, a);
    FoundBy(keep, "{*}" + x, AnyNamespace(name), AttributeIs(key, value), root, a);
    assert Passes(Exactly(Tag(NoNamespace, name)), a) <==> a.tag.ns == NoNamespace;
  }

  lemma {:induction false} FoundBy<Id>(keep: Filter<Id>, x: string, test: Test, p: seq<Lexeme>, root: Tree<Id>, a: Tree<Id>)
    requires Compiled(x) == Some([Go(false, test), Where(p)]) && root.kids == [a]
    ensures Found(keep, x, root) == if Passes(test, a) && keep(p, Node([root], a)) then [a] else []
  {
    OneChild(keep, test, p, root, a);
  }

  /** Without a slash in the value the same query finds the element in any namespace. */
  lemma {:induction false} PlainValueFound<Id(!new)>(keep: Filter<Id>, attribute: Node<Id> -> Option<string>,
      name: string, key: string, value: string, root: Tree<Id>, a: Tree<Id>)
    requires PlainName(name) && PlainName(key) && forall c :: c in value ==> c !in {'/', '{', '\''}
    requires ReadsAttribute(keep, key, attribute) && root.kids == [a] && a.tag.local == name
    requires attribute(Node([root], a)) == Some(value)
    ensures FindAll(keep, AttributePath(name, key, value), root) == [a]
  {
    PlainValueRewritten(name, key, value);
    AttributeFound(keep, name, key, value, root, a);
  }

  lemma {:induction false} PlainValueRewritten(name: string, key: string, value: string)
    requires PlainName(name) && PlainName(key) && '/' !in value && '{' !in value
    ensures Rewrite(AttributePath(name, key, value)) == "{*}" + AttributePath(name, key, value)
  {
    var x := AttributePath(name, key, value);
    assert x == Opening(name, key, value) + (['\''] + "]");
    AttributeChars(name, key, value);
    assert '/' !in x && '{' !in x && x != "";
    assert forall k :: 0 <= k < |name| ==> x[k] == name[k];
    assert x[|name|] == '[';
    WidenedSegment(x, |name|);
    LastPiece("", x);
    assert "" + x == x;
    RewriteIsOut(x);
  }
}