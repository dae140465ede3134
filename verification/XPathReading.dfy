/** How the paths, pieces and tags of common/xpath_utils.py are read, said of their texts: which pieces are rewritten,
  * which names a path is walked along, which local name a tag or a piece has, and what findall answers. */
module XPathReading {
  import opened Options
  import opened Sequences
  import opened PyText
  import opened PyBlanks
  import opened ElementTree
  import opened XPathTokens
  import opened XPathRewrite
  import opened XPathWidening
  import opened XPathSteps
  import opened XPathQuery
  import opened XPathFallback
  import opened XPathCreate

  // ---------------------------------------------------------------- one piece

  /** The piece has a name in front of its brackets that is a name: not empty, a dot, two dots or a star. */
  predicate HasName(s: string, n: nat) {
    && n <= |s| && '[' !in s[..n] && (n < |s| ==> s[n] == '[')
    && s[..n] != "" && s[..n] != "." && s[..n] != ".." && s[..n] != "*"
  }

  /** A piece without a brace is changed exactly when it does not begin with "@" and has such a name; it then gets the
    * wildcard in place of what stands before the first colon of its name. */
  lemma {:induction false} SegmentIff(s: string, n: nat)
    requires s != "" && '{' !in s && n <= |s| && '[' !in s[..n] && (n < |s| ==> s[n] == '[')
    ensures RewriteSegment(s) != s <==> s[0] != '@' && HasName(s, n)
    ensures RewriteSegment(s) != s ==> exists k :: FirstColon(s[..n], k) && RewriteSegment(s) == "{*}" + s[k..]
  {
    NameParts(s, n);
    assert s[0] in s;
    if s[0] != '@' && HasName(s, n) {
      ChangedSegmentIs(s, n);
    }
  }

  lemma {:induction false} NameParts(s: string, n: nat)
    requires n <= |s| && '[' !in s[..n] && (n < |s| ==> s[n] == '[')
    ensures Base(s) == s[..n] && Predicates(s) == s[n..]
  {
    forall k | 0 <= k < n ensures s[k] != '[' {
      assert s[k] == s[..n][k];
    }
    UntilIs(s, 0, Is('['), n);
  }

  lemma {:induction false} ChangedSegmentIs(s: string, n: nat)
    requires s != "" && '{' !in s && s[0] != '@' && HasName(s, n)
    ensures RewriteSegment(s) != s && exists k :: FirstColon(s[..n], k) && RewriteSegment(s) == "{*}" + s[k..]
  {
    ChangedForm(s, n);
    var k := ColonCut(s[..n]);
    assert s == s[..n] + s[n..];
    Suffix(s, s[..n], s[n..], k, RewriteSegment(s));
    Braced(s, RewriteSegment(s));
  }

  lemma {:induction false} ChangedForm(s: string, n: nat)
    requires s != "" && '{' !in s && s[0] != '@' && HasName(s, n)
    ensures RewriteSegment(s) == "{*}" + AfterColon(s[..n]) + s[n..]
  {
    NameParts(s, n);
    assert s[0] in s && s[..n][0] == s[0];
  }

  lemma {:induction false} Braced(s: string, t: string)
    requires '{' !in s && t != "" && t[0] == '{'
    ensures t != s
  {
    assert t[0] in t;
  }

  lemma {:induction false} ColonCut(name: string) returns (k: nat)
    ensures FirstColon(name, k) && AfterColon(name) == name[k..]
  {
    k := ColonAt(name);
    FirstColonAt(name, k);
  }

  /** The text behind position k is the whole text when it has no colon, and else what follows the first colon. */
  predicate FirstColon(name: string, k: int) {
    0 <= k <= |name| && if ':' in name then k > 0 && name[k - 1] == ':' && ':' !in name[..k - 1] else k == 0
  }

  lemma {:induction false} FirstColonAt(name: string, k: nat)
    requires k <= |name| && AfterColon(name) == name[k..]
    ensures FirstColon(name, k)
  {
    if ':' in name {
      var m := ColonIndex(name);
      assert |name[k..]| == |name[m..]|;
    }
  }

  lemma {:induction false} ColonIndex(name: string) returns (m: nat)
    requires ':' in name
    ensures 0 < m <= |name| && name[m - 1] == ':' && ':' !in name[..m - 1] && AfterColon(name) == name[m..]
  {
    if name[0] == ':' {
      m := 1;
    } else {
      assert name == [name[0]] + name[1..];
      m := ColonIndex(name[1..]);
      assert name[1..][m..] == name[m + 1..];
      assert name[..m] == [name[0]] + name[1..][..m - 1];
      assert AfterColon(name[1..]) == FromColon(name[1..]);
      m := m + 1;
    }
  }

  /** A local name is what follows the last closing brace of a tag, and the whole tag without one. */
  lemma {:induction false} LocalNameIff(tag: string, local: string)
    ensures LocalName(tag) == local <==>
            '}' !in local && (tag == local || exists k :: 0 < k <= |tag| && tag[k - 1] == '}' && tag[k..] == local)
  {
    var m := LocalAt(tag);
    assert tag[0..] == tag;
    forall k | 0 < k <= |tag| && tag[k - 1] == '}' && '}' !in tag[k..] ensures k == m {
    }
  }

  lemma {:induction false} LocalAt(tag: string) returns (m: nat)
    ensures m <= |tag| && LocalName(tag) == tag[m..] && '}' !in tag[m..]
    ensures m == 0 <==> '}' !in tag
    ensures m > 0 ==> tag[m - 1] == '}'
  {
    if '}' !in tag {
      m := 0;
      assert tag[0..] == tag;
    } else if tag[|tag| - 1] == '}' {
      m := |tag|;
    } else {
      var k := |tag| - 1;
      assert tag == tag[..k] + [tag[k]];
      m := LocalAt(tag[..k]);
      assert tag[m..] == tag[..k][m..] + [tag[k]];
    }
  }

  /** The local name of a piece: of a Clark name what follows its brace, of a prefixed name what follows the first
    * colon, and the piece itself otherwise. */
  lemma {:induction false} LocalPartIs(part: string)
    requires part != ""
    ensures part[0] == '{' || ':' !in part ==> LocalPart(part) == LocalName(part)
    ensures part[0] != '{' ==> ':' in part ==> exists k :: FirstColon(part, k) && LocalPart(part) == part[k..]
  {
    if part[0] != '{' && ':' in part {
      var m := ColonIndex(part);
      assert FirstColon(part, m);
    }
  }

  // ---------------------------------------------------------------- the pieces of a path

  /** a/b/c. */
  function JoinNames(names: seq<string>): string {
    if names == [] then "" else if |names| == 1 then names[0] else names[0] + ("/" + JoinNames(names[1..]))
  }

  predicate Pieces(names: seq<string>) {
    forall i :: 0 <= i < |names| ==> names[i] != "" && '/' !in names[i]
  }

  /** The text is the pieces with single slashes between them, and perhaps one before and one behind. */
  predicate Spells(text: string, names: seq<string>) {
    var j := JoinNames(names);
    text == j || text == "/" + j || text == j + "/" || text == "/" + (j + "/")
  }

  /** What is left of the path between its blanks without "./" and one slash in front. */
  function Relative(path: string): string {
    var rest := if |path| >= 2 && path[..2] == "./" then path[2..] else path;
    if |rest| >= 1 && rest[..1] == "/" then rest[1..] else rest
  }

  lemma {:induction false} SegmentPieces(ts: seq<Token>)
    requires Normal(ts) && DoubleSlash !in ts
    ensures Pieces(Segments(ts))
    ensures Segments(ts) == [] ==> ts == [] || ts == [Slash]
    ensures Segments(ts) != [] ==> ts[0].Seg? ==> Opens(Render(ts), Segments(ts))
    ensures Segments(ts) != [] ==> !ts[0].Seg? ==> exists rest :: Render(ts) == "/" + rest && Opens(rest, Segments(ts))
  {
    if ts != [] {
      assert ts[0] in ts && forall t :: t in ts[1..] ==> t in ts;
      SegmentPieces(ts[1..]);
      if ts[0].Seg? {
        SegFirst(ts);
      } else {
        SlashFirst(ts);
      }
    }
  }

  /** The pieces joined, and perhaps a slash behind. */
  predicate Opens(text: string, names: seq<string>) {
    text == JoinNames(names) || text == JoinNames(names) + "/"
  }

  lemma {:induction false} SegFirst(ts: seq<Token>)
    requires Normal(ts) && DoubleSlash !in ts && ts != [] && ts[0].Seg?
    requires Segments(ts[1..]) == [] ==> ts[1..] == [] || ts[1..] == [Slash]
    requires Segments(ts[1..]) != [] ==> !ts[1].Seg? ==> exists rest :: Render(ts[1..]) == "/" + rest && Opens(rest, Segments(ts[1..]))
    ensures Opens(Render(ts), Segments(ts))
  {
    var name, more := ts[0].text, Segments(ts[1..]);
    assert Segments(ts) == [name] + more;
    assert Render(ts) == name + Render(ts[1..]);
    if more == [] {
      assert [name] + more == [name];
      if ts[1..] == [Slash] {
        assert Render([Slash]) == "/" + Render([Slash][1..]) && [Slash][1..] == [];
        assert Render(ts[1..]) == "/";
      }
    } else {
      var rest :| Render(ts[1..]) == "/" + rest && Opens(rest, more);
      assert ([name] + more)[1..] == more;
      if rest == JoinNames(more) + "/" {
        assert name + ("/" + (JoinNames(more) + "/")) == (name + ("/" + JoinNames(more))) + "/";
      }
    }
  }

  lemma {:induction false} SlashFirst(ts: seq<Token>)
    requires Normal(ts) && DoubleSlash !in ts && ts != [] && !ts[0].Seg?
    requires Segments(ts[1..]) == [] ==> ts[1..] == [] || ts[1..] == [Slash]
    requires Segments(ts[1..]) != [] ==> ts[1].Seg? ==> Opens(Render(ts[1..]), Segments(ts[1..]))
    ensures Segments(ts) == [] ==> ts == [Slash]
    ensures Segments(ts) != [] ==> exists rest :: Render(ts) == "/" + rest && Opens(rest, Segments(ts))
  {
    assert ts[0] in ts && ts[0] == Slash;
    assert Segments(ts) == [] + Segments(ts[1..]) == Segments(ts[1..]);
    if ts[1..] != [] {
      assert ts[1..][0].Seg?;
      assert Segments(ts[1..])[0] == ts[1].text;
      assert Render(ts) == "/" + Render(ts[1..]);
    } else {
      assert ts == [ts[0]] + ts[1..];
    }
  }

  lemma {:induction false} NoDoubleSlash(x: string, i: nat)
    requires i <= |x| && !HasDoubleSlash(x)
    ensures DoubleSlash !in TokensFrom(x, i)
    decreases |x| - i
  {
    if i < |x| {
      NoDoubleSlash(x, HeadEnd(x, i));
      assert Head(x, i) != DoubleSlash;
    }
  }

  /** A path is walked along exactly when what it is relative to the root has no adjacent slashes and no bracket, and is
    * more than a slash; and then along the pieces between its slashes. */
  lemma {:induction false} PathPartsIs(path: string, i: nat, j: nat)
    requires StandsAt(path, i, j)
    ensures var rest := Relative(path[i..j]);
            && (PathParts(path).None? <==> HasDoubleSlash(rest) || '[' in rest || rest == "" || rest == "/")
            && (PathParts(path).Some? ==>
                  PathParts(path).value != [] && Pieces(PathParts(path).value) && Spells(rest, PathParts(path).value))
  {
    StripIff(path, path[i..j]);
    WalkedParts(path);
    PartsOf(Relative(path[i..j]));
  }

  lemma {:induction false} WalkedParts(path: string)
    ensures var rest := Relative(Strip(path));
            PathParts(path) ==
            if HasDoubleSlash(rest) || '[' in rest || Segments(XPathRewrite.Tokens(rest)) == [] then None
            else Some(Segments(XPathRewrite.Tokens(rest)))
  {
    RelativeIs(Strip(path));
  }

  lemma {:induction false} PartsOf(rest: string)
    ensures var names := Segments(XPathRewrite.Tokens(rest));
            && (HasDoubleSlash(rest) || names != [] <==> rest != "" && rest != "/")
            && (!HasDoubleSlash(rest) && names != [] ==> Pieces(names) && Spells(rest, names))
  {
    var ts := XPathRewrite.Tokens(rest);
    TokensNormal(rest);
    if !HasDoubleSlash(rest) {
      NoDoubleSlash(rest, 0);
      SegmentPieces(ts);
      if rest == "/" {
        OneSlash();
      }
    }
  }

  lemma {:induction false} OneSlash()
    ensures XPathRewrite.Tokens("/") == [Slash] && Segments([Slash]) == [] && !HasDoubleSlash("/")
  {
    var x := "/";
    assert Head(x, 0) == Slash && HeadEnd(x, 0) == 1 && TokensFrom(x, 1) == [];
    assert [Slash] + [] == [Slash] && [Slash][1..] == [];
  }

  lemma {:induction false} RelativeIs(path: string)
    ensures var rest := if |path| >= 2 && path[0] == '.' && path[1] == '/' then path[2..] else path;
            Relative(path) == if rest != "" && rest[0] == '/' then rest[1..] else rest
  {
    if |path| >= 2 {
      assert path[..2] == [path[0], path[1]];
    }
    var rest := if |path| >= 2 && path[0] == '.' && path[1] == '/' then path[2..] else path;
    if rest != "" {
      assert rest[..1] == [rest[0]];
    }
  }

  // ---------------------------------------------------------------- Clark names, parents, findall

  /** A name with a URI in braces asks for that name in that namespace, and a star behind the braces for any name in it. */
  lemma {:induction false} ClarkName(uri: string, local: string)
    requires uri != "" && uri != "*" && '}' !in uri
    ensures TestOf("{" + (uri + ("}" + local))) == if local == "*" then InNamespace(Uri(uri)) else Exactly(Tag(Uri(uri), local))
  {
    var name := "{" + (uri + ("}" + local));
    var k := |uri| + 1;
    assert name[k] == '}' && name[k + 1..] == local && name[1..k] == uri;
    forall m | 0 <= m < k ensures name[m] != '}' {
      if m > 0 {
        assert name[m] == uri[m - 1] && uri[m - 1] in uri;
      }
    }
    UntilIs(name, 0, Is('}'), k);
    assert name[k] in name;
    assert name[..3][1] == uri[0];
    if |uri| == 1 {
      assert uri == [uri[0]];
    } else {
      assert name[..3][2] == uri[1] && uri[1] in uri;
    }
  }

  /** So an element passes exactly when it is in that namespace and has that name, if one is asked for. */
  lemma {:induction false} ClarkAccepts(uri: string, local: string, tag: Tag)
    requires uri != "" && uri != "*" && '}' !in uri
    ensures Accepts(TestOf("{" + (uri + ("}" + local))), tag) <==> tag.ns == Uri(uri) && (local == "*" || tag.local == local)
  {
    ClarkName(uri, local);
  }

  /** A star alone finds all children of the root, in any namespace. */
  lemma {:induction false} StarFindsChildren<Id>(keep: Filter<Id>, root: Tree<Id>)
    ensures Found(keep, "*", root) == root.kids
  {
    StarCompiled();
    var start := [Node([], root)];
    var steps := [Go(false, AnyName)];
    assert steps[1..] == [] && start[1..] == [] && Move<Id>(false, AnyName, []) == [];
    AllPicked([root], root.kids);
    assert [] + [root] == [root];
    var kids := Children([root], root.kids);
    assert From(false, start[0]) == kids && kids + [] == kids;
    assert Move(false, AnyName, start) == kids;
    assert Eval(keep, steps, start) == kids;
  }

  lemma {:induction false} StarCompiled()
    ensures Compiled("*") == Some([Go(false, AnyName)])
  {
    var x := "*";
    StarToken(x, 0);
    assert Lex(x, 1) == [] && [Mark("*")] + [] == [Mark("*")];
    assert Lex(x, 0) == [Mark("*")];
    assert HasPathChar(x, 0, true) && Completed(x) == x;
    var t := Mark("*");
    assert [t][1..] == [] && Parse([], After) == Some([]);
    assert [Go(false, AnyName)] + [] == [Go(false, AnyName)];
    assert Parse([t], First) == Then(Go(false, AnyName), Parse([], After));
  }

  lemma {:induction false} AllPicked<Id>(above: seq<Tree<Id>>, ts: seq<Tree<Id>>)
    ensures Pick(AnyName, Children(above, ts)) == Children(above, ts) && Trees(Children(above, ts)) == ts
  {
    if ts != [] {
      AllPicked(above, ts[1..]);
    }
  }

  /** Such a name is no path, whatever characters the URI has, but a tag to compare with. */
  lemma {:induction false} ClarkIsDirect(uri: string, local: string)
    requires uri != "" && uri != "*" && '}' !in uri && local != ""
    requires forall i :: 0 <= i < |local| ==> !PathChar(local[i]) && local[i] !in {'{', '}'}
    ensures Compiled("{" + (uri + ("}" + local))) == Some([Go(false, Exactly(Tag(Uri(uri), local)))])
  {
    var x := "{" + (uri + ("}" + local));
    ClarkName(uri, local);
    ClosedBraces(x, |uri| + 1);
    assert x[1] == uri[0] && uri[0] in uri && !PathChar(local[0]);
    if |uri| == 1 {
      assert uri == [uri[0]];
    } else {
      assert x[2] == uri[1] && uri[1] in uri;
    }
  }

  /** Between the braces nothing counts, and behind them there is nothing that does. */
  lemma {:induction false} ClosedBraces(x: string, k: nat)
    requires 0 < k < |x| && x[0] == '{' && x[k] == '}' && forall i :: 0 < i < k ==> x[i] != '}'
    requires forall i :: k < i < |x| ==> !PathChar(x[i]) && x[i] !in {'{', '}'}
    ensures !HasPathChar(x, 0, true)
  {
    BehindBraces(x, k + 1);
    InBraces(x, 1, k);
  }

  lemma {:induction false} BehindBraces(x: string, i: nat)
    requires i <= |x| && forall j :: i <= j < |x| ==> !PathChar(x[j]) && x[j] !in {'{', '}'}
    ensures !HasPathChar(x, i, true)
    decreases |x| - i
  {
    if i < |x| {
      BehindBraces(x, i + 1);
    }
  }

  lemma {:induction false} InBraces(x: string, i: nat, k: nat)
    requires i <= k < |x| && x[k] == '}' && (forall j :: i <= j < k ==> x[j] != '}') && !HasPathChar(x, k + 1, true)
    ensures !HasPathChar(x, i, false)
    decreases k - i
  {
    if i < k {
      InBraces(x, i + 1, k);
    }
  }

  /** A path from the root of the document raises. */
  lemma {:induction false} AbsoluteRaises(x: string)
    requires x != "" && x[0] == '/'
    ensures Compiled(x) == None
  {
  }

  /** A slash at the end asks for all children. */
  lemma {:induction false} TrailingSlash(x: string)
    requires x != "" && x[|x| - 1] == '/' && '{' !in x
    ensures Compiled(x) == Compiled(x + "*")
  {
    var k := |x| - 1;
    PathCharLater(x, 0, k);
    PathCharLater(x + "*", 0, k);
    assert (x + "*")[0] == x[0];
  }

  lemma {:induction false} PathCharLater(s: string, i: nat, k: nat)
    requires i <= k < |s| && PathChar(s[k]) && forall m :: i <= m < k ==> s[m] != '{'
    ensures HasPathChar(s, i, true)
    decreases k - i
  {
    if i < k && !PathChar(s[i]) {
      PathCharLater(s, i + 1, k);
    }
  }

  /** The conditions in brackets that can be evaluated: an attribute, a child, their values and the own text compared
    * with a quoted one either way, a number from 1 on, and the last place or one before it. */
  lemma {:induction false} KnownForms(tag: string, key: string, q: string, n: string, op: Lexeme)
    requires op == Mark("=") || op == Mark("!=")
    requires !Numeric(tag) && Numeric(n) && n[0] != '-' && !Zero(n)
    ensures Known([Mark("@"), Name(key)]) && Known([Mark("@"), Name(key), op, Quoted(q)])
    ensures Known([Name(tag)]) && Known([Name(tag), op, Quoted(q)]) && Known([Mark("."), op, Quoted(q)])
    ensures Known([Name(n)]) && Known([Name("last"), Mark("()")]) && Known([Name("last"), Mark("()"), Name("-" + n)])
  {
    assert ("-" + n)[1..] == n && Magnitude("-" + n) == n && Magnitude(n) == n;
  }

  /** ".." gives each parent once. */
  lemma {:induction false} ParentsOnce<Id>(ctx: seq<Node<Id>>)
    ensures Distinct(Parents(ctx))
  {
    if ctx != [] {
      ParentsOnce(ctx[..|ctx| - 1]);
    }
  }

  /** findall answers what the path finds, when it finds something, and else what its any-namespace query finds. */
  lemma {:induction false} FindAllIs<Id>(keep: Filter<Id>, x: string, root: Tree<Id>)
    requires x != ""
    ensures FindAll(keep, x, root) == if Found(keep, x, root) != [] then Found(keep, x, root) else Found(keep, Rewrite(x), root)
  {
  }
}
