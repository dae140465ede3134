/** Route templates of the permission check (services/dependency.py).
  *
  * A template such as "/case/{id}/v{major}.{minor}" is split on slashes, escaped with re.escape, and
  * every escaped placeholder is replaced by the group ([^/]+).  The text of the resulting regular
  * expression is modelled symbol by symbol, so that "the escaped text is literal" is proved here and
  * not assumed.
  */
module RouteTemplate {
  import opened Options
  import opened Sequences

  // ---------------------------------------------------------------- template text

  /** The characters that re.escape prefixes with a backslash. */
  predicate Special(c: char) {
    || c == '\\' || c == '{' || c == '}' || c == '(' || c == ')' || c == '[' || c == ']'
    || c == '?' || c == '*' || c == '+' || c == '-' || c == '|' || c == '^' || c == '$'
    || c == '.' || c == '&' || c == '~' || c == '#'
    || c == ' ' || c == '\t' || c == '\n' || c == '\r' || c == '\U{0B}' || c == '\U{0C}'
  }

  predicate IsBrace(c: char) {
    c == '{' || c == '}'
  }

  /** Length of the brace-free run s starts with. */
  function BraceFree(s: string): (k: nat)
    ensures k <= |s|
  {
    if s == [] || IsBrace(s[0]) then 0 else 1 + BraceFree(s[1..])
  }

  /** A template is literal characters and named placeholders. */
  datatype Token = Lit(c: char) | Param(name: string)

  /** A placeholder starts s: a brace, one or more non-braces, a closing brace.  The run cannot
    * contain braces, so it ends at the first one whether the quantifier is lazy or greedy. */
  predicate ParamHead(s: string) {
    |s| > 0 && s[0] == '{' && var k := BraceFree(s[1..]); 0 < k < |s| - 1 && s[k + 1] == '}'
  }

  /** Index just past the placeholder. */
  function ParamEnd(s: string): (j: nat)
    requires ParamHead(s)
    ensures 2 < j <= |s|
  {
    BraceFree(s[1..]) + 2
  }

  /** One slash-free part of a template, read from left to right. */
  function Tokens(s: string): seq<Token> {
    if s == [] then []
    else if ParamHead(s) then
      [Param(s[1..ParamEnd(s) - 1])] + Tokens(s[ParamEnd(s)..])
    else [Lit(s[0])] + Tokens(s[1..])
  }

  /** What re.findall(r"\{([^{}]+?)\}", part) returns. */
  function FindNames(s: string): seq<string> {
    if s == [] then []
    else if ParamHead(s) then
      [s[1..ParamEnd(s) - 1]] + FindNames(s[ParamEnd(s)..])
    else FindNames(s[1..])
  }

  /** str.split("/"). */
  function Split(s: string): (parts: seq<string>)
    ensures |parts| > 0
  {
    if s == [] then [""]
    else if s[0] == '/' then [""] + Split(s[1..])
    else
      var rest := Split(s[1..]);
      [[s[0]] + rest[0]] + rest[1..]
  }

  /** The tokens of the parts, joined by literal slashes. */
  function JoinTokens(parts: seq<string>): seq<Token> {
    if parts == [] then []
    else if |parts| == 1 then Tokens(parts[0])
    else Tokens(parts[0]) + [Lit('/')] + JoinTokens(parts[1..])
  }

  function TemplateTokens(template: string): seq<Token> {
    JoinTokens(Split(template))
  }

  function Names(ts: seq<Token>): seq<string> {
    if ts == [] then []
    else if ts[0].Param? then [ts[0].name] + Names(ts[1..])
    else Names(ts[1..])
  }

  // ---------------------------------------------------------------- the regular expression

  /** re.escape. */
  function Escape(s: string): string {
    if s == [] then [] else EscapeChar(s[0]) + Escape(s[1..])
  }

  /** Regular-expression text: characters, and the group ([^/]+) put in by re.sub. */
  datatype Symbol = Ch(c: char) | Group

  /** An escaped placeholder starts e: backslash-brace, a non-empty brace-free run, backslash-brace.
    * The closing backslash is the last character before the first brace. */
  predicate GroupHead(e: string) {
    && |e| > 2 && e[0] == '\\' && e[1] == '{'
    && var k := BraceFree(e[2..]); 1 < k < |e| - 2 && e[k + 2] == '}' && e[k + 1] == '\\'
  }

  /** Index just past the escaped placeholder. */
  function GroupEnd(e: string): (j: nat)
    requires GroupHead(e)
    ensures 4 < j <= |e|
  {
    BraceFree(e[2..]) + 3
  }

  /** What re.sub(r"\\\{([^{}]+?)\\\}", r"([^/]+)", escaped) produces. */
  function Substitute(e: string): seq<Symbol> {
    if e == [] then []
    else if GroupHead(e) then [Group] + Substitute(e[GroupEnd(e)..])
    else [Ch(e[0])] + Substitute(e[1..])
  }

  /** The matching items a regular expression stands for. */
  datatype Item = Exact(c: char) | Segment

  /** A character with a meaning of its own in a regular expression. */
  predicate Meta(c: char) {
    c in {'.', '^', '$', '*', '+', '?', '{', '}', '[', ']', '\\', '|', '(', ')'}
  }

  /** A character that a backslash in front makes literal: letters and digits get a meaning by it instead. */
  predicate Quotable(c: char) {
    !('a' <= c <= 'z') && !('A' <= c <= 'Z') && !('0' <= c <= '9')
  }

  /** Reads a regular expression built from literals and groups; None when a character that has a
    * meaning of its own is left unescaped. */
  function ReadRegex(r: seq<Symbol>): Option<seq<Item>> {
    if r == [] then Some([])
    else if r[0].Group? then Cons(Segment, ReadRegex(r[1..]))
    else if r[0].c == '\\' then
      if |r| > 1 && r[1].Ch? && Quotable(r[1].c) then Cons(Exact(r[1].c), ReadRegex(r[2..])) else None
    else if Meta(r[0].c) then None
    else Cons(Exact(r[0].c), ReadRegex(r[1..]))
  }

  function Cons(item: Item, rest: Option<seq<Item>>): Option<seq<Item>> {
    if rest.Some? then Some([item] + rest.value) else None
  }

  function Items(ts: seq<Token>): (items: seq<Item>)
    ensures |items| == |ts|
  {
    seq(|ts|, i requires 0 <= i < |ts| => if ts[i].Lit? then Exact(ts[i].c) else Segment)
  }

  /** "/".join of the substituted parts. */
  function JoinSymbols(parts: seq<seq<Symbol>>): seq<Symbol> {
    if parts == [] then []
    else if |parts| == 1 then parts[0]
    else parts[0] + [Ch('/')] + JoinSymbols(parts[1..])
  }

  /** One character of re.escape. */
  function EscapeChar(c: char): string {
    if Special(c) then ['\\', c] else [c]
  }

  lemma {:induction false} EscapeCons(c: char, t: string)
    ensures Escape([c] + t) == EscapeChar(c) + Escape(t)
    ensures Escape([c] + t)[|EscapeChar(c)|..] == Escape(t)
  {
    assert ([c] + t)[1..] == t;
  }

  lemma {:induction false} BraceFreeCons(c: char, t: string)
    requires !IsBrace(c)
    ensures BraceFree([c] + t) == 1 + BraceFree(t)
  {
    assert ([c] + t)[1..] == t;
  }

  /** A character that is no brace lengthens the run by what escaping makes of it. */
  lemma {:induction false} EscapedRunStep(c: char, e: string)
    requires !IsBrace(c)
    ensures BraceFree(EscapeChar(c) + e) == |EscapeChar(c)| + BraceFree(e)
  {
    if Special(c) {
      assert EscapeChar(c) + e == ['\\'] + ([c] + e);
      BraceFreeCons('\\', [c] + e);
      BraceFreeCons(c, e);
    } else {
      BraceFreeCons(c, e);
    }
  }

  /** The run before the next brace, escaped, ends with the backslash of that brace. */
  lemma {:induction false} EscapedRun(t: string)
    ensures var e := Escape(t); var r := BraceFree(t); var q := BraceFree(e);
            if r == |t| then q == |e|
            else
              && 0 < q < |e| && e[q] == t[r] && e[q - 1] == '\\' && (1 < q <==> 0 < r)
              && e[q + 1..] == Escape(t[r + 1..])
  {
    if t != "" {
      var e, n := Escape(t), |EscapeChar(t[0])|;
      assert t == [t[0]] + t[1..];
      EscapeCons(t[0], t[1..]);
      if IsBrace(t[0]) {
        assert BraceFree(e) == 1 + BraceFree(e[1..]) && BraceFree(e[1..]) == 0;
      } else {
        EscapedRun(t[1..]);
        EscapedRunStep(t[0], Escape(t[1..]));
        var r, q := BraceFree(t[1..]), BraceFree(e[n..]);
        if r < |t[1..]| {
          assert e[n + q + 1..] == e[n..][q + 1..] && t[r + 2..] == t[1..][r + 1..];
        }
      }
    }
  }

  /** The escaped text shows a group at its head exactly where the part shows a placeholder. */
  lemma EscapedHead(s: string)
    requires |s| > 0
    ensures GroupHead(Escape(s)) <==> ParamHead(s)
    ensures ParamHead(s) ==> Escape(s)[GroupEnd(Escape(s))..] == Escape(s[ParamEnd(s)..])
  {
    var e := Escape(s);
    assert e == EscapeChar(s[0]) + Escape(s[1..]);
    if s[0] == '{' {
      EscapedRun(s[1..]);
      assert e[2..] == Escape(s[1..]);
      if ParamHead(s) {
        assert e[GroupEnd(e)..] == e[2..][BraceFree(e[2..]) + 1..];
        assert s[ParamEnd(s)..] == s[1..][BraceFree(s[1..]) + 1..];
      }
    }
  }

  lemma SubstituteCons(c: char, e: string)
    requires !GroupHead([c] + e)
    ensures Substitute([c] + e) == [Ch(c)] + Substitute(e)
  {
    assert ([c] + e)[1..] == e;
  }

  /** A brace is never the first character of an escaped text: its backslash is. */
  lemma EscapedStart(s: string)
    ensures Escape(s) != "" ==> Escape(s)[0] != '{'
  {
  }

  /** The symbols an escaped literal character leaves. */
  function Escaped(c: char): seq<Symbol> {
    if Special(c) then [Ch('\\'), Ch(c)] else [Ch(c)]
  }

  /** Substituting in the escaped text never starts a group in the middle of an escaped character. */
  lemma SubstituteStep(s: string)
    requires |s| > 0 && !ParamHead(s)
    ensures Substitute(Escape(s)) ==
            Escaped(s[0]) + Substitute(Escape(s[1..]))
  {
    var rest := Escape(s[1..]);
    EscapedHead(s);
    EscapedStart(s[1..]);
    SubstituteChar(Escape(s), s[0], rest);
  }

  lemma SubstituteChar(e: string, c: char, rest: string)
    requires rest != "" ==> rest[0] != '{'
    requires e == EscapeChar(c) + rest && !GroupHead(e)
    ensures Substitute(e) == Escaped(c) + Substitute(rest)
  {
    NoHeadInside(c, rest);
    if Special(c) {
      SubstituteTwo(e, '\\', c, rest);
    } else {
      SubstituteCons(c, rest);
    }
  }

  lemma SubstituteTwo(e: string, b: char, c: char, rest: string)
    requires e == [b, c] + rest && !GroupHead(e) && !GroupHead([c] + rest)
    ensures Substitute(e) == [Ch(b), Ch(c)] + Substitute(rest)
  {
    assert e == [b] + ([c] + rest);
    SubstituteCons(b, [c] + rest);
    SubstituteCons(c, rest);
  }

  lemma NoHeadInside(c: char, rest: string)
    requires rest != "" ==> rest[0] != '{'
    ensures !GroupHead([c] + rest)
  {
    if rest != "" {
      assert ([c] + rest)[1] == rest[0];
    }
  }

  /** The symbols at the head of a regular expression that stand for one item. */
  predicate Reads(head: seq<Symbol>, item: Item) {
    || (head == [Group] && item == Segment)
    || (item.Exact? && head == [Ch(item.c)] && !Meta(item.c))
    || (item.Exact? && head == [Ch('\\'), Ch(item.c)] && Quotable(item.c))
  }

  /** Reading back what one token of the part became. */
  lemma ReadStep(r: seq<Symbol>, head: seq<Symbol>, item: Item, rest: seq<Symbol>, items: seq<Item>)
    requires ReadRegex(rest) == Some(items) && r == head + rest
    requires Reads(head, item)
    ensures ReadRegex(r) == Some([item] + items)
  {
    assert r[|head|..] == rest;
  }

  /** The first token of a part: how many characters it takes, what it becomes and what it stands for. */
  function TokenLength(s: string): (k: nat)
    requires s != ""
    ensures 0 < k <= |s|
  {
    if ParamHead(s) then ParamEnd(s) else 1
  }

  function FirstItem(s: string): Item
    requires s != ""
  {
    if ParamHead(s) then Segment else Exact(s[0])
  }

  function FirstSymbols(s: string): seq<Symbol>
    requires s != ""
  {
    if ParamHead(s) then [Group] else Escaped(s[0])
  }

  lemma {:induction false} SubstituteFirst(s: string)
    requires s != ""
    ensures Substitute(Escape(s)) == FirstSymbols(s) + Substitute(Escape(s[TokenLength(s)..]))
  {
    if ParamHead(s) {
      EscapedHead(s);
    } else {
      SubstituteStep(s);
    }
  }

  lemma {:induction false} ItemsCons(t: Token, ts: seq<Token>)
    ensures Items([t] + ts) == [if t.Lit? then Exact(t.c) else Segment] + Items(ts)
  {
  }

  lemma {:induction false} FirstToken(s: string)
    requires s != ""
    ensures Items(Tokens(s)) == [FirstItem(s)] + Items(Tokens(s[TokenLength(s)..]))
  {
    ItemsCons(Tokens(s)[0], Tokens(s[TokenLength(s)..]));
  }

  /** Escape, substitute and read back: exactly the tokens of the part, with no metacharacter left. */
  lemma {:induction false} PartRegex(s: string)
    ensures ReadRegex(Substitute(Escape(s))) == Some(Items(Tokens(s)))
    decreases |s|
  {
    if s == "" {
      assert Escape(s) == "";
    } else {
      var rest := s[TokenLength(s)..];
      PartRegex(rest);
      SubstituteFirst(s);
      FirstToken(s);
      ReadStep(Substitute(Escape(s)), FirstSymbols(s), FirstItem(s), Substitute(Escape(rest)), Items(Tokens(rest)));
    }
  }

  /** The symbols of the first item, and what is left. */
  lemma {:induction false} FirstRead(r: seq<Symbol>) returns (k: nat, item: Item)
    requires r != [] && ReadRegex(r).Some?
    ensures 0 < k <= |r| && Reads(r[..k], item) && ReadRegex(r[k..]).Some?
    ensures ReadRegex(r) == Some([item] + ReadRegex(r[k..]).value)
  {
    k := if r[0].Ch? && r[0].c == '\\' then 2 else 1;
    item := if r[0].Group? then Segment else Exact(r[k - 1].c);
  }

  lemma {:induction false} ReadConcat(a: seq<Symbol>, b: seq<Symbol>)
    requires ReadRegex(a).Some? && ReadRegex(b).Some?
    ensures ReadRegex(a + b) == Some(ReadRegex(a).value + ReadRegex(b).value)
    decreases |a|
  {
    if a == [] {
      assert a + b == b && [] + ReadRegex(b).value == ReadRegex(b).value;
    } else {
      var k, item := FirstRead(a);
      var items := ReadRegex(a[k..]).value;
      ReadConcat(a[k..], b);
      assert a + b == a[..k] + (a[k..] + b);
      ReadStep(a + b, a[..k], item, a[k..] + b, items + ReadRegex(b).value);
      assert [item] + (items + ReadRegex(b).value) == ReadRegex(a).value + ReadRegex(b).value;
    }
  }

  lemma ItemsConcat(a: seq<Token>, b: seq<Token>)
    ensures Items(a + b) == Items(a) + Items(b)
  {
  }

  /** The symbols of every part. */
  function PartSymbols(parts: seq<string>): (r: seq<seq<Symbol>>)
    ensures |r| == |parts|
  {
    seq(|parts|, i requires 0 <= i < |parts| => Substitute(Escape(parts[i])))
  }

  lemma {:induction false} JoinedRegex(parts: seq<string>)
    requires |parts| > 0
    ensures ReadRegex(JoinSymbols(PartSymbols(parts))) == Some(Items(JoinTokens(parts)))
  {
    var syms := PartSymbols(parts);
    PartRegex(parts[0]);
    if |parts| > 1 {
      JoinedRegex(parts[1..]);
      assert syms[1..] == PartSymbols(parts[1..]);
      JoinedTail(syms[0], JoinSymbols(syms[1..]), Tokens(parts[0]), JoinTokens(parts[1..]));
      assert JoinSymbols(syms) == syms[0] + [Ch('/')] + JoinSymbols(syms[1..]);
      assert JoinTokens(parts) == Tokens(parts[0]) + [Lit('/')] + JoinTokens(parts[1..]);
    }
  }

  lemma JoinedTail(a: seq<Symbol>, b: seq<Symbol>, ta: seq<Token>, tb: seq<Token>)
    requires ReadRegex(a) == Some(Items(ta)) && ReadRegex(b) == Some(Items(tb))
    ensures ReadRegex(a + [Ch('/')] + b) == Some(Items(ta + [Lit('/')] + tb))
  {
    assert ReadRegex([]) == Some([]);
    ReadStep([Ch('/')], [Ch('/')], Exact('/'), [], []);
    assert [Exact('/')] + [] == [Exact('/')];
    ReadConcat(a, [Ch('/')]);
    ReadConcat(a + [Ch('/')], b);
    ItemsConcat(ta, [Lit('/')]);
    ItemsConcat(ta + [Lit('/')], tb);
    assert Items([Lit('/')]) == [Exact('/')];
  }

  lemma {:induction false} NamesConcat(a: seq<Token>, b: seq<Token>)
    ensures Names(a + b) == Names(a) + Names(b)
  {
    if a == [] {
      assert a + b == b;
    } else {
      NamesConcat(a[1..], b);
      assert (a + b)[1..] == a[1..] + b;
    }
  }

  lemma {:induction false} FindNamesAreTokens(s: string)
    ensures FindNames(s) == Names(Tokens(s))
    decreases |s|
  {
    if s == "" {
    } else if ParamHead(s) {
      FindNamesAreTokens(s[ParamEnd(s)..]);
    } else {
      FindNamesAreTokens(s[1..]);
    }
  }

  lemma {:induction false} JoinTokensNames(part: string, parts: seq<string>)
    ensures Names(JoinTokens([part] + parts)) == Names(Tokens(part)) + Names(JoinTokens(parts))
  {
    if parts == [] {
      assert [part] + parts == [part];
    } else {
      assert ([part] + parts)[1..] == parts;
      NamesConcat(Tokens(part), [Lit('/')]);
      NamesConcat(Tokens(part) + [Lit('/')], JoinTokens(parts));
      assert Names([Lit('/')]) == [];
    }
  }

  lemma {:induction false} NamesAssoc(a: seq<string>, b: seq<string>, c: seq<string>)
    ensures a + (b + c) == (a + b) + c
  {
  }

  lemma {:induction false} JoinTokensSnoc(parts: seq<string>, part: string)
    ensures Names(JoinTokens(parts + [part])) == Names(JoinTokens(parts)) + Names(Tokens(part))
  {
    if parts == [] {
      assert parts + [part] == [part];
    } else {
      var rest := parts[1..];
      JoinTokensSnoc(rest, part);
      JoinTokensNames(parts[0], rest + [part]);
      JoinTokensNames(parts[0], rest);
      assert parts + [part] == [parts[0]] + (rest + [part]) && parts == [parts[0]] + rest;
      NamesAssoc(Names(Tokens(parts[0])), Names(JoinTokens(rest)), Names(Tokens(part)));
    }
  }

  lemma CollectStep(parts: seq<string>, i: nat)
    requires i < |parts|
    ensures Names(JoinTokens(parts[..i + 1])) == Names(JoinTokens(parts[..i])) + FindNames(parts[i])
  {
    FindNamesAreTokens(parts[i]);
    JoinTokensSnoc(parts[..i], parts[i]);
    assert parts[..i + 1] == parts[..i] + [parts[i]];
  }

  /** _compile_router_path: the regular expression and the parameter names.  Whatever characters the
    * template holds, the expression reads as its literal text with one group per placeholder, and
    * the names pair up with the groups one to one. */
  method CompileRouterPath(template: string) returns (pattern: seq<Symbol>, params: seq<string>)
    ensures ReadRegex(pattern) == Some(Items(TemplateTokens(template)))
    ensures params == Names(TemplateTokens(template))
  {
    var parts := Split(template);
    var reParts: seq<seq<Symbol>> := [];
    params := [];
    for i := 0 to |parts|
      invariant |reParts| == i
      invariant forall k :: 0 <= k < i ==> reParts[k] == Substitute(Escape(parts[k]))
      invariant params == Names(JoinTokens(parts[..i]))
    {
      params := params + FindNames(parts[i]);
      reParts := reParts + [Substitute(Escape(parts[i]))];
      CollectStep(parts, i);
    }
    assert parts[..|parts|] == parts;
    pattern := JoinSymbols(reParts);
    JoinedRegex(parts);
    assert reParts == PartSymbols(parts);
  }

  // ---------------------------------------------------------------- matching

  /** Length of the longest slash-free prefix: what [^/]+ can take at most. */
  function RunLength(p: string): (k: nat)
    ensures k <= |p| && '/' !in p[..k] && (k < |p| ==> p[k] == '/')
  {
    if p == [] || p[0] == '/' then 0
    else
      assert p == [p[0]] + p[1..];
      1 + RunLength(p[1..])
  }

  lemma RunLengthIsLongest(p: string, n: nat)
    requires n <= |p| && '/' !in p[..n]
    ensures n <= RunLength(p)
  {
    assert forall i :: 0 <= i < n ==> p[..n][i] == p[i];
  }

  /** fullmatch with backtracking: every group first takes as much as it can. */
  function Match(items: seq<Item>, p: string): Option<seq<string>>
    decreases |items|, |p|, 1
  {
    if items == [] then (if p == [] then Some([]) else None)
    else if items[0].Exact? then
      if p != [] && p[0] == items[0].c then Match(items[1..], p[1..]) else None
    else TryRun(items, p, RunLength(p))
  }

  /** Lets the leading group take k characters, then fewer. */
  function TryRun(items: seq<Item>, p: string, k: nat): Option<seq<string>>
    requires items != [] && k <= |p|
    decreases |items|, k, 0
  {
    if k == 0 then None
    else
      var rest := Match(items[1..], p[k..]);
      if rest.Some? then Some([p[..k]] + rest.value) else TryRun(items, p, k - 1)
  }

  function Groups(items: seq<Item>): nat {
    if items == [] then 0 else (if items[0].Segment? then 1 else 0) + Groups(items[1..])
  }

  /** A value a path parameter may take. */
  predicate IsValue(v: string) {
    v != "" && '/' !in v
  }

  predicate AreValues(vs: seq<string>) {
    forall i :: 0 <= i < |vs| ==> IsValue(vs[i])
  }

  /** The path a template stands for once its placeholders are given values. */
  function Fill(items: seq<Item>, vs: seq<string>): string
    requires |vs| == Groups(items)
  {
    if items == [] then []
    else if items[0].Exact? then [items[0].c] + Fill(items[1..], vs)
    else vs[0] + Fill(items[1..], vs[1..])
  }

  predicate Fills(items: seq<Item>, vs: seq<string>, p: string) {
    |vs| == Groups(items) && AreValues(vs) && Fill(items, vs) == p
  }

  /** g was found first: any other filling first differs from g by a shorter value. */
  predicate GreedyFirst(g: seq<string>, vs: seq<string>)
    requires |g| == |vs|
  {
    g == vs || exists k :: 0 <= k < |g| && g[..k] == vs[..k] && |vs[k]| < |g[k]|
  }

  lemma {:induction false} MatchSound(items: seq<Item>, p: string)
    requires Match(items, p).Some?
    ensures Fills(items, Match(items, p).value, p)
    decreases |items|, |p|, 1
  {
    if items == [] {
    } else if items[0].Exact? {
      MatchSound(items[1..], p[1..]);
      assert p == [p[0]] + p[1..];
    } else {
      TryRunSound(items, p, RunLength(p));
    }
  }

  lemma {:induction false} TryRunSound(items: seq<Item>, p: string, k: nat)
    requires items != [] && items[0].Segment? && k <= RunLength(p)
    requires TryRun(items, p, k).Some?
    ensures Fills(items, TryRun(items, p, k).value, p)
    decreases |items|, k, 0
  {
    if Match(items[1..], p[k..]).Some? {
      MatchSound(items[1..], p[k..]);
      var g := TryRun(items, p, k).value;
      assert p == p[..k] + p[k..] && g[1..] == Match(items[1..], p[k..]).value;
      assert p[..k] == p[..RunLength(p)][..k];
    } else {
      TryRunSound(items, p, k - 1);
    }
  }

  lemma {:induction false} MatchComplete(items: seq<Item>, vs: seq<string>, p: string)
    requires Fills(items, vs, p)
    ensures Match(items, p).Some? && |Match(items, p).value| == |vs| && GreedyFirst(Match(items, p).value, vs)
    decreases |items|, |p|, 1
  {
    if items == [] {
      assert vs == [];
    } else if items[0].Exact? {
      assert p[1..] == Fill(items[1..], vs);
      MatchComplete(items[1..], vs, p[1..]);
    } else {
      var n := |vs[0]|;
      assert p[..n] == vs[0] && p[n..] == Fill(items[1..], vs[1..]);
      RunLengthIsLongest(p, n);
      TryRunComplete(items, vs, p, RunLength(p));
    }
  }

  lemma {:induction false} TryRunComplete(items: seq<Item>, vs: seq<string>, p: string, k: nat)
    requires Fills(items, vs, p) && items != [] && items[0].Segment?
    requires |vs[0]| <= k <= RunLength(p)
    ensures TryRun(items, p, k).Some? && |TryRun(items, p, k).value| == |vs|
    ensures GreedyFirst(TryRun(items, p, k).value, vs)
    decreases |items|, k, 0
  {
    var n := |vs[0]|;
    assert p[..n] == vs[0] && p[n..] == Fill(items[1..], vs[1..]);
    var rest := Match(items[1..], p[k..]);
    if k == n {
      MatchComplete(items[1..], vs[1..], p[k..]);
      var g := rest.value;
      var all := TryRun(items, p, k).value;
      assert all == [vs[0]] + g && vs == [vs[0]] + vs[1..];
      if g != vs[1..] {
        var i :| 0 <= i < |g| && g[..i] == vs[1..][..i] && |vs[1..][i]| < |g[i]|;
        assert all[..i + 1] == [vs[0]] + g[..i] && vs[..i + 1] == [vs[0]] + vs[1..][..i];
        assert |vs[i + 1]| < |all[i + 1]|;
      }
    } else if rest.Some? {
      MatchSound(items[1..], p[k..]);
      var all := TryRun(items, p, k).value;
      assert all[..0] == vs[..0] && |vs[0]| < |all[0]|;
    } else {
      TryRunComplete(items, vs, p, k - 1);
    }
  }

  /** The matcher decides "some values fill the template", and among all of them it finds the one
    * whose values are, from the left, as long as possible. */
  lemma MatchIff(items: seq<Item>, p: string)
    ensures Match(items, p).Some? <==> exists vs :: Fills(items, vs, p)
    ensures Match(items, p).Some? ==>
              && Fills(items, Match(items, p).value, p)
              && forall vs :: Fills(items, vs, p) ==>
                   |vs| == |Match(items, p).value| && GreedyFirst(Match(items, p).value, vs)
  {
    if Match(items, p).Some? {
      MatchSound(items, p);
    }
    forall vs | Fills(items, vs, p)
      ensures Match(items, p).Some? && |vs| == |Match(items, p).value| && GreedyFirst(Match(items, p).value, vs)
    {
      MatchComplete(items, vs, p);
    }
  }

  // ---------------------------------------------------------------- the two lookups

  /** _matches_router_path. */
  predicate MatchesRouterPath(template: string, path: string) {
    template == path || ('{' in template && Match(Items(TemplateTokens(template)), path).Some?)
  }

  /** dict(zip(names, groups)): a repeated name keeps its last group. */
  function ZipDict(names: seq<string>, groups: seq<string>): map<string, string>
    requires |names| == |groups|
  {
    if names == [] then map[]
    else ZipDict(names[..|names| - 1], groups[..|names| - 1])[names[|names| - 1] := groups[|names| - 1]]
  }

  lemma {:induction false} NamesAndGroups(ts: seq<Token>)
    ensures |Names(ts)| == Groups(Items(ts))
  {
    if ts != [] {
      NamesAndGroups(ts[1..]);
      assert Items(ts)[1..] == Items(ts[1..]);
    }
  }

  /** _extract_router_path_params. */
  function ExtractRouterPathParams(template: string, path: string): map<string, string> {
    if !MatchesRouterPath(template, path) then map[]
    else
      var ts := TemplateTokens(template);
      var m := Match(Items(ts), path);
      if m.None? then map[]
      else
        MatchSound(Items(ts), path);
        NamesAndGroups(ts);
        ZipDict(Names(ts), m.value)
  }

  /** Each placeholder replaced by its own text. */
  function Spelled(names: seq<string>): (vs: seq<string>)
    ensures |vs| == |names|
  {
    seq(|names|, i requires 0 <= i < |names| => "{" + names[i] + "}")
  }

  lemma {:induction false} SpelledPart(s: string)
    requires '/' !in s
    ensures SelfFills(Tokens(s), s)
    decreases |s|
  {
    if s != "" {
      var k := if ParamHead(s) then ParamEnd(s) else 1;
      SpelledPart(s[k..]);
      assert s == s[..k] + s[k..];
      assert Tokens(s) == [Tokens(s)[0]] + Tokens(s[k..]);
      SpelledToken(Tokens(s)[0], s[..k]);
      SelfFillsConcat([Tokens(s)[0]], Tokens(s[k..]), s[..k], s[k..]);
    }
  }

  lemma SpelledToken(t: Token, text: string)
    requires text == (if t.Lit? then [t.c] else "{" + t.name + "}") && '/' !in text
    ensures SelfFills([t], text)
  {
    var items := Items([t]);
    assert items[1..] == [] && [t][1..] == [];
    assert Names([t]) == if t.Param? then [t.name] else [];
    if t.Param? {
      assert Spelled([t.name]) == [text];
      assert Fill(items, [text]) == text + Fill([], []);
    } else {
      assert Fill(items, []) == [t.c] + Fill([], []);
    }
  }

  lemma {:induction false} FillConcat(a: seq<Item>, b: seq<Item>, va: seq<string>, vb: seq<string>)
    requires |va| == Groups(a) && |vb| == Groups(b)
    ensures Groups(a + b) == Groups(a) + Groups(b)
    ensures Fill(a + b, va + vb) == Fill(a, va) + Fill(b, vb)
  {
    if a == [] {
      assert a + b == b && va + vb == vb;
    } else {
      assert (a + b)[1..] == a[1..] + b;
      if a[0].Segment? {
        FillConcat(a[1..], b, va[1..], vb);
        assert (va + vb)[1..] == va[1..] + vb;
        assert Fill(a + b, va + vb) == va[0] + (Fill(a[1..], va[1..]) + Fill(b, vb));
      } else {
        FillConcat(a[1..], b, va, vb);
        assert Fill(a + b, va + vb) == [a[0].c] + (Fill(a[1..], va) + Fill(b, vb));
      }
    }
  }

  /** str.join("/"). */
  function JoinText(parts: seq<string>): string {
    if parts == [] then [] else if |parts| == 1 then parts[0] else parts[0] + "/" + JoinText(parts[1..])
  }

  lemma {:induction false} SplitJoin(s: string)
    ensures JoinText(Split(s)) == s
    ensures forall i :: 0 <= i < |Split(s)| ==> '/' !in Split(s)[i]
  {
    if s != "" {
      SplitJoin(s[1..]);
      var rest := Split(s[1..]);
      assert Split(s)[1..] == (if s[0] == '/' then rest else rest[1..]);
      assert s == [s[0]] + s[1..];
    }
  }

  predicate SelfFills(ts: seq<Token>, text: string) {
    && |Names(ts)| == Groups(Items(ts))
    && AreValues(Spelled(Names(ts)))
    && Fill(Items(ts), Spelled(Names(ts))) == text
  }

  lemma SelfFillsConcat(a: seq<Token>, b: seq<Token>, ta: string, tb: string)
    requires SelfFills(a, ta) && SelfFills(b, tb)
    ensures SelfFills(a + b, ta + tb)
  {
    NamesConcat(a, b);
    ItemsConcat(a, b);
    assert Spelled(Names(a) + Names(b)) == Spelled(Names(a)) + Spelled(Names(b));
    FillConcat(Items(a), Items(b), Spelled(Names(a)), Spelled(Names(b)));
  }

  lemma {:induction false} SpelledSlash()
    ensures SelfFills([Lit('/')], "/")
  {
    assert Items([Lit('/')]) == [Exact('/')] && [Exact('/')][1..] == [];
    assert Fill([Exact('/')], []) == ['/'] + Fill([], []);
    assert Names([Lit('/')]) == [];
  }

  lemma {:induction false} JoinUnfold(parts: seq<string>)
    requires |parts| > 1
    ensures JoinTokens(parts) == Tokens(parts[0]) + ([Lit('/')] + JoinTokens(parts[1..]))
    ensures JoinText(parts) == parts[0] + ("/" + JoinText(parts[1..]))
  {
  }

  lemma {:induction false} SpelledParts(parts: seq<string>)
    requires |parts| > 0 && forall i :: 0 <= i < |parts| ==> '/' !in parts[i]
    ensures SelfFills(JoinTokens(parts), JoinText(parts))
  {
    SpelledPart(parts[0]);
    if |parts| > 1 {
      var rest := parts[1..];
      SpelledParts(rest);
      SpelledSlash();
      SelfFillsConcat([Lit('/')], JoinTokens(rest), "/", JoinText(rest));
      SelfFillsConcat(Tokens(parts[0]), [Lit('/')] + JoinTokens(rest), parts[0], "/" + JoinText(rest));
      JoinUnfold(parts);
    }
  }

  /** A template is an instance of itself, so the shortcut on equal text never overrules the matcher. */
  lemma TemplateMatchesItself(template: string)
    ensures exists vs :: Fills(Items(TemplateTokens(template)), vs, template)
    ensures Match(Items(TemplateTokens(template)), template).Some?
  {
    SplitJoin(template);
    SpelledParts(Split(template));
    var ts := TemplateTokens(template);
    assert Fills(Items(ts), Spelled(Names(ts)), template);
    MatchIff(Items(ts), template);
  }

  lemma {:induction false} NoBraceNoNames(parts: seq<string>)
    requires forall i :: 0 <= i < |parts| ==> '{' !in parts[i]
    ensures Names(JoinTokens(parts)) == []
  {
    if parts != [] {
      NoBraceNoNames(parts[1..]);
      LiteralPart(parts[0]);
      NamesConcat(Tokens(parts[0]) + [Lit('/')], JoinTokens(parts[1..]));
      NamesConcat(Tokens(parts[0]), [Lit('/')]);
      assert Names([Lit('/')]) == [];
    }
  }

  lemma LiteralPart(s: string)
    requires '{' !in s
    ensures Names(Tokens(s)) == []
  {
  }

  lemma {:induction false} SplitChars(s: string, c: char)
    requires c !in s
    ensures forall i :: 0 <= i < |Split(s)| ==> c !in Split(s)[i]
  {
    if s != "" {
      SplitChars(s[1..], c);
    }
  }

  /** The permission check accepts a path exactly when some choice of non-empty slash-free values
    * turns the template into that path. */
  lemma MatchesIffInstance(template: string, path: string)
    ensures MatchesRouterPath(template, path)
            <==> exists vs :: Fills(Items(TemplateTokens(template)), vs, path)
  {
    var ts := TemplateTokens(template);
    TemplateMatchesItself(template);
    MatchIff(Items(ts), path);
    if '{' !in template {
      SplitChars(template, '{');
      NoBraceNoNames(Split(template));
      NamesAndGroups(ts);
      var self :| Fills(Items(ts), self, template);
      assert self == [];
      forall vs | Fills(Items(ts), vs, path)
        ensures template == path
      {
        assert vs == self;
      }
    }
  }

  // ---------------------------------------------------------------- extraction

  function Lookup(names: seq<string>, d: map<string, string>): (vs: seq<string>)
    requires forall i :: 0 <= i < |names| ==> names[i] in d
    ensures |vs| == |names|
  {
    seq(|names|, i requires 0 <= i < |names| => d[names[i]])
  }

  lemma {:induction false} ZipDictKeys(names: seq<string>, groups: seq<string>)
    requires |names| == |groups|
    ensures forall n :: n in ZipDict(names, groups) <==> n in names
  {
    if names != [] {
      var m := |names| - 1;
      ZipDictKeys(names[..m], groups[..m]);
      assert names == names[..m] + [names[m]];
    }
  }

  /** A name is bound to the value of its last occurrence. */
  lemma {:induction false} ZipDictLast(names: seq<string>, groups: seq<string>, i: nat)
    requires |names| == |groups| && i < |names|
    requires forall k :: i < k < |names| ==> names[k] != names[i]
    ensures names[i] in ZipDict(names, groups) && ZipDict(names, groups)[names[i]] == groups[i]
  {
    var m := |names| - 1;
    if i < m {
      ZipDictLast(names[..m], groups[..m], i);
    }
  }

  /** Putting the extracted values back into the template. */
  function Refill(template: string, path: string): string
    requires MatchesRouterPath(template, path)
  {
    var ts := TemplateTokens(template);
    var d := ExtractRouterPathParams(template, path);
    ExtractIsZip(template, path);
    NamesAndGroups(ts);
    Fill(Items(ts), Lookup(Names(ts), d))
  }

  /** The branch that returns an empty dictionary after a successful match is never taken. */
  lemma ExtractIsZip(template: string, path: string)
    ensures !MatchesRouterPath(template, path) ==> ExtractRouterPathParams(template, path) == map[]
    ensures MatchesRouterPath(template, path) ==>
              var ts := TemplateTokens(template);
              var m := Match(Items(ts), path);
              && m.Some?
              && Fills(Items(ts), m.value, path)
              && |Names(ts)| == |m.value|
              && ExtractRouterPathParams(template, path) == ZipDict(Names(ts), m.value)
              && forall n :: n in Names(ts) ==> n in ZipDict(Names(ts), m.value)
  {
    if MatchesRouterPath(template, path) {
      var ts := TemplateTokens(template);
      TemplateMatchesItself(template);
      MatchSound(Items(ts), path);
      NamesAndGroups(ts);
      ZipDictKeys(Names(ts), Match(Items(ts), path).value);
    }
  }

  lemma RefillDistinct(template: string, path: string)
    requires MatchesRouterPath(template, path) && Distinct(Names(TemplateTokens(template)))
    ensures Refill(template, path) == path
  {
    var ts := TemplateTokens(template);
    ExtractIsZip(template, path);
    var names, g := Names(ts), Match(Items(ts), path).value;
    forall i | 0 <= i < |names| ensures ZipDict(names, g)[names[i]] == g[i] {
      ZipDictLast(names, g, i);
    }
    assert Lookup(names, ZipDict(names, g)) == g;
  }

  /** Values of one character each: the path is then as short as the template allows, so no other
    * filling exists. */
  predicate UnitValues(vs: seq<string>) {
    forall i :: 0 <= i < |vs| ==> |vs[i]| == 1
  }

  lemma {:induction false} FillLength(items: seq<Item>, vs: seq<string>)
    requires |vs| == Groups(items) && AreValues(vs)
    ensures |Fill(items, vs)| >= |items|
    ensures |Fill(items, vs)| == |items| <==> UnitValues(vs)
  {
    if items != [] {
      if items[0].Segment? {
        FillLength(items[1..], vs[1..]);
        assert vs == [vs[0]] + vs[1..];
      } else {
        FillLength(items[1..], vs);
      }
    }
  }

  lemma {:induction false} UnitFillInjective(items: seq<Item>, vs: seq<string>, ws: seq<string>)
    requires |vs| == |ws| == Groups(items) && UnitValues(vs) && UnitValues(ws)
    requires Fill(items, vs) == Fill(items, ws)
    ensures vs == ws
  {
    if items != [] {
      var f, h := Fill(items, vs), Fill(items, ws);
      if items[0].Segment? {
        assert f[0] == vs[0][0] && h[0] == ws[0][0];
        assert f[1..] == Fill(items[1..], vs[1..]) && h[1..] == Fill(items[1..], ws[1..]);
        UnitFillInjective(items[1..], vs[1..], ws[1..]);
        assert vs == [vs[0]] + vs[1..] && ws == [ws[0]] + ws[1..];
      } else {
        assert f[1..] == Fill(items[1..], vs) && h[1..] == Fill(items[1..], ws);
        UnitFillInjective(items[1..], vs, ws);
      }
    }
  }

  /** A template that repeats a name has a path whose parameters cannot be put back. */
  lemma RepeatedNameLosesPath(template: string) returns (path: string)
    requires !Distinct(Names(TemplateTokens(template)))
    ensures MatchesRouterPath(template, path) && Refill(template, path) != path
  {
    var ts := TemplateTokens(template);
    var names := Names(ts);
    NamesAndGroups(ts);
    var i, j := RepeatedName(names);
    var vs: seq<string> := seq(|names|, k => if k == i then "a" else "b");
    path := Fill(Items(ts), vs);
    assert Fills(Items(ts), vs, path);
    MatchesIffInstance(template, path);
    ExtractIsZip(template, path);
    UnitFillingUnique(Items(ts), vs, Match(Items(ts), path).value);
    var d := ZipDict(names, vs);
    ZipDictLast(names, vs, j);
    ZipDictValues(names, vs);
    var ws := Lookup(names, d);
    assert ws[i] == "b" && vs[i] == "a";
    assert UnitValues(ws);
    if Refill(template, path) == path {
      UnitFillInjective(Items(ts), ws, vs);
    }
  }

  /** Two places of one name, the second being its last. */
  lemma RepeatedName(names: seq<string>) returns (i: nat, j: nat)
    requires !Distinct(names)
    ensures i < j < |names| && names[i] == names[j]
    ensures forall k :: j < k < |names| ==> names[k] != names[j]
  {
    i, j :| 0 <= i < j < |names| && names[i] == names[j];
    while exists k :: j < k < |names| && names[k] == names[j]
      invariant i < j < |names| && names[i] == names[j]
      decreases |names| - j
    {
      var k :| j < k < |names| && names[k] == names[j];
      j := k;
    }
  }

  lemma UnitFillingUnique(items: seq<Item>, vs: seq<string>, g: seq<string>)
    requires |vs| == |g| == Groups(items) && AreValues(vs) && AreValues(g) && UnitValues(vs)
    requires Fill(items, vs) == Fill(items, g)
    ensures vs == g
  {
    FillLength(items, vs);
    FillLength(items, g);
    UnitFillInjective(items, vs, g);
  }

  lemma {:induction false} ZipDictValues(names: seq<string>, groups: seq<string>)
    requires |names| == |groups|
    ensures forall n :: n in ZipDict(names, groups) ==> ZipDict(names, groups)[n] in groups
  {
    if names != [] {
      ZipDictValues(names[..|names| - 1], groups[..|names| - 1]);
    }
  }

  /** Extraction inverts the template on every path it accepts exactly when the template's parameter
    * names are distinct. */
  lemma ExtractRoundTripIff(template: string)
    ensures Distinct(Names(TemplateTokens(template)))
            <==> forall path :: MatchesRouterPath(template, path) ==> Refill(template, path) == path
  {
    if Distinct(Names(TemplateTokens(template))) {
      forall path | MatchesRouterPath(template, path) ensures Refill(template, path) == path {
        RefillDistinct(template, path);
      }
    } else {
      var path := RepeatedNameLosesPath(template);
    }
  }
}
