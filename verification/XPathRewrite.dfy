/** The namespace-tolerant rewriting of query paths (common/xpath_utils.py): the pieces its loop cuts a path
  * into, the path it returns, and that rewriting twice is rewriting once. */
module XPathRewrite {
  import opened Options
  import opened PyText
  import opened XPathTokens

  // ---------------------------------------------------------------- path text

  datatype Token = Slash | DoubleSlash | Seg(text: string)

  /** The first slash from position i on, or the end. */
  function SegEnd(x: string, i: nat): nat
    requires i <= |x|
  {
    Until(x, i, Is('/'))
  }

  /** Where the piece that starts at position i ends. */
  function HeadEnd(x: string, i: nat): (j: nat)
    requires i < |x|
    ensures i < j <= |x|
  {
    if i + 1 < |x| && x[i] == '/' && x[i + 1] == '/' then i + 2
    else if x[i] == '/' then i + 1
    else SegEnd(x, i)
  }

  /** The piece that starts at position i. */
  function Head(x: string, i: nat): Token
    requires i < |x|
  {
    if x[i] != '/' then Seg(x[i..SegEnd(x, i)])
    else if i + 1 < |x| && x[i + 1] == '/' then DoubleSlash
    else Slash
  }

  /** The pieces the rewriting loop cuts a path into, from position i on. */
  function TokensFrom(x: string, i: nat): seq<Token>
    requires i <= |x|
    decreases |x| - i
  {
    if i == |x| then [] else [Head(x, i)] + TokensFrom(x, HeadEnd(x, i))
  }

  function Tokens(x: string): seq<Token> { TokensFrom(x, 0) }

  function TokenText(t: Token): string {
    match t
    case Slash => "/"
    case DoubleSlash => "//"
    case Seg(s) => s
  }

  /** "".join(parts). */
  function Render(ts: seq<Token>): string {
    if ts == [] then "" else TokenText(ts[0]) + Render(ts[1..])
  }

  /** A segment up to its predicates. */
  function Base(s: string): string { s[..Until(s, 0, Is('['))] }

  function Predicates(s: string): string { s[Until(s, 0, Is('['))..] }

  predicate Reserved(name: string) {
    name == "" || name == "." || name == ".." || name == "*"
  }

  /** name.split(":", 1)[-1]. */
  function AfterColon(name: string): string {
    if ':' !in name then name else FromColon(name)
  }

  function FromColon(name: string): string
    requires ':' in name
  {
    if name[0] == ':' then name[1..] else FromColon(name[1..])
  }

  lemma {:induction false} AfterColonIn(name: string, c: char)
    requires c in AfterColon(name)
    ensures c in name
  {
    if ':' in name {
      assert name == [name[0]] + name[1..];
      if name[0] != ':' {
        AfterColonIn(name[1..], c);
      }
    }
  }

  /** _rewrite_segment_ns_agnostic. */
  function RewriteSegment(s: string): string {
    if Reserved(s) || s[0] == '@' || s[0] == '{' then s
    else
      var name := Base(s);
      if Reserved(name) || name[0] == '{' then s
      else "{*}" + AfterColon(name) + Predicates(s)
  }

  function RewriteToken(t: Token): Token {
    if t.Seg? then Seg(RewriteSegment(t.text)) else t
  }

  function RewriteTokens(ts: seq<Token>): seq<Token> {
    if ts == [] then [] else [RewriteToken(ts[0])] + RewriteTokens(ts[1..])
  }

  function RenderRewritten(ts: seq<Token>): string { Render(RewriteTokens(ts)) }

  /** What namespace_agnostic_xpath returns. */
  function Rewrite(x: string): string {
    if x == "" || '{' in x then x else RenderRewritten(Tokens(x))
  }

  /** namespace_agnostic_xpath as its loop over the path. */
  method NamespaceAgnosticXpath(xpath: string) returns (r: string)
    ensures r == Rewrite(xpath)
  {
    if xpath == "" || '{' in xpath {
      return xpath;
    }
    var parts: seq<string> := [];
    var i := 0;
    var n := |xpath|;
    while i < n
      invariant 0 <= i <= n
      invariant Progress(parts, TokensFrom(xpath, i), RenderRewritten(Tokens(xpath)))
    {
      Advance(xpath, parts, i, RenderRewritten(Tokens(xpath)));
      if i + 1 < n && xpath[i] == '/' && xpath[i + 1] == '/' {
        parts := parts + ["//"];
        i := i + 2;
        continue;
      }
      if xpath[i] == '/' {
        parts := parts + ["/"];
        i := i + 1;
        continue;
      }
      var j := i;
      while j < n && xpath[j] != '/'
        invariant i <= j <= n
        invariant SegEnd(xpath, j) == SegEnd(xpath, i)
      {
        j := j + 1;
      }
      parts := parts + [RewriteSegment(xpath[i..j])];
      i := j;
    }
    Finished(parts, RenderRewritten(Tokens(xpath)));
    r := Concat(parts);
  }

  /** The loop's invariant: what is joined so far and what is left make the result. */
  predicate Progress(parts: seq<string>, left: seq<Token>, whole: string) {
    Concat(parts) + RenderRewritten(left) == whole
  }

  lemma {:induction false} Advance(x: string, parts: seq<string>, i: nat, whole: string)
    requires i < |x| && Progress(parts, TokensFrom(x, i), whole)
    ensures Progress(parts + [TokenText(RewriteToken(Head(x, i)))], TokensFrom(x, HeadEnd(x, i)), whole)
  {
    Joined(parts, Head(x, i), TokensFrom(x, HeadEnd(x, i)), whole);
  }

  lemma {:induction false} Joined(parts: seq<string>, t: Token, rest: seq<Token>, whole: string)
    requires Progress(parts, [t] + rest, whole)
    ensures Progress(parts + [TokenText(RewriteToken(t))], rest, whole)
  {
    var p := TokenText(RewriteToken(t));
    RenderCons(t, rest);
    assert (parts + [p])[..|parts|] == parts;
    assert (Concat(parts) + p) + RenderRewritten(rest) == Concat(parts) + (p + RenderRewritten(rest));
  }

  lemma {:induction false} RenderCons(t: Token, ts: seq<Token>)
    ensures RenderRewritten([t] + ts) == TokenText(RewriteToken(t)) + RenderRewritten(ts)
  {
    assert ([t] + ts)[1..] == ts;
    var r := RewriteTokens([t] + ts);
    assert r[0] == RewriteToken(t) && r[1..] == RewriteTokens(ts);
  }

  lemma {:induction false} Finished(parts: seq<string>, whole: string)
    requires Progress(parts, [], whole)
    ensures Concat(parts) == whole
  {
    assert Concat(parts) + "" == Concat(parts);
  }

  function Concat(parts: seq<string>): string {
    if parts == [] then "" else Concat(parts[..|parts| - 1]) + parts[|parts| - 1]
  }

  // ---------------------------------------------------------------- idempotence

  /** Token lists that come from a path. */
  predicate Normal(ts: seq<Token>) {
    ts == [] || (NormalToken(ts[0]) && (|ts| > 1 ==> Follows(ts[0], ts[1])) && Normal(ts[1..]))
  }

  predicate NormalToken(t: Token) {
    t.Seg? ==> t.text != "" && '/' !in t.text
  }

  predicate Follows(t: Token, next: Token) {
    (t.Seg? ==> !next.Seg?) && (t.Slash? ==> next.Seg?)
  }

  lemma {:induction false} HeadNormal(x: string, i: nat)
    requires i < |x|
    ensures NormalToken(Head(x, i)) && TokenText(Head(x, i)) == x[i..HeadEnd(x, i)]
    ensures HeadEnd(x, i) < |x| ==> Follows(Head(x, i), Head(x, HeadEnd(x, i)))
  {
    UntilFree(x, i, Is('/'));
  }

  lemma {:induction false} TokensNormal(x: string)
    ensures Normal(Tokens(x)) && Render(Tokens(x)) == x
    ensures x != "" ==> Tokens(x) != []
  {
    TokensFromNormal(x, 0);
    assert x[0..] == x;
  }

  lemma {:induction false} TokensFromNormal(x: string, i: nat)
    requires i <= |x|
    ensures Normal(TokensFrom(x, i)) && Render(TokensFrom(x, i)) == x[i..]
    decreases |x| - i
  {
    if i < |x| {
      var j := HeadEnd(x, i);
      HeadNormal(x, i);
      TokensFromNormal(x, j);
      assert TokensFrom(x, i)[1..] == TokensFrom(x, j);
      assert x[i..] == x[i..j] + x[j..];
    }
  }

  lemma {:induction false} TokensOfRender(ts: seq<Token>)
    requires Normal(ts)
    ensures Tokens(Render(ts)) == ts
  {
    TokensAfter("", ts);
    assert "" + Render(ts) == Render(ts);
  }

  lemma {:induction false} TokensStep(x: string, i: nat, ts: seq<Token>)
    requires ts != [] && i < |x| && Head(x, i) == ts[0] && TokensFrom(x, HeadEnd(x, i)) == ts[1..]
    ensures TokensFrom(x, i) == ts
  {
    assert ts == [ts[0]] + ts[1..];
  }

  lemma {:induction false} TokensAfter(before: string, ts: seq<Token>)
    requires Normal(ts)
    ensures TokensFrom(before + Render(ts), |before|) == ts
    decreases |ts|
  {
    if ts != [] {
      TokensAfter(before + TokenText(ts[0]), ts[1..]);
      TokensNext(before, ts);
    } else {
      assert before + "" == before;
    }
  }

  lemma {:induction false} TokensNext(before: string, ts: seq<Token>)
    requires Normal(ts) && ts != []
    requires var earlier := before + TokenText(ts[0]); TokensFrom(earlier + Render(ts[1..]), |earlier|) == ts[1..]
    ensures TokensFrom(before + Render(ts), |before|) == ts
  {
    RenderNext(before, ts);
    FirstToken(before, ts);
    TokensStep(before + Render(ts), |before|, ts);
  }

  lemma {:induction false} RenderNext(before: string, ts: seq<Token>)
    requires ts != []
    ensures before + Render(ts) == (before + TokenText(ts[0])) + Render(ts[1..])
  {
    var text := TokenText(ts[0]);
    assert before + (text + Render(ts[1..])) == (before + text) + Render(ts[1..]);
  }

  lemma {:induction false} FirstToken(before: string, ts: seq<Token>)
    requires Normal(ts) && ts != []
    ensures var x, i := before + Render(ts), |before|;
            i < |x| && Head(x, i) == ts[0] && HeadEnd(x, i) == i + |TokenText(ts[0])|
  {
    var x, k := before + Render(ts), |before| + |TokenText(ts[0])|;
    TextEnds(ts[0]);
    if |ts| > 1 {
      TextEnds(ts[1]);
      RenderEnds(ts[1..]);
      assert Render(ts[1..]) == TokenText(ts[1]) + Render(ts[1..][1..]);
      assert x[k] == Render(ts[1..])[0];
      HeadIs(x, |before|, ts[0], Some(ts[1]));
    } else {
      assert Render(ts[1..]) == "";
      HeadIs(x, |before|, ts[0], None);
    }
  }

  lemma {:induction false} SlashHead(x: string, i: nat)
    requires i < |x| && x[i] == '/' && (i + 1 < |x| ==> x[i + 1] != '/')
    ensures Head(x, i) == Slash && HeadEnd(x, i) == i + 1
  {
  }

  lemma {:induction false} SlashesHead(x: string, i: nat)
    requires i + 1 < |x| && x[i] == '/' == x[i + 1]
    ensures Head(x, i) == DoubleSlash && HeadEnd(x, i) == i + 2
  {
  }

  lemma {:induction false} SegHead(x: string, i: nat, s: string)
    requires s != "" && '/' !in s && i + |s| <= |x| && x[i..i + |s|] == s
    requires i + |s| < |x| ==> x[i + |s|] == '/'
    ensures Head(x, i) == Seg(s) && HeadEnd(x, i) == i + |s|
  {
    forall m | i <= m < i + |s| ensures x[m] != '/' {
      assert x[m] == s[m - i] && s[m - i] in s;
    }
    UntilIs(x, i, Is('/'), i + |s|);
  }

  /** The piece at position i is the token that was put there. */
  lemma {:induction false} HeadIs(x: string, i: nat, t: Token, next: Option<Token>)
    requires NormalToken(t) && i + |TokenText(t)| <= |x| && x[i..i + |TokenText(t)|] == TokenText(t)
    requires var k := i + |TokenText(t)|;
             match next
             case None => k == |x|
             case Some(u) => NormalToken(u) && Follows(t, u) && k < |x| && x[k] == TokenText(u)[0]
    ensures i < |x| && Head(x, i) == t && HeadEnd(x, i) == i + |TokenText(t)|
  {
    var s := TokenText(t);
    assert x[i] == s[0];
    match t
    case Slash => {
      if next.Some? {
        assert next.value.text[0] in next.value.text;
      }
      SlashHead(x, i);
    }
    case DoubleSlash => {
      assert x[i + 1] == s[1];
      SlashesHead(x, i);
    }
    case Seg(_) => SegHead(x, i, s);
  }

  lemma {:induction false} NotInThree(a: string, b: string, c: string, x: char)
    requires x !in a && x !in b && x !in c
    ensures x !in a + b + c
  {
  }

  lemma {:induction false} PartsOf(s: string, x: char)
    requires x !in s
    ensures x !in AfterColon(Base(s)) && x !in Predicates(s)
  {
    assert forall c :: c in Base(s) ==> c in s;
    assert forall c :: c in Predicates(s) ==> c in s;
    if x in AfterColon(Base(s)) {
      AfterColonIn(Base(s), x);
    }
  }

  lemma {:induction false} RewriteSegmentShape(s: string)
    requires s != "" && '/' !in s
    ensures RewriteSegment(s) != "" && '/' !in RewriteSegment(s)
    ensures '{' !in RewriteSegment(s) ==> RewriteSegment(s) == s
  {
    var r := RewriteSegment(s);
    if r != s {
      PartsOf(s, '/');
      NotInThree("{*}", AfterColon(Base(s)), Predicates(s), '/');
      assert r == "{*}" + AfterColon(Base(s)) + Predicates(s);
      assert r[0] == '{';
    }
  }

  lemma {:induction false} RewriteNormal(ts: seq<Token>)
    requires Normal(ts)
    ensures Normal(RewriteTokens(ts)) && (ts != [] ==> RewriteTokens(ts) != [])
  {
    if ts != [] {
      RewriteNormal(ts[1..]);
      if ts[0].Seg? {
        RewriteSegmentShape(ts[0].text);
      }
      assert RewriteTokens(ts)[1..] == RewriteTokens(ts[1..]);
      if |ts| > 1 {
        assert RewriteTokens(ts[1..])[0] == RewriteToken(ts[1]);
      }
    }
  }

  /** The rewritten path has the rewritten tokens of the path. */
  lemma {:induction false} TokensOfRewrite(x: string)
    requires '{' !in x
    ensures Tokens(Rewrite(x)) == RewriteTokens(Tokens(x))
  {
    TokensNormal(x);
    RewriteNormal(Tokens(x));
    TokensOfRender(RewriteTokens(Tokens(x)));
  }

  /** No segment has the character. */
  predicate Free(ts: seq<Token>, c: char) {
    ts == [] || (c !in TokenText(ts[0]) && Free(ts[1..], c))
  }

  lemma {:induction false} RenderFree(ts: seq<Token>, c: char)
    ensures c !in Render(ts) <==> Free(ts, c)
  {
    if ts != [] {
      RenderFree(ts[1..], c);
    }
  }

  lemma {:induction false} FreeUnchanged(ts: seq<Token>)
    requires Normal(ts) && Free(RewriteTokens(ts), '{')
    ensures RewriteTokens(ts) == ts
  {
    if ts != [] {
      assert RewriteTokens(ts)[1..] == RewriteTokens(ts[1..]);
      FreeUnchanged(ts[1..]);
      if ts[0].Seg? {
        RewriteSegmentShape(ts[0].text);
      }
      assert ts == [ts[0]] + ts[1..];
    }
  }

  /** Rewriting a rewritten path changes nothing. */
  lemma {:induction false} RewriteIdempotent(x: string)
    ensures Rewrite(Rewrite(x)) == Rewrite(x)
  {
    if x != "" && '{' !in x && '{' !in Rewrite(x) {
      TokensNormal(x);
      RenderFree(RewriteTokens(Tokens(x)), '{');
      FreeUnchanged(Tokens(x));
    }
  }

  // ---------------------------------------------------------------- the ends of a path

  /** A trailing slash stands for one more "*" step, before and after rewriting. */
  lemma {:induction false} RewriteEnds(x: string)
    requires x != "" && '{' !in x
    ensures Rewrite(x) != "" && (Rewrite(x)[|Rewrite(x)| - 1] == '/' <==> x[|x| - 1] == '/')
    ensures Rewrite(x)[0] == '/' <==> x[0] == '/'
  {
    var ts := Tokens(x);
    TokensNormal(x);
    RewriteNormal(ts);
    RenderEnds(ts);
    RenderEnds(RewriteTokens(ts));
    LastRewritten(ts);
  }

  lemma {:induction false} RewriteStar(x: string)
    requires x != "" && '{' !in x && x[|x| - 1] == '/'
    ensures Rewrite(x + "*") == Rewrite(x) + "*"
  {
    var ts := Tokens(x);
    StarAfterSlash(x);
    RewriteSnoc(ts, Seg("*"));
    RenderSnoc(RewriteTokens(ts), Seg("*"));
  }

  lemma {:induction false} LastRewritten(ts: seq<Token>)
    requires ts != []
    ensures |RewriteTokens(ts)| == |ts| && RewriteTokens(ts)[|ts| - 1].Seg? == ts[|ts| - 1].Seg?
    ensures RewriteTokens(ts)[0].Seg? == ts[0].Seg?
  {
    if |ts| > 1 {
      LastRewritten(ts[1..]);
      assert RewriteTokens(ts)[1..] == RewriteTokens(ts[1..]);
    }
  }

  lemma {:induction false} RewriteSnoc(ts: seq<Token>, t: Token)
    ensures RewriteTokens(ts + [t]) == RewriteTokens(ts) + [RewriteToken(t)]
  {
    if ts == [] {
      assert ts + [t] == [t] && [t][1..] == [];
    } else {
      assert (ts + [t])[1..] == ts[1..] + [t];
      RewriteSnoc(ts[1..], t);
    }
  }

  lemma {:induction false} RenderSnoc(ts: seq<Token>, t: Token)
    ensures Render(ts + [t]) == Render(ts) + TokenText(t)
  {
    if ts == [] {
      assert ts + [t] == [t] && [t][1..] == [] && Render([t]) == TokenText(t) + "";
    } else {
      assert (ts + [t])[1..] == ts[1..] + [t];
      RenderSnoc(ts[1..], t);
    }
  }

  lemma {:induction false} TextEnds(t: Token)
    requires NormalToken(t)
    ensures var s := TokenText(t);
            s != "" && (s[0] == '/' <==> !t.Seg?) && (s[|s| - 1] == '/' <==> !t.Seg?)
  {
    var s := TokenText(t);
    if t.Seg? {
      assert s[0] in s && s[|s| - 1] in s;
    }
  }

  lemma {:induction false} RenderEnds(ts: seq<Token>)
    requires Normal(ts) && ts != []
    ensures Render(ts) != ""
    ensures Render(ts)[0] == '/' <==> !ts[0].Seg?
    ensures Render(ts)[|Render(ts)| - 1] == '/' <==> !ts[|ts| - 1].Seg?
  {
    TextEnds(ts[0]);
    if |ts| == 1 {
      assert ts[1..] == [] && Render(ts) == TokenText(ts[0]) + "";
    } else {
      RenderEnds(ts[1..]);
    }
  }

  lemma {:induction false} NormalSnoc(ts: seq<Token>, t: Token)
    requires Normal(ts) && NormalToken(t) && (ts != [] ==> Follows(ts[|ts| - 1], t))
    ensures Normal(ts + [t])
  {
    if ts == [] {
      assert ts + [t] == [t] && [t][1..] == [];
    } else {
      assert (ts + [t])[1..] == ts[1..] + [t];
      NormalSnoc(ts[1..], t);
    }
  }

  lemma {:induction false} StarAfterSlash(x: string)
    requires x != "" && x[|x| - 1] == '/'
    ensures Tokens(x + "*") == Tokens(x) + [Seg("*")]
  {
    TokensNormal(x);
    var ts := Tokens(x);
    RenderEnds(ts);
    NormalSnoc(ts, Seg("*"));
    RenderSnoc(ts, Seg("*"));
    TokensOfRender(ts + [Seg("*")]);
  }

  /** The path as ElementTree reads it: with a "*" after a trailing slash. */
  function Completed(x: string): string
    requires x != ""
  {
    if x[|x| - 1] == '/' then x + "*" else x
  }

  lemma {:induction false} CompletedRewrite(x: string)
    requires x != "" && '{' !in x
    ensures Rewrite(x) != "" && Completed(Rewrite(x)) == Rewrite(Completed(x)) && '{' !in Completed(x)
    ensures Rewrite(x)[0] == '/' <==> x[0] == '/'
  {
    RewriteEnds(x);
    if x[|x| - 1] == '/' {
      RewriteStar(x);
    }
  }
}
