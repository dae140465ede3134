/** What the rewriting of a path (common/xpath_utils.py) does to the tokens ElementTree reads in it: which
  * names it widens to any namespace, and where it changes a quoted text or breaks a step instead. */
module XPathWidening {
  import opened Options
  import opened PyText
  import opened XPathTokens
  import opened XPathRewrite

  // ---------------------------------------------------------------- tokens of a suffix

  lemma {:induction false} UntilShift(a: string, b: string, i: nat, s: Stop)
    requires i <= |b|
    ensures Until(a + b, |a| + i, s) == |a| + Until(b, i, s)
    decreases |b| - i
  {
    if i < |b| {
      assert (a + b)[|a| + i] == b[i];
      UntilShift(a, b, i + 1, s);
    }
  }

  lemma {:induction false} OpensShift(a: string, b: string, i: nat)
    requires i < |b|
    ensures (a + b)[|a| + i] == b[i]
    ensures OpensQuote(a + b, |a| + i) == OpensQuote(b, i) && PairAt(a + b, |a| + i) == PairAt(b, i)
    ensures OpensBrace(a + b, |a| + i) == OpensBrace(b, i)
  {
    var x, n := a + b, |a|;
    assert x[n + i] == b[i] && (i + 1 < |b| ==> x[n + i + 1] == b[i + 1]);
    UntilShift(a, b, i + 1, Is(b[i]));
    UntilShift(a, b, i + 1, Is('}'));
    var j := Until(b, i + 1, Is('}'));
    assert j + 1 < |b| ==> x[n + j + 1] == b[j + 1];
  }

  lemma {:induction false} EndShift(a: string, b: string, i: nat)
    requires i < |b|
    ensures LexemeEnd(a + b, |a| + i) == |a| + LexemeEnd(b, i)
  {
    OpensShift(a, b, i);
    if OpensQuote(b, i) {
      UntilShift(a, b, i + 1, Is(b[i]));
    } else if OpensBrace(b, i) {
      BraceShift(a, b, i);
    } else {
      UntilShift(a, b, i + 1, NameOver);
      UntilShift(a, b, i + 1, BlankOver);
    }
  }

  lemma {:induction false} BraceShift(a: string, b: string, i: nat)
    requires i < |b| && OpensBrace(b, i)
    ensures var j := Until(b, i + 1, Is('}'));
            && Until(a + b, |a| + i + 1, Is('}')) == |a| + j
            && Until(a + b, |a| + j + 1, NameOver) == |a| + Until(b, j + 1, NameOver)
  {
    UntilShift(a, b, i + 1, Is('}'));
    UntilShift(a, b, Until(b, i + 1, Is('}')) + 1, NameOver);
  }

  lemma {:induction false} LexemeShift(a: string, b: string, i: nat)
    requires i < |b|
    ensures LexemeAt(a + b, |a| + i) == LexemeAt(b, i)
  {
    OpensShift(a, b, i);
    EndShift(a, b, i);
    var j := LexemeEnd(b, i);
    assert (a + b)[|a| + i..|a| + j] == b[i..j];
  }

  lemma {:induction false} SameLex(x: string, i: nat, y: string, k: nat)
    requires i < |x| && k < |y| && LexemeAt(x, i) == LexemeAt(y, k) && Lex(x, LexemeEnd(x, i)) == Lex(y, LexemeEnd(y, k))
    ensures Lex(x, i) == Lex(y, k)
  {
  }

  lemma {:induction false} LexShift(a: string, b: string, i: nat)
    requires i <= |b|
    ensures Lex(a + b, |a| + i) == Lex(b, i)
    decreases |b| - i
  {
    if i < |b| {
      LexemeShift(a, b, i);
      EndShift(a, b, i);
      LexShift(a, b, LexemeEnd(b, i));
      SameLex(a + b, |a| + i, b, i);
    }
  }

  /** The first token and the tokens of what follows it. */
  lemma {:induction false} LexFirst(a: string, b: string)
    requires a != "" && LexemeEnd(a + b, 0) == |a|
    ensures LexemeAt(a + b, 0).Some? ==> Lex(a + b, 0) == [LexemeAt(a + b, 0).value] + Lex(b, 0)
    ensures LexemeAt(a + b, 0).None? ==> Lex(a + b, 0) == Lex(b, 0)
  {
    LexShift(a, b, 0);
  }

  /** Two texts agree on m characters, and then both end or have a slash. */
  predicate Alike(x: string, i: nat, y: string, m: nat) {
    && i + m <= |x| && m <= |y| && x[i..i + m] == y[..m]
    && (i + m == |x| || x[i + m] == '/') && (m == |y| || y[m] == '/')
  }

  lemma {:induction false} UntilAlike(x: string, i: nat, y: string, m: nat, k: nat, s: Stop)
    requires Alike(x, i, y, m) && k <= m
    requires Stops(s, '/') || Until(x, i + k, s) < i + m
    ensures Until(x, i + k, s) == i + Until(y, k, s) && Until(y, k, s) <= m
    decreases m - k
  {
    if k < m {
      assert x[i..i + m][k] == y[..m][k];
      if !Stops(s, x[i + k]) {
        UntilAlike(x, i, y, m, k + 1, s);
      }
    }
  }

  lemma {:induction false} Unclosed(x: string, i: nat, c: char)
    requires i <= |x| && c !in x[i..]
    ensures Until(x, i, Is(c)) == |x|
  {
    forall k | i <= k < |x| ensures x[k] != c {
      assert x[k] == x[i..][k - i];
    }
    UntilIs(x, i, Is(c), |x|);
  }

  /** A quote mark is closed in what agrees, or nowhere. */
  predicate QuotesAlike(x: string, i: nat, y: string, m: nat)
    requires i < |x|
  {
    x[i] in {'\'', '"'} ==> Until(x, i + 1, Is(x[i])) < i + m || (x[i] !in x[i + 1..] && |y| > 0 && x[i] !in y[1..])
  }

  lemma {:induction false} OpensAlike(x: string, i: nat, y: string, m: nat)
    requires Alike(x, i, y, m) && m > 0 && '/' !in x[i..i + m] && x[i] != '{' && QuotesAlike(x, i, y, m)
    ensures x[i] == y[0] && x[i] != '/'
    ensures OpensQuote(x, i) == OpensQuote(y, 0) && PairAt(x, i) == PairAt(y, 0) && !OpensBrace(x, i) && !OpensBrace(y, 0)
    ensures OpensQuote(x, i) ==> Until(x, i + 1, Is(x[i])) == i + Until(y, 1, Is(x[i])) && Until(x, i + 1, Is(x[i])) < i + m
    ensures PairAt(x, i) ==> m > 1
  {
    assert forall k :: 0 <= k < m ==> x[i + k] == x[i..i + m][k] && y[k] == y[..m][k] && x[i + k] in x[i..i + m];
    if x[i] in {'\'', '"'} {
      if Until(x, i + 1, Is(x[i])) < i + m {
        UntilAlike(x, i, y, m, 1, Is(x[i]));
      } else {
        Unclosed(x, i + 1, x[i]);
        Unclosed(y, 1, x[i]);
      }
    }
  }

  lemma {:induction false} EndAlike(x: string, i: nat, y: string, m: nat)
    requires Alike(x, i, y, m) && m > 0 && '/' !in x[i..i + m] && x[i] != '{' && QuotesAlike(x, i, y, m)
    ensures LexemeEnd(x, i) == i + LexemeEnd(y, 0) && LexemeEnd(x, i) <= i + m
  {
    OpensAlike(x, i, y, m);
    UntilAlike(x, i, y, m, 1, NameOver);
    UntilAlike(x, i, y, m, 1, BlankOver);
  }

  /** The first token is the same. */
  lemma {:induction false} FirstAlike(x: string, i: nat, y: string, m: nat)
    requires Alike(x, i, y, m) && m > 0 && '/' !in x[i..i + m] && x[i] != '{' && QuotesAlike(x, i, y, m)
    ensures LexemeEnd(x, i) == i + LexemeEnd(y, 0) && LexemeEnd(x, i) <= i + m && LexemeAt(x, i) == LexemeAt(y, 0)
  {
    OpensAlike(x, i, y, m);
    EndAlike(x, i, y, m);
    var n := LexemeEnd(y, 0);
    assert x[i..i + n] == x[i..i + m][..n] && y[..n] == y[..m][..n] && y[0..n] == y[..n];
  }

  // ---------------------------------------------------------------- what the loop makes of a suffix

  function Piece(x: string, i: nat): string
    requires i <= |x|
  {
    x[i..SegEnd(x, i)]
  }

  /** The rewriting from the beginning of a piece on. */
  function Out(x: string, i: nat): string
    requires i <= |x|
    decreases |x| - i
  {
    if i == |x| then ""
    else if x[i] == '/' then "/" + Out(x, i + 1)
    else RewriteSegment(Piece(x, i)) + Out(x, SegEnd(x, i))
  }

  /** That is what the loop makes of the rest of the path. */
  lemma {:induction false} OutRenders(x: string, i: nat)
    requires i <= |x|
    ensures Out(x, i) == RenderRewritten(TokensFrom(x, i))
    decreases |x| - i
  {
    if i < |x| {
      var j := HeadEnd(x, i);
      OutHeadStep(x, i);
      RenderCons(Head(x, i), TokensFrom(x, j));
      OutRenders(x, j);
    }
  }

  lemma {:induction false} OutHeadStep(x: string, i: nat)
    requires i < |x|
    ensures Out(x, i) == TokenText(RewriteToken(Head(x, i))) + Out(x, HeadEnd(x, i))
  {
    var j := HeadEnd(x, i);
    if x[i] == '/' && j == i + 2 {
      assert Out(x, i + 1) == "/" + Out(x, j);
      assert "/" + ("/" + Out(x, j)) == "//" + Out(x, j);
    }
  }

  /** The same from the middle of a piece that has been dealt with. */
  function Mid(x: string, i: nat): string
    requires i <= |x|
  {
    Piece(x, i) + Out(x, SegEnd(x, i))
  }

  function Rest(x: string, i: nat, start: bool): string
    requires i <= |x|
  {
    if start then Out(x, i) else Mid(x, i)
  }

  /** A piece that the rewriting changes begins here. */
  predicate Changes(x: string, i: nat)
    requires i < |x|
  {
    x[i] != '/' && RewriteSegment(Piece(x, i)) != Piece(x, i)
  }

  lemma {:induction false} MidStep(x: string, i: nat)
    requires i < |x|
    ensures x[i] != '/' ==> Mid(x, i) == [x[i]] + Mid(x, i + 1)
    ensures x[i] == '/' ==> Mid(x, i) == Out(x, i)
    ensures x[i] != '/' && !Changes(x, i) ==> Out(x, i) == Mid(x, i)
  {
    if x[i] != '/' {
      assert Piece(x, i) == [x[i]] + Piece(x, i + 1);
    }
  }

  lemma {:induction false} MidSkip(x: string, i: nat, j: nat)
    requires i <= |x| && i <= j <= SegEnd(x, i)
    ensures SegEnd(x, j) == SegEnd(x, i) && Mid(x, i) == x[i..j] + Mid(x, j)
    decreases j - i
  {
    if i < j {
      SegEndStep(x, i);
      MidSkip(x, i + 1, j);
      MidStep(x, i);
      SkipMore(x, i, j, Mid(x, i), Mid(x, i + 1), Mid(x, j));
    } else {
      assert x[i..j] + Mid(x, j) == Mid(x, j);
    }
  }

  lemma {:induction false} SegEndStep(x: string, i: nat)
    requires i < |x| && i < SegEnd(x, i)
    ensures x[i] != '/' && SegEnd(x, i + 1) == SegEnd(x, i)
  {
  }

  lemma {:induction false} SkipMore(x: string, i: nat, j: nat, whole: string, next: string, tail: string)
    requires i < j <= |x| && whole == [x[i]] + next && next == x[i + 1..j] + tail
    ensures whole == x[i..j] + tail
  {
    assert x[i..j] == [x[i]] + x[i + 1..j];
  }

  /** Where the name of a piece ends. */
  function BaseEnd(x: string, i: nat): (b: nat)
    requires i <= |x|
    ensures i <= b <= SegEnd(x, i)
  {
    i + |Base(Piece(x, i))|
  }

  lemma {:induction false} BaseIs(x: string, i: nat)
    requires i <= |x|
    ensures Base(Piece(x, i)) == x[i..BaseEnd(x, i)] && Predicates(Piece(x, i)) == x[BaseEnd(x, i)..SegEnd(x, i)]
    ensures forall k :: i <= k < BaseEnd(x, i) ==> x[k] != '['
    ensures BaseEnd(x, i) < SegEnd(x, i) ==> x[BaseEnd(x, i)] == '['
  {
    var p, b, e := Piece(x, i), BaseEnd(x, i), SegEnd(x, i);
    UntilFree(p, 0, Is('['));
    assert p[..b - i] == x[i..b] && p[b - i..] == x[b..e];
    assert b < e ==> p[b - i] == x[b];
    forall k | i <= k < b ensures x[k] != '[' {
      assert x[k] == p[k - i];
    }
  }

  /** What AfterColon leaves of a name. */
  lemma {:induction false} ColonAt(name: string) returns (m: nat)
    ensures m <= |name| && AfterColon(name) == name[m..]
    ensures ':' !in name ==> m == 0
    ensures ':' in name ==> m > 0 && name[m - 1] == ':'
  {
    if ':' !in name {
      m := 0;
    } else if name[0] == ':' {
      m := 1;
    } else {
      m := ColonAt(name[1..]);
      assert name == [name[0]] + name[1..];
      m := m + 1;
      assert name[1..][m - 1..] == name[m..];
    }
  }

  lemma {:induction false} Suffix(s: string, a: string, b: string, n: nat, r: string)
    requires s == a + b && n <= |a| && r == "{*}" + a[n..] + b
    ensures r == "{*}" + s[n..]
  {
    assert (a + b)[n..] == a[n..] + b;
  }

  lemma {:induction false} SegmentParts(s: string)
    ensures s == Base(s) + Predicates(s)
    ensures RewriteSegment(s) != s ==> RewriteSegment(s) == "{*}" + AfterColon(Base(s)) + Predicates(s)
  {
  }

  lemma {:induction false} ChangedSegment(s: string) returns (n: nat)
    requires RewriteSegment(s) != s
    ensures n <= |Base(s)| && RewriteSegment(s) == "{*}" + s[n..]
    ensures ':' !in Base(s) ==> n == 0
    ensures n == 0 || (n <= |s| && s[n - 1] == ':')
  {
    n := ColonAt(Base(s));
    SegmentParts(s);
    Suffix(s, Base(s), Predicates(s), n, RewriteSegment(s));
  }

  /** A changed piece gets the wildcard, and loses what stands before the first colon of its name. */
  lemma {:induction false} ChangedPiece(x: string, i: nat) returns (m: nat)
    requires i < |x| && Changes(x, i)
    ensures i <= m <= BaseEnd(x, i) && Out(x, i) == "{*}" + Mid(x, m)
    ensures m == i || x[m - 1] == ':'
    ensures ':' !in Base(Piece(x, i)) ==> m == i
  {
    var n := ChangedSegment(Piece(x, i));
    m := i + n;
    CutAt(x, i, n);
  }

  lemma {:induction false} CutAt(x: string, i: nat, n: nat)
    requires i < |x| && x[i] != '/' && n <= |Base(Piece(x, i))|
    requires RewriteSegment(Piece(x, i)) == "{*}" + Piece(x, i)[n..]
    requires n == 0 || Piece(x, i)[n - 1] == ':'
    ensures i + n <= BaseEnd(x, i) && Out(x, i) == "{*}" + Mid(x, i + n)
    ensures n == 0 || x[i + n - 1] == ':'
  {
    PieceChar(x, i, n);
    ChangedOut(x, i, n);
  }

  lemma {:induction false} ChangedOut(x: string, i: nat, n: nat)
    requires i < |x| && x[i] != '/' && i + n <= SegEnd(x, i) && RewriteSegment(Piece(x, i)) == "{*}" + Piece(x, i)[n..]
    ensures Out(x, i) == "{*}" + Mid(x, i + n)
  {
    Regroup(x, i, n, RewriteSegment(Piece(x, i)));
  }

  lemma {:induction false} PieceChar(x: string, i: nat, n: nat)
    requires i <= |x| && n <= |Base(Piece(x, i))|
    ensures i + n <= BaseEnd(x, i) && (n > 0 ==> Piece(x, i)[n - 1] == x[i + n - 1])
  {
  }

  lemma {:induction false} Regroup(x: string, i: nat, n: nat, r: string)
    requires i <= |x| && i + n <= SegEnd(x, i) && r == "{*}" + Piece(x, i)[n..]
    ensures r + Out(x, SegEnd(x, i)) == "{*}" + Mid(x, i + n)
  {
    MidSkip(x, i, i + n);
    assert Piece(x, i)[n..] == Piece(x, i + n);
  }

  lemma {:induction false} RewrittenChars(s: string, c: char)
    requires c in RewriteSegment(s) && c !in "{*}"
    ensures c in s
  {
    if RewriteSegment(s) != s {
      assert RewriteSegment(s) == "{*}" + AfterColon(Base(s)) + Predicates(s);
      assert forall d :: d in Base(s) ==> d in s;
      assert forall d :: d in Predicates(s) ==> d in s;
      if c in AfterColon(Base(s)) {
        AfterColonIn(Base(s), c);
      }
    }
  }

  /** The rewriting invents no characters but the wildcard's. */
  lemma {:induction false} OutChars(x: string, i: nat, c: char)
    requires i <= |x| && c !in "{*}" && c !in x[i..]
    ensures c !in Out(x, i)
    decreases |x| - i
  {
    if i < |x| {
      var j := HeadEnd(x, i);
      assert x[i..] == x[i..j] + x[j..];
      OutChars(x, j, c);
      if c in RewriteSegment(Piece(x, i)) {
        RewrittenChars(Piece(x, i), c);
      }
    }
  }

  lemma {:induction false} MidChars(x: string, i: nat, c: char)
    requires i <= |x| && c !in "{*}" && c !in x[i..]
    ensures c !in Mid(x, i)
  {
    var e := SegEnd(x, i);
    assert x[i..] == x[i..e] + x[e..];
    OutChars(x, e, c);
  }

  // ---------------------------------------------------------------- tokens without colons

  predicate Ends(t: Lexeme) { t == Mark("[") || t == Mark("/") || t == Mark("//") }

  predicate HasColon(t: Lexeme) { (t.Name? || t.Mark?) && ':' in t.text }

  /** Up to the next bracket or slash there is no quoted text and no colon. */
  predicate Clean(ts: seq<Lexeme>) {
    ts == [] || Ends(ts[0]) || (!ts[0].Quoted? && !HasColon(ts[0]) && Clean(ts[1..]))
  }

  lemma {:induction false} LexemeChars(x: string, j: nat)
    requires j < |x| && '{' !in x && x[j] != '/' && x[j] != '[' && !OpensQuote(x, j)
    requires LexemeAt(x, j).Some? ==> !HasColon(LexemeAt(x, j).value)
    ensures forall k :: j <= k < LexemeEnd(x, j) ==> x[k] !in {'/', '[', ':'}
  {
    UntilFree(x, j + 1, NameOver);
    UntilFree(x, j + 1, BlankOver);
    var text := x[j..LexemeEnd(x, j)];
    assert forall k :: j <= k < LexemeEnd(x, j) ==> x[k] == text[k - j];
  }

  lemma {:induction false} UntilBeyond(x: string, j: nat, e: nat, s: Stop)
    requires j <= e <= |x| && forall k :: j <= k < e ==> !Stops(s, x[k])
    ensures Until(x, j, s) == Until(x, e, s)
    decreases e - j
  {
    if j < e {
      UntilBeyond(x, j + 1, e, s);
    }
  }

  /** The same, of the text from position j on. */
  predicate NoColon(x: string, j: nat)
    requires j <= |x|
  {
    forall k :: j <= k < SegEnd(x, j) && k < Until(x, j, Is('[')) ==> x[k] != ':'
  }

  lemma {:induction false} CleanText(x: string, j: nat)
    requires j <= |x| && '{' !in x && Clean(Lex(x, j))
    ensures forall k :: j <= k < SegEnd(x, j) && k < Until(x, j, Is('[')) ==> x[k] != ':'
    decreases |x| - j
  {
    if j < |x| && x[j] != '/' && x[j] != '[' {
      var e := LexemeEnd(x, j);
      var l := LexemeAt(x, j);
      if l.Some? {
        NotAnEnd(x, j);
        assert Lex(x, j)[1..] == Lex(x, e);
      } else {
        assert [] + Lex(x, e) == Lex(x, e);
      }
      LexemeChars(x, j);
      CleanText(x, e);
      UntilBeyond(x, j, e, Is('/'));
      UntilBeyond(x, j, e, Is('['));
    }
  }

  lemma {:induction false} NotAnEnd(x: string, j: nat)
    requires j < |x| && x[j] != '/' && x[j] != '[' && LexemeAt(x, j).Some?
    ensures !Ends(LexemeAt(x, j).value)
  {
    assert LexemeAt(x, j).value.Mark? ==> LexemeAt(x, j).value.text[0] == x[j];
  }

  /** The name of a piece outside quoted texts has no colon. */
  lemma {:induction false} CleanBase(x: string, i: nat)
    requires i <= |x| && '{' !in x && Clean(Lex(x, i))
    ensures ':' !in Base(Piece(x, i))
  {
    CleanText(x, i);
    BaseIs(x, i);
    NoneBefore(x, i, BaseEnd(x, i), Is('['));
  }

  lemma {:induction false} NoneBefore(x: string, i: nat, b: nat, s: Stop)
    requires i <= b <= |x| && forall k :: i <= k < b ==> !Stops(s, x[k])
    ensures b <= Until(x, i, s)
  {
    UntilBeyond(x, i, b, s);
  }

  // ---------------------------------------------------------------- inside a quoted text

  /** No piece that begins between i and k is changed. */
  predicate Kept(x: string, i: nat, k: nat, start: bool)
    requires i <= k < |x|
    decreases k - i
  {
    !(start && Changes(x, i)) && (i == k || Kept(x, i + 1, k, x[i] == '/'))
  }

  /** A changed piece does not reach over the closing quote. */
  lemma {:induction false} CutBefore(x: string, i: nat, k: nat, m: nat)
    requires i <= k < |x| && x[k] in {'\'', '"'} && NoColon(x, k + 1)
    requires i <= m <= BaseEnd(x, i) && (m == i || x[m - 1] == ':')
    ensures m <= k
  {
    if m > k {
      MidSkip(x, i, k + 1);
      BaseIs(x, i);
      NoneBefore(x, k + 1, BaseEnd(x, i), Is('['));
      assert false;
    }
  }

  /** What a text before a tail is turned into. */
  predicate Turned(whole: string, w: string, tail: string, q: char) {
    whole == w + tail && q !in w
  }

  lemma {:induction false} TurnMore(head: string, whole: string, w: string, tail: string, q: char)
    requires Turned(whole, w, tail, q) && q !in head
    ensures Turned(head + whole, head + w, tail, q)
  {
    assert head + (w + tail) == (head + w) + tail;
  }

  /** One character further, where no changed piece begins. */
  lemma {:induction false} RestStep(x: string, i: nat, start: bool)
    requires i < |x| && !(start && Changes(x, i))
    ensures Rest(x, i, start) == [x[i]] + Rest(x, i + 1, x[i] == '/')
  {
    MidStep(x, i);
  }

  /** What is made of x[i..k]: the same when its pieces are kept, otherwise something with a brace in it. */
  predicate Comes(x: string, i: nat, k: nat, start: bool, w: string)
    requires i <= k < |x|
  {
    if Kept(x, i, k, start) then w == x[i..k] else '{' in w
  }

  lemma {:induction false} QuoteCut(x: string, i: nat, k: nat) returns (m: nat)
    requires i <= k < |x| && x[k] in {'\'', '"'} && NoColon(x, k + 1) && Changes(x, i)
    ensures i <= m <= k && Rest(x, i, true) == "{*}" + Rest(x, m, false)
  {
    m := ChangedPiece(x, i);
    CutBefore(x, i, k, m);
  }

  lemma {:induction false} TurnedMore(x: string, i: nat, k: nat, start: bool, w: string)
    requires i < k < |x| && !(start && Changes(x, i)) && x[i] != x[k]
    requires Turned(Rest(x, i + 1, x[i] == '/'), w, Rest(x, k, false), x[k])
    ensures Turned(Rest(x, i, start), [x[i]] + w, Rest(x, k, false), x[k])
  {
    RestStep(x, i, start);
    TurnMore([x[i]], Rest(x, i + 1, x[i] == '/'), w, Rest(x, k, false), x[k]);
  }

  lemma {:induction false} ComesMore(x: string, i: nat, k: nat, start: bool, w: string)
    requires i < k < |x| && !(start && Changes(x, i)) && Comes(x, i + 1, k, x[i] == '/', w)
    ensures Comes(x, i, k, start, [x[i]] + w)
  {
    assert x[i..k] == [x[i]] + x[i + 1..k];
  }

  lemma {:induction false} QuoteEnd(x: string, k: nat, start: bool)
    requires k < |x| && !(start && Changes(x, k)) && x[k] != '/'
    ensures Turned(Rest(x, k, start), "", Rest(x, k, false), x[k]) && Comes(x, k, k, start, "")
  {
    MidStep(x, k);
    TurnNothing(Rest(x, k, false), x[k]);
  }

  lemma {:induction false} TurnNothing(tail: string, q: char)
    ensures Turned(tail, "", tail, q)
  {
    assert "" + tail == tail;
  }

  lemma {:induction false} TurnedCut(x: string, i: nat, m: nat, k: nat, w: string)
    requires i <= m <= k < |x| && Rest(x, i, true) == "{*}" + Rest(x, m, false) && x[k] !in "{*}"
    requires Turned(Rest(x, m, false), w, Rest(x, k, false), x[k])
    ensures Turned(Rest(x, i, true), "{*}" + w, Rest(x, k, false), x[k])
  {
    TurnMore("{*}", Rest(x, m, false), w, Rest(x, k, false), x[k]);
  }

  lemma {:induction false} ComesCut(x: string, i: nat, k: nat, w: string)
    requires i <= k < |x| && Changes(x, i)
    ensures Comes(x, i, k, true, "{*}" + w)
  {
    assert ("{*}" + w)[0] == '{';
  }

  lemma {:induction false} InQuote(x: string, i: nat, k: nat, start: bool) returns (w: string)
    requires i <= k < |x| && x[k] in {'\'', '"'} && NoColon(x, k + 1)
    requires forall j :: i <= j < k ==> x[j] != x[k]
    ensures Turned(Rest(x, i, start), w, Rest(x, k, false), x[k]) && Comes(x, i, k, start, w)
    decreases k - i, start
  {
    if start && Changes(x, i) {
      var m := QuoteCut(x, i, k);
      var v := InQuote(x, m, k, false);
      w := "{*}" + v;
      CameCut(x, i, m, k, v);
    } else if i == k {
      w := "";
      QuoteEnd(x, k, start);
    } else {
      var v := InQuote(x, i + 1, k, x[i] == '/');
      w := [x[i]] + v;
      CameMore(x, i, k, start, v);
    }
  }

  lemma {:induction false} CameCut(x: string, i: nat, m: nat, k: nat, v: string)
    requires i <= m <= k < |x| && Changes(x, i) && Rest(x, i, true) == "{*}" + Rest(x, m, false) && x[k] !in "{*}"
    requires Turned(Rest(x, m, false), v, Rest(x, k, false), x[k])
    ensures Turned(Rest(x, i, true), "{*}" + v, Rest(x, k, false), x[k]) && Comes(x, i, k, true, "{*}" + v)
  {
    TurnedCut(x, i, m, k, v);
    ComesCut(x, i, k, v);
  }

  lemma {:induction false} CameMore(x: string, i: nat, k: nat, start: bool, v: string)
    requires i < k < |x| && !(start && Changes(x, i)) && x[i] != x[k]
    requires Turned(Rest(x, i + 1, x[i] == '/'), v, Rest(x, k, false), x[k]) && Comes(x, i + 1, k, x[i] == '/', v)
    ensures Turned(Rest(x, i, start), [x[i]] + v, Rest(x, k, false), x[k]) && Comes(x, i, k, start, [x[i]] + v)
  {
    TurnedMore(x, i, k, start, v);
    ComesMore(x, i, k, start, v);
  }

  // ---------------------------------------------------------------- token by token

  /** The tokens of y are one token, or none, and those of what is left. */
  predicate Begins(y: string, l: Option<Lexeme>, left: string) {
    Lex(y, 0) == (if l.Some? then [l.value] else []) + Lex(left, 0)
  }

  lemma {:induction false} BeginsWith(y: string, a: string, b: string)
    requires y == a + b && a != "" && LexemeEnd(y, 0) == |a|
    ensures Begins(y, LexemeAt(y, 0), b)
  {
    LexFirst(a, b);
    assert [] + Lex(b, 0) == Lex(b, 0);
  }

  lemma {:induction false} LexUnfold(x: string, i: nat)
    requires i < |x|
    ensures LexemeAt(x, i).Some? ==> Lex(x, i) == [LexemeAt(x, i).value] + Lex(x, LexemeEnd(x, i))
    ensures LexemeAt(x, i).None? ==> Lex(x, i) == Lex(x, LexemeEnd(x, i))
  {
    assert [] + Lex(x, LexemeEnd(x, i)) == Lex(x, LexemeEnd(x, i));
  }

  lemma {:induction false} MidAlike(x: string, i: nat)
    requires i <= |x|
    ensures Alike(x, i, Mid(x, i), SegEnd(x, i) - i)
  {
    var e := SegEnd(x, i);
    assert Mid(x, i)[..e - i] == Piece(x, i);
    if e < |x| {
      assert Mid(x, i)[e - i] == Out(x, e)[0];
    }
  }

  lemma {:induction false} OutHead(x: string, i: nat)
    requires i < |x| && x[i] != '/'
    ensures Out(x, i) != "" && Out(x, i)[0] != '/'
  {
    var p := Piece(x, i);
    UntilFree(x, i, Is('/'));
    assert '/' !in p;
    RewriteSegmentShape(p);
    var r := RewriteSegment(p);
    assert r[0] in r;
    FirstOfTwo(r, Out(x, SegEnd(x, i)));
  }

  lemma {:induction false} FirstOfTwo(r: string, t: string)
    requires r != ""
    ensures r + t != "" && (r + t)[0] == r[0]
  {
  }

  lemma {:induction false} TwoSlashes(x: string, i: nat)
    requires i + 1 < |x| && x[i] == '/' && x[i + 1] == '/'
    ensures Begins(Out(x, i), Some(Mark("//")), Out(x, i + 2))
  {
    assert Out(x, i + 1) == "/" + Out(x, i + 2);
    DoubleSlash(Out(x, i), Out(x, i + 2));
  }

  lemma {:induction false} OneSlash(x: string, i: nat)
    requires i < |x| && x[i] == '/' && !PairAt(x, i)
    ensures Begins(Out(x, i), Some(Mark("/")), Out(x, i + 1))
  {
    if i + 1 < |x| {
      OutHead(x, i + 1);
    }
    SingleSlash(Out(x, i), Out(x, i + 1));
  }

  lemma {:induction false} DoubleSlash(y: string, t: string)
    requires y == "/" + ("/" + t)
    ensures Begins(y, Some(Mark("//")), t)
  {
    assert y == "//" + t;
    assert LexemeEnd(y, 0) == 2 && y[0..2] == "//";
    BeginsWith(y, "//", t);
  }

  lemma {:induction false} SingleSlash(y: string, t: string)
    requires y == "/" + t && (t != "" ==> t[0] != '/')
    ensures Begins(y, Some(Mark("/")), t)
  {
    assert LexemeEnd(y, 0) == 1 && y[0..1] == "/";
    BeginsWith(y, "/", t);
  }

  lemma {:induction false} QuoteLexeme(y: string, q: char, v: string, t: string)
    requires q in {'\'', '"'} && q !in v && y == [q] + (v + ([q] + t))
    ensures Begins(y, Some(Quoted([q] + v + [q])), t)
  {
    var w := [q] + v + [q];
    assert y == w + t;
    forall k | 1 <= k < 1 + |v| ensures y[k] != q {
      assert y[k] == v[k - 1];
    }
    UntilIs(y, 1, Is(q), 1 + |v|);
    BeginsWith(y, w, t);
    assert y[0..|w|] == w;
  }

  lemma {:induction false} MarkFirst(c: char, t: string)
    requires c in {'[', ']', '@', '='}
    ensures Begins([c] + t, Some(Mark([c])), t)
  {
    var y := [c] + t;
    assert LexemeEnd(y, 0) == 1 && y[0..1] == [c];
    BeginsWith(y, [c], t);
  }

  lemma {:induction false} NameFirst(n: string, t: string)
    requires PlainName(n) && (t != "" ==> !NameChar(t[0]))
    ensures Begins(n + t, Some(Name(n)), t)
  {
    var y := n + t;
    assert y[0] == n[0];
    assert forall k :: 0 <= k < |n| ==> y[k] == n[k];
    UntilIs(y, 1, NameOver, |n|);
    assert LexemeEnd(y, 0) == |n| && y[0..|n|] == n;
    BeginsWith(y, n, t);
  }

  /** The run of name characters at position i. */
  function Run(x: string, i: nat): string
    requires i <= |x|
  {
    x[i..Until(x, i, NameOver)]
  }

  lemma {:induction false} WildcardFirst(t: string, n: nat)
    requires n == Until(t, 0, NameOver)
    ensures Begins("{*}" + t, Some(Name("{*}" + t[..n])), t[n..])
  {
    var y := "{*}" + t;
    UntilIs(y, 1, Is('}'), 2);
    UntilShift("{*}", t, 0, NameOver);
    assert Until(y, 1, NameOver) == Until(y, 3, NameOver);
    assert LexemeEnd(y, 0) == 3 + n;
    assert y == ("{*}" + t[..n]) + t[n..];
    BeginsWith(y, "{*}" + t[..n], t[n..]);
    assert y[0..3 + n] == "{*}" + t[..n];
  }

  lemma {:induction false} RunLength(x: string, i: nat)
    requires i <= |x|
    ensures Until(Mid(x, i), 0, NameOver) == |Run(x, i)| && i + |Run(x, i)| <= SegEnd(x, i)
  {
    MidAlike(x, i);
    UntilAlike(x, i, Mid(x, i), SegEnd(x, i) - i, 0, NameOver);
  }

  lemma {:induction false} RunAlike(x: string, i: nat)
    requires i <= |x|
    ensures i + |Run(x, i)| <= |x| && Until(Mid(x, i), 0, NameOver) == |Run(x, i)|
    ensures Mid(x, i)[..|Run(x, i)|] == Run(x, i) && Mid(x, i)[|Run(x, i)|..] == Mid(x, i + |Run(x, i)|)
  {
    RunLength(x, i);
    var j := i + |Run(x, i)|;
    MidSkip(x, i, j);
    TwoParts(Mid(x, i), Run(x, i), Mid(x, j));
  }

  lemma {:induction false} TwoParts(t: string, a: string, b: string)
    requires t == a + b
    ensures t[..|a|] == a && t[|a|..] == b
  {
  }

  /** After the wildcard the tokenizer reads one name, up to the end of the run. */
  lemma {:induction false} WidenedFirst(x: string, i: nat)
    requires i < |x| && '{' !in x && Clean(Lex(x, i)) && Changes(x, i)
    ensures Begins(Out(x, i), Some(Name("{*}" + Run(x, i))), Mid(x, i + |Run(x, i)|))
  {
    var m := ChangedPiece(x, i);
    CleanBase(x, i);
    RunAlike(x, i);
    WildcardFirst(Mid(x, i), |Run(x, i)|);
  }

  predicate Dead(local: string) {
    local == "" || local[0] == '.' || (local[0] == '*' && local != "*")
  }

  /** A live run is one token of the path: a name, or "*". */
  lemma {:induction false} RunFirst(x: string, i: nat)
    requires i < |x| && '{' !in x && Clean(Lex(x, i)) && x[i] != '/' && !Dead(Run(x, i))
    ensures LexemeEnd(x, i) == i + |Run(x, i)|
    ensures LexemeAt(x, i) == Some(if Run(x, i) == "*" then Mark("*") else Name(Run(x, i)))
  {
    var k := Until(x, i, NameOver);
    assert k > i && Run(x, i)[0] == x[i] && NameChar(x[i]);
    if Run(x, i) == "*" {
      StarToken(x, i);
    } else {
      NotColon(x, i);
      NameToken(x, i);
    }
  }

  lemma {:induction false} StarToken(x: string, i: nat)
    requires i < |x| && x[i] == '*'
    ensures LexemeEnd(x, i) == i + 1 && LexemeAt(x, i) == Some(Mark("*"))
  {
    assert x[i..i + 1] == "*";
  }

  lemma {:induction false} NotColon(x: string, i: nat)
    requires i < |x| && Clean(Lex(x, i))
    ensures x[i] != ':' && !OpensQuote(x, i)
  {
    LexUnfold(x, i);
    if x[i] == ':' {
      ColonToken(x, i);
    }
  }

  lemma {:induction false} ColonToken(x: string, i: nat)
    requires i < |x| && x[i] == ':'
    ensures LexemeAt(x, i).Some? && HasColon(LexemeAt(x, i).value)
  {
    assert x[i..LexemeEnd(x, i)][0] == ':';
  }

  lemma {:induction false} NameToken(x: string, i: nat)
    requires i < |x| && NameChar(x[i]) && x[i] !in {'.', '*', ':', '{'} && !OpensQuote(x, i)
    ensures LexemeEnd(x, i) == Until(x, i, NameOver) && LexemeAt(x, i) == Some(Name(x[i..Until(x, i, NameOver)]))
  {
  }

  /** A token inside a piece stays as it is. */
  lemma {:induction false} PlainFirst(x: string, i: nat)
    requires i < |x| && '{' !in x && x[i] != '/' && !OpensQuote(x, i)
    ensures LexemeEnd(x, i) <= SegEnd(x, i) && Begins(Mid(x, i), LexemeAt(x, i), Mid(x, LexemeEnd(x, i)))
  {
    var e, y := SegEnd(x, i), Mid(x, i);
    UntilFree(x, i, Is('/'));
    assert '/' !in x[i..e];
    MidAlike(x, i);
    NoClosing(x, i);
    FirstAlike(x, i, y, e - i);
    var j := LexemeEnd(x, i);
    MidSkip(x, i, j);
    BeginsWith(y, x[i..j], Mid(x, j));
  }

  lemma {:induction false} NoClosing(x: string, i: nat)
    requires i < |x| && x[i] != '/' && !OpensQuote(x, i)
    ensures QuotesAlike(x, i, Mid(x, i), SegEnd(x, i) - i)
  {
    if x[i] in {'\'', '"'} {
      UntilFree(x, i + 1, Is(x[i]));
      assert x[i] !in x[i + 1..];
      MidStep(x, i);
      MidChars(x, i + 1, x[i]);
      assert Mid(x, i)[1..] == Mid(x, i + 1);
    }
  }

  lemma {:induction false} ThreeParts(y: string, whole: string, v: string, tail: string, q: char, t: string)
    requires y == [q] + whole && Turned(whole, v, tail, q) && tail == [q] + t
    ensures y == [q] + (v + ([q] + t)) && q !in v
  {
  }

  lemma {:induction false} QuoteKept(x: string, i: nat, k: nat, v: string)
    requires i + 1 <= k < |x| && x[i] == x[k] && Comes(x, i + 1, k, false, v)
    ensures if Kept(x, i + 1, k, false) then [x[i]] + v + [x[i]] == x[i..k + 1] else '{' in [x[i]] + v + [x[i]]
  {
    assert x[i..k + 1] == [x[i]] + x[i + 1..k] + [x[k]];
  }

  /** A quoted text stays one, whatever becomes of it. */
  lemma {:induction false} QuotedFirst(x: string, i: nat) returns (w: string)
    requires i < |x| && '{' !in x && OpensQuote(x, i) && Clean(Lex(x, LexemeEnd(x, i)))
    ensures Begins(Mid(x, i), Some(Quoted(w)), Mid(x, LexemeEnd(x, i)))
    ensures if Kept(x, i + 1, LexemeEnd(x, i) - 1, false) then w == x[i..LexemeEnd(x, i)] else '{' in w
  {
    var k := LexemeEnd(x, i) - 1;
    CleanText(x, k + 1);
    QuoteSpan(x, i);
    var v := InQuote(x, i + 1, k, false);
    QuoteBegins(x, i, k, v);
    QuoteKept(x, i, k, v);
    w := [x[i]] + v + [x[i]];
  }

  lemma {:induction false} QuoteSpan(x: string, i: nat)
    requires i < |x| && OpensQuote(x, i)
    ensures var k := LexemeEnd(x, i) - 1;
            i + 1 <= k < |x| && x[k] == x[i] && x[k] in {'\'', '"'} && forall j :: i + 1 <= j < k ==> x[j] != x[k]
  {
    UntilFree(x, i + 1, Is(x[i]));
  }

  lemma {:induction false} QuoteBegins(x: string, i: nat, k: nat, v: string)
    requires i + 1 <= k < |x| && x[i] == x[k] && x[i] in {'\'', '"'} && Turned(Mid(x, i + 1), v, Mid(x, k), x[k])
    ensures Begins(Mid(x, i), Some(Quoted([x[i]] + v + [x[i]])), Mid(x, k + 1))
  {
    MidStep(x, i);
    MidStep(x, k);
    ThreeParts(Mid(x, i), Mid(x, i + 1), v, Mid(x, k), x[i], Mid(x, k + 1));
    QuoteLexeme(Mid(x, i), x[i], v, Mid(x, k + 1));
  }

  // ---------------------------------------------------------------- the two lists of tokens

  /** Whether the next token stands inside brackets. */
  predicate Within(t: Lexeme, inside: bool) {
    t == Mark("[") || (inside && t != Mark("]"))
  }

  /** Token lists that can be a path: quoted texts inside brackets, slashes outside, no colons outside
    * quoted texts up to the next bracket or slash. */
  predicate Sane(ts: seq<Lexeme>, inside: bool) {
    && (inside || Clean(ts))
    && (ts == []
        || ((ts[0].Quoted? ==> inside && Clean(ts[1..])) && (ts[0] == Mark("/") || ts[0] == Mark("//") ==> !inside)
            && Sane(ts[1..], Within(ts[0], inside))))
  }

  /** A token and what it may have become: outside brackets a name may be widened to any namespace. */
  predicate Fits(a: Lexeme, b: Lexeme, inside: bool) {
    || a == b
    || (!inside && a == Mark("*") && b == Name("{*}*"))
    || (!inside && a.Name? && a.text != "" && a.text[0] !in {'{', '*'} && b == Name("{*}" + a.text))
  }

  predicate Widened(ts: seq<Lexeme>, ts': seq<Lexeme>, inside: bool) {
    if ts == [] || ts' == [] then ts == ts'
    else Fits(ts[0], ts'[0], inside) && Widened(ts[1..], ts'[1..], Within(ts[0], inside))
  }

  /** A quoted text with a brace in it, or a name no element has. */
  predicate Spoils(t: Lexeme, inside: bool) {
    if inside then t.Quoted? && '{' in t.text
    else t.Name? && |t.text| >= 3 && t.text[..3] == "{*}" && Dead(t.text[3..])
  }

  /** The lists go together up to a token that spoils the second. */
  predicate Spoiled(ts: seq<Lexeme>, ts': seq<Lexeme>, inside: bool) {
    && ts' != []
    && (Spoils(ts'[0], inside)
        || (ts != [] && Fits(ts[0], ts'[0], inside) && Spoiled(ts[1..], ts'[1..], Within(ts[0], inside))))
  }

  predicate Goes(well: bool, ts: seq<Lexeme>, ts': seq<Lexeme>, inside: bool) {
    if well then Widened(ts, ts', inside) else Spoiled(ts, ts', inside)
  }

  lemma {:induction false} GoesCons(well: bool, a: Lexeme, b: Lexeme, ts: seq<Lexeme>, ts': seq<Lexeme>, inside: bool)
    requires Fits(a, b, inside) && Goes(well, ts, ts', Within(a, inside))
    ensures Goes(well, [a] + ts, [b] + ts', inside)
  {
    assert ([a] + ts)[1..] == ts && ([b] + ts')[1..] == ts';
  }

  lemma {:induction false} SpoiledAtOnce(ts: seq<Lexeme>, b: Lexeme, ts': seq<Lexeme>, inside: bool)
    requires Spoils(b, inside)
    ensures Goes(false, ts, [b] + ts', inside)
  {
  }

  lemma {:induction false} GoesOn(well: bool, all: seq<Lexeme>, y: string, a: Lexeme, b: Lexeme, ts: seq<Lexeme>,
                                  left: string, inside: bool)
    requires all == [a] + ts && Begins(y, Some(b), left) && Fits(a, b, inside)
    requires Goes(well, ts, Lex(left, 0), Within(a, inside))
    ensures Goes(well, all, Lex(y, 0), inside)
  {
    GoesCons(well, a, b, ts, Lex(left, 0), inside);
  }

  lemma {:induction false} SaneCons(all: seq<Lexeme>, a: Lexeme, ts: seq<Lexeme>, inside: bool)
    requires Sane(all, inside) && all == [a] + ts
    ensures Sane(ts, Within(a, inside)) && (a.Quoted? ==> inside && Clean(ts))
    ensures a == Mark("/") || a == Mark("//") ==> !inside
  {
    assert all[1..] == ts;
  }

  /** The rewriting keeps what the path asks for, as far as its text shows: a piece it changes begins,
    * outside quoted texts, with a name or "*", and no piece that begins in a quoted text is changed. */
  predicate Keeps(x: string, i: nat, start: bool)
    requires i <= |x|
    decreases |x| - i
  {
    if i == |x| then true
    else if x[i] != '/' && start && Changes(x, i) && Dead(Run(x, i)) then false
    else if OpensQuote(x, i) && !Kept(x, i + 1, LexemeEnd(x, i) - 1, false) then false
    else Keeps(x, LexemeEnd(x, i), x[i] == '/')
  }

  /** Token by token, the rewritten path reads as the path widened, or is spoiled. */
  lemma {:induction false} Simulate(x: string, i: nat, start: bool, inside: bool)
    requires i <= |x| && '{' !in x && Sane(Lex(x, i), inside) && !(start && inside)
    ensures Goes(Keeps(x, i, start), Lex(x, i), Lex(Rest(x, i, start), 0), inside)
    decreases |x| - i, 2
  {
    if i < |x| {
      if x[i] == '/' {
        AtSlash(x, i, start, inside);
      } else if start && Changes(x, i) {
        AtChanged(x, i);
      } else {
        AtKept(x, i, start, inside);
      }
    }
  }

  lemma {:induction false} RestAtSlash(x: string, i: nat, start: bool)
    requires i < |x| && x[i] == '/'
    ensures Rest(x, i, start) == Out(x, i)
  {
    MidStep(x, i);
  }

  lemma {:induction false} AtSlash(x: string, i: nat, start: bool, inside: bool)
    requires i < |x| && '{' !in x && Sane(Lex(x, i), inside) && x[i] == '/'
    ensures Goes(Keeps(x, i, start), Lex(x, i), Lex(Rest(x, i, start), 0), inside)
    decreases |x| - i, 1
  {
    RestAtSlash(x, i, start);
    SlashKeeps(x, i, start);
    if i + 1 < |x| && x[i + 1] == '/' {
      AtTwoSlashes(x, i, inside);
    } else {
      AtOneSlash(x, i, inside);
    }
  }

  lemma {:induction false} AtKept(x: string, i: nat, start: bool, inside: bool)
    requires i < |x| && '{' !in x && Sane(Lex(x, i), inside) && x[i] != '/' && !(start && Changes(x, i))
    ensures Goes(Keeps(x, i, start), Lex(x, i), Lex(Rest(x, i, start), 0), inside)
    decreases |x| - i, 1
  {
    MidStep(x, i);
    if OpensQuote(x, i) {
      AtQuote(x, i, inside);
    } else {
      AtOther(x, i, inside);
    }
  }

  lemma {:induction false} AtChanged(x: string, i: nat)
    requires i < |x| && '{' !in x && Sane(Lex(x, i), false) && x[i] != '/' && Changes(x, i)
    ensures Goes(Keeps(x, i, true), Lex(x, i), Lex(Out(x, i), 0), false)
    decreases |x| - i, 1
  {
    if Dead(Run(x, i)) {
      WidenedFirst(x, i);
      SpoiledAtOnce(Lex(x, i), Name("{*}" + Run(x, i)), Lex(Mid(x, i + |Run(x, i)|), 0), false);
    } else {
      AtName(x, i);
      NameKeeps(x, i);
    }
  }

  lemma {:induction false} NameKeeps(x: string, i: nat)
    requires i < |x| && '{' !in x && Clean(Lex(x, i)) && x[i] != '/' && !Dead(Run(x, i))
    ensures Keeps(x, i, true) == Keeps(x, i + |Run(x, i)|, false)
  {
    RunLex(x, i);
    LexUnfold(x, i);
    assert !OpensQuote(x, i);
  }

  lemma {:induction false} SlashKeeps(x: string, i: nat, start: bool)
    requires i < |x| && x[i] == '/'
    ensures Keeps(x, i, start) == Keeps(x, if i + 1 < |x| && x[i + 1] == '/' then i + 2 else i + 1, true)
  {
  }

  lemma {:induction false} TwoSlashesLex(x: string, i: nat)
    requires i + 1 < |x| && x[i] == '/' && x[i + 1] == '/'
    ensures Lex(x, i) == [Mark("//")] + Lex(x, i + 2)
  {
    assert x[i..i + 2] == "//";
  }

  lemma {:induction false} OneSlashLex(x: string, i: nat)
    requires i < |x| && x[i] == '/' && !PairAt(x, i)
    ensures Lex(x, i) == [Mark("/")] + Lex(x, i + 1)
  {
    assert x[i..i + 1] == "/";
  }

  lemma {:induction false} AtTwoSlashes(x: string, i: nat, inside: bool)
    requires i + 1 < |x| && '{' !in x && Sane(Lex(x, i), inside) && x[i] == '/' && x[i + 1] == '/'
    ensures Goes(Keeps(x, i + 2, true), Lex(x, i), Lex(Out(x, i), 0), inside)
    decreases |x| - i, 0
  {
    TwoSlashesLex(x, i);
    TwoSlashes(x, i);
    SaneCons(Lex(x, i), Mark("//"), Lex(x, i + 2), inside);
    Simulate(x, i + 2, true, inside);
    GoesOn(Keeps(x, i + 2, true), Lex(x, i), Out(x, i), Mark("//"), Mark("//"), Lex(x, i + 2), Out(x, i + 2), inside);
  }

  lemma {:induction false} AtOneSlash(x: string, i: nat, inside: bool)
    requires i < |x| && '{' !in x && Sane(Lex(x, i), inside) && x[i] == '/' && !PairAt(x, i)
    ensures Goes(Keeps(x, i + 1, true), Lex(x, i), Lex(Out(x, i), 0), inside)
    decreases |x| - i, 0
  {
    OneSlashLex(x, i);
    OneSlash(x, i);
    SaneCons(Lex(x, i), Mark("/"), Lex(x, i + 1), inside);
    Simulate(x, i + 1, true, inside);
    GoesOn(Keeps(x, i + 1, true), Lex(x, i), Out(x, i), Mark("/"), Mark("/"), Lex(x, i + 1), Out(x, i + 1), inside);
  }

  /** The token a live run is. */
  function RunToken(run: string): Lexeme { if run == "*" then Mark("*") else Name(run) }

  lemma {:induction false} RunFits(run: string)
    requires !Dead(run) && '{' !in run
    ensures Fits(RunToken(run), Name("{*}" + run), false) && !Within(RunToken(run), false)
  {
    assert run[0] in run;
  }

  lemma {:induction false} RunLex(x: string, i: nat)
    requires i < |x| && '{' !in x && Clean(Lex(x, i)) && x[i] != '/' && !Dead(Run(x, i))
    ensures i + |Run(x, i)| == LexemeEnd(x, i) && Lex(x, i) == [RunToken(Run(x, i))] + Lex(x, i + |Run(x, i)|)
  {
    RunFirst(x, i);
    LexUnfold(x, i);
  }

  lemma {:induction false} RunSane(x: string, i: nat)
    requires i < |x| && '{' !in x && Sane(Lex(x, i), false) && x[i] != '/' && !Dead(Run(x, i))
    ensures Sane(Lex(x, i + |Run(x, i)|), false)
  {
    RunLex(x, i);
    RunFits(Run(x, i));
    SaneCons(Lex(x, i), RunToken(Run(x, i)), Lex(x, i + |Run(x, i)|), false);
  }

  lemma {:induction false} AtName(x: string, i: nat)
    requires i < |x| && '{' !in x && Sane(Lex(x, i), false) && x[i] != '/' && Changes(x, i) && !Dead(Run(x, i))
    ensures Goes(Keeps(x, i + |Run(x, i)|, false), Lex(x, i), Lex(Out(x, i), 0), false)
    decreases |x| - i, 0
  {
    NameReady(x, i);
    RunAt(x, i + |Run(x, i)|, Lex(x, i), Out(x, i), Run(x, i));
  }

  lemma {:induction false} NameReady(x: string, i: nat)
    requires i < |x| && '{' !in x && Sane(Lex(x, i), false) && x[i] != '/' && Changes(x, i) && !Dead(Run(x, i))
    ensures i + |Run(x, i)| <= |x| && '{' !in Run(x, i) && Sane(Lex(x, i + |Run(x, i)|), false)
    ensures Lex(x, i) == [RunToken(Run(x, i))] + Lex(x, i + |Run(x, i)|)
    ensures Begins(Out(x, i), Some(Name("{*}" + Run(x, i))), Mid(x, i + |Run(x, i)|))
  {
    RunLex(x, i);
    RunSane(x, i);
    WidenedFirst(x, i);
  }

  lemma {:induction false} RunAt(x: string, j: nat, all: seq<Lexeme>, y: string, run: string)
    requires j <= |x| && '{' !in x && Sane(Lex(x, j), false) && !Dead(run) && '{' !in run
    requires all == [RunToken(run)] + Lex(x, j) && Begins(y, Some(Name("{*}" + run)), Mid(x, j))
    ensures Goes(Keeps(x, j, false), all, Lex(y, 0), false)
    decreases |x| - j, 4
  {
    RunFits(run);
    TokenAt(x, j, all, y, RunToken(run), Name("{*}" + run), false);
  }

  /** One token and the rest. */
  lemma {:induction false} TokenAt(x: string, j: nat, all: seq<Lexeme>, y: string, a: Lexeme, b: Lexeme, inside: bool)
    requires j <= |x| && '{' !in x && Sane(Lex(x, j), Within(a, inside)) && Fits(a, b, inside)
    requires all == [a] + Lex(x, j) && Begins(y, Some(b), Mid(x, j))
    ensures Goes(Keeps(x, j, false), all, Lex(y, 0), inside)
    decreases |x| - j, 3
  {
    Simulate(x, j, false, Within(a, inside));
    GoesOn(Keeps(x, j, false), all, y, a, b, Lex(x, j), Mid(x, j), inside);
  }

  lemma {:induction false} QuoteLex(x: string, i: nat)
    requires i < |x| && OpensQuote(x, i)
    ensures Lex(x, i) == [Quoted(x[i..LexemeEnd(x, i)])] + Lex(x, LexemeEnd(x, i))
  {
  }

  lemma {:induction false} AtQuote(x: string, i: nat, inside: bool)
    requires i < |x| && '{' !in x && Sane(Lex(x, i), inside) && x[i] != '/' && OpensQuote(x, i)
    ensures Goes(Kept(x, i + 1, LexemeEnd(x, i) - 1, false) && Keeps(x, LexemeEnd(x, i), false),
                 Lex(x, i), Lex(Mid(x, i), 0), inside)
    decreases |x| - i, 0
  {
    QuoteLex(x, i);
    var j := LexemeEnd(x, i);
    SaneCons(Lex(x, i), Quoted(x[i..j]), Lex(x, j), inside);
    var w := QuotedFirst(x, i);
    QuoteAt(x, i, j, w, inside, Kept(x, i + 1, j - 1, false));
  }

  lemma {:induction false} QuoteAt(x: string, i: nat, j: nat, w: string, inside: bool, kept: bool)
    requires i < j <= |x| && '{' !in x && inside && Sane(Lex(x, j), inside)
    requires Lex(x, i) == [Quoted(x[i..j])] + Lex(x, j) && Begins(Mid(x, i), Some(Quoted(w)), Mid(x, j))
    requires if kept then w == x[i..j] else '{' in w
    ensures Goes(kept && Keeps(x, j, false), Lex(x, i), Lex(Mid(x, i), 0), inside)
    decreases |x| - j, 4
  {
    if kept {
      TokenAt(x, j, Lex(x, i), Mid(x, i), Quoted(w), Quoted(w), inside);
    } else {
      SpoiledAtOnce(Lex(x, i), Quoted(w), Lex(Mid(x, j), 0), inside);
    }
  }

  lemma {:induction false} AtOther(x: string, i: nat, inside: bool)
    requires i < |x| && '{' !in x && Sane(Lex(x, i), inside) && x[i] != '/' && !OpensQuote(x, i)
    ensures Goes(Keeps(x, LexemeEnd(x, i), false), Lex(x, i), Lex(Mid(x, i), 0), inside)
    decreases |x| - i, 0
  {
    LexUnfold(x, i);
    PlainFirst(x, i);
    OtherAt(x, i, LexemeEnd(x, i), LexemeAt(x, i), inside);
  }

  lemma {:induction false} OtherAt(x: string, i: nat, j: nat, l: Option<Lexeme>, inside: bool)
    requires i < j <= |x| && '{' !in x && Sane(Lex(x, i), inside) && Begins(Mid(x, i), l, Mid(x, j))
    requires Lex(x, i) == if l.Some? then [l.value] + Lex(x, j) else Lex(x, j)
    ensures Goes(Keeps(x, j, false), Lex(x, i), Lex(Mid(x, i), 0), inside)
    decreases |x| - j, 4
  {
    if l.Some? {
      SaneCons(Lex(x, i), l.value, Lex(x, j), inside);
      TokenAt(x, j, Lex(x, i), Mid(x, i), l.value, l.value, inside);
    } else {
      Simulate(x, j, false, inside);
      assert [] + Lex(Mid(x, j), 0) == Lex(Mid(x, j), 0);
    }
  }
}
