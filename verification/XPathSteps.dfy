/** The steps of a rewritten path against those of the path (common/xpath_utils.py): names widened to any
  * namespace, or a step that finds nothing. */
module XPathSteps {
  import opened Options
  import opened PyText
  import opened ElementTree
  import opened XPathTokens
  import opened XPathWidening

  // ---------------------------------------------------------------- paths that can be evaluated

  /** Names are the same, or widened to any namespace. */
  predicate WiderStep(a: Step, b: Step) {
    a == b || (a.Go? && a.test.Exactly? && a.test.tag.ns == NoNamespace && b == Go(a.deep, AnyNamespace(a.test.tag.local)))
  }

  predicate Wider(a: seq<Step>, b: seq<Step>) {
    |a| == |b| && forall i :: 0 <= i < |a| ==> WiderStep(a[i], b[i])
  }

  /** A condition whose quoted text has a brace. */
  predicate Marked(p: seq<Lexeme>) {
    exists i :: 0 <= i < |p| && p[i].Quoted? && '{' in p[i].text
  }

  predicate DeadStep(s: Step) {
    (s.Go? && s.test.AnyNamespace? && Dead(s.test.local)) || (s.Where? && Marked(s.condition))
  }

  predicate HasDead(steps: seq<Step>) {
    exists i :: 0 <= i < |steps| && DeadStep(steps[i])
  }

  /** No braces in names and quoted texts, and no name like an operator. */
  predicate Braceless(ts: seq<Lexeme>) {
    forall i :: 0 <= i < |ts| ==> BracelessToken(ts[i])
  }

  predicate BracelessToken(t: Lexeme) {
    && (t.Name? || t.Quoted? ==> t.text != "" && '{' !in t.text)
    && (t.Name? ==> !Dead(t.text))
  }

  lemma {:induction false} LexBraceless(x: string, i: nat)
    requires i <= |x| && '{' !in x
    ensures Braceless(Lex(x, i))
    decreases |x| - i
  {
    if i < |x| {
      LexBraceless(x, LexemeEnd(x, i));
      var l := LexemeAt(x, i);
      assert forall c :: c in x[i..LexemeEnd(x, i)] ==> c in x;
      assert x[i..LexemeEnd(x, i)][0] == x[i];
    }
  }

  lemma {:induction false} InnerIs(ts: seq<Lexeme>)
    requires ts != [] && Inner(ts).Some?
    ensures !Prefixed(ts[0])
    ensures ts[0] == Mark("]") ==> Inner(ts).value == ([], ts[1..])
    ensures ts[0] != Mark("]") ==> Inner(ts[1..]).Some? && Inner(ts).value.1 == Inner(ts[1..]).value.1
    ensures ts[0] != Mark("]") ==> Inner(ts).value.0 == (if ts[0].Blank? then [] else [ts[0]]) + Inner(ts[1..]).value.0
  {
    if ts[0].Blank? {
      assert [] + Inner(ts[1..]).value.0 == Inner(ts[1..]).value.0;
    }
  }

  lemma {:induction false} InnerBraceless(ts: seq<Lexeme>)
    requires Inner(ts).Some? && Braceless(ts)
    ensures Braceless(Inner(ts).value.0) && Braceless(Inner(ts).value.1)
  {
    InnerIs(ts);
    if ts[0] != Mark("]") {
      assert Braceless(ts[1..]);
      InnerBraceless(ts[1..]);
    }
  }

  /** A known condition has no slashes, and quoted text only at its end. */
  predicate QuotedLast(p: seq<Lexeme>) {
    forall i :: 0 <= i < |p| ==> p[i] != Mark("/") && p[i] != Mark("//") && (p[i].Quoted? ==> i == |p| - 1)
  }

  lemma {:induction false} BlanksClean(ts: seq<Lexeme>)
    requires Inner(ts).Some? && Inner(ts).value.0 == [] && Clean(Inner(ts).value.1)
    ensures Clean(ts)
  {
    InnerIs(ts);
    if ts[0] != Mark("]") {
      BlanksClean(ts[1..]);
    } else {
      assert ':' !in "]";
    }
  }

  lemma {:induction false} InnerSane(ts: seq<Lexeme>)
    requires Inner(ts).Some? && QuotedLast(Inner(ts).value.0) && Sane(Inner(ts).value.1, false)
    ensures Sane(ts, true)
  {
    InnerIs(ts);
    if ts[0] != Mark("]") {
      var p, p' := Inner(ts).value.0, Inner(ts[1..]).value.0;
      if !ts[0].Blank? {
        assert p == [ts[0]] + p';
        assert forall i :: 0 <= i < |p'| ==> p'[i] == p[i + 1];
        assert p[0] == ts[0];
        if ts[0].Quoted? {
          assert p' == [];
          BlanksClean(ts[1..]);
        }
      } else {
        assert p == p';
      }
      InnerSane(ts[1..]);
    }
  }

  /** The tokens of a path that can be evaluated. */
  lemma {:induction false} ParsedSane(ts: seq<Lexeme>, place: Place)
    requires Parse(ts, place).Some? && Braceless(ts)
    ensures Sane(ts, false)
    decreases |ts|
  {
    if ts != [] {
      assert Braceless(ts[1..]);
      if ts[0] == Mark("[") {
        InnerBraceless(ts[1..]);
        ParsedSane(Inner(ts[1..]).value.1, After);
        InnerSane(ts[1..]);
      } else {
        ParsedRest(ts, place);
        ParsedSane(ts[1..], if ts[0] == Mark("/") then First else if ts[0] == Mark("//") then Below else After);
        assert !HasColon(ts[0]) && !ts[0].Quoted?;
        assert Within(ts[0], false) == false;
      }
    }
  }

  lemma {:induction false} ParsedRest(ts: seq<Lexeme>, place: Place)
    requires Parse(ts, place).Some? && Braceless(ts) && ts != [] && ts[0] != Mark("[")
    ensures Parse(ts[1..], if ts[0] == Mark("/") then First else if ts[0] == Mark("//") then Below else After).Some?
    ensures !HasColon(ts[0]) && !ts[0].Quoted?
  {
  }

  lemma {:induction false} InnerWidened(ts: seq<Lexeme>, ts': seq<Lexeme>)
    requires Inner(ts).Some? && Widened(ts, ts', true)
    ensures Inner(ts').Some? && Inner(ts').value.0 == Inner(ts).value.0
    ensures Widened(Inner(ts).value.1, Inner(ts').value.1, false)
  {
    InnerIs(ts);
    if ts[0] != Mark("]") {
      InnerWidened(ts[1..], ts'[1..]);
    }
  }

  /** The steps of tokens and of what they have become. */
  lemma {:induction false} ThenWider(a: Step, b: Step, r: Option<seq<Step>>, r': Option<seq<Step>>)
    requires WiderStep(a, b) && r.Some? && r'.Some? && Wider(r.value, r'.value)
    ensures Then(a, r).Some? && Then(b, r').Some? && Wider(Then(a, r).value, Then(b, r').value)
  {
  }

  lemma {:induction false} FitsStep(a: Lexeme, b: Lexeme, deep: bool)
    requires Fits(a, b, false) && (a.Name? || a == Mark("*")) && !Prefixed(a)
    requires a.Name? ==> a.text != "" && '{' !in a.text
    ensures b == a || (b.Name? && !Prefixed(b))
    ensures WiderStep(Go(deep, if a.Name? then TestOf(a.text) else AnyName), Go(deep, if b.Name? then TestOf(b.text) else AnyName))
  {
    if b != a {
      assert b.text[..3] == "{*}";
      if a.Name? {
        assert b.text[3..] == a.text && a.text != "*";
        assert a.text[0] in a.text && (|a.text| >= 3 ==> a.text[..3][0] == a.text[0]);
      } else {
        assert b.text[3..] == "*";
      }
    }
  }

  lemma {:induction false} ParseWidened(ts: seq<Lexeme>, ts': seq<Lexeme>, place: Place)
    requires Parse(ts, place).Some? && Braceless(ts) && Widened(ts, ts', false)
    ensures Parse(ts', place).Some? && Wider(Parse(ts, place).value, Parse(ts', place).value)
    decreases |ts|
  {
    if ts != [] {
      assert Braceless(ts[1..]);
      if ts[0] == Mark("[") {
        BracketWidened(ts, ts', place);
      } else {
        ParsedRest(ts, place);
        assert Within(ts[0], false) == false;
        if ts[0].Name? || ts[0] == Mark("*") {
          FitsStep(ts[0], ts'[0], place.Below?);
          ParseWidened(ts[1..], ts'[1..], After);
        } else {
          TokenWidened(ts, ts', place);
        }
      }
    }
  }

  lemma {:induction false} BracketWidened(ts: seq<Lexeme>, ts': seq<Lexeme>, place: Place)
    requires Parse(ts, place).Some? && Braceless(ts) && ts != [] && ts' != []
    requires ts[0] == Mark("[") && ts'[0] == ts[0] && Widened(ts[1..], ts'[1..], true)
    ensures Parse(ts', place).Some? && Wider(Parse(ts, place).value, Parse(ts', place).value)
    decreases |ts|, 0
  {
    InnerBraceless(ts[1..]);
    InnerWidened(ts[1..], ts'[1..]);
    var r, r' := Inner(ts[1..]).value, Inner(ts'[1..]).value;
    ParseWidened(r.1, r'.1, After);
    ThenWider(Where(r.0), Where(r'.0), Parse(r.1, After), Parse(r'.1, After));
  }

  lemma {:induction false} TokenWidened(ts: seq<Lexeme>, ts': seq<Lexeme>, place: Place)
    requires Parse(ts, place).Some? && Braceless(ts) && ts != [] && ts' != []
    requires ts'[0] == ts[0] && !ts[0].Name? && ts[0] != Mark("*") && ts[0] != Mark("[") && Widened(ts[1..], ts'[1..], false)
    ensures Parse(ts', place).Some? && Wider(Parse(ts, place).value, Parse(ts', place).value)
    decreases |ts|, 0
  {
    var next := if ts[0] == Mark("/") then First else if ts[0] == Mark("//") then Below else After;
    ParsedRest(ts, place);
    assert Braceless(ts[1..]);
    ParseWidened(ts[1..], ts'[1..], next);
  }

  lemma {:induction false} InnerSpoiled(ts: seq<Lexeme>, ts': seq<Lexeme>)
    requires Inner(ts).Some? && Inner(ts').Some? && Spoiled(ts, ts', true)
    ensures Marked(Inner(ts').value.0)
            || (Inner(ts').value.0 == Inner(ts).value.0 && Spoiled(Inner(ts).value.1, Inner(ts').value.1, false))
  {
    InnerIs(ts);
    InnerIs(ts');
    var p' := Inner(ts').value.0;
    if Spoils(ts'[0], true) {
      assert p'[0] == ts'[0];
    } else if ts[0] != Mark("]") {
      InnerSpoiled(ts[1..], ts'[1..]);
      var q' := Inner(ts'[1..]).value.0;
      if Marked(q') && !ts'[0].Blank? {
        var i :| 0 <= i < |q'| && q'[i].Quoted? && '{' in q'[i].text;
        assert p'[i + 1] == q'[i];
      }
    }
  }

  lemma {:induction false} DeadFirst(b: Lexeme, deep: bool, r: Option<seq<Step>>)
    requires Spoils(b, false) && Then(Go(deep, TestOf(b.text)), r).Some?
    ensures HasDead(Then(Go(deep, TestOf(b.text)), r).value)
  {
    var steps := Then(Go(deep, TestOf(b.text)), r).value;
    assert DeadStep(steps[0]);
  }

  lemma {:induction false} DeadLater(s: Step, r: Option<seq<Step>>)
    requires r.Some? && HasDead(r.value)
    ensures HasDead(Then(s, r).value)
  {
    var i :| 0 <= i < |r.value| && DeadStep(r.value[i]);
    assert Then(s, r).value[i + 1] == r.value[i];
  }

  lemma {:induction false} MarkedFirst(p: seq<Lexeme>, r: Option<seq<Step>>)
    requires Marked(p) && r.Some?
    ensures HasDead(Then(Where(p), r).value)
  {
    assert DeadStep(Then(Where(p), r).value[0]);
  }

  lemma {:induction false} ParseSpoiled(ts: seq<Lexeme>, ts': seq<Lexeme>, place: Place)
    requires Parse(ts, place).Some? && Parse(ts', place).Some? && Braceless(ts) && Spoiled(ts, ts', false)
    ensures HasDead(Parse(ts', place).value)
    decreases |ts|
  {
    if Spoils(ts'[0], false) {
      DeadFirst(ts'[0], place.Below?, Parse(ts'[1..], After));
    } else {
      assert Braceless(ts[1..]);
      if ts[0] == Mark("[") {
        AtBracket(ts, ts', place);
      } else {
        ParsedRest(ts, place);
        assert Within(ts[0], false) == false;
        if ts[0].Name? || ts[0] == Mark("*") {
          FitsStep(ts[0], ts'[0], place.Below?);
          ParseSpoiled(ts[1..], ts'[1..], After);
          DeadLater(Go(place.Below?, if ts'[0].Name? then TestOf(ts'[0].text) else AnyName), Parse(ts'[1..], After));
        } else {
          SameToken(ts, ts', place);
        }
      }
    }
  }

  lemma {:induction false} AtBracket(ts: seq<Lexeme>, ts': seq<Lexeme>, place: Place)
    requires Parse(ts, place).Some? && Parse(ts', place).Some? && Braceless(ts) && ts != [] && ts' != []
    requires ts[0] == Mark("[") && ts'[0] == ts[0] && Spoiled(ts[1..], ts'[1..], true)
    ensures HasDead(Parse(ts', place).value)
    decreases |ts|, 0
  {
    InnerBraceless(ts[1..]);
    InnerSpoiled(ts[1..], ts'[1..]);
    var r, r' := Inner(ts[1..]).value, Inner(ts'[1..]).value;
    if Marked(r'.0) {
      MarkedFirst(r'.0, Parse(r'.1, After));
    } else {
      ParseSpoiled(r.1, r'.1, After);
      DeadLater(Where(r'.0), Parse(r'.1, After));
    }
  }

  lemma {:induction false} SameToken(ts: seq<Lexeme>, ts': seq<Lexeme>, place: Place)
    requires Parse(ts, place).Some? && Parse(ts', place).Some? && Braceless(ts) && ts != [] && ts' != []
    requires ts'[0] == ts[0] && !ts[0].Name? && ts[0] != Mark("*") && ts[0] != Mark("[") && Spoiled(ts[1..], ts'[1..], false)
    ensures HasDead(Parse(ts', place).value)
    decreases |ts|, 0
  {
    var next := if ts[0] == Mark("/") then First else if ts[0] == Mark("//") then Below else After;
    ParsedRest(ts, place);
    assert Braceless(ts[1..]);
    ParseSpoiled(ts[1..], ts'[1..], next);
    var r := Parse(ts'[1..], next);
    if ts[0].Blank? {
      DeadLater(Go(place.Below?, Nothing), r);
    } else if ts[0] == Mark(".") {
      DeadLater(Self, r);
    } else if ts[0] == Mark("..") {
      DeadLater(Up, r);
    }
  }

  // ---------------------------------------------------------------- paths without braces

  /** What the steps of a path without braces look like. */
  predicate Ordinary(step: Step) {
    match step
    case Go(_, test) => test.Nothing? || test.AnyName? || (test.Exactly? && test.tag.ns == NoNamespace && !Dead(test.tag.local))
    case Where(p) => !Marked(p)
    case _ => true
  }

  lemma {:induction false} BracelessName(name: string)
    requires name != "" && '{' !in name
    ensures TestOf(name) == Exactly(Tag(NoNamespace, name))
  {
    assert name[0] in name;
    assert |name| >= 3 ==> name[..3][0] == name[0];
  }

  lemma {:induction false} ParsedOrdinary(ts: seq<Lexeme>, place: Place)
    requires Parse(ts, place).Some? && Braceless(ts)
    ensures forall i :: 0 <= i < |Parse(ts, place).value| ==> Ordinary(Parse(ts, place).value[i])
    decreases |ts|
  {
    if ts != [] {
      assert Braceless(ts[1..]);
      if ts[0] == Mark("[") {
        InnerBraceless(ts[1..]);
        ParsedOrdinary(Inner(ts[1..]).value.1, After);
      } else {
        ParsedRest(ts, place);
        ParsedOrdinary(ts[1..], if ts[0] == Mark("/") then First else if ts[0] == Mark("//") then Below else After);
        if ts[0].Name? {
          BracelessName(ts[0].text);
        }
      }
    }
  }
}
