/** ElementTree's reading of a path (xml.etree.ElementPath): the tokenizer, and the steps that its tokens
  * stand for. */
module XPathTokens {
  import opened Options
  import opened PyText
  import opened ElementTree

  // ---------------------------------------------------------------- scanning

  /** Where a run of characters stops. */
  datatype Stop = Is(c: char) | NameOver | BlankOver

  /** A character a name can hold: [^/\[\]()@!=\s]. */
  predicate NameChar(c: char) {
    !IsSpace(c) && c !in {'/', '[', ']', '(', ')', '@', '!', '='}
  }

  predicate Stops(s: Stop, c: char) {
    match s
    case Is(d) => c == d
    case NameOver => !NameChar(c)
    case BlankOver => !IsSpace(c)
  }

  /** The first position from i on where the run stops, or the end. */
  function Until(x: string, i: nat, s: Stop): (j: nat)
    requires i <= |x|
    ensures i <= j <= |x| && (j < |x| ==> Stops(s, x[j]))
    decreases |x| - i
  {
    if i == |x| || Stops(s, x[i]) then i else Until(x, i + 1, s)
  }

  lemma {:induction false} UntilIs(x: string, i: nat, s: Stop, j: nat)
    requires i <= j <= |x| && (forall k :: i <= k < j ==> !Stops(s, x[k])) && (j < |x| ==> Stops(s, x[j]))
    ensures Until(x, i, s) == j
    decreases j - i
  {
    if i < j {
      UntilIs(x, i + 1, s, j);
    }
  }

  lemma {:induction false} UntilFree(x: string, i: nat, s: Stop)
    requires i <= |x|
    ensures forall k :: i <= k < Until(x, i, s) ==> !Stops(s, x[k])
    decreases |x| - i
  {
    if i < |x| && !Stops(s, x[i]) {
      UntilFree(x, i + 1, s);
    }
  }

  // ---------------------------------------------------------------- the tokenizer

  /** What xpath_tokenizer yields: a tag, a quoted text with its quotes, an operator, or white space. */
  datatype Lexeme = Name(text: string) | Quoted(text: string) | Mark(text: string) | Blank

  /** A quote mark that is closed further on; one that is not is part of a name. */
  predicate OpensQuote(x: string, i: nat)
    requires i < |x|
  {
    x[i] in {'\'', '"'} && Until(x, i + 1, Is(x[i])) < |x|
  }

  predicate IsPair(a: char, b: char) {
    (a == b && a in {':', '/', '.'}) || (a == '(' && b == ')') || (a == '!' && b == '=')
  }

  predicate PairAt(x: string, i: nat)
    requires i < |x|
  {
    i + 1 < |x| && IsPair(x[i], x[i + 1])
  }

  predicate IsMark(c: char) { c in {'/', '.', '*', ':', '[', ']', '(', ')', '@', '='} }

  /** A namespace in braces, in front of a name. */
  predicate OpensBrace(x: string, i: nat)
    requires i < |x|
  {
    x[i] == '{' && var j := Until(x, i + 1, Is('}')); i + 1 < j && j + 1 < |x| && NameChar(x[j + 1])
  }

  /** Where the token that starts at position i ends. */
  function LexemeEnd(x: string, i: nat): (j: nat)
    requires i < |x|
    ensures i < j <= |x|
  {
    if OpensQuote(x, i) then Until(x, i + 1, Is(x[i])) + 1
    else if PairAt(x, i) then i + 2
    else if IsMark(x[i]) then i + 1
    else if OpensBrace(x, i) then Until(x, Until(x, i + 1, Is('}')) + 1, NameOver)
    else if NameChar(x[i]) then NameEnd(x, i)
    else if IsSpace(x[i]) then Until(x, i + 1, BlankOver)
    else i + 1
  }

  function NameEnd(x: string, i: nat): (j: nat)
    requires i < |x| && NameChar(x[i])
    ensures i < j <= |x|
  {
    Until(x, i + 1, NameOver)
  }

  /** The token that starts at position i; a lone exclamation mark is none and is passed over. */
  function LexemeAt(x: string, i: nat): Option<Lexeme>
    requires i < |x|
  {
    var text := x[i..LexemeEnd(x, i)];
    if OpensQuote(x, i) then Some(Quoted(text))
    else if PairAt(x, i) || IsMark(x[i]) then Some(Mark(text))
    else if NameChar(x[i]) then Some(Name(text))
    else if IsSpace(x[i]) then Some(Blank)
    else None
  }

  /** The tokens of a path from position i on. */
  function Lex(x: string, i: nat): seq<Lexeme>
    requires i <= |x|
    decreases |x| - i
  {
    if i == |x| then []
    else (if LexemeAt(x, i).Some? then [LexemeAt(x, i).value] else []) + Lex(x, LexemeEnd(x, i))
  }

  /** A name the tokenizer reads as one token and without special meaning. */
  predicate PlainName(s: string) {
    && s != "" && s[0] != '.' && s[0] != '*'
    && forall i :: 0 <= i < |s| ==> PlainChar(s[i])
  }

  predicate PlainChar(c: char) { NameChar(c) && c !in {':', '{', '}', '\'', '"'} }

  // ---------------------------------------------------------------- steps

  /** Which elements a step accepts by their tag; none has an empty name. */
  datatype Test = Nothing | AnyName | Exactly(tag: Tag) | AnyNamespace(local: string) | InNamespace(ns: Namespace)

  /** One selector: ".", "..", children or descendants, or the condition in brackets. */
  datatype Step = Self | Up | Go(deep: bool, test: Test) | Where(condition: seq<Lexeme>)

  /** The element names a tag stands for. */
  function TestOf(name: string): Test {
    if |name| >= 3 && name[..3] == "{*}" then (if name[3..] == "*" then AnyName else AnyNamespace(name[3..]))
    else if name != "" && name[0] == '{' && '}' in name then
      UntilFinds(name, 0, '}');
      var k := Until(name, 0, Is('}'));
      var ns := if k == 1 then NoNamespace else Uri(name[1..k]);
      if name[k + 1..] == "*" then InNamespace(ns) else Exactly(Tag(ns, name[k + 1..]))
    else Exactly(Tag(NoNamespace, name))
  }

  lemma {:induction false} UntilFinds(x: string, i: nat, c: char)
    requires i <= |x| && c in x[i..]
    ensures Until(x, i, Is(c)) < |x|
    decreases |x| - i
  {
    if x[i] != c {
      assert x[i..] == [x[i]] + x[i + 1..];
      UntilFinds(x, i + 1, c);
    }
  }

  /** A prefix that no map explains: the tokenizer raises. */
  predicate Prefixed(t: Lexeme) {
    t.Name? && ':' in t.text && t.text[0] != '{'
  }

  /** -?\d+ */
  predicate Numeric(s: string) {
    AllDigits(Magnitude(s), 10) && Magnitude(s) != ""
  }

  function Magnitude(s: string): string { if s != "" && s[0] == '-' then s[1..] else s }

  predicate Zero(s: string) { forall i :: 0 <= i < |s| ==> s[i] == '0' }

  /** A condition in brackets that ElementTree knows: [@k], [@k='v'], [tag], [tag='v'], [.='v'], [n], [last()],
    * [last()-n]; also with "!=". The parentheses of [last()] may be two tokens, with a blank between them. */
  predicate Known(p: seq<Lexeme>) {
    if |p| == 1 then p[0].Name? && (Numeric(p[0].text) ==> p[0].text[0] != '-' && !Zero(p[0].text))
    else if |p| == 2 then (p[0] == Mark("@") && p[1].Name?) || (p[0] == Name("last") && p[1] == Mark("()"))
    else if |p| == 3 then
      || (p[1] in {Mark("="), Mark("!=")} && p[2].Quoted? && (p[0] == Mark(".") || (p[0].Name? && !Numeric(p[0].text))))
      || p == [Name("last"), Mark("("), Mark(")")]
      || (p[0] == Name("last") && p[1] == Mark("()") && p[2].Name? && Numeric(p[2].text) && p[2].text[0] == '-'
          && !Zero(p[2].text[1..]))
    else |p| == 4 && p[0] == Mark("@") && p[1].Name? && p[2] in {Mark("="), Mark("!=")} && p[3].Quoted?
  }

  /** The tokens up to the closing bracket, without blanks, and what comes after it. */
  function Inner(ts: seq<Lexeme>): (r: Option<(seq<Lexeme>, seq<Lexeme>)>)
    ensures r.Some? ==> |r.value.1| < |ts|
  {
    if ts == [] || Prefixed(ts[0]) then None
    else if ts[0] == Mark("]") then Some(([], ts[1..]))
    else
      var r := Inner(ts[1..]);
      if r.None? || ts[0].Blank? then r else Some(([ts[0]] + r.value.0, r.value.1))
  }

  /** Where a token stands: where a step begins, after a step, or after a double slash. */
  datatype Place = First | After | Below

  function Then(step: Step, rest: Option<seq<Step>>): Option<seq<Step>> {
    if rest.None? then None else Some([step] + rest.value)
  }

  /** The selectors that iterfind builds; None where it raises. */
  function Parse(ts: seq<Lexeme>, place: Place): Option<seq<Step>>
    decreases |ts|
  {
    if ts == [] then (if place.Below? then None else Some([]))
    else if ts[0].Quoted? || Prefixed(ts[0]) then None
    else if ts[0].Name? then Then(Go(place.Below?, TestOf(ts[0].text)), Parse(ts[1..], After))
    else if ts[0].Blank? then Then(Go(place.Below?, Nothing), Parse(ts[1..], After))
    else if ts[0] == Mark("*") then Then(Go(place.Below?, AnyName), Parse(ts[1..], After))
    else if ts[0] == Mark("/") && place.After? then Parse(ts[1..], First)
    else if place.Below? then None
    else if ts[0] == Mark(".") then Then(Self, Parse(ts[1..], After))
    else if ts[0] == Mark("..") then Then(Up, Parse(ts[1..], After))
    else if ts[0] == Mark("//") then Parse(ts[1..], Below)
    else if ts[0] == Mark("[") then
      var r := Inner(ts[1..]);
      if r.None? || !Known(r.value.0) then None else Then(Where(r.value.0), Parse(r.value.1, After))
    else None
  }
}
