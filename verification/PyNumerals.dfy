/** What int() makes of a text, said of the numerals in it: blanks around, a sign, the prefix of radix 16, and digits
  * with single underscores between them. */
module PyNumerals {
  import opened Options
  import opened PyText
  import opened PyBlanks

  predicate IsNumeral(s: string) {
    s != "" && forall i :: 0 <= i < |s| ==> '0' <= s[i] <= '9'
  }

  /** The number a decimal numeral stands for. */
  function Numeral(s: string): nat
    requires forall i :: 0 <= i < |s| ==> '0' <= s[i] <= '9'
  {
    if s == "" then 0 else Numeral(s[..|s| - 1]) * 10 + (s[|s| - 1] as int - '0' as int)
  }

  lemma {:induction false} NumeralDigits(s: string)
    requires forall i :: 0 <= i < |s| ==> '0' <= s[i] <= '9'
    ensures AllDigits(s, 10) && ValueFrom(s, 10, 0) == Numeral(s)
  {
    if s != "" {
      var k := |s| - 1;
      NumeralDigits(s[..k]);
      ValueSnoc(s[..k], s[k], 10, 0);
      assert s == s[..k] + [s[k]];
    }
  }

  lemma {:induction false} NumeralParses(s: string)
    requires IsNumeral(s)
    ensures ParseInt(s, 10) == Some(Numeral(s))
  {
    NumeralDigits(s);
    ParseDigitText(s, 10);
  }

  // ---------------------------------------------------------------- all texts that int() accepts

  /** Digits, with single underscores between them. */
  predicate Grouped(s: string, radix: nat) {
    s != "" && s[0] != '_' && s[|s| - 1] != '_' && Spaced(s, radix)
  }

  /** Digits and underscores, of which no two stand together. */
  predicate Spaced(s: string, radix: nat) {
    && (forall i :: 0 <= i < |s| ==> IsDigit(s[i], radix) || s[i] == '_')
    && forall i :: 0 <= i < |s| - 1 ==> s[i] != '_' || s[i + 1] != '_'
  }

  lemma {:induction false} SpacedCons(c: char, t: string, radix: nat)
    requires t != ""
    ensures Spaced([c] + t, radix) <==> (IsDigit(c, radix) || c == '_') && (c != '_' || t[0] != '_') && Spaced(t, radix)
  {
    var s := [c] + t;
    assert forall i :: 0 <= i < |t| ==> s[i + 1] == t[i];
    if Spaced(s, radix) {
      assert s[0] == c && s[1] == t[0];
      forall i | 0 <= i < |t| ensures IsDigit(t[i], radix) || t[i] == '_' {
        assert s[i + 1] == t[i];
      }
      forall i | 0 <= i < |t| - 1 ensures t[i] != '_' || t[i + 1] != '_' {
        assert s[i + 1] == t[i] && s[i + 2] == t[i + 1];
      }
    } else if (IsDigit(c, radix) || c == '_') && (c != '_' || t[0] != '_') && Spaced(t, radix) {
      forall i | 0 <= i < |s| ensures IsDigit(s[i], radix) || s[i] == '_' {
        assert i > 0 ==> s[i] == t[i - 1];
      }
      forall i | 0 <= i < |s| - 1 ensures s[i] != '_' || s[i + 1] != '_' {
        assert s[i + 1] == t[i] && (i > 0 ==> s[i] == t[i - 1]);
      }
    }
  }

  /** The digits alone. */
  function Ungrouped(s: string): string {
    if s == "" then "" else (if s[0] == '_' then "" else [s[0]]) + Ungrouped(s[1..])
  }

  lemma {:induction false} UngroupedDigits(s: string, radix: nat)
    requires forall i :: 0 <= i < |s| ==> IsDigit(s[i], radix) || s[i] == '_'
    ensures AllDigits(Ungrouped(s), radix)
  {
    if s != "" {
      UngroupedDigits(s[1..], radix);
    }
  }

  /** The rest of the digits, after a digit or at the beginning. */
  predicate Continues(s: string, radix: nat, afterDigit: bool) {
    if s == "" then afterDigit
    else if s[0] == '_' then afterDigit && Continues(s[1..], radix, false)
    else IsDigit(s[0], radix) && Continues(s[1..], radix, true)
  }

  lemma {:induction false} ContinuesIff(s: string, radix: nat, afterDigit: bool)
    requires s != ""
    ensures Continues(s, radix, afterDigit) <==> (s[0] == '_' ==> afterDigit) && s[|s| - 1] != '_' && Spaced(s, radix)
  {
    if |s| == 1 {
      assert s[1..] == "";
    } else {
      ContinuesIff(s[1..], radix, s[0] != '_');
      SpacedCons(s[0], s[1..], radix);
      assert s == [s[0]] + s[1..];
    }
  }

  lemma {:induction false} ParseContinues(s: string, radix: nat, acc: nat, afterDigit: bool)
    ensures ParseDigits(s, radix, acc, afterDigit).Some? <==> Continues(s, radix, afterDigit)
    ensures Continues(s, radix, afterDigit) ==>
              AllDigits(Ungrouped(s), radix) && ParseDigits(s, radix, acc, afterDigit).value == ValueFrom(Ungrouped(s), radix, acc)
  {
    if s != "" {
      if s[0] == '_' {
        ParseContinues(s[1..], radix, acc, false);
        assert Ungrouped(s) == Ungrouped(s[1..]);
      } else if IsDigit(s[0], radix) {
        ParseContinues(s[1..], radix, Push(acc, s[0], radix), true);
        var u := Ungrouped(s);
        assert u[1..] == Ungrouped(s[1..]);
      }
    }
  }

  /** The value of grouped digits. */
  lemma {:induction false} ParseGrouped(s: string, radix: nat, v: nat)
    ensures ParseDigits(s, radix, 0, false) == Some(v) <==>
            Grouped(s, radix) && AllDigits(Ungrouped(s), radix) && ValueFrom(Ungrouped(s), radix, 0) == v
  {
    ParseContinues(s, radix, 0, false);
    if s != "" {
      ContinuesIff(s, radix, false);
    }
  }

  predicate HexPrefixed(s: string) { |s| >= 2 && s[0] == '0' && (s[1] == 'x' || s[1] == 'X') }

  /** Behind the prefix 0x of radix 16, and one underscore. */
  function Unprefixed(s: string, radix: nat): string {
    if radix == 16 && HexPrefixed(s) then (if |s| > 2 && s[2] == '_' then s[3..] else s[2..]) else s
  }

  /** A literal of this value: an optional sign, an optional prefix, grouped digits. */
  predicate IsLiteral(s: string, radix: nat, v: int) {
    var signed := s != "" && (s[0] == '-' || s[0] == '+');
    var n: nat := if v < 0 then -v else v;
    IsUnsigned(if signed then s[1..] else s, radix, n) && (n > 0 ==> (v < 0 <==> signed && s[0] == '-'))
  }

  /** A literal of this value stands in the text between blanks. */
  ghost predicate Denotes(text: string, radix: nat, v: int) {
    exists i: nat, j: nat :: StandsAt(text, i, j) && IsLiteral(text[i..j], radix, v)
  }

  /** int(text, radix) is the value of the literal that stands in the text between blanks; without one it raises. */
  lemma {:induction false} ParseIntIff(text: string, radix: nat, v: int)
    ensures ParseInt(text, radix) == Some(v) <==> Denotes(text, radix, v)
  {
    DenotesIff(text, radix, v);
    LiteralIff(Strip(text), radix, v);
    ParseStripped(text, radix);
  }

  lemma {:induction false} ParseStripped(text: string, radix: nat)
    ensures ParseInt(text, radix) == Stripped(Strip(text), radix)
  {
  }

  lemma {:induction false} DenotesIff(text: string, radix: nat, v: int)
    ensures Denotes(text, radix, v) <==> IsLiteral(Strip(text), radix, v)
  {
    var i, j := StripStands(text);
    forall k: nat, l: nat | StandsAt(text, k, l) ensures text[k..l] == Strip(text) {
      StandsOnce(text, i, j, k, l);
    }
  }

  /** int() of a text without blanks around it. */
  function Stripped(s: string, radix: nat): Option<int> {
    if s == "" then None
    else if s[0] == '-' || s[0] == '+' then
      var n := ParseUnsigned(s[1..], radix);
      if n.None? then None
      else
        var v: int := n.value;
        Some(if s[0] == '-' then -v else v)
    else
      var n := ParseUnsigned(s, radix);
      if n.None? then None else Some(n.value)
  }

  predicate IsUnsigned(s: string, radix: nat, v: nat) {
    var body := Unprefixed(s, radix);
    Grouped(body, radix) && AllDigits(Ungrouped(body), radix) && v == ValueFrom(Ungrouped(body), radix, 0)
  }

  lemma {:induction false} UnsignedIff(s: string, radix: nat, v: nat)
    ensures ParseUnsigned(s, radix) == Some(v) <==> IsUnsigned(s, radix, v)
  {
    ParseGrouped(Unprefixed(s, radix), radix, v);
  }

  lemma {:induction false} LiteralIff(s: string, radix: nat, v: int)
    ensures Stripped(s, radix) == Some(v) <==> IsLiteral(s, radix, v)
  {
    var signed := s != "" && (s[0] == '-' || s[0] == '+');
    var rest := if signed then s[1..] else s;
    var n: nat := if v < 0 then -v else v;
    UnsignedIff(rest, radix, n);
    if s == "" {
      assert Unprefixed(s, radix) == "";
    }
  }
}
