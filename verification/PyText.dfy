/** The few Python string operations the models share. */
module PyText {
  import opened Options

  /** str.isspace, for the characters of the Basic Multilingual Plane. */
  predicate IsSpace(c: char) {
    var k := c as int;
    || 9 <= k <= 13 || 28 <= k <= 32 || k == 0x85 || k == 0xA0 || k == 0x1680
    || 0x2000 <= k <= 0x200A || k == 0x2028 || k == 0x2029 || k == 0x202F || k == 0x205F || k == 0x3000
  }

  function StripLeft(s: string): (r: string)
    ensures |r| <= |s| && (r != "" ==> !IsSpace(r[0]))
  {
    if s != "" && IsSpace(s[0]) then StripLeft(s[1..]) else s
  }

  function StripRight(s: string): (r: string)
    ensures |r| <= |s| && (r != "" ==> !IsSpace(r[|r| - 1]))
  {
    if s != "" && IsSpace(s[|s| - 1]) then StripRight(s[..|s| - 1]) else s
  }

  /** str.strip(). */
  function Strip(s: string): string {
    StripRight(StripLeft(s))
  }

  /** str.upper on ASCII letters. */
  function Upper(s: string): string {
    if s == "" then ""
    else [if 'a' <= s[0] <= 'z' then (s[0] as int - 32) as char else s[0]] + Upper(s[1..])
  }

  /** "".join(s.split()). */
  function Compact(s: string): string {
    if s == "" then "" else if IsSpace(s[0]) then Compact(s[1..]) else [s[0]] + Compact(s[1..])
  }

  predicate AllDigits(s: string, radix: nat) {
    forall i :: 0 <= i < |s| ==> IsDigit(s[i], radix)
  }

  /** Value of an ASCII digit in radix up to 16. */
  function DigitValue(c: char): (v: Option<nat>)
    ensures v.Some? ==> v.value < 16 && !IsSpace(c)
  {
    if '0' <= c <= '9' then Some(c as int - '0' as int)
    else if 'a' <= c <= 'f' then Some(c as int - 'a' as int + 10)
    else if 'A' <= c <= 'F' then Some(c as int - 'A' as int + 10)
    else None
  }

  function DigitChar(d: nat): (c: char)
    requires d < 16
    ensures DigitValue(c) == Some(d)
  {
    if d < 10 then (d + '0' as int) as char else (d - 10 + 'a' as int) as char
  }

  function LastDigit(n: nat, radix: nat): (c: char)
    requires 2 <= radix <= 16
    ensures IsDigit(c, radix) && DigitValue(c).value == n % radix
  {
    DigitChar(n % radix)
  }

  /** format(n, "d") and format(n, "x") of a natural number. */
  function Digits(n: nat, radix: nat): (s: string)
    requires 2 <= radix <= 16
    ensures |s| > 0 && AllDigits(s, radix)
  {
    if n < radix then [LastDigit(n, radix)] else Digits(n / radix, radix) + [LastDigit(n, radix)]
  }

  function FormatInt(n: int, radix: nat): string
    requires 2 <= radix <= 16
  {
    if n < 0 then "-" + Digits(-n, radix) else Digits(n, radix)
  }

  function Zeros(k: int): (s: string)
    ensures |s| == if k <= 0 then 0 else k
    ensures forall i :: 0 <= i < |s| ==> s[i] == '0'
  {
    if k <= 0 then "" else "0" + Zeros(k - 1)
  }

  /** str.zfill: the zeros go after a sign. */
  function Zfill(s: string, width: int): (r: string)
    ensures |r| == if |s| < width then width else |s|
  {
    var pad := Zeros(width - |s|);
    if s != "" && (s[0] == '-' || s[0] == '+') then [s[0]] + pad + s[1..] else pad + s
  }

  predicate IsDigit(c: char, radix: nat) {
    DigitValue(c).Some? && DigitValue(c).value < radix
  }

  /** The value read so far, one digit later. */
  function Push(acc: nat, c: char, radix: nat): nat
    requires IsDigit(c, radix)
  {
    acc * radix + DigitValue(c).value
  }

  /** Value of a run of digits, most significant first, continuing from acc. */
  function ValueFrom(s: string, radix: nat, acc: nat): nat
    requires AllDigits(s, radix)
  {
    if s == "" then acc else ValueFrom(s[1..], radix, Push(acc, s[0], radix))
  }

  /** The digits of int(text, radix): single underscores are allowed between digits. */
  function ParseDigits(s: string, radix: nat, acc: nat, afterDigit: bool): Option<nat> {
    if s == "" then (if afterDigit then Some(acc) else None)
    else if s[0] == '_' then (if afterDigit then ParseDigits(s[1..], radix, acc, false) else None)
    else if IsDigit(s[0], radix) then ParseDigits(s[1..], radix, Push(acc, s[0], radix), true)
    else None
  }

  /** The prefix 0x of radix 16, after which one underscore may stand. */
  function ParseUnsigned(s: string, radix: nat): Option<nat> {
    if radix == 16 && |s| >= 2 && s[0] == '0' && (s[1] == 'x' || s[1] == 'X') then
      ParseDigits(if |s| > 2 && s[2] == '_' then s[3..] else s[2..], radix, 0, false)
    else ParseDigits(s, radix, 0, false)
  }

  /** int(text, radix) for radix 10 and 16 on ASCII text; None is ValueError. */
  function ParseInt(text: string, radix: nat): Option<int> {
    var s := Strip(text);
    if s == "" then None
    else if s[0] == '-' || s[0] == '+' then
      var n := ParseUnsigned(s[1..], radix);
      if n.None? then None
      else
        var v: int := n.value;
        Some(if s[0] == '-' then -v else v)
    else
      var n := ParseUnsigned(s, radix);
      if n.None? then None else Some(n.value)
  }

  function Pow(b: nat, n: nat): nat {
    if n == 0 then 1 else b * Pow(b, n - 1)
  }

  // ---------------------------------------------------------------- properties

  lemma Scaled(a: nat, b: nat, r: nat)
    requires a <= b
    ensures a * r <= b * r
  {
    assert b * r == a * r + (b - a) * r;
  }

  lemma QuotientBound(n: nat, r: nat, p: nat)
    requires r > 0
    ensures n / r < p <==> n < r * p
  {
    var q := n / r;
    assert n == q * r + n % r;
    if q < p {
      Scaled(q + 1, p, r);
      assert (q + 1) * r == q * r + r;
    } else {
      Scaled(p, q, r);
    }
  }

  lemma {:induction false} PowPositive(b: nat, n: nat)
    requires b > 0
    ensures Pow(b, n) > 0
  {
    if n > 0 {
      PowPositive(b, n - 1);
    }
  }

  lemma SmallMod(n: nat, radix: nat)
    requires n < radix
    ensures n % radix == n
  {
  }

  lemma {:induction false} DigitsUnfold(n: nat, radix: nat)
    requires 2 <= radix <= 16
    ensures radix <= n ==> Digits(n, radix) == Digits(n / radix, radix) + [LastDigit(n, radix)]
    ensures n < radix ==> Digits(n, radix) == [LastDigit(n, radix)] && n % radix == n
  {
    if n < radix {
      SmallMod(n, radix);
    }
  }

  lemma Smaller(n: nat, radix: nat)
    requires 2 <= radix <= n
    ensures 0 < n / radix < n
  {
  }

  lemma {:induction false} OneDigitFits(n: nat, radix: nat, w: nat)
    requires 2 <= radix <= 16 && w > 0 && n < radix
    ensures n < Pow(radix, w)
  {
    PowPositive(radix, w - 1);
    var p := Pow(radix, w - 1);
    assert radix * p >= radix * 1;
  }

  lemma {:induction false} DigitsLength(n: nat, radix: nat)
    requires 2 <= radix <= 16
    ensures n < radix ==> |Digits(n, radix)| == 1
    ensures radix <= n ==> |Digits(n, radix)| == |Digits(n / radix, radix)| + 1
  {
  }

  /** A number has at most w digits exactly when it is below radix^w. */
  lemma {:induction false} DigitsFit(n: nat, radix: nat, w: nat)
    requires 2 <= radix <= 16 && w > 0
    ensures |Digits(n, radix)| <= w <==> n < Pow(radix, w)
    decreases w
  {
    DigitsLength(n, radix);
    if n < radix {
      OneDigitFits(n, radix, w);
    } else if w == 1 {
      assert Pow(radix, 1) == radix * Pow(radix, 0);
    } else {
      QuotientBound(n, radix, Pow(radix, w - 1));
      DigitsFit(n / radix, radix, w - 1);
    }
  }

  lemma {:induction false} ValueSnoc(s: string, c: char, radix: nat, acc: nat)
    requires AllDigits(s, radix) && IsDigit(c, radix)
    ensures AllDigits(s + [c], radix)
    ensures ValueFrom(s + [c], radix, acc) == Push(ValueFrom(s, radix, acc), c, radix)
  {
    assert AllDigits(s + [c], radix);
    if s == "" {
      assert s + [c] == [c] && [c][1..] == "";
    } else {
      ValueSnoc(s[1..], c, radix, Push(acc, s[0], radix));
      assert (s + [c])[1..] == s[1..] + [c];
    }
  }

  lemma DivMod(n: nat, radix: nat)
    requires radix > 0
    ensures (n / radix) * radix + n % radix == n
  {
  }

  /** The last digit read after the others. */
  lemma {:induction false} DigitsValueStep(n: nat, radix: nat)
    requires 2 <= radix <= 16 && radix <= n
    requires ValueFrom(Digits(n / radix, radix), radix, 0) == n / radix
    ensures ValueFrom(Digits(n, radix), radix, 0) == n
  {
    var c, q := LastDigit(n, radix), Digits(n / radix, radix);
    DigitsUnfold(n, radix);
    ValueSnoc(q, c, radix, 0);
    DivMod(n, radix);
  }

  /** Reading back what was formatted. */
  lemma {:induction false} DigitsValue(n: nat, radix: nat)
    requires 2 <= radix <= 16
    ensures ValueFrom(Digits(n, radix), radix, 0) == n
  {
    if n < radix {
      DigitsUnfold(n, radix);
      ValueSnoc("", LastDigit(n, radix), radix, 0);
      assert "" + [LastDigit(n, radix)] == [LastDigit(n, radix)];
    } else {
      Smaller(n, radix);
      DigitsValue(n / radix, radix);
      DigitsValueStep(n, radix);
    }
  }

  lemma {:induction false} ValueZeros(k: int, s: string, radix: nat)
    requires AllDigits(s, radix) && radix > 0
    ensures AllDigits(Zeros(k) + s, radix)
    ensures ValueFrom(Zeros(k) + s, radix, 0) == ValueFrom(s, radix, 0)
    decreases k
  {
    if k <= 0 {
      assert Zeros(k) + s == s;
    } else {
      ValueZeros(k - 1, s, radix);
      assert (Zeros(k) + s)[1..] == Zeros(k - 1) + s;
    }
  }

  lemma {:induction false} ParseRun(s: string, radix: nat, acc: nat, afterDigit: bool)
    requires AllDigits(s, radix) && (s != "" || afterDigit)
    ensures ParseDigits(s, radix, acc, afterDigit) == Some(ValueFrom(s, radix, acc))
  {
    if s != "" {
      assert AllDigits(s[1..], radix);
      ParseRun(s[1..], radix, Push(acc, s[0], radix), true);
    }
  }

  lemma StripDigits(s: string, radix: nat)
    requires AllDigits(s, radix)
    ensures Strip(s) == s
  {
  }

  lemma ParseDigitText(s: string, radix: nat)
    requires s != "" && AllDigits(s, radix)
    ensures ParseInt(s, radix) == Some(ValueFrom(s, radix, 0))
  {
    StripDigits(s, radix);
    ParseRun(s, radix, 0, false);
  }

  /** A zero-filled number of any width reads back as that number. */
  lemma ZfillValue(n: nat, radix: nat, width: int)
    requires 2 <= radix <= 16
    ensures var t := Zfill(Digits(n, radix), width);
            && t != "" && AllDigits(t, radix) && ValueFrom(t, radix, 0) == n
            && Strip(t) == t && ParseInt(t, radix) == Some(n)
  {
    var d := Digits(n, radix);
    ValueZeros(width - |d|, d, radix);
    DigitsValue(n, radix);
    ParseDigitText(Zfill(d, width), radix);
    StripDigits(Zfill(d, width), radix);
  }
}
