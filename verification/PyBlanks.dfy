/** What str.strip and "".join(s.split()) do to the blanks of a text, and str.upper to its letters. */
module PyBlanks {
  import opened PyText

  predicate Blank(s: string) { BlankFrom(s, 0, |s|) }

  predicate BlankFrom(s: string, i: nat, j: nat)
    requires i <= j <= |s|
  {
    forall k :: i <= k < j ==> IsSpace(s[k])
  }

  /** The part between i and j stands between blanks and does not begin or end with one. */
  predicate StandsAt(s: string, i: nat, j: nat) {
    && i <= j <= |s| && BlankFrom(s, 0, i) && BlankFrom(s, j, |s|)
    && (i < j ==> !IsSpace(s[i]) && !IsSpace(s[j - 1]))
  }

  lemma {:induction false} LeftStrip(s: string) returns (i: nat)
    ensures i <= |s| && BlankFrom(s, 0, i) && StripLeft(s) == s[i..] && (i < |s| ==> !IsSpace(s[i]))
  {
    i := 0;
    if s != "" && IsSpace(s[0]) {
      i := LeftStrip(s[1..]);
      assert s[1..][i..] == s[i + 1..];
      assert forall k :: 0 < k < i + 1 ==> s[k] == s[1..][k - 1];
      i := i + 1;
    }
  }

  lemma {:induction false} RightStrip(s: string) returns (j: nat)
    ensures j <= |s| && BlankFrom(s, j, |s|) && StripRight(s) == s[..j] && (j > 0 ==> !IsSpace(s[j - 1]))
  {
    j := |s|;
    if s != "" && IsSpace(s[|s| - 1]) {
      j := RightStrip(s[..|s| - 1]);
      assert s[..|s| - 1][..j] == s[..j];
    }
  }

  /** strip() leaves the part that stands between blanks. */
  lemma {:induction false} StripStands(s: string) returns (i: nat, j: nat)
    ensures StandsAt(s, i, j) && Strip(s) == s[i..j]
  {
    i := LeftStrip(s);
    var k := RightStrip(s[i..]);
    j := i + k;
    assert s[i..][..k] == s[i..j];
    assert forall m :: j <= m < |s| ==> s[m] == s[i..][m - i];
  }

  /** Two such parts are the same text. */
  lemma {:induction false} StandsOnce(s: string, i: nat, j: nat, k: nat, l: nat)
    requires StandsAt(s, i, j) && StandsAt(s, k, l)
    ensures s[i..j] == s[k..l]
  {
    if i < j {
      NotBlankAt(s, i, k, l);
      NotBlankAt(s, j - 1, k, l);
    }
    if k < l {
      NotBlankAt(s, k, i, j);
      NotBlankAt(s, l - 1, i, j);
    }
  }

  lemma {:induction false} NotBlankAt(s: string, m: nat, k: nat, l: nat)
    requires m < |s| && !IsSpace(s[m]) && StandsAt(s, k, l)
    ensures k <= m < l
  {
  }

  /** A text strips to another exactly when that stands in it between blanks. */
  lemma {:induction false} StripIff(s: string, t: string)
    ensures Strip(s) == t <==> exists i: nat, j: nat :: StandsAt(s, i, j) && s[i..j] == t
  {
    var i, j := StripStands(s);
    forall k: nat, l: nat | StandsAt(s, k, l) && s[k..l] == t ensures Strip(s) == t {
      StandsOnce(s, i, j, k, l);
    }
  }

  /** The characters that are no blanks, in order. */
  lemma {:induction false} CompactSnoc(s: string, c: char)
    ensures Compact(s + [c]) == Compact(s) + if IsSpace(c) then "" else [c]
  {
    if s == "" {
      assert s + [c] == [c] && [c][1..] == "";
    } else {
      CompactSnoc(s[1..], c);
      assert (s + [c])[1..] == s[1..] + [c];
    }
  }

  lemma {:induction false} CompactNone(s: string)
    ensures forall i :: 0 <= i < |Compact(s)| ==> !IsSpace(Compact(s)[i])
    ensures Blank(s) <==> Compact(s) == ""
  {
    if s != "" {
      CompactNone(s[1..]);
      assert s == [s[0]] + s[1..];
    }
  }

  // ---------------------------------------------------------------- letters

  /** The capital of a small letter; any other character itself. */
  predicate IsCapital(c: char, d: char) {
    if 'a' <= c <= 'z' then d as int == c as int - 32 else d == c
  }

  lemma {:induction false} UpperAt(s: string)
    ensures |Upper(s)| == |s| && forall i :: 0 <= i < |s| ==> IsCapital(s[i], Upper(s)[i])
  {
    if s != "" {
      UpperAt(s[1..]);
    }
  }
}
