/** Frame formats of the TCP client (common/request/tcp_async_utils.py): building a payload, and what
  * each mode reads from the bytes the peer sends before it closes the connection. */
module TcpFraming {
  import opened Options
  import opened PyText

  type byte = b: int | 0 <= b < 256

  datatype TcpError =
    | BadHex | BadRadix | Overflow
    | BadPrefix | NegativeLength | TooLarge | Incomplete | LimitOverrun | BadRead
    | NotConnected | RetriesExhausted | ConnectTimeout | ConnectFailed | ReadWriteTimeout

  datatype FrameMode = LengthPrefix | Terminator | Raw

  /** Request data: absent, bytes, a dict already serialised, or text. */
  datatype Data = Nothing | Binary(bytes: seq<byte>) | Json(serialized: seq<byte>) | Text(text: string)

  // ---------------------------------------------------------------- text and bytes

  /** Encoding of characters below 128, which every ASCII-compatible encoding shares. */
  function EncodeAscii(s: string): (b: seq<byte>)
    requires forall i :: 0 <= i < |s| ==> s[i] as int < 128
    ensures |b| == |s|
  {
    seq(|s|, i requires 0 <= i < |s| => s[i] as int)
  }

  /** decode(errors="ignore") of an ASCII encoding: other bytes are dropped. */
  function DecodeIgnore(b: seq<byte>): string {
    if b == [] then "" else (if b[0] < 128 then [b[0] as char] else "") + DecodeIgnore(b[1..])
  }

  lemma {:induction false} DecodeEncoded(s: string)
    requires forall i :: 0 <= i < |s| ==> s[i] as int < 128
    ensures DecodeIgnore(EncodeAscii(s)) == s
  {
    if s != "" {
      assert EncodeAscii(s)[1..] == EncodeAscii(s[1..]);
      DecodeEncoded(s[1..]);
    }
  }

  // ---------------------------------------------------------------- building

  /** bytes.fromhex of an even run of hexadecimal digits. */
  function FromHex(s: string): (b: seq<byte>)
    requires |s| % 2 == 0 && AllDigits(s, 16)
    ensures |b| == |s| / 2
  {
    if s == "" then []
    else [DigitValue(s[0]).value * 16 + DigitValue(s[1]).value] + FromHex(s[2..])
  }

  /** _encode_body.  `encode` is the text encoding chosen by the caller. */
  function EncodeBody(data: Data, encode: string -> seq<byte>, hexString: bool): Result<seq<byte>, TcpError> {
    match data
    case Nothing => Ok([])
    case Binary(b) => Ok(b)
    case Json(b) => Ok(b)
    case Text(t) =>
      if hexString then
        var compact := Compact(t);
        if |compact| % 2 != 0 || !AllDigits(compact, 16) then Err(BadHex) else Ok(FromHex(compact))
      else Ok(encode(t))
  }

  /** _format_length_prefix. */
  function FormatLengthPrefix(value: int, radix: int, width: int): Result<seq<byte>, TcpError> {
    if radix != 10 && radix != 16 then Err(BadRadix)
    else
      var text := Zfill(FormatInt(value, radix), width);
      if |text| > width then Err(Overflow)
      else
        NumberIsAscii(value, radix, width);
        Ok(EncodeAscii(text))
  }

  /** The length value written for a body. */
  function LengthValue(body: seq<byte>, width: int, includePrefix: bool): int {
    if includePrefix then |body| + width else |body|
  }

  /** _build_payload. */
  function BuildPayload(body: seq<byte>, mode: FrameMode, radix: int, width: int, includePrefix: bool,
                        endSymbol: seq<byte>): Result<seq<byte>, TcpError> {
    match mode
    case LengthPrefix =>
      var prefix := FormatLengthPrefix(LengthValue(body, width, includePrefix), radix, width);
      if prefix.Err? then Err(prefix.error) else Ok(prefix.value + body)
    case Terminator => Ok(body + endSymbol)
    case Raw => Ok(body)
  }

  // ---------------------------------------------------------------- reading

  /** What a read returns and the bytes it leaves in the stream. */
  datatype Read = Read(result: Result<seq<byte>, TcpError>, rest: seq<byte>)

  /** StreamReader.readexactly: a short stream is consumed and reported as incomplete. */
  function ReadExactly(stream: seq<byte>, n: int): Read {
    if n < 0 then Read(Err(BadRead), stream)
    else if |stream| < n then Read(Err(Incomplete), [])
    else Read(Ok(stream[..n]), stream[n..])
  }

  /** The length a prefix announces. */
  function PrefixLength(prefix: seq<byte>, radix: nat, width: int, includePrefix: bool): Result<nat, TcpError> {
    var n := ParseInt(Strip(DecodeIgnore(prefix)), radix);
    if n.None? then Err(BadPrefix)
    else
      var length := if includePrefix then n.value - width else n.value;
      if length < 0 then Err(NegativeLength) else Ok(length)
  }

  /** The receive half of `exchange` for length-prefixed frames. */
  function ReadFrame(stream: seq<byte>, radix: nat, width: int, includePrefix: bool, maxBytes: nat): Read {
    var head := ReadExactly(stream, width);
    if head.result.Err? then head
    else
      var length := PrefixLength(head.result.value, radix, width, includePrefix);
      if length.Err? then Read(Err(length.error), head.rest)
      else if length.value > maxBytes then Read(Err(TooLarge), head.rest)
      else ReadExactly(head.rest, length.value)
  }

  /** sep stands at position i of s. */
  predicate Occurs(s: seq<byte>, sep: seq<byte>, i: int) {
    0 <= i && i + |sep| <= |s| && s[i..i + |sep|] == sep
  }

  /** The first occurrence of sep at or after i. */
  function FindFrom(s: seq<byte>, sep: seq<byte>, i: nat): (r: Option<nat>)
    requires i <= |s|
    ensures r.Some? ==> i <= r.value && Occurs(s, sep, r.value)
    decreases |s| - i
  {
    if i + |sep| > |s| then None
    else if Occurs(s, sep, i) then Some(i)
    else if i == |s| then None
    else FindFrom(s, sep, i + 1)
  }

  /** StreamReader.readuntil followed by stripping the separator.  `limit` is the stream limit. */
  function ReadUntil(stream: seq<byte>, sep: seq<byte>, limit: nat): Read
    requires sep != []
  {
    var at := FindFrom(stream, sep, 0);
    if at.None? then
      if |stream| + 1 - |sep| > limit then Read(Err(LimitOverrun), stream) else Read(Err(Incomplete), [])
    else if at.value > limit then Read(Err(LimitOverrun), stream)
    else Read(Ok(stream[..at.value]), stream[at.value + |sep|..])
  }

  /** Reading to the end of the stream within a size limit. */
  function ReadAll(stream: seq<byte>, maxBytes: nat): Result<seq<byte>, TcpError> {
    if |stream| > maxBytes then Err(TooLarge) else Ok(stream)
  }

  const MIN_STREAM_LIMIT: nat := 65536

  /** The receive half of `exchange`. */
  function Received(stream: seq<byte>, mode: FrameMode, radix: nat, width: int, includePrefix: bool,
                    endSymbol: seq<byte>, maxBytes: nat): Result<seq<byte>, TcpError> {
    match mode
    case LengthPrefix => ReadFrame(stream, radix, width, includePrefix, maxBytes).result
    case Terminator =>
      if endSymbol != [] then
        ReadUntil(stream, endSymbol, if maxBytes > MIN_STREAM_LIMIT then maxBytes else MIN_STREAM_LIMIT).result
      else ReadAll(stream, maxBytes)
    case Raw => ReadAll(stream, maxBytes)
  }

  // ---------------------------------------------------------------- the builder's limit

  lemma NumberIsAscii(value: int, radix: nat, width: int)
    requires 2 <= radix <= 16
    ensures var t := Zfill(FormatInt(value, radix), width); forall i :: 0 <= i < |t| ==> t[i] as int < 128
  {
    var d := if value < 0 then Digits(-value, radix) else Digits(value, radix);
    assert forall i :: 0 <= i < |d| ==> IsDigit(d[i], radix);
  }

  /** A prefix is refused exactly when the value needs more digits than the field has: for every
    * width, with a field of no digits refusing every value. */
  lemma PrefixAcceptedIff(value: nat, radix: int, width: int)
    requires radix == 10 || radix == 16
    ensures FormatLengthPrefix(value, radix, width).Ok? <==> width >= 1 && value < Pow(radix, width)
    ensures !FormatLengthPrefix(value, radix, width).Ok? ==>
              FormatLengthPrefix(value, radix, width) == Err(Overflow)
  {
    if width >= 1 {
      DigitsFit(value, radix, width);
    }
  }

  /** The length-prefixed builder refuses a frame exactly when the length value does not fit. */
  lemma FrameAcceptedIff(body: seq<byte>, radix: int, width: int, includePrefix: bool, endSymbol: seq<byte>)
    requires radix == 10 || radix == 16
    ensures BuildPayload(body, LengthPrefix, radix, width, includePrefix, endSymbol).Ok?
            <==> width >= 1 && LengthValue(body, width, includePrefix) < Pow(radix, width)
  {
    var value := LengthValue(body, width, includePrefix);
    if value >= 0 {
      PrefixAcceptedIff(value, radix, width);
    } else {
      assert width < 0;
    }
  }

  // ---------------------------------------------------------------- length-prefixed round trip

  /** The payload of a body in a length-prefixed connection. */
  function Frame(body: seq<byte>, radix: int, width: int, includePrefix: bool): Result<seq<byte>, TcpError> {
    BuildPayload(body, LengthPrefix, radix, width, includePrefix, [])
  }

  /** A built prefix reads back as the body's length: never malformed, never negative. */
  lemma PrefixReadsBack(body: seq<byte>, radix: int, width: int, includePrefix: bool)
    requires FormatLengthPrefix(LengthValue(body, width, includePrefix), radix, width).Ok?
    ensures var p := FormatLengthPrefix(LengthValue(body, width, includePrefix), radix, width).value;
            |p| == width && PrefixLength(p, radix, width, includePrefix) == Ok(|body|)
  {
    var value := LengthValue(body, width, includePrefix);
    var text := Zfill(FormatInt(value, radix), width);
    assert |text| == width && width > 0 by {
      assert |FormatInt(value, radix)| > 0;
    }
    NumberIsAscii(value, radix, width);
    ZfillValue(value, radix, width);
    DecodeEncoded(text);
  }

  /** One frame followed by anything: the body comes back and nothing after it is consumed, unless
    * the body is over the receiver's size limit. */
  lemma FrameRoundTrip(body: seq<byte>, radix: int, width: int, includePrefix: bool, rest: seq<byte>, maxBytes: nat)
    requires Frame(body, radix, width, includePrefix).Ok?
    ensures var stream := Frame(body, radix, width, includePrefix).value + rest;
            ReadFrame(stream, radix, width, includePrefix, maxBytes) ==
            if |body| <= maxBytes then Read(Ok(body), rest) else Read(Err(TooLarge), body + rest)
  {
    PrefixReadsBack(body, radix, width, includePrefix);
    var p := FormatLengthPrefix(LengthValue(body, width, includePrefix), radix, width).value;
    SplitFrame(p, body, rest, radix, width, includePrefix, maxBytes);
  }

  lemma SplitFrame(p: seq<byte>, body: seq<byte>, rest: seq<byte>, radix: nat, width: int, includePrefix: bool,
                   maxBytes: nat)
    requires |p| == width && PrefixLength(p, radix, width, includePrefix) == Ok(|body|)
    ensures ReadFrame(p + body + rest, radix, width, includePrefix, maxBytes) ==
            if |body| <= maxBytes then Read(Ok(body), rest) else Read(Err(TooLarge), body + rest)
  {
    var stream := p + body + rest;
    assert stream[..width] == p && stream[width..] == body + rest;
    assert (body + rest)[..|body|] == body && (body + rest)[|body|..] == rest;
  }

  /** The concatenation of the frames of a list of bodies. */
  function Frames(bodies: seq<seq<byte>>, radix: int, width: int, includePrefix: bool): seq<byte>
    requires forall i :: 0 <= i < |bodies| ==> Frame(bodies[i], radix, width, includePrefix).Ok?
  {
    if bodies == [] then []
    else Frame(bodies[0], radix, width, includePrefix).value + Frames(bodies[1..], radix, width, includePrefix)
  }

  /** The first n frames of a stream, and what is left after them. */
  function ReadFrames(stream: seq<byte>, n: nat, radix: nat, width: int, includePrefix: bool, maxBytes: nat)
    : (Result<seq<seq<byte>>, TcpError>, seq<byte>)
  {
    if n == 0 then (Ok([]), stream)
    else
      var first := ReadFrame(stream, radix, width, includePrefix, maxBytes);
      if first.result.Err? then (Err(first.result.error), first.rest)
      else
        var (others, rest) := ReadFrames(first.rest, n - 1, radix, width, includePrefix, maxBytes);
        if others.Err? then (Err(others.error), rest) else (Ok([first.result.value] + others.value), rest)
  }

  /** Frames are self-delimiting: any list of frames, followed by anything, reads back as exactly
    * that list with the rest of the stream untouched. */
  lemma {:induction false} FramesRoundTrip(bodies: seq<seq<byte>>, radix: int, width: int, includePrefix: bool,
                                           rest: seq<byte>, maxBytes: nat)
    requires forall i :: 0 <= i < |bodies| ==>
               Frame(bodies[i], radix, width, includePrefix).Ok? && |bodies[i]| <= maxBytes
    requires radix >= 0
    ensures ReadFrames(Frames(bodies, radix, width, includePrefix) + rest, |bodies|, radix, width, includePrefix, maxBytes)
            == (Ok(bodies), rest)
  {
    if bodies != [] {
      var tail := Frames(bodies[1..], radix, width, includePrefix);
      var head := Frame(bodies[0], radix, width, includePrefix).value;
      FrameRoundTrip(bodies[0], radix, width, includePrefix, tail + rest, maxBytes);
      assert (head + tail) + rest == head + (tail + rest);
      FramesRoundTrip(bodies[1..], radix, width, includePrefix, rest, maxBytes);
      assert [bodies[0]] + bodies[1..] == bodies;
    } else {
      assert Frames(bodies, radix, width, includePrefix) + rest == rest;
    }
  }

  // ---------------------------------------------------------------- terminator

  lemma FindIsFirst(s: seq<byte>, sep: seq<byte>, i: nat)
    requires i <= |s|
    ensures forall j :: i <= j && Occurs(s, sep, j) ==>
              FindFrom(s, sep, i).Some? && FindFrom(s, sep, i).value <= j
    decreases |s| - i
  {
  }

  lemma FindLeast(s: seq<byte>, sep: seq<byte>, k: nat)
    requires Occurs(s, sep, k)
    ensures FindFrom(s, sep, 0).Some? && FindFrom(s, sep, 0).value <= k
    ensures (forall j :: 0 <= j < k ==> !Occurs(s, sep, j)) ==> FindFrom(s, sep, 0) == Some(k)
  {
    FindIsFirst(s, sep, 0);
  }

  /** No occurrence of the terminator before the one the sender appended. */
  predicate Delimited(body: seq<byte>, sep: seq<byte>) {
    forall j :: 0 <= j < |body| ==> !Occurs(body + sep, sep, j)
  }

  lemma OccursInPrefix(s: seq<byte>, rest: seq<byte>, sep: seq<byte>, j: int)
    requires j + |sep| <= |s|
    ensures Occurs(s + rest, sep, j) <==> Occurs(s, sep, j)
  {
    if 0 <= j {
      assert (s + rest)[j..j + |sep|] == s[j..j + |sep|];
    }
  }

  /** A terminated body comes back exactly when it fits the stream limit and the terminator does not
    * occur earlier in the sent bytes. */
  lemma TerminatorRoundTripIff(body: seq<byte>, sep: seq<byte>, rest: seq<byte>, limit: nat)
    requires sep != []
    ensures ReadUntil(body + sep + rest, sep, limit) == Read(Ok(body), rest)
            <==> |body| <= limit && Delimited(body, sep)
    ensures ReadUntil(body + sep + rest, sep, limit).result == Ok(body) ==> Delimited(body, sep)
  {
    var stream := body + sep + rest;
    var k := |body|;
    assert Occurs(body + sep, sep, k) by { assert (body + sep)[k..k + |sep|] == sep; }
    forall j | 0 <= j <= k ensures Occurs(stream, sep, j) <==> Occurs(body + sep, sep, j) {
      OccursInPrefix(body + sep, rest, sep, j);
    }
    FindLeast(stream, sep, k);
    assert stream[..k] == body && stream[k + |sep|..] == rest;
    FindIsFirst(stream, sep, 0);
  }

  /** sep ends with its own first b bytes. */
  predicate Border(sep: seq<byte>, b: int) {
    0 < b < |sep| && sep[..b] == sep[|sep| - b..]
  }

  ghost predicate Contains(s: seq<byte>, sep: seq<byte>) {
    exists j :: Occurs(s, sep, j)
  }

  lemma EarlyOccurrenceIsBorder(body: seq<byte>, sep: seq<byte>, j: int)
    requires 0 <= j < |body| && Occurs(body + sep, sep, j) && !Contains(body, sep)
    ensures Border(sep, j + |sep| - |body|)
  {
    if j + |sep| <= |body| {
      OccursInPrefix(body, sep, sep, j);
    }
    var b := j + |sep| - |body|;
    var s := body + sep;
    assert sep[|sep| - b..] == s[j..j + |sep|][|sep| - b..] == s[|body|..j + |sep|] == sep[..b];
  }

  /** A terminator with a border has a body that does not contain it and yet is cut short. */
  lemma BorderBreaksBody(sep: seq<byte>, b: int) returns (body: seq<byte>)
    requires Border(sep, b)
    ensures !Contains(body, sep) && !Delimited(body, sep)
  {
    body := sep[..|sep| - b];
    var s := body + sep;
    assert s[..|sep|] == sep by {
      assert s[|sep| - b..|sep|] == sep[..b] == sep[|sep| - b..];
      assert s[..|sep|] == s[..|sep| - b] + s[|sep| - b..|sep|];
      assert sep == sep[..|sep| - b] + sep[|sep| - b..];
    }
    assert Occurs(s, sep, 0);
  }

  /** "The body must not contain the terminator" is the right rule exactly for terminators without a
    * proper border. */
  lemma BorderlessIff(sep: seq<byte>)
    requires sep != []
    ensures (forall b :: !Border(sep, b))
            <==> forall body :: Delimited(body, sep) <==> !Contains(body, sep)
  {
    if b :| Border(sep, b) {
      var body := BorderBreaksBody(sep, b);
    } else {
      forall body ensures Delimited(body, sep) <==> !Contains(body, sep) {
        if Contains(body, sep) {
          var j :| Occurs(body, sep, j);
          OccursInPrefix(body, sep, sep, j);
        } else if !Delimited(body, sep) {
          var j :| 0 <= j < |body| && Occurs(body + sep, sep, j);
          EarlyOccurrenceIsBorder(body, sep, j);
        }
      }
    }
  }

  /** CRLF has no proper border. */
  lemma CrlfBorderless(b: int)
    ensures !Border([13, 10], b)
  {
    var crlf: seq<byte> := [13, 10];
    assert crlf[..1] == [13] && crlf[1..] == [10];
  }

  // ---------------------------------------------------------------- hexadecimal bodies

  /** Two hexadecimal digits per byte. */
  function ToHex(b: seq<byte>): (s: string)
    ensures |s| == 2 * |b| && AllDigits(s, 16)
  {
    if b == [] then "" else [DigitChar(b[0] / 16), DigitChar(b[0] % 16)] + ToHex(b[1..])
  }

  lemma {:induction false} FromHexToHex(b: seq<byte>)
    ensures FromHex(ToHex(b)) == b
  {
    if b != [] {
      FromHexToHex(b[1..]);
      var h := ToHex(b);
      assert h[2..] == ToHex(b[1..]);
      assert h[0] == DigitChar(b[0] / 16) && h[1] == DigitChar(b[0] % 16);
    }
  }

  /** Equal up to the case of ASCII letters. */
  predicate SameLetters(s: string, t: string) { Upper(s) == Upper(t) }

  /** One digit: its upper-case form has its value, and no other digit's. */
  lemma {:induction false} DigitCase(c: char, d: nat)
    requires d < 16
    ensures Upper([c]) == Upper([DigitChar(d)]) <==> DigitValue(c) == Some(d)
  {
    var e := DigitChar(d);
    UpperOne(c);
    UpperOne(e);
    assert Upper([c]) == Upper([e]) <==> UpperChar(c) == UpperChar(e);
    assert UpperChar(c) as int == UpperChar(e) as int ==> DigitValue(c) == Some(d);
  }

  function UpperChar(c: char): char { if 'a' <= c <= 'z' then (c as int - 32) as char else c }

  lemma {:induction false} UpperOne(c: char)
    ensures Upper([c]) == [UpperChar(c)]
  {
    assert [c][1..] == "";
  }

  lemma {:induction false} UpperCons(s: string)
    requires s != ""
    ensures Upper(s) == Upper([s[0]]) + Upper(s[1..]) && |Upper([s[0]])| == 1
  {
    assert [s[0]][1..] == "";
  }

  lemma {:induction false} UpperLength(s: string)
    ensures |Upper(s)| == |s|
  {
    if s != "" {
      UpperLength(s[1..]);
    }
  }

  lemma {:induction false} SameLettersCons(s: string, t: string)
    requires s != "" && t != ""
    ensures SameLetters(s, t) <==> Upper([s[0]]) == Upper([t[0]]) && SameLetters(s[1..], t[1..])
  {
    UpperCons(s);
    UpperCons(t);
    var a, b := Upper([s[0]]), Upper([t[0]]);
    if SameLetters(s, t) {
      assert (a + Upper(s[1..]))[..1] == a && (b + Upper(t[1..]))[..1] == b;
      assert (a + Upper(s[1..]))[1..] == Upper(s[1..]) && (b + Upper(t[1..]))[1..] == Upper(t[1..]);
    }
  }

  /** Digits in either case that spell the bytes decode to them. */
  lemma {:induction false} HexSpells(s: string, b: seq<byte>)
    requires SameLetters(s, ToHex(b))
    ensures |s| % 2 == 0 && AllDigits(s, 16) && FromHex(s) == b
  {
    UpperLength(s);
    UpperLength(ToHex(b));
    if b != [] {
      var h := ToHex(b);
      assert h[0] == DigitChar(b[0] / 16) && h[1..][0] == DigitChar(b[0] % 16) && h[1..][1..] == ToHex(b[1..]);
      SameLettersCons(s, h);
      SameLettersCons(s[1..], h[1..]);
      DigitCase(s[0], b[0] / 16);
      DigitCase(s[1], b[0] % 16);
      assert s[1..][1..] == s[2..];
      HexSpells(s[2..], b[1..]);
    }
  }

  /** And any even number of digits spells some bytes. */
  lemma {:induction false} HexSpelled(s: string)
    requires |s| % 2 == 0 && AllDigits(s, 16)
    ensures SameLetters(s, ToHex(FromHex(s)))
  {
    if s != "" {
      HexSpelled(s[2..]);
      var high, low, b := DigitValue(s[0]).value, DigitValue(s[1]).value, FromHex(s);
      var h := ToHex(b);
      assert b[0] == high * 16 + low && b[1..] == FromHex(s[2..]);
      assert h[0] == DigitChar(high) && h[1..][0] == DigitChar(low) && h[1..][1..] == ToHex(b[1..]);
      DigitCase(s[0], high);
      DigitCase(s[1], low);
      assert s[1..][1..] == s[2..];
      SameLettersCons(s[1..], h[1..]);
      SameLettersCons(s, h);
    }
  }

  /** The text, without its blanks, is the hexadecimal text of the bytes. */
  predicate Spells(text: string, b: seq<byte>) { SameLetters(Compact(text), ToHex(b)) }

  /** A hexadecimal text body is accepted exactly when, without its blanks and up to the case of its letters,
    * it is the hexadecimal text of some bytes, and it is then those bytes. */
  lemma {:induction false} HexBodyIff(text: string, encode: string -> seq<byte>)
    ensures var r := EncodeBody(Text(text), encode, true);
            && (r.Ok? <==> exists b :: Spells(text, b))
            && forall b :: Spells(text, b) ==> r == Ok(b)
  {
    var r := EncodeBody(Text(text), encode, true);
    var s := Compact(text);
    if r.Ok? {
      HexSpelled(s);
      assert Spells(text, r.value);
    }
    forall b | Spells(text, b) ensures r == Ok(b) {
      HexSpells(s, b);
    }
  }
}
