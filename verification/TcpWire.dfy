/** What goes on the wire (common/request/tcp_async_utils.py), said of the bytes alone: whose body they carry, and
  * what a reader of the same mode makes of them. */
module TcpWire {
  import opened Options
  import opened PyText
  import opened PyBlanks
  import opened PyNumerals
  import opened TcpFraming

  /** The body of request data: the given bytes, the serialised object, the bytes that the text spells in
    * hexadecimal, or the encoded text. */
  predicate IsBody(data: Data, encode: string -> seq<byte>, hexString: bool, body: seq<byte>) {
    match data
    case Nothing => body == []
    case Binary(b) => body == b
    case Json(b) => body == b
    case Text(t) => if hexString then Spells(t, body) else body == encode(t)
  }

  /** Data has a body exactly when it is not a text to be read as hexadecimal that spells no bytes. */
  lemma {:induction false} BodyIff(data: Data, encode: string -> seq<byte>, hexString: bool)
    ensures var r := EncodeBody(data, encode, hexString);
            && (r.Ok? <==> exists body :: IsBody(data, encode, hexString, body))
            && forall body :: IsBody(data, encode, hexString, body) <==> r == Ok(body)
  {
    var r := EncodeBody(data, encode, hexString);
    if data.Text? {
      HexBodyIff(data.text, encode);
    }
    forall body ensures IsBody(data, encode, hexString, body) <==> r == Ok(body) {
    }
    if r.Ok? {
      assert IsBody(data, encode, hexString, r.value);
    }
  }

  /** A digit of a length, in the small letters of format(n, "x"). */
  predicate LengthDigit(b: byte, radix: nat) {
    48 <= b <= 57 || (radix == 16 && 97 <= b <= 102)
  }

  /** The limit of the stream: never below 65536. */
  function StreamLimit(maxBytes: nat): nat { if maxBytes > 65536 then maxBytes else 65536 }

  /** The bytes carry the body: a reader of the mode, at the start of them and whatever follows, gets the body
    * back and leaves the rest. */
  ghost predicate Carries(sent: seq<byte>, body: seq<byte>, mode: FrameMode, radix: nat, width: int, includePrefix: bool,
                          endSymbol: seq<byte>) {
    match mode
    case LengthPrefix =>
      && 0 <= width && |sent| == width + |body| && sent[width..] == body
      && (forall i :: 0 <= i < width ==> LengthDigit(sent[i], radix))
      && forall rest, maxBytes :: ReadFrame(sent + rest, radix, width, includePrefix, maxBytes) ==
           if |body| <= maxBytes then Read(Ok(body), rest) else Read(Err(TooLarge), body + rest)
    case Terminator =>
      if endSymbol == [] then sent == body
      else
        && sent == body + endSymbol
        && forall rest, limit :: ReadUntil(sent + rest, endSymbol, limit) == Read(Ok(body), rest)
                                 <==> |body| <= limit && Delimited(body, endSymbol)
    case Raw => sent == body
  }

  lemma {:induction false} DigitsSmall(n: nat, radix: nat)
    requires radix == 10 || radix == 16
    ensures forall i :: 0 <= i < |Digits(n, radix)| ==>
              '0' <= Digits(n, radix)[i] <= '9' || (radix == 16 && 'a' <= Digits(n, radix)[i] <= 'f')
  {
    if n >= radix {
      DigitsSmall(n / radix, radix);
    }
  }

  lemma {:induction false} PrefixSmall(value: nat, radix: nat, width: int)
    requires FormatLengthPrefix(value, radix, width).Ok?
    ensures var p := FormatLengthPrefix(value, radix, width).value;
            forall i :: 0 <= i < |p| ==> LengthDigit(p[i], radix)
  {
    var d := Digits(value, radix);
    DigitsSmall(value, radix);
    NumberIsAscii(value, radix, width);
    assert d != "" && IsDigit(d[0], radix);
    assert Zfill(d, width) == Zeros(width - |d|) + d;
  }

  /** A length-prefixed payload. */
  lemma {:induction false} FrameCarries(body: seq<byte>, radix: nat, width: int, includePrefix: bool, endSymbol: seq<byte>)
    requires BuildPayload(body, LengthPrefix, radix, width, includePrefix, endSymbol).Ok?
    ensures Carries(BuildPayload(body, LengthPrefix, radix, width, includePrefix, endSymbol).value, body, LengthPrefix, radix, width,
                    includePrefix, endSymbol)
  {
    var sent := BuildPayload(body, LengthPrefix, radix, width, includePrefix, endSymbol).value;
    var p := FormatLengthPrefix(LengthValue(body, width, includePrefix), radix, width).value;
    PrefixReadsBack(body, radix, width, includePrefix);
    PrefixSmall(LengthValue(body, width, includePrefix), radix, width);
    assert sent == p + body;
    forall rest, maxBytes: nat
      ensures ReadFrame(sent + rest, radix, width, includePrefix, maxBytes) ==
              if |body| <= maxBytes then Read(Ok(body), rest) else Read(Err(TooLarge), body + rest)
    {
      FrameRoundTrip(body, radix, width, includePrefix, rest, maxBytes);
    }
  }

  /** Every payload carries its body. */
  lemma {:induction false} PayloadCarries(body: seq<byte>, mode: FrameMode, radix: nat, width: int, includePrefix: bool,
                                          endSymbol: seq<byte>)
    requires BuildPayload(body, mode, radix, width, includePrefix, endSymbol).Ok?
    ensures Carries(BuildPayload(body, mode, radix, width, includePrefix, endSymbol).value, body, mode, radix, width,
                    includePrefix, endSymbol)
  {
    match mode
    case LengthPrefix => FrameCarries(body, radix, width, includePrefix, endSymbol);
    case Terminator =>
      if endSymbol != [] {
        forall rest, limit: nat
          ensures ReadUntil(body + endSymbol + rest, endSymbol, limit) == Read(Ok(body), rest)
                  <==> |body| <= limit && Delimited(body, endSymbol)
        {
          TerminatorRoundTripIff(body, endSymbol, rest, limit);
        }
      }
    case Raw =>
  }

  /** A payload can be built: only a length is ever refused, in a radix other than 10 and 16 or too large for its
    * field. */
  predicate Framable(body: seq<byte>, mode: FrameMode, radix: nat, width: int, includePrefix: bool) {
    mode == LengthPrefix ==>
      && (radix == 10 || radix == 16)
      && width >= 1 && |body| + (if includePrefix then width else 0) < Pow(radix, width)
  }

  lemma {:induction false} PayloadIff(body: seq<byte>, mode: FrameMode, radix: nat, width: int, includePrefix: bool,
                                      endSymbol: seq<byte>)
    ensures BuildPayload(body, mode, radix, width, includePrefix, endSymbol).Ok? <==> Framable(body, mode, radix, width, includePrefix)
    ensures !Framable(body, mode, radix, width, includePrefix) ==>
              BuildPayload(body, mode, radix, width, includePrefix, endSymbol)
              == Err(if radix == 10 || radix == 16 then Overflow else BadRadix)
  {
    if mode.LengthPrefix? && (radix == 10 || radix == 16) {
      FrameAcceptedIff(body, radix, width, includePrefix, endSymbol);
    }
  }

  /** What is sent for request data on a connection. */
  ghost predicate SentFor(sent: seq<byte>, data: Data, encode: string -> seq<byte>, hexString: bool, mode: FrameMode, radix: nat,
                          width: int, includePrefix: bool, endSymbol: seq<byte>) {
    && ((forall body :: !IsBody(data, encode, hexString, body)) ==> sent == [])
    && forall body :: IsBody(data, encode, hexString, body) ==>
         if Framable(body, mode, radix, width, includePrefix) then Carries(sent, body, mode, radix, width, includePrefix, endSymbol)
         else sent == []
  }

  /** The payload of the data's body is that, and nothing when there is no body or no payload. */
  lemma {:induction false} SendsBody(sent: seq<byte>, data: Data, encode: string -> seq<byte>, hexString: bool, mode: FrameMode, radix: nat,
                                     width: int, includePrefix: bool, endSymbol: seq<byte>)
    requires var body := EncodeBody(data, encode, hexString);
             sent == if body.Err? then []
                     else
                       var payload := BuildPayload(body.value, mode, radix, width, includePrefix, endSymbol);
                       if payload.Err? then [] else payload.value
    ensures SentFor(sent, data, encode, hexString, mode, radix, width, includePrefix, endSymbol)
  {
    BodyIff(data, encode, hexString);
    var r := EncodeBody(data, encode, hexString);
    if r.Ok? {
      PayloadIff(r.value, mode, radix, width, includePrefix, endSymbol);
      if Framable(r.value, mode, radix, width, includePrefix) {
        PayloadCarries(r.value, mode, radix, width, includePrefix, endSymbol);
      }
    }
  }

  /** An answer that carries a body, followed by anything where its end shows, is received as that body exactly when
    * it keeps the size limit; a terminated one also where its end stands nowhere earlier. */
  lemma {:induction false} AnswerReceivedIff(answer: seq<byte>, body: seq<byte>, rest: seq<byte>, mode: FrameMode, radix: nat, width: int,
      includePrefix: bool, endSymbol: seq<byte>, maxBytes: nat)
    requires Carries(answer, body, mode, radix, width, includePrefix, endSymbol)
    requires mode.Raw? || (mode.Terminator? && endSymbol == []) ==> rest == []
    ensures Received(answer + rest, mode, radix, width, includePrefix, endSymbol, maxBytes) == Ok(body) <==>
            if mode.Terminator? && endSymbol != [] then |body| <= StreamLimit(maxBytes) && Delimited(body, endSymbol)
            else |body| <= maxBytes
  {
    if mode.Raw? || (mode.Terminator? && endSymbol == []) {
      assert answer + rest == body;
    } else if mode.Terminator? {
      TerminatorRoundTripIff(body, endSymbol, rest, StreamLimit(maxBytes));
      ResultDecides(body, endSymbol, rest, StreamLimit(maxBytes));
    }
  }

  /** When the body comes back, so does the rest. */
  lemma {:induction false} ResultDecides(body: seq<byte>, sep: seq<byte>, rest: seq<byte>, limit: nat)
    requires sep != []
    ensures ReadUntil(body + sep + rest, sep, limit).result == Ok(body) ==>
              ReadUntil(body + sep + rest, sep, limit) == Read(Ok(body), rest)
  {
  }

  // ---------------------------------------------------------------- what is received, and only that

  /** A prefix announces a length exactly when a number stands in it that is that length, with the width where the
    * prefix counts itself; a negative length is refused. */
  lemma {:induction false} PrefixLengthIff(prefix: seq<byte>, radix: nat, width: int, includePrefix: bool, n: nat)
    ensures PrefixLength(prefix, radix, width, includePrefix) == Ok(n) <==>
            Denotes(DecodeIgnore(prefix), radix, n + if includePrefix then width else 0)
  {
    var text, v := DecodeIgnore(prefix), n + if includePrefix then width else 0;
    StripTwice(text);
    ParseIntIff(text, radix, v);
    ParseStripped(text, radix);
    ParseStripped(Strip(text), radix);
  }

  /** Of the bytes of a prefix those below 128 are its text, in order. */
  lemma {:induction false} DecodeSnoc(b: seq<byte>, x: byte)
    ensures DecodeIgnore(b + [x]) == DecodeIgnore(b) + if x < 128 then [x as char] else ""
  {
    if b == [] {
      assert b + [x] == [x] && [x][1..] == [];
    } else {
      DecodeSnoc(b[1..], x);
      assert (b + [x])[1..] == b[1..] + [x];
    }
  }

  lemma {:induction false} StripTwice(s: string)
    ensures Strip(Strip(s)) == Strip(s)
  {
    var i, j := StripStands(s);
    StripIff(Strip(s), Strip(s));
    assert StandsAt(Strip(s), 0, |Strip(s)|);
    assert Strip(s)[0..|Strip(s)|] == Strip(s);
  }

  /** A body is received in length mode exactly when the stream begins with a prefix that announces its length, and the
    * body, within the size limit. */
  lemma {:induction false} FrameReceivedIff(stream: seq<byte>, radix: nat, width: int, includePrefix: bool, maxBytes: nat, body: seq<byte>,
                                            rest: seq<byte>)
    ensures ReadFrame(stream, radix, width, includePrefix, maxBytes) == Read(Ok(body), rest) <==>
            && 0 <= width <= |stream| && |body| <= maxBytes && stream[width..] == body + rest
            && PrefixLength(stream[..width], radix, width, includePrefix) == Ok(|body|)
    ensures width < 0 ==> ReadFrame(stream, radix, width, includePrefix, maxBytes) == Read(Err(BadRead), stream)
  {
    if 0 <= width <= |stream| {
      var tail := stream[width..];
      var length := PrefixLength(stream[..width], radix, width, includePrefix);
      if length.Ok? && length.value <= |tail| {
        assert tail == tail[..length.value] + tail[length.value..];
      }
      if tail == body + rest {
        assert tail[..|body|] == body && tail[|body|..] == rest;
      }
    }
  }

  /** A body is received up to an end symbol exactly when the stream begins with it, then the end, which stands nowhere
    * earlier, within the limit. */
  lemma {:induction false} TerminatedIff(stream: seq<byte>, sep: seq<byte>, limit: nat, body: seq<byte>, rest: seq<byte>)
    requires sep != []
    ensures ReadUntil(stream, sep, limit) == Read(Ok(body), rest) <==>
            stream == body + sep + rest && |body| <= limit && forall j :: 0 <= j < |body| ==> !Occurs(stream, sep, j)
  {
    FindIsFirst(stream, sep, 0);
    var at := FindFrom(stream, sep, 0);
    if at.Some? {
      assert stream == stream[..at.value] + sep + stream[at.value + |sep|..];
    }
    if stream == body + sep + rest {
      assert stream[|body|..|body| + |sep|] == sep;
      assert Occurs(stream, sep, |body|);
      assert stream[..|body|] == body && stream[|body| + |sep|..] == rest;
    }
  }
}
