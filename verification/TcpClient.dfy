/** The short-connection client and the long connection of common/request/tcp_async_utils.py, as code
  * that updates a stream reader and a connection object. */
module TcpClient {
  import opened Options
  import opened PyText
  import opened TcpFraming
  import opened TcpWire

  /** asyncio.StreamReader.  `data` is what the peer has still to deliver before it closes. */
  class StreamReader {
    var data: seq<byte>

    constructor (incoming: seq<byte>)
      ensures data == incoming
    {
      data := incoming;
    }

    /** read(n): some non-empty chunk of at most n bytes, or nothing at the end of the stream. */
    method Read(n: nat) returns (chunk: seq<byte>)
      requires n > 0
      modifies this
      ensures chunk + data == old(data) && |chunk| <= n
      ensures chunk == [] <==> old(data) == []
    {
      if data == [] {
        chunk := [];
      } else {
        var k: nat :| 1 <= k <= |data| && k <= n;
        chunk, data := data[..k], data[k..];
      }
    }

    method ReadExactly(n: int) returns (r: Result<seq<byte>, TcpError>)
      modifies this
      ensures TcpFraming.Read(r, data) == TcpFraming.ReadExactly(old(data), n)
    {
      var read := TcpFraming.ReadExactly(data, n);
      r, data := read.result, read.rest;
    }
  }

  /** b"".join(chunks). */
  function Join(chunks: seq<seq<byte>>): seq<byte> {
    if chunks == [] then [] else Join(chunks[..|chunks| - 1]) + chunks[|chunks| - 1]
  }

  const CHUNK: nat := 65536

  /** _read_until_eof: however the bytes arrive in chunks, the result depends only on the bytes. */
  method ReadUntilEof(reader: StreamReader, maxBytes: nat) returns (r: Result<seq<byte>, TcpError>)
    modifies reader
    ensures r == ReadAll(old(reader.data), maxBytes)
    ensures r.Ok? ==> reader.data == []
  {
    var total: nat := 0;
    var chunks: seq<seq<byte>> := [];
    var all := reader.data;
    while true
      invariant Join(chunks) + reader.data == all
      invariant total == |Join(chunks)| <= maxBytes
      decreases |reader.data|
    {
      var chunk := reader.Read(CHUNK);
      if chunk == [] {
        break;
      }
      total := total + |chunk|;
      if total > maxBytes {
        return Err(TooLarge);
      }
      assert Join(chunks + [chunk]) == Join(chunks) + chunk by {
        assert (chunks + [chunk])[..|chunks|] == chunks;
      }
      chunks := chunks + [chunk];
    }
    assert Join(chunks) == all;
    r := Ok(Join(chunks));
  }

  /** The receive half of `exchange` for length-prefixed frames, reading from the stream. */
  method ReceiveFrame(reader: StreamReader, radix: nat, width: int, includePrefix: bool, maxBytes: nat)
    returns (r: Result<seq<byte>, TcpError>)
    modifies reader
    ensures TcpFraming.Read(r, reader.data)
            == ReadFrame(old(reader.data), radix, width, includePrefix, maxBytes)
  {
    r := reader.ReadExactly(width);
    if r.Err? {
      return;
    }
    var length := PrefixLength(r.value, radix, width, includePrefix);
    if length.Err? {
      return Err(length.error);
    }
    if length.value > maxBytes {
      return Err(TooLarge);
    }
    r := reader.ReadExactly(length.value);
  }

  /** What one attempt to open the connection gives; a connection brings the peer's bytes. */
  datatype Dial = Connected(incoming: seq<byte>) | TimedOut | Refused

  /** A peer that stays silent instead of closing: a read that wants more than there is ends with the
    * time-out, where it would have seen the end of the stream. */
  function Stalled(untilEof: bool, r: Result<seq<byte>, TcpError>): Result<seq<byte>, TcpError> {
    if (if untilEof then r.Ok? else r == Err(Incomplete)) then Err(ReadWriteTimeout) else r
  }

  /** Whether a response is read to the end of the stream. */
  predicate ReadsToEof(mode: FrameMode, responseEnd: seq<byte>) {
    mode.Raw? || (mode.Terminator? && responseEnd == [])
  }

  /** The payload of the request; nothing when it cannot be built. */
  ghost function Message(data: Data, encode: string -> seq<byte>, hexString: bool, mode: FrameMode, radix: nat, width: int,
                         includePrefix: bool, endSymbol: seq<byte>): seq<byte> {
    var body := EncodeBody(data, encode, hexString);
    if body.Err? then []
    else
      var payload := BuildPayload(body.value, mode, radix, width, includePrefix, endSymbol);
      if payload.Err? then [] else payload.value
  }

  /** `exchange`: what is written, and what is returned. The peer accepts the connection or not, takes the bytes
    * in time or not, and closes after its answer or stays silent. */
  method Exchange(data: Data, encode: string -> seq<byte>, hexString: bool, mode: FrameMode, radix: nat, width: int,
                  includePrefix: bool, requestEnd: seq<byte>, responseEnd: seq<byte>, sendOnly: bool,
                  peer: Dial, drains: bool, closes: bool, maxBytes: nat)
    returns (sent: seq<byte>, r: Result<seq<byte>, TcpError>)
    ensures var body := EncodeBody(data, encode, hexString);
            if body.Err? then sent == [] && r == Err(body.error)
            else
              var payload := BuildPayload(body.value, mode, radix, width, includePrefix, requestEnd);
              if payload.Err? then sent == [] && r == Err(payload.error)
              else if !peer.Connected? then sent == [] && r == Err(ConnectFailed)
              else
                && sent == payload.value
                && r == if !drains then Err(ReadWriteTimeout)
                        else if sendOnly then Ok([])
                        else
                          var answer := Received(peer.incoming, mode, radix, width, includePrefix, responseEnd, maxBytes);
                          if closes || (answer.Err? && answer != Err(Incomplete)) then answer
                          else if mode.Raw? || (mode.Terminator? && responseEnd == []) || answer.Err? then Err(ReadWriteTimeout)
                          else answer
    ensures if peer.Connected? then SentFor(sent, data, encode, hexString, mode, radix, width, includePrefix, requestEnd) else sent == []
  {
    ghost var message := Message(data, encode, hexString, mode, radix, width, includePrefix, requestEnd);
    SendsBody(message, data, encode, hexString, mode, radix, width, includePrefix, requestEnd);
    sent := [];
    var body := EncodeBody(data, encode, hexString);
    if body.Err? {
      return [], Err(body.error);
    }
    var payload := BuildPayload(body.value, mode, radix, width, includePrefix, requestEnd);
    if payload.Err? {
      return [], Err(payload.error);
    }
    if !peer.Connected? {
      return [], Err(ConnectFailed);
    }
    var reader := new StreamReader(peer.incoming);
    sent := payload.value;
    if !drains {
      return sent, Err(ReadWriteTimeout);
    }
    if sendOnly {
      return sent, Ok([]);
    }
    match mode {
      case LengthPrefix =>
        r := ReceiveFrame(reader, radix, width, includePrefix, maxBytes);
      case Terminator =>
        if responseEnd != [] {
          var limit := if maxBytes > MIN_STREAM_LIMIT then maxBytes else MIN_STREAM_LIMIT;
          r := ReadUntil(reader.data, responseEnd, limit).result;
        } else {
          r := ReadUntilEof(reader, maxBytes);
        }
      case Raw =>
        r := ReadUntilEof(reader, maxBytes);
    }
    if !closes {
      r := Stalled(ReadsToEof(mode, responseEnd), r);
    }
  }

  // ---------------------------------------------------------------- long connection: frames

  /** The packet `AsyncTcpConnection.send` writes: decimal length, no width check. */
  function Packet(body: seq<byte>, width: int): seq<byte> {
    NumberIsAscii(|body|, 10, width);
    EncodeAscii(Zfill(Digits(|body|, 10), width)) + body
  }

  /** str.isdigit on ASCII text. */
  predicate IsDecimal(s: string) {
    s != "" && forall i :: 0 <= i < |s| ==> '0' <= s[i] <= '9'
  }

  /** The bytes `AsyncTcpConnection.receive` reads for one frame, before they are decoded. */
  function ReadPacket(stream: seq<byte>, width: int, maxBytes: nat): Read {
    var head := TcpFraming.ReadExactly(stream, width);
    if head.result.Err? then head
    else
      var text := Strip(DecodeIgnore(head.result.value));
      if !IsDecimal(text) then Read(Err(BadPrefix), head.rest)
      else
        DecimalIsDigits(text);
        var length := ValueFrom(text, 10, 0);
        if length > maxBytes then Read(Err(TooLarge), head.rest)
        else TcpFraming.ReadExactly(head.rest, length)
  }

  lemma DecimalIsDigits(s: string)
    ensures IsDecimal(s) <==> s != "" && AllDigits(s, 10)
  {
    if IsDecimal(s) {
      forall i | 0 <= i < |s| ensures IsDigit(s[i], 10) {}
    }
    if s != "" && AllDigits(s, 10) {
      forall i | 0 <= i < |s| ensures '0' <= s[i] <= '9' {
        assert IsDigit(s[i], 10);
      }
    }
  }

  /** A digit text of at most k digits has a value below 10^k, and dropping digits loses value. */
  lemma {:induction false} ValuePrefixSmaller(s: string, k: nat)
    requires AllDigits(s, 10) && 0 < k < |s| && ValueFrom(s, 10, 0) > 0
    ensures AllDigits(s[..k], 10) && ValueFrom(s[..k], 10, 0) < ValueFrom(s, 10, 0)
    decreases |s|
  {
    var m := |s| - 1;
    ValueSnoc(s[..m], s[m], 10, 0);
    assert s == s[..m] + [s[m]];
    var v := ValueFrom(s[..m], 10, 0);
    assert ValueFrom(s, 10, 0) == v * 10 + DigitValue(s[m]).value;
    if k < m {
      assert s[..m][..k] == s[..k];
      if v == 0 {
        ZeroPrefix(s[..m], k);
      } else {
        ValuePrefixSmaller(s[..m], k);
      }
    }
  }

  lemma {:induction false} ZeroPrefix(s: string, k: nat)
    requires AllDigits(s, 10) && k <= |s| && ValueFrom(s, 10, 0) == 0
    ensures AllDigits(s[..k], 10) && ValueFrom(s[..k], 10, 0) == 0
    decreases |s|
  {
    if k == |s| {
      assert s[..k] == s;
    } else {
      var m := |s| - 1;
      assert s == s[..m] + [s[m]];
      ValueSnoc(s[..m], s[m], 10, 0);
      ZeroPrefix(s[..m], k);
      assert s[..m][..k] == s[..k];
    }
  }

  lemma PacketFits(body: seq<byte>, width: int, rest: seq<byte>, maxBytes: nat)
    requires 1 <= width && |body| < Pow(10, width)
    ensures ReadPacket(Packet(body, width) + rest, width, maxBytes) ==
            if |body| <= maxBytes then Read(Ok(body), rest) else Read(Err(TooLarge), body + rest)
  {
    DigitsFit(|body|, 10, width);
    var text := Zfill(Digits(|body|, 10), width);
    PacketPrefix(body, width, rest);
    DecimalIsDigits(text);
    assert (body + rest)[..|body|] == body && (body + rest)[|body|..] == rest;
  }

  /** What the receiver's prefix read finds when the sender's prefix fills the field exactly. */
  lemma PacketPrefix(body: seq<byte>, width: int, rest: seq<byte>)
    requires 1 <= width && |Digits(|body|, 10)| <= width
    ensures var text := Zfill(Digits(|body|, 10), width);
            && TcpFraming.ReadExactly(Packet(body, width) + rest, width)
               == Read(Ok((Packet(body, width) + rest)[..width]), body + rest)
            && Strip(DecodeIgnore((Packet(body, width) + rest)[..width])) == text
            && text != "" && AllDigits(text, 10) && ValueFrom(text, 10, 0) == |body|
  {
    var text := Zfill(Digits(|body|, 10), width);
    NumberIsAscii(|body|, 10, width);
    ZfillValue(|body|, 10, width);
    DecodeEncoded(text);
    Headed(EncodeAscii(text), body, rest, Packet(body, width) + rest);
  }

  lemma {:induction false} Headed(head: seq<byte>, body: seq<byte>, rest: seq<byte>, stream: seq<byte>)
    requires stream == head + body + rest
    ensures stream[..|head|] == head && stream[|head|..] == body + rest
  {
  }

  /** What the receiver's prefix read finds when the sender's prefix is wider than the field. */
  lemma WidePrefix(text: string, body: seq<byte>, rest: seq<byte>, width: nat)
    requires AllDigits(text, 10) && 1 <= width < |text|
    requires forall i :: 0 <= i < |text| ==> text[i] as int < 128
    ensures var head := EncodeAscii(text) + body + rest;
            && width <= |head| && Strip(DecodeIgnore(head[..width])) == text[..width]
            && AllDigits(text[..width], 10) && IsDecimal(text[..width])
  {
    var stream := EncodeAscii(text) + body + rest;
    assert stream[..width] == EncodeAscii(text[..width]);
    assert AllDigits(text[..width], 10);
    DecodeEncoded(text[..width]);
    StripDigits(text[..width], 10);
    DecimalIsDigits(text[..width]);
  }

  /** Too wide a length: the receiver takes its leading digits for a smaller number. */
  lemma PacketOverflows(body: seq<byte>, width: int, rest: seq<byte>, maxBytes: nat)
    requires 1 <= width && |body| >= Pow(10, width)
    ensures ReadPacket(Packet(body, width) + rest, width, maxBytes).result != Ok(body)
  {
    var text := Digits(|body|, 10);
    assert |text| > width by { DigitsFit(|body|, 10, width); }
    assert Zfill(text, width) == text by { NoFill(text, width); }
    assert ValueFrom(text, 10, 0) == |body| by { DigitsValue(|body|, 10); }
    assert |body| > 0 by { PowPositive(10, width); }
    ValuePrefixSmaller(text, width);
    NumberIsAscii(|body|, 10, width);
    WidePrefix(text, body, rest, width);
  }

  lemma NoFill(text: string, width: int)
    requires |text| >= width
    ensures Zfill(text, width) == text
  {
    assert Zeros(width - |text|) == "";
  }

  /** The long connection delivers a body exactly when its length fits the field and the receiver's
    * size limit: `send` omits the overflow check that `_format_length_prefix` makes. */
  lemma PacketRoundTripIff(body: seq<byte>, width: int, rest: seq<byte>, maxBytes: nat)
    ensures ReadPacket(Packet(body, width) + rest, width, maxBytes).result == Ok(body)
            <==> Fits(body, width, maxBytes)
    ensures ReadPacket(Packet(body, width) + rest, width, maxBytes).result == Ok(body) ==>
              ReadPacket(Packet(body, width) + rest, width, maxBytes).rest == rest
  {
    if width >= 1 && |body| < Pow(10, width) {
      PacketFits(body, width, rest, maxBytes);
    } else if width >= 1 {
      PacketOverflows(body, width, rest, maxBytes);
    }
  }

  function Packets(bodies: seq<seq<byte>>, width: int): seq<byte> {
    if bodies == [] then [] else Packet(bodies[0], width) + Packets(bodies[1..], width)
  }

  /** n calls of `receive` on one connection; None when one of them fails. */
  function ReadPackets(stream: seq<byte>, n: nat, width: int, maxBytes: nat): (Option<seq<seq<byte>>>, seq<byte>)
    decreases n
  {
    if n == 0 then (Some([]), stream)
    else
      var first := ReadPacket(stream, width, maxBytes);
      if first.result.Err? then (None, first.rest)
      else Prepend(first.result.value, ReadPackets(first.rest, n - 1, width, maxBytes))
  }

  function Prepend(b: seq<byte>, r: (Option<seq<seq<byte>>>, seq<byte>)): (Option<seq<seq<byte>>>, seq<byte>) {
    (if r.0.Some? then Some([b] + r.0.value) else None, r.1)
  }

  predicate Fits(body: seq<byte>, width: int, maxBytes: nat) {
    1 <= width && |body| < Pow(10, width) && |body| <= maxBytes
  }

  /** A conversation: what was sent is received, frame by frame and with nothing else consumed,
    * exactly when every body fits. */
  lemma {:induction false} ConversationIff(bodies: seq<seq<byte>>, width: int, rest: seq<byte>, maxBytes: nat)
    ensures ReadPackets(Packets(bodies, width) + rest, |bodies|, width, maxBytes) == (Some(bodies), rest)
            <==> forall i :: 0 <= i < |bodies| ==> Fits(bodies[i], width, maxBytes)
  {
    if bodies == [] {
      assert Packets(bodies, width) + rest == rest;
    } else {
      var tail := Packets(bodies[1..], width) + rest;
      assert Packets(bodies, width) + rest == Packet(bodies[0], width) + tail;
      ConversationIff(bodies[1..], width, rest, maxBytes);
      PacketRoundTripIff(bodies[0], width, tail, maxBytes);
      FirstPacket(bodies, Packet(bodies[0], width) + tail, tail, rest, width, maxBytes);
      AllFit(bodies, width, maxBytes);
    }
  }

  lemma {:induction false} AllFit(bodies: seq<seq<byte>>, width: int, maxBytes: nat)
    requires bodies != []
    ensures (forall i :: 0 <= i < |bodies| ==> Fits(bodies[i], width, maxBytes))
            <==> Fits(bodies[0], width, maxBytes) && forall i :: 0 <= i < |bodies[1..]| ==> Fits(bodies[1..][i], width, maxBytes)
  {
    assert bodies == [bodies[0]] + bodies[1..];
  }

  lemma FirstPacket(bodies: seq<seq<byte>>, stream: seq<byte>, tail: seq<byte>, rest: seq<byte>, width: int,
                    maxBytes: nat)
    requires bodies != []
    requires var first := ReadPacket(stream, width, maxBytes);
             first.result == Ok(bodies[0]) ==> first.rest == tail
    ensures ReadPackets(stream, |bodies|, width, maxBytes) == (Some(bodies), rest)
            <==> && ReadPacket(stream, width, maxBytes).result == Ok(bodies[0])
                 && ReadPackets(tail, |bodies[1..]|, width, maxBytes) == (Some(bodies[1..]), rest)
  {
    var first := ReadPacket(stream, width, maxBytes);
    if first.result.Ok? {
      ConversationStep(bodies, first, ReadPackets(first.rest, |bodies| - 1, width, maxBytes));
    }
  }

  lemma ConversationStep(bodies: seq<seq<byte>>, first: Read, others: (Option<seq<seq<byte>>>, seq<byte>))
    requires bodies != [] && first.result.Ok?
    ensures Prepend(first.result.value, others).0 == Some(bodies)
            <==> first.result.value == bodies[0] && others.0 == Some(bodies[1..])
  {
    assert bodies == [bodies[0]] + bodies[1..];
    if others.0.Some? {
      var all := [first.result.value] + others.0.value;
      assert all[0] == first.result.value && all[1..] == others.0.value;
    }
  }

  // ---------------------------------------------------------------- long connection: dialling

  /** Result of dialling: the connection or the error, the retries left, the attempts made so far. */
  datatype Dialled = Dialled(outcome: Result<seq<byte>, TcpError>, retries: int, dials: nat)

  /** _connection with its call of _reconnection, from attempt k on. */
  function Connecting(network: nat -> Dial, auto: bool, retries: int, k: nat): Dialled
    decreases if retries > 0 then retries else 0
  {
    match network(k)
    case Connected(incoming) => Dialled(Ok(incoming), retries, k + 1)
    case TimedOut =>
      if auto && retries > 0 then Connecting(network, auto, retries - 1, k + 1)
      else Dialled(Err(ConnectTimeout), retries, k + 1)
    case Refused => Dialled(Err(ConnectFailed), retries, k + 1)
  }

  /** _reconnection. */
  function Reconnecting(network: nat -> Dial, auto: bool, retries: int, k: nat): Dialled {
    if retries - 1 < 0 then Dialled(Err(RetriesExhausted), retries - 1, k)
    else Connecting(network, auto, retries - 1, k)
  }

  /** Attempt m connects, and the attempts from k up to it time out. */
  predicate ConnectsAt(network: nat -> Dial, k: nat, m: nat) {
    network(m).Connected? && forall i :: k <= i < m ==> network(i).TimedOut?
  }

  /** Dialling succeeds exactly when an attempt connects after time-outs only, within the retry
    * budget; every time-out survived costs one retry and every attempt is counted. */
  lemma {:induction false} ConnectingIff(network: nat -> Dial, auto: bool, retries: int, k: nat)
    ensures var last := k + if auto && retries > 0 then retries else 0;
            var d := Connecting(network, auto, retries, k);
            && (d.outcome.Ok? <==> exists m :: k <= m <= last && ConnectsAt(network, k, m))
            && (forall m :: k <= m <= last && ConnectsAt(network, k, m) ==>
                  d == Dialled(Ok(network(m).incoming), retries - (m - k), m + 1))
            && k < d.dials <= last + 1
            && retries - d.retries == d.dials - k - 1
    decreases if retries > 0 then retries else 0
  {
    if network(k).Connected? {
      assert ConnectsAt(network, k, k);
    } else if network(k).TimedOut? && auto && retries > 0 {
      ConnectingIff(network, auto, retries - 1, k + 1);
      assert forall m :: k < m ==> (ConnectsAt(network, k, m) <==> ConnectsAt(network, k + 1, m));
      if Connecting(network, auto, retries, k).outcome.Ok? {
        var m :| k + 1 <= m <= k + retries && ConnectsAt(network, k + 1, m);
        assert ConnectsAt(network, k, m);
      }
    }
  }

  /** AsyncTcpConnection.  `reader` holds the unread bytes and `writer` the bytes written on the
    * connection in use. */
  class AsyncTcpConnection {
    const network: nat -> Dial
    const width: int
    const autoReconnect: bool
    const maxBytes: nat
    var retries: int
    var dials: nat
    var connected: bool
    var reader: seq<byte>
    var writer: seq<byte>

    constructor (network: nat -> Dial, width: int, retries: int, autoReconnect: bool, maxBytes: nat)
      ensures !connected && this.retries == retries && dials == 0 && reader == writer == []
      ensures this.network == network && this.width == width
      ensures this.autoReconnect == autoReconnect && this.maxBytes == maxBytes
    {
      this.network, this.width, this.autoReconnect, this.maxBytes := network, width, autoReconnect, maxBytes;
      this.retries, dials, connected, reader, writer := retries, 0, false, [], [];
    }

    /** The state after dialling with outcome d from a state that was or was not connected. */
    twostate predicate After(d: Dialled, new r: Result<(), TcpError>)
      reads this
    {
      && retries == d.retries && dials == d.dials
      && (d.outcome.Ok? ==> r.Ok? && connected && reader == d.outcome.value && writer == [])
      && (d.outcome.Err? ==> r == Err(d.outcome.error) && connected == old(connected)
                             && reader == old(reader) && writer == old(writer))
    }

    /** _connection. */
    method Connection() returns (r: Result<(), TcpError>)
      modifies this
      ensures After(Connecting(network, autoReconnect, old(retries), old(dials)), r)
      decreases if retries > 0 then retries else 0, 0
    {
      var attempt := network(dials);
      dials := dials + 1;
      match attempt {
        case Connected(incoming) =>
          connected, reader, writer := true, incoming, [];
          r := Ok(());
        case TimedOut =>
          if autoReconnect && retries > 0 {
            r := Reconnection();
          } else {
            r := Err(ConnectTimeout);
          }
        case Refused =>
          r := Err(ConnectFailed);
      }
    }

    /** _reconnection. */
    method Reconnection() returns (r: Result<(), TcpError>)
      modifies this
      ensures After(Reconnecting(network, autoReconnect, old(retries), old(dials)), r)
      decreases if retries > 1 then retries - 1 else 0, 1
    {
      retries := retries - 1;
      if retries < 0 {
        return Err(RetriesExhausted);
      }
      r := Connection();
    }

    /** send: the packet goes out whole on a connection, or nothing is written. */
    method Send(body: seq<byte>) returns (r: Result<(), TcpError>)
      modifies this
      ensures old(connected) ==>
                r.Ok? && connected && writer == old(writer) + Packet(body, width)
                && reader == old(reader) && retries == old(retries) && dials == old(dials)
      ensures !old(connected) ==>
                if !autoReconnect then r == Err(NotConnected) && unchanged(this)
                else
                  var d := Reconnecting(network, autoReconnect, old(retries), old(dials));
                  && retries == d.retries && dials == d.dials
                  && if d.outcome.Ok? then r.Ok? && connected && reader == d.outcome.value && writer == Packet(body, width)
                     else r == Err(d.outcome.error) && !connected && writer == old(writer)
    {
      var packet := Packet(body, width);
      if connected {
        writer := writer + packet;
        return Ok(());
      }
      if autoReconnect {
        r := Reconnection();
        if r.Err? {
          return;
        }
        if connected {
          writer := writer + packet;
          return Ok(());
        }
      }
      return Err(NotConnected);
    }

    /** receive: one frame from the connection in use, or from a new one. */
    method Receive() returns (r: Result<seq<byte>, TcpError>)
      modifies this
      ensures old(connected) ==>
                connected && Read(r, reader) == ReadPacket(old(reader), width, maxBytes) && writer == old(writer)
                && retries == old(retries) && dials == old(dials)
      ensures !old(connected) ==>
                if !autoReconnect then r == Err(NotConnected) && unchanged(this)
                else
                  var d := Reconnecting(network, autoReconnect, old(retries), old(dials));
                  && retries == d.retries && dials == d.dials
                  && if d.outcome.Ok? then
                       connected && Read(r, reader) == ReadPacket(d.outcome.value, width, maxBytes) && writer == []
                     else r == Err(d.outcome.error) && !connected && reader == old(reader)
    {
      if !connected {
        if autoReconnect {
          var dialled := Reconnection();
          if dialled.Err? {
            return Err(dialled.error);
          }
        }
        if !connected {
          return Err(NotConnected);
        }
      }
      var read := ReadPacket(reader, width, maxBytes);
      r, reader := read.result, read.rest;
    }

    /** close. */
    method Close()
      modifies this
      ensures !connected && reader == writer == []
      ensures retries == old(retries) && dials == old(dials)
    {
      connected, reader, writer := false, [], [];
    }
  }
}
