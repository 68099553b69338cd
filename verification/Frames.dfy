/** FQDP frames (backend/internal/fqdp/server.go): a four-byte big-endian length
    and as many bytes of payload. */
module Frames {
  import opened Records

  const MAXIMUM_FRAME_SIZE := 10 * 1024 * 1024
  const TWO_TO_THE_16 := 0x1_0000
  const TWO_TO_THE_32 := 0x1_0000_0000

  const MESSAGE_TYPE_HANDSHAKE: Byte := 0x01
  const MESSAGE_TYPE_ERROR: Byte := 0x50

  const ERR_UNSUPPORTED_MESSAGE_TYPE := 100
  const ERR_INVALID_HANDSHAKE_PAYLOAD := 101
  const ERR_HANDSHAKE_TOKEN_TRUNCATED := 102
  const ERR_HANDSHAKE_NOT_IMPLEMENTED := 103

  // ----- big-endian numbers -----

  /** uint16(n): the conversion keeps the low bits only. */
  function Big16(n: nat): (b: seq<Byte>)
    ensures |b| == 2
  {
    [n / 0x100 % 0x100, n % 0x100]
  }

  function Big32(n: nat): (b: seq<Byte>)
    ensures |b| == 4
  {
    Big16(n / TWO_TO_THE_16) + Big16(n)
  }

  function Value16(b: seq<Byte>): (n: nat)
    requires |b| == 2
    ensures n < TWO_TO_THE_16
  {
    0x100 * (b[0] as int) + b[1] as int
  }

  function Value32(b: seq<Byte>): nat
    requires |b| == 4
  {
    TWO_TO_THE_16 * Value16(b[..2]) + Value16(b[2..])
  }

  lemma Big16Inverts(n: nat, b: seq<Byte>)
    requires |b| == 2
    ensures Value16(Big16(n)) == n % TWO_TO_THE_16
    ensures Big16(Value16(b)) == b
  {
    var high := n / 0x100;
    assert n == TWO_TO_THE_16 * (high / 0x100) + 0x100 * (high % 0x100) + n % 0x100;
    assert Value16(b) / 0x100 == b[0] && Value16(b) % 0x100 == b[1];
  }

  lemma Halves(n: nat)
    ensures n % TWO_TO_THE_32 == TWO_TO_THE_16 * (n / TWO_TO_THE_16 % TWO_TO_THE_16) + n % TWO_TO_THE_16
  {
  }

  lemma Join(high: nat, low: nat)
    requires low < TWO_TO_THE_16
    ensures (TWO_TO_THE_16 * high + low) / TWO_TO_THE_16 == high
    ensures Big16(TWO_TO_THE_16 * high + low) == Big16(low)
  {
  }

  /** Reading a number back gives its low 32 bits, and writing what was read
      gives the same bytes. */
  lemma Big32Inverts(n: nat, b: seq<Byte>)
    requires |b| == 4
    ensures Value32(Big32(n)) == n % TWO_TO_THE_32
    ensures Big32(Value32(b)) == b
  {
    hide Big16, Value16;
    Halves(n);
    Big16Inverts(n / TWO_TO_THE_16, b[..2]);
    Big16Inverts(n, b[2..]);
    assert Big32(n)[..2] == Big16(n / TWO_TO_THE_16) && Big32(n)[2..] == Big16(n);
    Join(Value16(b[..2]), Value16(b[2..]));
    assert b == b[..2] + b[2..];
  }

  /** The weight of each byte, most significant first. */
  lemma BytesByWeight(n: nat, b: seq<Byte>)
    requires |b| >= 4
    ensures Big16(n) == [n / 0x100 % 0x100, n % 0x100]
    ensures Big32(n) == [n / 0x1000000 % 0x100, n / 0x10000 % 0x100, n / 0x100 % 0x100, n % 0x100]
    ensures Value16(b[..2]) == 0x100 * (b[0] as int) + b[1] as int
    ensures Value32(b[..4]) == 0x1000000 * (b[0] as int) + 0x10000 * (b[1] as int) + 0x100 * (b[2] as int) + b[3] as int
  {
    assert n / 0x10000 / 0x100 == n / 0x1000000;
    assert b[..4][..2] == [b[0], b[1]] && b[..4][2..] == [b[2], b[3]];
  }

  // ----- reading -----

  datatype ReadError = Eof | UnexpectedEof | FrameTooLarge

  datatype Read = Frame(payload: seq<Byte>) | Stopped(error: ReadError)

  datatype Next = Next(read: Read, rest: seq<Byte>)

  function Encode(payload: seq<Byte>): seq<Byte> {
    Big32(|payload|) + payload
  }

  /** io.ReadFull tells an empty stream from one that ends too early. */
  function Short(bytes: seq<Byte>): Next {
    Next(Stopped(if bytes == [] then Eof else UnexpectedEof), [])
  }

  function ReadNext(bytes: seq<Byte>): (next: Next)
    ensures next.read.Frame? ==> |next.rest| < |bytes|
  {
    if |bytes| < 4 then Short(bytes)
    else
      var length := Value32(bytes[..4]);
      var rest := bytes[4..];
      if length > MAXIMUM_FRAME_SIZE then Next(Stopped(FrameTooLarge), rest)
      else if |rest| < length then Short(rest)
      else Next(Frame(rest[..length]), rest[length..])
  }

  /** The bytes of a connection, up to its end. */
  class Stream {
    var rest: seq<Byte>

    constructor (bytes: seq<Byte>)
      ensures rest == bytes
    {
      rest := bytes;
    }

    method ReadFull(n: nat) returns (data: seq<Byte>, error: Option<ReadError>)
      requires n > 0
      modifies this
      ensures n <= |old(rest)| ==> error.None? && data == old(rest)[..n] && rest == old(rest)[n..]
      ensures n > |old(rest)| ==> error.Some? && Next(Stopped(error.value), rest) == Short(old(rest))
    {
      if n <= |rest| {
        data, error := rest[..n], None;
        rest := rest[n..];
      } else {
        data, error := rest, Some(if rest == [] then Eof else UnexpectedEof);
        rest := [];
      }
    }

    method ReadFrame() returns (read: Read)
      modifies this
      ensures Next(read, rest) == ReadNext(old(rest))
      ensures |old(rest)| < 4 ==> read == Stopped(if old(rest) == [] then Eof else UnexpectedEof)
      ensures |old(rest)| >= 4 ==>
        var b := old(rest);
        var n := 0x1000000 * (b[0] as int) + 0x10000 * (b[1] as int) + 0x100 * (b[2] as int) + b[3] as int;
        if n > 10485760 then read == Stopped(FrameTooLarge)
        else if |b| < 4 + n then read == Stopped(if |b| == 4 then Eof else UnexpectedEof)
        else read == Frame(b[4..4 + n]) && rest == b[4 + n..]
    {
      if |rest| >= 4 {
        BytesByWeight(0, rest);
      }
      var header, headerError := ReadFull(4);
      if headerError.Some? {
        return Stopped(headerError.value);
      }
      var length := Value32(header);
      if length == 0 {
        return Frame([]);
      }
      if length > MAXIMUM_FRAME_SIZE {
        return Stopped(FrameTooLarge);
      }
      var payload, payloadError := ReadFull(length);
      if payloadError.Some? {
        return Stopped(payloadError.value);
      }
      return Frame(payload);
    }
  }

  lemma WholeFrameIsRead(payload: seq<Byte>, rest: seq<Byte>)
    requires |payload| <= MAXIMUM_FRAME_SIZE
    ensures ReadNext(Encode(payload) + rest) == Next(Frame(payload), rest)
  {
    hide Big32, Value32;
    var bytes := Encode(payload) + rest;
    Big32Inverts(|payload|, Big32(0));
    assert bytes[..4] == Big32(|payload|) && bytes[4..] == payload + rest;
  }

  lemma ReadFrameWasWhole(bytes: seq<Byte>)
    requires ReadNext(bytes).read.Frame?
    ensures var payload := ReadNext(bytes).read.payload;
      bytes == Encode(payload) + ReadNext(bytes).rest && |payload| <= MAXIMUM_FRAME_SIZE
  {
    hide Big32, Value32;
    Big32Inverts(0, bytes[..4]);
    assert bytes == bytes[..4] + bytes[4..];
  }

  /** A frame is returned for exactly the streams that begin with it, whole and
      within the limit: never a truncated one, never an oversized one. */
  lemma FrameIsReadExactlyWhenWhole(bytes: seq<Byte>, payload: seq<Byte>, rest: seq<Byte>)
    ensures ReadNext(bytes) == Next(Frame(payload), rest)
       <==> bytes == Encode(payload) + rest && |payload| <= MAXIMUM_FRAME_SIZE
  {
    hide Encode, ReadNext;
    if ReadNext(bytes).read.Frame? {
      ReadFrameWasWhole(bytes);
    }
    if |payload| <= MAXIMUM_FRAME_SIZE {
      WholeFrameIsRead(payload, rest);
    }
  }

  /** What a whole connection yields: its frames, and why it stopped. */
  datatype Conversation = Conversation(frames: seq<seq<Byte>>, error: ReadError)

  function ReadAll(bytes: seq<Byte>): Conversation
    decreases |bytes|
  {
    var next := ReadNext(bytes);
    match next.read
    case Stopped(error) => Conversation([], error)
    case Frame(payload) =>
      var more := ReadAll(next.rest);
      Conversation([payload] + more.frames, more.error)
  }

  lemma OneFrameThenTheRest(payload: seq<Byte>, rest: seq<Byte>)
    requires |payload| <= MAXIMUM_FRAME_SIZE
    ensures ReadAll(Encode(payload) + rest) == Conversation([payload] + ReadAll(rest).frames, ReadAll(rest).error)
  {
    hide Encode, ReadNext;
    WholeFrameIsRead(payload, rest);
  }

  function EncodeAll(frames: seq<seq<Byte>>): seq<Byte> {
    if frames == [] then [] else Encode(frames[0]) + EncodeAll(frames[1..])
  }

  predicate WithinLimit(frames: seq<seq<Byte>>) {
    forall i :: 0 <= i < |frames| ==> |frames[i]| <= MAXIMUM_FRAME_SIZE
  }

  /** Frames written one after another are read back as they were, and whatever
      follows them is read as if it stood alone. */
  lemma {:induction false} FramesReadBack(frames: seq<seq<Byte>>, tail: seq<Byte>)
    requires WithinLimit(frames)
    ensures ReadAll(EncodeAll(frames) + tail) == Conversation(frames + ReadAll(tail).frames, ReadAll(tail).error)
  {
    hide ReadAll, Encode;
    var more := ReadAll(tail).frames;
    if frames == [] {
      assert EncodeAll(frames) + tail == tail && frames + more == more;
    } else {
      var rest := EncodeAll(frames[1..]) + tail;
      assert EncodeAll(frames) + tail == Encode(frames[0]) + rest;
      OneFrameThenTheRest(frames[0], rest);
      FramesReadBack(frames[1..], tail);
      assert [frames[0]] + (frames[1..] + more) == frames + more;
    }
  }

  /** Nothing is made up: of any bytes at all, what is read is what the stream
      begins with, and no whole frame is left behind. */
  lemma {:induction false} FramesAreTheBeginning(bytes: seq<Byte>) returns (tail: seq<Byte>)
    ensures bytes == EncodeAll(ReadAll(bytes).frames) + tail
    ensures WithinLimit(ReadAll(bytes).frames)
    ensures ReadNext(tail).read == Stopped(ReadAll(bytes).error)
    decreases |bytes|
  {
    var next := ReadNext(bytes);
    match next.read
    case Stopped(error) =>
      tail := bytes;
      assert EncodeAll([]) + tail == tail;
    case Frame(payload) =>
      ReadFrameWasWhole(bytes);
      tail := FramesAreTheBeginning(next.rest);
      var more := ReadAll(next.rest).frames;
      assert ([payload] + more)[1..] == more;
      assert Encode(payload) + (EncodeAll(more) + tail) == EncodeAll([payload] + more) + tail;
  }

  /** Nothing more, or a frame's length and nothing after it. */
  predicate IsCleanEnd(tail: seq<Byte>) {
    tail == [] || (|tail| == 4 && 0 < Value32(tail) <= MAXIMUM_FRAME_SIZE)
  }

  lemma CleanEndExactlyWhen(bytes: seq<Byte>)
    ensures ReadNext(bytes).read == Stopped(Eof) <==> IsCleanEnd(bytes)
  {
  }

  ghost predicate MakesUp(bytes: seq<Byte>, frames: seq<seq<Byte>>, tail: seq<Byte>) {
    WithinLimit(frames) && bytes == EncodeAll(frames) + tail
  }

  /** A whole connection counts as cleanly closed exactly when it is frames
      within the limit and then nothing, or one more frame's length with no byte
      of its payload. */
  lemma ConnectionEndsCleanlyExactlyWhen(bytes: seq<Byte>)
    ensures ReadAll(bytes).error == Eof <==> exists frames, tail :: MakesUp(bytes, frames, tail) && IsCleanEnd(tail)
  {
    hide EncodeAll, WithinLimit;
    if ReadAll(bytes).error == Eof {
      var tail := FramesAreTheBeginning(bytes);
      CleanEndExactlyWhen(tail);
      assert MakesUp(bytes, ReadAll(bytes).frames, tail);
    }
    if frames, tail :| MakesUp(bytes, frames, tail) && IsCleanEnd(tail) {
      FramesReadBack(frames, tail);
      CleanEndExactlyWhen(tail);
    }
  }

  // ----- writing errors -----

  function ErrorPayload(code: nat, message: seq<Byte>): seq<Byte> {
    [MESSAGE_TYPE_ERROR] + Big16(code) + Big16(|message|) + message
  }

  method PutUint16(buffer: array<Byte>, at: nat, value: nat)
    requires at + 2 <= buffer.Length
    modifies buffer
    ensures buffer[..] == old(buffer[..])[..at] + Big16(value) + old(buffer[..])[at + 2..]
    ensures buffer[at] == value / 0x100 % 0x100 && buffer[at + 1] == value % 0x100
  {
    buffer[at], buffer[at + 1] := value / 0x100 % 0x100, value % 0x100;
  }

  lemma TwoHalves(was: seq<Byte>, at: nat, high: seq<Byte>, low: seq<Byte>)
    requires at + 4 <= |was| && |high| == |low| == 2
    ensures var half := was[..at] + high + was[at + 2..];
      half[..at + 2] + low + half[at + 4..] == was[..at] + (high + low) + was[at + 4..]
  {
  }

  method PutUint32(buffer: array<Byte>, at: nat, value: nat)
    requires at + 4 <= buffer.Length
    modifies buffer
    ensures buffer[..] == old(buffer[..])[..at] + Big32(value) + old(buffer[..])[at + 4..]
    ensures buffer[at] == value / 0x1000000 % 0x100 && buffer[at + 1] == value / 0x10000 % 0x100
    ensures buffer[at + 2] == value / 0x100 % 0x100 && buffer[at + 3] == value % 0x100
  {
    hide Big16;
    ghost var was := buffer[..];
    PutUint16(buffer, at, value / TWO_TO_THE_16);
    PutUint16(buffer, at + 2, value);
    TwoHalves(was, at, Big16(value / TWO_TO_THE_16), Big16(value));
    assert value / 0x10000 / 0x100 == value / 0x1000000;
  }

  /** sendError fills one buffer in place and writes it out. */
  method SendError(code: nat, message: seq<Byte>) returns (frame: array<Byte>)
    ensures fresh(frame) && frame[..] == Encode(ErrorPayload(code, message))
    ensures var n := 5 + |message|;
      frame[..] == [n / 0x1000000 % 0x100, n / 0x10000 % 0x100, n / 0x100 % 0x100, n % 0x100,
                    0x50, code / 0x100 % 0x100, code % 0x100, |message| / 0x100 % 0x100, |message| % 0x100] + message
  {
    var totalLength := 1 + 2 + 2 + |message|;
    frame := new Byte[4 + totalLength];
    PutUint32(frame, 0, totalLength);
    frame[4] := MESSAGE_TYPE_ERROR;
    PutUint16(frame, 5, code);
    PutUint16(frame, 7, |message|);
    assert frame[..9] == Big32(totalLength) + [MESSAGE_TYPE_ERROR] + Big16(code) + Big16(|message|);
    forall i | 0 <= i < |message| {
      frame[9 + i] := message[i];
    }
    assert frame[9..] == message;
    assert frame[..] == frame[..9] + frame[9..];
  }

  datatype ErrorMessage = ErrorMessage(code: nat, message: seq<Byte>)

  /** The reading of an error payload that its own fields describe. */
  function DecodeError(payload: seq<Byte>): Option<ErrorMessage> {
    if |payload| < 5 || payload[0] != MESSAGE_TYPE_ERROR || |payload| != 5 + Value16(payload[3..5]) then None
    else Some(ErrorMessage(Value16(payload[1..3]), payload[5..]))
  }

  /** The code is a uint16; the message comes back exactly when its length fits
      one too. Longer messages go out with a length field that is wrong. */
  lemma ErrorReadsBackExactlyWhenShort(code: nat, message: seq<Byte>)
    requires code < TWO_TO_THE_16
    ensures DecodeError(ErrorPayload(code, message)) == Some(ErrorMessage(code, message)) <==> |message| < TWO_TO_THE_16
  {
  }

  /** On the wire the frame itself survives exactly up to the frame limit, even
      where the uint32 length wraps around. */
  lemma ErrorFrameIsReadExactlyWhenWithinLimit(code: nat, message: seq<Byte>, rest: seq<Byte>)
    ensures ReadNext(Encode(ErrorPayload(code, message)) + rest) == Next(Frame(ErrorPayload(code, message)), rest)
       <==> |message| <= MAXIMUM_FRAME_SIZE - 5
  {
    var payload := ErrorPayload(code, message);
    assert |payload| == 5 + |message|;
    FrameIsReadExactlyWhenWhole(Encode(payload) + rest, payload, rest);
  }

  // ----- the server -----

  function Ascii(text: string): seq<Byte> {
    seq(|text|, i requires 0 <= i < |text| => text[i] as int % 0x100)
  }

  lemma AsciiIsTheText(text: string)
    requires forall i :: 0 <= i < |text| ==> text[i] < 128 as char
    ensures |Ascii(text)| == |text| && forall i :: 0 <= i < |text| ==> Ascii(text)[i] == text[i] as int
  {
  }

  datatype Handshake = Handshake(versionMajor: Byte, versionMinor: Byte, token: seq<Byte>)

  /** What the handshake's own length field delimits, if it is all there. */
  function ParseHandshake(payload: seq<Byte>): Option<Handshake> {
    if |payload| < 8 || |payload| < 8 + Value16(payload[6..8]) then None
    else Some(Handshake(payload[0], payload[1], payload[8..8 + Value16(payload[6..8])]))
  }

  /** A token is found exactly when it was written with its length in front,
      behind the version and four more bytes; anything may follow it. */
  lemma TokenIsFoundExactlyWhenWhole(payload: seq<Byte>, h: Handshake)
    ensures ParseHandshake(payload) == Some(h)
       <==> |payload| >= 8 && [h.versionMajor, h.versionMinor] <= payload
            && |h.token| < TWO_TO_THE_16 && Big16(|h.token|) + h.token <= payload[6..]
  {
    if |payload| >= 8 {
      var field, rest := payload[6..8], payload[8..];
      assert payload[6..] == field + rest;
      Big16Inverts(|h.token|, field);
      if |h.token| <= |rest| {
        assert rest[..|h.token|] == payload[8..8 + |h.token|];
        assert Big16(|h.token|) + h.token <= field + rest <==> Big16(|h.token|) == field && h.token == rest[..|h.token|] by {
          PrefixOfTwo(Big16(|h.token|), h.token, field, rest);
        }
      }
    }
  }

  lemma PrefixOfTwo(a: seq<Byte>, b: seq<Byte>, c: seq<Byte>, d: seq<Byte>)
    requires |a| == |c| && |b| <= |d|
    ensures a + b <= c + d <==> a == c && b == d[..|b|]
  {
    assert (c + d)[..|a + b|] == c + d[..|b|];
    if a + b == c + d[..|b|] {
      assert (a + b)[..|a|] == a && (a + b)[|a|..] == b;
    }
  }

  function HandshakeReply(payload: seq<Byte>): ErrorMessage {
    if ParseHandshake(payload).Some? then
      ErrorMessage(ERR_HANDSHAKE_NOT_IMPLEMENTED, Ascii("handshake not implemented"))
    else if |payload| < 8 then
      ErrorMessage(ERR_INVALID_HANDSHAKE_PAYLOAD, Ascii("invalid handshake payload"))
    else
      ErrorMessage(ERR_HANDSHAKE_TOKEN_TRUNCATED, Ascii("handshake token truncated"))
  }

  function ReplyTo(frame: seq<Byte>): ErrorMessage
    requires frame != []
  {
    if frame[0] == MESSAGE_TYPE_HANDSHAKE then HandshakeReply(frame[1..])
    else ErrorMessage(ERR_UNSUPPORTED_MESSAGE_TYPE, Ascii("unsupported message type"))
  }

  /** One reply for each frame that is not empty, in order. */
  function Replies(frames: seq<seq<Byte>>): seq<ErrorMessage> {
    if frames == [] then []
    else Replies(frames[..|frames| - 1]) + if frames[|frames| - 1] == [] then [] else [ReplyTo(frames[|frames| - 1])]
  }

  function Payloads(replies: seq<ErrorMessage>): (r: seq<seq<Byte>>)
    ensures |r| == |replies|
    ensures forall i :: 0 <= i < |r| ==> r[i] == ErrorPayload(replies[i].code, replies[i].message)
  {
    seq(|replies|, i requires 0 <= i < |replies| => ErrorPayload(replies[i].code, replies[i].message))
  }

  /** handleHandshake: whatever the payload, every byte and slice it takes is in
      bounds, and what it takes is the handshake. */
  method HandleHandshake(payload: seq<Byte>) returns (frame: array<Byte>, received: Option<Handshake>)
    ensures fresh(frame)
    ensures frame[..] == Encode(ErrorPayload(HandshakeReply(payload).code, HandshakeReply(payload).message))
    ensures received == ParseHandshake(payload)
    ensures received.Some? <==> |payload| >= 8 && |payload| >= 8 + 0x100 * (payload[6] as int) + payload[7] as int
    ensures received.Some? ==>
      received.value == Handshake(payload[0], payload[1], payload[8..8 + 0x100 * (payload[6] as int) + payload[7] as int])
  {
    received := None;
    if |payload| < 8 {
      frame := SendError(ERR_INVALID_HANDSHAKE_PAYLOAD, Ascii("invalid handshake payload"));
      return;
    }
    var versionMajor := payload[0];
    var versionMinor := payload[1];
    var tokenLen := Value16(payload[6..8]);
    if |payload| < 8 + tokenLen {
      frame := SendError(ERR_HANDSHAKE_TOKEN_TRUNCATED, Ascii("handshake token truncated"));
      return;
    }
    var token := payload[8..8 + tokenLen];
    received := Some(Handshake(versionMajor, versionMinor, token));
    frame := SendError(ERR_HANDSHAKE_NOT_IMPLEMENTED, Ascii("handshake not implemented"));
  }

  lemma {:induction false} EncodeAllOfMore(frames: seq<seq<Byte>>, payload: seq<Byte>)
    ensures EncodeAll(frames + [payload]) == EncodeAll(frames) + Encode(payload)
  {
    if frames == [] {
      assert [payload][1..] == [];
    } else {
      assert (frames + [payload])[1..] == frames[1..] + [payload];
      EncodeAllOfMore(frames[1..], payload);
    }
  }

  method Answer(frame: seq<Byte>) returns (written: seq<Byte>)
    requires frame != []
    ensures written == Encode(ErrorPayload(ReplyTo(frame).code, ReplyTo(frame).message))
  {
    if frame[0] == MESSAGE_TYPE_HANDSHAKE {
      var reply, _ := HandleHandshake(frame[1..]);
      return reply[..];
    }
    var reply := SendError(ERR_UNSUPPORTED_MESSAGE_TYPE, Ascii("unsupported message type"));
    return reply[..];
  }

  lemma NoReplies()
    ensures EncodeAll(Payloads(Replies([]))) == []
  {
  }

  lemma OneMoreReply(seen: seq<seq<Byte>>, frame: seq<Byte>)
    ensures EncodeAll(Payloads(Replies(seen + [frame]))) == EncodeAll(Payloads(Replies(seen)))
            + if frame == [] then [] else Encode(ErrorPayload(ReplyTo(frame).code, ReplyTo(frame).message))
  {
    hide Encode, ReplyTo, ErrorPayload;
    assert (seen + [frame])[..|seen|] == seen;
    if frame != [] {
      var reply := ReplyTo(frame);
      var payloads := Payloads(Replies(seen));
      assert Payloads(Replies(seen) + [reply]) == payloads + [ErrorPayload(reply.code, reply.message)];
      EncodeAllOfMore(payloads, ErrorPayload(reply.code, reply.message));
    } else {
      assert Replies(seen) + [] == Replies(seen);
    }
  }

  /** serveConnection: read until the stream fails, answering as it goes. */
  method ServeConnection(bytes: seq<Byte>) returns (written: seq<Byte>)
    ensures written == EncodeAll(Payloads(Replies(ReadAll(bytes).frames)))
  {
    hide EncodeAll, Encode, Payloads, Replies, ReplyTo, ReadNext;
    var stream := new Stream(bytes);
    ghost var seen: seq<seq<Byte>> := [];
    written := [];
    assert written == EncodeAll(Payloads(Replies(seen))) by { NoReplies(); }
    while true
      invariant written == EncodeAll(Payloads(Replies(seen)))
      invariant ReadAll(bytes).frames == seen + ReadAll(stream.rest).frames
      decreases |stream.rest|
    {
      var read := stream.ReadFrame();
      if read.Stopped? {
        assert seen + [] == seen;
        return;
      }
      OneMoreReply(seen, read.payload);
      assert forall later :: seen + ([read.payload] + later) == (seen + [read.payload]) + later;
      seen := seen + [read.payload];
      if read.payload != [] {
        var reply := Answer(read.payload);
        written := written + reply;
      }
    }
  }

  /** Frames that are not empty are answered one by one, and empty ones change
      nothing. */
  lemma {:induction false} RepliesOneByOne(frames: seq<seq<Byte>>)
    requires forall i :: 0 <= i < |frames| ==> frames[i] != []
    ensures |Replies(frames)| == |frames|
    ensures forall i :: 0 <= i < |frames| ==> Replies(frames)[i] == ReplyTo(frames[i])
  {
    hide ReplyTo;
    if frames != [] {
      RepliesOneByOne(frames[..|frames| - 1]);
    }
  }

  lemma {:induction false} EmptyFramesAreSkipped(before: seq<seq<Byte>>, after: seq<seq<Byte>>)
    ensures Replies(before + [[]] + after) == Replies(before + after)
  {
    hide ReplyTo;
    if after == [] {
      assert (before + [[]] + after)[..|before|] == before && before + after == before;
    } else {
      var n := |after| - 1;
      assert (before + [[]] + after)[..|before| + 1 + n] == before + [[]] + after[..n];
      assert (before + after)[..|before| + n] == before + after[..n];
      EmptyFramesAreSkipped(before, after[..n]);
    }
  }

  /** Every frame has its answer: what is no handshake gets 100, a handshake too
      short for its fields 101, one too short for its token 102, and a whole one
      103. */
  lemma ReplyToEachKind(frame: seq<Byte>)
    requires frame != []
    ensures ReplyTo(frame).code ==
      if frame[0] != 0x01 then 100
      else if |frame| < 9 then 101
      else if |frame| < 9 + 0x100 * (frame[7] as int) + frame[8] as int then 102
      else 103
    ensures ReplyTo(frame).message == Ascii(match ReplyTo(frame).code
      case 100 => "unsupported message type"
      case 101 => "invalid handshake payload"
      case 102 => "handshake token truncated"
      case _ => "handshake not implemented")
  {
    var payload := frame[1..];
    if |payload| >= 8 {
      assert payload[6..8] == [frame[7], frame[8]];
    }
  }

  lemma {:induction false} RepliesAreShort(frames: seq<seq<Byte>>)
    ensures forall i :: 0 <= i < |Replies(frames)| ==>
      100 <= Replies(frames)[i].code <= 103 && |Replies(frames)[i].message| < 100
  {
    if frames != [] {
      RepliesAreShort(frames[..|frames| - 1]);
    }
  }

  /** Whatever bytes a client sends, the bytes it gets back read as exactly one
      error per frame that was not empty, in order, each with its code and its
      message, and then a clean end. */
  lemma ClientReadsEveryReply(bytes: seq<Byte>, written: seq<Byte>)
    requires written == EncodeAll(Payloads(Replies(ReadAll(bytes).frames)))
    ensures var replies := Replies(ReadAll(bytes).frames);
      && ReadAll(written) == Conversation(Payloads(replies), Eof)
      && forall i :: 0 <= i < |replies| ==> DecodeError(Payloads(replies)[i]) == Some(replies[i])
  {
    var replies := Replies(ReadAll(bytes).frames);
    RepliesAreShort(ReadAll(bytes).frames);
    FramesReadBack(Payloads(replies), []);
    assert written + [] == written;
    assert Payloads(replies) + [] == Payloads(replies);
    forall i | 0 <= i < |replies| ensures DecodeError(Payloads(replies)[i]) == Some(replies[i]) {
      ErrorReadsBackExactlyWhenShort(replies[i].code, replies[i].message);
    }
  }
}
