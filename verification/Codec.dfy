/**
 Frame encoding on the agent seat's socket: a big-endian length prefix and one encoded message, with
 bounds per direction before anything is allocated and per message type once it is known.
 */
module Codec {
  import opened Basics

  const LENGTH_PREFIX_BYTES: nat := 4

  // ------------------------------------------------------- the bounds

  datatype FrameLimits = FrameLimits(handshake: nat, request: nat, response: nat, capture: nat, event: nat)
  {
    /** The largest frame that may arrive from a direction's sender. */
    function IncomingMax(direction: Direction): (max: nat)
    {
      match direction
      case ToManager => if handshake > request then handshake else request
      case ToAgent => Larger(Larger(Larger(handshake, response), capture), event)
    }
  }

  function Larger(a: nat, b: nat): (max: nat)
  {
    if b > a then b else a
  }

  const DEFAULT_LIMITS: FrameLimits :=
    FrameLimits(8 * 1024, 128 * 1024, 4 * 1024 * 1024, 128 * 1024 * 1024, 256 * 1024)

  datatype Direction = ToManager | ToAgent

  datatype Message =
    | Hello(body: nat)
    | Request(body: nat)
    | Welcome(body: nat)
    | Goodbye(body: nat)
    | Event(body: nat)
    | Response(body: nat, carriesCapture: bool)
  {
    function FrameLimit(limits: FrameLimits): (limit: nat)
    {
      match this
      case Hello(_) => limits.handshake
      case Request(_) => limits.request
      case Welcome(_) => limits.handshake
      case Goodbye(_) => limits.handshake
      case Event(_) => limits.event
      case Response(_, captures) => if captures then limits.capture else limits.response
    }

    function Direction(): (direction: Direction)
    {
      if Hello? || Request? then ToManager else ToAgent
    }
  }

  /** A direction's bound admits every message that travels that way, and is needed by one of them. */
  lemma IncomingMaxIsTight(limits: FrameLimits, direction: Direction)
    ensures forall m: Message :: m.Direction() == direction ==> m.FrameLimit(limits) <= limits.IncomingMax(direction)
    ensures exists m: Message :: m.Direction() == direction && m.FrameLimit(limits) == limits.IncomingMax(direction)
  {
    var candidates := [Hello(0), Request(0), Welcome(0), Event(0), Response(0, true), Response(0, false)];
    assert exists i :: 0 <= i < |candidates| && candidates[i].Direction() == direction
                    && candidates[i].FrameLimit(limits) == limits.IncomingMax(direction) by {
      assert candidates[0].FrameLimit(limits) == limits.handshake && candidates[1].FrameLimit(limits) == limits.request;
      assert candidates[2].FrameLimit(limits) == limits.handshake && candidates[3].FrameLimit(limits) == limits.event;
      assert candidates[4].FrameLimit(limits) == limits.capture && candidates[5].FrameLimit(limits) == limits.response;
    }
  }

  // ------------------------------------------------------- the frames

  function Prefix(length: nat): (bytes: seq<Byte>)
    requires length <= U32_MAX
    ensures |bytes| == LENGTH_PREFIX_BYTES
  {
    [length / 0x100_0000, length / 0x1_0000 % 0x100, length / 0x100 % 0x100, length % 0x100]
  }

  function Length(prefix: seq<Byte>): (length: nat)
    requires |prefix| == LENGTH_PREFIX_BYTES
    ensures length <= U32_MAX
  {
    0x100_0000 * (prefix[0] as int) + 0x1_0000 * (prefix[1] as int) + 0x100 * (prefix[2] as int) + prefix[3] as int
  }

  lemma LengthOfPrefix(length: nat)
    requires length <= U32_MAX
    ensures Length(Prefix(length)) == length
  {
  }

  /** The first place where two prefixes differ, and the first has the smaller byte there. */
  ghost predicate SmallerAt(left: seq<Byte>, right: seq<Byte>, k: nat)
  {
    k < |left| && k < |right| && left[k] < right[k] && forall i :: 0 <= i < k ==> left[i] == right[i]
  }

  /** Most significant byte first: prefixes compare byte by byte as their lengths do. */
  lemma PrefixesCompareAsLengths(a: nat, b: nat)
    requires a <= U32_MAX && b <= U32_MAX
    ensures a < b <==> exists k: nat :: SmallerAt(Prefix(a), Prefix(b), k)
  {
    LengthOfPrefix(a);
    LengthOfPrefix(b);
    var left, right := Prefix(a), Prefix(b);
    hide Prefix;
    if k: nat :| SmallerAt(left, right, k) {
      assert k == 0 || k == 1 || k == 2 || k == 3;
    }
    if a < b {
      if left[0] != right[0] {
        assert SmallerAt(left, right, 0);
      } else if left[1] != right[1] {
        assert SmallerAt(left, right, 1);
      } else if left[2] != right[2] {
        assert SmallerAt(left, right, 2);
      } else {
        assert SmallerAt(left, right, 3);
      }
    }
  }

  /** The declared bounds, kind by kind. */
  lemma DefaultBounds(body: nat)
    ensures Hello(body).FrameLimit(DEFAULT_LIMITS) == Welcome(body).FrameLimit(DEFAULT_LIMITS) == 8192
    ensures Goodbye(body).FrameLimit(DEFAULT_LIMITS) == 8192
    ensures Request(body).FrameLimit(DEFAULT_LIMITS) == 131072
    ensures Event(body).FrameLimit(DEFAULT_LIMITS) == 262144
    ensures Response(body, false).FrameLimit(DEFAULT_LIMITS) == 4194304
    ensures Response(body, true).FrameLimit(DEFAULT_LIMITS) == 134217728
  {
  }

  /** The serialization the frames carry, for the messages of one direction. */
  datatype Format = Format(direction: Direction, encode: Message -> seq<Byte>, decode: seq<Byte> -> Option<Message>)
  {
    ghost predicate Honest()
    {
      && (forall m: Message :: m.Direction() == direction ==> decode(encode(m)) == Some(m))
      && (forall bytes :: decode(bytes).Some? ==> decode(bytes).value.Direction() == direction)
    }
  }

  datatype Failure = Closed | Truncated | TooLarge(length: nat, limit: nat) | Malformed
  datatype Outcome = Got(message: Message) | Failed(why: Failure)

  function Frame(body: seq<Byte>): (bytes: seq<Byte>)
    requires |body| <= U32_MAX
  {
    Prefix(|body|) + body
  }

  predicate Fits(format: Format, limits: FrameLimits, m: Message)
  {
    && m.Direction() == format.direction
    && |format.encode(m)| <= m.FrameLimit(limits)
    && |format.encode(m)| <= U32_MAX
  }

  /** What reading one frame off a byte stream yields, and the bytes after it. */
  function ReadResult(format: Format, limits: FrameLimits, bytes: seq<Byte>): (r: (Outcome, seq<Byte>))
  {
    if bytes == [] then (Failed(Closed), [])
    else if |bytes| < LENGTH_PREFIX_BYTES then (Failed(Truncated), [])
    else
      var length := Length(bytes[..LENGTH_PREFIX_BYTES]);
      var rest := bytes[LENGTH_PREFIX_BYTES..];
      var incoming := limits.IncomingMax(format.direction);
      if length > incoming then (Failed(TooLarge(length, incoming)), rest)
      else if |rest| < length then (Failed(Truncated), [])
      else (Verdict(format, limits, rest[..length]), rest[length..])
  }

  function Verdict(format: Format, limits: FrameLimits, body: seq<Byte>): (outcome: Outcome)
  {
    var m := format.decode(body);
    if m.None? then Failed(Malformed)
    else if |body| > m.value.FrameLimit(limits) then Failed(TooLarge(|body|, m.value.FrameLimit(limits)))
    else Got(m.value)
  }

  // ------------------------------------------------ the transport loops

  /** A stream that grants at least one and at most some number of bytes a call, until its end. */
  class Stream {
    var rest: seq<Byte>
    var calls: nat
    const grants: nat -> nat

    constructor (bytes: seq<Byte>, grants: nat -> nat)
      ensures rest == bytes && this.grants == grants
    {
      rest, calls, this.grants := bytes, 0, grants;
    }

    /** Reads at least one byte of what is wanted, and none only at the end. */
    method Read(want: nat) returns (bytes: seq<Byte>)
      requires want > 0
      modifies this
      ensures bytes + rest == old(rest) && |bytes| <= want
      ensures bytes == [] <==> old(rest) == []
    {
      var n := grants(calls);
      calls := calls + 1;
      n := if n == 0 then 1 else n;
      n := if n > want then want else n;
      n := if n > |rest| then |rest| else n;
      bytes, rest := rest[..n], rest[n..];
    }

    /** Fills a whole buffer or reports that the stream ended first. */
    method ReadExact(want: nat) returns (bytes: Option<seq<Byte>>)
      modifies this
      ensures |old(rest)| < want ==> bytes == None && rest == []
      ensures |old(rest)| >= want ==> bytes == Some(old(rest)[..want]) && rest == old(rest)[want..]
    {
      var filled: seq<Byte> := [];
      while |filled| < want
        invariant filled + rest == old(rest) && |filled| <= want
        decreases want - |filled|
      {
        var more := Read(want - |filled|);
        if more == [] {
          return None;
        }
        filled := filled + more;
      }
      bytes := Some(filled);
    }
  }

  /** Reads one frame however the stream splits it; `reserved` is the body buffer's size. */
  method ReadFrame(format: Format, limits: FrameLimits, stream: Stream) returns (outcome: Outcome, ghost reserved: nat)
    modifies stream
    ensures (outcome, stream.rest) == ReadResult(format, limits, old(stream.rest))
    ensures reserved <= limits.IncomingMax(format.direction)
  {
    var prefix: seq<Byte> := [];
    while |prefix| < LENGTH_PREFIX_BYTES
      invariant prefix + stream.rest == old(stream.rest) && |prefix| <= LENGTH_PREFIX_BYTES
      decreases LENGTH_PREFIX_BYTES - |prefix|
    {
      var more := stream.Read(LENGTH_PREFIX_BYTES - |prefix|);
      if more == [] {
        return Failed(if prefix == [] then Closed else Truncated), 0;
      }
      prefix := prefix + more;
    }
    assert prefix == old(stream.rest)[..LENGTH_PREFIX_BYTES];
    var length := Length(prefix);
    var incoming := limits.IncomingMax(format.direction);
    if length > incoming {
      return Failed(TooLarge(length, incoming)), 0;
    }
    reserved := length;
    var body := stream.ReadExact(length);
    if body.None? {
      return Failed(Truncated), reserved;
    }
    outcome := Verdict(format, limits, body.value);
  }

  /** Writes one frame, or nothing at all when the message is over its own bound. */
  method WriteFrame(format: Format, limits: FrameLimits, m: Message, sent: seq<Byte>)
    returns (failure: Option<Failure>, sink: seq<Byte>)
    requires m.Direction() == format.direction
    ensures failure.None? <==> Fits(format, limits, m)
    ensures failure.None? ==> sink == sent + Frame(format.encode(m))
    ensures failure.Some? ==> sink == sent && failure.value == TooLarge(|format.encode(m)|, m.FrameLimit(limits))
  {
    sink := sent;
    var body := format.encode(m);
    var limit := m.FrameLimit(limits);
    if |body| > limit || |body| > U32_MAX {
      return Some(TooLarge(|body|, limit)), sink;
    }
    sink := sink + Prefix(|body|);
    sink := sink + body;
    assert sink == sent + Frame(body);
    failure := None;
  }

  // --------------------------------------------------- the round trip

  /** A whole frame at the head of a stream is read whole, and nothing after it is touched. */
  lemma FrameComesBack(format: Format, limits: FrameLimits, m: Message, rest: seq<Byte>)
    requires format.Honest() && Fits(format, limits, m)
    ensures ReadResult(format, limits, Frame(format.encode(m)) + rest) == (Got(m), rest)
  {
    var body := format.encode(m);
    var bytes := Frame(body) + rest;
    LengthOfPrefix(|body|);
    IncomingMaxIsTight(limits, format.direction);
    assert bytes[..LENGTH_PREFIX_BYTES] == Prefix(|body|);
    assert bytes[LENGTH_PREFIX_BYTES..] == body + rest;
    assert (body + rest)[..|body|] == body && (body + rest)[|body|..] == rest;
  }

  /**
   Why a read fails: nothing at all is a closed stream, less than a length or less than it announces is a cut
   one, a length over the direction's bound is refused before its body, and a whole body is refused when it
   decodes to nothing or is over its own kind's bound.
   */
  lemma FailsExactly(format: Format, limits: FrameLimits, length: nat, rest: seq<Byte>)
    requires length <= U32_MAX
    ensures ReadResult(format, limits, []) == (Failed(Closed), [])
    ensures forall k :: 0 < k < 4 ==> ReadResult(format, limits, Prefix(length)[..k]) == (Failed(Truncated), [])
    ensures var max := limits.IncomingMax(format.direction);
            var (outcome, left) := ReadResult(format, limits, Prefix(length) + rest);
            && (length > max ==> outcome == Failed(TooLarge(length, max)) && left == rest)
            && (length <= max && |rest| < length ==> outcome == Failed(Truncated) && left == [])
            && (length <= max && length <= |rest| ==>
                  && left == rest[length..]
                  && var m := format.decode(rest[..length]);
                     && (outcome == Failed(Malformed) <==> m == None)
                     && (m.Some? && length > m.value.FrameLimit(limits) ==>
                           outcome == Failed(TooLarge(length, m.value.FrameLimit(limits))))
                     && (m.Some? && length <= m.value.FrameLimit(limits) ==> outcome == Got(m.value)))
  {
    var bytes := Prefix(length) + rest;
    LengthOfPrefix(length);
    assert bytes[..LENGTH_PREFIX_BYTES] == Prefix(length) && bytes[LENGTH_PREFIX_BYTES..] == rest;
  }

  predicate AllFit(format: Format, limits: FrameLimits, messages: seq<Message>)
  {
    forall i :: 0 <= i < |messages| ==> Fits(format, limits, messages[i])
  }

  /** A message is read exactly off a stream that starts with a frame of its encoding, within its own bound. */
  lemma ReadsExactlyFrames(format: Format, limits: FrameLimits, bytes: seq<Byte>, m: Message, rest: seq<Byte>)
    requires format.Honest()
    ensures ReadResult(format, limits, bytes) == (Got(m), rest) <==> exists body :: IsFrameOf(format, limits, bytes, m, body, rest)
  {
    IncomingMaxIsTight(limits, format.direction);
    if ReadResult(format, limits, bytes) == (Got(m), rest) {
      var length := Length(bytes[..LENGTH_PREFIX_BYTES]);
      var body := bytes[LENGTH_PREFIX_BYTES..][..length];
      PrefixOfLength(bytes[..LENGTH_PREFIX_BYTES]);
      assert bytes == bytes[..LENGTH_PREFIX_BYTES] + body + rest;
      assert IsFrameOf(format, limits, bytes, m, body, rest);
    }
    forall body | IsFrameOf(format, limits, bytes, m, body, rest)
      ensures ReadResult(format, limits, bytes) == (Got(m), rest)
    {
      LengthOfPrefix(|body|);
      assert bytes[..LENGTH_PREFIX_BYTES] == Prefix(|body|);
      assert bytes[LENGTH_PREFIX_BYTES..] == body + rest;
    }
  }

  ghost predicate IsFrameOf(format: Format, limits: FrameLimits, bytes: seq<Byte>, m: Message, body: seq<Byte>, rest: seq<Byte>)
  {
    && |body| <= U32_MAX && bytes == Frame(body) + rest
    && format.decode(body) == Some(m) && |body| <= m.FrameLimit(limits)
  }

  lemma PrefixOfLength(prefix: seq<Byte>)
    requires |prefix| == LENGTH_PREFIX_BYTES
    ensures Prefix(Length(prefix)) == prefix
  {
    var length := Length(prefix);
    assert length / 0x100 == 0x1_0000 * prefix[0] as int + 0x100 * prefix[1] as int + prefix[2] as int;
    assert length / 0x1_0000 == 0x100 * prefix[0] as int + prefix[1] as int;
    assert length / 0x100_0000 == prefix[0] as int;
  }

  function Frames(format: Format, limits: FrameLimits, messages: seq<Message>): (bytes: seq<Byte>)
    requires AllFit(format, limits, messages)
  {
    if messages == [] then []
    else Frame(format.encode(messages[0])) + Frames(format, limits, messages[1..])
  }

  /** Reading until something fails. */
  function ReadAll(format: Format, limits: FrameLimits, bytes: seq<Byte>): (r: (seq<Message>, Failure))
    decreases |bytes|
  {
    var (outcome, rest) := ReadResult(format, limits, bytes);
    if outcome.Failed? then ([], outcome.why)
    else
      var (more, why) := ReadAll(format, limits, rest);
      ([outcome.message] + more, why)
  }

  lemma FirstComesBack(format: Format, limits: FrameLimits, m: Message, rest: seq<Byte>)
    requires format.Honest() && Fits(format, limits, m)
    ensures var (messages, why) := ReadAll(format, limits, rest);
            ReadAll(format, limits, Frame(format.encode(m)) + rest) == ([m] + messages, why)
  {
    FrameComesBack(format, limits, m, rest);
  }

  /** Any messages within their bounds come back in order, and then the stream is closed, not faulted. */
  lemma {:induction false} MessagesComeBack(format: Format, limits: FrameLimits, messages: seq<Message>)
    requires format.Honest() && AllFit(format, limits, messages)
    ensures ReadAll(format, limits, Frames(format, limits, messages)) == (messages, Closed)
  {
    hide ReadAll, ReadResult, Frame, Format.Honest;
    if messages == [] {
      NothingComesBack(format, limits);
    } else {
      FirstComesBack(format, limits, messages[0], Frames(format, limits, messages[1..]));
      MessagesComeBack(format, limits, messages[1..]);
      assert [messages[0]] + messages[1..] == messages;
    }
  }

  lemma NothingComesBack(format: Format, limits: FrameLimits)
    ensures ReadAll(format, limits, []) == ([], Closed)
  {
  }

  /** A frame cut short is a fault: only a stream that ends between frames reads as closed. */
  lemma CutFrameIsTruncated(format: Format, limits: FrameLimits, m: Message, cut: nat)
    requires format.Honest() && Fits(format, limits, m) && 0 < cut < |Frame(format.encode(m))|
    ensures ReadResult(format, limits, Frame(format.encode(m))[..cut]).0 == Failed(Truncated)
  {
    var body := format.encode(m);
    var bytes := Frame(body)[..cut];
    LengthOfPrefix(|body|);
    IncomingMaxIsTight(limits, format.direction);
    if cut >= LENGTH_PREFIX_BYTES {
      assert bytes[..LENGTH_PREFIX_BYTES] == Prefix(|body|);
    }
  }

  /** So wherever a stream of frames is cut, the reader gets every whole frame and then knows which it was. */
  lemma {:induction false} CutStreamKeepsWholeFrames(format: Format, limits: FrameLimits, messages: seq<Message>, m: Message, cut: nat)
    requires format.Honest() && AllFit(format, limits, messages) && Fits(format, limits, m)
    requires cut < |Frame(format.encode(m))|
    ensures ReadAll(format, limits, Frames(format, limits, messages) + Frame(format.encode(m))[..cut])
         == (messages, if cut == 0 then Closed else Truncated)
  {
    hide ReadAll, ReadResult, Frame, Format.Honest;
    var tail := Frame(format.encode(m))[..cut];
    if messages == [] {
      assert Frames(format, limits, messages) + tail == tail;
      CutFrameComesBack(format, limits, m, cut);
    } else {
      var first := Frame(format.encode(messages[0]));
      var rest := Frames(format, limits, messages[1..]);
      FirstComesBack(format, limits, messages[0], rest + tail);
      CutStreamKeepsWholeFrames(format, limits, messages[1..], m, cut);
      assert (first + rest) + tail == first + (rest + tail);
      assert [messages[0]] + messages[1..] == messages;
    }
  }

  lemma CutFrameComesBack(format: Format, limits: FrameLimits, m: Message, cut: nat)
    requires format.Honest() && Fits(format, limits, m) && cut < |Frame(format.encode(m))|
    ensures ReadAll(format, limits, Frame(format.encode(m))[..cut]) == ([], if cut == 0 then Closed else Truncated)
  {
    if cut > 0 {
      CutFrameIsTruncated(format, limits, m, cut);
    }
  }

  /** A message is delivered only within both bounds, and the shipped bounds never need the 32-bit check. */
  lemma DeliveredIsBounded(format: Format, limits: FrameLimits, bytes: seq<Byte>)
    requires format.Honest() && ReadResult(format, limits, bytes).0.Got?
    ensures var (outcome, rest) := ReadResult(format, limits, bytes);
            && |bytes| >= LENGTH_PREFIX_BYTES + |rest|
            && outcome.message.Direction() == format.direction
            && |bytes| - LENGTH_PREFIX_BYTES - |rest| <= outcome.message.FrameLimit(limits)
                                                     <= limits.IncomingMax(format.direction)
    ensures DEFAULT_LIMITS.IncomingMax(ToAgent) <= U32_MAX && DEFAULT_LIMITS.IncomingMax(ToManager) <= U32_MAX
  {
    IncomingMaxIsTight(limits, format.direction);
  }
}
