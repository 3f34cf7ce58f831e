/** Length-prefixed gRPC messages and the bodies that carry them, `intercept.rs`. */
module Grpc {
  import opened Bytes
  import opened Wrappers

  /** A name can have several values, in order. */
  type HeaderMap = map<string, seq<seq<Byte>>>

  /** The first value of a name, if there is one. */
  function First(headers: HeaderMap, name: string): Option<seq<Byte>> {
    if name in headers && headers[name] != [] then Some(headers[name][0]) else None
  }

  const PREFIX_LEN: nat := 5

  /** The framing of a message: no compression, the length in 32 bits (what does not fit is cut off), the message. */
  function Framing(message: seq<Byte>): seq<Byte> {
    [0] + BigDigits(|message| % 0x1_0000_0000, 4) + message
  }

  /** A frame that says it is not compressed and as long as it is. */
  ghost predicate Carries(frame: seq<Byte>, payload: seq<Byte>) {
    |payload| < 0x1_0000_0000 && frame == Framing(payload)
  }

  lemma FourBytes()
    ensures Pow256(4) == 0x1_0000_0000
  {
    assert Pow256(2) == 0x1_0000;
  }

  /** The length field of a frame, as a `usize`. */
  function Declared(frame: seq<Byte>): nat
    requires PREFIX_LEN <= |frame|
  {
    BigNumber(frame[1..5])
  }

  /** The declared length of a frame with its 5-byte prefix, if it fits a `usize`. */
  function CheckedEnd(frame: seq<Byte>, usizeMax: nat): Option<nat>
    requires PREFIX_LEN <= |frame|
  {
    if PREFIX_LEN + Declared(frame) <= usizeMax then Some(PREFIX_LEN + Declared(frame)) else None
  }

  /** The lengths a slice can have, on targets whose words have 32 bits or more. */
  predicate IsSlice(frame: seq<Byte>, usizeMax: nat) {
    0xFFFF_FFFF <= usizeMax && |frame| <= usizeMax
  }

  /** The flag is zero and the declared length reaches exactly to the end. */
  predicate IsFrame(frame: seq<Byte>, usizeMax: nat) {
    PREFIX_LEN <= |frame| && frame[0] == 0 && CheckedEnd(frame, usizeMax) == Some(|frame|)
  }

  lemma FrameCarries(frame: seq<Byte>, usizeMax: nat)
    requires IsSlice(frame, usizeMax) && IsFrame(frame, usizeMax)
    ensures Carries(frame, frame[5..])
  {
    var length := frame[1..5];
    FourBytes();
    BigDigitsOfNumber(length);
    hide BigDigits, BigNumber, Pow256;
    assert frame == [frame[0]] + length + frame[5..];
  }

  lemma CarrierIsFrame(frame: seq<Byte>, payload: seq<Byte>, usizeMax: nat)
    requires IsSlice(frame, usizeMax) && Carries(frame, payload)
    ensures IsFrame(frame, usizeMax) && payload == frame[5..]
  {
    var length := BigDigits(|payload|, 4);
    assert |payload| % 0x1_0000_0000 == |payload|;
    assert BigNumber(length) == |payload| by {
      FourBytes();
      BigNumberOfDigits(|payload|, 4);
    }
    assert frame == [0] + length + payload;
    hide BigDigits, BigNumber, Framing, Carries;
    PartsOfFrame(length, payload);
  }

  lemma PartsOfFrame(length: seq<Byte>, payload: seq<Byte>)
    requires |length| == 4
    ensures var frame := [0] + length + payload; frame[1..5] == length && frame[5..] == payload
  {
  }

  /** A frame carries a payload exactly when its flag is zero and its declared length reaches exactly its end. */
  lemma CarriesExact(frame: seq<Byte>, payload: seq<Byte>, usizeMax: nat)
    requires IsSlice(frame, usizeMax)
    ensures Carries(frame, payload) <==> IsFrame(frame, usizeMax) && payload == frame[5..]
  {
    if IsFrame(frame, usizeMax) { FrameCarries(frame, usizeMax); }
    if Carries(frame, payload) { CarrierIsFrame(frame, payload, usizeMax); }
  }

  /** The frame of a message too long for its prefix carries nothing: its length field cannot say where it ends. */
  lemma LongFrameCarriesNothing(message: seq<Byte>, payload: seq<Byte>)
    requires |message| >= 0x1_0000_0000
    ensures !Carries(Framing(message), payload)
  {
    assert |Framing(message)| == 5 + |message| && |Framing(payload)| == 5 + |payload|;
  }

  // ----- replaying a body

  datatype Frame = Data(bytes: seq<Byte>) | Trailers(trailers: HeaderMap)

  /** A buffered body that is handed out again, one frame at a time. */
  class ReplayBody {
    var data: Option<seq<Byte>>
    var trailers: Option<HeaderMap>

    constructor (bytes: seq<Byte>, trailers: Option<HeaderMap>)
      ensures data == Some(bytes) && this.trailers == trailers
    {
      data := Some(bytes);
      this.trailers := trailers;
    }

    /** The frames still to come. */
    ghost function Remaining(): seq<Frame>
      reads this
    {
      (if data.Some? && data.value != [] then [Data(data.value)] else [])
      + (if trailers.Some? then [Trailers(trailers.value)] else [])
    }

    method PollFrame() returns (frame: Option<Frame>)
      modifies this
      ensures old(Remaining()) == [] ==> frame == None && Remaining() == []
      ensures old(Remaining()) != [] ==> frame == Some(old(Remaining())[0]) && Remaining() == old(Remaining())[1..]
    {
      if data.Some? {
        var taken := data.value;
        data := None;
        if taken != [] {
          return Some(Data(taken));
        }
      }
      if trailers.Some? {
        var taken := trailers.value;
        trailers := None;
        return Some(Trailers(taken));
      }
      return None;
    }

    /** What a reader of the whole body sees: every byte, and the trailers if there are any. */
    method Drain() returns (bytes: seq<Byte>, sentTrailers: Option<HeaderMap>)
      modifies this
      ensures bytes == (if old(data).Some? then old(data).value else []) && sentTrailers == old(trailers)
      ensures Remaining() == []
    {
      bytes, sentTrailers := [], None;
      ghost var seen: seq<Frame> := [];
      assert BytesOf(seen) == [] && TrailersOf(seen) == None;
      ReplayFrames(data, trailers);
      hide BytesOf, TrailersOf, Remaining;
      ghost var all := Remaining();
      var frame := PollFrame();
      while frame.Some?
        invariant frame.Some? ==> all == seen + ([frame.value] + Remaining())
        invariant frame.None? ==> all == seen && Remaining() == []
        invariant bytes == BytesOf(seen) && sentTrailers == TrailersOf(seen)
        decreases frame.Some?, |Remaining()|
      {
        FramesSnoc(seen, frame.value);
        FrameMoves(seen, frame.value, Remaining());
        seen := seen + [frame.value];
        match frame.value {
          case Data(more) => bytes := bytes + more;
          case Trailers(t) => sentTrailers := Some(t);
        }
        ghost var rest := Remaining();
        frame := PollFrame();
        if rest != [] {
          NextFrame(seen, rest);
        }
      }
    }
  }

  lemma FrameMoves(seen: seq<Frame>, frame: Frame, rest: seq<Frame>)
    ensures seen + ([frame] + rest) == (seen + [frame]) + rest
  {
  }

  lemma NextFrame(seen: seq<Frame>, rest: seq<Frame>)
    requires rest != []
    ensures seen + rest == seen + ([rest[0]] + rest[1..])
  {
  }

  lemma FramesSnoc(frames: seq<Frame>, last: Frame)
    ensures BytesOf(frames + [last]) == BytesOf(frames) + if last.Data? then last.bytes else []
    ensures TrailersOf(frames + [last]) == if last.Trailers? then Some(last.trailers) else TrailersOf(frames)
  {
    assert (frames + [last])[..|frames|] == frames;
  }

  lemma ReplayFrames(data: Option<seq<Byte>>, trailers: Option<HeaderMap>)
    ensures
      var head := if data.Some? && data.value != [] then [Data(data.value)] else [];
      var frames := head + if trailers.Some? then [Trailers(trailers.value)] else [];
      BytesOf(frames) == (if data.Some? then data.value else []) && TrailersOf(frames) == trailers
  {
    var head := if data.Some? && data.value != [] then [Data(data.value)] else [];
    assert head != [] ==> head[..|head| - 1] == [];
    assert BytesOf(head) == (if data.Some? then data.value else []) && TrailersOf(head) == None;
    if trailers.Some? {
      var frames := head + [Trailers(trailers.value)];
      assert frames[..|frames| - 1] == head;
      assert BytesOf(frames) == BytesOf(head) + [];
    } else {
      assert head + [] == head;
    }
  }

  function BytesOf(frames: seq<Frame>): seq<Byte> {
    if frames == [] then []
    else
      var last := frames[|frames| - 1];
      BytesOf(frames[..|frames| - 1]) + if last.Data? then last.bytes else []
  }

  function TrailersOf(frames: seq<Frame>): Option<HeaderMap> {
    if frames == [] then None
    else
      var last := frames[|frames| - 1];
      if last.Trailers? then Some(last.trailers) else TrailersOf(frames[..|frames| - 1])
  }

  const OK_TRAILERS: HeaderMap := map["grpc-status" := [Ascii("0")]]
  const REPLY_HEADERS: HeaderMap := map["content-type" := [Ascii("application/grpc")]]

  /** A unary reply: a content type, and a body of one framed message and a `grpc-status: 0` trailer. */
  method Unary(message: seq<Byte>) returns (headers: HeaderMap, body: ReplayBody)
    ensures headers == REPLY_HEADERS
    ensures headers == map["content-type" :=
                           [[97, 112, 112, 108, 105, 99, 97, 116, 105, 111, 110, 47, 103, 114, 112, 99]]]
    ensures fresh(body) && body.data == Some(Framing(message)) && body.trailers == Some(OK_TRAILERS)
    ensures body.Remaining() == [Data(Framing(message)), Trailers(map["grpc-status" := [[48]]])]
  {
    assert Ascii("0") == [48];
    assert Ascii("application/grpc") == [97, 112, 112, 108, 105, 99, 97, 116, 105, 111, 110, 47, 103, 114, 112, 99];
    var framed: seq<Byte> := [];
    framed := framed + [0];
    framed := framed + BigDigits(|message| % 0x1_0000_0000, 4);
    framed := framed + message;
    assert framed == Framing(message);
    var trailers: HeaderMap := map[];
    trailers := trailers["grpc-status" := [Ascii("0")]];
    body := new ReplayBody(framed, Some(trailers));
    headers := map[];
    headers := headers["content-type" := [Ascii("application/grpc")]];
  }
}
