/** Reading the two intercepted requests, `intercept.rs`: unwrapping, and checking what the hub answers. */
module Intercept {
  import opened Bytes
  import opened Grpc
  import opened Wrappers

  import C = Classify
  import T = Transaction

  datatype RawTransaction = RawTransaction(data: seq<Byte>, height: nat)

  datatype TxFilter = TxFilter(hasBlock: bool, index: nat, hash: seq<Byte>)

  type Hash = s: seq<Byte> | |s| == 32 witness seq(32, _ => 0)

  /** The parts that are not modelled: protobuf decoding, transaction parsing and hashing, and the target's word size. */
  datatype Env = Env(
    decodeRaw: seq<Byte> -> Option<RawTransaction>,
    decodeFilter: seq<Byte> -> Option<TxFilter>,
    deserialize: C.Deserialize,
    hash: T.Transaction -> Hash,
    usizeMax: nat)

  const IDENTITY: seq<Byte> := Ascii("identity")

  /** No message encoding is named, or the first one named is the identity. */
  predicate IsIdentityCoded(headers: HeaderMap) {
    First(headers, "grpc-encoding").None? || First(headers, "grpc-encoding").value == IDENTITY
  }

  // ----- the two parsers

  datatype Reason = NotIdentity | Short | Compressed | Truncated | Trailing | Undecodable

  datatype Inspection = Classified(verdict: C.Class) | Failsafe(reason: Reason) {
    predicate TreatAsMigration() {
      if Classified? then verdict.TreatAsMigration() else true
    }
  }

  /** `frame.get(PREFIX..end)`. */
  function Get(frame: seq<Byte>, end: nat): Option<seq<Byte>> {
    if PREFIX_LEN <= end <= |frame| then Some(frame[PREFIX_LEN..end]) else None
  }

  /** The unwrapping of a `SendTransaction` body: a verdict, and the transaction bytes if they were reached. */
  function Inspect(env: Env, headers: HeaderMap, frame: seq<Byte>): (Inspection, Option<seq<Byte>>) {
    var encoding := First(headers, "grpc-encoding");
    if encoding.Some? && encoding.value != IDENTITY then (Failsafe(NotIdentity), None)
    else if |frame| < PREFIX_LEN then (Failsafe(Short), None)
    else if frame[0] != 0 then (Failsafe(Compressed), None)
    else
      var end := CheckedEnd(frame, env.usizeMax);
      var message := if end.Some? then Get(frame, end.value) else None;
      if message.None? then (Failsafe(Truncated), None)
      else if |message.value| != |frame| - PREFIX_LEN then (Failsafe(Trailing), None)
      else
        match env.decodeRaw(message.value)
        case Some(raw) => (Classified(C.ClassOf(env.deserialize, raw.data)), Some(raw.data))
        case None => (Failsafe(Undecodable), None)
  }

  datatype FilterError = CompressedRequest | NotIdentityFrame | WrongLength | UndecodableFilter

  /** The unwrapping of a `GetTransaction` body. */
  function DecodeTxFilter(env: Env, headers: HeaderMap, frame: seq<Byte>): Result<TxFilter, FilterError> {
    var encoding := First(headers, "grpc-encoding");
    if encoding.Some? && encoding.value != IDENTITY then Err(CompressedRequest)
    else if |frame| < PREFIX_LEN || frame[0] != 0 then Err(NotIdentityFrame)
    else if CheckedEnd(frame, env.usizeMax) != Some(|frame|) then Err(WrongLength)
    else
      match env.decodeFilter(frame[PREFIX_LEN..])
      case Some(filter) => Ok(filter)
      case None => Err(UndecodableFilter)
  }

  // ----- what they accept

  /** A single frame, identity coded, and its payload. */
  ghost predicate Unwraps(headers: HeaderMap, frame: seq<Byte>, payload: seq<Byte>) {
    IsIdentityCoded(headers) && Carries(frame, payload)
  }

  predicate InspectReaches(env: Env, headers: HeaderMap, frame: seq<Byte>) {
    var r := Inspect(env, headers, frame).0;
    r.Classified? || r.reason == Undecodable
  }

  predicate FilterReaches(env: Env, headers: HeaderMap, frame: seq<Byte>) {
    var r := DecodeTxFilter(env, headers, frame);
    r.Ok? || r.error == UndecodableFilter
  }

  /** What decoding and classifying a payload gives. */
  function Decoded(env: Env, payload: seq<Byte>): (Inspection, Option<seq<Byte>>) {
    match env.decodeRaw(payload)
    case Some(raw) => (Classified(C.ClassOf(env.deserialize, raw.data)), Some(raw.data))
    case None => (Failsafe(Undecodable), None)
  }

  function DecodedFilter(env: Env, payload: seq<Byte>): Result<TxFilter, FilterError> {
    match env.decodeFilter(payload)
    case Some(filter) => Ok(filter)
    case None => Err(UndecodableFilter)
  }

  lemma InspectOfFrame(env: Env, headers: HeaderMap, frame: seq<Byte>)
    requires IsSlice(frame, env.usizeMax)
    ensures
      if IsIdentityCoded(headers) && IsFrame(frame, env.usizeMax) then Inspect(env, headers, frame) == Decoded(env, frame[5..])
      else !InspectReaches(env, headers, frame)
  {
    if PREFIX_LEN <= |frame| {
      assert frame[PREFIX_LEN..|frame|] == frame[5..];
    }
  }

  /** Up to the protobuf decoder, `Inspect` lets through exactly the frames that carry a payload, and decodes the payload. */
  lemma InspectExact(env: Env, headers: HeaderMap, frame: seq<Byte>, payload: seq<Byte>)
    requires IsSlice(frame, env.usizeMax)
    ensures InspectReaches(env, headers, frame) <==> exists p :: Unwraps(headers, frame, p)
    ensures Unwraps(headers, frame, payload) ==> Inspect(env, headers, frame) == Decoded(env, payload)
  {
    InspectOfFrame(env, headers, frame);
    CarriesExact(frame, payload, env.usizeMax);
    ReachesExact(headers, frame, env.usizeMax);
  }

  lemma ReachesExact(headers: HeaderMap, frame: seq<Byte>, usizeMax: nat)
    requires IsSlice(frame, usizeMax)
    ensures IsIdentityCoded(headers) && IsFrame(frame, usizeMax) <==> exists p :: Unwraps(headers, frame, p)
  {
    if IsIdentityCoded(headers) && IsFrame(frame, usizeMax) {
      CarriesExact(frame, frame[5..], usizeMax);
      assert Unwraps(headers, frame, frame[5..]);
    }
    if p :| Unwraps(headers, frame, p) {
      CarriesExact(frame, p, usizeMax);
    }
  }

  /** And so does `DecodeTxFilter`. */
  lemma FilterExact(env: Env, headers: HeaderMap, frame: seq<Byte>, payload: seq<Byte>)
    requires IsSlice(frame, env.usizeMax)
    ensures FilterReaches(env, headers, frame) <==> exists p :: Unwraps(headers, frame, p)
    ensures Unwraps(headers, frame, payload) ==> DecodeTxFilter(env, headers, frame) == DecodedFilter(env, payload)
  {
    CarriesExact(frame, payload, env.usizeMax);
    ReachesExact(headers, frame, env.usizeMax);
  }

  /** The two parsers, written differently, let the same headers and frames through. */
  lemma ParsersAgree(env: Env, headers: HeaderMap, frame: seq<Byte>)
    requires IsSlice(frame, env.usizeMax)
    ensures InspectReaches(env, headers, frame) <==> FilterReaches(env, headers, frame)
  {
    InspectExact(env, headers, frame, []);
    FilterExact(env, headers, frame, []);
  }

  /**
   Unwrapping what was framed gives it back, through either parser, exactly when its length fits the prefix;
   neither lets the frame of a longer message through.
   */
  lemma FramingRoundTrip(env: Env, headers: HeaderMap, message: seq<Byte>)
    requires IsIdentityCoded(headers) && IsSlice(Framing(message), env.usizeMax)
    ensures |message| < 0x1_0000_0000 ==>
              && Inspect(env, headers, Framing(message)) == Decoded(env, message)
              && DecodeTxFilter(env, headers, Framing(message)) == DecodedFilter(env, message)
    ensures |message| < 0x1_0000_0000 <==> InspectReaches(env, headers, Framing(message))
    ensures |message| < 0x1_0000_0000 <==> FilterReaches(env, headers, Framing(message))
  {
    var frame := Framing(message);
    InspectExact(env, headers, frame, message);
    FilterExact(env, headers, frame, message);
    hide Framing, Inspect, DecodeTxFilter;
    if |message| < 0x1_0000_0000 {
      assert Unwraps(headers, frame, message);
    } else {
      forall payload ensures !Unwraps(headers, frame, payload) { LongFrameCarriesNothing(message, payload); }
    }
  }

  // ----- what the headers and the frame decide, spelled out

  /** An encoding whose first value is not the eight letters of "identity" is refused before the frame is looked at. */
  lemma EncodingIsRefused(env: Env, headers: HeaderMap, frame: seq<Byte>, v: seq<Byte>, rest: seq<seq<Byte>>)
    requires "grpc-encoding" in headers && headers["grpc-encoding"] == [v] + rest
    requires v != [105, 100, 101, 110, 116, 105, 116, 121]
    ensures Inspect(env, headers, frame) == (Failsafe(NotIdentity), None)
    ensures DecodeTxFilter(env, headers, frame) == Err(CompressedRequest)
  {
    IdentitySpelled();
  }

  lemma IdentitySpelled()
    ensures IDENTITY == [105, 100, 101, 110, 116, 105, 116, 121]
  {
  }

  /** Without an encoding, or with those eight letters first, the frame alone decides. */
  lemma FrameAloneDecides(env: Env, headers: HeaderMap, frame: seq<Byte>)
    requires
      "grpc-encoding" in headers && headers["grpc-encoding"] != [] ==>
        headers["grpc-encoding"][0] == [105, 100, 101, 110, 116, 105, 116, 121]
    requires IsSlice(frame, env.usizeMax)
    ensures
      var (inspection, data) := Inspect(env, headers, frame);
      var filter := DecodeTxFilter(env, headers, frame);
      if |frame| < 5 then inspection == Failsafe(Short) && data == None && filter == Err(NotIdentityFrame)
      else if frame[0] != 0 then inspection == Failsafe(Compressed) && data == None && filter == Err(NotIdentityFrame)
      else
        var b1: int, b2: int, b3: int, b4: int := frame[1], frame[2], frame[3], frame[4];
        var end := 5 + 0x100_0000 * b1 + 0x1_0000 * b2 + 0x100 * b3 + b4;
        if end > |frame| then inspection == Failsafe(Truncated) && data == None && filter == Err(WrongLength)
        else if end < |frame| then inspection == Failsafe(Trailing) && data == None && filter == Err(WrongLength)
        else
          && (env.decodeRaw(frame[5..]).None? ==> inspection == Failsafe(Undecodable) && data == None)
          && (env.decodeRaw(frame[5..]).Some? ==> inspection.Classified? && data == Some(env.decodeRaw(frame[5..]).value.data))
          && (env.decodeFilter(frame[5..]).None? ==> filter == Err(UndecodableFilter))
          && (env.decodeFilter(frame[5..]).Some? ==> filter == Ok(env.decodeFilter(frame[5..]).value))
  {
    IdentitySpelled();
    if |frame| >= 5 {
      FourByteNumber(frame[1..5]);
      assert frame[PREFIX_LEN..|frame|] == frame[5..];
      hide BigNumber;
    }
  }

  lemma FourByteNumber(s: seq<Byte>)
    requires |s| == 4
    ensures
      var b1: int, b2: int, b3: int, b4: int := s[0], s[1], s[2], s[3];
      BigNumber(s) == 0x100_0000 * b1 + 0x1_0000 * b2 + 0x100 * b3 + b4
  {
    var b1: int, b2: int, b3: int := s[0], s[1], s[2];
    assert s[..3][..2] == s[..2] && s[..2][..1] == s[..1] && s[..1][..0] == [];
    assert BigNumber(s[..1]) == b1;
    assert BigNumber(s[..2]) == 0x100 * b1 + b2;
    assert BigNumber(s[..3]) == 0x1_0000 * b1 + 0x100 * b2 + b3;
  }

  /**
   What the transaction in a body is decides: if the bytes are wholly one transaction, it is kept from the
   operator exactly when it is a V5 or a V6 with an Orchard bundle; anything else that is sent is kept.
   */
  lemma TransactionDecides(env: Env, headers: HeaderMap, frame: seq<Byte>, data: seq<Byte>)
    requires IsSlice(frame, env.usizeMax) && Sends(env, headers, frame, data)
    ensures
      var kept := Inspect(env, headers, frame).0.TreatAsMigration();
      match env.deserialize(data) {
        case None => kept
        case Some((tx, position)) =>
          if position != |data| then kept
          else
            match tx {
              case V1(_, _) => !kept
              case V2(_, _, _) => !kept
              case V3(_, _, _) => !kept
              case V4(_, _, _, _) => !kept
              case V5(_, _, _, None) => !kept
              case V5(_, _, _, Some(_)) => kept
              case V6(_, _, _, None, _) => !kept
              case V6(_, _, _, Some(_), _) => kept
            }
      }
  {
    VerdictExact(env, headers, frame);
    assert Inspect(env, headers, frame).1 == Some(data);
    assert Inspect(env, headers, frame).0 == Classified(C.ClassOf(env.deserialize, data));
  }

  /** The transaction bytes of a request body. */
  ghost predicate Sends(env: Env, headers: HeaderMap, frame: seq<Byte>, data: seq<Byte>) {
    exists payload :: Unwraps(headers, frame, payload) && env.decodeRaw(payload).Some? && env.decodeRaw(payload).value.data == data
  }

  /**
   A body is not treated as a migration exactly when it is cleanly unwrapped to bytes that are, all of them,
   a transaction that does not touch Orchard. The bytes reported are the unwrapped ones, or none.
   */
  lemma VerdictExact(env: Env, headers: HeaderMap, frame: seq<Byte>)
    requires IsSlice(frame, env.usizeMax)
    ensures
      var (inspection, data) := Inspect(env, headers, frame);
      && (data.Some? <==> exists d :: Sends(env, headers, frame, d))
      && (forall d :: Sends(env, headers, frame, d) <==> data == Some(d))
      && (!inspection.TreatAsMigration() <==> exists d :: Sends(env, headers, frame, d) && C.MayPass(env.deserialize, d))
  {
    var (inspection, data) := Inspect(env, headers, frame);
    forall payload | Unwraps(headers, frame, payload) ensures payload == frame[5..] {
      CarriesExact(frame, payload, env.usizeMax);
    }
    if |frame| >= 5 { InspectExact(env, headers, frame, frame[5..]); } else { InspectExact(env, headers, frame, []); }
    if data.Some? {
      assert Sends(env, headers, frame, data.value);
      C.ClassExact(env.deserialize, data.value);
    }
  }

  // ----- the hub's answer to a lookup

  function HexDigit(n: nat): char
    requires n < 16
  {
    "0123456789abcdef"[n]
  }

  function Hex(bytes: seq<Byte>): (s: string)
    ensures |s| == 2 * |bytes|
  {
    if bytes == [] then []
    else Hex(bytes[..|bytes| - 1]) + [HexDigit(bytes[|bytes| - 1] / 16), HexDigit(bytes[|bytes| - 1] % 16)]
  }

  /** Lower-case hex of the first `n` bytes. */
  method HexPrefix(bytes: seq<Byte>, n: nat) returns (out: string)
    ensures out == Hex(bytes[..if n <= |bytes| then n else |bytes|])
  {
    out := "";
    var count := if n <= |bytes| then n else |bytes|;
    for i := 0 to count
      invariant out == Hex(bytes[..i])
    {
      assert bytes[..i + 1][..i] == bytes[..i];
      out := out + [HexDigit(bytes[i] / 16), HexDigit(bytes[i] % 16)];
    }
  }

  lemma HexDigitInjective(m: nat, n: nat)
    requires m < 16 && n < 16 && HexDigit(m) == HexDigit(n)
    ensures m == n
  {
  }

  lemma HexPairInjective(x: Byte, y: Byte)
    requires HexDigit(x / 16) == HexDigit(y / 16) && HexDigit(x % 16) == HexDigit(y % 16)
    ensures x == y
  {
    HexDigitInjective(x / 16, y / 16);
    HexDigitInjective(x % 16, y % 16);
  }

  lemma HexLast(bytes: seq<Byte>)
    requires bytes != []
    ensures
      var s, last := Hex(bytes), bytes[|bytes| - 1];
      && s[..|s| - 2] == Hex(bytes[..|bytes| - 1])
      && s[|s| - 2] == HexDigit(last / 16) && s[|s| - 1] == HexDigit(last % 16)
  {
  }

  /** The digits are the characters 0 to 9 and a to f. */
  lemma HexDigitExact(n: nat)
    requires n < 16
    ensures HexDigit(n) as int == if n < 10 then 48 + n else 87 + n
  {
  }

  /** The number a hex string spells, read off its character codes. */
  function HexNumber(s: string): int {
    if s == [] then 0
    else
      var code := s[|s| - 1] as int;
      16 * HexNumber(s[..|s| - 1]) + if code < 58 then code - 48 else code - 87
  }

  /** The hex form spells the number of the bytes. */
  lemma {:induction false} HexSpells(bytes: seq<Byte>)
    ensures HexNumber(Hex(bytes)) == BigNumber(bytes)
    decreases |bytes|
  {
    if bytes != [] {
      var init, last, s := bytes[..|bytes| - 1], bytes[|bytes| - 1], Hex(bytes);
      HexSpells(init);
      HexLast(bytes);
      HexDigitExact(last / 16);
      HexDigitExact(last % 16);
      hide Hex, HexDigit;
      assert s[..|s| - 1][..|s| - 2] == s[..|s| - 2];
      assert HexNumber(s[..|s| - 1]) == 16 * BigNumber(init) + last / 16;
    }
  }

  lemma {:induction false} HexInjective(a: seq<Byte>, b: seq<Byte>)
    requires Hex(a) == Hex(b)
    ensures a == b
    decreases |a|
  {
    if a != [] {
      var x, y := a[|a| - 1], b[|b| - 1];
      HexLast(a);
      HexLast(b);
      hide Hex, HexDigit;
      HexInjective(a[..|a| - 1], b[..|b| - 1]);
      HexPairInjective(x, y);
      assert a == a[..|a| - 1] + [x] && b == b[..|b| - 1] + [y];
    }
  }

  function Lower(c: char): char {
    if 'A' <= c <= 'Z' then (c as int + 32) as char else c
  }

  /** Equal up to the case of ASCII letters. */
  predicate EqIgnoreAsciiCase(a: string, b: string) {
    |a| == |b| && forall i :: 0 <= i < |a| ==> Lower(a[i]) == Lower(b[i])
  }

  lemma {:induction false} HexIsLower(bytes: seq<Byte>, i: nat)
    requires i < 2 * |bytes|
    ensures Lower(Hex(bytes)[i]) == Hex(bytes)[i]
    decreases |bytes|
  {
    if i < 2 * |bytes| - 2 {
      HexIsLower(bytes[..|bytes| - 1], i);
    } else {
      HexDigitIsLower(bytes[|bytes| - 1] / 16);
      HexDigitIsLower(bytes[|bytes| - 1] % 16);
    }
  }

  lemma HexDigitIsLower(n: nat)
    requires n < 16
    ensures Lower(HexDigit(n)) == HexDigit(n)
  {
  }

  lemma HexIgnoresCase(a: seq<Byte>, b: seq<Byte>)
    ensures EqIgnoreAsciiCase(Hex(a), Hex(b)) <==> a == b
  {
    if EqIgnoreAsciiCase(Hex(a), Hex(b)) {
      forall i | 0 <= i < |Hex(a)| ensures Hex(a)[i] == Hex(b)[i] {
        HexIsLower(a, i);
        HexIsLower(b, i);
      }
      HexInjective(a, b);
    }
  }

  /** The display form of a transaction hash: its bytes in reverse, in hex. */
  function Display(hash: Hash): string {
    Hex(Reverse(hash))
  }

  /** The bytes start with a transaction whose hash is the query, in one byte order or the other. */
  predicate Answers(env: Env, data: seq<Byte>, query: seq<Byte>) {
    && env.deserialize(data).Some?
    && var hash := env.hash(env.deserialize(data).value.0);
       hash == query || hash == Reverse(query)
  }

  lemma ReversedAt(a: seq<Byte>, b: seq<Byte>)
    ensures a == Reverse(b) <==> |a| == |b| && forall i :: 0 <= i < |a| ==> a[i] == b[|b| - 1 - i]
  {
    forall i | 0 <= i < |b| ensures Reverse(b)[i] == b[|b| - 1 - i] { ReverseAt(b, i); }
  }

  lemma AnswersSpelled(env: Env, data: seq<Byte>, query: seq<Byte>)
    ensures Answers(env, data, query) <==>
            && env.deserialize(data).Some?
            && var hash := env.hash(env.deserialize(data).value.0);
               hash == query || (|query| == 32 && forall i :: 0 <= i < 32 ==> hash[i] == query[31 - i])
  {
    if env.deserialize(data).Some? {
      ReversedAt(env.hash(env.deserialize(data).value.0), query);
    }
  }

  lemma CaseByCase(hash: Hash, query: seq<Byte>)
    ensures EqIgnoreAsciiCase(Display(hash), Hex(query)) <==> hash == Reverse(query)
    ensures EqIgnoreAsciiCase(Display(hash), Hex(Reverse(query))) <==> hash == query
  {
    HexIgnoresCase(Reverse(hash), query);
    HexIgnoresCase(Reverse(hash), Reverse(query));
    ReverseTwice(hash);
    ReverseTwice(query);
    hide Hex, EqIgnoreAsciiCase, Reverse;
  }

  /** Whether what the hub found is what was asked for: exactly when it hashes to the query in some byte order. */
  method LookupIsForQuery(env: Env, data: seq<Byte>, query: seq<Byte>) returns (matches: bool)
    ensures matches <==> Answers(env, data, query)
    ensures matches <==>
            && env.deserialize(data).Some?
            && var hash := env.hash(env.deserialize(data).value.0);
               hash == query || (|query| == 32 && forall i :: 0 <= i < 32 ==> hash[i] == query[31 - i])
  {
    var parsed := env.deserialize(data);
    if parsed.None? {
      AnswersSpelled(env, data, query);
      return false;
    }
    var hash := env.hash(parsed.value.0);
    var txid := Display(hash);
    var direct := HexPrefix(query, |query|);
    var reversed := HexPrefix(Reverse(query), |query|);
    assert query[..|query|] == query && Reverse(query)[..|query|] == Reverse(query);
    CaseByCase(hash, query);
    AnswersSpelled(env, data, query);
    hide Hex, Reverse, EqIgnoreAsciiCase, Display;
    matches := EqIgnoreAsciiCase(txid, direct) || EqIgnoreAsciiCase(txid, reversed);
  }
}
