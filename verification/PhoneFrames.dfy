/** The sending side: how the phone writes a touch sample into a version 4 record
    or a version 5 payload, and that the host reads back just that sample. */
module PhoneFrames {
  import opened Protocol
  import opened Crc
  import opened WireRecords
  import opened TouchPayloads

  /** One finger. `x` is its place in the play area, `light` says that it has not
      pressed hard enough yet, `detail` stands for y, pressure and size. */
  datatype Touch = Touch(pointer: PointerId, inside: bool, touching: bool, light: bool, x: real, detail: seq<bv8>)

  /** `timings` stands for the five time stamps. */
  datatype Sample = Sample(
    action: Action,
    actionPointer: PointerId,
    locked: bool,
    sessionStart: bool,
    historical: bool,
    timings: seq<bv8>,
    touches: seq<Touch>)
  {
    /** What the phone sends: at most 16 fingers, told apart by their IDs. */
    ghost predicate Sendable() {
      && |timings| == 40 && |touches| <= 16
      && (forall i :: 0 <= i < |touches| ==> |touches[i].detail| == 6)
      && forall i, j :: 0 <= i < j < |touches| ==> touches[i].pointer != touches[j].pointer
    }
  }

  // ---------------------------------------------------------------- encoding

  function ActionCode(action: Action): bv8 {
    match action
    case Heartbeat => 0
    case Down => 1
    case Move => 2
    case Up => 3
    case Cancel => 4
  }

  function FrameFlags(locked: bool, sessionStart: bool, historical: bool): bv8 {
    (if locked then 1 else 0) | (if sessionStart then 2 else 0) | (if historical then 4 else 0)
  }

  function ContactFlags(inside: bool, touching: bool, suppressed: bool): bv8 {
    (if inside then 1 else 0) | (if touching then 2 else 0) | (if suppressed then 4 else 0)
  }

  /** The nearest ten-thousandth that fits 16 bits. */
  function Fixed(x: real): (n: int)
    ensures -0x8000 <= n < 0x8000
  {
    var n := (x * 10_000.0 + 0.5).Floor;
    if n < -0x8000 then -0x8000 else if n >= 0x8000 then 0x7fff else n
  }

  function FixedBytes(n: int): (bytes: seq<bv8>)
    requires -0x8000 <= n < 0x8000
    ensures |bytes| == 2
  {
    BytesOf(if n < 0 then n + 0x1_0000 else n, 2)
  }

  function EncodeTouch(t: Touch): (bytes: seq<bv8>)
    requires |t.detail| == 6
    ensures |bytes| == 10
  {
    [Digit(t.pointer), ContactFlags(t.inside, t.touching, t.touching && t.light)] + FixedBytes(Fixed(t.x)) + t.detail
  }

  function EncodeTouches(touches: seq<Touch>): (bytes: seq<bv8>)
    requires forall i :: 0 <= i < |touches| ==> |touches[i].detail| == 6
    ensures |bytes| == 10 * |touches|
  {
    if touches == [] then [] else EncodeTouches(touches[..|touches| - 1]) + EncodeTouch(touches[|touches| - 1])
  }

  /** Time stamps, action, action pointer, count, flags and the contacts. */
  function EncodeSample(s: Sample): (bytes: seq<bv8>)
    requires s.Sendable()
    ensures |bytes| == 44 + 10 * |s.touches|
  {
    s.timings
    + [ActionCode(s.action), Digit(s.actionPointer), Digit(|s.touches|), FrameFlags(s.locked, s.sessionStart, s.historical)]
    + EncodeTouches(s.touches)
  }

  /** A version 4 record without its checksum. */
  function RecordBody(sessionId: U64, sequence: U64, s: Sample): (bytes: seq<bv8>)
    requires s.Sendable()
    ensures |bytes| == 68 + 10 * |s.touches|
  {
    [0x48, 0x50, 0x54, 0x34, 4, 1] + BytesOf(72 + 10 * |s.touches|, 2) + BytesOf(sessionId, 8) + BytesOf(sequence, 8) + EncodeSample(s)
  }

  function EncodeRecord(sessionId: U64, sequence: U64, s: Sample): (bytes: seq<bv8>)
    requires s.Sendable()
    ensures |bytes| == 72 + 10 * |s.touches|
  {
    RecordBody(sessionId, sequence, s) + CrcBytes(Crc32Of(RecordBody(sessionId, sequence, s)))
  }

  // ---------------------------------------------------------------- what the host should hear

  function HeardTouch(t: Touch): Contact {
    Contact(t.pointer, t.touching, t.touching && t.light, Fixed(t.x) as real / 10_000.0)
  }

  function Heard(sessionId: U64, sequence: U64, s: Sample): TouchFrame {
    TouchFrame(sessionId, sequence, s.action, s.actionPointer, s.locked, s.sessionStart,
               seq(|s.touches|, i requires 0 <= i < |s.touches| => HeardTouch(s.touches[i])))
  }

  /** In the play area and well around it the place survives to the nearest ten-thousandth. */
  lemma PlaceSurvives(t: Touch)
    requires -3.2767 <= t.x <= 3.2767
    ensures -0.000_05 <= HeardTouch(t).x - t.x <= 0.000_05
  {
    var scaled := t.x * 10_000.0;
    assert Fixed(t.x) == (scaled + 0.5).Floor;
    assert (scaled + 0.5).Floor as real <= scaled + 0.5 < (scaled + 0.5).Floor as real + 1.0;
    assert HeardTouch(t).x * 10_000.0 == Fixed(t.x) as real;
  }

  lemma FrameFlagsRead(locked: bool, sessionStart: bool, historical: bool)
    ensures var f := FrameFlags(locked, sessionStart, historical);
      && (f & 1 != 0 <==> locked) && (f & 2 != 0 <==> sessionStart) && f & 0xf8 == 0
      && (f == 2 <==> sessionStart && !locked && !historical)
  {
  }

  lemma ContactFlagsRead(inside: bool, touching: bool, suppressed: bool)
    ensures var f := ContactFlags(inside, touching, suppressed);
      (f & 2 != 0 <==> touching) && (f & 4 != 0 <==> suppressed) && f & 0xf8 == 0
  {
  }

  lemma ActionRead(action: Action)
    ensures ActionOf(ActionCode(action)) == Some(action)
  {
  }

  lemma FixedRead(bytes: seq<bv8>, offset: nat, n: int)
    requires offset + 2 <= |bytes| && -0x8000 <= n < 0x8000 && bytes[offset..offset + 2] == FixedBytes(n)
    ensures ReadI16(bytes, offset) == n
  {
    assert Power256(2) == 0x1_0000;
    NumberOfBytes(if n < 0 then n + 0x1_0000 else n, 2);
  }

  /** A contact is read back as it was written. */
  lemma TouchRead(bytes: seq<bv8>, offset: nat, t: Touch)
    requires offset + 10 <= |bytes| && |t.detail| == 6 && bytes[offset..offset + 10] == EncodeTouch(t)
    ensures ContactFrom(bytes, offset) == HeardTouch(t)
    ensures bytes[offset] == Digit(t.pointer) && bytes[offset + 1] & 0xf8 == 0
  {
    hide ContactFlags, FixedBytes, Digit, ReadI16, Value;
    var part := bytes[offset..offset + 10];
    assert part[0] == bytes[offset] && part[1] == bytes[offset + 1];
    assert part[2] == bytes[offset + 2] && part[3] == bytes[offset + 3];
    assert part[2..4] == [part[2], part[3]] && bytes[offset + 2..offset + 4] == [bytes[offset + 2], bytes[offset + 3]];
    assert EncodeTouch(t)[2..4] == FixedBytes(Fixed(t.x));
    DigitValue(t.pointer);
    ContactFlagsRead(t.inside, t.touching, t.touching && t.light);
    FixedRead(bytes, offset + 2, Fixed(t.x));
  }

  lemma {:induction false} TouchAt(touches: seq<Touch>, i: nat)
    requires i < |touches| && forall k :: 0 <= k < |touches| ==> |touches[k].detail| == 6
    ensures EncodeTouches(touches)[10 * i..10 * i + 10] == EncodeTouch(touches[i])
  {
    hide EncodeTouch;
    var front := touches[..|touches| - 1];
    if i < |front| {
      TouchAt(front, i);
      assert EncodeTouches(touches)[10 * i..10 * i + 10] == EncodeTouches(front)[10 * i..10 * i + 10];
    }
  }

  lemma DigitsDiffer(m: nat, n: nat)
    requires m < 256 && n < 256 && m != n
    ensures Digit(m) != Digit(n)
  {
    hide Digit;
    DigitValue(m);
    DigitValue(n);
  }

  /** Where a sample starts at `start`, its fields are read back. */
  lemma SampleAt(bytes: seq<bv8>, start: nat, s: Sample)
    requires s.Sendable() && start + 44 + 10 * |s.touches| <= |bytes|
    requires bytes[start..start + 44 + 10 * |s.touches|] == EncodeSample(s)
    ensures bytes[start + 40] == ActionCode(s.action) && bytes[start + 41] == Digit(s.actionPointer)
    ensures bytes[start + 42] == Digit(|s.touches|)
    ensures bytes[start + 43] == FrameFlags(s.locked, s.sessionStart, s.historical)
    ensures forall i :: 0 <= i < |s.touches| ==>
      bytes[start + 44 + 10 * i..start + 54 + 10 * i] == EncodeTouch(s.touches[i])
  {
    hide ActionCode, Digit, FrameFlags, EncodeTouch, EncodeTouches;
    var part := bytes[start..start + 44 + 10 * |s.touches|];
    assert forall k :: 0 <= k < |part| ==> part[k] == bytes[start + k];
    var fixed := [ActionCode(s.action), Digit(s.actionPointer), Digit(|s.touches|), FrameFlags(s.locked, s.sessionStart, s.historical)];
    assert part == s.timings + fixed + EncodeTouches(s.touches) && |s.timings + fixed| == 44;
    assert part[40] == ActionCode(s.action) && part[41] == Digit(s.actionPointer) && part[42] == Digit(|s.touches|);
    assert part[43] == FrameFlags(s.locked, s.sessionStart, s.historical);
    assert part[44..] == EncodeTouches(s.touches);
    forall i | 0 <= i < |s.touches|
      ensures bytes[start + 44 + 10 * i..start + 54 + 10 * i] == EncodeTouch(s.touches[i])
    {
      TouchAt(s.touches, i);
      assert part[44 + 10 * i..54 + 10 * i] == part[44..][10 * i..10 * i + 10];
      assert part[44 + 10 * i..54 + 10 * i] == bytes[start + 44 + 10 * i..start + 54 + 10 * i];
    }
  }

  /** Frame 0 announces the session, and only frame 0. */
  predicate Announces(sequence: U64, s: Sample) {
    if sequence == 0 then s.action == Cancel && s.sessionStart && !s.locked && !s.historical && s.touches == []
    else !s.sessionStart
  }

  lemma PayloadRead(header: RecordHeader, s: Sample)
    requires s.Sendable() && header.fromPhone && header.messageType == 1 && header.sessionId != 0 && header.flags == 0
    requires Announces(header.logicalId, s)
    ensures var payload := EncodeSample(s);
      && PayloadAcceptable(header, payload) && PayloadCount(payload) == |s.touches|
      && (forall i :: 0 <= i < |s.touches| ==> ContactFrom(payload, PayloadOffset(i)) == HeardTouch(s.touches[i]))
      && PayloadFrame(header, payload, Heard(header.sessionId, header.logicalId, s).contacts)
         == Heard(header.sessionId, header.logicalId, s)
  {
    hide EncodeSample, ContactFrom, EncodeTouch, Digit, Value, ActionCode, ActionOf, FrameFlags;
    var payload := EncodeSample(s);
    assert payload[0..0 + 44 + 10 * |s.touches|] == payload;
    SampleAt(payload, 0, s);
    DigitValue(|s.touches|);
    DigitValue(s.actionPointer);
    ActionRead(s.action);
    FrameFlagsRead(s.locked, s.sessionStart, s.historical);
    forall i | 0 <= i < |s.touches|
      ensures ContactFrom(payload, PayloadOffset(i)) == HeardTouch(s.touches[i]) && ContactClean(payload, i)
    {
      TouchRead(payload, 44 + 10 * i, s.touches[i]);
      forall j: nat | j < i ensures payload[PayloadOffset(j)] != payload[PayloadOffset(i)] {
        TouchRead(payload, 44 + 10 * j, s.touches[j]);
        DigitsDiffer(s.touches[j].pointer, s.touches[i].pointer);
      }
    }
  }

  /** The host hears, from a version 5 payload, exactly what the phone sent. */
  method HearPayload(header: RecordHeader, s: Sample) returns (r: Payload)
    requires s.Sendable() && header.fromPhone && header.messageType == 1 && header.sessionId != 0 && header.flags == 0
    requires Announces(header.logicalId, s)
    ensures r == Taken(Heard(header.sessionId, header.logicalId, s))
  {
    hide EncodeSample, ContactFrom, PayloadFrame;
    PayloadRead(header, s);
    r := DecodeTouchPayload(header, EncodeSample(s));
    assert r.frame.contacts == Heard(header.sessionId, header.logicalId, s).contacts;
  }

  lemma HeaderAt(sessionId: U64, sequence: U64, s: Sample)
    requires s.Sendable()
    ensures var bytes := EncodeRecord(sessionId, sequence, s);
      && bytes[..4] == [0x48, 0x50, 0x54, 0x34] && bytes[4] == 4 && bytes[5] == 1
      && ReadU16(bytes, 6) == |bytes| && ReadU64(bytes, 8) == sessionId && ReadU64(bytes, 16) == sequence
      && bytes[24..24 + 44 + 10 * |s.touches|] == EncodeSample(s)
  {
    hide EncodeSample, BytesOf, CrcBytes, Crc32Of, Number;
    var bytes, size := EncodeRecord(sessionId, sequence, s), 72 + 10 * |s.touches|;
    assert bytes[6..8] == BytesOf(size, 2) && bytes[8..16] == BytesOf(sessionId, 8) && bytes[16..24] == BytesOf(sequence, 8);
    assert Power256(8) == U64_LIMIT && Power256(2) == 0x1_0000;
    NumberOfBytes(size, 2);
    NumberOfBytes(sessionId, 8);
    NumberOfBytes(sequence, 8);
  }

  lemma RecordSealed(sessionId: U64, sequence: U64, s: Sample)
    requires s.Sendable()
    ensures Sealed(EncodeRecord(sessionId, sequence, s))
  {
    hide RecordBody, CrcBytes, Crc32Of, Little;
    var body, bytes := RecordBody(sessionId, sequence, s), EncodeRecord(sessionId, sequence, s);
    assert bytes[..|bytes| - 4] == body && bytes[|bytes| - 4..] == CrcBytes(Crc32Of(body));
    CrcBytesLittle(Crc32Of(body));
  }

  lemma RecordRead(sessionId: U64, sequence: U64, s: Sample)
    requires s.Sendable()
    ensures var bytes := EncodeRecord(sessionId, sequence, s);
      && Acceptable(bytes) && CountOf(bytes) == |s.touches|
      && (forall i :: 0 <= i < |s.touches| ==> ContactFrom(bytes, ContactOffset(i)) == HeardTouch(s.touches[i]))
      && FrameOf(bytes, Heard(sessionId, sequence, s).contacts) == Heard(sessionId, sequence, s)
  {
    hide EncodeRecord, EncodeSample, ContactFrom, EncodeTouch, Digit, Value, ActionCode, ActionOf, FrameFlags, Sealed, ReadU16, ReadU64;
    var bytes := EncodeRecord(sessionId, sequence, s);
    HeaderAt(sessionId, sequence, s);
    RecordSealed(sessionId, sequence, s);
    SampleAt(bytes, 24, s);
    DigitValue(|s.touches|);
    DigitValue(s.actionPointer);
    ActionRead(s.action);
    FrameFlagsRead(s.locked, s.sessionStart, s.historical);
    forall i | 0 <= i < |s.touches|
      ensures ContactFrom(bytes, ContactOffset(i)) == HeardTouch(s.touches[i])
      ensures forall j: nat :: j < i ==> !Repeats(bytes, j, i)
    {
      TouchRead(bytes, 68 + 10 * i, s.touches[i]);
      forall j: nat | j < i ensures !Repeats(bytes, j, i) {
        TouchRead(bytes, 68 + 10 * j, s.touches[j]);
        DigitsDiffer(s.touches[j].pointer, s.touches[i].pointer);
      }
    }
  }

  /** The host hears, from a version 4 record, exactly what the phone sent. */
  method HearRecord(sessionId: U64, sequence: U64, s: Sample) returns (r: Decoding)
    requires s.Sendable()
    ensures r == Ok(Heard(sessionId, sequence, s))
  {
    hide EncodeRecord, ContactFrom, FrameOf, Refusal;
    RecordRead(sessionId, sequence, s);
    r := DecodeFrame(EncodeRecord(sessionId, sequence, s));
    assert r.frame.contacts == Heard(sessionId, sequence, s).contacts;
  }
}
