/** Touch-frame and discovery records: what the decoders accept, and that they
    accept nothing altered. */
module WireRecords {
  import opened Protocol
  import opened Crc

  const FRAME_MAGIC: seq<bv8> := [0x48, 0x50, 0x54, 0x34]
  const DISCOVERY_MAGIC: seq<bv8> := [0x48, 0x50, 0x54, 0x44]
  const PROTOCOL_VERSION: bv8 := 4
  const DISCOVERY_VERSION: bv8 := 1
  const MESSAGE_TOUCH_FRAME: bv8 := 1
  const FRAME_HEADER_SIZE := 68
  const CONTACT_SIZE := 10
  const CRC_SIZE := 4
  const MAX_FRAME_SIZE := FRAME_HEADER_SIZE + MAX_CONTACTS * CONTACT_SIZE + CRC_SIZE
  const DISCOVERY_SIZE := 32

  datatype WireError =
    | BadLength | BadMagic | BadVersion | BadMessageType | BadAction | BadCrc | BadContactCount
    | DuplicatePointerId(id: bv8)

  datatype Decoding = Ok(frame: TouchFrame) | Err(error: WireError)

  // ---------------------------------------------------------------- little-endian numbers

  function Power256(n: nat): nat {
    if n == 0 then 1 else 256 * Power256(n - 1)
  }

  function Value(b: bv8): (n: nat)
    ensures n < 256
  {
    b as nat
  }

  /** The byte of value `n`. */
  function Digit(n: nat): bv8
    requires n < 256
  {
    if n == 0 then 0 else Digit(n - 1) + 1
  }

  lemma ValueStep(b: bv8)
    requires Value(b) < 255
    ensures Value(b + 1) == Value(b) + 1
  {
  }

  lemma {:induction false} DigitValue(n: nat)
    requires n < 256
    ensures Value(Digit(n)) == n
  {
    hide Value;
    ValueZero();
    if n > 0 {
      DigitValue(n - 1);
      ValueStep(Digit(n - 1));
    }
  }

  lemma ValueZero()
    ensures Value(0) == 0
  {
  }

  lemma ValueInjective(a: bv8, b: bv8)
    requires Value(a) == Value(b)
    ensures a == b
  {
  }

  function Number(bytes: seq<bv8>): nat {
    if bytes == [] then 0 else Value(bytes[0]) + 256 * Number(bytes[1..])
  }

  function BytesOf(n: nat, width: nat): (bytes: seq<bv8>)
    ensures |bytes| == width
  {
    if width == 0 then [] else [Digit(n % 256)] + BytesOf(n / 256, width - 1)
  }

  lemma {:induction false} NumberBound(bytes: seq<bv8>)
    ensures Number(bytes) < Power256(|bytes|)
  {
    hide Value;
    if bytes != [] {
      NumberBound(bytes[1..]);
    }
  }

  lemma {:induction false} NumberOfBytes(n: nat, width: nat)
    requires n < Power256(width)
    ensures Number(BytesOf(n, width)) == n
  {
    hide Value, Digit;
    if width > 0 {
      DigitValue(n % 256);
      NumberOfBytes(n / 256, width - 1);
      assert BytesOf(n, width)[1..] == BytesOf(n / 256, width - 1);
    }
  }

  /** Byte `i` is the digit of weight 256 to the `i`: numbers are little-endian. */
  lemma {:induction false} NumberDigit(bytes: seq<bv8>, i: nat)
    requires i < |bytes|
    ensures Power256(i) > 0 && Number(bytes) / Power256(i) % 256 == Value(bytes[i])
  {
    hide Value;
    PowerPositive(i);
    if i > 0 {
      NumberDigit(bytes[1..], i - 1);
      DivideTwice(Value(bytes[0]), Number(bytes[1..]), Power256(i - 1));
    }
  }

  lemma {:induction false} PowerPositive(n: nat)
    ensures Power256(n) > 0
  {
    if n > 0 {
      PowerPositive(n - 1);
    }
  }

  lemma DivideTwice(digit: nat, n: nat, p: nat)
    requires digit < 256 && p > 0
    ensures (digit + 256 * n) / (256 * p) == n / p
  {
    var q, r := n / p, n % p;
    assert n == q * p + r;
    assert digit + 256 * n == q * (256 * p) + (digit + 256 * r) by {
      assert q * (256 * p) == 256 * (q * p);
    }
    assert 0 <= digit + 256 * r < 256 * p;
    DivideUnique(digit + 256 * n, 256 * p, q, digit + 256 * r);
  }

  lemma DivideUnique(a: nat, b: nat, q: nat, r: nat)
    requires b > 0 && a == q * b + r && r < b
    ensures a / b == q
  {
    var k := a / b - q;
    assert k * b == (a / b) * b - q * b;
    assert 0 < k * b + b && k * b < b;
    MultipleFar(k, b);
  }

  lemma MultipleFar(k: int, b: nat)
    ensures k >= 1 ==> k * b >= b
    ensures k <= -1 ==> k * b + b <= 0
  {
    if k >= 1 {
      assert k * b == (k - 1) * b + b;
    } else if k <= -1 {
      assert k * b + b == (k + 1) * b;
    }
  }

  function ReadU16(bytes: seq<bv8>, offset: nat): (n: nat)
    requires offset + 2 <= |bytes|
    ensures n < 0x1_0000
  {
    NumberBound(bytes[offset..offset + 2]);
    Number(bytes[offset..offset + 2])
  }

  function ReadI16(bytes: seq<bv8>, offset: nat): int
    requires offset + 2 <= |bytes|
  {
    var n := ReadU16(bytes, offset);
    if n < 0x8000 then n else n - 0x1_0000
  }

  function ReadU64(bytes: seq<bv8>, offset: nat): U64
    requires offset + 8 <= |bytes|
  {
    NumberBound(bytes[offset..offset + 8]);
    assert Power256(8) == U64_LIMIT;
    Number(bytes[offset..offset + 8])
  }

  // ---------------------------------------------------------------- touch frames

  function ActionOf(code: bv8): Option<Action> {
    if code == 0 then Some(Heartbeat)
    else if code == 1 then Some(Down)
    else if code == 2 then Some(Move)
    else if code == 3 then Some(Up)
    else if code == 4 then Some(Cancel)
    else None
  }

  function CountOf(bytes: seq<bv8>): nat
    requires |bytes| >= FRAME_HEADER_SIZE
  {
    Value(bytes[66])
  }

  /** Where contact `i` starts. */
  function ContactOffset(i: nat): nat {
    FRAME_HEADER_SIZE + i * CONTACT_SIZE
  }

  /** The checks before the contacts are read, in order. */
  function Refusal(bytes: seq<bv8>): Option<WireError> {
    if |bytes| < FRAME_HEADER_SIZE + CRC_SIZE then Some(BadLength)
    else if bytes[..4] != FRAME_MAGIC then Some(BadMagic)
    else if ReadU16(bytes, 6) != |bytes| || |bytes| > MAX_FRAME_SIZE then Some(BadLength)
    else if bytes[4] != PROTOCOL_VERSION then Some(BadVersion)
    else if bytes[5] != MESSAGE_TOUCH_FRAME then Some(BadMessageType)
    else if ActionOf(bytes[64]).None? then Some(BadAction)
    else if !Sealed(bytes) then Some(BadCrc)
    else if CountOf(bytes) > MAX_CONTACTS then Some(BadContactCount)
    else if |bytes| != ContactOffset(CountOf(bytes)) + CRC_SIZE then Some(BadLength)
    else None
  }

  /** The ten bytes of a contact. */
  function ContactFrom(bytes: seq<bv8>, offset: nat): (c: Contact)
    requires offset + CONTACT_SIZE <= |bytes|
    ensures c.pointerId == Value(bytes[offset])
  {
    Contact(Value(bytes[offset]), bytes[offset + 1] & 2 != 0, bytes[offset + 1] & 4 != 0,
            ReadI16(bytes, offset + 2) as real / 10_000.0)
  }

  function FrameOf(bytes: seq<bv8>, contacts: seq<Contact>): TouchFrame
    requires |bytes| >= FRAME_HEADER_SIZE && ActionOf(bytes[64]).Some?
  {
    TouchFrame(ReadU64(bytes, 8), ReadU64(bytes, 16), ActionOf(bytes[64]).value, Value(bytes[65]),
               bytes[67] & 1 != 0, bytes[67] & 2 != 0, contacts)
  }

  ghost predicate Repeats(bytes: seq<bv8>, i: nat, j: nat)
    requires i < j && ContactOffset(j) + CONTACT_SIZE <= |bytes|
  {
    bytes[ContactOffset(i)] == bytes[ContactOffset(j)]
  }

  /** Every check passes and no pointer ID occurs twice. */
  ghost predicate Acceptable(bytes: seq<bv8>) {
    Refusal(bytes).None? && forall i: nat, j: nat :: i < j < CountOf(bytes) ==> !Repeats(bytes, i, j)
  }

  /** The layout and the checks, written out. */
  lemma AcceptableMeans(bytes: seq<bv8>)
    ensures Acceptable(bytes) <==>
      && 72 <= |bytes| <= 232 && bytes[..4] == [0x48, 0x50, 0x54, 0x34] && bytes[4] == 4 && bytes[5] == 1
      && Number(bytes[6..8]) == |bytes| && Value(bytes[64]) <= 4 && Sealed(bytes)
      && Value(bytes[66]) <= 16 && |bytes| == 72 + 10 * Value(bytes[66])
      && forall i: nat, j: nat :: i < j < Value(bytes[66]) ==> !Repeats(bytes, i, j)
  {
    hide Sealed, Number;
    if |bytes| >= 72 {
      ActionKnown(bytes[64]);
    }
  }

  lemma ActionKnown(code: bv8)
    ensures ActionOf(code).Some? <==> Value(code) <= 4
  {
  }

  /** Which check a refusal names: the first in this order. */
  lemma RefusalOrder(bytes: seq<bv8>)
    ensures Refusal(bytes) == Some(BadMagic) <==> |bytes| >= 72 && bytes[..4] != [0x48, 0x50, 0x54, 0x34]
    ensures Refusal(bytes) == Some(BadVersion) <==> Framed(bytes) && bytes[4] != 4
    ensures Refusal(bytes) == Some(BadMessageType) <==> Framed(bytes) && bytes[4] == 4 && bytes[5] != 1
    ensures Refusal(bytes) == Some(BadAction) <==> Framed(bytes) && bytes[4] == 4 && bytes[5] == 1 && Value(bytes[64]) > 4
    ensures Refusal(bytes) == Some(BadCrc) <==>
      Framed(bytes) && bytes[4] == 4 && bytes[5] == 1 && Value(bytes[64]) <= 4 && !Sealed(bytes)
    ensures Refusal(bytes) == Some(BadContactCount) <==>
      Framed(bytes) && bytes[4] == 4 && bytes[5] == 1 && Value(bytes[64]) <= 4 && Sealed(bytes) && Value(bytes[66]) > 16
  {
    hide Sealed, Number;
    if |bytes| >= 72 {
      ActionKnown(bytes[64]);
    }
  }

  /** The magic is there and the declared length is the length. */
  predicate Framed(bytes: seq<bv8>) {
    72 <= |bytes| <= 232 && bytes[..4] == [0x48, 0x50, 0x54, 0x34] && Number(bytes[6..8]) == |bytes|
  }

  /** One snapshot per record: the decoder takes exactly the acceptable records,
      and what it hands out has at most 16 contacts with distinct pointers. */
  method DecodeFrame(bytes: seq<bv8>) returns (r: Decoding)
    ensures r.Ok? <==> Acceptable(bytes)
    ensures r.Ok? ==> r.frame.Decoded() && |r.frame.contacts| == CountOf(bytes) && r.frame == FrameOf(bytes, r.frame.contacts)
    ensures r.Ok? ==> forall i :: 0 <= i < CountOf(bytes) ==> r.frame.contacts[i] == ContactFrom(bytes, ContactOffset(i))
    ensures r.Err? && Refusal(bytes).Some? ==> r.error == Refusal(bytes).value
    ensures r.Err? && Refusal(bytes).None? ==>
      exists i: nat, j: nat :: i < j < CountOf(bytes) && Repeats(bytes, i, j) && r.error == DuplicatePointerId(bytes[ContactOffset(j)])
  {
    hide Sealed, ContactFrom, ReadU16, ReadU64, Value;
    var refusal := Refusal(bytes);
    if refusal.Some? {
      return Err(refusal.value);
    }
    var contacts: seq<Contact> := [];
    var seen := new bool[POINTER_ID_COUNT](_ => false);
    for index := 0 to CountOf(bytes)
      invariant |contacts| == index
      invariant forall i :: 0 <= i < index ==> contacts[i] == ContactFrom(bytes, ContactOffset(i))
      invariant forall id: PointerId :: seen[id] <==> exists i :: 0 <= i < index && Value(bytes[ContactOffset(i)]) == id
      invariant DistinctPointers(contacts)
    {
      var id := bytes[ContactOffset(index)];
      if seen[Value(id)] {
        ghost var i :| 0 <= i < index && Value(bytes[ContactOffset(i)]) == Value(id);
        ValueInjective(bytes[ContactOffset(i)], id);
        assert Repeats(bytes, i, index);
        return Err(DuplicatePointerId(id));
      }
      seen[Value(id)] := true;
      contacts := contacts + [ContactFrom(bytes, ContactOffset(index))];
    }
    assert forall i: nat, j: nat :: i < j < |contacts| && Repeats(bytes, i, j) ==> contacts[i].pointerId == contacts[j].pointerId;
    r := Ok(FrameOf(bytes, contacts));
  }

  /** An accepted frame changed within any four consecutive bytes is rejected. */
  lemma AlteredFrameRejected(before: seq<bv8>, a: seq<bv8>, b: seq<bv8>, rest: seq<bv8>)
    requires |a| == |b| <= 4 && a != b && Acceptable(before + a + rest)
    ensures !Acceptable(before + b + rest)
  {
    hide Sealed;
    BurstBreaksSeal(before, a, b, rest);
  }

  lemma AlteredByteRejected(bytes: seq<bv8>, k: nat, value: bv8)
    requires k < |bytes| && value != bytes[k] && Acceptable(bytes)
    ensures !Acceptable(bytes[k := value])
  {
    hide Acceptable;
    assert bytes == bytes[..k] + [bytes[k]] + bytes[k + 1..];
    assert bytes[k := value] == bytes[..k] + [value] + bytes[k + 1..];
    AlteredFrameRejected(bytes[..k], [bytes[k]], [value], bytes[k + 1..]);
  }

  // ---------------------------------------------------------------- discovery

  datatype Discovery = Discovery(kind: bv8, nonce: U64, sessionId: U64, port: nat)

  function DecodeDiscovery(bytes: seq<bv8>): Option<Discovery> {
    if |bytes| != DISCOVERY_SIZE || bytes[..4] != DISCOVERY_MAGIC || bytes[4] != DISCOVERY_VERSION
       || (bytes[5] != 1 && bytes[5] != 2) || !Sealed(bytes)
    then None
    else Some(Discovery(bytes[5], ReadU64(bytes, 8), ReadU64(bytes, 16), ReadU16(bytes, 24)))
  }

  function DiscoveryBody(d: Discovery): (bytes: seq<bv8>)
    ensures |bytes| == DISCOVERY_SIZE - CRC_SIZE
  {
    DISCOVERY_MAGIC + [DISCOVERY_VERSION, d.kind, 0, 0] + BytesOf(d.nonce, 8) + BytesOf(d.sessionId, 8) + BytesOf(d.port, 2) + [0, 0]
  }

  function EncodeDiscovery(d: Discovery): (bytes: seq<bv8>)
    ensures |bytes| == DISCOVERY_SIZE
  {
    DiscoveryBody(d) + CrcBytes(Crc32Of(DiscoveryBody(d)))
  }

  /** The receiver reads back exactly what was announced. */
  lemma DiscoveryRoundTrip(d: Discovery)
    requires (d.kind == 1 || d.kind == 2) && d.port < 0x1_0000
    ensures DecodeDiscovery(EncodeDiscovery(d)) == Some(d)
  {
    hide Crc32Of, BytesOf, Number, CrcBytes, Little;
    var bytes := EncodeDiscovery(d);
    var body := DiscoveryBody(d);
    assert bytes[..28] == body && bytes[28..] == CrcBytes(Crc32Of(body));
    CrcBytesLittle(Crc32Of(body));
    assert bytes[..4] == DISCOVERY_MAGIC && bytes[4] == DISCOVERY_VERSION && bytes[5] == d.kind;
    assert bytes[8..16] == BytesOf(d.nonce, 8) && bytes[16..24] == BytesOf(d.sessionId, 8) && bytes[24..26] == BytesOf(d.port, 2);
    assert Power256(8) == U64_LIMIT && Power256(2) == 0x1_0000;
    NumberOfBytes(d.nonce, 8);
    NumberOfBytes(d.sessionId, 8);
    NumberOfBytes(d.port, 2);
  }

  /** The layout, written out. */
  lemma DiscoveryMeans(bytes: seq<bv8>)
    ensures DecodeDiscovery(bytes).Some? <==>
      && |bytes| == 32 && bytes[..4] == [0x48, 0x50, 0x54, 0x44] && bytes[4] == 1 && (bytes[5] == 1 || bytes[5] == 2)
      && Sealed(bytes)
    ensures DecodeDiscovery(bytes).Some? ==>
      DecodeDiscovery(bytes) == Some(Discovery(bytes[5], Number(bytes[8..16]), Number(bytes[16..24]), Number(bytes[24..26])))
  {
    hide Sealed, Number;
  }

  lemma AlteredDiscoveryRejected(before: seq<bv8>, a: seq<bv8>, b: seq<bv8>, rest: seq<bv8>)
    requires |a| == |b| <= 4 && a != b && DecodeDiscovery(before + a + rest).Some?
    ensures DecodeDiscovery(before + b + rest).None?
  {
    hide Sealed;
    BurstBreaksSeal(before, a, b, rest);
  }
}
