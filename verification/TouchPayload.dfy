/** The touch payload of an authenticated version 5 record, and the session-start
    rule the gameplay session relies on. */
module TouchPayloads {
  import opened Protocol
  import opened WireRecords

  const PHONE_TOUCH: bv8 := 1
  const PAYLOAD_HEADER_SIZE := 44

  datatype RecordHeader = RecordHeader(fromPhone: bool, messageType: bv8, sessionId: U64, logicalId: U64, flags: nat)

  datatype PayloadError =
    | BadMessage | BadTouchAction | BadCount | ReservedBits | DuplicatePointer(id: bv8) | BadSessionStart

  datatype Payload = Taken(frame: TouchFrame) | Refused(error: PayloadError)

  function PayloadOffset(i: nat): nat {
    PAYLOAD_HEADER_SIZE + i * CONTACT_SIZE
  }

  function PayloadCount(payload: seq<bv8>): nat
    requires |payload| >= PAYLOAD_HEADER_SIZE
  {
    Value(payload[42])
  }

  /** The checks before the contacts, in order. */
  function HeaderRefusal(header: RecordHeader, payload: seq<bv8>): Option<PayloadError> {
    if !header.fromPhone || header.messageType != PHONE_TOUCH || header.sessionId == 0 || header.flags != 0
       || |payload| < PAYLOAD_HEADER_SIZE
    then Some(BadMessage)
    else if ActionOf(payload[40]).None? then Some(BadTouchAction)
    else if PayloadCount(payload) > MAX_CONTACTS || |payload| != PayloadOffset(PayloadCount(payload)) then Some(BadCount)
    else if payload[43] & 0xf8 != 0 then Some(ReservedBits)
    else None
  }

  /** Only flags that mean something, and a pointer not seen before. */
  ghost predicate ContactClean(payload: seq<bv8>, i: nat)
    requires PayloadOffset(i) + CONTACT_SIZE <= |payload|
  {
    && payload[PayloadOffset(i) + 1] & 0xf8 == 0
    && forall j: nat :: j < i ==> payload[PayloadOffset(j)] != payload[PayloadOffset(i)]
  }

  /** Contact `i` is the first one at fault: a repeated pointer is found before a
      reserved flag. */
  ghost predicate FirstFault(payload: seq<bv8>, i: nat, error: PayloadError)
    requires PayloadOffset(i) + CONTACT_SIZE <= |payload|
  {
    && (forall k :: 0 <= k < i ==> ContactClean(payload, k))
    && error == (if PointerRepeats(payload, i) then DuplicatePointer(payload[PayloadOffset(i)]) else ReservedBits)
    && (PointerRepeats(payload, i) || payload[PayloadOffset(i) + 1] & 0xf8 != 0)
  }

  ghost predicate PointerRepeats(payload: seq<bv8>, i: nat)
    requires PayloadOffset(i) + CONTACT_SIZE <= |payload|
  {
    exists j :: 0 <= j < i && payload[PayloadOffset(j)] == payload[PayloadOffset(i)]
  }

  /** Frame 0 is a bare session-start cancel; no other frame starts a session. */
  predicate SessionStartRule(header: RecordHeader, payload: seq<bv8>)
    requires |payload| >= PAYLOAD_HEADER_SIZE
  {
    if header.logicalId == 0
    then ActionOf(payload[40]) == Some(Cancel) && payload[43] == 2 && PayloadCount(payload) == 0
    else payload[43] & 2 == 0
  }

  /** The frame behind the payload's fields. */
  function PayloadFrame(header: RecordHeader, payload: seq<bv8>, contacts: seq<Contact>): TouchFrame
    requires |payload| >= PAYLOAD_HEADER_SIZE && ActionOf(payload[40]).Some?
  {
    TouchFrame(header.sessionId, header.logicalId, ActionOf(payload[40]).value, Value(payload[41]),
               payload[43] & 1 != 0, payload[43] & 2 != 0, contacts)
  }

  ghost predicate PayloadAcceptable(header: RecordHeader, payload: seq<bv8>) {
    && HeaderRefusal(header, payload).None?
    && (forall i :: 0 <= i < PayloadCount(payload) ==> ContactClean(payload, i))
    && SessionStartRule(header, payload)
  }

  /** The layout and the checks, written out; frame 0 must be the bare session start. */
  lemma PayloadAcceptableMeans(header: RecordHeader, payload: seq<bv8>)
    ensures PayloadAcceptable(header, payload) <==>
      && header.fromPhone && header.messageType == 1 && header.sessionId != 0 && header.flags == 0
      && |payload| >= 44 && Value(payload[40]) <= 4 && Value(payload[42]) <= 16 && |payload| == 44 + 10 * Value(payload[42])
      && payload[43] & 0xf8 == 0
      && (forall i :: 0 <= i < Value(payload[42]) ==> ContactClean(payload, i))
      && (if header.logicalId == 0 then Value(payload[40]) == 4 && payload[43] == 2 && Value(payload[42]) == 0
          else payload[43] & 2 == 0)
  {
    if |payload| >= 44 {
      ActionKnown(payload[40]);
      CancelCode(payload[40]);
    }
  }

  lemma CancelCode(code: bv8)
    ensures ActionOf(code) == Some(Cancel) <==> Value(code) == 4
  {
  }

  /** Which check a refusal before the contacts names: the first in this order. */
  lemma HeaderRefusalOrder(header: RecordHeader, payload: seq<bv8>)
    ensures HeaderRefusal(header, payload) == Some(BadMessage) <==> !Addressed(header, payload)
    ensures HeaderRefusal(header, payload) == Some(BadTouchAction) <==> Addressed(header, payload) && Value(payload[40]) > 4
    ensures HeaderRefusal(header, payload) == Some(BadCount) <==>
      Addressed(header, payload) && Value(payload[40]) <= 4
      && (Value(payload[42]) > 16 || |payload| != 44 + 10 * Value(payload[42]))
    ensures HeaderRefusal(header, payload) == Some(ReservedBits) <==>
      Addressed(header, payload) && Value(payload[40]) <= 4
      && Value(payload[42]) <= 16 && |payload| == 44 + 10 * Value(payload[42]) && payload[43] & 0xf8 != 0
  {
    if |payload| >= 44 {
      ActionKnown(payload[40]);
    }
  }

  /** A touch message of a session, long enough to be read. */
  predicate Addressed(header: RecordHeader, payload: seq<bv8>) {
    header.fromPhone && header.messageType == 1 && header.sessionId != 0 && header.flags == 0 && |payload| >= 44
  }

  /** Takes exactly the acceptable payloads. What it hands out is a frame of the
      record's session and number with at most 16 distinct pointers, and it starts
      a session exactly if its number is 0 - then it is a bare, releasing cancel. */
  method DecodeTouchPayload(header: RecordHeader, payload: seq<bv8>) returns (r: Payload)
    ensures r.Taken? <==> PayloadAcceptable(header, payload)
    ensures r.Taken? ==> r.frame.Decoded() && |r.frame.contacts| == PayloadCount(payload)
    ensures r.Taken? ==> forall i :: 0 <= i < PayloadCount(payload) ==> r.frame.contacts[i] == ContactFrom(payload, PayloadOffset(i))
    ensures r.Taken? ==> r.frame == PayloadFrame(header, payload, r.frame.contacts)
    ensures r.Taken? ==> r.frame.sessionId == header.sessionId && r.frame.sequence == header.logicalId
    ensures r.Taken? ==> (r.frame.sessionStart <==> r.frame.sequence == 0)
    ensures r.Taken? && r.frame.sequence == 0 ==> r.frame.action == Cancel && r.frame.contacts == [] && !r.frame.locked
    ensures r.Refused? && HeaderRefusal(header, payload).Some? ==> r.error == HeaderRefusal(header, payload).value
    ensures r.Refused? && HeaderRefusal(header, payload).None? ==>
      if r.error.BadSessionStart?
      then !SessionStartRule(header, payload) && forall i :: 0 <= i < PayloadCount(payload) ==> ContactClean(payload, i)
      else exists i :: 0 <= i < PayloadCount(payload) && FirstFault(payload, i, r.error)
  {
    hide ContactFrom, Value;
    var refusal := HeaderRefusal(header, payload);
    if refusal.Some? {
      return Refused(refusal.value);
    }
    var error, contacts := ReadContacts(header, payload);
    if error.Some? {
      return Refused(error.value);
    }
    if !SessionStartRule(header, payload) {
      return Refused(BadSessionStart);
    }
    StartFlag(payload[43]);
    r := Taken(PayloadFrame(header, payload, contacts));
  }

  lemma StartFlag(flags: bv8)
    ensures flags == 2 ==> flags & 1 == 0 && flags & 2 != 0
  {
  }

  method ReadContacts(header: RecordHeader, payload: seq<bv8>) returns (error: Option<PayloadError>, contacts: seq<Contact>)
    requires HeaderRefusal(header, payload).None?
    ensures error.None? <==> forall i :: 0 <= i < PayloadCount(payload) ==> ContactClean(payload, i)
    ensures error.Some? ==> exists i :: 0 <= i < PayloadCount(payload) && FirstFault(payload, i, error.value)
    ensures error.None? ==> |contacts| == PayloadCount(payload) && DistinctPointers(contacts)
    ensures error.None? ==> forall i :: 0 <= i < |contacts| ==> contacts[i] == ContactFrom(payload, PayloadOffset(i))
  {
    hide ContactFrom, Value;
    contacts := [];
    var seen := new bool[POINTER_ID_COUNT](_ => false);
    for index := 0 to PayloadCount(payload)
      invariant |contacts| == index && DistinctPointers(contacts)
      invariant forall i :: 0 <= i < index ==> contacts[i] == ContactFrom(payload, PayloadOffset(i))
      invariant forall id: PointerId :: seen[id] <==> exists i :: 0 <= i < index && Value(payload[PayloadOffset(i)]) == id
      invariant forall i :: 0 <= i < index ==> ContactClean(payload, i)
    {
      var id := payload[PayloadOffset(index)];
      if seen[Value(id)] {
        ghost var i :| 0 <= i < index && Value(payload[PayloadOffset(i)]) == Value(id);
        ValueInjective(payload[PayloadOffset(i)], id);
        assert PointerRepeats(payload, index) && !ContactClean(payload, index);
        assert FirstFault(payload, index, DuplicatePointer(id));
        return Some(DuplicatePointer(id)), contacts;
      }
      if payload[PayloadOffset(index) + 1] & 0xf8 != 0 {
        assert !ContactClean(payload, index);
        assert FirstFault(payload, index, ReservedBits);
        return Some(ReservedBits), contacts;
      }
      seen[Value(id)] := true;
      contacts := contacts + [ContactFrom(payload, PayloadOffset(index))];
    }
    error := None;
  }
}
