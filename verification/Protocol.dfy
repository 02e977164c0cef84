/** Touch frames as the wire decoders hand them to the host.

    Only the fields that decide what happens to a key are kept: timing fields,
    pressure and the Y coordinate feed diagnostics alone. */
module Protocol {

  datatype Option<+T> = None | Some(value: T)

  const MAX_CONTACTS := 16
  const MAX_REORDERED_FRAMES := 256
  const POINTER_ID_COUNT := 256
  const U64_LIMIT := 0x1_0000_0000_0000_0000

  type PointerId = n: nat | n < POINTER_ID_COUNT
  type U64 = n: nat | n < U64_LIMIT

  datatype Action = Heartbeat | Down | Move | Up | Cancel

  /** `tip` and `keySuppressed` are the contact flag bits of the same names. */
  datatype Contact = Contact(pointerId: PointerId, tip: bool, keySuppressed: bool, x: real) {
    predicate Active() { tip && !keySuppressed }
    predicate Suppressed() { tip && keySuppressed }
  }

  datatype TouchFrame = TouchFrame(
    sessionId: U64,
    sequence: U64,
    action: Action,
    actionPointerId: PointerId,
    locked: bool,
    sessionStart: bool,
    contacts: seq<Contact>)
  {
    /** Cancel, session-start and unlocked frames drop every key. */
    predicate ReleasesAll() { sessionStart || action.Cancel? || !locked }

    /** An empty heartbeat of an older app: carries no snapshot. */
    predicate EmptyHeartbeat() { action.Heartbeat? && contacts == [] }

    /** What the decoders guarantee: a bounded snapshot without repeated pointer IDs. */
    ghost predicate Decoded() {
      |contacts| <= MAX_CONTACTS && DistinctPointers(contacts)
    }
  }

  ghost predicate DistinctPointers(contacts: seq<Contact>) {
    forall i, j :: 0 <= i < j < |contacts| ==> contacts[i].pointerId != contacts[j].pointerId
  }
}
