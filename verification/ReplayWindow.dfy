/** The replay bitmap of the record cipher: sixteen 64-bit words shifted in place,
    proved to remember exactly which of the last 1,024 packet numbers were taken. */
module ReplayWindows {
  import opened Protocol

  const REPLAY_WINDOW_BITS := 1_024
  const WORDS := 16
  const WORD_BITS := 64


  // ---------------------------------------------------------------- 64-bit words

  /** A machine word as its bits, least significant first. */
  type Word = bits: seq<bool> | |bits| == WORD_BITS witness Zero()

  function Zero(): seq<bool> { seq(WORD_BITS, _ => false) }

  /** `1 << d`, for `d` below the word width. */
  function Single(d: nat): Word
    requires d < WORD_BITS
  {
    seq(WORD_BITS, i => i == d)
  }

  /** `w << s`: bits move up, zeros come in, the top bits are lost. */
  function Left(w: Word, s: nat): Word
    requires s < WORD_BITS
  {
    seq(WORD_BITS, i requires 0 <= i < WORD_BITS => i >= s && w[i - s])
  }

  /** `w >> s`: bits move down, zeros come in, the low bits are lost. */
  function Right(w: Word, s: nat): Word
    requires s < WORD_BITS
  {
    seq(WORD_BITS, i requires 0 <= i < WORD_BITS => i + s < WORD_BITS && w[i + s])
  }

  function Or(a: Word, b: Word): Word {
    seq(WORD_BITS, i requires 0 <= i < WORD_BITS => a[i] || b[i])
  }

  function And(a: Word, b: Word): Word {
    seq(WORD_BITS, i requires 0 <= i < WORD_BITS => a[i] && b[i])
  }

  lemma SingleTest(w: Word, d: nat)
    requires d < WORD_BITS
    ensures And(w, Single(d)) == Zero() <==> !w[d]
  {
    if !w[d] {
      assert And(w, Single(d)) == Zero();
    } else {
      assert And(w, Single(d))[d] != Zero()[d];
    }
  }

  // ---------------------------------------------------------------- bits of the window

  /** Bit `d` of the whole window. */
  ghost predicate Marked(words: seq<Word>, d: nat)
    requires |words| == WORDS && d < REPLAY_WINDOW_BITS
  {
    words[d / WORD_BITS][d % WORD_BITS]
  }

  /** One word of the shifted window. */
  ghost function ShiftedWord(words: seq<Word>, k: nat, wordShift: nat, bitShift: nat): Word
    requires k < |words| && bitShift < WORD_BITS
  {
    if k < wordShift then Zero()
    else if bitShift != 0 && k > wordShift
      then Or(Left(words[k - wordShift], bitShift), Right(words[k - wordShift - 1], WORD_BITS - bitShift))
    else Left(words[k - wordShift], bitShift)
  }

  /** Where bit `i` of shifted word `k` comes from. */
  lemma ShiftedBit(words: seq<Word>, k: nat, i: nat, ws: nat, s: nat)
    requires k < |words| && i < WORD_BITS && s < WORD_BITS
    ensures k >= ws && i >= s ==> ShiftedWord(words, k, ws, s)[i] == words[k - ws][i - s]
    ensures k > ws && i < s ==> ShiftedWord(words, k, ws, s)[i] == words[k - ws - 1][i + WORD_BITS - s]
    ensures k < ws || (k == ws && i < s) ==> !ShiftedWord(words, k, ws, s)[i]
  {
  }

  /** Bit `i` of word `k` is bit `64 * k + i` of the window. */
  lemma MarkedAt(words: seq<Word>, k: nat, i: nat, d: nat)
    requires |words| == WORDS && k < WORDS && i < WORD_BITS && d == WORD_BITS * k + i
    ensures d < REPLAY_WINDOW_BITS && Marked(words, d) == words[k][i]
  {
    assert d / WORD_BITS == k && d % WORD_BITS == i;
  }

  /** Shifting the words by `bits` moves every bit of the window by that much. */
  lemma ShiftedMarked(words: seq<Word>, bits: nat, d: nat)
    requires |words| == WORDS && bits < REPLAY_WINDOW_BITS && d < REPLAY_WINDOW_BITS
    ensures ShiftedWord(words, d / WORD_BITS, bits / WORD_BITS, bits % WORD_BITS)[d % WORD_BITS]
         == (d >= bits && Marked(words, d - bits))
  {
    hide ShiftedWord, Marked;
    var k, i, ws, s := d / WORD_BITS, d % WORD_BITS, bits / WORD_BITS, bits % WORD_BITS;
    assert d == WORD_BITS * k + i && bits == WORD_BITS * ws + s;
    ShiftedBit(words, k, i, ws, s);
    if k >= ws && i >= s {
      MarkedAt(words, k - ws, i - s, d - bits);
    } else if k > ws {
      MarkedAt(words, k - ws - 1, i + WORD_BITS - s, d - bits);
    } else {
      assert d < bits;
    }
  }

  // ---------------------------------------------------------------- the reference receiver

  /** A receiver that remembers every packet number it ever accepted. */
  ghost predicate Admissible(accepted: set<nat>, p: nat) {
    p !in accepted && forall q <- accepted :: q < p + REPLAY_WINDOW_BITS
  }

  /** The bits are exactly the committed numbers among the last 1,024. */
  ghost predicate Tracks(highest: Option<U64>, words: seq<Word>, committed: set<nat>)
    requires |words| == WORDS
  {
    match highest
    case None => committed == {} && forall d: nat :: d < REPLAY_WINDOW_BITS ==> !Marked(words, d)
    case Some(h) =>
      && h in committed && (forall q <- committed :: q <= h)
      && forall d: nat :: d < REPLAY_WINDOW_BITS ==> (Marked(words, d) <==> d <= h && h - d in committed)
  }

  /** Setting a bit marks that place and no other. */
  lemma MarkedSet(before: seq<Word>, after: seq<Word>, d: nat)
    requires |before| == WORDS && d < REPLAY_WINDOW_BITS
    requires after == before[d / WORD_BITS := Or(before[d / WORD_BITS], Single(d % WORD_BITS))]
    ensures forall e: nat :: e < REPLAY_WINDOW_BITS ==> Marked(after, e) == (e == d || Marked(before, e))
  {
    forall e: nat | e < REPLAY_WINDOW_BITS ensures Marked(after, e) == (e == d || Marked(before, e)) {
      if e / WORD_BITS == d / WORD_BITS {
        assert e == d <==> e % WORD_BITS == d % WORD_BITS;
      }
    }
  }

  lemma OnlyFirst(before: seq<Word>, after: seq<Word>)
    requires |before| == WORDS && after == before[0 := Single(0)]
    requires forall d: nat :: d < REPLAY_WINDOW_BITS ==> !Marked(before, d)
    ensures forall e: nat :: e < REPLAY_WINDOW_BITS ==> Marked(after, e) == (e == 0)
  {
    forall e: nat | e < REPLAY_WINDOW_BITS ensures Marked(after, e) == (e == 0) {
      assert e >= WORD_BITS ==> Marked(after, e) == Marked(before, e);
    }
  }

  class ReplayWindow {
    var highest: Option<U64>
    const words: array<Word>
    /** Every packet number ever committed. */
    ghost var committed: set<nat>

    ghost predicate Valid()
      reads this, words
    {
      && words.Length == WORDS
      && Tracks(highest, words[..], committed)
    }

    constructor ()
      ensures Valid() && fresh(words) && committed == {}
    {
      highest := None;
      words := new Word[WORDS](_ => Zero());
      committed := {};
    }

    method WouldAccept(p: U64) returns (r: bool)
      requires Valid()
      ensures r <==> Admissible(committed, p)
      ensures r <==> p !in committed && forall q <- committed :: q < p + 1_024
    {
      if highest.None? || p > highest.value {
        return true;
      }
      var distance := highest.value - p;
      if distance >= REPLAY_WINDOW_BITS {
        return false;
      }
      assert Marked(words[..], distance) <==> p in committed;
      r := And(words[distance / WORD_BITS], Single(distance % WORD_BITS)) == Zero();
      SingleTest(words[distance / WORD_BITS], distance % WORD_BITS);
    }

    method Commit(p: U64)
      requires Valid()
      modifies this, words
      ensures Valid() && committed == old(committed) + {p}
    {
      ghost var before := words[..];
      match highest {
        case None =>
          highest := Some(p);
          words[0] := Single(0);
          OnlyFirst(before, words[..]);
        case Some(h) =>
          if p > h {
            Shift(p - h);
            ghost var shifted := words[..];
            highest := Some(p);
            words[0] := Or(words[0], Single(0));
            MarkedSet(shifted, words[..], 0);
          } else if h - p < REPLAY_WINDOW_BITS {
            var distance := h - p;
            words[distance / WORD_BITS] := Or(words[distance / WORD_BITS], Single(distance % WORD_BITS));
            MarkedSet(before, words[..], distance);
          }
      }
      committed := committed + {p};
    }

    /** Moves every bit `bits` places up, in place, from the last word down. */
    method Shift(bits: nat)
      requires words.Length == WORDS
      modifies words
      ensures forall d: nat :: d < REPLAY_WINDOW_BITS ==>
        Marked(words[..], d) == (d >= bits && Marked(old(words[..]), d - bits))
    {
      if bits >= REPLAY_WINDOW_BITS {
        ClearWords();
        return;
      }
      ghost var before := words[..];
      var wordShift, bitShift := bits / WORD_BITS, bits % WORD_BITS;
      var destination := WORDS;
      while destination > 0
        invariant 0 <= destination <= WORDS
        invariant forall k :: 0 <= k < destination ==> words[k] == before[k]
        invariant forall k :: destination <= k < WORDS ==> words[k] == ShiftedWord(before, k, wordShift, bitShift)
      {
        destination := destination - 1;
        var value: Word := Zero();
        if destination >= wordShift {
          value := Left(words[destination - wordShift], bitShift);
          if bitShift != 0 && destination > wordShift {
            value := Or(value, Right(words[destination - wordShift - 1], WORD_BITS - bitShift));
          }
        }
        words[destination] := value;
      }
      forall d: nat | d < REPLAY_WINDOW_BITS
        ensures Marked(words[..], d) == (d >= bits && Marked(before, d - bits))
      {
        ShiftedMarked(before, bits, d);
      }
    }

    method ClearWords()
      requires words.Length == WORDS
      modifies words
      ensures forall d: nat :: d < REPLAY_WINDOW_BITS ==> !Marked(words[..], d)
    {
      var i := 0;
      while i < WORDS
        invariant 0 <= i <= WORDS
        invariant forall k :: 0 <= k < i ==> words[k] == Zero()
      {
        words[i] := Zero();
        i := i + 1;
      }
    }
  }

  // ---------------------------------------------------------------- the record cipher

  /** One datagram that decodes as a record; `genuine` is the verdict of its tag. */
  datatype Record = Record(connectionId: U64, packetNumber: U64, genuine: bool)

  datatype Opened = Accepted | WrongConnection | Replay | BadTag

  class RecordCipher {
    const connectionId: U64
    const replay: ReplayWindow
    var nextPacketNumber: U64

    constructor (connectionId: U64)
      ensures fresh(replay) && fresh(replay.words) && replay.Valid() && replay.committed == {}
      ensures this.connectionId == connectionId && nextPacketNumber == 0
    {
      this.connectionId := connectionId;
      replay := new ReplayWindow();
      nextPacketNumber := 0;
    }

    /** Every attempt to seal burns a fresh number, also when the record does not fit. */
    method Seal(fits: bool) returns (packetNumber: Option<U64>)
      modifies this`nextPacketNumber
      ensures packetNumber.Some? ==> packetNumber.value == old(nextPacketNumber)
      ensures packetNumber.Some? <==> fits && old(nextPacketNumber) < U64_LIMIT - 1
      ensures old(nextPacketNumber) < U64_LIMIT - 1 ==> nextPacketNumber == old(nextPacketNumber) + 1
      ensures old(nextPacketNumber) == U64_LIMIT - 1 ==> nextPacketNumber == old(nextPacketNumber)
    {
      var number := nextPacketNumber;
      if number == U64_LIMIT - 1 {
        return None;
      }
      nextPacketNumber := number + 1;
      return if fits then Some(number) else None;
    }

    /** The window is asked before the tag and told only after it verified. */
    method Open(record: Record) returns (r: Opened)
      requires replay.Valid()
      modifies replay, replay.words
      ensures replay.Valid()
      ensures r == Verdict(connectionId, old(replay.committed), record)
      ensures r.WrongConnection? <==> record.connectionId != connectionId
      ensures r.Replay? <==>
        (&& record.connectionId == connectionId
         && (record.packetNumber in old(replay.committed) || exists q <- old(replay.committed) :: q >= record.packetNumber + 1_024))
      ensures r.Accepted? ==> record.genuine
      ensures r.BadTag? ==> !record.genuine
      ensures replay.committed == old(replay.committed) + (if r.Accepted? then {record.packetNumber} else {})
    {
      if record.connectionId != connectionId {
        return WrongConnection;
      }
      var unseen := replay.WouldAccept(record.packetNumber);
      if !unseen {
        return Replay;
      }
      if !record.genuine {
        return BadTag;
      }
      replay.Commit(record.packetNumber);
      return Accepted;
    }
  }

  ghost function Verdict(connectionId: U64, accepted: set<nat>, record: Record): Opened {
    if record.connectionId != connectionId then WrongConnection
    else if !Admissible(accepted, record.packetNumber) then Replay
    else if !record.genuine then BadTag
    else Accepted
  }

  /** What the receiver with perfect memory accepts of a whole run, in order. */
  ghost function Reference(connectionId: U64, records: seq<Record>): seq<nat> {
    if records == [] then []
    else
      var before, last := Reference(connectionId, records[..|records| - 1]), records[|records| - 1];
      if Verdict(connectionId, Numbers(before), last).Accepted? then before + [last.packetNumber] else before
  }

  ghost function Numbers(accepted: seq<nat>): set<nat> {
    set p | p in accepted
  }

  ghost predicate Distinct(numbers: seq<nat>) {
    forall i, j :: 0 <= i < j < |numbers| ==> numbers[i] != numbers[j]
  }

  /** No run, whatever is repeated in whatever order, accepts a number twice. */
  lemma {:induction false} NeverTwice(connectionId: U64, records: seq<Record>)
    ensures Distinct(Reference(connectionId, records))
  {
    if records != [] {
      NeverTwice(connectionId, records[..|records| - 1]);
      var before := Reference(connectionId, records[..|records| - 1]);
      forall i | 0 <= i < |before| ensures before[i] in Numbers(before) {
      }
    }
  }

  /** Over a whole run the 1,024-bit window accepts exactly what perfect memory would. */
  method OpenAll(connectionId: U64, records: seq<Record>) returns (accepted: seq<nat>)
    ensures accepted == Reference(connectionId, records) && Distinct(accepted)
  {
    NeverTwice(connectionId, records);
    hide Verdict, Admissible;
    var cipher := new RecordCipher(connectionId);
    accepted := [];
    for i := 0 to |records|
      invariant cipher.replay.Valid() && fresh(cipher.replay) && fresh(cipher.replay.words)
      invariant cipher.connectionId == connectionId
      invariant accepted == Reference(connectionId, records[..i])
      invariant cipher.replay.committed == Numbers(accepted)
    {
      assert records[..i + 1][..i] == records[..i];
      var r := cipher.Open(records[i]);
      if r.Accepted? {
        accepted := accepted + [records[i].packetNumber];
      }
    }
    assert records[..|records|] == records;
  }
}
