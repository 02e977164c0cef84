/** CRC-32 as the host computes it (reflected, section 3.2.9 of IEEE 802.3-2018),
    and why it catches every change confined to four consecutive bytes. */
module Crc {

  const INITIAL: bv32 := 0xffff_ffff
  const POLYNOMIAL: bv32 := 0xedb8_8320

  function Xor(a: bv32, b: bv32): bv32 { a ^ b }

  function Not(a: bv32): bv32 { !a }

  function Widened(b: bv8): bv32 { b as bv32 }

  predicate Odd(v: bv32) { v & 1 != 0 }

  function Half(v: bv32): bv32 { v >> 1 }

  /** One step of the bit loop. */
  function BitStep(v: bv32): bv32 {
    if Odd(v) then Xor(Half(v), POLYNOMIAL) else Half(v)
  }

  function BitSteps(v: bv32, n: nat): bv32 {
    if n == 0 then v else BitStep(BitSteps(v, n - 1))
  }

  function ByteStep(v: bv32, b: bv8): bv32 {
    BitSteps(Xor(v, Widened(b)), 8)
  }

  /** The register after a run of bytes. */
  function Register(v: bv32, bytes: seq<bv8>): bv32 {
    if bytes == [] then v else ByteStep(Register(v, bytes[..|bytes| - 1]), bytes[|bytes| - 1])
  }

  function Crc32Of(bytes: seq<bv8>): bv32 {
    Not(Register(INITIAL, bytes))
  }

  method Crc32(bytes: seq<bv8>) returns (crc: bv32)
    ensures crc == Crc32Of(bytes)
  {
    hide BitStep, Xor, Not, Widened;
    var value := INITIAL;
    for i := 0 to |bytes|
      invariant value == Register(INITIAL, bytes[..i])
    {
      value := Xor(value, Widened(bytes[i]));
      ghost var mixed := value;
      for bit := 0 to 8
        invariant value == BitSteps(mixed, bit)
      {
        value := BitStep(value);
      }
      assert bytes[..i + 1][..i] == bytes[..i];
    }
    assert bytes[..|bytes|] == bytes;
    crc := Not(value);
  }

  // ---------------------------------------------------------------- steps are invertible

  lemma BitStepInjective(a: bv32, b: bv32)
    requires BitStep(a) == BitStep(b)
    ensures a == b
  {
  }

  lemma {:induction false} BitStepsInjective(a: bv32, b: bv32, n: nat)
    requires BitSteps(a, n) == BitSteps(b, n)
    ensures a == b
  {
    hide BitStep;
    if n > 0 {
      BitStepInjective(BitSteps(a, n - 1), BitSteps(b, n - 1));
      BitStepsInjective(a, b, n - 1);
    }
  }

  lemma {:induction false} BitStepsAdd(v: bv32, m: nat, n: nat)
    ensures BitSteps(v, m + n) == BitSteps(BitSteps(v, m), n)
  {
    hide BitStep;
    if n > 0 {
      BitStepsAdd(v, m, n - 1);
    }
  }

  lemma {:induction false} RegisterConcat(v: bv32, a: seq<bv8>, b: seq<bv8>)
    ensures Register(v, a + b) == Register(Register(v, a), b)
  {
    hide ByteStep;
    if b == [] {
      assert a + b == a;
    } else {
      RegisterConcat(v, a, b[..|b| - 1]);
      assert (a + b)[..|a + b| - 1] == a + b[..|b| - 1];
    }
  }

  /** Equal bytes never hide a difference again. */
  lemma {:induction false} RegisterInjective(v: bv32, w: bv32, bytes: seq<bv8>)
    requires Register(v, bytes) == Register(w, bytes)
    ensures v == w
  {
    hide BitSteps, Xor, Widened;
    if bytes != [] {
      var front, last := bytes[..|bytes| - 1], bytes[|bytes| - 1];
      BitStepsInjective(Xor(Register(v, front), Widened(last)), Xor(Register(w, front), Widened(last)), 8);
      XorCancel(Register(v, front), Register(w, front), Widened(last));
      RegisterInjective(v, w, front);
    }
  }

  lemma XorCancel(v: bv32, w: bv32, x: bv32)
    requires Xor(v, x) == Xor(w, x)
    ensures v == w
  {
  }

  // ---------------------------------------------------------------- four bytes at once

  /** Up to four bytes as one little-endian number. */
  function Little(bytes: seq<bv8>): bv32
    requires |bytes| <= 4
  {
    if bytes == [] then 0 else Above(bytes[0], Little(bytes[1..]))
  }

  function Above(low: bv8, high: bv32): bv32 {
    Xor(Widened(low), high << 8)
  }

  /** The checksum as it is stored. */
  function CrcBytes(crc: bv32): (bytes: seq<bv8>)
    ensures |bytes| == 4
  {
    [Octet(crc), Octet(Rest(crc)), Octet(Rest(Rest(crc))), Octet(Rest(Rest(Rest(crc))))]
  }

  function Octet(v: bv32): bv8 { (v & 0xff) as bv8 }

  function Rest(v: bv32): bv32 { v >> 8 }

  lemma OctetAbove(v: bv32)
    ensures Above(Octet(v), Rest(v)) == v
  {
  }

  lemma FourOctets(v: bv32)
    ensures Rest(Rest(Rest(Rest(v)))) == 0
  {
  }

  lemma CrcBytesLittle(crc: bv32)
    ensures Little(CrcBytes(crc)) == crc
  {
    hide Above, Octet, Rest;
    var b := CrcBytes(crc);
    OctetAbove(crc);
    OctetAbove(Rest(crc));
    OctetAbove(Rest(Rest(crc)));
    OctetAbove(Rest(Rest(Rest(crc))));
    FourOctets(crc);
    assert b[3..][1..] == [] && b[2..][1..] == b[3..] && b[1..][1..] == b[2..];
    assert Little(b[3..]) == Above(b[3], 0);
    assert Little(b[2..]) == Above(b[2], Little(b[3..]));
    assert Little(b[1..]) == Above(b[1], Little(b[2..]));
  }

  lemma OddTwice(v: bv32, y: bv32)
    ensures Odd(Xor(v, Twice(y))) == Odd(v)
  {
  }

  lemma HalfTwice(v: bv32, y: bv32)
    requires y < 0x8000_0000
    ensures Half(Xor(v, Twice(y))) == Xor(Half(v), y)
  {
  }

  lemma XorSwap(a: bv32, b: bv32, c: bv32)
    ensures Xor(Xor(a, b), c) == Xor(Xor(a, c), b)
  {
    hide Xor;
    XorTurn(a, b, c);
    XorTurn(a, c, b);
    XorCommutes(b, c);
  }

  lemma XorCommutes(a: bv32, b: bv32)
    ensures Xor(a, b) == Xor(b, a)
  {
  }

  /** What lies above the lowest bit just moves down by one. */
  lemma BitStepPart(v: bv32, y: bv32)
    requires y < 0x8000_0000
    ensures BitStep(Xor(v, Twice(y))) == Xor(BitStep(v), y)
  {
    hide Odd, Half, Xor, Twice;
    OddTwice(v, y);
    HalfTwice(v, y);
    XorSwap(Half(v), y, POLYNOMIAL);
  }

  function Twice(y: bv32): bv32 { y << 1 }

  /** A value `k` places up. */
  function Up(y: bv32, k: nat): bv32 {
    if k == 0 then y else Twice(Up(y, k - 1))
  }

  lemma TwiceBelow(y: bv32, limit: bv32)
    requires y < limit <= 0x4000_0000
    ensures Twice(y) < limit + limit <= 0x8000_0000
  {
  }

  lemma UpBelow(y: bv32)
    requires y < 0x100_0000
    ensures forall k :: 0 <= k < 8 ==> Up(y, k) < 0x8000_0000
  {
    hide Twice;
    TwiceBelow(Up(y, 0), 0x100_0000);
    TwiceBelow(Up(y, 1), 0x200_0000);
    TwiceBelow(Up(y, 2), 0x400_0000);
    TwiceBelow(Up(y, 3), 0x800_0000);
    TwiceBelow(Up(y, 4), 0x1000_0000);
    TwiceBelow(Up(y, 5), 0x2000_0000);
    TwiceBelow(Up(y, 6), 0x4000_0000);
    forall k | 0 <= k < 8 ensures Up(y, k) < 0x8000_0000 {
      assert k == 0 || k == 1 || k == 2 || k == 3 || k == 4 || k == 5 || k == 6 || k == 7;
    }
  }

  lemma EightTwice(y: bv32)
    ensures Twice(Twice(Twice(Twice(Twice(Twice(Twice(Twice(y)))))))) == y << 8
  {
  }

  lemma UpEight(y: bv32)
    ensures Up(y, 8) == y << 8
  {
    hide Twice;
    EightTwice(y);
    assert Up(y, 8) == Twice(Up(y, 7)) && Up(y, 7) == Twice(Up(y, 6)) && Up(y, 6) == Twice(Up(y, 5));
    assert Up(y, 5) == Twice(Up(y, 4)) && Up(y, 4) == Twice(Up(y, 3)) && Up(y, 3) == Twice(Up(y, 2));
    assert Up(y, 2) == Twice(Up(y, 1)) && Up(y, 1) == Twice(Up(y, 0));
  }

  /** What lies above the low byte only moves down while that byte is worked off. */
  lemma {:induction false} BitStepsPart(v: bv32, y: bv32, n: nat)
    requires n <= 8 && forall k :: 0 <= k < 8 ==> Up(y, k) < 0x8000_0000
    ensures BitSteps(Xor(v, Up(y, 8)), n) == Xor(BitSteps(v, n), Up(y, 8 - n))
  {
    hide BitStep, Xor, Twice;
    if n > 0 {
      BitStepsPart(v, y, n - 1);
      BitStepPart(BitSteps(v, n - 1), Up(y, 8 - n));
    }
  }

  lemma AboveBelow(low: bv8, high: bv32)
    ensures high == 0 ==> Above(low, high) < 0x100
    ensures high < 0x100 ==> Above(low, high) < 0x1_0000
    ensures high < 0x1_0000 ==> Above(low, high) < 0x100_0000
  {
  }

  lemma LittleBelow(bytes: seq<bv8>)
    requires |bytes| <= 3
    ensures Little(bytes) < 0x100_0000
  {
    hide Above;
    if |bytes| > 0 {
      AboveBelow(bytes[0], Little(bytes[1..]));
      if |bytes| > 1 {
        AboveBelow(bytes[1], Little(bytes[2..]));
        assert bytes[1..][1..] == bytes[2..];
        if |bytes| > 2 {
          AboveBelow(bytes[2], Little(bytes[3..]));
          assert bytes[2..][1..] == bytes[3..];
        }
      }
    }
  }

  lemma AboveInjective(a: bv8, x: bv32, b: bv8, y: bv32)
    requires x < 0x100_0000 && y < 0x100_0000 && Above(a, x) == Above(b, y)
    ensures a == b && x == y
  {
  }

  lemma {:induction false} LittleInjective(a: seq<bv8>, b: seq<bv8>)
    requires |a| == |b| <= 4 && Little(a) == Little(b)
    ensures a == b
  {
    hide Above;
    if a != [] {
      LittleBelow(a[1..]);
      LittleBelow(b[1..]);
      AboveInjective(a[0], Little(a[1..]), b[0], Little(b[1..]));
      LittleInjective(a[1..], b[1..]);
      assert a == [a[0]] + a[1..] && b == [b[0]] + b[1..];
    }
  }

  /** Four bytes work like one number mixed in at once. */
  lemma {:induction false} RegisterLittle(v: bv32, bytes: seq<bv8>)
    requires |bytes| <= 4
    ensures Register(v, bytes) == BitSteps(Xor(v, Little(bytes)), 8 * |bytes|)
    decreases |bytes|
  {
    hide BitSteps, Up, Xor, Above;
    if bytes == [] {
      ZeroSteps(v);
    } else {
      var rest := bytes[1..];
      assert bytes == [bytes[0]] + rest;
      RegisterConcat(v, [bytes[0]], rest);
      OneByte(v, bytes[0]);
      RegisterLittle(ByteStep(v, bytes[0]), rest);
      LittleBelow(rest);
      FirstByte(v, bytes[0], Little(rest));
      BitStepsAdd(Xor(v, Little(bytes)), 8, 8 * |rest|);
    }
  }

  lemma ZeroSteps(v: bv32)
    ensures BitSteps(Xor(v, 0), 0) == v
  {
  }

  lemma OneByte(v: bv32, b: bv8)
    ensures Register(v, [b]) == ByteStep(v, b)
  {
    assert [b][..0] == [];
  }

  lemma FirstByte(v: bv32, b: bv8, y: bv32)
    requires y < 0x100_0000
    ensures BitSteps(Xor(v, Above(b, y)), 8) == Xor(ByteStep(v, b), y)
  {
    hide BitSteps, Xor, Widened;
    UpBelow(y);
    UpEight(y);
    BitStepsPart(Xor(v, Widened(b)), y, 8);
    XorTurn(v, Widened(b), y << 8);
    assert Up(y, 0) == y;
  }

  lemma XorTurn(a: bv32, b: bv32, c: bv32)
    ensures Xor(a, Xor(b, c)) == Xor(Xor(a, b), c)
  {
  }

  // ---------------------------------------------------------------- detection

  /** A change confined to four consecutive bytes always changes the register. */
  lemma BurstChangesRegister(v: bv32, before: seq<bv8>, a: seq<bv8>, b: seq<bv8>, rest: seq<bv8>)
    requires |a| == |b| <= 4 && a != b
    ensures Register(v, before + a + rest) != Register(v, before + b + rest)
  {
    hide Register, BitSteps, Little, Xor;
    RegisterConcat(v, before + a, rest);
    RegisterConcat(v, before + b, rest);
    RegisterConcat(v, before, a);
    RegisterConcat(v, before, b);
    var start := Register(v, before);
    RegisterLittle(start, a);
    RegisterLittle(start, b);
    if Register(v, before + a + rest) == Register(v, before + b + rest) {
      RegisterInjective(Register(v, before + a), Register(v, before + b), rest);
      BitStepsInjective(Xor(start, Little(a)), Xor(start, Little(b)), 8 * |a|);
      XorCancelLeft(start, Little(a), Little(b));
      LittleInjective(a, b);
    }
  }

  lemma XorCancelLeft(x: bv32, v: bv32, w: bv32)
    requires Xor(x, v) == Xor(x, w)
    ensures v == w
  {
  }

  lemma BurstChangesCrc(before: seq<bv8>, a: seq<bv8>, b: seq<bv8>, rest: seq<bv8>)
    requires |a| == |b| <= 4 && a != b
    ensures Crc32Of(before + a + rest) != Crc32Of(before + b + rest)
  {
    hide Register, Not;
    BurstChangesRegister(INITIAL, before, a, b, rest);
    if Crc32Of(before + a + rest) == Crc32Of(before + b + rest) {
      NotCancel(Register(INITIAL, before + a + rest), Register(INITIAL, before + b + rest));
    }
  }

  lemma NotCancel(v: bv32, w: bv32)
    requires Not(v) == Not(w)
    ensures v == w
  {
  }

  /** A record whose last four bytes hold the CRC of the rest. */
  predicate Sealed(record: seq<bv8>)
    requires |record| >= 4
  {
    Little(record[|record| - 4..]) == Crc32Of(record[..|record| - 4])
  }

  /** Running the register over the whole record, CRC included, ends in one fixed value. */
  lemma SealedResidue(record: seq<bv8>)
    requires |record| >= 4
    ensures Sealed(record) <==> Register(INITIAL, record) == BitSteps(INITIAL, 32)
  {
    hide Register, BitSteps, Little, Xor, Not;
    var body, crc := record[..|record| - 4], record[|record| - 4..];
    assert record == body + crc;
    RegisterConcat(INITIAL, body, crc);
    var r := Register(INITIAL, body);
    RegisterLittle(r, crc);
    Complement(r, Little(crc));
    if Register(INITIAL, record) == BitSteps(INITIAL, 32) {
      BitStepsInjective(Xor(r, Little(crc)), INITIAL, 32);
    }
  }

  lemma Complement(v: bv32, w: bv32)
    ensures w == Not(v) ==> Xor(v, w) == INITIAL
    ensures Xor(v, w) == INITIAL ==> w == Not(v)
  {
  }

  /** A sealed record changed within any four consecutive bytes - also across
      the CRC itself - is no longer sealed. */
  lemma BurstBreaksSeal(before: seq<bv8>, a: seq<bv8>, b: seq<bv8>, rest: seq<bv8>)
    requires |a| == |b| <= 4 && a != b && |before + a + rest| >= 4 && Sealed(before + a + rest)
    ensures !Sealed(before + b + rest)
  {
    hide Register, BitSteps, Sealed;
    SealedResidue(before + a + rest);
    SealedResidue(before + b + rest);
    BurstChangesRegister(INITIAL, before, a, b, rest);
  }
}
