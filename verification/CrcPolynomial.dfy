/** The checksum as a remainder: polynomials over the two-element field, division
    by the CRC-32 generator of IEEE 802.3, and the register as what is left. */
module CrcPolynomial {
  import opened Crc

  // ---------------------------------------------------------------- polynomials

  /** The exponents with coefficient one. */
  type Polynomial = set<nat>

  function Add(a: Polynomial, b: Polynomial): Polynomial { (a - b) + (b - a) }

  /** The polynomial times `x` to the power `n`. */
  function Raised(a: Polynomial, n: nat): Polynomial {
    set e | e in a :: e + n
  }

  /** x^32 + x^26 + x^23 + x^22 + x^16 + x^12 + x^11 + x^10 + x^8 + x^7 + x^5 + x^4 + x^2 + x + 1 */
  function Generator(): Polynomial {
    {32, 26, 23, 22, 16, 12, 11, 10, 8, 7, 5, 4, 2, 1, 0}
  }

  /** The generator times a sum of powers of `x`. */
  function Multiple(powers: seq<nat>): Polynomial {
    if powers == [] then {}
    else Add(Multiple(powers[..|powers| - 1]), Raised(Generator(), powers[|powers| - 1]))
  }

  /** The two differ by a multiple of the generator. */
  ghost predicate Congruent(a: Polynomial, b: Polynomial) {
    exists powers: seq<nat> :: a == Add(b, Multiple(powers))
  }

  /** Long division: `r` is what `a` leaves. */
  ghost predicate Remainder(a: Polynomial, r: Polynomial) {
    Congruent(a, r) && forall e :: e in r ==> e < 32
  }

  lemma AddIn(a: Polynomial, b: Polynomial, e: nat)
    ensures e in Add(a, b) <==> (e in a) != (e in b)
  {
  }

  lemma RaisedIn(a: Polynomial, n: nat, e: nat)
    ensures e in Raised(a, n) <==> e >= n && e - n in a
  {
    if e >= n && e - n in a {
      assert (e - n) + n == e;
    }
  }

  lemma AddTurn(a: Polynomial, b: Polynomial, c: Polynomial)
    ensures Add(Add(a, b), c) == Add(a, Add(b, c))
    ensures Add(a, b) == Add(b, a) && Add(a, {}) == a && Add(a, a) == {}
  {
  }

  lemma RaisedAdd(a: Polynomial, b: Polynomial, n: nat)
    ensures Raised(Add(a, b), n) == Add(Raised(a, n), Raised(b, n))
  {
    hide Raised, Add;
    forall e: nat ensures e in Raised(Add(a, b), n) <==> e in Add(Raised(a, n), Raised(b, n)) {
      RaisedIn(Add(a, b), n, e);
      RaisedIn(a, n, e);
      RaisedIn(b, n, e);
      AddIn(Raised(a, n), Raised(b, n), e);
      if e >= n {
        AddIn(a, b, e - n);
      }
    }
  }

  lemma RaisedTwice(a: Polynomial, m: nat, n: nat)
    ensures Raised(Raised(a, m), n) == Raised(a, m + n) && Raised(a, 0) == a
  {
    hide Raised;
    forall e: nat ensures e in Raised(Raised(a, m), n) <==> e in Raised(a, m + n) {
      RaisedIn(Raised(a, m), n, e);
      RaisedIn(a, m + n, e);
      if e >= n {
        RaisedIn(a, m, e - n);
      }
    }
    forall e: nat ensures e in Raised(a, 0) <==> e in a {
      RaisedIn(a, 0, e);
    }
  }

  // ---------------------------------------------------------------- congruence

  lemma {:induction false} MultipleConcat(a: seq<nat>, b: seq<nat>)
    ensures Multiple(a + b) == Add(Multiple(a), Multiple(b))
  {
    hide Add, Raised, Generator;
    if b == [] {
      assert a + b == a;
      AddTurn(Multiple(a), {}, {});
    } else {
      var front, k := b[..|b| - 1], b[|b| - 1];
      MultipleConcat(a, front);
      assert (a + b)[..|a + b| - 1] == a + front;
      AddTurn(Multiple(a), Multiple(front), Raised(Generator(), k));
    }
  }

  function Later(powers: seq<nat>, n: nat): (r: seq<nat>)
    ensures |r| == |powers|
  {
    seq(|powers|, i requires 0 <= i < |powers| => powers[i] + n)
  }

  lemma {:induction false} MultipleRaised(powers: seq<nat>, n: nat)
    ensures Raised(Multiple(powers), n) == Multiple(Later(powers, n))
  {
    hide Add, Raised, Generator;
    if powers == [] {
      forall e: nat ensures e !in Raised({}, n) {
        RaisedIn({}, n, e);
      }
      assert Later(powers, n) == [];
    } else {
      var front, k := powers[..|powers| - 1], powers[|powers| - 1];
      MultipleRaised(front, n);
      RaisedAdd(Multiple(front), Raised(Generator(), k), n);
      RaisedTwice(Generator(), k, n);
      assert Later(powers, n)[..|powers| - 1] == Later(front, n) && Later(powers, n)[|powers| - 1] == k + n;
    }
  }

  lemma Same(a: Polynomial)
    ensures Congruent(a, a)
  {
    AddTurn(a, {}, {});
    assert Multiple([]) == {};
  }

  lemma Chain(a: Polynomial, b: Polynomial, c: Polynomial)
    requires Congruent(a, b) && Congruent(b, c)
    ensures Congruent(a, c)
  {
    hide Add, Multiple;
    var m: seq<nat> :| a == Add(b, Multiple(m));
    var n: seq<nat> :| b == Add(c, Multiple(n));
    MultipleConcat(n, m);
    AddTurn(c, Multiple(n), Multiple(m));
  }

  lemma Summed(a: Polynomial, b: Polynomial, c: Polynomial)
    requires Congruent(a, b)
    ensures Congruent(Add(a, c), Add(b, c))
  {
    hide Add, Multiple;
    var m: seq<nat> :| a == Add(b, Multiple(m));
    AddTurn(b, Multiple(m), c);
    AddTurn(Multiple(m), c, {});
    AddTurn(b, c, Multiple(m));
  }

  lemma Lifted(a: Polynomial, b: Polynomial, n: nat)
    requires Congruent(a, b)
    ensures Congruent(Raised(a, n), Raised(b, n))
  {
    hide Add, Multiple, Raised;
    var m: seq<nat> :| a == Add(b, Multiple(m));
    RaisedAdd(b, Multiple(m), n);
    MultipleRaised(m, n);
  }

  lemma OneMultiple(a: Polynomial)
    ensures Congruent(Add(a, Generator()), a)
  {
    hide Add, Raised, Generator;
    RaisedTwice(Generator(), 0, 0);
    AddTurn({}, Generator(), {});
    AddTurn(Generator(), {}, {});
    assert [0][..0] == [] && Multiple([0]) == Add(Multiple([]), Raised(Generator(), 0));
    assert Multiple([0]) == Generator();
  }

  // ---------------------------------------------------------------- bits of the register

  function Shifted(v: bv32, n: nat): bv32 {
    if n == 0 then v else Half(Shifted(v, n - 1))
  }

  predicate Bit(v: bv32, i: nat) { Odd(Shifted(v, i)) }

  /** The register reads its lowest bit as the highest power. */
  predicate Reads(v: bv32, e: nat) { e < 32 && Bit(v, 31 - e) }

  function Read(v: bv32): Polynomial {
    set e: nat | e < 32 && Reads(v, e)
  }

  lemma {:induction false} ShiftedHalf(v: bv32, n: nat)
    ensures Shifted(Half(v), n) == Shifted(v, n + 1)
  {
    hide Half;
    if n > 0 {
      ShiftedHalf(v, n - 1);
    }
  }

  lemma XorParts(a: bv32, b: bv32)
    ensures Half(Xor(a, b)) == Xor(Half(a), Half(b)) && (Odd(Xor(a, b)) <==> Odd(a) != Odd(b))
  {
  }

  lemma {:induction false} ShiftedXor(a: bv32, b: bv32, n: nat)
    ensures Shifted(Xor(a, b), n) == Xor(Shifted(a, n), Shifted(b, n))
  {
    hide Half, Xor, Odd;
    if n > 0 {
      ShiftedXor(a, b, n - 1);
      XorParts(Shifted(a, n - 1), Shifted(b, n - 1));
    }
  }

  lemma ReadXor(a: bv32, b: bv32)
    ensures Read(Xor(a, b)) == Add(Read(a), Read(b))
  {
    hide Xor, Odd, Shifted, Add;
    forall e: nat ensures e in Read(Xor(a, b)) <==> e in Add(Read(a), Read(b)) {
      AddIn(Read(a), Read(b), e);
      if e < 32 {
        ShiftedXor(a, b, 31 - e);
        XorParts(Shifted(a, 31 - e), Shifted(b, 31 - e));
      }
    }
  }

  // ---------------------------------------------------------------- one bit, one byte, all bytes

  lemma Feedback0()
    ensures Shifted(POLYNOMIAL, 8) == 0x00ed_b883
    ensures !Bit(POLYNOMIAL, 0) && !Bit(POLYNOMIAL, 1) && !Bit(POLYNOMIAL, 2) && !Bit(POLYNOMIAL, 3)
    ensures !Bit(POLYNOMIAL, 4) && Bit(POLYNOMIAL, 5) && !Bit(POLYNOMIAL, 6) && !Bit(POLYNOMIAL, 7)
  {
    assert Shifted(POLYNOMIAL, 1) == 0x76dc_4190;
    assert Shifted(POLYNOMIAL, 2) == 0x3b6e_20c8;
    assert Shifted(POLYNOMIAL, 3) == 0x1db7_1064;
    assert Shifted(POLYNOMIAL, 4) == 0x0edb_8832;
    assert Shifted(POLYNOMIAL, 5) == 0x076d_c419;
    assert Shifted(POLYNOMIAL, 6) == 0x03b6_e20c;
    assert Shifted(POLYNOMIAL, 7) == 0x01db_7106;
    assert Shifted(POLYNOMIAL, 8) == 0x00ed_b883;
  }

  lemma Feedback1()
    ensures Shifted(POLYNOMIAL, 16) == 0x0000_edb8
    ensures Bit(POLYNOMIAL, 8) && Bit(POLYNOMIAL, 9) && !Bit(POLYNOMIAL, 10) && !Bit(POLYNOMIAL, 11)
    ensures !Bit(POLYNOMIAL, 12) && !Bit(POLYNOMIAL, 13) && !Bit(POLYNOMIAL, 14) && Bit(POLYNOMIAL, 15)
  {
    Feedback0();
    assert Shifted(POLYNOMIAL, 9) == 0x0076_dc41;
    assert Shifted(POLYNOMIAL, 10) == 0x003b_6e20;
    assert Shifted(POLYNOMIAL, 11) == 0x001d_b710;
    assert Shifted(POLYNOMIAL, 12) == 0x000e_db88;
    assert Shifted(POLYNOMIAL, 13) == 0x0007_6dc4;
    assert Shifted(POLYNOMIAL, 14) == 0x0003_b6e2;
    assert Shifted(POLYNOMIAL, 15) == 0x0001_db71;
    assert Shifted(POLYNOMIAL, 16) == 0x0000_edb8;
  }

  lemma Feedback2()
    ensures Shifted(POLYNOMIAL, 24) == 0x0000_00ed
    ensures !Bit(POLYNOMIAL, 16) && !Bit(POLYNOMIAL, 17) && !Bit(POLYNOMIAL, 18) && Bit(POLYNOMIAL, 19)
    ensures Bit(POLYNOMIAL, 20) && Bit(POLYNOMIAL, 21) && !Bit(POLYNOMIAL, 22) && Bit(POLYNOMIAL, 23)
  {
    Feedback1();
    assert Shifted(POLYNOMIAL, 17) == 0x0000_76dc;
    assert Shifted(POLYNOMIAL, 18) == 0x0000_3b6e;
    assert Shifted(POLYNOMIAL, 19) == 0x0000_1db7;
    assert Shifted(POLYNOMIAL, 20) == 0x0000_0edb;
    assert Shifted(POLYNOMIAL, 21) == 0x0000_076d;
    assert Shifted(POLYNOMIAL, 22) == 0x0000_03b6;
    assert Shifted(POLYNOMIAL, 23) == 0x0000_01db;
    assert Shifted(POLYNOMIAL, 24) == 0x0000_00ed;
  }

  lemma Feedback3()
    ensures Shifted(POLYNOMIAL, 32) == 0x0000_0000
    ensures Bit(POLYNOMIAL, 24) && !Bit(POLYNOMIAL, 25) && Bit(POLYNOMIAL, 26) && Bit(POLYNOMIAL, 27)
    ensures !Bit(POLYNOMIAL, 28) && Bit(POLYNOMIAL, 29) && Bit(POLYNOMIAL, 30) && Bit(POLYNOMIAL, 31)
  {
    Feedback2();
    assert Shifted(POLYNOMIAL, 25) == 0x0000_0076;
    assert Shifted(POLYNOMIAL, 26) == 0x0000_003b;
    assert Shifted(POLYNOMIAL, 27) == 0x0000_001d;
    assert Shifted(POLYNOMIAL, 28) == 0x0000_000e;
    assert Shifted(POLYNOMIAL, 29) == 0x0000_0007;
    assert Shifted(POLYNOMIAL, 30) == 0x0000_0003;
    assert Shifted(POLYNOMIAL, 31) == 0x0000_0001;
    assert Shifted(POLYNOMIAL, 32) == 0x0000_0000;
  }

  /** The feedback constant reads as the generator without its leading power. */
  lemma FeedbackReads()
    ensures Read(POLYNOMIAL) == Generator() - {32}
  {
    hide Bit;
    Feedback0();
    Feedback1();
    Feedback2();
    Feedback3();
    forall e: nat | e < 32 ensures Reads(POLYNOMIAL, e) <==> e in Generator() {
      assert 31 - e == 0 || 31 - e == 1 || 31 - e == 2 || 31 - e == 3 || 31 - e == 4 || 31 - e == 5 || 31 - e == 6 || 31 - e == 7
          || 31 - e == 8 || 31 - e == 9 || 31 - e == 10 || 31 - e == 11 || 31 - e == 12 || 31 - e == 13 || 31 - e == 14 || 31 - e == 15
          || 31 - e == 16 || 31 - e == 17 || 31 - e == 18 || 31 - e == 19 || 31 - e == 20 || 31 - e == 21 || 31 - e == 22 || 31 - e == 23
          || 31 - e == 24 || 31 - e == 25 || 31 - e == 26 || 31 - e == 27 || 31 - e == 28 || 31 - e == 29 || 31 - e == 30 || 31 - e == 31;
    }
  }

  lemma NoHighBits(v: bv32)
    ensures Shifted(v, 32) == 0
  {
    hide Half;
    EightShifts(v);
    EightShifts(Shifted(v, 8));
    EightShifts(Shifted(v, 16));
    EightShifts(Shifted(v, 24));
    ShiftedTwice(v, 8, 8);
    ShiftedTwice(v, 16, 8);
    ShiftedTwice(v, 24, 8);
    FourOctets(v);
  }

  lemma {:induction false} ShiftedTwice(v: bv32, m: nat, n: nat)
    ensures Shifted(Shifted(v, m), n) == Shifted(v, m + n)
  {
    hide Half;
    if n > 0 {
      ShiftedTwice(v, m, n - 1);
    }
  }

  lemma EightShifts(v: bv32)
    ensures Shifted(v, 8) == Rest(v)
  {
    hide Half;
    EightHalves(v);
    assert Shifted(v, 8) == Half(Shifted(v, 7)) && Shifted(v, 7) == Half(Shifted(v, 6)) && Shifted(v, 6) == Half(Shifted(v, 5));
    assert Shifted(v, 5) == Half(Shifted(v, 4)) && Shifted(v, 4) == Half(Shifted(v, 3)) && Shifted(v, 3) == Half(Shifted(v, 2));
    assert Shifted(v, 2) == Half(Shifted(v, 1)) && Shifted(v, 1) == Half(v);
  }

  lemma EightHalves(v: bv32)
    ensures Half(Half(Half(Half(Half(Half(Half(Half(v)))))))) == Rest(v)
  {
  }

  /** Halving is multiplying by `x`, but for the power that falls off. */
  lemma HalfReads(v: bv32)
    ensures Raised(Read(v), 1) == Read(Half(v)) + (if Odd(v) then {32} else {})
    ensures 32 !in Read(Half(v))
  {
    hide Half, Odd, Shifted, Raised;
    NoHighBits(v);
    OddZero();
    assert Shifted(v, 0) == v by { NothingShifted(v); }
    forall e: nat ensures e in Raised(Read(v), 1) <==> e in Read(Half(v)) || (e == 32 && Odd(v)) {
      RaisedIn(Read(v), 1, e);
      if e < 32 {
        ShiftedHalf(v, 31 - e);
      }
    }
  }

  lemma NothingShifted(v: bv32)
    ensures Shifted(v, 0) == v
  {
  }

  lemma OddZero()
    ensures !Odd(0)
  {
  }

  /** One step of the loop multiplies by `x`, up to a multiple of the generator. */
  lemma StepReads(v: bv32)
    ensures Congruent(Raised(Read(v), 1), Read(BitStep(v)))
  {
    hide Half, Odd, Xor, Read, Raised;
    HalfReads(v);
    if Odd(v) {
      FeedbackReads();
      ReadXor(Half(v), POLYNOMIAL);
      assert Add(Add(Read(Half(v)), Generator() - {32}), Generator()) == Read(Half(v)) + {32};
      OneMultiple(Read(BitStep(v)));
    } else {
      Same(Read(Half(v)));
    }
  }

  lemma {:induction false} StepsRead(v: bv32, n: nat)
    ensures Congruent(Raised(Read(v), n), Read(BitSteps(v, n)))
  {
    hide Read, Raised, BitStep, Congruent;
    if n == 0 {
      RaisedTwice(Read(v), 0, 0);
      Same(Read(v));
    } else {
      StepsRead(v, n - 1);
      RaisedTwice(Read(v), n - 1, 1);
      Lifted(Raised(Read(v), n - 1), Read(BitSteps(v, n - 1)), 1);
      StepReads(BitSteps(v, n - 1));
      Chain(Raised(Read(v), n), Raised(Read(BitSteps(v, n - 1)), 1), Read(BitSteps(v, n)));
    }
  }

  /** A byte reads its lowest bit as the highest power as well. */
  function ByteRead(b: bv8): Polynomial {
    set e: nat | e < 8 && ByteReadsAt(b, e)
  }

  predicate ByteReadsAt(b: bv8, e: nat) { e < 8 && Bit(Widened(b), 7 - e) }

  lemma {:induction false} NothingAbove(b: bv8, n: nat)
    requires n >= 8
    ensures Shifted(Widened(b), n) == 0
  {
    if n == 8 {
      EightShifts(Widened(b));
    } else {
      NothingAbove(b, n - 1);
    }
  }

  lemma ByteReads(b: bv8)
    ensures Read(Widened(b)) == Raised(ByteRead(b), 24)
  {
    hide Raised, Shifted, Odd, Widened;
    OddZero();
    forall e: nat ensures e in Read(Widened(b)) <==> e in Raised(ByteRead(b), 24) {
      RaisedIn(ByteRead(b), 24, e);
      if e < 24 {
        NothingAbove(b, 31 - e);
      }
    }
  }

  /** The message, first byte first. */
  function Message(bytes: seq<bv8>): Polynomial {
    if bytes == [] then {} else Add(Raised(Message(bytes[..|bytes| - 1]), 8), ByteRead(bytes[|bytes| - 1]))
  }

  lemma ByteStepReads(v: bv32, b: bv8)
    ensures Congruent(Add(Raised(Read(v), 8), Raised(ByteRead(b), 32)), Read(ByteStep(v, b)))
  {
    hide Read, Raised, ByteRead, Xor, Widened, BitSteps, Congruent, Add;
    ByteReads(b);
    ReadXor(v, Widened(b));
    RaisedAdd(Read(v), Raised(ByteRead(b), 24), 8);
    RaisedTwice(ByteRead(b), 24, 8);
    StepsRead(Xor(v, Widened(b)), 8);
  }

  /** The register holds the message, and in front of it what it started with,
      up to a multiple of the generator. */
  lemma {:induction false} RegisterReads(v: bv32, bytes: seq<bv8>)
    ensures Congruent(Add(Raised(Read(v), 8 * |bytes|), Raised(Message(bytes), 32)), Read(Register(v, bytes)))
  {
    hide Read, Raised, ByteRead, ByteStep, Congruent, Add;
    if bytes == [] {
      RaisedNothing(32);
      RaisedTwice(Read(v), 0, 0);
      AddTurn(Read(v), {}, {});
      Same(Read(v));
    } else {
      var front, b := bytes[..|bytes| - 1], bytes[|bytes| - 1];
      var n := 8 * |front|;
      var start, body, r := Raised(Read(v), n), Raised(Message(front), 32), Read(Register(v, front));
      RegisterReads(v, front);
      Lifted(Add(start, body), r, 8);
      RaisedAdd(start, body, 8);
      RaisedTwice(Read(v), n, 8);
      RaisedTwice(Message(front), 32, 8);
      RaisedTwice(Message(front), 8, 32);
      RaisedAdd(Raised(Message(front), 8), ByteRead(b), 32);
      Summed(Raised(Add(start, body), 8), Raised(r, 8), Raised(ByteRead(b), 32));
      AddTurn(Raised(start, 8), Raised(body, 8), Raised(ByteRead(b), 32));
      ByteStepReads(Register(v, front), b);
      Chain(Add(Raised(Read(v), n + 8), Raised(Message(bytes), 32)),
            Add(Raised(r, 8), Raised(ByteRead(b), 32)), Read(Register(v, bytes)));
    }
  }

  lemma RaisedNothing(n: nat)
    ensures Raised({}, n) == {}
  {
  }

  /** x^31 + ... + x + 1 */
  function Ones(): Polynomial { set e: nat | e < 32 && Low(e) }

  predicate Low(e: nat) { e < 32 }

  /** The checksum, complemented, is what the division leaves of the message
      followed by 32 zero bits, with its first 32 bits complemented. */
  lemma CrcIsRemainder(bytes: seq<bv8>)
    ensures Remainder(Add(Raised(Ones(), 8 * |bytes|), Raised(Message(bytes), 32)), Add(Read(Crc32Of(bytes)), Ones()))
  {
    hide Raised, Message, Register, Congruent, Not, Xor, Shifted, Odd;
    RegisterReads(INITIAL, bytes);
    OnesRead();
    NotFlips(Register(INITIAL, bytes));
    ReadXor(Register(INITIAL, bytes), INITIAL);
    var r := Read(Register(INITIAL, bytes));
    AddTurn(r, Ones(), Ones());
    AddTurn(Ones(), {}, {});
    AddTurn(r, {}, {});
  }

  lemma NotFlips(v: bv32)
    ensures Not(v) == Xor(v, INITIAL)
  {
  }

  lemma Ones0()
    ensures Shifted(INITIAL, 8) == 0x00ff_ffff
    ensures Bit(INITIAL, 0) && Bit(INITIAL, 1) && Bit(INITIAL, 2) && Bit(INITIAL, 3)
    ensures Bit(INITIAL, 4) && Bit(INITIAL, 5) && Bit(INITIAL, 6) && Bit(INITIAL, 7)
  {
    assert Shifted(INITIAL, 1) == 0x7fff_ffff;
    assert Shifted(INITIAL, 2) == 0x3fff_ffff;
    assert Shifted(INITIAL, 3) == 0x1fff_ffff;
    assert Shifted(INITIAL, 4) == 0x0fff_ffff;
    assert Shifted(INITIAL, 5) == 0x07ff_ffff;
    assert Shifted(INITIAL, 6) == 0x03ff_ffff;
    assert Shifted(INITIAL, 7) == 0x01ff_ffff;
    assert Shifted(INITIAL, 8) == 0x00ff_ffff;
  }

  lemma Ones1()
    ensures Shifted(INITIAL, 16) == 0x0000_ffff
    ensures Bit(INITIAL, 8) && Bit(INITIAL, 9) && Bit(INITIAL, 10) && Bit(INITIAL, 11)
    ensures Bit(INITIAL, 12) && Bit(INITIAL, 13) && Bit(INITIAL, 14) && Bit(INITIAL, 15)
  {
    Ones0();
    assert Shifted(INITIAL, 9) == 0x007f_ffff;
    assert Shifted(INITIAL, 10) == 0x003f_ffff;
    assert Shifted(INITIAL, 11) == 0x001f_ffff;
    assert Shifted(INITIAL, 12) == 0x000f_ffff;
    assert Shifted(INITIAL, 13) == 0x0007_ffff;
    assert Shifted(INITIAL, 14) == 0x0003_ffff;
    assert Shifted(INITIAL, 15) == 0x0001_ffff;
    assert Shifted(INITIAL, 16) == 0x0000_ffff;
  }

  lemma Ones2()
    ensures Shifted(INITIAL, 24) == 0x0000_00ff
    ensures Bit(INITIAL, 16) && Bit(INITIAL, 17) && Bit(INITIAL, 18) && Bit(INITIAL, 19)
    ensures Bit(INITIAL, 20) && Bit(INITIAL, 21) && Bit(INITIAL, 22) && Bit(INITIAL, 23)
  {
    Ones1();
    assert Shifted(INITIAL, 17) == 0x0000_7fff;
    assert Shifted(INITIAL, 18) == 0x0000_3fff;
    assert Shifted(INITIAL, 19) == 0x0000_1fff;
    assert Shifted(INITIAL, 20) == 0x0000_0fff;
    assert Shifted(INITIAL, 21) == 0x0000_07ff;
    assert Shifted(INITIAL, 22) == 0x0000_03ff;
    assert Shifted(INITIAL, 23) == 0x0000_01ff;
    assert Shifted(INITIAL, 24) == 0x0000_00ff;
  }

  lemma Ones3()
    ensures Shifted(INITIAL, 32) == 0x0000_0000
    ensures Bit(INITIAL, 24) && Bit(INITIAL, 25) && Bit(INITIAL, 26) && Bit(INITIAL, 27)
    ensures Bit(INITIAL, 28) && Bit(INITIAL, 29) && Bit(INITIAL, 30) && Bit(INITIAL, 31)
  {
    Ones2();
    assert Shifted(INITIAL, 25) == 0x0000_007f;
    assert Shifted(INITIAL, 26) == 0x0000_003f;
    assert Shifted(INITIAL, 27) == 0x0000_001f;
    assert Shifted(INITIAL, 28) == 0x0000_000f;
    assert Shifted(INITIAL, 29) == 0x0000_0007;
    assert Shifted(INITIAL, 30) == 0x0000_0003;
    assert Shifted(INITIAL, 31) == 0x0000_0001;
    assert Shifted(INITIAL, 32) == 0x0000_0000;
  }

  lemma OnesRead()
    ensures Read(INITIAL) == Ones()
  {
    hide Bit;
    Ones0();
    Ones1();
    Ones2();
    Ones3();
    forall e: nat | e < 32 ensures Reads(INITIAL, e) {
      assert 31 - e == 0 || 31 - e == 1 || 31 - e == 2 || 31 - e == 3 || 31 - e == 4 || 31 - e == 5 || 31 - e == 6 || 31 - e == 7
          || 31 - e == 8 || 31 - e == 9 || 31 - e == 10 || 31 - e == 11 || 31 - e == 12 || 31 - e == 13 || 31 - e == 14 || 31 - e == 15
          || 31 - e == 16 || 31 - e == 17 || 31 - e == 18 || 31 - e == 19 || 31 - e == 20 || 31 - e == 21 || 31 - e == 22 || 31 - e == 23
          || 31 - e == 24 || 31 - e == 25 || 31 - e == 26 || 31 - e == 27 || 31 - e == 28 || 31 - e == 29 || 31 - e == 30 || 31 - e == 31;
    }
  }

  // ---------------------------------------------------------------- the remainder is unique

  predicate OddlyOften(powers: seq<nat>, k: nat) {
    powers != [] && (OddlyOften(powers[..|powers| - 1], k) != (powers[|powers| - 1] == k))
  }

  function Except(powers: seq<nat>, k: nat): seq<nat> {
    if powers == [] then []
    else
      var front := Except(powers[..|powers| - 1], k);
      if powers[|powers| - 1] == k then front else front + [powers[|powers| - 1]]
  }

  /** The leading power comes from the largest factor alone. */
  lemma {:induction false} Leading(powers: seq<nat>, n: nat)
    requires forall i :: 0 <= i < |powers| ==> powers[i] <= n
    ensures n + 32 in Multiple(powers) <==> OddlyOften(powers, n)
  {
    hide Add, Raised;
    if powers != [] {
      var front, k := powers[..|powers| - 1], powers[|powers| - 1];
      Leading(front, n);
      AddIn(Multiple(front), Raised(Generator(), k), n + 32);
      RaisedIn(Generator(), k, n + 32);
    }
  }

  lemma {:induction false} TakenOut(powers: seq<nat>, k: nat)
    ensures Multiple(powers) == Add(Multiple(Except(powers, k)), if OddlyOften(powers, k) then Raised(Generator(), k) else {})
  {
    hide Add, Raised, Generator;
    if powers == [] {
      AddTurn({}, {}, {});
    } else {
      var front, p := powers[..|powers| - 1], powers[|powers| - 1];
      TakenOut(front, k);
      var rest, g := Multiple(Except(front, k)), Raised(Generator(), k);
      AddTurn(rest, g, Raised(Generator(), p));
      AddTurn(g, Raised(Generator(), p), {});
      AddTurn(rest, Raised(Generator(), p), g);
      AddTurn(rest, {}, {});
      AddTurn(Add(rest, Raised(Generator(), p)), {}, {});
      assert (Except(front, k) + [p])[..|Except(front, k)|] == Except(front, k);
    }
  }

  lemma {:induction false} ExceptBelow(powers: seq<nat>, n: nat)
    requires forall i :: 0 <= i < |powers| ==> powers[i] <= n
    ensures forall i :: 0 <= i < |Except(powers, n)| ==> Except(powers, n)[i] < n
  {
    if powers != [] {
      ExceptBelow(powers[..|powers| - 1], n);
    }
  }

  lemma {:induction false} SmallMultiple(powers: seq<nat>, n: nat)
    requires (forall i :: 0 <= i < |powers| ==> powers[i] < n) && forall e :: e in Multiple(powers) ==> e < 32
    ensures Multiple(powers) == {}
    decreases n
  {
    hide Add, Raised, Generator, OddlyOften, Except;
    if powers != [] {
      assert powers[0] < n;
      ExceptBelow(powers, n - 1);
      Leading(powers, n - 1);
      TakenOut(powers, n - 1);
      AddTurn(Multiple(Except(powers, n - 1)), {}, {});
      SmallMultiple(Except(powers, n - 1), n - 1);
    }
  }

  lemma {:induction false} Bounded(powers: seq<nat>) returns (n: nat)
    ensures forall i :: 0 <= i < |powers| ==> powers[i] < n
  {
    if powers == [] {
      n := 0;
    } else {
      n := Bounded(powers[..|powers| - 1]);
      n := if powers[|powers| - 1] < n then n else powers[|powers| - 1] + 1;
    }
  }

  /** A division leaves one remainder. */
  lemma RemainderUnique(a: Polynomial, r: Polynomial, s: Polynomial)
    requires Remainder(a, r) && Remainder(a, s)
    ensures r == s
  {
    hide Multiple;
    var m: seq<nat> :| a == Add(r, Multiple(m));
    var n: seq<nat> :| a == Add(s, Multiple(n));
    MultipleConcat(m, n);
    var both := m + n;
    assert Multiple(both) == Add(r, s);
    var bound := Bounded(both);
    SmallMultiple(both, bound);
  }

  lemma {:induction false} NoBits(v: bv32, n: nat)
    requires n <= 32 && forall i :: n <= i < 32 ==> !Bit(v, i)
    ensures Shifted(v, n) == 0
    decreases 32 - n
  {
    hide Half, Odd;
    if n == 32 {
      NoHighBits(v);
    } else {
      NoBits(v, n + 1);
      assert !Bit(v, n);
      EvenHalf(Shifted(v, n));
    }
  }

  lemma EvenHalf(v: bv32)
    requires Half(v) == 0 && !Odd(v)
    ensures v == 0
  {
  }

  lemma XorZero(a: bv32, b: bv32)
    requires Xor(a, b) == 0
    ensures a == b
  {
  }

  lemma ReadInjective(a: bv32, b: bv32)
    requires Read(a) == Read(b)
    ensures a == b
  {
    hide Xor, Odd, Shifted;
    ReadXor(a, b);
    var both := Xor(a, b);
    assert Read(both) == {};
    forall i | 0 <= i < 32 ensures !Bit(both, i) {
      assert 31 - i !in Read(both) && !Reads(both, 31 - i);
    }
    NoBits(both, 0);
    NothingShifted(both);
    XorZero(a, b);
  }

  /** The checksum is the only value with that property. */
  lemma CrcUnique(bytes: seq<bv8>, crc: bv32)
    requires Remainder(Add(Raised(Ones(), 8 * |bytes|), Raised(Message(bytes), 32)), Add(Read(crc), Ones()))
    ensures crc == Crc32Of(bytes)
  {
    hide Raised, Message, Crc32Of, Remainder, Read;
    CrcIsRemainder(bytes);
    var m := Add(Raised(Ones(), 8 * |bytes|), Raised(Message(bytes), 32));
    var a, b := Read(crc), Read(Crc32Of(bytes));
    RemainderUnique(m, Add(a, Ones()), Add(b, Ones()));
    AddTurn(a, Ones(), Ones());
    AddTurn(b, Ones(), Ones());
    AddTurn(Ones(), {}, {});
    AddTurn(a, {}, {});
    AddTurn(b, {}, {});
    ReadInjective(crc, Crc32Of(bytes));
  }

  // ---------------------------------------------------------------- a known value

  lemma DigitStep(v: bv32, bytes: seq<bv8>, i: nat)
    requires i < |bytes| && Register(INITIAL, bytes[..i]) == v
    ensures Register(INITIAL, bytes[..i + 1]) == ByteStep(v, bytes[i])
  {
    assert bytes[..i + 1][..i] == bytes[..i];
  }

  lemma Digit1()
    ensures ByteStep(0xffff_ffff, 0x31) == 0x7c23_1048
  {
    assert BitSteps(0xffff_ffce, 4) == 0xaff5_1d84;
  }

  lemma Digit2()
    ensures ByteStep(0x7c23_1048, 0x32) == 0xb0ac_bb32
  {
    assert BitSteps(0x7c23_107a, 4) == 0xd114_92ef;
  }

  lemma Digit3()
    ensures ByteStep(0xb0ac_bb32, 0x33) == 0x77b7_9c2d
  {
    assert BitSteps(0xb0ac_bb01, 4) == 0x16bd_dbd4;
  }

  lemma Digit4()
    ensures ByteStep(0x77b7_9c2d, 0x34) == 0x641c_1f5c
  {
    assert BitSteps(0x77b7_9c19, 4) == 0xf774_ea85;
  }

  lemma Digit5()
    ensures ByteStep(0x641c_1f5c, 0x35) == 0x340a_c5e3
  {
    assert BitSteps(0x641c_1f69, 4) == 0xf64e_52b2;
  }

  lemma Digit6()
    ensures ByteStep(0x340a_c5e3, 0x36) == 0xf68d_2c9e
  {
    assert BitSteps(0x340a_c5d5, 4) == 0x682b_fda9;
  }

  lemma Digit7()
    ensures ByteStep(0xf68d_2c9e, 0x37) == 0xaffc_9660
  {
    assert BitSteps(0xf68d_2ca9, 4) == 0xff67_418e;
  }

  lemma Digit8()
    ensures ByteStep(0xaffc_9660, 0x38) == 0x651f_2550
  {
    assert BitSteps(0xaffc_9658, 4) == 0xe747_4a45;
  }

  lemma Digit9()
    ensures ByteStep(0x651f_2550, 0x39) == 0x340b_c6d9
  {
    assert BitSteps(0x651f_2569, 4) == 0xf65e_6112;
  }

  /** The check value of the catalogue: the nine digits 1 to 9. */
  lemma CheckValue()
    ensures Crc32Of([0x31, 0x32, 0x33, 0x34, 0x35, 0x36, 0x37, 0x38, 0x39]) == 0xcbf4_3926
  {
    hide ByteStep, Register;
    var bytes: seq<bv8> := [0x31, 0x32, 0x33, 0x34, 0x35, 0x36, 0x37, 0x38, 0x39];
    NoBytes();
    assert bytes[..0] == [];
    Digit1();
    DigitStep(0xffff_ffff, bytes, 0);
    Digit2();
    DigitStep(0x7c23_1048, bytes, 1);
    Digit3();
    DigitStep(0xb0ac_bb32, bytes, 2);
    Digit4();
    DigitStep(0x77b7_9c2d, bytes, 3);
    Digit5();
    DigitStep(0x641c_1f5c, bytes, 4);
    Digit6();
    DigitStep(0x340a_c5e3, bytes, 5);
    Digit7();
    DigitStep(0xf68d_2c9e, bytes, 6);
    Digit8();
    DigitStep(0xaffc_9660, bytes, 7);
    Digit9();
    DigitStep(0x651f_2550, bytes, 8);
    assert bytes[..9] == bytes;
  }

  lemma NoBytes()
    ensures Register(INITIAL, []) == INITIAL
  {
  }
}
