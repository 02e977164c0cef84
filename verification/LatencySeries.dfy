/** The logarithmic latency histogram: exact up to 31 ns, then 32 bins per power
    of two, and quantiles reported as the bin that holds the true one. */
module LatencySeries {
  import opened Protocol

  const BINS := 2_049
  /** Bins above this one stay empty: no 64-bit value reaches them. */
  const LAST_BIN := 1_919

  // ---------------------------------------------------------------- bins

  function Pow2(n: nat): (p: nat)
    ensures p > 0
  {
    if n == 0 then 1 else 2 * Pow2(n - 1)
  }

  /** The position of the highest set bit. */
  function Exponent(n: nat): nat {
    if n < 2 then 0 else 1 + Exponent(n / 2)
  }

  function ShiftedRight(n: nat, shift: nat): nat {
    if shift == 0 then n else ShiftedRight(n / 2, shift - 1)
  }

  function Bin(ns: nat): nat {
    if ns < 32 then ns
    else
      ExponentAtLeast(ns);
      (Exponent(ns) - 4) * 32 + ShiftedRight(ns, Exponent(ns) - 5) - 32
  }

  function Low(bin: nat): nat {
    if bin < 32 then bin else (32 + bin % 32) * Pow2(bin / 32 - 1)
  }

  function High(bin: nat): nat {
    if bin < 32 then bin else Low(bin) + Pow2(bin / 32 - 1) - 1
  }

  lemma {:induction false} ExponentBounds(n: nat)
    requires n > 0
    ensures Pow2(Exponent(n)) <= n < 2 * Pow2(Exponent(n))
  {
    if n >= 2 {
      ExponentBounds(n / 2);
    }
  }

  lemma ExponentAtLeast(n: nat)
    requires n >= 32
    ensures Exponent(n) >= 5
  {
    assert Exponent(n) == 1 + Exponent(n / 2);
    assert Exponent(n / 2) == 1 + Exponent(n / 2 / 2);
    assert Exponent(n / 2 / 2) == 1 + Exponent(n / 2 / 2 / 2);
    assert Exponent(n / 2 / 2 / 2) == 1 + Exponent(n / 2 / 2 / 2 / 2);
  }

  lemma Pow2Five(shift: nat)
    ensures Pow2(shift + 5) == 32 * Pow2(shift)
  {
    assert Pow2(shift + 5) == 2 * Pow2(shift + 4) && Pow2(shift + 4) == 2 * Pow2(shift + 3);
    assert Pow2(shift + 3) == 2 * Pow2(shift + 2) && Pow2(shift + 2) == 2 * Pow2(shift + 1);
  }

  lemma BelowZero(x: int, d: int)
    requires d > 0
    ensures x < 0 ==> x * d <= -d
  {
    assert x < 0 ==> (-x - 1) * d >= 0;
  }

  lemma {:induction false} ShiftedBounds(n: nat, shift: nat)
    ensures ShiftedRight(n, shift) * Pow2(shift) <= n < (ShiftedRight(n, shift) + 1) * Pow2(shift)
  {
    if shift > 0 {
      ShiftedBounds(n / 2, shift - 1);
      var r, p := ShiftedRight(n, shift), Pow2(shift - 1);
      Doubled(r, p);
      Doubled(r + 1, p);
    }
  }

  lemma Doubled(r: nat, p: nat)
    ensures r * (2 * p) == 2 * (r * p)
  {
  }

  lemma Between(q: nat, d: nat, n: nat)
    requires d > 0 && q * d <= n < (q + 1) * d && 32 * d <= n < 64 * d
    ensures 32 <= q < 64
  {
    BelowZero(q - 31, d);
    BelowZero(63 - q, d);
    assert (q - 31) * d == q * d - 31 * d;
    assert (63 - q) * d == 63 * d - q * d;
    assert (q + 1) * d == q * d + d;
  }

  /** The bin of a large value, by its exponent and its six leading bits. */
  lemma BinParts(ns: nat)
    requires ns >= 32
    ensures Exponent(ns) >= 5 && 32 <= ShiftedRight(ns, Exponent(ns) - 5) < 64
    ensures Bin(ns) / 32 == Exponent(ns) - 4 && Bin(ns) % 32 == ShiftedRight(ns, Exponent(ns) - 5) - 32
  {
    hide Exponent, Pow2, ShiftedRight;
    ExponentAtLeast(ns);
    ExponentBounds(ns);
    var shift := Exponent(ns) - 5;
    Pow2Five(shift);
    ShiftedBounds(ns, shift);
    Between(ShiftedRight(ns, shift), Pow2(shift), ns);
  }

  /** Every value lies within its bin. */
  lemma BinHolds(ns: nat)
    ensures Low(Bin(ns)) <= ns <= High(Bin(ns))
  {
    hide Exponent, Pow2, ShiftedRight;
    if ns >= 32 {
      BinParts(ns);
      hide Bin;
      ShiftedBounds(ns, Exponent(ns) - 5);
      var m, p := ShiftedRight(ns, Exponent(ns) - 5), Pow2(Exponent(ns) - 5);
      assert (m + 1) * p == m * p + p;
    }
  }

  /** Bins follow one another without gap or overlap. */
  lemma NextBin(bin: nat)
    ensures Low(bin + 1) == High(bin) + 1 && Low(bin) <= High(bin)
  {
    if bin >= 32 {
      var k := bin / 32;
      if bin % 32 == 31 {
        assert (bin + 1) / 32 == k + 1 && (bin + 1) % 32 == 0;
        assert Pow2(k) == 2 * Pow2(k - 1);
      } else {
        assert (bin + 1) / 32 == k && (bin + 1) % 32 == bin % 32 + 1;
        assert (33 + bin % 32) * Pow2(k - 1) == (32 + bin % 32) * Pow2(k - 1) + Pow2(k - 1);
      }
    } else if bin == 31 {
      assert Low(32) == 32 * Pow2(0);
    }
  }

  lemma {:induction false} LowGrows(a: nat, b: nat)
    requires a < b
    ensures High(a) < Low(b)
  {
    hide Low, High;
    if a + 1 < b {
      LowGrows(a, b - 1);
      NextBin(b - 1);
    } else {
      NextBin(a);
    }
  }

  /** The bins partition the numbers: a value is in a bin exactly when it lies
      between its ends. */
  lemma BinExact(ns: nat, bin: nat)
    ensures Bin(ns) == bin <==> Low(bin) <= ns <= High(bin)
  {
    hide Low, High, Bin;
    BinHolds(ns);
    if Bin(ns) < bin {
      LowGrows(Bin(ns), bin);
    } else if Bin(ns) > bin {
      LowGrows(bin, Bin(ns));
    }
  }

  lemma BinMonotone(a: nat, b: nat)
    requires a <= b
    ensures Bin(a) <= Bin(b)
  {
    hide Low, High, Bin;
    BinHolds(a);
    BinHolds(b);
    if Bin(b) < Bin(a) {
      LowGrows(Bin(b), Bin(a));
    }
  }

  /** No 64-bit value needs a bin that is not there. */
  lemma BinInRange(ns: U64)
    ensures Bin(ns) <= LAST_BIN < BINS
  {
    hide Bin, High;
    BinMonotone(ns, U64_LIMIT - 1);
    LastBin();
  }

  lemma PowerOf58()
    ensures Pow2(58) == 0x400_0000_0000_0000
  {
    assert Pow2(3) == 8;
    Pow2Five(3); Pow2Five(8); Pow2Five(13); Pow2Five(18); Pow2Five(23); Pow2Five(28);
    Pow2Five(33); Pow2Five(38); Pow2Five(43); Pow2Five(48); Pow2Five(53);
  }

  lemma LastEnds()
    ensures Low(LAST_BIN) == 63 * Pow2(58) && High(LAST_BIN) == 64 * Pow2(58) - 1
  {
    hide Pow2;
  }

  lemma {:induction false} LastBin()
    ensures Bin(U64_LIMIT - 1) == LAST_BIN
  {
    hide Bin;
    hide Pow2, Low, High;
    PowerOf58();
    LastEnds();
    BinExact(U64_LIMIT - 1, LAST_BIN);
  }

  /** An interval is exact below 32 and else narrower than a 32nd of its lower end. */
  lemma BinWidth(bin: nat)
    ensures if bin < 32 then Low(bin) == High(bin) else 32 * (High(bin) - Low(bin)) < Low(bin)
  {
    if bin >= 32 {
      var p := Pow2(bin / 32 - 1);
      assert (32 + bin % 32) * p == 32 * p + (bin % 32) * p && (bin % 32) * p >= 0;
    }
  }

  // ---------------------------------------------------------------- counting

  ghost function Count(samples: seq<nat>, p: nat -> bool): nat {
    if samples == [] then 0
    else Count(samples[..|samples| - 1], p) + (if p(samples[|samples| - 1]) then 1 else 0)
  }

  ghost function InBin(bin: nat): nat -> bool { (ns: nat) => Bin(ns) == bin }

  ghost function BeforeBin(bin: nat): nat -> bool { (ns: nat) => Bin(ns) < bin }

  ghost function Below(v: nat): nat -> bool { (ns: nat) => ns < v }

  ghost function UpTo(v: nat): nat -> bool { (ns: nat) => ns <= v }

  lemma CountPush(samples: seq<nat>, ns: nat, p: nat -> bool)
    ensures Count(samples + [ns], p) == Count(samples, p) + (if p(ns) then 1 else 0)
  {
    assert (samples + [ns])[..|samples|] == samples;
  }

  lemma {:induction false} CountMonotone(samples: seq<nat>, p: nat -> bool, q: nat -> bool)
    requires forall ns: nat :: p(ns) ==> q(ns)
    ensures Count(samples, p) <= Count(samples, q) <= |samples|
  {
    if samples != [] {
      CountMonotone(samples[..|samples| - 1], p, q);
    }
  }

  lemma {:induction false} CountNextBin(samples: seq<nat>, bin: nat)
    ensures Count(samples, BeforeBin(bin + 1)) == Count(samples, BeforeBin(bin)) + Count(samples, InBin(bin))
    ensures bin == 0 ==> Count(samples, BeforeBin(bin)) == 0
  {
    hide Bin;
    if samples != [] {
      CountNextBin(samples[..|samples| - 1], bin);
    }
  }

  lemma {:induction false} CountAll(samples: seq<U64>)
    ensures Count(samples, BeforeBin(BINS)) == |samples|
  {
    hide Bin;
    if samples != [] {
      CountAll(samples[..|samples| - 1]);
      BinInRange(samples[|samples| - 1]);
    }
  }

  /** `v` is the sample of the given rank: fewer than `rank` are smaller, and at
      least `rank` are not larger. */
  ghost predicate HasRank(samples: seq<nat>, v: nat, rank: nat) {
    Count(samples, Below(v)) < rank <= Count(samples, UpTo(v))
  }

  /** The first bin whose cumulative count reaches the rank holds the sample of that rank. */
  lemma RankInBin(samples: seq<nat>, v: nat, rank: nat, bin: nat)
    requires HasRank(samples, v, rank)
    requires Count(samples, BeforeBin(bin)) < rank <= Count(samples, BeforeBin(bin + 1))
    ensures Bin(v) == bin
  {
    hide Bin, Count;
    if Bin(v) < bin {
      forall ns: nat | UpTo(v)(ns) ensures BeforeBin(bin)(ns) { BinMonotone(ns, v); }
      CountMonotone(samples, UpTo(v), BeforeBin(bin));
    } else if Bin(v) > bin {
      forall ns: nat | BeforeBin(bin + 1)(ns) ensures Below(v)(ns) {
        if ns >= v { BinMonotone(v, ns); }
      }
      CountMonotone(samples, BeforeBin(bin + 1), Below(v));
    }
  }

  /** The sample of a rank exists ... */
  ghost function RankedSample(samples: seq<U64>, rank: nat, top: U64): (v: U64)
    requires 1 <= rank <= |samples| && Count(samples, UpTo(top)) >= rank
    ensures HasRank(samples, v, rank) && v <= top
    decreases top
  {
    if top > 0 && Count(samples, UpTo(top - 1)) >= rank then RankedSample(samples, rank, top - 1)
    else
      BelowIs(samples, top);
      top
  }

  lemma {:induction false} BelowIs(samples: seq<nat>, v: nat)
    ensures Count(samples, Below(v)) == if v == 0 then 0 else Count(samples, UpTo(v - 1))
  {
    if samples != [] {
      BelowIs(samples[..|samples| - 1], v);
    }
  }

  lemma {:induction false} CountWhole(samples: seq<nat>, top: nat)
    requires forall i :: 0 <= i < |samples| ==> samples[i] <= top
    ensures Count(samples, UpTo(top)) == |samples|
  {
    if samples != [] {
      CountWhole(samples[..|samples| - 1], top);
    }
  }

  /** ... and is one of the samples. */
  lemma {:induction false} RankedIsSample(samples: seq<nat>, v: nat, rank: nat)
    requires HasRank(samples, v, rank)
    ensures v in samples
  {
    if v !in samples {
      CountGap(samples, v);
    }
  }

  lemma {:induction false} CountGap(samples: seq<nat>, v: nat)
    requires v !in samples
    ensures Count(samples, Below(v)) == Count(samples, UpTo(v))
  {
    if samples != [] {
      CountGap(samples[..|samples| - 1], v);
    }
  }

  function CeilDiv(a: nat, b: nat): nat
    requires b > 0
  {
    Divided(a + b - 1, b)
  }

  function Divided(a: nat, b: nat): (q: nat)
    requires b > 0
    ensures q * b <= a < (q + 1) * b
  {
    if a < b then 0 else
      var q := Divided(a - b, b) + 1;
      assert (q - 1 + 1) * b == q * b && (q + 1) * b == q * b + b;
      q
  }

  /** The rank asked for: between 1 and the number of samples. */
  lemma RankInRange(n: nat, numerator: nat, denominator: nat)
    requires n > 0 && 1 <= numerator <= denominator
    ensures 1 <= CeilDiv(n * numerator, denominator) <= n
  {
    hide Divided;
    assert n * numerator >= 1 && n * numerator <= n * denominator;
    var q, d := CeilDiv(n * numerator, denominator), denominator;
    BelowZero(q, d);
    BelowZero(n - q, d);
    assert (n - q) * d == n * d - q * d && (q + 1) * d == q * d + d;
  }

  // ---------------------------------------------------------------- the series

  class Series {
    var n: nat
    var overBudget: nat
    var maxNs: U64
    var sumNs: nat
    const bins: array<nat>
    ghost var samples: seq<U64>

    ghost predicate Valid()
      reads this, bins
    {
      && bins.Length == BINS
      && n == |samples|
      && (forall i :: 0 <= i < |samples| ==> samples[i] <= maxNs)
      && (if samples == [] then maxNs == 0 else exists i :: 0 <= i < |samples| && samples[i] == maxNs)
      && forall i :: 0 <= i < BINS ==> bins[i] == Count(samples, InBin(i))
    }

    constructor ()
      ensures Valid() && fresh(bins) && samples == []
    {
      n, overBudget, maxNs, sumNs := 0, 0, 0, 0;
      bins := new nat[BINS](_ => 0);
      samples := [];
    }

    method Push(ns: U64, budget: U64)
      requires Valid()
      modifies this, bins
      ensures Valid() && samples == old(samples) + [ns]
      ensures sumNs == old(sumNs) + ns && overBudget == old(overBudget) + (if ns > budget then 1 else 0)
    {
      hide Bin, Exponent, ShiftedRight, Count;
      BinInRange(ns);
      var index := IndexOf(ns);
      forall i: nat ensures Count(samples + [ns], InBin(i)) == Count(samples, InBin(i)) + (if i == index then 1 else 0) {
        CountPush(samples, ns, InBin(i));
      }
      bins[index] := bins[index] + 1;
      n := n + 1;
      sumNs := sumNs + ns;
      maxNs := if ns > maxNs then ns else maxNs;
      overBudget := overBudget + (if ns > budget then 1 else 0);
      samples := samples + [ns];
      assert samples[|samples| - 1] == ns && forall i :: 0 <= i < |old(samples)| ==> samples[i] == old(samples)[i];
      assert forall i :: 0 <= i < BINS ==> bins[i] == Count(samples, InBin(i));
      assert maxNs != ns ==> old(samples) != [];
    }

    method IndexOf(ns: U64) returns (index: nat)
      ensures index == Bin(ns)
    {
      var exponent := Exponent(if ns > 1 then ns else 1);
      var shift := if exponent > 5 then exponent - 5 else 0;
      if ns < 32 {
        return ns;
      }
      ExponentAtLeast(ns);
      index := (exponent - 4) * 32 + ShiftedRight(ns, shift) - 32;
    }

    /** The bin interval around the true quantile, cut at the largest sample. */
    method Quantile(numerator: nat, denominator: nat) returns (r: Option<(U64, U64)>)
      requires Valid() && 1 <= numerator <= denominator
      ensures r.None? <==> samples == []
      ensures r.Some? ==> forall v: nat :: HasRank(samples, v, CeilDiv(|samples| * numerator, denominator)) ==>
        r.value.0 <= v <= r.value.1
      ensures r.Some? ==> r.value.1 == if High(Bin(r.value.0)) < maxNs then High(Bin(r.value.0)) else maxNs
      ensures r.Some? ==> r.value.0 == r.value.1 || 32 * (r.value.1 - r.value.0) < r.value.0
    {
      hide Bin, Count, HasRank, Low, High, Divided, Pow2;
      if n == 0 {
        return None;
      }
      var rank := CeilDiv(n * numerator, denominator);
      RankInRange(n, numerator, denominator);
      CountAll(samples);
      CountWhole(samples, maxNs);
      CountNextBin(samples, 0);
      ghost var v := RankedSample(samples, rank, maxNs);
      var count := 0;
      var i := 0;
      while i < BINS
        invariant 0 <= i <= BINS && count == Count(samples, BeforeBin(i)) < rank
      {
        CountNextBin(samples, i);
        count := count + bins[i];
        if count >= rank {
          forall w: nat | HasRank(samples, w, rank) ensures Bin(w) == i && w <= maxNs {
            RankInBin(samples, w, rank, i);
            RankedIsSample(samples, w, rank);
            assert w in samples;
          }
          r := BinInterval(i, v, maxNs);
          return;
        }
        i := i + 1;
      }
    }
  }

  /** What a bin's ends say about the values in it. */
  lemma BinEnds(i: nat, v: U64)
    requires Bin(v) == i
    ensures Low(i) <= v <= High(i) && Bin(Low(i)) == i && forall w: nat :: Bin(w) == i ==> Low(i) <= w <= High(i)
    ensures Low(i) == High(i) || 32 * (High(i) - Low(i)) < Low(i)
  {
    hide Bin, Low, High;
    BinHolds(v);
    BinWidth(i);
    NextBin(i);
    BinExact(Low(i), i);
    forall w: nat | Bin(w) == i ensures Low(i) <= w <= High(i) {
      BinHolds(w);
    }
  }

  /** The ends of an occupied bin, in 64-bit arithmetic, cut at the largest sample. */
  method BinInterval(i: nat, ghost v: U64, maxNs: U64) returns (r: Option<(U64, U64)>)
    requires Bin(v) == i && v <= maxNs
    ensures r.Some? && r.value.0 == Low(i) && r.value.1 == if High(i) < maxNs then High(i) else maxNs
    ensures r.value.0 == r.value.1 || 32 * (r.value.1 - r.value.0) < r.value.0
    ensures Bin(r.value.0) == i && forall w: nat :: Bin(w) == i && w <= maxNs ==> r.value.0 <= w <= r.value.1
  {
    hide Bin, Pow2;
    BinEnds(i, v);
    var low, high := i, i;
    if i >= 32 {
      var width := Pow2(i / 32 - 1);
      low := Wrapped((32 + i % 32) * width);
      high := low + (width - 1);
      high := if high < U64_LIMIT then high else U64_LIMIT - 1;
    }
    r := Some((if low < maxNs then low else maxNs, if high < maxNs then high else maxNs));
  }

  function Wrapped(n: nat): (w: U64)
    ensures n < U64_LIMIT ==> w == n
  {
    n % U64_LIMIT
  }

  // ---------------------------------------------------------------- the phone

  const LONG_LIMIT := 0x8000_0000_0000_0000
  const INT_LIMIT := 0x8000_0000
  /** The last bin of a value the phone can hold. */
  const LAST_PHONE_BIN := 1_887

  /** A 64-bit signed result: it wraps around. */
  function ToLong(n: int): (r: int)
    ensures -LONG_LIMIT <= n < LONG_LIMIT ==> r == n
  {
    (n + LONG_LIMIT) % (2 * LONG_LIMIT) - LONG_LIMIT
  }

  /** A cast to a 32-bit signed number. */
  function ToInt(n: int): (r: int)
    ensures -INT_LIMIT <= n < INT_LIMIT ==> r == n
  {
    (n + INT_LIMIT) % (2 * INT_LIMIT) - INT_LIMIT
  }

  /** The phone's bin of a value, every step in machine arithmetic. */
  function PhoneBin(value: nat): int {
    var exponent := Exponent(if value > 1 then value else 1);
    var shift := if exponent > 5 then exponent - 5 else 0;
    if value < 32 then ToInt(value)
    else ToInt(ToInt(ToInt((exponent - 4) * 32) + ToInt(ShiftedRight(value, shift))) - 32)
  }

  function PhoneLow(bin: nat): int {
    if bin < 32 then bin else ToLong((32 + bin % 32) * Pow2(bin / 32 - 1))
  }

  function PhoneHigh(bin: nat): int {
    if bin < 32 then bin else ToLong(ToLong(PhoneLow(bin) + ToLong(Pow2(bin / 32 - 1))) - 1)
  }

  /** The phone's rank: dividing first keeps every product within 64 bits. */
  function PhoneRankOf(n: nat, numerator: nat, denominator: nat): int
    requires denominator > 0
  {
    PhoneSum(Divided(n, denominator) * numerator, Remainder(n, denominator) * numerator, denominator)
  }

  function Remainder(n: nat, denominator: nat): (r: nat)
    requires denominator > 0
    ensures r < denominator && n == Divided(n, denominator) * denominator + r
  {
    assert (Divided(n, denominator) + 1) * denominator == Divided(n, denominator) * denominator + denominator;
    n - Divided(n, denominator) * denominator
  }

  function PhoneSum(whole: nat, part: nat, denominator: nat): int
    requires denominator > 0
  {
    var rest := ToLong(ToLong(part) + denominator - 1);
    ToLong(ToLong(whole) + (if rest >= 0 then Divided(rest, denominator) else 0))
  }

  lemma PhoneSumSame(whole: nat, part: nat, denominator: nat)
    requires denominator > 0 && whole < LONG_LIMIT && part + denominator - 1 < LONG_LIMIT
    requires whole + Divided(part + denominator - 1, denominator) < LONG_LIMIT
    ensures PhoneSum(whole, part, denominator) == whole + Divided(part + denominator - 1, denominator)
  {
    hide ToLong, Divided;
  }

  /** Values the phone can hold have the same bin, without any overflow. */
  lemma PhoneBinSame(value: nat)
    requires value < LONG_LIMIT
    ensures PhoneBin(value) == Bin(value) <= LAST_PHONE_BIN < BINS
  {
    hide Exponent, ShiftedRight;
    LastPhoneBin();
    BinMonotone(value, LONG_LIMIT - 1);
    if value >= 32 {
      BinParts(value);
    }
  }

  lemma {:induction false} LastPhoneBin()
    ensures Bin(LONG_LIMIT - 1) == LAST_PHONE_BIN && High(LAST_PHONE_BIN) == LONG_LIMIT - 1
  {
    hide Pow2, Low, High, Bin;
    PowerOf58();
    LastPhoneEnds();
    BinExact(LONG_LIMIT - 1, LAST_PHONE_BIN);
  }

  lemma LastPhoneEnds()
    ensures Low(LAST_PHONE_BIN) == 63 * Pow2(57) && High(LAST_PHONE_BIN) == 64 * Pow2(57) - 1 && Pow2(58) == 2 * Pow2(57)
  {
    assert Pow2(58) == 2 * Pow2(57);
    hide Pow2;
  }

  /** ... and the same interval. */
  lemma PhoneEndsSame(bin: nat)
    requires bin <= LAST_PHONE_BIN
    ensures PhoneLow(bin) == Low(bin) && PhoneHigh(bin) == High(bin) < LONG_LIMIT
  {
    hide Bin, Exponent, Pow2;
    LastPhoneBin();
    NextBin(bin);
    if bin < LAST_PHONE_BIN {
      LowGrows(bin, LAST_PHONE_BIN);
      NextBin(LAST_PHONE_BIN);
    }
    if bin >= 32 {
      assert Low(bin) >= Pow2(bin / 32 - 1) by {
        Distributed(31 + bin % 32, 1, Pow2(bin / 32 - 1));
      }
    }
  }

  /** Every intermediate product fits 64 bits. */
  lemma PhoneRankFits(n: nat, numerator: nat, denominator: nat)
    requires n < LONG_LIMIT && 1 <= numerator <= denominator < INT_LIMIT
    ensures Divided(n, denominator) * numerator <= n < LONG_LIMIT
    ensures Remainder(n, denominator) * numerator + denominator - 1 < LONG_LIMIT
  {
    hide Divided, Remainder;
    Multiplied(Divided(n, denominator), numerator, denominator);
    RestFits(Remainder(n, denominator), numerator, denominator);
  }

  /** The phone asks for the same rank, and nothing overflows on the way. */
  lemma PhoneRankSame(n: nat, numerator: nat, denominator: nat)
    requires n < LONG_LIMIT && 1 <= numerator <= denominator < INT_LIMIT
    ensures PhoneRankOf(n, numerator, denominator) == CeilDiv(n * numerator, denominator) <= n
  {
    hide Divided, Remainder, CeilDiv, PhoneSum;
    PhoneRankFits(n, numerator, denominator);
    PhoneRank(n, numerator, denominator);
    if n > 0 {
      RankInRange(n, numerator, denominator);
    } else {
      NoRank(numerator, denominator);
    }
    PhoneSumSame(Divided(n, denominator) * numerator, Remainder(n, denominator) * numerator, denominator);
  }

  lemma NoRank(numerator: nat, d: nat)
    requires d > 0
    ensures CeilDiv(0 * numerator, d) == 0
  {
    DividedUnique(d - 1, d, 0);
  }

  lemma RestFits(r: nat, numerator: nat, d: nat)
    requires r < d < INT_LIMIT && numerator <= d
    ensures r * numerator + d - 1 < LONG_LIMIT
  {
    Multiplied(r, numerator, INT_LIMIT);
    Multiplied(INT_LIMIT, r, INT_LIMIT);
  }

  lemma Multiplied(a: nat, b: nat, c: nat)
    requires b <= c
    ensures a * b <= a * c == c * a
  {
  }

  /** The split rank formula equals the rounded-up quotient. */
  lemma PhoneRank(n: nat, numerator: nat, denominator: nat)
    requires denominator > 0
    ensures Divided(n, denominator) * numerator
          + Divided(Remainder(n, denominator) * numerator + denominator - 1, denominator)
         == CeilDiv(n * numerator, denominator)
  {
    hide Divided, Remainder;
    var q, r, d := Divided(n, denominator), Remainder(n, denominator), denominator;
    RankSplit(q, r, d, numerator, Divided(r * numerator + d - 1, d));
    DividedUnique(n * numerator + d - 1, d, q * numerator + Divided(r * numerator + d - 1, d));
  }

  lemma RankSplit(q: nat, r: nat, d: nat, numerator: nat, x: nat)
    requires x * d <= r * numerator + d - 1 < (x + 1) * d
    ensures (q * numerator + x) * d <= (q * d + r) * numerator + d - 1 < (q * numerator + x + 1) * d
  {
    Distributed(q * d, r, numerator);
    Distributed(q * numerator, x, d);
    Distributed(q * numerator, x + 1, d);
    assert (q * d) * numerator == (q * numerator) * d;
  }

  lemma Distributed(a: nat, b: nat, c: nat)
    ensures (a + b) * c == a * c + b * c
  {
  }

  lemma DividedUnique(a: nat, b: nat, q: nat)
    requires b > 0 && q * b <= a < (q + 1) * b
    ensures Divided(a, b) == q
  {
    var p := Divided(a, b);
    BelowZero(p - q, b);
    BelowZero(q - p, b);
    assert (p - q) * b == p * b - q * b && (q - p) * b == q * b - p * b;
    assert (p + 1) * b == p * b + b && (q + 1) * b == q * b + b;
  }
}
