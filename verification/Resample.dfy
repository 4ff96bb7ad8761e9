/** The phase arithmetic of mixconvert.cpp: carries, fetches and sample counts. */
module Resample {
  import opened Words
  import BitFields

  type i16 = x: int | -0x8000 <= x < 0x8000

  const ONE := 0x1_0000        // 16.16 fixed point
  const MAXSAMPLES := 6400     // 800 * 8

  /** Phase after `n` steps; the loop keeps only the low 16 bits on a carry. */
  function PhaseAt(phase: nat, inc: nat, n: nat): (p: nat)
    requires phase < ONE
    ensures p < ONE
  {
    if n == 0 then phase else (PhaseAt(phase, inc, n - 1) + inc) % ONE
  }

  /** The phase for every increment. */
  lemma {:induction false} PhaseIs(phase: nat, inc: nat, n: nat)
    requires phase < ONE
    ensures PhaseAt(phase, inc, n) == (phase + n * inc) % 0x1_0000
  {
    if n == 0 {
      SmallMod(phase, ONE);
    } else {
      PhaseIs(phase, inc, n - 1);
      assert n * inc == (n - 1) * inc + inc;
      ModAdd(phase + (n - 1) * inc, inc);
    }
  }

  lemma ModAdd(a: nat, b: nat)
    ensures (a % ONE + b) % ONE == (a + b) % ONE
  {}

  /** The phase after some steps and then some more. */
  lemma {:induction false} PhaseAppend(phase: nat, inc: nat, m: nat, n: nat)
    requires phase < ONE
    ensures PhaseAt(PhaseAt(phase, inc, m), inc, n) == PhaseAt(phase, inc, m + n)
  {
    if n > 0 {
      PhaseAppend(phase, inc, m, n - 1);
    }
  }

  /** Input samples fetched in `n` steps: one per step whose phase overflows 16 bits. */
  function Carries(phase: nat, inc: nat, n: nat): (c: nat)
    requires phase < ONE
    ensures c <= n
  {
    if n == 0 then 0
    else Carries(phase, inc, n - 1) + (if (PhaseAt(phase, inc, n - 1) + inc) / ONE != 0 then 1 else 0)
  }

  /** What is written after `k` fetches: two fetches behind, and the first sample is fetched twice. */
  function Sample(pIn: seq<i16>, prev: i16, k: nat): i16
    requires k <= |pIn|
  {
    if k == 0 then prev else if k == 1 then pIn[0] else pIn[k - 2]
  }

  lemma {:induction false} CarriesMono(phase: nat, inc: nat, m: nat, n: nat)
    requires phase < ONE && m <= n
    ensures Carries(phase, inc, m) <= Carries(phase, inc, n)
  {
    if m < n {
      CarriesMono(phase, inc, m, n - 1);
    }
  }

  /** The output of one call of Filter. */
  function FilterOut(pIn: seq<i16>, phase: nat, inc: nat, prev: i16, n: nat): (out: seq<i16>)
    requires phase < ONE && Carries(phase, inc, n) <= |pIn|
    ensures |out| == n
  {
    seq(n, i requires 0 <= i < n => CarriesMono(phase, inc, i + 1, n); Sample(pIn, prev, Carries(phase, inc, i + 1)))
  }

  /** Phase is never gained: every carry stands for at least 65536. */
  lemma {:induction false} CarriesBound(phase: nat, inc: nat, n: nat)
    requires phase < ONE
    ensures ONE * Carries(phase, inc, n) + PhaseAt(phase, inc, n) <= phase + n * inc
  {
    if n > 0 {
      CarriesBound(phase, inc, n - 1);
      assert n * inc == (n - 1) * inc + inc;
    }
  }

  /** Phase is conserved over `n` steps. */
  ghost predicate Conserved(phase: nat, inc: nat, n: nat)
    requires phase < ONE
  {
    ONE * Carries(phase, inc, n) + PhaseAt(phase, inc, n) == phase + n * inc
  }

  lemma {:induction false} ConservedBelowOne(phase: nat, inc: nat, n: nat)
    requires phase < ONE && inc <= ONE
    ensures Conserved(phase, inc, n)
    ensures Carries(phase, inc, n) == (phase + n * inc) / ONE
  {
    if n > 0 {
      ConservedBelowOne(phase, inc, n - 1);
      assert n * inc == (n - 1) * inc + inc;
      OneCarry(PhaseAt(phase, inc, n - 1) + inc);
    } else {
      assert n * inc == 0;
    }
    WholePart(Carries(phase, inc, n), PhaseAt(phase, inc, n), phase + n * inc);
  }

  /** Below two units there is at most one to carry. */
  lemma OneCarry(sum: nat)
    requires sum < 2 * ONE
    ensures sum == ONE * (if sum / ONE != 0 then 1 else 0) + sum % ONE
  {}

  lemma WholePart(c: nat, p: nat, total: nat)
    requires ONE * c + p == total && p < ONE
    ensures total / ONE == c
  {}

  function Min(a: nat, b: nat): nat { if a < b then a else b }

  /** Fetches for every increment: the whole part of the total phase, but never more than one a step. */
  lemma {:induction false} CarriesIs(phase: nat, inc: nat, n: nat)
    requires phase < ONE
    ensures Carries(phase, inc, n) == Min(n, (phase + n * inc) / 0x1_0000)
  {
    if inc <= ONE {
      ConservedBelowOne(phase, inc, n);
      CarriesBound(phase, inc, n);
    } else if n > 0 {
      CarriesIs(phase, inc, n - 1);
      Product(n, inc);
      Product(n - 1, inc);
      assert n * inc == (n - 1) * inc + inc;
    } else {
      assert n * inc == 0;
    }
  }

  lemma Product(n: nat, inc: nat)
    requires inc > ONE
    ensures n * inc >= n * ONE
  {}

  /** Output `i` for every increment, up-sampling or down: the input two fetches back. */
  lemma OutputIs(pIn: seq<i16>, phase: nat, inc: nat, prev: i16, n: nat, i: nat)
    requires phase < ONE && Carries(phase, inc, n) <= |pIn| && i < n
    ensures var k := Min(i + 1, (phase + (i + 1) * inc) / 0x1_0000);
      k <= |pIn| && FilterOut(pIn, phase, inc, prev, n)[i] == (if k == 0 then prev else pIn[if k < 2 then 0 else k - 2])
  {
    CarriesIs(phase, inc, i + 1);
    CarriesMono(phase, inc, i + 1, n);
  }

  /** Phase is conserved in every run if and only if the input is not consumed faster than the
      output is produced; above that, a step drops the whole samples it skips but one. */
  lemma ConservedIff(inc: nat)
    ensures inc <= ONE <==> forall phase: nat, n: nat :: phase < ONE ==> Conserved(phase, inc, n)
  {
    if inc <= ONE {
      forall phase: nat, n: nat | phase < ONE ensures Conserved(phase, inc, n) {
        ConservedBelowOne(phase, inc, n);
      }
    } else {
      LosesPhase(inc);
    }
  }

  /** One step from the largest phase loses a whole sample. */
  lemma LosesPhase(inc: nat)
    requires inc > ONE
    ensures !Conserved(ONE - 1, inc, 1)
  {
    assert PhaseAt(ONE - 1, inc, 0) == ONE - 1;
    assert Carries(ONE - 1, inc, 1) == 1;
    assert PhaseAt(ONE - 1, inc, 1) < ONE;
    assert 1 * inc == inc;
  }

  function OutCount(nSamples: nat, outRate: nat, inRate: nat): nat
    requires inRate > 0
  {
    nSamples * outRate / inRate
  }

  function PhaseInc(inRate: nat, outRate: nat): nat
    requires outRate > 0
  {
    inRate * ONE / outRate
  }

  lemma DivLe(a: nat, b: nat)
    requires b > 0
    ensures a / b * b <= a < (a / b + 1) * b
  {
    assert a == a / b * b + a % b;
    assert (a / b + 1) * b == a / b * b + b;
  }

  /** The two floors together: the steps of a block never advance past the input supplied. */
  lemma StepsFit(nSamples: nat, inRate: nat, outRate: nat)
    requires inRate > 0 && outRate > 0
    ensures OutCount(nSamples, outRate, inRate) * PhaseInc(inRate, outRate) <= nSamples * ONE
  {
    var n, inc := OutCount(nSamples, outRate, inRate), PhaseInc(inRate, outRate);
    DivLe(nSamples * outRate, inRate);
    DivLe(inRate * ONE, outRate);
    // n * inRate <= nSamples * outRate and inc * outRate <= inRate * ONE
    Monotone(n * inRate, nSamples * outRate, inc * outRate, inRate * ONE);
    Rearrange(n, inRate, inc, outRate, nSamples);
    CancelLe(n * inc, nSamples * ONE, inRate * outRate);
  }

  lemma Monotone(a: nat, b: nat, c: nat, d: nat)
    requires a <= b && c <= d
    ensures a * c <= b * d
  {
    assert a * c <= b * c;
    assert b * c <= b * d;
  }

  lemma Rearrange(n: nat, i: nat, inc: nat, o: nat, s: nat)
    ensures (n * i) * (inc * o) == (n * inc) * (i * o)
    ensures (s * o) * (i * ONE) == (s * ONE) * (i * o)
  {}

  lemma CancelLe(a: nat, b: nat, c: nat)
    requires a * c <= b * c && c > 0
    ensures a <= b
  {
    assert (b + 1) * c == b * c + c;
    if a >= b + 1 {
      Monotone(b + 1, a, c, c);
      assert false;
    }
  }

  /** Filter never fetches past the samples supplied, whatever the rates and the starting phase. */
  lemma FetchesInBounds(nSamples: nat, inRate: nat, outRate: nat, phase: nat, n: nat)
    requires inRate > 0 && outRate > 0 && phase < ONE
    requires n <= OutCount(nSamples, outRate, inRate)
    ensures Carries(phase, PhaseInc(inRate, outRate), n) <= nSamples
  {
    var inc, all := PhaseInc(inRate, outRate), OutCount(nSamples, outRate, inRate);
    CarriesMono(phase, inc, n, all);
    CarriesBound(phase, inc, all);
    StepsFit(nSamples, inRate, outRate);
  }

  /** Supplying what GetOutputSamples asks for yields at most the requested samples and falls
      short by less than one input sample's worth plus one. */
  lemma RequestedSamples(requested: nat, inRate: nat, outRate: nat)
    requires inRate > 0 && outRate > 0
    ensures var p := OutCount(OutCount(requested, inRate, outRate), outRate, inRate);
      p <= requested && (requested - p - 1) * inRate < outRate
  {
    var m := OutCount(requested, inRate, outRate);
    var p := OutCount(m, outRate, inRate);
    DivLe(requested * inRate, outRate);
    DivLe(m * outRate, inRate);
    CancelLe(p, requested, inRate);
    assert (m + 1) * outRate == m * outRate + outRate;
    assert (p + 1) * inRate == p * inRate + inRate;
    assert (requested - p - 1) * inRate == requested * inRate - (p + 1) * inRate;
  }

  // ---- the same in 32 bits ----

  lemma QuotientFits(x: nat, rate: nat)
    requires x < W32 && rate > 0
    ensures x / rate < W32
  {
    var q := DivPart(x, rate);
    FactorLe(q, rate, x);
  }

  lemma DivPart(a: nat, b: nat) returns (q: nat)
    requires b > 0
    ensures q == a / b && q * b <= a
  {
    q := a / b;
    assert a == q * b + a % b;
  }

  lemma FactorLe(q: nat, rate: nat, x: nat)
    requires q * rate <= x && rate > 0
    ensures q <= x
  {
    Monotone(q, q, 1, rate);
  }

  /** The Uint32 expression `a * b / c`. */
  function MulDiv32(a: nat, b: nat, c: nat): (q: nat)
    requires c > 0
    ensures q < W32
  {
    QuotientFits(a * b % W32, c);
    a * b % W32 / c
  }

  /** A Uint32 stored to an Int32. */
  function Signed32(x: nat): int
    requires x < W32
  {
    if x < 0x8000_0000 then x else x - W32
  }

  /** The Int32 count of OutputSamplesStereo. */
  function Count32(nSamples: nat, outRate: nat, inRate: nat): int
    requires inRate > 0
  {
    Signed32(MulDiv32(nSamples, outRate, inRate))
  }

  /** Samples it outputs: none when the count has become negative. */
  function OutCount32(nSamples: nat, outRate: nat, inRate: nat): nat
    requires inRate > 0
  {
    if Count32(nSamples, outRate, inRate) > 0 then Count32(nSamples, outRate, inRate) else 0
  }

  function PhaseInc32(inRate: nat, outRate: nat): nat
    requires outRate > 0
  {
    MulDiv32(inRate, ONE, outRate)
  }

  lemma DivMono(a: nat, b: nat, m: nat)
    requires m > 0 && a <= b
    ensures a / m <= b / m
  {
    DivLe(a, m);
    DivLe(b, m);
    if a / m > b / m {
      Monotone(b / m + 1, a / m, m, m);
    }
  }

  lemma ModLe(a: nat, m: nat)
    requires m > 0
    ensures a % m <= a
  {}

  /** The counts in numbers. */
  lemma CountsAre(a: nat, b: nat, c: nat)
    requires c > 0
    ensures OutCount(a, b, c) == a * b / c && PhaseInc(a, c) == a * 0x1_0000 / c
    ensures MulDiv32(a, b, c) == a * b % 0x1_0000_0000 / c && PhaseInc32(a, c) == a * 0x1_0000 % 0x1_0000_0000 / c
    ensures OutCount32(a, b, c) == if MulDiv32(a, b, c) < 0x8000_0000 then MulDiv32(a, b, c) else 0
  {}

  /** Overflow only ever makes the counts smaller. */
  lemma Count32Le(nSamples: nat, outRate: nat, inRate: nat)
    requires inRate > 0
    ensures OutCount32(nSamples, outRate, inRate) <= OutCount(nSamples, outRate, inRate)
  {
    ModLe(nSamples * outRate, W32);
    DivMono(nSamples * outRate % W32, nSamples * outRate, inRate);
  }

  lemma Inc32Le(inRate: nat, outRate: nat)
    requires outRate > 0
    ensures PhaseInc32(inRate, outRate) <= PhaseInc(inRate, outRate)
  {
    ModLe(inRate * ONE, W32);
    DivMono(inRate * ONE % W32, inRate * ONE, outRate);
  }

  /** A quotient survives 32 bits if and only if neither the product nor the quotient overflows. */
  lemma QuotientIff(a: nat, b: nat, rate: nat)
    requires 0 < rate < W32
    ensures Signed32(MulDiv32(a, b, rate)) == OutCount(a, b, rate)
      <==> a * b < W32 && OutCount(a, b, rate) < 0x8000_0000
  {
    var product := a * b;
    if product < W32 {
      SmallMod(product, W32);
    } else {
      ModLe(product - W32, W32);
      assert product % W32 == (product - W32) % W32;
      BitFields.DivAddMultiple(product - rate, 1, rate);
      assert product - rate + 1 * rate == product;
      DivMono(product % W32, product - rate, rate);
    }
  }

  /** The count is exact if and only if nothing overflows. */
  lemma OutCount32Iff(nSamples: nat, outRate: nat, inRate: nat)
    requires 0 < inRate < W32
    ensures OutCount32(nSamples, outRate, inRate) == OutCount(nSamples, outRate, inRate)
      <==> nSamples * outRate < W32 && OutCount(nSamples, outRate, inRate) < 0x8000_0000
  {
    QuotientIff(nSamples, outRate, inRate);
    if Count32(nSamples, outRate, inRate) < 0 {
      ModLe(nSamples * outRate, W32);
      DivMono(nSamples * outRate % W32, nSamples * outRate, inRate);
    }
  }

  /** Where asking does not overflow, converting what was asked for does not either. */
  lemma Requested32(requested: nat, inRate: nat, outRate: nat)
    requires 0 < inRate < W32 && 0 < outRate && requested < 0x8000_0000 && requested * inRate < W32
    ensures var m := OutCount(requested, inRate, outRate);
      OutCount32(m, outRate, inRate) == OutCount(m, outRate, inRate)
  {
    hide OutCount32;
    var m := OutCount(requested, inRate, outRate);
    RequestedSamples(requested, inRate, outRate);
    DivLe(requested * inRate, outRate);
    OutCount32Iff(m, outRate, inRate);
  }

  /** Filter never fetches past the input, overflow or not. */
  lemma EnoughInput(pIn: seq<i16>, inRate: nat, outRate: nat)
    requires inRate > 0 && outRate > 0
    ensures Enough(pIn, PhaseInc32(inRate, outRate), OutCount32(|pIn|, outRate, inRate))
  {
    hide PhaseInc32, OutCount32, PhaseInc, OutCount, Carries, PhaseAt;
    var inc, all := PhaseInc32(inRate, outRate), OutCount32(|pIn|, outRate, inRate);
    Inc32Le(inRate, outRate);
    Count32Le(|pIn|, outRate, inRate);
    forall phase: nat, m: nat | phase < ONE && m <= all
      ensures Carries(phase, inc, m) <= |pIn|
    {
      CarriesBound(phase, inc, m);
      StepsFit(|pIn|, inRate, outRate);
      Monotone(m, OutCount(|pIn|, outRate, inRate), inc, PhaseInc(inRate, outRate));
      FewCarries(Carries(phase, inc, m), phase + m * inc, |pIn|);
    }
  }

  lemma FewCarries(c: nat, total: nat, n: nat)
    requires ONE * c <= total < (n + 1) * ONE
    ensures c <= n
  {}

  // ---- blocks ----

  function LastSample(pIn: seq<i16>, phase: nat, inc: nat, prev: i16, n: nat): i16
    requires phase < ONE && Carries(phase, inc, n) <= |pIn|
  {
    Sample(pIn, prev, Carries(phase, inc, n))
  }

  /** Enough input for `n` outputs cut into blocks, each of which starts again at the first sample. */
  ghost predicate Enough(pIn: seq<i16>, inc: nat, n: nat) {
    forall phase: nat, m: nat :: phase < ONE && m <= n ==> Carries(phase, inc, m) <= |pIn|
  }

  /** The output of one call of OutputSamplesStereo on one channel. */
  ghost function BlocksOut(pIn: seq<i16>, phase: nat, inc: nat, prev: i16, n: nat): (out: seq<i16>)
    requires phase < ONE && Enough(pIn, inc, n)
    ensures |out| == n
    decreases n
  {
    if n <= MAXSAMPLES then FilterOut(pIn, phase, inc, prev, n)
    else FilterOut(pIn, phase, inc, prev, MAXSAMPLES)
         + BlocksOut(pIn, PhaseAt(phase, inc, MAXSAMPLES), inc, LastSample(pIn, phase, inc, prev, MAXSAMPLES),
                     n - MAXSAMPLES)
  }

  /** The sample held after one call. */
  ghost function BlocksLast(pIn: seq<i16>, phase: nat, inc: nat, prev: i16, n: nat): i16
    requires phase < ONE && Enough(pIn, inc, n)
    decreases n
  {
    if n <= MAXSAMPLES then LastSample(pIn, phase, inc, prev, n)
    else BlocksLast(pIn, PhaseAt(phase, inc, MAXSAMPLES), inc, LastSample(pIn, phase, inc, prev, MAXSAMPLES),
                    n - MAXSAMPLES)
  }

  /** Output `6400 * b + j`, for every rate: block `b` starts from the phase of all steps before it,
      reads the input from its start again, and until it has fetched repeats the output before it. */
  lemma {:induction false} BlockAt(pIn: seq<i16>, phase: nat, inc: nat, prev: i16, n: nat, b: nat, j: nat)
    requires phase < 0x1_0000 && Enough(pIn, inc, n) && j < 6400 && 6400 * b + j < n
    ensures var out := BlocksOut(pIn, phase, inc, prev, n);
      var start := (phase + 6400 * b * inc) % 0x1_0000;
      var k := Min(j + 1, (start + (j + 1) * inc) / 0x1_0000);
      && k <= |pIn|
      && out[6400 * b + j] == if k == 0 then (if b == 0 then prev else out[6400 * b - 1])
                              else pIn[if k < 2 then 0 else k - 2]
    decreases b
  {
    hide Carries, PhaseAt, FilterOut, LastSample, Min;
    var out := BlocksOut(pIn, phase, inc, prev, n);
    if b == 0 {
      FirstBlock(pIn, phase, inc, prev, n, j);
    } else {
      var next, held := PhaseAt(phase, inc, 6400), LastSample(pIn, phase, inc, prev, 6400);
      var rest := BlocksOut(pIn, next, inc, held, n - 6400);
      assert out == FilterOut(pIn, phase, inc, prev, 6400) + rest;
      BlockAt(pIn, next, inc, held, n - 6400, b - 1, j);
      assert out[6400 * b + j] == rest[6400 * (b - 1) + j];
      PhaseIs(phase, inc, 6400);
      StartPhase(phase, inc, b);
      if b == 1 {
        LastIsOutput(pIn, phase, inc, prev);
        assert out[6399] == FilterOut(pIn, phase, inc, prev, 6400)[6399];
      } else {
        assert out[6400 * b - 1] == rest[6400 * (b - 1) - 1];
      }
    }
  }

  lemma FirstBlock(pIn: seq<i16>, phase: nat, inc: nat, prev: i16, n: nat, j: nat)
    requires phase < 0x1_0000 && Enough(pIn, inc, n) && j < 6400 && j < n
    ensures var out := BlocksOut(pIn, phase, inc, prev, n);
      var start := (phase + 6400 * 0 * inc) % 0x1_0000;
      var k := Min(j + 1, (start + (j + 1) * inc) / 0x1_0000);
      && k <= |pIn|
      && out[j] == if k == 0 then prev else pIn[if k < 2 then 0 else k - 2]
  {
    hide Carries, PhaseAt, FilterOut, LastSample, Min;
    var m := if n <= 6400 then n else 6400;
    assert Carries(phase, inc, m) <= |pIn|;
    OutputIs(pIn, phase, inc, prev, m, j);
    SmallMod(phase, 0x1_0000);
    assert 6400 * 0 * inc == 0;
    assert BlocksOut(pIn, phase, inc, prev, n)[j] == FilterOut(pIn, phase, inc, prev, m)[j];
  }

  lemma StartPhase(phase: nat, inc: nat, b: nat)
    requires b > 0
    ensures ((phase + 6400 * inc) % 0x1_0000 + 6400 * (b - 1) * inc) % 0x1_0000 == (phase + 6400 * b * inc) % 0x1_0000
  {
    ModAdd(phase + 6400 * inc, 6400 * (b - 1) * inc);
    assert 6400 * b * inc == 6400 * inc + 6400 * (b - 1) * inc;
  }

  lemma LastIsOutput(pIn: seq<i16>, phase: nat, inc: nat, prev: i16)
    requires phase < ONE && Carries(phase, inc, 6400) <= |pIn|
    ensures FilterOut(pIn, phase, inc, prev, 6400)[6399] == LastSample(pIn, phase, inc, prev, 6400)
  {
    hide Carries, PhaseAt;
  }

  /** At equal rates an input of up to 6400 samples comes out as its first sample and then the input
      without its last; of a longer one, output 6400 is the first sample again. */
  lemma UnitBlocks(pIn: seq<i16>, prev: i16)
    ensures Enough(pIn, 0x1_0000, |pIn|)
    ensures |pIn| <= 6400 ==>
      BlocksOut(pIn, 0, 0x1_0000, prev, |pIn|) == if pIn == [] then [] else [pIn[0]] + pIn[..|pIn| - 1]
    ensures |pIn| > 6400 ==> BlocksOut(pIn, 0, 0x1_0000, prev, |pIn|)[6400] == pIn[0]
  {
    hide Carries, PhaseAt, FilterOut, LastSample, Min;
    UnitEnough(pIn);
    if |pIn| > 6400 {
      BlockAt(pIn, 0, 0x1_0000, prev, |pIn|, 1, 0);
      UnitStart();
    } else if pIn != [] {
      UnitRateDelays(pIn, prev, |pIn|);
    }
  }

  lemma UnitStart()
    ensures Min(0 + 1, ((0 + 6400 * 1 * 0x1_0000) % 0x1_0000 + (0 + 1) * 0x1_0000) / 0x1_0000) == 1
  {}

  lemma UnitEnough(pIn: seq<i16>)
    ensures Enough(pIn, 0x1_0000, |pIn|)
  {
    hide Carries;
    forall phase: nat, m: nat | phase < ONE && m <= |pIn| ensures Carries(phase, 0x1_0000, m) <= |pIn| {
      assert Carries(phase, 0x1_0000, m) <= m;
    }
  }

  /** What is held after a call is its last output. */
  lemma {:induction false} HeldIs(pIn: seq<i16>, phase: nat, inc: nat, prev: i16, n: nat)
    requires phase < 0x1_0000 && Enough(pIn, inc, n)
    ensures BlocksLast(pIn, phase, inc, prev, n) == if n == 0 then prev else BlocksOut(pIn, phase, inc, prev, n)[n - 1]
    decreases n
  {
    hide PhaseAt;
    if n > MAXSAMPLES {
      HeldIs(pIn, PhaseAt(phase, inc, MAXSAMPLES), inc, LastSample(pIn, phase, inc, prev, MAXSAMPLES), n - MAXSAMPLES);
    } else {
      assert Carries(phase, inc, n) <= |pIn|;
    }
  }

  // ---- a sequence of calls ----

  /** Samples output by a sequence of calls at the same rates. */
  function CallsCount(ins: seq<seq<i16>>, inRate: nat, outRate: nat): nat
    requires inRate > 0
  {
    if ins == [] then 0 else OutCount32(|ins[0]|, outRate, inRate) + CallsCount(ins[1..], inRate, outRate)
  }

  /** What they output on one channel: each call goes on from the phase and the sample the one
      before left. */
  ghost function CallsOut(ins: seq<seq<i16>>, phase: nat, prev: i16, inRate: nat, outRate: nat): (out: seq<i16>)
    requires phase < ONE && inRate > 0 && outRate > 0
    ensures |out| == CallsCount(ins, inRate, outRate)
    decreases |ins|
  {
    if ins == [] then []
    else
      EnoughInput(ins[0], inRate, outRate);
      var n, inc := OutCount32(|ins[0]|, outRate, inRate), PhaseInc32(inRate, outRate);
      BlocksOut(ins[0], phase, inc, prev, n)
      + CallsOut(ins[1..], PhaseAt(phase, inc, n), BlocksLast(ins[0], phase, inc, prev, n), inRate, outRate)
  }

  /** Each input delayed by one sample, its first sample repeated and its last one lost. */
  function DelayedEach(ins: seq<seq<i16>>): seq<i16> {
    if ins == [] then []
    else (if ins[0] == [] then [] else [ins[0][0]] + ins[0][..|ins[0]| - 1]) + DelayedEach(ins[1..])
  }

  /** At equal rates every call of up to 6400 samples outputs its own input delayed by one, whatever
      the calls before left: the last sample of a call is never heard. */
  lemma {:induction false} CallsUnitRate(ins: seq<seq<i16>>, prev: i16, rate: nat)
    requires 0 < rate < ONE
    requires forall i :: 0 <= i < |ins| ==> |ins[i]| <= 6400 && |ins[i]| * rate < 0x1_0000_0000
    ensures CallsOut(ins, 0, prev, rate, rate) == DelayedEach(ins)
    decreases |ins|
  {
    hide PhaseAt, Carries, FilterOut, Enough, OutCount32, PhaseInc32, LastSample;
    if ins != [] {
      var n := |ins[0]|;
      UnitRates(n, rate);
      UnitPhase(n);
      EnoughInput(ins[0], rate, rate);
      if n > 0 {
        UnitRateDelays(ins[0], prev, n);
      } else {
        assert BlocksOut(ins[0], 0, ONE, prev, 0) == [];
      }
      CallsUnitRate(ins[1..], BlocksLast(ins[0], 0, ONE, prev, n), rate);
    }
  }

  lemma UnitRates(n: nat, rate: nat)
    requires 0 < rate < ONE && n < 0x8000_0000 && n * rate < W32
    ensures OutCount32(n, rate, rate) == n && PhaseInc32(rate, rate) == ONE
  {
    DivModUnique(0, n, rate);
    DivModUnique(0, ONE, rate);
    assert rate * ONE == ONE * rate < W32;
    SmallMod(n * rate, W32);
    SmallMod(rate * ONE, W32);
  }

  /** At equal rates the converter is a delay of one sample that repeats the first one. */
  lemma UnitRateDelays(pIn: seq<i16>, prev: i16, n: nat)
    requires 0 < n <= |pIn|
    ensures Carries(0, ONE, n) <= |pIn|
    ensures FilterOut(pIn, 0, ONE, prev, n) == [pIn[0]] + pIn[..n - 1]
  {
    ConservedBelowOne(0, ONE, n);
    forall i | 0 <= i < n
      ensures FilterOut(pIn, 0, ONE, prev, n)[i] == ([pIn[0]] + pIn[..n - 1])[i]
    {
      ConservedBelowOne(0, ONE, i + 1);
      assert Carries(0, ONE, i + 1) == i + 1;
    }
  }

  /** Cutting into blocks makes no difference to this channel's output. */
  ghost predicate Seamless(pIn: seq<i16>, phase: nat, inc: nat, prev: i16, n: nat) {
    phase < ONE && Enough(pIn, inc, n) ==>
      Carries(phase, inc, n) <= |pIn| && BlocksOut(pIn, phase, inc, prev, n) == FilterOut(pIn, phase, inc, prev, n)
  }

  lemma {:induction false} UnitPhase(m: nat)
    ensures PhaseAt(0, ONE, m) == 0
  {
    if m > 0 {
      UnitPhase(m - 1);
    }
  }

  /** The input pointer is not advanced between blocks, so at equal rates a second block repeats
      the first samples instead of going on. */
  lemma SecondBlockRepeats(pIn: seq<i16>, n: nat, rate: nat)
    requires n > 6400 && |pIn| == n && pIn[0] != pIn[6399] && rate > 0
    ensures OutCount(n, rate, rate) == n && PhaseInc(rate, rate) == ONE
    ensures rate < ONE && n < 0x8000_0000 && n * rate < W32 ==>
      OutCount32(n, rate, rate) == n && PhaseInc32(rate, rate) == ONE
    ensures !Seamless(pIn, 0, PhaseInc(rate, rate), 0, OutCount(n, rate, rate))
  {
    EqualRates(n, rate);
    if rate < ONE && n < 0x8000_0000 && n * rate < W32 {
      UnitRates(n, rate);
    }
    UnitRepeats(pIn, n);
  }

  lemma EqualRates(n: nat, rate: nat)
    requires rate > 0
    ensures OutCount(n, rate, rate) == n && PhaseInc(rate, rate) == ONE
  {
    DivModUnique(0, n, rate);
    DivModUnique(0, ONE, rate);
    assert rate * ONE == ONE * rate;
  }

  lemma UnitRepeats(pIn: seq<i16>, n: nat)
    requires n > 6400 && |pIn| == n && pIn[0] != pIn[6399]
    ensures !Seamless(pIn, 0, 0x1_0000, 0, n)
  {
    var k := MAXSAMPLES;
    UnitRateDelays(pIn, 0, n);
    UnitPhase(k);
    assert Enough(pIn, ONE, n);
    var prev := LastSample(pIn, 0, ONE, 0, k);
    var second := BlocksOut(pIn, 0, ONE, prev, n - k);
    assert Carries(0, ONE, 0) == 0 && PhaseAt(0, ONE, 0) == 0;
    assert Carries(0, ONE, 1) == 1;
    assert second[0] == pIn[0];
    assert BlocksOut(pIn, 0, ONE, 0, n)[k] == second[0];
    assert FilterOut(pIn, 0, ONE, 0, n)[k] == pIn[k - 1];
  }

  /** The output is that of one uninterrupted filter, on every input, if and only if it fits one
      block of 6400 samples. */
  lemma SeamlessIff(n: nat)
    ensures n <= 6400 <==>
      forall pIn: seq<i16>, phase: nat, inc: nat, prev: i16 :: Seamless(pIn, phase, inc, prev, n)
  {
    if n <= MAXSAMPLES {
      forall pIn: seq<i16>, phase: nat, inc: nat, prev: i16
        ensures Seamless(pIn, phase, inc, prev, n)
      {}
    } else {
      var pIn: seq<i16> := seq(n, i => if i == 0 then 1 else 0);
      SecondBlockRepeats(pIn, n, 1);
    }
  }
}
