/** The sample-rate converter of mixconvert.cpp. */
module MixConvert {
  import opened Words
  import opened Resample

  /** The arithmetic right shift of a signed value rounds down. */
  function Shr16(x: int): int {
    if x >= 0 then x / ONE else -((-x + ONE - 1) / ONE)
  }

  class CMixConvert {
    var m_nSampleRate: u32
    var m_nOutSampleRate: u32
    var m_iPhase: seq<nat>
    var m_iPrevSample: seq<i16>
    var Buffer: array<i16>, Buffer1: array<i16>
    var output: seq<(i16, i16)>  // what m_pOutput has been given

    ghost predicate Valid()
      reads this
    {
      && |m_iPhase| == 2 && |m_iPrevSample| == 2 && m_iPhase[0] < ONE && m_iPhase[1] < ONE
      && Buffer != Buffer1 && Buffer.Length == MAXSAMPLES && Buffer1.Length == MAXSAMPLES
    }

    constructor (nSampleRate: u32, nOutSampleRate: u32)
      ensures Valid() && fresh(Buffer) && fresh(Buffer1)
      ensures m_nSampleRate == nSampleRate && m_nOutSampleRate == nOutSampleRate
      ensures m_iPhase == [0, 0] && m_iPrevSample == [0, 0] && output == []
    {
      m_nSampleRate, m_nOutSampleRate := nSampleRate, nOutSampleRate;
      m_iPhase, m_iPrevSample := [0, 0], [0, 0];
      Buffer := new i16[MAXSAMPLES];
      Buffer1 := new i16[MAXSAMPLES];
      output := [];
    }

    /** One block of one channel. The interpolated value is computed but the held sample is what
        is stored. */
    static method Filter(pOut: array<i16>, pIn: seq<i16>, nSamples: nat, iPhase: nat, iPhaseInc: nat, iPrev: i16)
      returns (iPhase': nat, iPrev': i16)
      requires nSamples <= pOut.Length && |pIn| > 0 && iPhase < ONE
      requires Carries(iPhase, iPhaseInc, nSamples) <= |pIn|
      modifies pOut
      ensures pOut[..nSamples] == FilterOut(pIn, iPhase, iPhaseInc, iPrev, nSamples)
      ensures pOut[nSamples..] == old(pOut[nSamples..])
      ensures iPhase' == PhaseAt(iPhase, iPhaseInc, nSamples)
      ensures iPrev' == LastSample(pIn, iPhase, iPhaseInc, iPrev, nSamples)
    {
      hide PhaseAt, Carries, FilterOut, Shr16;
      ghost var out := FilterOut(pIn, iPhase, iPhaseInc, iPrev, nSamples);
      StepAt(pIn, iPhase, iPhaseInc, iPrev, nSamples, 0);
      var iSample0, iSample1 := iPrev, pIn[0];
      iPhase' := iPhase;
      var next := 0;
      var i := 0;
      while i < nSamples
        invariant 0 <= i <= nSamples
        invariant iPhase' == PhaseAt(iPhase, iPhaseInc, i)
        invariant next == Carries(iPhase, iPhaseInc, i) <= |pIn|
        invariant iSample0 == Sample(pIn, iPrev, next)
        invariant iSample1 == if next == 0 then pIn[0] else pIn[next - 1]
        invariant forall j :: 0 <= j < i ==> pOut[j] == out[j]
        invariant pOut[nSamples..] == old(pOut[nSamples..])
      {
        var iSample: int := iSample0;
        iSample := iSample + Shr16((iSample1 - iSample0) * iPhase');
        StepAt(pIn, iPhase, iPhaseInc, iPrev, nSamples, i);
        iPhase' := iPhase' + iPhaseInc;
        if iPhase' / ONE != 0 {
          iSample0 := iSample1;
          iSample1 := pIn[next];
          next := next + 1;
          iPhase' := iPhase' % ONE;
        }
        pOut[i] := iSample0;
        i := i + 1;
      }
      iPrev' := iSample0;
    }

    /** One step of the filter, in terms of its carries. */
    static lemma StepAt(pIn: seq<i16>, phase: nat, inc: nat, prev: i16, n: nat, i: nat)
      requires phase < ONE && Carries(phase, inc, n) <= |pIn| && i <= n
      ensures PhaseAt(phase, inc, 0) == phase && Carries(phase, inc, 0) == 0
      ensures i < n ==>
        var sum := PhaseAt(phase, inc, i) + inc;
        var k := Carries(phase, inc, i) + (if sum / ONE != 0 then 1 else 0);
        && Carries(phase, inc, i + 1) == k <= |pIn|
        && PhaseAt(phase, inc, i + 1) == (if sum / ONE != 0 then sum % ONE else sum)
        && FilterOut(pIn, phase, inc, prev, n)[i] == Sample(pIn, prev, k)
    {
      if i < n {
        CarriesMono(phase, inc, i + 1, n);
      }
    }

    /** The two divisions at the top of OutputSamplesStereo: in Uint32, the first stored to an Int32. */
    method Rates(nSamples: nat) returns (nOutSamples: int, iPhaseInc: nat)
      requires m_nSampleRate > 0 && m_nOutSampleRate > 0
      ensures nOutSamples == Count32(nSamples, m_nOutSampleRate, m_nSampleRate)
      ensures iPhaseInc == PhaseInc32(m_nSampleRate, m_nOutSampleRate)
    {
      hide MulDiv32;
      nOutSamples := Signed32(MulDiv32(nSamples, m_nOutSampleRate, m_nSampleRate));
      iPhaseInc := MulDiv32(m_nSampleRate, ONE, m_nOutSampleRate);
    }

    /** The loop over blocks of at most 6400 samples; every block reads from the start of the input.
        Nothing is output when the Int32 count has become negative. */
    method OutputSamplesStereo(pLeft: seq<i16>, pRight: seq<i16>, nSamples: nat)
      requires Valid() && m_nSampleRate > 0 && m_nOutSampleRate > 0
      requires |pLeft| == nSamples && |pRight| == nSamples
      requires PhaseInc32(m_nSampleRate, m_nOutSampleRate) + ONE <= 0x8000_0000
      modifies this, Buffer, Buffer1
      ensures Valid() && unchanged(`m_nSampleRate, `m_nOutSampleRate, `Buffer, `Buffer1)
      ensures var n := OutCount32(nSamples, m_nOutSampleRate, m_nSampleRate);
        var inc := PhaseInc32(m_nSampleRate, m_nOutSampleRate);
        && Enough(pLeft, inc, n) && Enough(pRight, inc, n)
        && |output| == |old(output)| + n && output[..|old(output)|] == old(output)
        && Lefts(output[|old(output)|..]) == BlocksOut(pLeft, old(m_iPhase[0]), inc, old(m_iPrevSample[0]), n)
        && Rights(output[|old(output)|..]) == BlocksOut(pRight, old(m_iPhase[1]), inc, old(m_iPrevSample[1]), n)
        && m_iPhase == [PhaseAt(old(m_iPhase[0]), inc, n), PhaseAt(old(m_iPhase[1]), inc, n)]
        && m_iPrevSample == [BlocksLast(pLeft, old(m_iPhase[0]), inc, old(m_iPrevSample[0]), n),
                             BlocksLast(pRight, old(m_iPhase[1]), inc, old(m_iPrevSample[1]), n)]
    {
      hide PhaseAt, Carries, FilterOut, PhaseInc32, Count32, Enough, BlocksOut, BlocksLast, LastSample,
        Lefts, Rights;
      var nOutSamples, iPhaseInc := Rates(nSamples);
      NoInputNoOutput(nSamples, m_nOutSampleRate, m_nSampleRate);
      EnoughInput(pLeft, m_nSampleRate, m_nOutSampleRate);
      EnoughInput(pRight, m_nSampleRate, m_nOutSampleRate);
      m_iPhase := [m_iPhase[0] % ONE, m_iPhase[1] % ONE];
      ghost var n, was := OutCount32(nSamples, m_nOutSampleRate, m_nSampleRate), output;
      ghost var p, q, u, v := m_iPhase[0], m_iPhase[1], m_iPrevSample[0], m_iPrevSample[1];
      ghost var left := BlocksOut(pLeft, p, iPhaseInc, u, n);
      ghost var right := BlocksOut(pRight, q, iPhaseInc, v, n);
      ghost var m := n;
      ghost var said: seq<(i16, i16)> := [];
      assert Lefts(said) == [] && Rights(said) == [] by {
        ChannelsEmpty<i16>();
      }
      while nOutSamples > 0
        invariant Valid() && unchanged(`m_nSampleRate, `m_nOutSampleRate, `Buffer, `Buffer1)
        invariant 0 <= m <= n && (n > 0 ==> nSamples > 0) && m == if nOutSamples > 0 then nOutSamples else 0
        invariant Enough(pLeft, iPhaseInc, m) && Enough(pRight, iPhaseInc, m)
        invariant output == was + said && |said| == n - m
        invariant left == Lefts(said) + BlocksOut(pLeft, m_iPhase[0], iPhaseInc, m_iPrevSample[0], m)
        invariant right == Rights(said) + BlocksOut(pRight, m_iPhase[1], iPhaseInc, m_iPrevSample[1], m)
        invariant PhaseAt(m_iPhase[0], iPhaseInc, m) == PhaseAt(p, iPhaseInc, n)
        invariant PhaseAt(m_iPhase[1], iPhaseInc, m) == PhaseAt(q, iPhaseInc, n)
        invariant BlocksLast(pLeft, m_iPhase[0], iPhaseInc, m_iPrevSample[0], m)
               == BlocksLast(pLeft, p, iPhaseInc, u, n)
        invariant BlocksLast(pRight, m_iPhase[1], iPhaseInc, m_iPrevSample[1], m)
               == BlocksLast(pRight, q, iPhaseInc, v, n)
      {
        var nBlock := if nOutSamples > MAXSAMPLES then MAXSAMPLES else nOutSamples;
        BlockStep(pLeft, m_iPhase[0], iPhaseInc, m_iPrevSample[0], nOutSamples);
        BlockStep(pRight, m_iPhase[1], iPhaseInc, m_iPrevSample[1], nOutSamples);
        var p0, s0 := Filter(Buffer, pLeft, nBlock, m_iPhase[0], iPhaseInc, m_iPrevSample[0]);
        var p1, s1 := Filter(Buffer1, pRight, nBlock, m_iPhase[1], iPhaseInc, m_iPrevSample[1]);
        var block := Zip(Buffer[..nBlock], Buffer1[..nBlock]);
        m_iPhase, m_iPrevSample := [p0, p1], [s0, s1];
        output := output + block;
        ZipChannels(Buffer[..nBlock], Buffer1[..nBlock]);
        ChannelsAppend(said, block);
        said := said + block;
        nOutSamples := nOutSamples - nBlock;
        m := m - nBlock;
      }
      NothingLeft(pLeft, m_iPhase[0], iPhaseInc, m_iPrevSample[0]);
      NothingLeft(pRight, m_iPhase[1], iPhaseInc, m_iPrevSample[1]);
      assert output[..|was|] == was && output[|was|..] == said;
    }

    /** Successive calls at the same rates: the output is that of the sequence of calls, and the phase
        is that of one run over all its samples. */
    method OutputCalls(calls: seq<(seq<i16>, seq<i16>)>)
      requires Valid() && m_nSampleRate > 0 && m_nOutSampleRate > 0
      requires forall i :: 0 <= i < |calls| ==> |calls[i].0| == |calls[i].1|
      requires PhaseInc32(m_nSampleRate, m_nOutSampleRate) + ONE <= 0x8000_0000
      modifies this, Buffer, Buffer1
      ensures Valid() && unchanged(`m_nSampleRate, `m_nOutSampleRate, `Buffer, `Buffer1)
      ensures |output| >= |old(output)| && output[..|old(output)|] == old(output)
      ensures Lefts(output[|old(output)|..])
        == CallsOut(Lefts(calls), old(m_iPhase[0]), old(m_iPrevSample[0]), m_nSampleRate, m_nOutSampleRate)
      ensures Rights(output[|old(output)|..])
        == CallsOut(Rights(calls), old(m_iPhase[1]), old(m_iPrevSample[1]), m_nSampleRate, m_nOutSampleRate)
      ensures var total := CallsCount(Lefts(calls), m_nSampleRate, m_nOutSampleRate);
        var inc := PhaseInc32(m_nSampleRate, m_nOutSampleRate);
        m_iPhase == [PhaseAt(old(m_iPhase[0]), inc, total), PhaseAt(old(m_iPhase[1]), inc, total)]
      decreases |calls|
    {
      hide PhaseAt, Carries, FilterOut, PhaseInc32, OutCount32, Enough, BlocksOut, BlocksLast, LastSample;
      ghost var inc := PhaseInc32(m_nSampleRate, m_nOutSampleRate);
      ghost var was, p, q := output, m_iPhase[0], m_iPhase[1];
      if calls == [] {
        NoSteps(p, q, inc);
        return;
      }
      CallsFirst(calls);
      OutputSamplesStereo(calls[0].0, calls[0].1, |calls[0].0|);
      ghost var mid := output;
      OutputCalls(calls[1..]);
      ghost var n, rest := OutCount32(|calls[0].0|, m_nOutSampleRate, m_nSampleRate),
                          CallsCount(Lefts(calls[1..]), m_nSampleRate, m_nOutSampleRate);
      assert output[|was|..] == mid[|was|..] + output[|mid|..];
      ChannelsAppend(mid[|was|..], output[|mid|..]);
      PhaseAppend(p, inc, n, rest);
      PhaseAppend(q, inc, n, rest);
    }

    /** The number of input samples asked for: exact if and only if nothing overflows, and then the
        output it yields meets the request up to one input sample's worth and one. */
    method GetOutputSamples(requested: nat) returns (nInSamples: int)
      requires m_nSampleRate > 0 && m_nOutSampleRate > 0
      ensures var exact := OutCount(requested, m_nSampleRate, m_nOutSampleRate);
        nInSamples == exact <==> requested * m_nSampleRate < W32 && exact < 0x8000_0000
      ensures nInSamples == OutCount(requested, m_nSampleRate, m_nOutSampleRate) && requested < 0x8000_0000 ==>
        var p := OutCount32(nInSamples, m_nOutSampleRate, m_nSampleRate);
        p <= requested && (requested - p - 1) * m_nSampleRate < m_nOutSampleRate
      ensures var q := requested * m_nSampleRate % 0x1_0000_0000 / m_nOutSampleRate;
        nInSamples == if q < 0x8000_0000 then q else q - 0x1_0000_0000
    {
      hide OutCount32, MulDiv32, OutCount;
      QuotientIff(requested, m_nSampleRate, m_nOutSampleRate);
      nInSamples := Signed32(MulDiv32(requested, m_nSampleRate, m_nOutSampleRate));
      CountsAre(requested, m_nSampleRate, m_nOutSampleRate);
      if nInSamples == OutCount(requested, m_nSampleRate, m_nOutSampleRate) && requested < 0x8000_0000 {
        RequestedSamples(requested, m_nSampleRate, m_nOutSampleRate);
        Requested32(requested, m_nSampleRate, m_nOutSampleRate);
      }
    }
  }

  lemma CallsFirst(calls: seq<(seq<i16>, seq<i16>)>)
    requires calls != []
    ensures Lefts(calls)[0] == calls[0].0 && Lefts(calls)[1..] == Lefts(calls[1..])
    ensures Rights(calls)[0] == calls[0].1 && Rights(calls)[1..] == Rights(calls[1..])
  {}

  lemma NoSteps(p: nat, q: nat, inc: nat)
    requires p < ONE && q < ONE
    ensures PhaseAt(p, inc, 0) == p && PhaseAt(q, inc, 0) == q
  {}

  lemma NothingLeft(pIn: seq<i16>, phase: nat, inc: nat, prev: i16)
    requires phase < ONE && Enough(pIn, inc, 0)
    ensures BlocksOut(pIn, phase, inc, prev, 0) == [] && BlocksLast(pIn, phase, inc, prev, 0) == prev
    ensures PhaseAt(phase, inc, 0) == phase
  {}

  function Lefts<T>(s: seq<(T, T)>): (c: seq<T>)
  {
    seq(|s|, i requires 0 <= i < |s| => s[i].0)
  }

  function Rights<T>(s: seq<(T, T)>): (c: seq<T>)
  {
    seq(|s|, i requires 0 <= i < |s| => s[i].1)
  }

  /** The channels of a stereo sequence, sample by sample. */
  lemma SidesAre<T>(s: seq<(T, T)>, i: nat)
    requires i < |s|
    ensures |Lefts(s)| == |s| && Lefts(s)[i] == s[i].0
    ensures |Rights(s)| == |s| && Rights(s)[i] == s[i].1
  {}

  function Zip(a: seq<i16>, b: seq<i16>): (s: seq<(i16, i16)>)
    requires |a| == |b|
    ensures |s| == |a|
  {
    seq(|a|, i requires 0 <= i < |a| => (a[i], b[i]))
  }

  lemma ZipChannels(a: seq<i16>, b: seq<i16>)
    requires |a| == |b|
    ensures Lefts(Zip(a, b)) == a && Rights(Zip(a, b)) == b
  {}

  lemma ChannelsEmpty<T>()
    ensures Lefts<T>([]) == [] && Rights<T>([]) == []
  {}

  lemma ChannelsAppend(s: seq<(i16, i16)>, t: seq<(i16, i16)>)
    ensures Lefts(s + t) == Lefts(s) + Lefts(t)
    ensures Rights(s + t) == Rights(s) + Rights(t)
  {}

  lemma NoInputNoOutput(nSamples: nat, outRate: nat, inRate: nat)
    requires inRate > 0
    ensures OutCount32(nSamples, outRate, inRate) > 0 ==> nSamples > 0
  {}

  lemma BlockStep(pIn: seq<i16>, phase: nat, inc: nat, prev: i16, n: nat)
    requires phase < ONE && n > 0 && Enough(pIn, inc, n)
    ensures var b := if n > MAXSAMPLES then MAXSAMPLES else n;
      && Carries(phase, inc, b) <= |pIn| && Enough(pIn, inc, n - b)
      && BlocksOut(pIn, phase, inc, prev, n)
         == FilterOut(pIn, phase, inc, prev, b)
            + BlocksOut(pIn, PhaseAt(phase, inc, b), inc, LastSample(pIn, phase, inc, prev, b), n - b)
      && BlocksLast(pIn, phase, inc, prev, n)
         == BlocksLast(pIn, PhaseAt(phase, inc, b), inc, LastSample(pIn, phase, inc, prev, b), n - b)
      && PhaseAt(PhaseAt(phase, inc, b), inc, n - b) == PhaseAt(phase, inc, n)
  {
    hide Carries, PhaseAt, FilterOut, LastSample;
    var b := if n > MAXSAMPLES then MAXSAMPLES else n;
    assert Carries(phase, inc, b) <= |pIn|;
    PhaseAppend(phase, inc, b, n - b);
    if n <= MAXSAMPLES {
      var held := LastSample(pIn, phase, inc, prev, b);
      NothingLeft(pIn, PhaseAt(phase, inc, b), inc, held);
      assert FilterOut(pIn, phase, inc, prev, b) + [] == FilterOut(pIn, phase, inc, prev, b);
    }
  }
}
