/** Recording and replaying input on an emulated system, emumovie.cpp. */
module Movie {

  /** A deterministic machine: one frame of execution, and saving and restoring its state. */
  datatype Machine<!S, !I, !D> = Machine(execute: (S, I) -> S, save: S -> D, restore: (S, D) -> S, stateSize: nat)

  /** Restoring a saved state gives that state back, from whatever state. */
  ghost predicate Restores<S(!new), I, D>(m: Machine<S, I, D>) {
    forall s: S, t: S :: m.restore(t, m.save(s)) == s
  }

  /** The state after each of a sequence of frames. */
  function Trace<S, I, D>(m: Machine<S, I, D>, s: S, frames: seq<I>): (t: seq<S>)
    ensures |t| == |frames|
  {
    if frames == [] then []
    else
      var s' := m.execute(s, frames[0]);
      [s'] + Trace(m, s', frames[1..])
  }

  function Final<S, I, D>(m: Machine<S, I, D>, s: S, frames: seq<I>): S {
    if frames == [] then s else Trace(m, s, frames)[|frames| - 1]
  }

  /** Each state is the one before, or the first, after one frame; the last of them is the final state. */
  lemma {:induction false} TraceAt<S, I, D>(m: Machine<S, I, D>, s: S, frames: seq<I>, i: nat)
    requires i < |frames|
    ensures Trace(m, s, frames)[i] == m.execute(if i == 0 then s else Trace(m, s, frames)[i - 1], frames[i])
    ensures Final(m, s, frames) == Trace(m, s, frames)[|frames| - 1] && Final(m, s, []) == s
    decreases |frames|
  {
    if i > 0 {
      TraceAt(m, m.execute(s, frames[0]), frames[1..], i - 1);
    }
  }

  /** One frame first, then the rest. */
  lemma TraceFirst<S, I, D>(m: Machine<S, I, D>, s: S, a: seq<I>)
    requires a != []
    ensures var s' := m.execute(s, a[0]);
      && Trace(m, s, a) == [s'] + Trace(m, s', a[1..]) && Final(m, s, a) == Final(m, s', a[1..])
  {}

  lemma {:induction false} TraceAppend<S, I, D>(m: Machine<S, I, D>, s: S, a: seq<I>, b: seq<I>)
    ensures Trace(m, s, a + b) == Trace(m, s, a) + Trace(m, Final(m, s, a), b)
    decreases |a|
  {
    if a == [] {
      assert a + b == b;
    } else {
      hide Trace, Final;
      var s' := m.execute(s, a[0]);
      assert (a + b)[1..] == a[1..] + b;
      TraceFirst(m, s, a);
      TraceFirst(m, s, a + b);
      TraceAppend(m, s', a[1..], b);
    }
  }

  class MovieClip<S(!new), I(0), D(0)> {
    const machine: Machine<S, I, D>
    const m_uMaxStateSize: nat
    const m_uMaxFrames: nat
    const m_pFrames: array<I>
    var m_pStateData: D
    var m_uStateSize: nat
    var m_nRecordedFrames: nat
    var m_uPlayFrame: nat
    var m_bRecording: bool
    var m_bPlaying: bool

    constructor (m: Machine<S, I, D>, data: D, uStateSize: nat, uMaxFrames: nat)
      ensures Valid() && machine == m && m_uMaxFrames == uMaxFrames && m_uMaxStateSize == uStateSize
      ensures fresh(m_pFrames) && !m_bRecording && !m_bPlaying && Recorded() == []
      ensures m_pStateData == data && m_uStateSize == 0 && m_uPlayFrame == 0
    {
      machine, m_uMaxStateSize, m_uMaxFrames := m, uStateSize, uMaxFrames;
      m_pFrames := new I[uMaxFrames];
      m_pStateData, m_uStateSize := data, 0;
      m_nRecordedFrames, m_uPlayFrame := 0, 0;
      m_bRecording, m_bPlaying := false, false;
    }

    ghost predicate Valid()
      reads this
    {
      m_pFrames.Length == m_uMaxFrames && m_nRecordedFrames <= m_uMaxFrames && m_uPlayFrame <= m_uMaxFrames
    }

    ghost function Recorded(): seq<I>
      requires Valid()
      reads this, m_pFrames
    {
      m_pFrames[..m_nRecordedFrames]
    }

    method RecordBegin(s: S)
      requires Valid() && !m_bRecording && !m_bPlaying && machine.stateSize <= m_uMaxStateSize
      modifies this
      ensures Valid() && m_bRecording && !m_bPlaying && Recorded() == []
      ensures m_pStateData == machine.save(s) && m_uStateSize == machine.stateSize
      ensures m_uPlayFrame == old(m_uPlayFrame)
    {
      m_uStateSize := machine.stateSize;
      m_pStateData := machine.save(s);
      m_nRecordedFrames := 0;
      m_bRecording := true;
    }

    method RecordEnd()
      requires m_bRecording
      modifies `m_bRecording
      ensures !m_bRecording
    {
      m_bRecording := false;
    }

    /** A frame offered to a full clip is refused; nothing asks whether a recording is on. */
    method RecordFrame(input: I) returns (ok: bool)
      requires Valid()
      modifies `m_nRecordedFrames, m_pFrames
      ensures Valid() && (ok <==> |old(Recorded())| < m_uMaxFrames)
      ensures Recorded() == if ok then old(Recorded()) + [input] else old(Recorded())
    {
      if m_nRecordedFrames < m_uMaxFrames {
        m_pFrames[m_nRecordedFrames] := input;
        m_nRecordedFrames := m_nRecordedFrames + 1;
        return true;
      }
      return false;
    }

    method PlayBegin(s: S) returns (s': S)
      requires Valid() && !m_bRecording && !m_bPlaying && m_uStateSize > 0
      modifies `m_uPlayFrame, `m_bPlaying
      ensures Valid() && m_bPlaying && m_uPlayFrame == 0 && s' == machine.restore(s, m_pStateData)
    {
      s' := machine.restore(s, m_pStateData);
      m_uPlayFrame := 0;
      m_bPlaying := true;
    }

    method PlayEnd()
      requires m_bPlaying
      modifies `m_bPlaying
      ensures !m_bPlaying
    {
      m_bPlaying := false;
    }

    /** The input is left alone when every recorded frame has been played. */
    method PlayFrame(input: I) returns (ok: bool, input': I)
      requires Valid()
      modifies `m_uPlayFrame
      ensures Valid() && (ok <==> old(m_uPlayFrame) < m_nRecordedFrames)
      ensures ok ==> input' == Recorded()[old(m_uPlayFrame)] && m_uPlayFrame == old(m_uPlayFrame) + 1
      ensures !ok ==> input' == input && m_uPlayFrame == old(m_uPlayFrame)
    {
      if m_uPlayFrame < m_nRecordedFrames {
        input' := m_pFrames[m_uPlayFrame];
        m_uPlayFrame := m_uPlayFrame + 1;
        return true, input';
      }
      return false, input;
    }

    /** A recording session: each accepted frame is also executed. */
    method Record(s: S, inputs: seq<I>) returns (s': S)
      requires Valid() && !m_bRecording && !m_bPlaying && machine.stateSize <= m_uMaxStateSize
      modifies this, m_pFrames
      ensures Valid() && !m_bRecording && !m_bPlaying
      ensures m_pStateData == machine.save(s) && m_uStateSize == machine.stateSize
      ensures Recorded() == inputs[..if |inputs| < m_uMaxFrames then |inputs| else m_uMaxFrames]
      ensures s' == Final(machine, s, Recorded())
    {
      RecordBegin(s);
      s' := s;
      var i := 0;
      while i < |inputs| && i < m_uMaxFrames
        invariant Valid() && m_bRecording && !m_bPlaying
        invariant m_pStateData == machine.save(s) && m_uStateSize == machine.stateSize
        invariant 0 <= i <= |inputs| && i <= m_uMaxFrames && Recorded() == inputs[..i]
        invariant s' == Final(machine, s, Recorded())
      {
        ghost var past := Recorded();
        var ok := RecordFrame(inputs[i]);
        s' := machine.execute(s', inputs[i]);
        TraceAppend(machine, s, past, [inputs[i]]);
        i := i + 1;
      }
      if i < |inputs| {
        var refused := RecordFrame(inputs[i]);
      }
      RecordEnd();
    }

    /** A replay, from any state of the same machine: the states after each frame are those of
        the recording, and the clip is as good as before for another replay. */
    method Replay(any: S, idle: I, ghost s: S) returns (states: seq<S>)
      requires Valid() && !m_bRecording && !m_bPlaying && m_uStateSize > 0
      requires Restores(machine) && m_pStateData == machine.save(s)
      modifies `m_uPlayFrame, `m_bPlaying
      ensures Valid() && !m_bPlaying
      ensures states == Trace(machine, s, Recorded())
    {
      var state := PlayBegin(any);
      states := [];
      var ok, input := PlayFrame(idle);
      ghost var done := 0;
      while ok
        invariant Valid() && m_bPlaying && 0 <= done <= m_nRecordedFrames
        invariant ok <==> done < m_nRecordedFrames
        invariant ok ==> input == Recorded()[done] && m_uPlayFrame == done + 1
        invariant states == Trace(machine, s, Recorded()[..done])
        invariant state == Final(machine, s, Recorded()[..done])
        decreases m_nRecordedFrames - done
      {
        state := machine.execute(state, input);
        states := states + [state];
        TraceAppend(machine, s, Recorded()[..done], [input]);
        assert Recorded()[..done + 1] == Recorded()[..done] + [input];
        ok, input := PlayFrame(idle);
        done := done + 1;
      }
      assert Recorded()[..done] == Recorded();
      PlayEnd();
    }
  }
}
