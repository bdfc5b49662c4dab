/** The RTSP thread and the video thread over their shared globals `iRTSP_State` and `slp`, one
    read or write at a time, in any interleaving. */
module SessionGate {
  import opened Sequences
  import opened Fragments
  import opened Reassembly
  import opened Streaming
  import opened Rtsp
  import RtspSessions

  /** What the RTSP thread has carried out. `Other` is PAUSE, TEARDOWN or an unknown message. */
  datatype Control = Accept | Setup | Play | Other

  /** Shared globals and both threads' positions, with the log of controls, the frames encoded
      after the wait on `slp`, and for every datagram offered to addFrame how much of the log had
      taken effect when addFrame tested the state. */
  datatype State = State(
    rtsp: int,                      // iRTSP_State
    slp: bool,
    waking: bool,                   // PLAY has written iRTSP_State but not yet slp
    log: seq<Control>,
    frames: seq<seq<byte>>,
    todo: seq<Datagram>,            // datagrams of the current frame, not yet offered
    offered: seq<Datagram>,
    tested: seq<nat>,
    wire: seq<Datagram>)            // sent to the client

  const BOOT := State(INIT, true, false, [], [], [], [], [], [])

  function StateFor(c: Control, rtsp: int): int {
    match c case Accept => INIT case Setup => READY case Play => PLAYING case Other => rtsp
  }

  /** Accepting a connection, or handling one message up to its write of iRTSP_State. */
  ghost predicate ControlStep(s: State, c: Control, s': State) {
    !s.waking && s' == s.(rtsp := StateFor(c, s.rtsp), waking := c == Play, log := s.log + [c])
  }

  /** `slp=false`, the last statement for PLAY. */
  ghost predicate WakeStep(s: State, s': State) {
    s.waking && s' == s.(slp := false, waking := false)
  }

  /** The video thread finds `slp` false and fragments the frame it holds. */
  ghost predicate FrameStep(cfg: Config, s: State, frame: seq<byte>, s': State)
    requires cfg.Valid()
  {
    && !s.slp && s.todo == []
    && s'.todo == SendAll(cfg, s.frames + [frame]).sent[|SendAll(cfg, s.frames).sent|..]
    && s' == s.(frames := s.frames + [frame], todo := s'.todo)
  }

  /** addFrame: sends the datagram if the state reads PLAYING, and drops it otherwise. */
  ghost predicate OfferStep(s: State, s': State) {
    && s.todo != []
    && s' == s.(todo := s.todo[1..], offered := s.offered + [s.todo[0]], tested := s.tested + [|s.log|],
                wire := if s.rtsp == PLAYING then s.wire + [s.todo[0]] else s.wire)
  }

  ghost predicate Step(cfg: Config, s: State, s': State)
    requires cfg.Valid()
  {
    || (exists c :: ControlStep(s, c, s'))
    || WakeStep(s, s')
    || (exists frame :: FrameStep(cfg, s, frame, s'))
    || OfferStep(s, s')
  }

  ghost predicate Run(cfg: Config, states: seq<State>)
    requires cfg.Valid()
  {
    && states != [] && states[0] == BOOT
    && forall i :: 0 < i < |states| ==> Step(cfg, states[i - 1], states[i])
  }

  /** The steps of the RTSP thread are those of the server's message handler. */
  lemma HandlerIsControl(g: RtspSessions.Globals, reading: Reading)
    requires reading != Undefined
    ensures var c := ControlOf(reading);
      RtspSessions.React(g, reading).state == StateFor(c, g.state) &&
      RtspSessions.React(g, reading).slp == (g.slp && c != Play)
  {}

  function ControlOf(reading: Reading): Control {
    if reading.Request? && reading.kind == SETUP then Setup
    else if reading.Request? && reading.kind == PLAY then Play
    else Other
  }

  // ---------------------------------------------------------------- reference

  /** The latest of accept, SETUP and PLAY in the log is a PLAY. */
  predicate PlayIsLatest(log: seq<Control>) {
    log != [] && (Last(log) == Play || (Last(log) == Other && PlayIsLatest(Front(log))))
  }

  /** The state that the latest of accept, SETUP and PLAY stands for; before any of them, INIT. */
  function StateOf(log: seq<Control>): int {
    if log == [] then 0
    else match Last(log)
      case Accept => 0
      case Setup => 1
      case Play => 2
      case Other => StateOf(Front(log))
  }

  /** Which datagrams pass the gate: those tested while PLAY was the latest to take effect. */
  function Passes(log: seq<Control>, tested: seq<nat>): seq<bool> {
    if tested == [] then []
    else Passes(log, Front(tested)) + [Last(tested) <= |log| && PlayIsLatest(log[..Last(tested)])]
  }

  /** Tests made earlier are not affected by what is logged later. */
  lemma {:induction false} PassesStable(log: seq<Control>, c: Control, tested: seq<nat>)
    requires forall i :: 0 <= i < |tested| ==> tested[i] <= |log|
    ensures Passes(log + [c], tested) == Passes(log, tested)
    decreases |tested|
  {
    if tested != [] {
      PassesStable(log, c, Front(tested));
      assert (log + [c])[..Last(tested)] == log[..Last(tested)];
    }
  }

  /** A PLAY stays the latest when only PAUSE, TEARDOWN and unknown messages follow. */
  lemma {:induction false} StillLatest(log: seq<Control>, others: seq<Control>)
    requires PlayIsLatest(log) && forall i :: 0 <= i < |others| ==> others[i] == Other
    ensures PlayIsLatest(log + others)
    decreases |others|
  {
    if others == [] {
      assert log + others == log;
    } else {
      StillLatest(log, Front(others));
      assert Front(log + others) == log + Front(others);
    }
  }

  // ---------------------------------------------------------------- the invariant

  ghost predicate Inv(cfg: Config, s: State)
    requires cfg.Valid()
  {
    && (s.rtsp == PLAYING <==> PlayIsLatest(s.log))
    && s.rtsp == StateOf(s.log)
    && (s.waking || !s.slp ==> Play in s.log)
    && (Play in s.log && !s.waking ==> !s.slp)
    && (s.slp ==> s.frames == [] && s.offered == [])
    && s.offered + s.todo == SendAll(cfg, s.frames).sent
    && (forall i :: 0 <= i < |s.tested| ==> s.tested[i] <= |s.log|)
    && |s.tested| == |s.offered|
    && |Passes(s.log, s.tested)| == |s.offered|
    && s.wire == Keep(s.offered, Passes(s.log, s.tested))
  }

  lemma LatestAfter(log: seq<Control>, c: Control, rtsp: int)
    requires rtsp == PLAYING <==> PlayIsLatest(log)
    ensures StateFor(c, rtsp) == PLAYING <==> PlayIsLatest(log + [c])
    ensures Play in log || c == Play <==> Play in log + [c]
    ensures rtsp == StateOf(log) ==> StateFor(c, rtsp) == StateOf(log + [c])
  {
    assert Front(log + [c]) == log;
  }

  lemma ControlKeeps(cfg: Config, s: State, c: Control, s': State)
    requires cfg.Valid() && Inv(cfg, s) && ControlStep(s, c, s')
    ensures Inv(cfg, s')
  {
    LatestAfter(s.log, c, s.rtsp);
    PassesStable(s.log, c, s.tested);
  }

  lemma FrameKeeps(cfg: Config, s: State, frame: seq<byte>, s': State)
    requires cfg.Valid() && Inv(cfg, s) && FrameStep(cfg, s, frame, s')
    ensures Inv(cfg, s')
  {
    var before, after := SendAll(cfg, s.frames), SendAll(cfg, s.frames + [frame]);
    assert Front(s.frames + [frame]) == s.frames;
    var more := SentByFrame(cfg, before, frame);
    assert s.offered == before.sent;
    assert after.sent[|before.sent|..] == more;
  }

  lemma OfferKeeps(cfg: Config, s: State, s': State)
    requires cfg.Valid() && Inv(cfg, s) && OfferStep(s, s')
    ensures Inv(cfg, s')
  {
    assert (s.offered + [s.todo[0]]) + s.todo[1..] == s.offered + s.todo;
    assert Front(s'.tested) == s.tested && Front(s'.offered) == s.offered;
    assert s.log[..|s.log|] == s.log;
    var mask := Passes(s'.log, s'.tested);
    assert Front(mask) == Passes(s.log, s.tested) && Last(mask) == (s.rtsp == PLAYING);
  }

  /** Over every run of the two threads: the state is that of the latest of accept, SETUP and PLAY,
      `slp` is false once a PLAY has been handled to its end, nothing is fragmented before that, and
      what reaches the wire is exactly the fragmenter's output restricted to the datagrams tested
      while the latest of accept, SETUP and PLAY to take effect was a PLAY. */
  lemma {:induction false} GateInvariant(cfg: Config, states: seq<State>, i: nat)
    requires cfg.Valid() && Run(cfg, states) && i < |states|
    ensures Inv(cfg, states[i])
  {
    if i > 0 {
      GateInvariant(cfg, states, i - 1);
      var s, s' := states[i - 1], states[i];
      assert Step(cfg, s, s');
      if c :| ControlStep(s, c, s') {
        ControlKeeps(cfg, s, c, s');
      } else if frame :| FrameStep(cfg, s, frame, s') {
        FrameKeeps(cfg, s, frame, s');
      } else if OfferStep(s, s') {
        OfferKeeps(cfg, s, s');
      }
    }
  }

  /** `slp` is cleared at most once: no step sets it again. */
  lemma {:induction false} SlpStaysCleared(cfg: Config, states: seq<State>, i: nat, j: nat)
    requires cfg.Valid() && Run(cfg, states) && i <= j < |states|
    ensures !states[i].slp ==> !states[j].slp
    decreases j - i
  {
    if i < j {
      SlpStaysCleared(cfg, states, i, j - 1);
      assert Step(cfg, states[j - 1], states[j]);
    }
  }

  /** PAUSE, TEARDOWN and unknown messages do not stop the stream, whatever section A.2 of RFC 2326
      says about them: while nothing else follows a PLAY, every datagram offered is sent. */
  lemma {:induction false} OthersAreIgnored(cfg: Config, states: seq<State>, i: nat, j: nat)
    requires cfg.Valid() && Run(cfg, states) && i <= j < |states| && PlayIsLatest(states[i].log)
    requires forall k :: |states[i].log| <= k < |states[j].log| ==> states[j].log[k] == Other
    ensures states[i].log <= states[j].log && PlayIsLatest(states[j].log) && states[j].rtsp == PLAYING
    ensures states[i].offered <= states[j].offered
    ensures states[j].wire == states[i].wire + states[j].offered[|states[i].offered|..]
    decreases j
  {
    if i < j {
      assert Step(cfg, states[j - 1], states[j]);
      OthersBefore(cfg, |states[i].log|, states[j - 1], states[j]);
      OthersAreIgnored(cfg, states, i, j - 1);
      SendsOn(cfg, states[i], states[j - 1], states[j]);
    }
    PlayingAt(cfg, states, j);
  }

  lemma PlayingAt(cfg: Config, states: seq<State>, j: nat)
    requires cfg.Valid() && Run(cfg, states) && j < |states|
    ensures PlayIsLatest(states[j].log) <==> states[j].rtsp == PLAYING
  {
    GateInvariant(cfg, states, j);
  }

  /** What holds of the log from position `n` on held before the last step. */
  lemma OthersBefore(cfg: Config, n: nat, s: State, s': State)
    requires cfg.Valid() && Step(cfg, s, s')
    requires forall k :: n <= k < |s'.log| ==> s'.log[k] == Other
    ensures forall k :: n <= k < |s.log| ==> s.log[k] == Other
  {
    LogGrows(cfg, s, s');
    forall k | n <= k < |s.log|
      ensures s.log[k] == Other
    {
      assert s.log[k] == s'.log[k];
    }
  }

  lemma LogGrows(cfg: Config, s: State, s': State)
    requires cfg.Valid() && Step(cfg, s, s')
    ensures s'.log == s.log || (|s'.log| == |s.log| + 1 && s'.log == s.log + [Last(s'.log)])
  {}

  lemma SendsOn(cfg: Config, s0: State, s: State, s': State)
    requires cfg.Valid() && Step(cfg, s, s') && s.rtsp == PLAYING && PlayIsLatest(s.log)
    requires s0.log <= s.log && forall k :: |s0.log| <= k < |s'.log| ==> s'.log[k] == Other
    requires s0.offered <= s.offered && s.wire == s0.wire + s.offered[|s0.offered|..]
    ensures s0.log <= s'.log && PlayIsLatest(s'.log)
    ensures s0.offered <= s'.offered && s'.wire == s0.wire + s'.offered[|s0.offered|..]
  {
    LogGrows(cfg, s, s');
    if s'.log != s.log {
      assert Last(s'.log) == s'.log[|s.log|] == Other;
      StillLatest(s.log, [Other]);
    }
    if s'.offered != s.offered {
      assert s'.offered[|s0.offered|..] == s.offered[|s0.offered|..] + [s.todo[0]];
    }
  }

  /** Whatever the interleaving, the client's stdout and partial buffer are a subsequence of the
      payload the fragmenter produced. */
  lemma GatedStreamKeepsOrder(cfg: Config, states: seq<State>, i: nat)
    requires cfg.Valid() && Run(cfg, states) && i < |states|
    ensures var s := states[i];
      var r := DeliverAll(START, s.wire);
      Subsequence(r.output + r.partial, Payload(s.offered))
  {
    GateInvariant(cfg, states, i);
    LossKeepsOrder(states[i].offered, Passes(states[i].log, states[i].tested));
  }

  /** If every test came after a PLAY not yet superseded, then between frames the client has
      written every frame encoded since the first PLAY, up to what still waits in the buffer. */
  lemma UngatedStreamIsComplete(cfg: Config, states: seq<State>, i: nat)
    requires cfg.Valid() && Run(cfg, states) && i < |states|
    requires var s := states[i];
      s.todo == [] && Fits(cfg, s.frames) && CornerFree(cfg, s.frames) &&
      forall k :: 0 <= k < |s.tested| ==> s.tested[k] <= |s.log| && PlayIsLatest(s.log[..s.tested[k]])
    ensures var s := states[i];
      var r := DeliverAll(START, s.wire);
      r.partial == [] && r.output + SendAll(cfg, s.frames).pending == Flatten(s.frames)
  {
    var s := states[i];
    GateInvariant(cfg, states, i);
    AllPass(s.log, s.tested);
    KeepAll(s.offered, Passes(s.log, s.tested));
    assert s.offered == s.offered + s.todo;
    RoundTrip(cfg, s.frames);
  }

  lemma {:induction false} AllPass(log: seq<Control>, tested: seq<nat>)
    requires forall k :: 0 <= k < |tested| ==> tested[k] <= |log| && PlayIsLatest(log[..tested[k]])
    ensures |Passes(log, tested)| == |tested|
    ensures forall k :: 0 <= k < |tested| ==> Passes(log, tested)[k]
    decreases |tested|
  {
    if tested != [] { AllPass(log, Front(tested)); }
  }
}
