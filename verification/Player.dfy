/** The sampling loop of `media_player` in offline mode: elapsed playing time across pauses. */
module Player {
  import opened Sequences
  import FlowControl
  import LateDistance
  import LateFlowControl
  import LateSettling

  const PLAYING := 3
  const PAUSED := 4
  const ENDED := 6

  /** A timeval. */
  datatype Time = Time(sec: int, usec: int) {
    function Micros(): int {
      sec * 1000000 + usec
    }
  }

  /** What the outside supplies during one iteration: whether 'p' was typed, the clock at that
      moment, the clock after the sleep, and the playout point and state then read back. */
  datatype Tick = Tick(key: bool, now: Time, end: Time, playout: int, state: int)

  /** The clock never runs backwards. */
  predicate Clock(start: Time, ticks: seq<Tick>) {
    ticks == [] ||
    (Clock(start, Front(ticks)) && Latest(start, Front(ticks)) <= Last(ticks).now.Micros() <= Last(ticks).end.Micros())
  }

  function Latest(start: Time, ticks: seq<Tick>): int {
    if ticks == [] then start.Micros() else Last(ticks).end.Micros()
  }

  /** The player state as the iteration after `ticks` sees it. */
  function StateAfter(ticks: seq<Tick>): int {
    if ticks == [] then PLAYING else Last(ticks).state
  }

  // ---------------------------------------------------------------- reference: running segments

  /** A stretch of playing: when it began and when it was last sampled. */
  datatype Segment = Segment(begin: int, sampled: int)

  /** Pressing 'p' while paused opens a segment; a sample extends the segment that is open. */
  function Segments(start: Time, ticks: seq<Tick>): (segments: seq<Segment>)
    ensures segments != []
  {
    if ticks == [] then [Segment(start.Micros(), start.Micros())]
    else
      var before, tick, state := Segments(start, Front(ticks)), Last(ticks), StateAfter(Front(ticks));
      var resumed := if tick.key && state == PAUSED
        then before + [Segment(tick.now.Micros(), tick.now.Micros())] else before;
      if state == PLAYING
        then Front(resumed) + [Segment(Last(resumed).begin, tick.end.Micros())] else resumed
  }

  function Total(segments: seq<Segment>): int {
    if segments == [] then 0 else Total(Front(segments)) + Last(segments).sampled - Last(segments).begin
  }

  /** Playing time in microseconds. */
  function Elapsed(start: Time, ticks: seq<Tick>): int {
    Total(Segments(start, ticks))
  }

  lemma {:induction false} ElapsedGrows(start: Time, ticks: seq<Tick>)
    requires Clock(start, ticks)
    ensures Elapsed(start, ticks) >= 0
    ensures ticks != [] ==> Elapsed(start, ticks) >= Elapsed(start, Front(ticks))
    ensures Last(Segments(start, ticks)).begin <= Last(Segments(start, ticks)).sampled <= Latest(start, ticks)
    decreases |ticks|
  {
    if ticks == [] {
      NothingElapsed(start.Micros());
    } else {
      ElapsedGrows(start, Front(ticks));
      var before, tick, state := Segments(start, Front(ticks)), Last(ticks), StateAfter(Front(ticks));
      var newest := Segment(tick.now.Micros(), tick.now.Micros());
      var resumed := if tick.key && state == PAUSED then before + [newest] else before;
      assert Front(before + [newest]) == before;
      assert Front(Front(resumed) + [Segment(Last(resumed).begin, tick.end.Micros())]) == Front(resumed);
    }
  }

  lemma NothingElapsed(micros: int)
    ensures Front([Segment(micros, micros)]) == [] && Total([Segment(micros, micros)]) == 0
  {
    assert Front([Segment(micros, micros)]) == [];
  }

  // ---------------------------------------------------------------- reference: what each sample should see

  /** The playout point that the last of `ticks` finds: the one read by the iteration before it. */
  function PlayoutBefore(playout: int, ticks: seq<Tick>): int
    requires ticks != []
  {
    if |ticks| == 1 then playout else Last(Front(ticks)).playout
  }

  /** One report for every iteration that starts playing: the playing time so far, in milliseconds. */
  function Reported(start: Time, ticks: seq<Tick>): seq<int> {
    if ticks == [] then []
    else
      var report := if StateAfter(Front(ticks)) == PLAYING then [Rounded(Elapsed(start, ticks))] else [];
      Reported(start, Front(ticks)) + report
  }

  /** The lags of those reports behind the playout points. */
  function Seen(start: Time, playout: int, ticks: seq<Tick>): seq<int> {
    if ticks == [] then []
    else
      var lag := Rounded(Elapsed(start, ticks)) - PlayoutBefore(playout, ticks);
      Seen(start, playout, Front(ticks)) + if StateAfter(Front(ticks)) == PLAYING then [lag] else []
  }

  // ---------------------------------------------------------------- the loop

  /** Conversion to long. */
  function Truncate(x: real): int {
    if x >= 0.0 then x.Floor else -(-x).Floor
  }

  /** Milliseconds, rounded to nearest. */
  function Rounded(micros: int): int {
    (micros + 500) / 1000
  }

  lemma MillisOfSum(seconds: int, useconds: int)
    requires seconds * 1000000 + useconds >= 0
    ensures Truncate((seconds * 1000) as real + useconds as real / 1000.0 + 0.5) ==
            Rounded(seconds * 1000000 + useconds)
  {
    var micros := seconds * 1000000 + useconds;
    var x := (seconds * 1000) as real + useconds as real / 1000.0 + 0.5;
    assert x == (micros + 500) as real / 1000.0;
    var q := (micros + 500) / 1000;
    assert q * 1000 <= micros + 500 < (q + 1) * 1000;
    assert q as real <= x < (q + 1) as real;
  }

  /** The loop's variables after an iteration; times in microseconds. `begin` is the clock at the
      last resume, `base` the time played before it. */
  datatype Loop = Loop(begin: int, base: int, total: int, trs: seq<int>, lags: seq<int>, playout: int, state: int)

  /** The first statement of an iteration: 'p' while paused resumes. */
  function Resumed(l: Loop, tick: Tick): Loop {
    if tick.key && l.state == PAUSED then l.(begin := tick.now.Micros(), base := l.total) else l
  }

  /** The sample taken after the sleep, if the player was playing. */
  function Sampled(l: Loop, end: Time): Loop {
    if l.state == PLAYING then
      var total := end.Micros() - l.begin + l.base;
      var tr := Rounded(total);
      l.(total := total, trs := l.trs + [tr], lags := l.lags + [tr - l.playout])
    else l
  }

  function Iterate(l: Loop, tick: Tick): Loop {
    Sampled(Resumed(l, tick), tick.end).(playout := tick.playout, state := tick.state)
  }

  function IterateAll(start: Time, playout: int, ticks: seq<Tick>): Loop {
    if ticks == [] then Loop(start.Micros(), 0, 0, [], [], playout, PLAYING)
    else Iterate(IterateAll(start, playout, Front(ticks)), Last(ticks))
  }

  /** The rate set last, for the lag seen last. */
  predicate RateIs(lags: seq<int>, sqrt: real -> real, rate: real) {
    if lags == [] then rate == 1.0 else rate == RateFor(sqrt, Last(lags))
  }

  function RateFor(sqrt: real -> real, d: int): real {
    FlowControl.Rate(d, FlowControl.T, sqrt(FlowControl.Radicand(d)))
  }

  /** Elapsed playing time at a sample, as the two counters and in milliseconds. */
  method Elapse(start: Time, end: Time, s1: int, u1: int) returns (seconds: int, useconds: int, tr: int)
    requires end.Micros() - start.Micros() + s1 * 1000000 + u1 >= 0
    ensures seconds * 1000000 + useconds == end.Micros() - start.Micros() + s1 * 1000000 + u1
    ensures tr == Rounded(seconds * 1000000 + useconds)
    ensures 1000 * tr - 500 <= seconds * 1000000 + useconds < 1000 * tr + 500
  {
    seconds := end.sec - start.sec + s1;
    useconds := end.usec - start.usec + u1;
    MillisOfSum(seconds, useconds);
    tr := Truncate((seconds * 1000) as real + useconds as real / 1000.0 + 0.5);
  }

  /** One sample: the elapsed time and the rate set for it. */
  method TakeSample(start: Time, end: Time, s1: int, u1: int, playoutPoint: int, sqrt: real -> real, ghost l: Loop)
      returns (seconds: int, useconds: int, tr: int, rate: real)
    requires FlowControl.IsSqrt(sqrt) && end.Micros() - start.Micros() + s1 * 1000000 + u1 >= 0
    requires l.begin == start.Micros() && l.base == s1 * 1000000 + u1
    requires l.playout == playoutPoint && l.state == PLAYING
    ensures Sampled(l, end).total == seconds * 1000000 + useconds
    ensures Sampled(l, end).trs == l.trs + [tr]
    ensures RateIs(Sampled(l, end).lags, sqrt, rate)
  {
    seconds, useconds, tr := Elapse(start, end, s1, u1);
    rate := FlowControl.FlowController(tr, playoutPoint, FlowControl.T, sqrt);
  }

  /** The local variables of the loop hold what the reference iteration says. */
  predicate Matches(l: Loop, start: Time, s1: int, u1: int, seconds: int, useconds: int, trs: seq<int>,
                    playoutPoint: int, mState: int) {
    && l.begin == start.Micros() && l.base == s1 * 1000000 + u1 && l.total == seconds * 1000000 + useconds
    && l.trs == trs && l.playout == playoutPoint && l.state == mState
  }

  /** The loop, until the input ends or the player reports the end of the film. */
  method MediaPlayer(startTime: Time, firstPlayout: int, sqrt: real -> real, ticks: seq<Tick>)
      returns (trs: seq<int>, rate: real, handled: nat, seconds: int, useconds: int)
    requires FlowControl.IsSqrt(sqrt) && Clock(startTime, ticks)
    ensures handled <= |ticks|
    ensures handled == |ticks| || (handled > 0 && ticks[handled - 1].state == ENDED)
    ensures forall k :: 0 <= k < handled - 1 ==> ticks[k].state != ENDED
    ensures trs == Reported(startTime, ticks[..handled])
    ensures SetFor(Seen(startTime, firstPlayout, ticks[..handled]), rate)
    ensures var l := IterateAll(startTime, firstPlayout, ticks[..handled]);
      l.total == seconds * 1000000 + useconds && l.trs == trs && RateIs(l.lags, sqrt, rate)
  {
    var start, s1, u1 := startTime, 0, 0;
    var playoutPoint, mState := firstPlayout, PLAYING;
    seconds, useconds, trs, rate, handled := 0, 0, [], 1.0, 0;
    ghost var l := IterateAll(startTime, firstPlayout, ticks[..0]);
    while handled < |ticks| && mState != ENDED
      invariant 0 <= handled <= |ticks|
      invariant l == IterateAll(startTime, firstPlayout, ticks[..handled])
      invariant Matches(l, start, s1, u1, seconds, useconds, trs, playoutPoint, mState) && RateIs(l.lags, sqrt, rate)
      invariant handled > 0 ==> mState == ticks[handled - 1].state
      invariant handled == 0 ==> mState == PLAYING
      invariant forall k :: 0 <= k < handled - 1 ==> ticks[k].state != ENDED
    {
      var tick := ticks[handled];
      NextIteration(startTime, firstPlayout, ticks, handled);
      ghost var r := Resumed(l, tick);
      if tick.key && mState == PAUSED {
        start := tick.now;
        s1, u1 := seconds, useconds;
      }
      if mState == PLAYING {
        var tr;
        seconds, useconds, tr, rate := TakeSample(start, tick.end, s1, u1, playoutPoint, sqrt, r);
        trs := trs + [tr];
      }
      playoutPoint := tick.playout;
      mState := tick.state;
      l := Iterate(l, tick);
      handled := handled + 1;
    }
    LoopIsRight(startTime, firstPlayout, ticks[..handled], sqrt, rate);
  }

  /** What the reference iteration reports and sets is what it should. */
  lemma LoopIsRight(start: Time, playout: int, ticks: seq<Tick>, sqrt: real -> real, rate: real)
    requires FlowControl.IsSqrt(sqrt) && RateIs(IterateAll(start, playout, ticks).lags, sqrt, rate)
    ensures IterateAll(start, playout, ticks).trs == Reported(start, ticks)
    ensures SetFor(Seen(start, playout, ticks), rate)
  {
    LoopReports(start, playout, ticks);
    RateIsRight(IterateAll(start, playout, ticks).lags, sqrt, rate);
  }

  /** The rate in force after the controller has seen `lags`. */
  ghost predicate SetFor(lags: seq<int>, rate: real) {
    if lags == [] then rate == 1.0 else FlowControl.RightRate(Last(lags), FlowControl.T, rate)
  }

  lemma RateIsRight(lags: seq<int>, sqrt: real -> real, rate: real)
    requires FlowControl.IsSqrt(sqrt) && RateIs(lags, sqrt, rate)
    ensures SetFor(lags, rate)
  {
    if lags != [] {
      RootOfIsRoot(sqrt, Last(lags));
      FlowControl.RateIsRight(Last(lags), FlowControl.T, RootOf(sqrt, Last(lags)));
    }
  }

  /** Whatever keys are pressed and whatever states are read, every sample reports the playing time and
      hands the controller its lag behind the playout point read one iteration earlier. */
  lemma {:induction false} LoopReports(start: Time, playout: int, ticks: seq<Tick>)
    ensures var l := IterateAll(start, playout, ticks);
      && l.trs == Reported(start, ticks) && l.lags == Seen(start, playout, ticks)
      && |l.trs| == |l.lags| && l.playout == if ticks == [] then playout else Last(ticks).playout
    decreases |ticks|
  {
    if ticks != [] {
      LoopReports(start, playout, Front(ticks));
      TotalIsElapsed(start, playout, Front(ticks));
      TotalIsElapsed(start, playout, ticks);
    }
  }

  /** The two counters always hold the playing time: the sum over running segments of last sample
      minus beginning. */
  lemma {:induction false} TotalIsElapsed(start: Time, playout: int, ticks: seq<Tick>)
    ensures var l, segments := IterateAll(start, playout, ticks), Segments(start, ticks);
      && l.total == Total(segments) && l.begin == Last(segments).begin && l.base == Total(Front(segments))
      && l.state == StateAfter(ticks)
    decreases |ticks|
  {
    if ticks == [] {
      NothingElapsed(start.Micros());
    } else {
      TotalIsElapsed(start, playout, Front(ticks));
      SegmentStep(start, ticks);
    }
  }

  lemma NextIteration(start: Time, playout: int, ticks: seq<Tick>, i: nat)
    requires Clock(start, ticks) && i < |ticks|
    ensures var l := IterateAll(start, playout, ticks[..i]);
      && IterateAll(start, playout, ticks[..i + 1]) == Iterate(l, ticks[i])
      && Iterate(l, ticks[i]).total >= 0
  {
    assert Front(ticks[..i + 1]) == ticks[..i];
    ClockPrefix(start, ticks, i + 1);
    TotalIsElapsed(start, playout, ticks[..i + 1]);
    ElapsedGrows(start, ticks[..i + 1]);
  }

  /** How one iteration changes the list of segments. */
  lemma SegmentStep(start: Time, ticks: seq<Tick>)
    requires ticks != []
    ensures var before, after := Segments(start, Front(ticks)), Segments(start, ticks);
      var tick, state := Last(ticks), StateAfter(Front(ticks));
      if tick.key && state == PAUSED then
        Last(after).begin == tick.now.Micros() && Total(Front(after)) == Total(before) == Total(after)
      else
        && Last(after).begin == Last(before).begin && Total(Front(after)) == Total(Front(before))
        && Total(after) == if state == PLAYING then Total(Front(before)) + tick.end.Micros() - Last(before).begin
                           else Total(before)
  {
    var before, tick := Segments(start, Front(ticks)), Last(ticks);
    Opened(before, tick.now.Micros());
    Extended(before, tick.end.Micros());
  }

  lemma Opened(segments: seq<Segment>, now: int)
    ensures var after := segments + [Segment(now, now)];
      Front(after) == segments && Last(after) == Segment(now, now) && Total(after) == Total(segments)
  {
    assert Front(segments + [Segment(now, now)]) == segments;
  }

  lemma Extended(segments: seq<Segment>, end: int)
    requires segments != []
    ensures var after := Front(segments) + [Segment(Last(segments).begin, end)];
      && Front(after) == Front(segments) && Last(after).begin == Last(segments).begin
      && Total(after) == Total(Front(segments)) + end - Last(segments).begin
  {
    assert Front(Front(segments) + [Segment(Last(segments).begin, end)]) == Front(segments);
  }

  lemma {:induction false} ClockPrefix(start: Time, ticks: seq<Tick>, i: nat)
    requires Clock(start, ticks) && i <= |ticks|
    ensures Clock(start, ticks[..i])
    decreases |ticks|
  {
    if i < |ticks| {
      ClockPrefix(start, Front(ticks), i);
      assert Front(ticks)[..i] == ticks[..i];
    } else {
      assert ticks[..i] == ticks;
    }
  }

  /** The reported time never decreases, whatever keys are pressed and whatever states are read,
      and is always the playing time rounded to milliseconds. */
  lemma {:induction false} ReportedTimeGrows(start: Time, playout: int, ticks: seq<Tick>)
    requires Clock(start, ticks)
    ensures var l := IterateAll(start, playout, ticks);
      && (l.trs != [] ==> Last(l.trs) == Rounded(Elapsed(start, ticks)))
      && forall i, j :: 0 <= i <= j < |l.trs| ==> l.trs[i] <= l.trs[j]
    decreases |ticks|
  {
    if ticks != [] {
      ReportedTimeGrows(start, playout, Front(ticks));
      ElapsedGrows(start, ticks);
      TotalIsElapsed(start, playout, Front(ticks));
      TotalIsElapsed(start, playout, ticks);
      RoundedMonotone(Elapsed(start, Front(ticks)), Elapsed(start, ticks));
    }
  }

  lemma RoundedMonotone(a: int, b: int)
    requires a <= b
    ensures Rounded(a) <= Rounded(b)
  {}

  // ---------------------------------------------------------------- the order of reading and setting

  /** Uninterrupted playing with samples exactly one period apart, in which the film advances
      between two readings at the rate set just before the first of them, and at rate 1 before any
      rate has been set. */
  predicate Steady(start: Time, playout: int, sqrt: real -> real, ticks: seq<Tick>) {
    var lags := IterateAll(start, playout, ticks).lags;
    && |lags| == |ticks| > 1
    && (forall i :: 0 <= i < |ticks| ==> ticks[i].state == PLAYING)
    && (forall i :: 1 <= i < |ticks| ==>
          ticks[i].end.Micros() == ticks[i - 1].end.Micros() + 1000 * FlowControl.T)
    && ticks[0].playout == playout + FlowControl.T
    && (forall i :: 1 <= i < |ticks| ==>
          ticks[i].playout == ticks[i - 1].playout + FlowControl.Played(lags[i - 1], RootOf(sqrt, lags[i - 1])))
  }

  function RootOf(sqrt: real -> real, d: int): real {
    sqrt(FlowControl.Radicand(d))
  }

  lemma {:induction false} LagAt(start: Time, playout: int, ticks: seq<Tick>, i: nat)
    requires i < |ticks| && forall k :: 0 <= k < |ticks| ==> ticks[k].state == PLAYING
    ensures var l := IterateAll(start, playout, ticks);
      && |l.lags| == |ticks| && l.state == PLAYING && l.begin == start.Micros() && l.base == 0
      && l.playout == Last(ticks).playout
      && l.lags[i] == Rounded(ticks[i].end.Micros() - start.Micros()) - if i == 0 then playout else ticks[i - 1].playout
    decreases |ticks|
  {
    if |ticks| > 1 {
      LagAt(start, playout, Front(ticks), if i < |ticks| - 1 then i else 0);
    } else {
      assert Front(ticks) == [];
    }
  }

  lemma RoundedShift(micros: int)
    ensures Rounded(micros + 1000 * FlowControl.T) == Rounded(micros) + FlowControl.T
  {}

  lemma RootOfIsRoot(sqrt: real -> real, d: int)
    requires FlowControl.IsSqrt(sqrt)
    ensures FlowControl.IsRoot(d, RootOf(sqrt, d))
  {
    FlowControl.RadicandSign(d);
  }

  /** Where the playout really stands at a sample: real time less the playout point read there. */
  function RealLag(start: Time, ticks: seq<Tick>, i: nat): int
    requires i < |ticks|
  {
    Rounded(ticks[i].end.Micros() - start.Micros()) - ticks[i].playout
  }

  /** The lag the controller sees next is one period more than the real one. */
  lemma SeenNext(start: Time, playout: int, sqrt: real -> real, ticks: seq<Tick>, i: nat)
    requires Steady(start, playout, sqrt, ticks) && i < |ticks|
    ensures var lags := IterateAll(start, playout, ticks).lags;
      && |lags| == |ticks|
      && (i + 1 < |ticks| ==> lags[i + 1] == RealLag(start, ticks, i) + FlowControl.T)
      && (i > 0 ==> RealLag(start, ticks, i) == lags[i] - FlowControl.Played(lags[i - 1], RootOf(sqrt, lags[i - 1])))
      && (i == 0 ==> RealLag(start, ticks, i) == lags[i] - FlowControl.T)
  {
    LagAt(start, playout, ticks, i);
    RoundedShift(ticks[i].end.Micros() - start.Micros());
    if i + 1 < |ticks| {
      LagAt(start, playout, ticks, i + 1);
    }
  }

  /** The lags the controller sees, carried on by the one that the next sample would see. */
  function SeenLags(start: Time, playout: int, ticks: seq<Tick>): seq<int>
    requires ticks != []
  {
    IterateAll(start, playout, ticks).lags + [RealLag(start, ticks, |ticks| - 1) + FlowControl.T]
  }

  lemma SeenAt(start: Time, playout: int, sqrt: real -> real, ticks: seq<Tick>, i: nat)
    requires Steady(start, playout, sqrt, ticks) && i < |ticks|
    ensures var late := SeenLags(start, playout, ticks);
      && |late| == |ticks| + 1
      && late[i + 1] == RealLag(start, ticks, i) + FlowControl.T
      && late[i + 1] == late[i] + FlowControl.T -
           if i == 0 then FlowControl.T else FlowControl.Played(late[i - 1], RootOf(sqrt, late[i - 1]))
  {
    SeenNext(start, playout, sqrt, ticks, i);
  }

  /** The loop sets a rate and only then reads the playout point it will use next time, so the lags
      it sees follow the late recurrence; the first two are equal. */
  lemma LoopReadsLate(start: Time, playout: int, sqrt: real -> real, ticks: seq<Tick>) returns (roots: seq<real>)
    requires FlowControl.IsSqrt(sqrt) && Steady(start, playout, sqrt, ticks)
    ensures var late := SeenLags(start, playout, ticks);
      && |late| == |ticks| + 1 && late[0] == late[1] && LateFlowControl.LatePlayback(late, roots)
      && forall i :: 0 <= i < |ticks| ==> late[i + 1] == RealLag(start, ticks, i) + FlowControl.T
  {
    var late := SeenLags(start, playout, ticks);
    SeenAt(start, playout, sqrt, ticks, 0);
    roots := seq(|late|, i requires 0 <= i < |late| => RootOf(sqrt, late[i]));
    forall i | 0 <= i < |late|
      ensures FlowControl.IsRoot(late[i], roots[i])
    {
      RootOfIsRoot(sqrt, late[i]);
    }
    forall i | 2 <= i < |late|
      ensures late[i] == late[i - 1] + FlowControl.T - FlowControl.Played(late[i - 2], roots[i - 2])
    {
      SeenAt(start, playout, sqrt, ticks, i - 1);
    }
    forall i | 0 <= i < |ticks|
      ensures late[i + 1] == RealLag(start, ticks, i) + FlowControl.T
    {
      SeenAt(start, playout, sqrt, ticks, i);
    }
  }

  /** The property the guard is there for: at every sample of the whole loop the playout itself is at
      most one period ahead of real time, if and only if the first lag, which start-up leaves behind,
      is neither negative nor one of those that dip below zero. */
  lemma LoopSafeExactly(start: Time, playout: int, sqrt: real -> real, ticks: seq<Tick>)
    requires FlowControl.IsSqrt(sqrt) && Steady(start, playout, sqrt, ticks)
    requires |ticks| >= LateFlowControl.Horizon(IterateAll(start, playout, ticks).lags[0])
    ensures var d := IterateAll(start, playout, ticks).lags[0];
      (forall i :: 0 <= i < |ticks| ==> RealLag(start, ticks, i) >= -FlowControl.T) <==>
      d >= 0 && !LateFlowControl.Dips(0, d)
  {
    var late := SeenLags(start, playout, ticks);
    var roots := LoopReadsLate(start, playout, sqrt, ticks);
    LateFlowControl.LateSafeExactly(0, late, roots);
    if forall i :: 0 <= i < |ticks| ==> RealLag(start, ticks, i) >= -FlowControl.T {
      forall j | 0 <= j < |late|
        ensures late[j] >= 0
      {
        assert RealLag(start, ticks, if j == 0 then 0 else j - 1) >= -FlowControl.T;
      }
    }
  }

  /** The same for the lag the controller sees, which allows the playout two periods. */
  lemma LoopLagExactly(start: Time, playout: int, sqrt: real -> real, ticks: seq<Tick>)
    requires FlowControl.IsSqrt(sqrt) && Steady(start, playout, sqrt, ticks)
    requires |ticks| >= LateFlowControl.Horizon(IterateAll(start, playout, ticks).lags[0])
    ensures var lags := IterateAll(start, playout, ticks).lags;
      (forall i :: 0 <= i < |lags| ==> lags[i] >= -FlowControl.T) <==>
      lags[0] >= -FlowControl.T && !LateFlowControl.Dips(-FlowControl.T, lags[0])
  {
    var late := SeenLags(start, playout, ticks);
    var roots := LoopReadsLate(start, playout, sqrt, ticks);
    var lags := IterateAll(start, playout, ticks).lags;
    assert forall i :: 0 <= i < |lags| ==> lags[i] == late[i];
    LateFlowControl.LateSafeExactly(-FlowControl.T, lags, roots[..|lags|]);
  }

  /** The distance of the playout itself from real time, once beyond one period, never grows over the
      whole loop, if and only if the first lag, however negative, does not dip below zero. */
  lemma LoopNeverFarther(start: Time, playout: int, sqrt: real -> real, ticks: seq<Tick>)
    requires FlowControl.IsSqrt(sqrt) && Steady(start, playout, sqrt, ticks)
    requires |ticks| >= LateFlowControl.Horizon(IterateAll(start, playout, ticks).lags[0])
    ensures (forall i, j :: 0 <= i <= j < |ticks| ==>
               RealDistance(start, ticks, j) <= RealDistance(start, ticks, i)) <==>
            !LateFlowControl.Dips(0, IterateAll(start, playout, ticks).lags[0])
  {
    var late := SeenLags(start, playout, ticks);
    var roots := LoopReadsLate(start, playout, sqrt, ticks);
    LateDistance.NeverFartherExactly(0, late, roots);
    LateDistance.WithoutFirst(0, late);
    SameDistances(start, ticks, late[1..]);
  }

  lemma SameDistances(start: Time, ticks: seq<Tick>, rest: seq<int>)
    requires |rest| == |ticks|
    requires forall i :: 0 <= i < |ticks| ==> rest[i] == RealLag(start, ticks, i) + FlowControl.T
    ensures LateDistance.NeverFarther(0, rest) <==>
      forall i, j :: 0 <= i <= j < |ticks| ==> RealDistance(start, ticks, j) <= RealDistance(start, ticks, i)
  {
    assert forall i :: 0 <= i < |ticks| ==> RealDistance(start, ticks, i) == LateDistance.Distance(0, rest[i]);
  }

  function RealDistance(start: Time, ticks: seq<Tick>, i: nat): nat
    requires i < |ticks|
  {
    FlowControl.Max(FlowControl.Abs(RealLag(start, ticks, i)), FlowControl.T)
  }

  /** The same for the lag the controller sees. */
  lemma LoopLagNeverFarther(start: Time, playout: int, sqrt: real -> real, ticks: seq<Tick>)
    requires FlowControl.IsSqrt(sqrt) && Steady(start, playout, sqrt, ticks)
    requires |ticks| >= LateFlowControl.Horizon(IterateAll(start, playout, ticks).lags[0])
    ensures var lags := IterateAll(start, playout, ticks).lags;
      LateDistance.NeverFarther(-FlowControl.T, lags) <==> !LateFlowControl.Dips(-FlowControl.T, lags[0])
  {
    var late := SeenLags(start, playout, ticks);
    var roots := LoopReadsLate(start, playout, sqrt, ticks);
    var lags := IterateAll(start, playout, ticks).lags;
    assert forall i :: 0 <= i < |lags| ==> lags[i] == late[i];
    LateDistance.NeverFartherExactly(-FlowControl.T, lags, roots[..|lags|]);
  }

  /** From some sample on the controller sees a lag within 75 ms if and only if the first lag is not
      a stalled one; the playout itself then runs 75 to 225 ms ahead of real time. */
  lemma LoopSettlesExactly(start: Time, playout: int, sqrt: real -> real, ticks: seq<Tick>, i: nat)
    requires FlowControl.IsSqrt(sqrt) && Steady(start, playout, sqrt, ticks)
    requires LateSettling.LateSamples(IterateAll(start, playout, ticks).lags[0]) <= i < |ticks|
    ensures var lags := IterateAll(start, playout, ticks).lags;
      && |lags| == |ticks|
      && (FlowControl.Abs(lags[i]) <= 75 <==> !LateSettling.LateStalled(lags[0]))
      && (-225 <= RealLag(start, ticks, i) <= -75 <==> !LateSettling.LateStalled(lags[0]))
  {
    var late := SeenLags(start, playout, ticks);
    var roots := LoopReadsLate(start, playout, sqrt, ticks);
    LateSettling.LateSettlesExactly(late, roots, i);
    LateSettling.LateSettlesExactly(late, roots, i + 1);
  }

  // ---------------------------------------------------------------- a run that overshoots

  /** From a first lag of 3065 ms the playout ends 919 ms ahead of real time, for good. */
  lemma LoopOvershoots(start: Time, playout: int, sqrt: real -> real, ticks: seq<Tick>, i: nat)
    requires FlowControl.IsSqrt(sqrt) && Steady(start, playout, sqrt, ticks)
    requires 5 <= i < |ticks| && IterateAll(start, playout, ticks).lags[0] == 3065
    ensures RealLag(start, ticks, i) == -919
  {
    var late := SeenLags(start, playout, ticks);
    var roots := LoopReadsLate(start, playout, sqrt, ticks);
    LateFlowControl.LateReadOvershoots(late, roots, i + 1);
  }

  /** A tick every T milliseconds. */
  function TickAt(i: nat, playout: int): Tick {
    var now := Time(0, 1000 * FlowControl.T * (i + 1));
    Tick(false, now, now, playout, PLAYING)
  }

  lemma OneMoreTick(start: Time, playout: int, before: seq<Tick>, next: Tick)
    requires before != [] && forall k :: 0 <= k < |before| ==> before[k].state == PLAYING
    requires next.state == PLAYING
    ensures var lags, lags' := IterateAll(start, playout, before).lags, IterateAll(start, playout, before + [next]).lags;
      |lags| == |before| && |lags'| == |before| + 1 && lags'[..|before|] == lags
  {
    LagAt(start, playout, before, 0);
    assert Front(before + [next]) == before;
  }

  lemma SteadyPair(sqrt: real -> real, d: int, playout: int, ticks: seq<Tick>)
    requires playout == FlowControl.T - d && |ticks| == 2
    requires ticks[0] == TickAt(0, playout + FlowControl.T)
    requires ticks[1] == TickAt(1, ticks[0].playout + FlowControl.Played(d, RootOf(sqrt, d)))
    ensures Clock(Time(0, 0), ticks) && Steady(Time(0, 0), playout, sqrt, ticks)
    ensures IterateAll(Time(0, 0), playout, ticks).lags[0] == d
  {
    ClockPair(ticks);
    LagAt(Time(0, 0), playout, ticks, 0);
    assert Rounded(ticks[0].end.Micros()) == FlowControl.T;
    assert IterateAll(Time(0, 0), playout, ticks).lags[0] == d;
  }

  lemma ClockPair(ticks: seq<Tick>)
    requires |ticks| == 2 && ticks[0] == TickAt(0, ticks[0].playout) && ticks[1] == TickAt(1, ticks[1].playout)
    ensures Clock(Time(0, 0), ticks)
  {
    assert Front(ticks) == [ticks[0]] && Front([ticks[0]]) == [];
    assert Clock(Time(0, 0), []);
    assert Clock(Time(0, 0), [ticks[0]]);
  }

  lemma SteadyMore(start: Time, sqrt: real -> real, playout: int, before: seq<Tick>, next: Tick)
    requires Steady(start, playout, sqrt, before) && next.state == PLAYING
    requires next.end.Micros() == Last(before).end.Micros() + 1000 * FlowControl.T
    requires var lag := Last(IterateAll(start, playout, before).lags);
      next.playout == Last(before).playout + FlowControl.Played(lag, RootOf(sqrt, lag))
    ensures Steady(start, playout, sqrt, before + [next])
    ensures IterateAll(start, playout, before + [next]).lags[0] == IterateAll(start, playout, before).lags[0]
  {
    var n, ticks := |before|, before + [next];
    var lags, lags' := IterateAll(start, playout, before).lags, IterateAll(start, playout, ticks).lags;
    OneMoreTick(start, playout, before, next);
    forall i | 1 <= i < |ticks|
      ensures ticks[i].playout == ticks[i - 1].playout + FlowControl.Played(lags'[i - 1], RootOf(sqrt, lags'[i - 1]))
    {
      assert lags'[i - 1] == lags'[..n][i - 1] == lags[i - 1];
    }
    assert lags'[0] == lags'[..n][0];
  }

  /** Steady runs of any length exist for every first lag. */
  lemma {:induction false} SteadyExists(sqrt: real -> real, d: int, n: nat) returns (playout: int, ticks: seq<Tick>)
    requires n >= 2
    ensures Clock(Time(0, 0), ticks) && Steady(Time(0, 0), playout, sqrt, ticks) && |ticks| == n
    ensures IterateAll(Time(0, 0), playout, ticks).lags[0] == d
    ensures Last(ticks) == TickAt(n - 1, Last(ticks).playout)
    decreases n
  {
    if n == 2 {
      playout := FlowControl.T - d;
      var first := TickAt(0, playout + FlowControl.T);
      ticks := [first, TickAt(1, first.playout + FlowControl.Played(d, RootOf(sqrt, d)))];
      SteadyPair(sqrt, d, playout, ticks);
    } else {
      var before;
      playout, before := SteadyExists(sqrt, d, n - 1);
      var lag := Last(IterateAll(Time(0, 0), playout, before).lags);
      var next := TickAt(n - 1, Last(before).playout + FlowControl.Played(lag, RootOf(sqrt, lag)));
      SteadyMore(Time(0, 0), sqrt, playout, before, next);
      ticks := before + [next];
      assert Front(ticks) == before;
    }
  }
}
