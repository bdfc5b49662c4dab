/** Whether the controller, inside the player's loop, ever brings the lag it sees into the band it
    tolerates. */
module LateSettling {
  import opened FlowControl
  import opened LateFlowControl

  /** Two successive lags after which the lag stays within 75 ms for good. */
  predicate Settled(a: int, b: int) {
    Abs(a) <= 75 && Abs(b) <= 75
  }

  /** Two successive lags after which the playout stays too far ahead for good: the guard fires for
      the second and what the first still contributes cannot bring it back. */
  predicate Lost(a: int, b: int) {
    b <= -156 && (a >= -75 || a <= -156 || b <= -162)
  }

  /** Steady lags that never settle. */
  predicate LateStalled(d: int) {
    d <= -156 || 1969 <= d <= 2000 || (d > 2000 && (d - 1983) % 537 <= 8)
  }

  /** Enough samples to settle from a steady lag. */
  function LateSamples(d: int): nat {
    2200 + Abs(d) / 537
  }

  // ---------------------------------------------------------------- lags that settle

  /** An upper bound on the samples until two gentle lags are settled. */
  function Remaining(a: int, b: int): nat
    requires Gentle(-155, a, b)
  {
    if Settled(a, b) then 0
    else if a > 75 then 163 + (a + b + 155) / 2
    else 2 * (if b < -75 then -75 - b else 0) + if a < -75 then 1 else 2
  }

  lemma SettlingStep(a: int, b: int, root: real)
    requires Gentle(-155, a, b) && IsRoot(a, root)
    ensures var c := b + T - Played(a, root);
      Gentle(-155, b, c) && if Settled(a, b) then Settled(b, c) else Remaining(b, c) < Remaining(a, b)
  {
    GentleStep(-155, a, b, root);
    OneSample(a, root);
  }

  lemma SettlingAt(lags: seq<int>, roots: seq<real>, j: nat)
    requires LatePlayback(lags, roots) && 2 <= j < |lags| && Gentle(-155, lags[j - 2], lags[j - 1])
    ensures Gentle(-155, lags[j - 1], lags[j])
    ensures if Settled(lags[j - 2], lags[j - 1]) then Settled(lags[j - 1], lags[j])
            else Remaining(lags[j - 1], lags[j]) < Remaining(lags[j - 2], lags[j - 1])
  {
    SettlingStep(lags[j - 2], lags[j - 1], roots[j - 2]);
  }

  lemma {:induction false} SettlesFrom(lags: seq<int>, roots: seq<real>, i: nat, j: nat)
    requires LatePlayback(lags, roots) && i < j < |lags| && Gentle(-155, lags[i], lags[i + 1])
    ensures Gentle(-155, lags[j - 1], lags[j])
    ensures Settled(lags[j - 1], lags[j]) ||
      Remaining(lags[j - 1], lags[j]) + (j - 1 - i) <= Remaining(lags[i], lags[i + 1])
    decreases j
  {
    if i + 1 < j {
      SettlesFrom(lags, roots, i, j - 1);
      SettlingAt(lags, roots, j);
    }
  }

  /** From 1968 ms the lag falls to -157 ms and comes back. */
  lemma JustReturns(lags: seq<int>, roots: seq<real>)
    requires LatePlayback(lags, roots) && |lags| >= 7 && lags[0] == lags[1] == 1968
    ensures Gentle(-155, lags[5], lags[6])
  {
    var l, v := BeginsAt(lags, roots, 0);
    PlayedBetween(l[0], v[0], Band(1968, 1968, 1185, 1185));
    PlayedBetween(l[1], v[1], Band(1968, 1968, 1185, 1185));
    PlayedBetween(l[2], v[2], Band(933, 933, 205, 205));
    assert lags[3] == l[3] && lags[4] == l[4] == -157 && lags[5] == l[5];
    OneSample(lags[3], roots[3]);
    OneSample(lags[4], roots[4]);
  }

  lemma Weaken(a: int, b: int)
    requires Gentle(-T, a, b)
    ensures Gentle(-155, a, b)
  {}

  lemma NearReaches(lags: seq<int>, roots: seq<real>) returns (i: nat)
    requires LatePlayback(lags, roots) && |lags| >= 8 && -156 < lags[0] == lags[1] <= 1968
    ensures i < 6 && Gentle(-155, lags[i], lags[i + 1])
  {
    if lags[0] <= 1880 {
      i := 0;
    } else if lags[0] < 1968 {
      var l, v := BeginsAt(lags, roots, 0);
      SteadySafe(-T, l, v);
      Weaken(l[4], l[5]);
      i := 4;
    } else {
      JustReturns(lags, roots);
      i := 5;
    }
  }

  lemma FarReaches(lags: seq<int>, roots: seq<real>, i: nat) returns (k: nat)
    requires LatePlayback(lags, roots) && i + 6 <= |lags| && lags[i + 1] == lags[i] - 537
    requires 1464 <= lags[i] <= 2000 && !(1983 <= lags[i] <= 1991)
    ensures i <= k <= i + 3 && Gentle(-155, lags[k], lags[k + 1])
  {
    if lags[i] <= 1880 {
      k := i;
    } else if lags[i] < 1983 {
      var l, v := BeginsAt(lags, roots, i);
      FarSafe(-T, l, v);
      Weaken(l[3], l[4]);
      k := i + 3;
    } else {
      OneSample(lags[i], roots[i]);
      k := i + 1;
    }
  }

  /** The descent from a far steady lag, and whether what it leaves is stalled. */
  lemma FarLeaves(lags: seq<int>, roots: seq<real>) returns (i: nat)
    requires LatePlayback(lags, roots) && |lags| >= 2 && |lags| >= Horizon(lags[0]) && lags[0] == lags[1] > 2000
    ensures i + 6 <= |lags| && i + 6 <= Horizon(lags[0]) && lags[i + 1] == lags[i] - 537
    ensures 1464 <= lags[i] <= 2000 && (LateStalled(lags[0]) <==> 1983 <= lags[i] <= 1991)
  {
    DescentEnds(-T, lags[0]);
    i := Descended(lags, roots);
  }

  /** Every steady lag that is not stalled reaches two gentle ones. */
  lemma ReachesGentle(lags: seq<int>, roots: seq<real>) returns (i: nat)
    requires LatePlayback(lags, roots) && |lags| >= 2 && |lags| >= Horizon(lags[0]) && lags[0] == lags[1]
    requires !LateStalled(lags[0])
    ensures i + 1 < |lags| && i < Horizon(lags[0]) && Gentle(-155, lags[i], lags[i + 1])
  {
    if lags[0] <= 2000 {
      i := NearReaches(lags, roots);
    } else {
      i := FarLeaves(lags, roots);
      i := FarReaches(lags, roots, i);
    }
  }

  // ---------------------------------------------------------------- lags that do not

  lemma {:induction false} LostForever(lags: seq<int>, roots: seq<real>, i: nat, j: nat)
    requires LatePlayback(lags, roots) && i < j < |lags| && Lost(lags[i], lags[i + 1])
    ensures Lost(lags[j - 1], lags[j])
    decreases j
  {
    if i + 1 < j {
      LostForever(lags, roots, i, j - 1);
      OneSample(lags[j - 2], roots[j - 2]);
    }
  }

  lemma SteadyLost(l: seq<int>, v: seq<int>)
    requires Begins(l, v) && l[0] == l[1] && 1969 <= l[0] <= 1991
    ensures Lost(l[2], l[3]) || Lost(l[3], l[4])
  {
    if l[0] <= 1970 {
      PlayedBetween(l[0], v[0], Band(1969, 1970, 1204, 1224));
      PlayedBetween(l[1], v[1], Band(1969, 1970, 1204, 1224));
      PlayedBetween(l[2], v[2], Band(895, 916, 201, 203));
    } else {
      PlayedBetween(l[0], v[0], Band(1971, 1991, 1245, 2236));
      PlayedBetween(l[1], v[1], Band(1971, 1991, 1245, 2236));
    }
  }

  lemma FarLost(l: seq<int>, v: seq<int>)
    requires Begins(l, v) && l[1] == l[0] - 537 && 1983 <= l[0] <= 1991
    ensures Lost(l[1], l[2]) || Lost(l[2], l[3])
  {
    if l[0] <= 1986 {
      PlayedBetween(l[0], v[0], Band(1983, 1986, 1626, 1792));
      PlayedBetween(l[1], v[1], Band(1446, 1449, 285, 285));
    } else {
      PlayedBetween(l[0], v[0], Band(1987, 1991, 1860, 2236));
    }
  }

  lemma NearLost(lags: seq<int>, roots: seq<real>) returns (i: nat)
    requires LatePlayback(lags, roots) && |lags| >= 8 && 1969 <= lags[0] == lags[1] <= 1991
    ensures i < 6 && Lost(lags[i], lags[i + 1])
  {
    var l, v := BeginsAt(lags, roots, 0);
    SteadyLost(l, v);
    i := if Lost(l[2], l[3]) then 2 else 3;
  }

  lemma FarLosesFrom(lags: seq<int>, roots: seq<real>, i: nat) returns (k: nat)
    requires LatePlayback(lags, roots) && i + 6 <= |lags| && lags[i + 1] == lags[i] - 537
    requires 1983 <= lags[i] <= 1991
    ensures i <= k <= i + 3 && Lost(lags[k], lags[k + 1])
  {
    var l, v := BeginsAt(lags, roots, i);
    FarLost(l, v);
    k := if Lost(l[1], l[2]) then i + 1 else i + 2;
  }

  /** Every stalled steady lag outside 1992..2000 ms, where nothing moves, reaches two lost ones. */
  lemma ReachesLost(lags: seq<int>, roots: seq<real>) returns (i: nat)
    requires LatePlayback(lags, roots) && |lags| >= 2 && |lags| >= Horizon(lags[0]) && lags[0] == lags[1]
    requires LateStalled(lags[0]) && !(1992 <= lags[0] <= 2000)
    ensures i + 1 < |lags| && i < Horizon(lags[0]) && Lost(lags[i], lags[i + 1])
  {
    if lags[0] <= -156 {
      i := 0;
    } else if lags[0] <= 2000 {
      i := NearLost(lags, roots);
    } else {
      i := FarLeaves(lags, roots);
      i := FarLosesFrom(lags, roots, i);
    }
  }

  /** In the real loop the lag the controller sees is brought within 75 ms, for good, if and only if
      the steady lag it starts from is not one of the stalled ones. */
  lemma LateSettlesExactly(lags: seq<int>, roots: seq<real>, j: nat)
    requires LatePlayback(lags, roots) && |lags| >= 2 && lags[0] == lags[1]
    requires LateSamples(lags[0]) <= j < |lags|
    ensures Abs(lags[j]) <= 75 <==> !LateStalled(lags[0])
  {
    if 1992 <= lags[0] <= 2000 {
      StuckLate(lags, roots, 0, j);
    } else if LateStalled(lags[0]) {
      var i := ReachesLost(lags, roots);
      LostForever(lags, roots, i, j);
    } else {
      var i := ReachesGentle(lags, roots);
      SettlesFrom(lags, roots, i, j);
    }
  }
}
