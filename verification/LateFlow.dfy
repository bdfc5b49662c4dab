/** The rate controller inside the player's loop, which sets a rate and only then reads the playout
    point: the lag it sees at a sample is measured against a playout point read one sample earlier,
    and reflects the rate chosen two samples earlier. */
module LateFlowControl {
  import opened FlowControl

  /** Lags as the controller sees them at successive samples, with the square root computed at each. */
  predicate LatePlayback(lags: seq<int>, roots: seq<real>) {
    && |roots| == |lags|
    && (forall i :: 0 <= i < |lags| ==> IsRoot(lags[i], roots[i]))
    && forall i :: 2 <= i < |lags| ==> lags[i] == lags[i - 1] + T - Played(lags[i - 2], roots[i - 2])
  }

  /** The two lower bounds of interest: a lag of at least -T, and a lag of at least 0. The second is
      the one that keeps the playout itself within one period of real time, since the playout point
      behind a lag is one period old. */
  predicate IsFloor(floor: int) {
    floor == 0 || floor == -T
  }

  /** The first steady lag up to 2000 ms from which a later lag falls below the floor. */
  function FirstNear(floor: int): int {
    if floor == 0 then 1963 else 1968
  }

  /** The same for what is left of a lag beyond 2000 ms after the descent in steps of 537 ms. */
  function FirstFar(floor: int): int {
    if floor == 0 then 1979 else 1983
  }

  /** Steady lags from which a later lag falls below the floor. */
  predicate Dips(floor: int, d: int) {
    FirstNear(floor) <= d <= 1991 || (d > 2000 && (d - FirstFar(floor)) % 537 <= 1991 - FirstFar(floor))
  }

  /** Enough samples to see whether one does. */
  function Horizon(d: int): nat {
    8 + Abs(d) / 537
  }

  // ---------------------------------------------------------------- what one period plays

  /** `v` milliseconds are what one period plays at the rate chosen for `d`. */
  ghost predicate Plays(d: int, v: int) {
    exists root :: IsRoot(d, root) && v == Played(d, root)
  }

  /** Lags from..to play low..high. */
  datatype Band = Band(from: nat, to: nat, low: nat, high: nat) {
    /** Right at both ends, hence throughout. */
    predicate Sound() {
      75 < from <= to <= 1991
      && low * low * (2000 - from) <= 45000000 < (high + 1) * (high + 1) * (2000 - to)
    }
  }

  /** No lag up to `to` plays more than `high`. */
  datatype Cap = Cap(to: nat, high: nat) {
    predicate Sound() {
      75 < to <= 1880 && 150 <= high && 45000000 < (high + 1) * (high + 1) * (2000 - to)
    }
  }

  lemma PlayedAtLeast(d: int, root: real, m: nat)
    requires IsRoot(d, root) && 75 < d <= 1991
    ensures Played(d, root) >= m <==> m * m * (2000 - d) <= 45000000
  {
    GuardExactly(d, root);
    CompareNear(d, root, m);
  }

  lemma PlayedBetween(d: int, v: int, band: Band)
    requires Plays(d, v) && band.Sound() && band.from <= d <= band.to
    ensures band.low <= v <= band.high
  {
    var root :| IsRoot(d, root) && v == Played(d, root);
    PlayedAtLeast(d, root, band.low);
    PlayedAtLeast(d, root, band.high + 1);
    AtLeast(band.low, 2000 - band.from, band.low, 2000 - d);
    AtLeast(band.high + 1, 2000 - d, band.high + 1, 2000 - band.to);
  }

  lemma PlayedAtMost(d: int, v: int, cap: Cap)
    requires Plays(d, v) && cap.Sound() && -75 <= d <= cap.to
    ensures T <= v <= cap.high
  {
    var root :| IsRoot(d, root) && v == Played(d, root);
    OneSample(d, root);
    if d > 75 {
      PlayedBetween(d, v, Band(d, cap.to, 0, cap.high));
    }
  }

  // ---------------------------------------------------------------- lags that stay above a floor

  /** Two successive lags from which no later lag drops below the floor: the second has not fallen by
      more than half of the way to it, and what is played per period is bounded accordingly. */
  predicate Gentle(floor: int, a: int, b: int) {
    floor <= a <= 1880 && 2 * (b - floor) >= a - floor && (b <= a || (a <= -70 && b <= a + 6))
  }

  lemma QuarterArithmetic(a: int)
    requires 75 < a <= 1880
    ensures (a + 601) * (a + 601) * (2000 - a) > 720000000
  {
    var m, k := a + 601, 2000 - a;
    if a <= 400 {
      AtLeast(m, k, 677, 1600);
    } else if a <= 1000 {
      AtLeast(m, k, 1001, 1000);
    } else if a <= 1600 {
      AtLeast(m, k, 1601, 400);
    } else if a <= 1780 {
      AtLeast(m, k, 2201, 220);
    } else if a <= 1850 {
      AtLeast(m, k, 2381, 150);
    } else {
      AtLeast(m, k, 2451, 120);
    }
  }

  /** One period removes at most a quarter of the lag. */
  lemma QuarterAtMost(a: int, root: real)
    requires IsRoot(a, root) && 75 < a <= 1880
    ensures 4 * (Played(a, root) - T) <= a
  {
    OneSample(a, root);
    var p, k := Played(a, root), 2000 - a;
    PlayedAtLeast(a, root, p);
    if 4 * p >= a + 601 {
      AtLeast(4 * p, k, a + 601, k);
      QuarterArithmetic(a);
      Sixteenfold(p, k);
    }
  }

  lemma Sixteenfold(p: nat, k: nat)
    ensures (4 * p) * (4 * p) * k == 16 * (p * p * k)
  {}

  lemma GentleStep(floor: int, a: int, b: int, root: real)
    requires -155 <= floor <= 0 && Gentle(floor, a, b) && IsRoot(a, root)
    ensures Gentle(floor, b, b + T - Played(a, root))
  {
    OneSample(a, root);
    if a > 75 {
      QuarterAtMost(a, root);
    }
  }

  lemma {:induction false} GentleForever(floor: int, lags: seq<int>, roots: seq<real>, i: nat, j: nat)
    requires -155 <= floor <= 0 && LatePlayback(lags, roots) && i < j < |lags| && Gentle(floor, lags[i], lags[i + 1])
    ensures lags[j] >= floor && Gentle(floor, lags[j - 1], lags[j])
    decreases j
  {
    if i + 1 < j {
      GentleForever(floor, lags, roots, i, j - 1);
      GentleStep(floor, lags[j - 2], lags[j - 1], roots[j - 2]);
    }
  }

  // ---------------------------------------------------------------- steep lags, 1881 to 1991 ms

  /** Six successive lags of a late playback, and what is played after the first four. */
  ghost predicate Begins(l: seq<int>, v: seq<int>) {
    && |l| == 6 && |v| == 4
    && Plays(l[0], v[0]) && Plays(l[1], v[1]) && Plays(l[2], v[2]) && Plays(l[3], v[3])
    && l[2] == l[1] + T - v[0] && l[3] == l[2] + T - v[1] && l[4] == l[3] + T - v[2] && l[5] == l[4] + T - v[3]
  }

  lemma BeginsAt(lags: seq<int>, roots: seq<real>, i: nat) returns (l: seq<int>, v: seq<int>)
    requires LatePlayback(lags, roots) && i + 6 <= |lags|
    ensures l == lags[i..i + 6] && Begins(l, v)
  {
    l := lags[i..i + 6];
    v := seq(4, k requires 0 <= k < 4 => Played(lags[i + k], roots[i + k]));
    forall k | 0 <= k < 4
      ensures Plays(l[k], v[k])
    {
      assert IsRoot(lags[i + k], roots[i + k]) && v[k] == Played(lags[i + k], roots[i + k]);
    }
    assert Plays(l[0], v[0]) && Plays(l[1], v[1]) && Plays(l[2], v[2]) && Plays(l[3], v[3]);
    assert lags[i + 2] == lags[i + 1] + T - v[0] && lags[i + 3] == lags[i + 2] + T - v[1];
    assert lags[i + 4] == lags[i + 3] + T - v[2] && lags[i + 5] == lags[i + 4] + T - v[3];
  }

  /** A range of steady lags from which the next four stay above the floor. */
  lemma SteadyRange(floor: int, l: seq<int>, v: seq<int>, band: Band, fast: Cap, slow: Cap)
    requires Begins(l, v) && band.Sound() && fast.Sound() && slow.Sound()
    requires l[0] == l[1] && band.from <= l[0] <= band.to
    requires T < band.low && band.to + T - band.low <= fast.to && band.to + 2 * T - 2 * band.low <= slow.to
    requires band.from + 2 * T - 2 * band.high >= -75
    requires band.from + 3 * T - 2 * band.high - fast.high - floor >= 2 * (slow.high - T) && floor <= 0
    ensures l[2] >= floor && l[3] >= floor && Gentle(floor, l[4], l[5])
  {
    PlayedBetween(l[0], v[0], band);
    PlayedBetween(l[1], v[1], band);
    assert -75 <= l[3] <= l[2] <= fast.to && l[3] <= slow.to;
    PlayedAtMost(l[2], v[2], fast);
    PlayedAtMost(l[3], v[3], slow);
  }

  lemma SteadySafe(floor: int, l: seq<int>, v: seq<int>)
    requires IsFloor(floor) && Begins(l, v) && l[0] == l[1] && 1881 <= l[0] < FirstNear(floor)
    ensures l[2] >= floor && l[3] >= floor && Gentle(floor, l[4], l[5])
  {
    if l[0] <= 1939 {
      SteadyRange(floor, l, v, Band(1881, 1939, 614, 858), Cap(1475, 292), Cap(1011, 213));
    } else if l[0] <= 1959 {
      SteadyRange(floor, l, v, Band(1940, 1959, 866, 1047), Cap(1243, 243), Cap(527, 174));
    } else if l[0] <= 1962 {
      SteadyRange(floor, l, v, Band(1960, 1962, 1060, 1088), Cap(1052, 217), Cap(142, 155));
    } else {
      SteadySafeHigh(l, v);
    }
  }

  lemma SteadySafeHigh(l: seq<int>, v: seq<int>)
    requires Begins(l, v) && l[0] == l[1] && 1963 <= l[0] < 1968
    ensures l[2] >= -T && l[3] >= -T && Gentle(-T, l[4], l[5])
  {
    if l[0] <= 1966 {
      SteadyRange(-T, l, v, Band(1963, 1966, 1102, 1150), Cap(1014, 213), Cap(76, 152));
    } else {
      SteadyRange(-T, l, v, Band(1967, 1967, 1167, 1167), Cap(950, 207), Cap(76, 152));
    }
  }

  lemma SteadyDips(floor: int, l: seq<int>, v: seq<int>)
    requires IsFloor(floor) && Begins(l, v) && l[0] == l[1] && FirstNear(floor) <= l[0] <= 1991
    ensures l[3] < floor || l[4] < floor
  {
    if l[0] <= 1967 {
      SteadyDipsLow(l, v);
    } else if l[0] <= 1970 {
      PlayedBetween(l[0], v[0], Band(1968, 1970, 1185, 1224));
      PlayedBetween(l[1], v[1], Band(1968, 1970, 1185, 1224));
      PlayedBetween(l[2], v[2], Band(894, 935, 201, 205));
    } else {
      PlayedBetween(l[0], v[0], Band(1971, 1991, 1245, 2236));
      PlayedBetween(l[1], v[1], Band(1971, 1991, 1245, 2236));
    }
  }

  lemma SteadyDipsLow(l: seq<int>, v: seq<int>)
    requires Begins(l, v) && l[0] == l[1] && 1963 <= l[0] <= 1967
    ensures l[4] < 0
  {
    if l[0] <= 1964 {
      PlayedBetween(l[0], v[0], Band(1963, 1964, 1102, 1118));
      PlayedBetween(l[1], v[1], Band(1963, 1964, 1102, 1118));
      PlayedBetween(l[2], v[2], Band(995, 1012, 211, 213));
    } else {
      PlayedBetween(l[0], v[0], Band(1965, 1967, 1133, 1167));
      PlayedBetween(l[1], v[1], Band(1965, 1967, 1133, 1167));
      PlayedBetween(l[2], v[2], Band(948, 984, 206, 210));
    }
  }

  /** A range of lags, just come down by 537 ms, from which the next lags stay above the floor. */
  lemma FarRange(floor: int, l: seq<int>, v: seq<int>, band: Band, slow: Cap)
    requires Begins(l, v) && band.Sound() && slow.Sound()
    requires l[1] == l[0] - 537 && 1881 <= band.from <= l[0] <= band.to <= 1982
    requires band.to - 537 + T - band.low <= slow.to && band.from - 537 + T - band.high >= -75
    requires band.from - 537 + 2 * T - band.high - 284 - floor >= 2 * (slow.high - T) && floor <= 0
    ensures l[2] >= floor && Gentle(floor, l[3], l[4])
  {
    PlayedBetween(l[0], v[0], band);
    FarSecond(l[1], v[1]);
    assert -75 <= l[2] <= slow.to;
    PlayedAtMost(l[2], v[2], slow);
  }

  lemma FarSecond(d: int, v: int)
    requires Plays(d, v) && 1344 <= d <= 1445
    ensures T < v <= 284
  {
    PlayedBetween(d, v, Band(1344, 1445, 261, 284));
  }

  lemma FarSafe(floor: int, l: seq<int>, v: seq<int>)
    requires IsFloor(floor) && Begins(l, v) && l[1] == l[0] - 537 && 1881 <= l[0] < FirstFar(floor)
    ensures l[2] >= floor && Gentle(floor, l[3], l[4])
  {
    if l[0] <= 1959 {
      FarTo1959(floor, l, v);
    } else if l[0] <= 1975 {
      FarTo1975(floor, l, v);
    } else if l[0] <= 1978 {
      FarTo1978(floor, l, v);
    } else if l[0] <= 1981 {
      FarTo1981(l, v);
    } else {
      FarAt1982(l, v);
    }
  }

  lemma FarTo1959(floor: int, l: seq<int>, v: seq<int>)
    requires IsFloor(floor) && Begins(l, v) && l[1] == l[0] - 537 && 1881 <= l[0] <= 1959
    ensures l[2] >= floor && Gentle(floor, l[3], l[4])
  {
    FarRange(floor, l, v, Band(1881, 1959, 614, 1047), Cap(958, 207));
  }

  lemma FarTo1975(floor: int, l: seq<int>, v: seq<int>)
    requires IsFloor(floor) && Begins(l, v) && l[1] == l[0] - 537 && 1960 <= l[0] <= 1975
    ensures l[2] >= floor && Gentle(floor, l[3], l[4])
  {
    FarRange(floor, l, v, Band(1960, 1975, 1060, 1341), Cap(528, 174));
  }

  lemma FarTo1978(floor: int, l: seq<int>, v: seq<int>)
    requires IsFloor(floor) && Begins(l, v) && l[1] == l[0] - 537 && 1976 <= l[0] <= 1978
    ensures l[2] >= floor && Gentle(floor, l[3], l[4])
  {
    FarRange(floor, l, v, Band(1976, 1978, 1369, 1430), Cap(222, 159));
  }

  lemma FarTo1981(l: seq<int>, v: seq<int>)
    requires Begins(l, v) && l[1] == l[0] - 537 && 1979 <= l[0] <= 1981
    ensures l[2] >= -T && Gentle(-T, l[3], l[4])
  {
    FarRange(-T, l, v, Band(1979, 1981, 1463, 1538), Cap(131, 155));
  }

  lemma FarAt1982(l: seq<int>, v: seq<int>)
    requires Begins(l, v) && l[1] == l[0] - 537 && l[0] == 1982
    ensures l[2] >= -T && Gentle(-T, l[3], l[4])
  {
    FarRange(-T, l, v, Band(1982, 1982, 1581, 1581), Cap(76, 152));
  }

  lemma FarDips(floor: int, l: seq<int>, v: seq<int>)
    requires IsFloor(floor) && Begins(l, v) && l[1] == l[0] - 537 && FirstFar(floor) <= l[0] <= 1991
    ensures l[3] < floor
  {
    if l[0] <= 1982 {
      PlayedBetween(l[0], v[0], Band(1979, 1982, 1463, 1581));
      PlayedBetween(l[1], v[1], Band(1442, 1445, 283, 284));
    } else {
      PlayedBetween(l[0], v[0], Band(1983, 1991, 1626, 2236));
      PlayedBetween(l[1], v[1], Band(1446, 1454, 285, 287));
    }
  }

  // ---------------------------------------------------------------- beyond 2000 ms

  /** How many samples of 537 ms each it takes to come down to 2000 ms. */
  function Descent(d: int): nat
    requires d > 2000
  {
    (d - 2000 + 536) / 537
  }

  lemma DescentEnds(floor: int, d: int)
    requires IsFloor(floor) && d > 2000
    ensures 1464 <= d - 537 * Descent(d) <= 2000 && Descent(d) + 7 <= Horizon(d)
    ensures Dips(floor, d) <==> FirstFar(floor) <= d - 537 * Descent(d) <= 1991
  {
    Remainder(d, Descent(d), FirstFar(floor));
  }

  lemma Remainder(d: int, n: nat, first: int)
    requires 1464 <= d - 537 * n <= 2000 && 1979 <= first <= 1991
    ensures (d - first) % 537 <= 1991 - first <==> first <= d - 537 * n <= 1991
  {
    var x := d - 537 * n;
    if x >= first {
      assert d - first == 537 * n + (x - first);
    } else {
      assert d - first == 537 * (n - 1) + (x - first + 537);
    }
  }

  lemma {:induction false} FarDescent(lags: seq<int>, roots: seq<real>, j: nat)
    requires LatePlayback(lags, roots) && |lags| >= 2 && lags[0] == lags[1] > 2000
    requires 1 <= j < |lags| && j <= Descent(lags[0]) + 2
    ensures lags[j] == lags[0] - 537 * (j - 1)
    decreases j
  {
    if j > 1 {
      FarDescent(lags, roots, j - 1);
      if j > 2 {
        FarDescent(lags, roots, j - 2);
      }
      FarRate(lags[j - 2], roots[j - 2]);
    }
  }

  /** Where the descent ends, all lags on the way being far above the floor. */
  lemma Descended(lags: seq<int>, roots: seq<real>) returns (i: nat)
    requires LatePlayback(lags, roots) && |lags| >= 2 && |lags| >= Horizon(lags[0]) && lags[0] == lags[1] > 2000
    ensures i + 6 <= |lags| && i == Descent(lags[0]) + 1
    ensures lags[i] == lags[0] - 537 * Descent(lags[0]) && lags[i + 1] == lags[i] - 537
    ensures forall j :: 0 <= j < i ==> lags[j] > 0
  {
    i := Descent(lags[0]) + 1;
    DescentEnds(0, lags[0]);
    FarDescent(lags, roots, i);
    FarDescent(lags, roots, i + 1);
    forall j | 1 <= j < i
      ensures lags[j] > 0
    {
      FarDescent(lags, roots, j);
    }
  }

  lemma FromFar(floor: int, lags: seq<int>, roots: seq<real>, i: nat, j: nat)
    requires IsFloor(floor) && LatePlayback(lags, roots) && i + 6 <= |lags| && i <= j < |lags|
    requires 1464 <= lags[i] <= 2000 && lags[i + 1] == lags[i] - 537
    ensures if FirstFar(floor) <= lags[i] <= 1991 then lags[i + 3] < floor else lags[j] >= floor
  {
    if lags[i] <= 1880 {
      if i < j { GentleForever(floor, lags, roots, i, j); }
    } else if lags[i] <= 1991 {
      var l, v := BeginsAt(lags, roots, i);
      if lags[i] >= FirstFar(floor) {
        FarDips(floor, l, v);
      } else {
        FarSafe(floor, l, v);
        if i + 3 < j { GentleForever(floor, lags, roots, i + 3, j); }
      }
    } else {
      OneSample(lags[i], roots[i]);
      if i + 1 < j { GentleForever(floor, lags, roots, i + 1, j); }
    }
  }

  // ---------------------------------------------------------------- exactly when it is safe

  /** From a steady lag beyond 2000 ms. */
  lemma FarExactly(floor: int, lags: seq<int>, roots: seq<real>, j: nat)
    requires IsFloor(floor) && LatePlayback(lags, roots)
    requires |lags| >= 2 && |lags| >= Horizon(lags[0]) && lags[0] == lags[1] > 2000
    requires j < |lags|
    ensures !Dips(floor, lags[0]) ==> lags[j] >= floor
    ensures Dips(floor, lags[0]) ==> exists k :: 0 <= k < |lags| && lags[k] < floor
  {
    DescentEnds(floor, lags[0]);
    var i := Descended(lags, roots);
    FromFar(floor, lags, roots, i, if j < i then i else j);
  }

  lemma SteepExactly(floor: int, lags: seq<int>, roots: seq<real>, j: nat)
    requires IsFloor(floor) && LatePlayback(lags, roots)
    requires j < |lags| && |lags| >= 6 && 1881 <= lags[0] == lags[1] <= 1991
    ensures if lags[0] < FirstNear(floor) then lags[j] >= floor else lags[3] < floor || lags[4] < floor
  {
    var l, v := BeginsAt(lags, roots, 0);
    if lags[0] >= FirstNear(floor) {
      SteadyDips(floor, l, v);
    } else {
      SteadySafe(floor, l, v);
      if j > 4 { GentleForever(floor, lags, roots, 4, j); }
    }
  }

  /** From a steady lag of at most 2000 ms. */
  lemma NearExactly(floor: int, lags: seq<int>, roots: seq<real>, j: nat)
    requires IsFloor(floor) && LatePlayback(lags, roots) && |lags| >= 8 && floor <= lags[0] == lags[1] <= 2000
    requires j < |lags|
    ensures !Dips(floor, lags[0]) ==> lags[j] >= floor
    ensures Dips(floor, lags[0]) ==> exists k :: 0 <= k < |lags| && lags[k] < floor
  {
    if lags[0] <= 1880 {
      if j > 0 { GentleForever(floor, lags, roots, 0, j); }
    } else if lags[0] <= 1991 {
      SteepExactly(floor, lags, roots, j);
    } else {
      StuckLate(lags, roots, 0, j);
    }
  }

  /** Once two successive lags are equal and the guard fires for them, nothing moves any more. */
  lemma {:induction false} StuckLate(lags: seq<int>, roots: seq<real>, i: nat, j: nat)
    requires LatePlayback(lags, roots) && i + 1 < |lags| && lags[i] == lags[i + 1]
    requires lags[i] <= -156 || 1992 <= lags[i] <= 2000
    requires i <= j < |lags|
    ensures lags[j] == lags[i]
  {
    if j > i + 1 {
      StuckLate(lags, roots, i, j - 1);
      StuckLate(lags, roots, i, j - 2);
      OneSample(lags[j - 2], roots[j - 2]);
    }
  }

  /** Every lag stays above the floor if and only if the steady lag from which the controller starts
      does and is not one of those that dip. */
  lemma LateSafeExactly(floor: int, lags: seq<int>, roots: seq<real>)
    requires IsFloor(floor) && LatePlayback(lags, roots)
    requires |lags| >= 2 && lags[0] == lags[1] && |lags| >= Horizon(lags[0])
    ensures (forall j :: 0 <= j < |lags| ==> lags[j] >= floor) <==> lags[0] >= floor && !Dips(floor, lags[0])
  {
    if lags[0] >= floor {
      forall j | 0 <= j < |lags|
        ensures !Dips(floor, lags[0]) ==> lags[j] >= floor
        ensures Dips(floor, lags[0]) ==> exists k :: 0 <= k < |lags| && lags[k] < floor
      {
        if lags[0] > 2000 {
          FarExactly(floor, lags, roots, j);
        } else {
          NearExactly(floor, lags, roots, j);
        }
      }
      assert Dips(floor, lags[0]) ==> exists k :: 0 <= k < |lags| && lags[k] < floor;
    }
  }

  /** The loop as the guard imagines it would be safe from 3065 ms (NeverFarAhead). In the real one
      the lag seen falls to -632 ms and then, the rate chosen at 1454 ms still acting, to -769 ms,
      where the guard keeps it for good. */
  lemma LateReadOvershoots(lags: seq<int>, roots: seq<real>, j: nat)
    requires LatePlayback(lags, roots) && 6 <= j < |lags| && lags[0] == lags[1] == 3065
    ensures lags[5] == -632 && lags[j] == -769
  {
    FarRate(lags[0], roots[0]);
    FarRate(lags[1], roots[1]);
    FarRate(lags[2], roots[2]);
    assert lags[3] == 1991 && lags[4] == 1454;
    PlayedAtLeast(lags[3], roots[3], 2236);
    PlayedAtLeast(lags[3], roots[3], 2237);
    PlayedAtLeast(lags[4], roots[4], 287);
    PlayedAtLeast(lags[4], roots[4], 288);
    assert lags[5] == -632 && lags[6] == -769;
    if j > 6 {
      OneSample(lags[5], roots[5]);
      StuckLate(lags, roots, 6, j);
    }
  }
}
