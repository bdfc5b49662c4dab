/** Whether the distance from real time, once beyond one period, ever grows in the player's loop. */
module LateDistance {
  import opened FlowControl
  import opened LateFlowControl

  /** The distance that a floor is about, as far as it exceeds one period: of the lag seen for the
      floor -T, of the real lag, which is one period less, for the floor 0. */
  function Distance(floor: int, lag: int): nat {
    Max(Abs(lag - floor - T), T)
  }

  /** It never grows along a run. */
  predicate NeverFarther(floor: int, lags: seq<int>) {
    forall i, j :: 0 <= i <= j < |lags| ==> Distance(floor, lags[j]) <= Distance(floor, lags[i])
  }

  /** A repeated first lag makes no difference. */
  lemma WithoutFirst(floor: int, lags: seq<int>)
    requires |lags| >= 2 && lags[0] == lags[1]
    ensures NeverFarther(floor, lags) <==> NeverFarther(floor, lags[1..])
  {
    var rest := lags[1..];
    if NeverFarther(floor, lags) {
      forall i, j | 0 <= i <= j < |rest|
        ensures Distance(floor, rest[j]) <= Distance(floor, rest[i])
      {
        assert rest[i] == lags[i + 1] && rest[j] == lags[j + 1];
      }
    }
    if NeverFarther(floor, rest) {
      forall i, j | 0 <= i <= j < |lags|
        ensures Distance(floor, lags[j]) <= Distance(floor, lags[i])
      {
        assert lags[i] == rest[if i == 0 then 0 else i - 1] && lags[j] == rest[if j == 0 then 0 else j - 1];
      }
    }
  }

  // ---------------------------------------------------------------- runs in which it does not

  /** A lag rises only far below zero, and slowly. */
  predicate Falls(a: int, b: int) {
    b <= a || (a <= -70 && b <= a + 6)
  }

  lemma {:induction false} AlwaysFalls(lags: seq<int>, roots: seq<real>, j: nat)
    requires LatePlayback(lags, roots) && 1 <= j < |lags| && lags[0] == lags[1]
    ensures Falls(lags[j - 1], lags[j])
    decreases j
  {
    if j > 1 {
      AlwaysFalls(lags, roots, j - 1);
      OneSample(lags[j - 2], roots[j - 2]);
    }
  }

  /** From a negative lag the lags only rise, and stay negative. */
  lemma {:induction false} Climbs(lags: seq<int>, roots: seq<real>, j: nat)
    requires LatePlayback(lags, roots) && 1 <= j < |lags| && lags[0] == lags[1] < 0
    ensures lags[j - 1] <= lags[j] < 0
    decreases j
  {
    if j > 1 {
      Climbs(lags, roots, j - 1);
      AlwaysFalls(lags, roots, j - 1);
      OneSample(lags[j - 2], roots[j - 2]);
    }
  }

  lemma NextNotFarther(floor: int, lags: seq<int>, roots: seq<real>, j: nat)
    requires IsFloor(floor) && LatePlayback(lags, roots)
    requires 1 <= j < |lags| && lags[0] == lags[1] && |lags| >= Horizon(lags[0]) && !Dips(floor, lags[0])
    ensures Distance(floor, lags[j]) <= Distance(floor, lags[j - 1])
  {
    if lags[0] < floor {
      Climbs(lags, roots, j);
    } else {
      LateSafeExactly(floor, lags, roots);
      AlwaysFalls(lags, roots, j);
      assert lags[j] >= floor && lags[j - 1] >= floor;
    }
  }

  lemma {:induction false} NotFarther(floor: int, lags: seq<int>, roots: seq<real>, i: nat, j: nat)
    requires IsFloor(floor) && LatePlayback(lags, roots) && i <= j < |lags|
    requires |lags| >= 2 && lags[0] == lags[1] && |lags| >= Horizon(lags[0]) && !Dips(floor, lags[0])
    ensures Distance(floor, lags[j]) <= Distance(floor, lags[i])
    decreases j
  {
    if i < j {
      NotFarther(floor, lags, roots, i, j - 1);
      NextNotFarther(floor, lags, roots, j);
    }
  }

  // ---------------------------------------------------------------- runs in which it does

  /** The distance grows somewhere between the third and the fifth of six lags. */
  predicate Grows(floor: int, l: seq<int>)
    requires |l| == 6
  {
    Distance(floor, l[2]) < Distance(floor, l[3]) || Distance(floor, l[3]) < Distance(floor, l[4])
  }

  lemma SteadyGrows(floor: int, l: seq<int>, v: seq<int>)
    requires IsFloor(floor) && Begins(l, v) && l[0] == l[1] && FirstNear(floor) <= l[0] <= 1991
    ensures Grows(floor, l)
  {
    SteadyDips(floor, l, v);
    if l[0] <= 1970 {
      SteadyGrowsLow(floor, l, v);
    } else {
      PlayedBetween(l[0], v[0], Band(1971, 1991, 1245, 2236));
      PlayedBetween(l[1], v[1], Band(1971, 1991, 1245, 2236));
      SameLag(l[0], v[0], v[1]);
      if l[2] > 75 {
        PlayedBetween(l[2], v[2], Band(76, 896, 151, 201));
      }
    }
  }

  lemma SteadyGrowsLow(floor: int, l: seq<int>, v: seq<int>)
    requires IsFloor(floor) && Begins(l, v) && l[0] == l[1] && FirstNear(floor) <= l[0] <= 1970
    requires l[3] < floor || l[4] < floor
    ensures Grows(floor, l)
  {
    PlayedBetween(l[0], v[0], Band(1963, 1970, 1102, 1224));
    PlayedBetween(l[1], v[1], Band(1963, 1970, 1102, 1224));
    PlayedBetween(l[2], v[2], Band(889, 1018, 201, 214));
  }

  /** What a lag plays is determined by it. */
  lemma SameLag(d: int, v: int, w: int)
    requires Plays(d, v) && Plays(d, w) && 75 < d <= 1991
    ensures v == w
  {
    var r :| IsRoot(d, r) && v == Played(d, r);
    var q :| IsRoot(d, q) && w == Played(d, q);
    SameRoot(r, q);
  }

  lemma SameRoot(r: real, q: real)
    requires r >= 0.0 && q >= 0.0 && r * r == q * q
    ensures r == q
  {
    var difference, sum := r - q, r + q;
    assert difference * sum == r * r - q * q;
    if sum > 0.0 {
      Product(difference, sum);
    }
  }

  lemma FarGrows(floor: int, l: seq<int>, v: seq<int>)
    requires IsFloor(floor) && Begins(l, v) && l[1] == l[0] - 537 && FirstFar(floor) <= l[0] <= 1991
    ensures Grows(floor, l)
  {
    FarDips(floor, l, v);
    PlayedBetween(l[0], v[0], Band(1979, 1991, 1463, 2236));
    PlayedBetween(l[1], v[1], Band(1442, 1454, 283, 287));
  }

  lemma GrowsSomewhere(floor: int, lags: seq<int>, roots: seq<real>)
    requires IsFloor(floor) && LatePlayback(lags, roots)
    requires |lags| >= 2 && lags[0] == lags[1] && |lags| >= Horizon(lags[0]) && Dips(floor, lags[0])
    ensures !NeverFarther(floor, lags)
  {
    var i: nat := 0;
    if lags[0] > 2000 {
      DescentEnds(floor, lags[0]);
      i := Descended(lags, roots);
    }
    var l, v := BeginsAt(lags, roots, i);
    if lags[0] > 2000 {
      FarGrows(floor, l, v);
    } else {
      SteadyGrows(floor, l, v);
    }
    assert lags[i + 2] == l[2] && lags[i + 3] == l[3] && lags[i + 4] == l[4];
  }

  // ---------------------------------------------------------------- exactly when

  /** In the real loop the distance from real time beyond one period never grows if and only if the
      steady lag the controller starts from, however negative, is not one of those that dip. */
  lemma NeverFartherExactly(floor: int, lags: seq<int>, roots: seq<real>)
    requires IsFloor(floor) && LatePlayback(lags, roots)
    requires |lags| >= 2 && lags[0] == lags[1] && |lags| >= Horizon(lags[0])
    ensures NeverFarther(floor, lags) <==> !Dips(floor, lags[0])
  {
    if Dips(floor, lags[0]) {
      GrowsSomewhere(floor, lags, roots);
    } else {
      forall i, j | 0 <= i <= j < |lags|
        ensures Distance(floor, lags[j]) <= Distance(floor, lags[i])
      {
        NotFarther(floor, lags, roots, i, j);
      }
    }
  }
}
