/** `flowcontroller`: the playback rate chosen from the lag d = tr - playoutPoint, and what the
    chosen rates do to the lag over a whole playback. Floats are modelled as reals. */
module FlowControl {

  /** t_sampling of the player, in milliseconds. */
  const T := 150

  function Abs(d: int): nat {
    if d < 0 then -d else d
  }

  /** time_benchmark: 2000, stretched to 1.05 * |d| beyond that. */
  function Benchmark(d: int): (tb: real)
    ensures tb >= 2000.0
  {
    if Abs(d) > 2000 then 1.05 * Abs(d) as real else 2000.0
  }

  /** The argument of sqrt. */
  function Radicand(d: int): real {
    1.0 - d as real / Benchmark(d)
  }

  /** `root` is what sqrt returns for the lag `d`. */
  predicate IsRoot(d: int, root: real) {
    root >= 0.0 && root * root == Radicand(d)
  }

  /** sqrt is never given a negative argument, and 1 / sqrt divides by zero only at d = 2000. */
  lemma RadicandSign(d: int)
    ensures Radicand(d) >= 0.0
    ensures Radicand(d) == 0.0 <==> d == 2000
  {
    if d > 2000 {
      Stretched(d as real);
    } else if d < -2000 {
      Stretched((-d) as real);
    }
  }

  lemma Stretched(x: real)
    requires x > 0.0
    ensures x / (1.05 * x) == 1.0 / 1.05
  {
    var q := x / (1.05 * x);
    assert q * (1.05 * x) == x;
    assert (q * 1.05 - 1.0) * x == 0.0;
  }

  /** The test that resets the rate to 1: playing at 1/root for one period would leave the playout
      more than two periods ahead of real time. A zero root makes the rate infinite. */
  predicate GuardFires(d: int, t: int, root: real) {
    root == 0.0 || (1.0 / root) * t as real > (d + 2 * t) as real
  }

  function Rate(d: int, t: int, root: real): real {
    if Abs(d) > 75 && !GuardFires(d, t, root) then 1.0 / root else 1.0
  }

  /** The C library's sqrt, on the arguments for which it has a value. */
  ghost predicate IsSqrt(sqrt: real -> real) {
    forall x: real :: x >= 0.0 ==> sqrt(x) >= 0.0 && sqrt(x) * sqrt(x) == x
  }

  // ---------------------------------------------------------------- reference: the rate by its equation

  /** `q` solves the equation of the smooth correction, q = 1 / sqrt(1 - d / tb). */
  predicate SmoothRate(d: int, q: real) {
    var tb := if d > 2000 then 1.05 * d as real else if d < -2000 then 1.05 * (-d) as real else 2000.0;
    q > 0.0 && q * q * (1.0 - d as real / tb) == 1.0
  }

  /** The rate is 1 within 75 ms of real time and where the equation has no solution; elsewhere it is
      the solution, unless playing at it for one period of `t` ms would leave the playout more than
      two periods ahead. */
  ghost predicate RightRate(d: int, t: nat, r: real) {
    if -75 <= d <= 75 || d == 2000 then r == 1.0
    else exists q :: SmoothRate(d, q) && r == if q * t as real > (d + 2 * t) as real then 1.0 else q
  }

  /** The equation has at most one solution, so the rate is determined. */
  lemma SmoothRateUnique(d: int, q: real, q': real)
    requires SmoothRate(d, q) && SmoothRate(d, q')
    ensures q == q'
  {
    var c := 1.0 - d as real / if d > 2000 then 1.05 * d as real else if d < -2000 then 1.05 * (-d) as real else 2000.0;
    SolutionsAgree(q, q', c);
  }

  lemma SolutionsAgree(q: real, q': real, c: real)
    requires q > 0.0 && q' > 0.0 && q * q * c == 1.0 && q' * q' * c == 1.0
    ensures q == q'
  {
    Product(q, q);
    Product(c, q * q);
    Squares(q, q', c, q' * q' * c, q * q * c);
  }

  lemma SmoothRateSolves(d: int, root: real)
    requires IsRoot(d, root) && root > 0.0
    ensures SmoothRate(d, 1.0 / root)
  {
    Inverse(root, 1.0 / root, Radicand(d));
  }

  lemma Inverse(root: real, q: real, c: real)
    requires root > 0.0 && root * root == c && q == 1.0 / root
    ensures q > 0.0 && q * q * c == 1.0
  {
    assert q * root == 1.0;
    assert q * q * (root * root) == (q * root) * (q * root);
  }

  lemma NoSolution(q: real)
    ensures !SmoothRate(2000, q)
  {}

  lemma RateIsRight(d: int, t: nat, root: real)
    requires IsRoot(d, root)
    ensures RightRate(d, t, Rate(d, t, root))
  {
    if Abs(d) > 75 {
      RadicandSign(d);
      if d != 2000 {
        SmoothRateSolves(d, root);
      }
    }
  }

  // ---------------------------------------------------------------- the code

  /** The function as written. */
  method FlowController(tr: int, playoutPoint: int, tSampling: nat, sqrt: real -> real) returns (r: real)
    requires tSampling > 0 && IsSqrt(sqrt)
    ensures IsRoot(tr - playoutPoint, sqrt(Radicand(tr - playoutPoint)))
    ensures r == Rate(tr - playoutPoint, tSampling, sqrt(Radicand(tr - playoutPoint)))
    ensures r > 0.0 && RightRate(tr - playoutPoint, tSampling, r)
  {
    var dmax := 75;
    var timeBenchmark := 2000.0;
    var d := tr - playoutPoint;
    if Abs(d) as real > timeBenchmark {
      timeBenchmark := 1.05 * Abs(d) as real;
    }
    RadicandSign(d);
    if Abs(d) > dmax {
      var root := sqrt(1.0 - d as real / timeBenchmark);
      if root == 0.0 {
        // 1 / 0 is +infinity, which passes the test below.
        r := 1.0;
      } else {
        r := 1.0 / root;
        if r * tSampling as real + playoutPoint as real > (tr + 2 * tSampling) as real {
          r := 1.0;
        }
      }
    } else {
      r := 1.0;
    }
    assert r == Rate(d, tSampling, sqrt(Radicand(d)));
    RateIsRight(d, tSampling, sqrt(Radicand(d)));
  }

  // ---------------------------------------------------------------- one sample of the loop

  /** Milliseconds of video played in one period at the rate chosen for the lag `d`. */
  function Played(d: int, root: real): int {
    (Rate(d, T, root) * T as real).Floor
  }

  /** The lag one period later, as the guard predicts it: real time advances by T, the playout by
      what is played at the chosen rate. */
  function NextLag(d: int, root: real): int {
    d + T - Played(d, root)
  }

  /** x = 150 / root compared with a whole number, without the square root. */
  lemma Compare(x: real, root: real, c: real, n: nat)
    requires root > 0.0 && x * root == 150.0 && root * root == c
    ensures x > 0.0 && c > 0.0
    ensures x >= n as real <==> (n * n) as real * c <= 22500.0
    ensures x > n as real <==> (n * n) as real * c < 22500.0
  {
    Product(root, root);
    Product(x, root);
    assert x * x * c == (x * root) * (x * root);
    assert (n * n) as real == n as real * n as real;
    Squares(x, n as real, c, (n * n) as real * c, 22500.0);
  }

  lemma Product(a: real, b: real)
    requires b > 0.0
    ensures a * b > 0.0 <==> a > 0.0
    ensures a * b >= 0.0 <==> a >= 0.0
  {}

  lemma Squares(x: real, n: real, c: real, nnc: real, xxc: real)
    requires x > 0.0 && n >= 0.0 && c > 0.0
    requires nnc == n * n * c && xxc == x * x * c
    ensures x >= n <==> nnc <= xxc
    ensures x > n <==> nnc < xxc
  {
    var difference, sum, p := x - n, x + n, x * x - n * n;
    Product(difference, sum);
    assert difference * sum == p;
    Product(p, c);
    assert p * c == x * x * c - n * n * c;
  }

  /** The same in integers while |d| <= 2000. */
  lemma CompareNear(d: int, root: real, n: nat)
    requires IsRoot(d, root) && Abs(d) <= 2000 && d != 2000
    ensures root > 0.0
    ensures (1.0 / root) * 150.0 >= n as real <==> n * n * (2000 - d) <= 45000000
    ensures (1.0 / root) * 150.0 > n as real <==> n * n * (2000 - d) < 45000000
  {
    var c := (2000 - d) as real / 2000.0;
    assert root * root == c;
    Positive(root, c);
    Compare((1.0 / root) * 150.0, root, c, n);
    assert (n * n) as real * c == (n * n * (2000 - d)) as real / 2000.0;
  }

  lemma Positive(root: real, c: real)
    requires root >= 0.0 && root * root == c > 0.0
    ensures root > 0.0 && ((1.0 / root) * 150.0) * root == 150.0
  {}

  /** Beyond 2000 ms the rate does not depend on the lag. */
  lemma FarRate(d: int, root: real)
    requires IsRoot(d, root) && d > 2000
    ensures root > 0.0 && (1.0 / root) * (1.0 / root) == 21.0
    ensures Played(d, root) == 687 && !GuardFires(d, T, root)
  {
    var c := 1.0 / 21.0;
    Stretched(d as real);
    assert root * root == c;
    Positive(root, c);
    var r := 1.0 / root;
    assert r * r * c == (r * root) * (r * root) == 1.0;
    Compare(r * 150.0, root, c, 687);
    Compare(r * 150.0, root, c, 688);
  }

  lemma AtLeast(m: nat, k: nat, a: nat, b: nat)
    requires m >= a && k >= b
    ensures m * m * k >= a * a * b
  {
    assert m * m >= a * a by { assert m * m >= m * a >= a * a; }
    var mm, aa := m * m, a * a;
    assert mm * k >= mm * b >= aa * b;
  }

  /** Where the guard's comparison comes out, by size of the lag. */
  lemma GuardArithmetic(d: int)
    requires -300 <= d < 2000 && Abs(d) > 75
    ensures (d + 300) * (d + 300) * (2000 - d) < 45000000 <==> d <= -156 || 1992 <= d
  {
    var m, k := d + 300, 2000 - d;
    if d <= -171 {
      AtLeast(129, 2300, m, k);
    } else if d <= -156 {
      AtLeast(144, 2170, m, k);
    } else if d <= -150 {
      AtLeast(m, k, 145, 2150);
    } else if d <= -76 {
      AtLeast(m, k, 151, 2076);
    } else if d <= 1000 {
      AtLeast(m, k, 376, 1000);
    } else if d <= 1973 {
      AtLeast(m, k, 1300, 27);
    } else if d <= 1991 {
      AtLeast(m, k, 2273, 9);
    } else {
      AtLeast(2299, 8, m, k);
    }
  }

  /** Outside the tolerated band the guard fires exactly for lags of 1992 to 2000 ms and whenever
      the playout is 156 ms or more ahead. */
  lemma GuardExactly(d: int, root: real)
    requires IsRoot(d, root) && Abs(d) > 75
    ensures GuardFires(d, T, root) <==> d <= -156 || 1992 <= d <= 2000
  {
    if d > 2000 {
      FarRate(d, root);
    } else if d == 2000 {
      RadicandSign(d);
      assert root == 0.0;
    } else if d < -300 {
      RadicandSign(d);
      Positive(root, Radicand(d));
      Product((1.0 / root) * 150.0, root);
    } else {
      CompareNear(d, root, d + 300);
      GuardArithmetic(d);
    }
  }

  /** One sample, exactly enough: inside the band and where the guard fires the lag stays put;
      elsewhere it moves towards the band, by a fixed 537 ms beyond 2000 ms. */
  lemma OneSample(d: int, root: real)
    requires IsRoot(d, root)
    ensures var d' := NextLag(d, root);
      if Abs(d) <= 75 || d <= -156 || 1992 <= d <= 2000 then d' == d
      else if d > 2000 then d' == d - 537
      else if d > 75 then -T <= d' <= d - 2
      else d + 3 <= d' <= d + 6
  {
    if Abs(d) > 75 {
      GuardExactly(d, root);
      if d > 2000 {
        FarRate(d, root);
      } else if 75 < d <= 1991 {
        CompareNear(d, root, 152);
        AtLeast(152, 1924, 152, 2000 - d);
      } else if -155 <= d < -75 {
        CompareNear(d, root, 148);
        CompareNear(d, root, 144);
        AtLeast(148, 2000 - d, 148, 2076);
        AtLeast(144, 2155, 144, 2000 - d);
      }
    }
  }

  // ---------------------------------------------------------------- whole playbacks

  /** Lags at successive samples, with the square root computed at each. */
  predicate Playback(lags: seq<int>, roots: seq<real>) {
    && |lags| == |roots| + 1
    && forall i :: 0 <= i < |roots| ==> IsRoot(lags[i], roots[i]) && lags[i + 1] == NextLag(lags[i], roots[i])
  }

  function Max(a: nat, b: nat): nat {
    if a < b then b else a
  }

  /** Starting no more than one period ahead, the playout never gets more than one period ahead;
      and from any start the distance from real time, once beyond one period, never grows. */
  lemma {:induction false} NeverFarAhead(lags: seq<int>, roots: seq<real>, i: nat, j: nat)
    requires Playback(lags, roots) && i <= j < |lags|
    ensures lags[i] >= -T ==> lags[j] >= -T
    ensures Max(Abs(lags[j]), T) <= Max(Abs(lags[i]), T)
    decreases j - i
  {
    if i < j {
      NeverFarAhead(lags, roots, i, j - 1);
      OneSample(lags[j - 1], roots[j - 1]);
    }
  }

  /** The lags that the controller never removes: more than one period ahead, or 1992 to 2000 ms
      behind, or some multiple of 537 ms more than that. */
  predicate Stalled(d: int) {
    d <= -156 || (d >= 1992 && (d - 1992) % 537 <= 8)
  }

  /** Enough samples to reach the band from a lag that is not stalled. */
  function Samples(d: int): nat {
    if Abs(d) <= 75 then 0
    else if d < -75 then (-75 - d + 2) / 3
    else if d <= 2000 then 26 + (d - 75) / 2
    else 1050 + (d - 2000 + 536) / 537
  }

  lemma SampleProgress(d: int, root: real)
    requires IsRoot(d, root)
    ensures Stalled(d) <==> Stalled(NextLag(d, root))
    ensures !Stalled(d) && Abs(d) > 75 ==> Samples(NextLag(d, root)) < Samples(d)
    ensures Abs(d) <= 75 ==> NextLag(d, root) == d
  {
    OneSample(d, root);
    if d > 2000 {
      FarProgress(d);
    } else {
      NearProgress(d, NextLag(d, root));
    }
  }

  lemma NearProgress(d: int, d': int)
    requires d <= 2000
    requires if Abs(d) <= 75 || d <= -156 || 1992 <= d then d' == d
             else if d > 75 then -T <= d' <= d - 2
             else d + 3 <= d' <= d + 6
    ensures Stalled(d) <==> Stalled(d')
    ensures !Stalled(d) && Abs(d) > 75 ==> Samples(d') < Samples(d)
  {}

  lemma FarProgress(d: int)
    requires d > 2000
    ensures Stalled(d) <==> Stalled(d - 537)
    ensures Samples(d - 537) < Samples(d)
  {
    var q, m := (d - 1992) / 537, (d - 1992) % 537;
    assert d - 1992 == 537 * q + m;
    assert (d - 537 - 1992) % 537 == m;
  }

  lemma {:induction false} StallLasts(lags: seq<int>, roots: seq<real>, i: nat)
    requires Playback(lags, roots) && i < |lags|
    ensures Stalled(lags[0]) <==> Stalled(lags[i])
  {
    if i > 0 {
      StallLasts(lags, roots, i - 1);
      SampleProgress(lags[i - 1], roots[i - 1]);
    }
  }

  lemma {:induction false} Settles(lags: seq<int>, roots: seq<real>, i: nat)
    requires Playback(lags, roots) && i < |lags| && !Stalled(lags[0])
    ensures Abs(lags[i]) <= 75 || Samples(lags[i]) + i <= Samples(lags[0])
  {
    if i > 0 {
      Settles(lags, roots, i - 1);
      StallLasts(lags, roots, i - 1);
      SampleProgress(lags[i - 1], roots[i - 1]);
    }
  }

  /** The controller brings the playout within 75 ms of real time, in at most Samples(d) samples
      and for good, if and only if the initial lag is not one of the stalled ones. */
  lemma SettlesExactly(lags: seq<int>, roots: seq<real>, i: nat)
    requires Playback(lags, roots) && Samples(lags[0]) <= i < |lags|
    ensures Abs(lags[i]) <= 75 <==> !Stalled(lags[0])
  {
    StallLasts(lags, roots, i);
    if !Stalled(lags[0]) {
      Settles(lags, roots, i);
    }
  }

  /** Far behind, each sample cuts the lag by 537 ms: 3.58 periods, never below 1463 ms. */
  lemma {:induction false} CatchUp(lags: seq<int>, roots: seq<real>, i: nat)
    requires Playback(lags, roots) && i < |lags|
    requires lags[0] - 537 * i > 2000 - 537
    ensures lags[i] == lags[0] - 537 * i
  {
    if i > 0 {
      CatchUp(lags, roots, i - 1);
      OneSample(lags[i - 1], roots[i - 1]);
    }
  }
}
