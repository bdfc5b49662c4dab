/** Facts about sequences that the stream, queue and session models share. */
module Sequences {

  function Front<T>(s: seq<T>): seq<T>
    requires s != []
  {
    s[..|s| - 1]
  }

  function Last<T>(s: seq<T>): T
    requires s != []
  {
    s[|s| - 1]
  }

  /** All pieces, one after the other. */
  function Flatten<T>(pieces: seq<seq<T>>): seq<T> {
    if pieces == [] then [] else Flatten(Front(pieces)) + Last(pieces)
  }

  /** What is left of `s` when exactly the positions marked `true` get through, in order. */
  function Keep<T>(s: seq<T>, mask: seq<bool>): seq<T>
    requires |s| == |mask|
  {
    if s == [] then []
    else Keep(Front(s), Front(mask)) + if Last(mask) then [Last(s)] else []
  }

  /** `a` can be obtained from `b` by deleting elements, without reordering. */
  ghost predicate Subsequence<T>(a: seq<T>, b: seq<T>)
    decreases |b|
  {
    if b == [] then a == []
    else Subsequence(a, Front(b)) || (a != [] && Last(a) == Last(b) && Subsequence(Front(a), Front(b)))
  }

  lemma {:induction false} SubsequenceRefl<T>(a: seq<T>)
    ensures Subsequence(a, a)
    decreases |a|
  {
    if a != [] { SubsequenceRefl(Front(a)); }
  }

  lemma {:induction false} SubsequenceAppend<T>(a: seq<T>, b: seq<T>, c: seq<T>, d: seq<T>)
    requires Subsequence(a, b) && Subsequence(c, d)
    ensures Subsequence(a + c, b + d)
    decreases |d|
  {
    if d == [] {
      assert a + c == a && b + d == b;
    } else {
      assert Front(b + d) == b + Front(d);
      if Subsequence(c, Front(d)) {
        SubsequenceAppend(a, b, c, Front(d));
      } else {
        SubsequenceAppend(a, b, Front(c), Front(d));
        assert Front(a + c) == a + Front(c);
      }
    }
  }

  lemma {:induction false} SubsequenceLength<T>(a: seq<T>, b: seq<T>)
    requires Subsequence(a, b)
    ensures |a| <= |b|
    ensures |a| == |b| ==> a == b
    decreases |b|
  {
    if b != [] {
      if Subsequence(a, Front(b)) {
        SubsequenceLength(a, Front(b));
      } else {
        SubsequenceLength(Front(a), Front(b));
        assert a == Front(a) + [Last(a)] && b == Front(b) + [Last(b)];
      }
    }
  }

  lemma {:induction false} FlattenAppend<T>(a: seq<seq<T>>, b: seq<seq<T>>)
    ensures Flatten(a + b) == Flatten(a) + Flatten(b)
    decreases |b|
  {
    if b == [] {
      assert a + b == a;
    } else {
      FlattenAppend(a, Front(b));
      assert Front(a + b) == a + Front(b);
    }
  }

  lemma {:induction false} KeepAll<T>(s: seq<T>, mask: seq<bool>)
    requires |s| == |mask| && forall k :: 0 <= k < |mask| ==> mask[k]
    ensures Keep(s, mask) == s
    decreases |s|
  {
    if s == [] {
      assert Keep(s, mask) == [];
    } else {
      KeepAll(Front(s), Front(mask));
      assert Last(mask) && Keep(s, mask) == Front(s) + [Last(s)];
      assert s == Front(s) + [Last(s)];
    }
  }

  lemma {:induction false} KeepAppend<T>(a: seq<T>, b: seq<T>, m: seq<bool>, n: seq<bool>)
    requires |a| == |m| && |b| == |n|
    ensures Keep(a + b, m + n) == Keep(a, m) + Keep(b, n)
    decreases |b|
  {
    if b == [] {
      assert a + b == a && m + n == m;
    } else {
      KeepAppend(a, Front(b), m, Front(n));
      assert Front(a + b) == a + Front(b) && Front(m + n) == m + Front(n);
    }
  }

  lemma {:induction false} KeepNone<T>(s: seq<T>, mask: seq<bool>)
    requires |s| == |mask| && forall k :: 0 <= k < |mask| ==> !mask[k]
    ensures Keep(s, mask) == []
    decreases |s|
  {
    if s != [] { KeepNone(Front(s), Front(mask)); }
  }
}
