/**
 * The abstract view shared by the two fixed-size rings of the firmware:
 * a queue, oldest element first, that holds at most `cap` elements and
 * evicts its oldest element when a new one arrives while it is full.
 */
module Fifo {

  /** The newest `cap` elements of `s`, oldest first (all of `s` when it is shorter). */
  function Newest<T>(s: seq<T>, cap: nat): (r: seq<T>)
    ensures |r| == if |s| < cap then |s| else cap
  {
    if |s| <= cap then s else s[|s| - cap..]
  }

  /** Add `x` as the newest element, dropping the oldest one when `cap` elements are already held. */
  function BoundedAppend<T>(s: seq<T>, x: T, cap: nat): (r: seq<T>)
    requires 0 < cap && |s| <= cap
    ensures |r| <= cap && r == Newest(s + [x], cap)
  {
    if |s| < cap then s + [x] else s[1..] + [x]
  }

  /** Append every element of `xs`, in order. */
  function AppendAll<T>(s: seq<T>, xs: seq<T>, cap: nat): (r: seq<T>)
    requires 0 < cap && |s| <= cap
    decreases |xs|
  {
    if xs == [] then s else AppendAll(BoundedAppend(s, xs[0], cap), xs[1..], cap)
  }

  lemma NewestOfNewest<T>(a: seq<T>, b: seq<T>, cap: nat)
    ensures Newest(Newest(a, cap) + b, cap) == Newest(a + b, cap)
  {
    var n := Newest(a, cap);
    assert a == a[..|a| - |n|] + n;
    assert a + b == a[..|a| - |n|] + (n + b);
  }

  /**
   * Whatever was held before, after a run of appends the queue holds exactly
   * the newest `cap` elements of everything it was given, oldest first.
   */
  lemma {:induction false} AppendAllKeepsNewest<T>(s: seq<T>, xs: seq<T>, cap: nat)
    requires 0 < cap && |s| <= cap
    ensures AppendAll(s, xs, cap) == Newest(s + xs, cap)
    decreases |xs|
  {
    if xs == [] {
      assert s + xs == s;
    } else {
      var s' := BoundedAppend(s, xs[0], cap);
      assert AppendAll(s, xs, cap) == AppendAll(s', xs[1..], cap);
      AppendAllKeepsNewest(s', xs[1..], cap);
      assert s' == Newest(s + [xs[0]], cap);
      NewestOfNewest(s + [xs[0]], xs[1..], cap);
      assert (s + [xs[0]]) + xs[1..] == s + xs;
    }
  }
}
