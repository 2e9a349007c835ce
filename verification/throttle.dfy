/**
 * `throttle(func, limit)`: a wrapper that forwards a call only when no
 * earlier forwarded call is less than `limit` ms old. The `setTimeout`
 * that ends the quiet period is modelled as an explicit `Expire` event.
 */
module Throttle {
  import opened Optional

  /** The wrapper's closure state: the `inThrottle` flag and the number of clearing timers not yet fired. */
  datatype Throttle = Throttle(inThrottle: bool, pendingTimers: nat)

  /** A call to the wrapper with its arguments, or a clearing timer firing. */
  datatype Event<A> = CallWith(args: A) | Expire

  /** `inThrottle` starts undefined, which reads as false. */
  const Initial: Throttle := Throttle(false, 0)

  /** At most one timer is pending, and exactly while the wrapper is throttled. */
  predicate Valid(th: Throttle)
  {
    th.pendingTimers <= 1 && (th.inThrottle <==> th.pendingTimers == 1)
  }

  /** A call: forwarded with its arguments unchanged when not throttled, dropped otherwise. */
  function Call<A>(th: Throttle, args: A): (r: (Throttle, Option<A>))
    ensures !th.inThrottle ==> r.1 == Some(args) && r.0.inThrottle && r.0.pendingTimers == th.pendingTimers + 1
    ensures th.inThrottle ==> r == (th, None)
    ensures Valid(th) ==> Valid(r.0)
  {
    if th.inThrottle then (th, None)
    else (Throttle(true, th.pendingTimers + 1), Some(args))
  }

  /** A pending timer fires and clears the flag; with no timer pending there is nothing to fire. */
  function TimerFires(th: Throttle): (r: Throttle)
    ensures th.pendingTimers > 0 ==> !r.inThrottle && r.pendingTimers + 1 == th.pendingTimers
    ensures th.pendingTimers == 0 ==> r == th
    ensures Valid(th) ==> Valid(r)
  {
    if th.pendingTimers == 0 then th else Throttle(false, th.pendingTimers - 1)
  }

  function Apply<A>(th: Throttle, e: Event<A>): (Throttle, Option<A>)
  {
    match e
    case CallWith(args) => Call(th, args)
    case Expire => (TimerFires(th), None)
  }

  /** The state after a run of events and the arguments forwarded to `func`, in order. */
  function Run<A>(th: Throttle, events: seq<Event<A>>): (Throttle, seq<A>)
    decreases |events|
  {
    if |events| == 0 then (th, [])
    else
      var (next, out) := Apply(th, events[0]);
      var (last, rest) := Run(next, events[1..]);
      (last, (if out.Some? then [out.value] else []) + rest)
  }

  function Expiries<A>(events: seq<Event<A>>): nat
    decreases |events|
  {
    if |events| == 0 then 0 else (if events[0].Expire? then 1 else 0) + Expiries(events[1..])
  }

  /** The arguments of every call in a run, in order. */
  function CallArgs<A>(events: seq<Event<A>>): seq<A>
    decreases |events|
  {
    if |events| == 0 then []
    else (if events[0].CallWith? then [events[0].args] else []) + CallArgs(events[1..])
  }

  /** The wrapper keeps its invariant through any run. */
  lemma {:induction false} RunValid<A>(th: Throttle, events: seq<Event<A>>)
    requires Valid(th)
    ensures Valid(Run(th, events).0)
    decreases |events|
  {
    if |events| > 0 {
      RunValid(Apply(th, events[0]).0, events[1..]);
    }
  }

  /**
   * Calls are forwarded at most once per quiet period: in any run, the
   * forwarded calls number at most the timer expiries plus one (none extra
   * if the run starts throttled).
   */
  lemma {:induction false} ForwardedAtMostOncePerPeriod<A>(th: Throttle, events: seq<Event<A>>)
    requires Valid(th)
    ensures |Run(th, events).1| <= Expiries(events) + (if th.inThrottle then 0 else 1)
    decreases |events|
  {
    if |events| > 0 {
      var next := Apply(th, events[0]).0;
      ForwardedAtMostOncePerPeriod(next, events[1..]);
    }
  }

  /** While throttled, calls without an expiry in between are all dropped and change nothing. */
  lemma {:induction false} CallsWhileThrottledDropped<A>(th: Throttle, events: seq<Event<A>>)
    requires th.inThrottle
    requires forall i :: 0 <= i < |events| ==> events[i].CallWith?
    ensures Run(th, events) == (th, [])
    decreases |events|
  {
    if |events| > 0 {
      assert Apply(th, events[0]) == (th, None);
      CallsWhileThrottledDropped(th, events[1..]);
      var rest := Run(th, events[1..]).1;
      assert Run(th, events) == (th, [] + rest);
      assert [] + rest == [];
    }
  }

  /** Whatever reaches `func` is a subsequence of the arguments the wrapper was called with: nothing is altered or invented. */
  lemma {:induction false} ForwardedAreCallArgs<A>(th: Throttle, events: seq<Event<A>>)
    ensures IsSubsequence(Run(th, events).1, CallArgs(events))
    decreases |events|
  {
    if |events| > 0 {
      var (next, out) := Apply(th, events[0]);
      ForwardedAreCallArgs(next, events[1..]);
      var rest := Run(next, events[1..]).1;
      var args := CallArgs(events[1..]);
      if events[0].CallWith? {
        assert CallArgs(events) == [events[0].args] + args;
        if out.Some? {
          assert Run(th, events).1 == [out.value] + rest;
        } else {
          assert Run(th, events).1 == rest;
        }
      } else {
        assert CallArgs(events) == args;
        assert Run(th, events).1 == rest;
      }
    }
  }

  /** `xs` can be obtained from `ys` by deleting elements. */
  predicate IsSubsequence<A(==)>(xs: seq<A>, ys: seq<A>)
    decreases |ys|
  {
    || |xs| == 0
    || (&& |ys| > 0
        && ((xs[0] == ys[0] && IsSubsequence(xs[1..], ys[1..])) || IsSubsequence(xs, ys[1..])))
  }

  /** A fresh wrapper forwards its first call. */
  lemma FirstCallForwarded<A>(args: A)
    ensures Call(Initial, args).1 == Some(args)
  {
  }
}
