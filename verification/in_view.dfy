/**
 * `useInView`: whether an element is in the viewport now, and whether it
 * has ever been. With `once`, the observer lets go after the first sighting
 * so both flags stay up for good.
 */
module InView {
  /** The two state flags, and whether the observer is still connected. */
  datatype InView = InView(isVisible: bool, hasBeenVisible: bool, observing: bool)

  /** The hook's options that matter here (`threshold` and `rootMargin` only tune the observer). */
  datatype Options = Options(once: bool)

  const DefaultOptions: Options := Options(false)

  /** The effect on mount: an element is observed if there is one; both flags start down. */
  function Mount(hasElement: bool): (s: InView)
    ensures !s.isVisible && !s.hasBeenVisible
    ensures s.observing <==> hasElement
  {
    InView(false, false, hasElement)
  }

  /** An observer callback with one entry. */
  function OnEntry(s: InView, o: Options, isIntersecting: bool): (r: InView)
    ensures !s.observing ==> r == s
    ensures s.observing && isIntersecting ==> r.isVisible && r.hasBeenVisible && (r.observing <==> !o.once)
    ensures s.observing && !isIntersecting && !o.once ==> r == s.(isVisible := false)
    ensures s.observing && !isIntersecting && o.once ==> r == s
  {
    if !s.observing then s
    else if isIntersecting then InView(true, true, !o.once)
    else if !o.once then s.(isVisible := false)
    else s
  }

  /** The state after a run of entries. */
  function Run(s: InView, o: Options, entries: seq<bool>): InView
    decreases |entries|
  {
    if |entries| == 0 then s else Run(OnEntry(s, o, entries[0]), o, entries[1..])
  }

  /** Being visible implies having been visible. */
  predicate Consistent(s: InView)
  {
    s.isVisible ==> s.hasBeenVisible
  }

  /** `hasBeenVisible` is a latch: once up it stays up through any entries, and consistency is kept. */
  lemma {:induction false} LatchHolds(s: InView, o: Options, entries: seq<bool>)
    requires Consistent(s)
    ensures Consistent(Run(s, o, entries))
    ensures s.hasBeenVisible ==> Run(s, o, entries).hasBeenVisible
    decreases |entries|
  {
    if |entries| > 0 {
      LatchHolds(OnEntry(s, o, entries[0]), o, entries[1..]);
    }
  }

  /** Without an element nothing is observed and both flags stay down forever. */
  lemma {:induction false} NoElementStaysHidden(o: Options, entries: seq<bool>)
    ensures Run(Mount(false), o, entries) == Mount(false)
    decreases |entries|
  {
    if |entries| > 0 {
      NoElementStaysHidden(o, entries[1..]);
    }
  }

  /** With `once`, after the first sighting nothing changes again. */
  lemma {:induction false} OnceFreezesAfterSighting(s: InView, entries: seq<bool>)
    requires s.observing
    ensures Run(OnEntry(s, Options(true), true), Options(true), entries) == InView(true, true, false)
    decreases |entries|
  {
    if |entries| > 0 {
      OnceFreezesAfterSighting(s, entries[1..]);
    }
  }

  /** Without `once`, while observing, `isVisible` mirrors the latest entry. */
  lemma {:induction false} VisibleTracksLatest(s: InView, entries: seq<bool>)
    requires s.observing && |entries| > 0
    ensures Run(s, DefaultOptions, entries).isVisible == entries[|entries| - 1]
    ensures Run(s, DefaultOptions, entries).observing
    decreases |entries|
  {
    var next := OnEntry(s, DefaultOptions, entries[0]);
    if |entries| > 1 {
      VisibleTracksLatest(next, entries[1..]);
    }
  }
}
