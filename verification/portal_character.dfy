/**
 * `PortalCharacter`: the guide who greets the visitor inside the portal.
 * It ties the dialogue cursor to the character's animation, locks the
 * dialogue while saying goodbye, throttles clicks and turns each line's
 * `action` and `motion` into effects.
 */
module PortalCharacter {
  import opened Optional
  import opened DialogueState
  import CharacterAnimation
  import CharacterView
  import Throttle

  const GoodbyeId: string := "goodbye"
  const CloseAction: string := "close_portal"
  /** The Header's navigation bar glows for this action. */
  const HighlightAction: string := "highlight_gnb"
  const CloseDelayMs: nat := 1500
  /** Clicks are throttled to one per 300 ms. */
  const ClickLimitMs: nat := 300

  /**
   * The component's state: the guide script and cursor, the goodbye lock
   * (a ref), the animation hook's state, the click throttle of the current
   * wrapper, and the `isDisappearing` the hook handed out at the last
   * render (a snapshot of its ref, not the ref itself).
   */
  datatype Guide = Guide(
    script: Script,
    index: nat,
    goodbyeLock: bool,
    anim: CharacterAnimation.Anim,
    throttle: Throttle.Throttle,
    renderedDisappearing: bool)

  /** The cursor points into a non-empty script and the throttle is consistent. */
  predicate Valid(g: Guide)
  {
    |g.script| > 0 && ValidIndex(g.script, g.index) && Throttle.Valid(g.throttle)
  }

  function Initial(script: Script): (g: Guide)
    requires |script| > 0
    ensures Valid(g) && g.index == 0 && !g.goodbyeLock && !g.renderedDisappearing
  {
    Guide(script, InitialIndex(script), false, CharacterAnimation.Initial(), Throttle.Initial, false)
  }

  /**
   * A render of the component. The animation hook hands out
   * `isDisappearingRef.current` as it stands at this moment. The hook's
   * `triggerJump` and the dialogue hook's `nextDialogue` are new closures on
   * every render, so `handleInteractionCore` is too, and `useMemo` builds a
   * new throttle wrapper whose `inThrottle` is unset.
   */
  function Rerender(g: Guide): (r: Guide)
    ensures r.renderedDisappearing == g.anim.isDisappearing && r.throttle == Throttle.Initial
    ensures r.script == g.script && r.index == g.index && r.goodbyeLock == g.goodbyeLock && r.anim == g.anim
  {
    g.(renderedDisappearing := g.anim.isDisappearing, throttle := Throttle.Initial)
  }

  /**
   * Whether an update re-renders: only a piece of React state taking a new
   * value does (the dialogue index, or the hook's `hasAppeared`). The
   * goodbye lock and the animation refs change silently.
   */
  predicate StateChanged(before: Guide, after: Guide)
  {
    after.index != before.index || after.anim.hasAppeared != before.anim.hasAppeared
  }

  /** The state after an update, rendered if the update changed state. */
  function Commit(before: Guide, after: Guide): Guide
  {
    if StateChanged(before, after) then Rerender(after) else after
  }

  /** The line on screen. */
  function Line(g: Guide): Dialogue
    requires Valid(g)
  {
    Current(g.script, g.index)
  }

  /** The `hasEmerged` the hook hands out, which is its appeared flag. */
  function HasEmerged(g: Guide): bool
  {
    CharacterAnimation.ExposedHasEmerged(g.anim)
  }

  /**
   * The flags the shared `Character` component receives: the appeared state,
   * which every change re-renders, and the disappearing flag as of the last
   * render.
   */
  function ViewState(g: Guide): (s: CharacterView.AnimationState)
    ensures s.hasEmerged == g.anim.hasAppeared && s.isDisappearing == g.renderedDisappearing
  {
    CharacterView.AnimationState(HasEmerged(g), g.renderedDisappearing)
  }

  /** The tilt follows the pointer while the character is on stage and, as of the last render, not leaving. */
  function TiltActive(g: Guide): (active: bool)
    ensures active <==> CharacterView.Interactive(ViewState(g))
    ensures active <==> g.anim.hasAppeared && !g.renderedDisappearing
  {
    HasEmerged(g) && !g.renderedDisappearing
  }

  /**
   * A change of `isExpanded`. The new prop renders first; then the animation
   * hook's effect runs, and opening also rewinds the dialogue to its first
   * line and releases the goodbye lock. `pick` is the random entrance
   * variant. Collapsing sets only refs, so the render that shows the exit
   * does not happen: the component keeps the flags it rendered before.
   */
  function OnExpandedChange(g: Guide, isExpanded: bool, pick: nat): (r: Guide)
    requires pick < 3
    ensures r.anim == CharacterAnimation.OnExpandedChange(g.anim, isExpanded, pick)
    ensures isExpanded ==> r.index == 0 && !r.goodbyeLock
    ensures !isExpanded ==> r.index == g.index && r.goodbyeLock == g.goodbyeLock
    ensures r.script == g.script && r.throttle == Throttle.Initial
    ensures Valid(g) ==> Valid(r)
    ensures !isExpanded ==> r.renderedDisappearing == g.anim.isDisappearing
    ensures isExpanded && (!g.anim.hasAppeared || g.index != 0) ==> !r.renderedDisappearing
    ensures isExpanded && g.anim.hasAppeared && g.index == 0 ==> r.renderedDisappearing == g.anim.isDisappearing
  {
    var shown := Rerender(g);
    var anim := CharacterAnimation.OnExpandedChange(g.anim, isExpanded, pick);
    var after := if isExpanded then shown.(index := 0, goodbyeLock := false, anim := anim)
                 else shown.(anim := anim);
    Commit(shown, after)
  }

  /**
   * `sayGoodbye`, called by the portal when the visitor leaves: ignored
   * while the lock is held or when the goodbye line is already on screen;
   * otherwise it takes the lock, jumps to the goodbye line and nods.
   */
  function SayGoodbye(g: Guide): (r: Guide)
    requires Valid(g)
    ensures Valid(r)
    ensures g.goodbyeLock || Line(g).id == GoodbyeId ==> r == g
    ensures !g.goodbyeLock && Line(g).id != GoodbyeId ==>
              && r.goodbyeLock
              && r.index == JumpToId(g.script, g.index, GoodbyeId)
              && r.anim == CharacterAnimation.TriggerMotion(g.anim, "nod")
              && r.script == g.script
              && (r.index != g.index ==> r.throttle == Throttle.Initial)
              && (r.index == g.index ==> r.throttle == g.throttle)
  {
    if g.goodbyeLock || Line(g).id == GoodbyeId then g
    else Commit(g, g.(goodbyeLock := true, index := JumpToId(g.script, g.index, GoodbyeId),
                      anim := CharacterAnimation.TriggerMotion(g.anim, "nod")))
  }

  /** What the effect on a new line does. */
  datatype Effect =
    | NoEffect
      /** call `onClose` after the delay, and nothing else */
    | ScheduleClose(delayMs: nat)
      /** broadcast the line's action (`None` for `null`), then play the motion if any */
    | Announce(action: Option<string>, motion: Option<string>)

  /** JavaScript truthiness of an optional string: present and non-empty. */
  predicate Truthy(s: Option<string>)
  {
    s.Some? && s.value != ""
  }

  /** The effect that runs when the line (or `hasEmerged`) changes. */
  function DialogueEffect(d: Dialogue, hasEmerged: bool): (e: Effect)
    ensures !hasEmerged ==> e == NoEffect
    ensures hasEmerged && d.action == Some(CloseAction) ==> e == ScheduleClose(CloseDelayMs)
    ensures hasEmerged && d.action != Some(CloseAction) ==> e.Announce?
    ensures e.Announce? ==> (e.action.Some? <==> Truthy(d.action)) && (e.action.Some? ==> e.action == d.action)
    ensures e.Announce? ==> (e.motion.Some? <==> Truthy(d.motion)) && (e.motion.Some? ==> e.motion == d.motion)
  {
    if !hasEmerged then NoEffect
    else if d.action == Some(CloseAction) then ScheduleClose(CloseDelayMs)
    else Announce(if Truthy(d.action) then d.action else None,
                  if Truthy(d.motion) then d.motion else None)
  }

  /** The Header's listener: the navigation bar glows exactly for a `highlight_gnb` broadcast. */
  function HeaderGlows(broadcast: Option<string>): bool
  {
    broadcast == Some(HighlightAction)
  }

  /** The effect of the line on screen, applied: a motion is handed to the animation hook. */
  function ApplyLineEffect(g: Guide): (r: (Guide, Effect))
    requires Valid(g)
    ensures r.1 == DialogueEffect(Line(g), HasEmerged(g))
    ensures r.1.Announce? && r.1.motion.Some? ==> r.0 == g.(anim := CharacterAnimation.TriggerMotion(g.anim, r.1.motion.value))
    ensures !(r.1.Announce? && r.1.motion.Some?) ==> r.0 == g
  {
    var e := DialogueEffect(Line(g), HasEmerged(g));
    if e.Announce? && e.motion.Some? then (g.(anim := CharacterAnimation.TriggerMotion(g.anim, e.motion.value)), e)
    else (g, e)
  }

  /**
   * `handleInteractionCore`: ignored while the portal is closing or the
   * goodbye lock is held; otherwise the character jumps and the next line
   * comes up.
   */
  function HandleInteractionCore(g: Guide, isClosing: bool): (r: Guide)
    requires Valid(g)
    ensures Valid(r)
    ensures isClosing || g.goodbyeLock ==> r == g
    ensures !isClosing && !g.goodbyeLock ==>
              r == g.(index := Next(g.script, g.index), anim := CharacterAnimation.TriggerJump(g.anim))
  {
    if isClosing || g.goodbyeLock then g
    else g.(index := Next(g.script, g.index), anim := CharacterAnimation.TriggerJump(g.anim))
  }

  /**
   * `handleInteraction`: the core behind the click throttle. A forwarded
   * click that moves the dialogue re-renders, and the render replaces the
   * throttle wrapper with a fresh one; only a forwarded click the core
   * ignores leaves the wrapper throttled.
   */
  function HandleInteraction(g: Guide, isClosing: bool): (r: Guide)
    requires Valid(g)
    ensures Valid(r)
    ensures g.throttle.inThrottle ==> r == g
    ensures !g.throttle.inThrottle && (isClosing || g.goodbyeLock) ==> r == g.(throttle := Throttle.Call(g.throttle, ()).0)
    ensures !g.throttle.inThrottle && !isClosing && !g.goodbyeLock ==>
              && r.index == Next(g.script, g.index) && r.anim == CharacterAnimation.TriggerJump(g.anim)
              && r.script == g.script && r.goodbyeLock == g.goodbyeLock
              && (r.index != g.index ==> r.throttle == Throttle.Initial && r.renderedDisappearing == g.anim.isDisappearing)
              && (r.index == g.index ==> r.throttle.inThrottle)
  {
    var (th, forwarded) := Throttle.Call(g.throttle, ());
    var h := g.(throttle := th);
    if forwarded.Some? then Commit(h, HandleInteractionCore(h, isClosing)) else h
  }

  /**
   * The interaction as the throttle is evidently meant to work: one wrapper
   * for the component's lifetime, which a render does not replace.
   */
  function HandleInteractionStable(g: Guide, isClosing: bool): (r: Guide)
    requires Valid(g)
    ensures Valid(r)
    ensures g.throttle.inThrottle ==> r == g
    ensures !g.throttle.inThrottle ==>
              && r.throttle == Throttle.Call(g.throttle, ()).0
              && r.index == HandleInteractionCore(g, isClosing).index
              && r.anim == HandleInteractionCore(g, isClosing).anim
  {
    var (th, forwarded) := Throttle.Call(g.throttle, ());
    var h := g.(throttle := th);
    if forwarded.Some? then
      var after := HandleInteractionCore(h, isClosing);
      if StateChanged(h, after) then after.(renderedDisappearing := after.anim.isDisappearing) else after
    else h
  }

  /** The throttle's timer fires. */
  function ThrottleExpires(g: Guide): (r: Guide)
    ensures Throttle.Valid(g.throttle) ==> Throttle.Valid(r.throttle) && !r.throttle.inThrottle
    ensures r.script == g.script && r.index == g.index && r.goodbyeLock == g.goodbyeLock
    ensures r.anim == g.anim && r.renderedDisappearing == g.renderedDisappearing
  {
    g.(throttle := Throttle.TimerFires(g.throttle))
  }

  /**
   * An animation frame. It writes only refs, so nothing re-renders: the
   * component keeps the flags and the throttle wrapper it had.
   */
  function OnFrame(g: Guide, now: real, meshesReady: bool): (r: Guide)
    ensures r.anim == CharacterAnimation.Step(CharacterAnimation.Truthy, g.anim, now, meshesReady).anim
    ensures r.script == g.script && r.index == g.index && r.goodbyeLock == g.goodbyeLock
    ensures r.throttle == g.throttle && r.renderedDisappearing == g.renderedDisappearing
    ensures Valid(g) ==> Valid(r)
  {
    g.(anim := CharacterAnimation.Step(CharacterAnimation.Truthy, g.anim, now, meshesReady).anim)
  }

  /** A click on the character or its bubble, through the shared component's gate. */
  function OnClick(g: Guide, click: CharacterView.Click, isClosing: bool, displayed: string): (r: Guide)
    requires Valid(g)
    ensures Valid(r)
    ensures !CharacterView.Interactive(ViewState(g)) ==> r == g
    ensures CharacterView.Interactive(ViewState(g)) ==> r == HandleInteraction(g, isClosing)
  {
    CharacterView.ClickGate(ViewState(g), click, Line(g).text, displayed, Some(ShowNextHint(g)));
    if CharacterView.ReachesOnNext(ViewState(g), click, Line(g).text, displayed, Some(ShowNextHint(g)))
    then HandleInteraction(g, isClosing)
    else g
  }

  /** The bubble's "Click Next" hint is allowed on every line but the goodbye. */
  function ShowNextHint(g: Guide): bool
    requires Valid(g)
  {
    Line(g).id != GoodbyeId
  }

  /**
   * After the goodbye the guide falls silent: the goodbye line is on
   * screen, the hint is gone, clicks do nothing beyond the throttle's own
   * bookkeeping, and asking again changes nothing.
   */
  lemma GoodbyeLocksDialogue(g: Guide, isClosing: bool)
    requires Valid(g) && !g.goodbyeLock && Line(g).id != GoodbyeId
    requires FindIndex(g.script, GoodbyeId).Some?
    ensures var r := SayGoodbye(g);
            && Line(r).id == GoodbyeId
            && !ShowNextHint(r)
            && HandleInteractionCore(r, isClosing) == r
            && HandleInteraction(r, isClosing).index == r.index
            && SayGoodbye(r) == r
  {
  }

  /** Opening again releases the lock and rewinds to the first line, so a click moves the dialogue on once more. */
  lemma ReopenReleasesGoodbye(g: Guide, pick: nat)
    requires Valid(g) && pick < 3
    ensures var r := OnExpandedChange(g, true, pick);
            && Valid(r) && !r.goodbyeLock && r.index == 0
            && HandleInteractionCore(r, false).index == Next(g.script, 0)
  {
  }

  /** Before the character has appeared no line has any effect, whatever it says. */
  lemma SilentBeforeAppearing(g: Guide)
    requires Valid(g) && !g.anim.hasAppeared
    ensures ApplyLineEffect(g) == (g, NoEffect)
  {
  }

  /** A closing line neither broadcasts nor moves the character; any other line clears the glow unless it asks for it. */
  lemma LineEffectOnHeader(d: Dialogue)
    ensures d.action == Some(CloseAction) ==> !DialogueEffect(d, true).Announce?
    ensures d.action != Some(CloseAction) ==>
              (HeaderGlows(DialogueEffect(d, true).action) <==> d.action == Some(HighlightAction))
  {
  }

  /**
   * As written the throttle does not hold back the dialogue: on a script of
   * two or more lines, two clicks with no timer expiry between them advance
   * it two lines, because the first click's render replaced the wrapper.
   */
  lemma DoubleClickAdvancesTwice(g: Guide)
    requires Valid(g) && |g.script| >= 2 && !g.goodbyeLock && !g.throttle.inThrottle
    ensures var once := HandleInteraction(g, false);
            && once.index == Next(g.script, g.index) && once.index != g.index
            && HandleInteraction(once, false).index == Next(g.script, once.index)
            && HandleInteraction(once, false).index != once.index
  {
  }

  /** With a wrapper that outlives renders, two clicks with no expiry between them advance the dialogue at most one line. */
  lemma ThrottledDoubleClick(g: Guide, isClosing: bool)
    requires Valid(g)
    ensures var once := HandleInteractionStable(g, isClosing);
            && (once.index == g.index || once.index == Next(g.script, g.index))
            && HandleInteractionStable(once, isClosing).index == once.index
  {
  }

  /**
   * A collapse does not reach the screen: the render happens before the
   * effect sets the disappearing ref, so during the exit the bubble still
   * shows, clicks still pass the gate and the tilt still follows the
   * pointer, frame after frame.
   */
  lemma CollapseKeepsGateOpen(g: Guide, pick: nat, click: CharacterView.Click, isClosing: bool,
                              displayed: string, now: real)
    requires Valid(g) && pick < 3 && g.anim.hasAppeared && !g.anim.isDisappearing
    ensures var r := OnFrame(OnExpandedChange(g, false, pick), now, true);
            && r.anim.isDisappearing
            && CharacterView.Interactive(ViewState(r)) && TiltActive(r)
            && OnClick(r, click, isClosing, displayed) == HandleInteraction(r, isClosing)
  {
  }

  /** The next render during the exit closes the gate: no bubble, no clicks, no tilt. */
  lemma RenderClosesGate(g: Guide, click: CharacterView.Click, isClosing: bool, displayed: string)
    requires Valid(g) && g.anim.isDisappearing
    ensures var r := Rerender(g);
            && !CharacterView.Interactive(ViewState(r)) && !TiltActive(r)
            && OnClick(r, click, isClosing, displayed) == r
  {
  }

  /**
   * An entrance stalled by a start recorded at clock 0 still lets clicks
   * through, since the component's `hasEmerged` is the appeared flag. The
   * click's jump clears the start, the next frame records its own clock
   * reading, and the entrance completes 0.7 s after that reading.
   */
  lemma StalledEntranceClickRecovers(g: Guide, click: CharacterView.Click, displayed: string, t1: real, t2: real)
    requires Valid(g) && !g.goodbyeLock && !g.throttle.inThrottle && !g.renderedDisappearing
    requires g.anim.hasAppeared && !g.anim.isDisappearing && !g.anim.hasEmerged && g.anim.startTime == Some(0.0)
    requires t1 != 0.0
    ensures var f := OnFrame(OnClick(g, click, false, displayed), t1, true);
            && f.anim.startTime == Some(t1) && !f.anim.hasEmerged
            && (OnFrame(f, t2, true).anim.hasEmerged <==> t2 - t1 >= 0.7)
  {
    var c := OnClick(g, click, false, displayed);
    assert c.anim == CharacterAnimation.TriggerJump(g.anim);
    CharacterAnimation.ClickRestartsEntrance(g.anim, t1, t2);
  }
}
