/**
 * The shared `Character` component: the character mesh, its glow and
 * shadow, and the dialogue bubble beside it. What it decides is who may
 * reach `onNext` and when the bubble is on screen.
 */
module CharacterView {
  import opened Optional
  import opened Numeric
  import DialogueBubble

  /** Never wider than this, whatever the viewport. */
  const MaxCharacterSize: real := 8.0

  /** The two animation flags the component reads (`isDisappearing` is optional and reads as false when absent). */
  datatype AnimationState = AnimationState(hasEmerged: bool, isDisappearing: bool)

  /** Where a click landed. */
  datatype Click = MeshClick | BubbleClick

  /** Whether the character is ready for the visitor: on stage and not leaving. */
  predicate Interactive(s: AnimationState)
  {
    s.hasEmerged && !s.isDisappearing
  }

  /** `visible` as handed to the bubble. */
  function BubbleVisible(s: AnimationState): bool
  {
    Interactive(s)
  }

  /** The bubble as drawn for this state, or `None` when it is not drawn at all. */
  function Bubble(s: AnimationState, text: string, displayed: string, showNextHint: Option<bool>): (v: Option<DialogueBubble.View>)
    ensures v.Some? <==> Interactive(s)
    ensures v.Some? ==> v.value.html == displayed
    ensures v.Some? ==> v.value.nextHint == DialogueBubble.HintAsWritten(ShowNextHint(showNextHint), displayed, text)
  {
    DialogueBubble.Render(text, BubbleVisible(s), displayed, ShowNextHint(showNextHint))
  }

  /** `showNextHint` defaults to true. */
  function ShowNextHint(given: Option<bool>): (show: bool)
    ensures given.None? ==> show
    ensures given.Some? ==> show == given.value
  {
    given.GetOr(true)
  }

  /**
   * Whether a click calls `onNext`. The mesh handler checks the flags
   * itself; the bubble's handler forwards unconditionally, but the bubble
   * is only there to be clicked while it is drawn.
   */
  function ReachesOnNext(s: AnimationState, click: Click, text: string, displayed: string, showNextHint: Option<bool>): bool
  {
    match click
    case MeshClick => s.hasEmerged && !s.isDisappearing
    case BubbleClick => Bubble(s, text, displayed, showNextHint).Some?
  }

  /** Both ways in are gated alike: a click reaches `onNext` exactly when the character is interactive, which is exactly when the bubble shows. */
  lemma ClickGate(s: AnimationState, click: Click, text: string, displayed: string, showNextHint: Option<bool>)
    ensures ReachesOnNext(s, click, text, displayed, showNextHint) <==> Interactive(s)
    ensures ReachesOnNext(s, click, text, displayed, showNextHint) <==> Bubble(s, text, displayed, showNextHint).Some?
  {
  }

  /** `Math.min(viewport.width * 0.4, 8)`. */
  function CharacterSize(viewportWidth: real): (size: real)
    ensures size <= MaxCharacterSize && size <= viewportWidth * 0.4
    ensures size == MaxCharacterSize || size == viewportWidth * 0.4
  {
    Min(viewportWidth * 0.4, MaxCharacterSize)
  }

  /** The size grows with the viewport until it reaches the cap at a width of 20. */
  lemma CharacterSizeGrowsToCap(w1: real, w2: real)
    requires w1 <= w2
    ensures CharacterSize(w1) <= CharacterSize(w2)
    ensures w1 >= 20.0 ==> CharacterSize(w1) == MaxCharacterSize
    ensures w1 < 20.0 ==> CharacterSize(w1) < MaxCharacterSize
  {
  }
}
