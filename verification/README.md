# Yu-verse landing page: the interactive core, modelled in Dafny

The landing page's decorative 3D scenes are driven by a handful of small,
single-threaded state machines and pure functions. This project restates
each one as immutable Dafny data plus pure step functions over explicit
events: a click, a wheel notch, a timer firing, or a frame tick at a given
clock reading or delta. It then proves what the page relies on.

- **Dialogue.** `DialogueState` is the guide's wrapping line cursor with jump-by-id. `PortalCharacter` adds the goodbye lock, click gating and throttling, and turns each line's `action` and `motion` into effects. `CharacterView` is the shared character component's click and visibility gate.
- **Typing bubble.** `BubbleTokens` models the regular-expression split of a line into whole HTML tags and text runs, plus the tag stripping. `DialogueBubble` is the typing effect that reveals tags whole and text one character at a time, and the "Click Next" hint.
- **Characters.** `CharacterAnimation` is the portal guide's entrance, scripted motions and exit (`useCharacterAnimation`). `PaperCharacter` is the older portal character, whose exit fades its glow and shadow out and resets. `CharacterParts` holds the shadow fall-off shared by both. `CharacterTilt` is the pointer tilt.
- **Smoothing.** `PortalAnimation` is one paper layer's eased progress. `WheelScale` is the wheel zoom with its clamp and "let the page scroll at the limit" rule.
- **Utilities.** `Throttle` is the call/expire machine. `ActiveSection` is the first-wins argmax over an insertion-ordered ratio map. `InView` is the visibility latch. `ProjectCard` covers the hex colour parser and the card flip.

Both characters keep an `opacityRef`. It sets only the glow (at half of it) and the shadow (times the shadow's fade); the sprite's material has no opacity, so a character whose scale is not 0 is drawn in full. The model calls it `opacity` and the text below calls it the glow and shadow strength.

Numbers are Dafny `real`: exact, unbounded, no rounding. Strings are sequences of characters. `Optional` and `Numeric` hold the shared `Option` type and `Math.min`/`max`/`abs`, `THREE.MathUtils.clamp` and `lerp`.

## Model

| member | source | states |
|---|---|---|
| Numeric.Clamp | src/shared/hooks/useWheelScale.ts:27-30 | the result lies in `[lo, hi]` when `lo <= hi`, equals `v` inside it, and is the violated bound outside it |
| Numeric.Lerp | src/shared/hooks/useCharacterTilt.ts:23-24 | interpolation leaves the fraction `1 - t` of the gap to the target |
| Numeric.LerpBetween | src/shared/hooks/useWheelScale.ts:44-48 | with `t` in [0, 1] the result lies between the two ends and no farther from the target than the start |
| DialogueState.InitialIndex | src/shared/hooks/useDialogueState.ts:15 | a session starts on the script's first line |
| DialogueState.Current | src/shared/hooks/useDialogueState.ts:30 | the current line is a line of the script |
| DialogueState.Next | src/shared/hooks/useDialogueState.ts:17-19 | on a non-empty script the cursor stays valid, moves up by one, and wraps from the last line to 0 |
| DialogueState.AdvanceUpward | src/shared/hooks/useDialogueState.ts:18 | below the last line, `k` advances add exactly `k` |
| DialogueState.AdvanceCompose | src/shared/hooks/useDialogueState.ts:18 | advancing `a` then `b` lines equals advancing `a + b` lines |
| DialogueState.AdvanceFullCycle | src/shared/hooks/useDialogueState.ts:18 | advancing once per line returns the cursor to where it started |
| DialogueState.FindFrom | src/shared/hooks/useDialogueState.ts:22 | the search returns the first matching position at or after `from`, or `None` when no line there matches |
| DialogueState.FindIndex | src/shared/hooks/useDialogueState.ts:22 | `findIndex` returns the first line with the id, or -1 (`None`) exactly when no line has it |
| DialogueState.JumpToId | src/shared/hooks/useDialogueState.ts:21-26 | an unknown id leaves the cursor alone; a known id moves it to the first line with that id, so the current line has it |
| DialogueState.OperationsKeepCursorValid | src/shared/hooks/useDialogueState.ts:17-26 | neither `nextDialogue` nor `jumpToId` moves a valid cursor off the script |
| BubbleTokens.IndexOf | src/shared/ui/Character/DialogueBubble.tsx:44 | finds the first occurrence of a character at or after a position, or reports that there is none |
| BubbleTokens.RunLength | src/shared/ui/Character/DialogueBubble.tsx:44 | `[^<]+` consumes exactly the longest prefix free of '<' |
| BubbleTokens.Tokenize | src/shared/ui/Character/DialogueBubble.tsx:44-45 | every token is a whole tag (from '<' to the first '>') or a non-empty run without '<' |
| BubbleTokens.StripTags | src/shared/ui/Character/DialogueBubble.tsx:111-113 | stripping tags never lengthens a string |
| BubbleTokens.ClosedTokenizeReproduces | src/shared/ui/Character/DialogueBubble.tsx:44-45 | when every '<' has a later '>', joining the tokens gives the line back exactly |
| BubbleTokens.TokenizeShrinks | src/shared/ui/Character/DialogueBubble.tsx:44-45 | the tokens never hold more characters than the line, and strictly fewer when a '<' is unclosed |
| BubbleTokens.TokenizeExact | src/shared/ui/Character/DialogueBubble.tsx:44-45 | the tokens reproduce the line if and only if every '<' is closed |
| BubbleTokens.StripTokens | src/shared/ui/Character/DialogueBubble.tsx:111-112 | stripping the joined tokens keeps exactly their text runs |
| BubbleTokens.StripKeepsAtLeastText | src/shared/ui/Character/DialogueBubble.tsx:111-113 | the stripped line has at least as many characters as the typed text runs, and more when a '<' is unclosed |
| DialogueBubble.Begin | src/shared/ui/Character/DialogueBubble.tsx:39-49 | a visible bubble starts empty, uncancelled, on the line's tokens |
| DialogueBubble.TypeNext | src/shared/ui/Character/DialogueBubble.tsx:51-77 | a finished or cancelled session is left alone; otherwise a tag is appended whole or one text character is appended, and the remaining cost drops by one |
| DialogueBubble.Run | src/shared/ui/Character/DialogueBubble.tsx:51-77 | repeated steps keep the session invariant, its tokens and its cancellation flag |
| DialogueBubble.ShownIsPrefix | src/shared/ui/Character/DialogueBubble.tsx:56-76 | what the bubble shows is always a prefix of the joined tokens, so a partial tag is never shown |
| DialogueBubble.RemainingNonNegative | src/shared/ui/Character/DialogueBubble.tsx:53 | the remaining cost is never negative and is zero exactly when the tokens are used up |
| DialogueBubble.RunCompletes | src/shared/ui/Character/DialogueBubble.tsx:53-77 | typing runs exactly (#tags + text characters) steps and then shows the joined tokens |
| DialogueBubble.TypingEndsOnText | src/shared/ui/Character/DialogueBubble.tsx:53-77 | from a fresh start typing stops after exactly the cost of the line, never earlier, showing the whole line when its tags are closed |
| DialogueBubble.Cancel | src/shared/ui/Character/DialogueBubble.tsx:83-85 | the cleanup marks the session cancelled and keeps what is shown |
| DialogueBubble.CancelledRunFrozen | src/shared/ui/Character/DialogueBubble.tsx:52 | after cancellation no number of further steps changes anything |
| DialogueBubble.StrippedShownLength | src/shared/ui/Character/DialogueBubble.tsx:111-113 | the tag-stripped length of what is shown counts exactly the text characters typed |
| DialogueBubble.HintIffTextTyped | src/shared/ui/Character/DialogueBubble.tsx:111-113 | the corrected hint shows if and only if it is enabled and every text character has been typed |
| DialogueBubble.HintAsWrittenAgrees | src/shared/ui/Character/DialogueBubble.tsx:111-113 | on lines whose tags are closed the source's hint test equals the corrected one |
| DialogueBubble.TypedCharsBounded | src/shared/ui/Character/DialogueBubble.tsx:53-77 | typing never counts more text characters than the line's tokens hold |
| DialogueBubble.HintAsWrittenNeverShows | src/shared/ui/Character/DialogueBubble.tsx:111-113 | on a line with an unclosed '<' the source's hint test fails at every step of typing |
| DialogueBubble.TokenizeDanglingExample | src/shared/ui/Character/DialogueBubble.tsx:44-45 | "a<b" splits into "a" and "b": the dangling '<' is dropped |
| DialogueBubble.DanglingTypingExample | src/shared/ui/Character/DialogueBubble.tsx:51-77 | "a<b" is typed in two steps and ends showing "ab" |
| DialogueBubble.DanglingHintExample | src/shared/ui/Character/DialogueBubble.tsx:111-113 | for "a<b" fully typed, the source's test hides the hint while the corrected one shows it |
| DialogueBubble.Restart | src/shared/ui/Character/DialogueBubble.tsx:33-40 | a hidden bubble clears its text and starts no typing; a visible one starts typing from "" |
| DialogueBubble.Render | src/shared/ui/Character/DialogueBubble.tsx:88-119 | nothing is rendered exactly when the bubble is not visible; otherwise the HTML is the shown text and the hint is the source's stripped-length test, which needs `showNextHint` |
| DialogueBubble.RenderedHintDuringTyping | src/shared/ui/Character/DialogueBubble.tsx:111-113 | at every step of typing a line, the rendered hint shows exactly when it is enabled, every '<' in the line is closed and every text character has been typed |
| CharacterView.Bubble | src/shared/ui/Character/Character.tsx:62-68 | the bubble is drawn exactly when the character has emerged and is not disappearing; it shows the typed text and carries the bubble's own hint test |
| CharacterView.ShowNextHint | src/shared/ui/Character/Character.tsx:33 | `showNextHint` defaults to true and otherwise is what the caller passes |
| CharacterView.ClickGate | src/shared/ui/Character/Character.tsx:54-66 | a mesh click and a bubble click both reach `onNext` exactly when the character is interactive, which is exactly when the bubble is drawn |
| CharacterView.CharacterSize | src/shared/ui/Character/Character.tsx:37 | the size never exceeds 8 or 0.4 of the viewport width and equals one of them |
| CharacterView.CharacterSizeGrowsToCap | src/shared/ui/Character/Character.tsx:37 | the size grows with the viewport and reaches the cap of 8 exactly from width 20 |
| CharacterParts.GroundDistance | src/widgets/PaperPortal/Character.tsx:283-285 | the distance to the ground is never negative and is the height above it for a character above it |
| CharacterParts.ShadowScale | src/widgets/PaperPortal/Character.tsx:292 | the shadow scale factor lies in [0.6, 1.2] |
| CharacterParts.ShadowFade | src/widgets/PaperPortal/Character.tsx:296 | the shadow fade lies in [0.1, 0.4] |
| CharacterParts.ShadowOpacityBounds | src/widgets/PaperPortal/Character.tsx:295-297 | the shadow's opacity is between 0.1 and 0.4 of the glow and shadow strength |
| CharacterParts.ShadowFallsOff | src/widgets/PaperPortal/Character.tsx:283-297 | the higher the character, the smaller and fainter its shadow |
| CharacterAnimation.Initial | src/shared/hooks/useCharacterAnimation.ts:19-37 | the character starts not appeared, not leaving, not emerged, with no motion |
| CharacterAnimation.OnExpandedChange | src/shared/hooks/useCharacterAnimation.ts:39-55 | expanding always restarts the entrance with a variant in {0,1,2}; collapsing starts the exit only for an appeared character not already leaving, and otherwise changes nothing |
| CharacterAnimation.TriggerJump | src/shared/hooks/useCharacterAnimation.ts:309-312 | a jump selects variant 0 and restarts the clock, nothing else |
| CharacterAnimation.TriggerMotion | src/shared/hooks/useCharacterAnimation.ts:314-320 | a motion replaces any running one and arms the start-time capture, nothing else |
| CharacterAnimation.DisappearProgress | src/shared/hooks/useCharacterAnimation.ts:65-67 | exit progress is in [0, 1] for elapsed time >= 0, is elapsed/2 before 2 s and 1 after |
| CharacterAnimation.SpinTextureWindow | src/shared/hooks/useCharacterAnimation.ts:81-97 | the back texture shows exactly for progress strictly between 0.125 and 0.875 |
| CharacterAnimation.SpinSchedule | src/shared/hooks/useCharacterAnimation.ts:77-99 | the exit turn goes from 0 to π by progress 0.25, holds π until 0.75, reaches 2π at 1, and never turns back |
| CharacterAnimation.DisappearScaleBounds | src/shared/hooks/useCharacterAnimation.ts:114 | the exit scale falls steadily from 1 to 0.05 and stays in [0.05, 1] |
| CharacterAnimation.SinceStart | src/shared/hooks/useCharacterAnimation.ts:164-166 | the time since start is the clock minus the start, and 0 only without a start |
| CharacterAnimation.SinceStartAgrees | src/shared/hooks/useCharacterAnimation.ts:164-166 | the source's truthiness test agrees with the corrected one for every start other than exactly 0 |
| CharacterAnimation.EmergenceDoneIff | src/shared/hooks/useCharacterAnimation.ts:219-264 | the entrance completes exactly when 0.7 s have passed since its start |
| CharacterAnimation.BegunIff | src/shared/hooks/useCharacterAnimation.ts:164-219 | the entrance begins exactly when the start time counts under the test in use and 0.1 s have passed since it; the source's truthiness test does not count a start at 0 |
| CharacterAnimation.StartAtZeroHoldsEntrance | src/shared/hooks/useCharacterAnimation.ts:164-267 | with a start recorded at clock 0, the source's reading stays 0 on every frame, so the character waits at 80% with no glow or shadow and does not emerge on that frame; the null test completes the entrance at 0.7 s |
| CharacterAnimation.ClickRestartsEntrance | src/shared/hooks/useCharacterAnimation.ts:309-312 | a jump ends that stall: it clears the start, the next frame at a non-zero clock records its reading, and the entrance then completes exactly 0.7 s after it |
| CharacterAnimation.NullCheckEmerges | src/shared/hooks/useCharacterAnimation.ts:164-264 | with the null test every entrance completes exactly 0.7 s after its start, a start at 0 included |
| CharacterAnimation.FadeIn | src/shared/hooks/useCharacterAnimation.ts:260 | the glow and shadow strength closes 10% of its gap to 1 and never passes 1 |
| CharacterAnimation.MotionAfter | src/shared/hooks/useCharacterAnimation.ts:177-204 | "nod" ends exactly after 1 s, "look_up" exactly after 1.5 s, other motions persist, and a motion without a start clock is kept |
| CharacterAnimation.Step | src/shared/hooks/useCharacterAnimation.ts:57-288 | per frame, under the source's truthiness test for the start time or the null test: nothing without meshes; the exit follows its schedule with full glow and shadow and never ends on its own; a character that has not appeared is scaled to 0; the entrance waits at 80% with no glow or shadow until it has begun and then fades them in, and completes exactly when the start counts and 0.7 s have passed; an emerged character stands at full size with its texture kept; an armed motion captures the frame's clock |
| CharacterAnimation.DisappearHoldsFinalPose | src/shared/hooks/useCharacterAnimation.ts:129-133 | after 2 s of exit the character stays leaving, at 5% size, with full glow and shadow, facing front |
| CharacterAnimation.EntranceOpacityRises | src/shared/hooks/useCharacterAnimation.ts:219-267 | once the entrance has begun the glow and shadow strength never falls and never passes 1; under the source's test a start at 0 keeps it at 0 instead |
| CharacterAnimation.ReexpandKeepsExitTexture | src/shared/hooks/useCharacterAnimation.ts:119-127 | re-expanding during the back-facing part of the exit brings the character back still showing the back texture |
| PaperCharacter.Initial | src/widgets/PaperPortal/Character.tsx:18-35 | the character starts hidden, scaled to 0, with no glow or shadow and no start time |
| PaperCharacter.OnExpandedChange | src/widgets/PaperPortal/Character.tsx:37-53 | the entrance starts only from the hidden state, with a variant in {0,1,2}; the exit starts only for an appeared character not already leaving; otherwise nothing changes |
| PaperCharacter.TurnProgress | src/widgets/PaperPortal/Character.tsx:114-115 | the turn progress lies in [0, 1] for elapsed time >= 0 |
| PaperCharacter.ExitTextureIff | src/widgets/PaperPortal/Character.tsx:137-138 | the back texture shows exactly once more than 0.25 s of the exit have passed |
| PaperCharacter.ExitTurn | src/widgets/PaperPortal/Character.tsx:113-116 | the turn never reverses and is a half turn from 0.5 s on |
| PaperCharacter.ExitFade | src/widgets/PaperPortal/Character.tsx:128-135 | the glow and shadow strength is 1 below progress 0.75, then falls steadily to 0 at progress 1 |
| PaperCharacter.Step | src/widgets/PaperPortal/Character.tsx:55-299 | per frame, under the source's truthiness test for the start time or the null test: the group carries the tilt; the exit turns, shrinks and fades the glow and shadow, then resets to hidden at progress 1; a hidden character is scaled to 0; the entrance waits at 80% with no glow or shadow until the start counts and 0.1 s have passed, and then fades them in at its variant's scale |
| PaperCharacter.ReexpandDuringExitIgnored | src/widgets/PaperPortal/Character.tsx:40 | expanding while the character is leaving changes nothing |
| PaperCharacter.ExitEndsHidden | src/widgets/PaperPortal/Character.tsx:150-165 | after 2 s of exit the character is hidden, with no glow or shadow, facing front, and the next expand restarts the entrance |
| PaperCharacter.EntranceBounds | src/widgets/PaperPortal/Character.tsx:206-258 | once the entrance has begun the scale lies in [1, 1.2] and the glow and shadow strength rises toward 1; under the source's test a start at 0 keeps it at 80% with no glow or shadow instead |
| PaperCharacter.StartAtZeroHoldsEntrance | src/widgets/PaperPortal/Character.tsx:206-258 | with a start recorded at clock 0 the source's test leaves the character at 80% with no glow or shadow on every frame (until a collapse clears the start), while the null test jumps and fades them in at its variant's scale from 0.1 s |
| CharacterTilt.Target | src/shared/hooks/useCharacterTilt.ts:27-28 | vertical pointer motion tilts about x (inverted), horizontal about y, both scaled by `maxTilt` |
| CharacterTilt.Settle | src/shared/hooks/useCharacterTilt.ts:22-24 | an inactive frame keeps 90% of each axis |
| CharacterTilt.Follow | src/shared/hooks/useCharacterTilt.ts:30-40 | an active frame keeps 95% of each axis's gap to the target |
| CharacterTilt.Update | src/shared/hooks/useCharacterTilt.ts:22-41 | inactive frames settle and active frames follow the pointer target |
| CharacterTilt.Frame | src/shared/hooks/useCharacterTilt.ts:18-46 | without a group nothing changes; otherwise the group's rotation equals the updated tilt |
| CharacterTilt.TargetWithin | src/shared/hooks/useCharacterTilt.ts:27-28 | an on-canvas pointer's target lies within `maxTilt` |
| CharacterTilt.TiltStaysWithin | src/shared/hooks/useCharacterTilt.ts:22-41 | a tilt within `maxTilt` stays within it after a frame |
| CharacterTilt.TiltRunStaysWithin | src/shared/hooks/useCharacterTilt.ts:18-46 | the same holds over any run of frames |
| CharacterTilt.RestingPoints | src/shared/hooks/useCharacterTilt.ts:22-40 | level is the inactive resting point and the pointer target the active one |
| PortalAnimation.Initial | src/widgets/PaperPortal/usePortalAnimation.ts:26-33 | a layer starts at progress 0, rotation 0, depth `baseZ`, scale 1 |
| PortalAnimation.Advance | src/widgets/PaperPortal/usePortalAnimation.ts:39-49 | progress rises by 1.2·delta capped at 1 when expanded and falls by 2·delta floored at 0 when collapsed |
| PortalAnimation.Follow | src/widgets/PaperPortal/usePortalAnimation.ts:61-67 | each smoothed value keeps 90% of its gap to its target; progress is untouched |
| PortalAnimation.Step | src/widgets/PaperPortal/usePortalAnimation.ts:35-84 | without a mesh nothing changes; otherwise the values follow the eased targets, the mesh gets them, and the idle bob is added only when collapsed |
| PortalAnimation.ProgressInUnit | src/widgets/PaperPortal/usePortalAnimation.ts:39-49 | progress stays in [0, 1] and moves by no more than the frame allows |
| PortalAnimation.ProgressRunInUnit | src/widgets/PaperPortal/usePortalAnimation.ts:39-49 | progress stays in [0, 1] over any run of frames with non-negative deltas |
| PortalAnimation.EaseInUnit | src/widgets/PaperPortal/usePortalAnimation.ts:52-53 | `easeOutCubic` maps [0, 1] into itself and fixes 0 and 1 |
| PortalAnimation.TargetBounds | src/widgets/PaperPortal/usePortalAnimation.ts:56-58 | rotation lies in [0, 0.05·i], depth in [baseZ − 1.5·i, baseZ], scale in [1, 2.5 + 0.1·i] |
| PortalAnimation.InitialIsCollapsedRest | src/widgets/PaperPortal/usePortalAnimation.ts:26-58 | the initial layer is the collapsed target and a collapsed frame leaves it there |
| PortalAnimation.GapDecays | src/widgets/PaperPortal/usePortalAnimation.ts:61-67 | after `n` frames toward a fixed target each gap is 0.9ⁿ of the original |
| WheelScale.Initial | src/shared/hooks/useWheelScale.ts:71-72 | target and displayed zoom both start at `initial` |
| WheelScale.OnWindowWheel | src/shared/hooks/useWheelScale.ts:33-37 | every wheel event sets the target to the clamped proposal, in range whenever `min <= max` |
| WheelScale.OnScopedWheel | src/shared/hooks/useWheelScale.ts:79-96 | an event is let through unchanged exactly at the limit it pushes toward; otherwise it is intercepted and clamps the target |
| WheelScale.OnFrame | src/shared/hooks/useWheelScale.ts:103-109 | a frame keeps the fraction `1 - t` of the gap to the target and leaves the target alone |
| WheelScale.OnScopedFrame | src/shared/hooks/useWheelScale.ts:103-113 | the object's scale is set to the zoom exactly when the object is attached |
| WheelScale.DefaultsInRange | src/shared/hooks/useWheelScale.ts:63-70 | the defaults (1, 0.7, 1.8, 0.0008, 8) start in range with positive step and damping |
| WheelScale.ZeroDeltaIntercepted | src/shared/hooks/useWheelScale.ts:83-95 | an in-range event with no vertical movement is intercepted and changes nothing |
| WheelScale.WheelDirection | src/shared/hooks/useWheelScale.ts:82-95 | zooming in never lowers the target and zooming out never raises it |
| WheelScale.ScopedRunInRange | src/shared/hooks/useWheelScale.ts:71-95 | an in-range target stays in range through any run of scoped events |
| WheelScale.WindowRunInRange | src/shared/hooks/useWheelScale.ts:25-37 | an in-range target stays in range through any run of window events |
| WheelScale.FrameApproaches | src/shared/hooks/useWheelScale.ts:42-49 | a frame leaves the zoom between its old value and the target, never overshooting |
| WheelScale.FrameKeepsRange | src/shared/hooks/useWheelScale.ts:103-109 | with target and zoom in range the zoom stays in range |
| Throttle.Call | src/shared/lib/throttle.ts:8-12 | an unthrottled call is forwarded with its arguments and arms one timer; a throttled call is dropped and changes nothing |
| Throttle.TimerFires | src/shared/lib/throttle.ts:11 | a firing timer clears the flag; the invariant is kept |
| Throttle.RunValid | src/shared/lib/throttle.ts:6-13 | at most one timer is pending, exactly while throttled, through any run |
| Throttle.ForwardedAtMostOncePerPeriod | src/shared/lib/throttle.ts:8-11 | forwarded calls number at most the expiries plus one |
| Throttle.CallsWhileThrottledDropped | src/shared/lib/throttle.ts:8 | while throttled, calls without an expiry are all dropped |
| Throttle.ForwardedAreCallArgs | src/shared/lib/throttle.ts:9 | what reaches `func` is a subsequence of the call arguments, unaltered |
| Throttle.FirstCallForwarded | src/shared/lib/throttle.ts:6-9 | a fresh wrapper forwards its first call |
| PortalCharacter.Initial | src/widgets/PaperPortal/PortalCharacter.tsx:48 | the guide starts valid on line 0 without the lock |
| PortalCharacter.Rerender | src/widgets/PaperPortal/PortalCharacter.tsx:37-46 | a render takes the disappearing flag as the ref holds it now and installs a fresh, unthrottled wrapper, because `handleInteractionCore` is a new closure on every render; nothing else changes |
| PortalCharacter.ViewState | src/widgets/PaperPortal/PortalCharacter.tsx:129-136 | the shared component receives the appeared flag as `hasEmerged` and the disappearing flag as it stood at the last render |
| PortalCharacter.TiltActive | src/widgets/PaperPortal/PortalCharacter.tsx:49-52 | the tilt follows the pointer exactly when the character is interactive, that is, appeared and not disappearing as of the last render |
| PortalCharacter.OnExpandedChange | src/widgets/PaperPortal/PortalCharacter.tsx:61-66 | opening rewinds to line 0 and releases the lock, and the animation hook reacts; collapsing leaves the dialogue alone; the prop change renders before the effects, so a collapse leaves the rendered disappearing flag as it was, and only a state change from the effects renders again |
| PortalCharacter.SayGoodbye | src/widgets/PaperPortal/PortalCharacter.tsx:70-79 | ignored under the lock or on the goodbye line; otherwise it takes the lock, jumps to "goodbye" and nods; a jump that moves the line renders and replaces the throttle wrapper |
| PortalCharacter.DialogueEffect | src/widgets/PaperPortal/PortalCharacter.tsx:83-113 | nothing before appearing; "close_portal" only schedules the close after 1500 ms; any other line broadcasts its action, or null when empty or absent, and plays its motion if present |
| PortalCharacter.ApplyLineEffect | src/widgets/PaperPortal/PortalCharacter.tsx:110-112 | a line's motion is handed to the animation hook and nothing else changes |
| PortalCharacter.HandleInteractionCore | src/widgets/PaperPortal/PortalCharacter.tsx:116-121 | ignored while closing or locked; otherwise a jump and exactly one line forward |
| PortalCharacter.HandleInteraction | src/widgets/PaperPortal/PortalCharacter.tsx:116-127 | while throttled a click does nothing; otherwise it runs the core, and a click that moves the line renders, which installs a fresh unthrottled wrapper; only a click the core ignores, or one on a one-line script, leaves the wrapper throttled |
| PortalCharacter.HandleInteractionStable | src/widgets/PaperPortal/PortalCharacter.tsx:116-127 | with one wrapper kept across renders, a throttled click does nothing and a forwarded one runs the core and leaves the wrapper throttled |
| PortalCharacter.ThrottleExpires | src/shared/lib/throttle.ts:11 | once the throttle's timer fires the wrapper is no longer throttled and keeps its invariant; the dialogue, the lock, the animation and the rendered flag are unchanged |
| PortalCharacter.OnFrame | src/shared/hooks/useCharacterAnimation.ts:57-288 | a frame advances the animation refs under the source's start-time test and, writing only refs, leaves the dialogue, the lock, the wrapper and the rendered flags alone |
| PortalCharacter.OnClick | src/widgets/PaperPortal/PortalCharacter.tsx:138-145 | a click on the mesh or the bubble runs the throttled interaction exactly when the character is interactive as of the last render, and changes nothing otherwise |
| PortalCharacter.GoodbyeLocksDialogue | src/widgets/PaperPortal/PortalCharacter.tsx:70-79 | after the goodbye, the goodbye line shows, the hint is hidden, clicks do not move the dialogue, and a second goodbye changes nothing |
| PortalCharacter.ReopenReleasesGoodbye | src/widgets/PaperPortal/PortalCharacter.tsx:61-66 | reopening unlocks the dialogue at line 0 so a click advances it again |
| PortalCharacter.SilentBeforeAppearing | src/widgets/PaperPortal/PortalCharacter.tsx:84 | before the character appears no line has any effect |
| PortalCharacter.LineEffectOnHeader | src/widgets/Header.tsx:39-43 | a closing line does not broadcast; any other line makes the header glow exactly when its action is "highlight_gnb" |
| PortalCharacter.DoubleClickAdvancesTwice | src/widgets/PaperPortal/PortalCharacter.tsx:116-127 | as written, on a script of two or more lines, two clicks with no timer expiry between them advance the dialogue two lines |
| PortalCharacter.ThrottledDoubleClick | src/widgets/PaperPortal/PortalCharacter.tsx:124-127 | with a wrapper kept across renders, two clicks without a throttle expiry advance the dialogue at most one line |
| PortalCharacter.StalledEntranceClickRecovers | src/widgets/PaperPortal/PortalCharacter.tsx:116-121 | an entrance stalled by a start at clock 0 still takes clicks; a click's jump and a frame at a non-zero clock restart it, and it completes exactly 0.7 s after that frame |
| PortalCharacter.CollapseKeepsGateOpen | src/widgets/PaperPortal/PortalCharacter.tsx:37-52 | after a collapse, and through any frames, the character is leaving, yet the bubble still shows, clicks still pass the gate and the tilt still follows the pointer |
| PortalCharacter.RenderClosesGate | src/widgets/PaperPortal/PortalCharacter.tsx:129-145 | the first render during the exit hides the bubble, stops the tilt and lets no click through |
| ActiveSection.Position | src/shared/hooks/useActiveSection.ts:23 | the position found holds the id, and none is found only when no entry has it |
| ActiveSection.Set | src/shared/hooks/useActiveSection.ts:22-24 | an existing key is overwritten in place and a new key appended; keys stay distinct |
| ActiveSection.SetOverwritesOnlyItsOwn | src/shared/hooks/useActiveSection.ts:22-24 | after a set the key reads the new ratio, every other key reads what it did, and the order of keys is kept |
| ActiveSection.Scan | src/shared/hooks/useActiveSection.ts:27-35 | the scan picks a positive ratio at least every other, strictly above every earlier one, and picks nothing exactly when no ratio is positive |
| ActiveSection.LeaderUnique | src/shared/hooks/useActiveSection.ts:30-35 | at most one entry is the leader |
| ActiveSection.ScanIsLeader | src/shared/hooks/useActiveSection.ts:27-35 | the scan returns an index if and only if it is the leader: positive, maximal, first among equals |
| ActiveSection.OnEntries | src/shared/hooks/useActiveSection.ts:21-40 | the highlight moves to the leader's id when there is a leader with a non-empty id, and stays otherwise |
| ActiveSection.SetAll | src/shared/hooks/useActiveSection.ts:22-24 | recording a batch of entries keeps keys distinct |
| ActiveSection.NothingVisibleKeepsActive | src/shared/hooks/useActiveSection.ts:37-39 | when no ratio is positive the highlight does not change |
| ActiveSection.RecordTwo | src/shared/hooks/useActiveSection.ts:22-24 | two new keys are appended in the order observed, and setting the second again updates it in place |
| ActiveSection.LeaderOfPair | src/shared/hooks/useActiveSection.ts:27-35 | of two entries with the first positive, the second leads only when its ratio is strictly higher |
| ActiveSection.SetAllFresh | src/shared/hooks/useActiveSection.ts:19-24 | recording entries whose keys are new and distinct appends them in order |
| ActiveSection.Resubscribe | src/shared/hooks/useActiveSection.ts:11-52 | a re-run of the effect starts from an empty map, so after a first batch with one entry per section the map is exactly that batch; the highlight moves to the leader of the new map or stays |
| ActiveSection.RenderRereadsRatios | src/shared/hooks/useActiveSection.ts:19-52 | for any two sections, when the first was last reported below the second the second is highlighted; once the first's current ratio exceeds the second's, a re-subscription reads it and moves the highlight to the first |
| ActiveSection.TieGoesToFirstInserted | src/shared/hooks/useActiveSection.ts:30-35 | for any two distinct sections reported with the same positive ratio, the first inserted takes the highlight and keeps it until the other strictly overtakes it |
| InView.Mount | src/shared/hooks/useInView.ts:23-28 | both flags start down and something is observed exactly when there is an element |
| InView.OnEntry | src/shared/hooks/useInView.ts:31-38 | an intersecting entry raises both flags and, with `once`, disconnects; a non-intersecting entry lowers `isVisible` only without `once` |
| InView.LatchHolds | src/shared/hooks/useInView.ts:24-38 | `hasBeenVisible` never falls and `isVisible` implies it, through any run |
| InView.NoElementStaysHidden | src/shared/hooks/useInView.ts:27-28 | without an element both flags stay down forever |
| InView.OnceFreezesAfterSighting | src/shared/hooks/useInView.ts:35 | with `once`, after the first sighting nothing changes again |
| InView.VisibleTracksLatest | src/shared/hooks/useInView.ts:32-38 | without `once`, `isVisible` mirrors the latest entry |
| ProjectCard.HexValue | src/widgets/ProjectCard.tsx:9 | a hex digit's value is below 16 |
| ProjectCard.ParseDigits | src/widgets/ProjectCard.tsx:9 | accepted exactly when there are six hex digits, giving three byte channels |
| ProjectCard.ParseHexColor | src/widgets/ProjectCard.tsx:9 | an accepted colour has byte channels and came from six digits, optionally after '#' |
| ProjectCard.DecimalString | src/widgets/ProjectCard.tsx:11 | the spelling is a non-empty run of decimal digits |
| ProjectCard.DecimalRoundTrip | src/widgets/ProjectCard.tsx:11 | reading the decimal spelling back gives the number |
| ProjectCard.HexToRgb | src/widgets/ProjectCard.tsx:8-12 | an unreadable input gives white, a readable one its own "r, g, b" |
| ProjectCard.FallbackIsWhite | src/widgets/ProjectCard.tsx:10 | the fallback is the string "255, 255, 255" |
| ProjectCard.HexToRgbShape | src/widgets/ProjectCard.tsx:8-12 | every output is three byte values in the "r, g, b" format |
| ProjectCard.OnlySixDigitsAccepted | src/widgets/ProjectCard.tsx:9-10 | any length other than 6 or 7 falls back to white, so shorthand and alpha forms do |
| ProjectCard.HexRoundTrip | src/widgets/ProjectCard.tsx:9-11 | writing a colour as hex, in either case and with or without '#', and reading it back gives the colour |
| ProjectCard.CaseInsensitive | src/widgets/ProjectCard.tsx:9 | lower-casing the input does not change the result |
| ProjectCard.HashOptional | src/widgets/ProjectCard.tsx:9 | a leading '#' does not change the result |
| ProjectCard.Toggle | src/widgets/ProjectCard.tsx:44-46 | a click flips the card |
| ProjectCard.OnKeyDown | src/widgets/ProjectCard.tsx:68-73 | Enter or Space flips the card and suppresses the default action; other keys do nothing |
| ProjectCard.ApplyFlipsIff | src/widgets/ProjectCard.tsx:44-73 | one input flips the card exactly when it is a click, Enter or Space |
| ProjectCard.FaceFollowsParity | src/widgets/ProjectCard.tsx:44-73 | after any run of clicks and key presses the card shows its original face exactly when an even number of them activated it |
| ProjectCard.FlipTwiceRestores | src/widgets/ProjectCard.tsx:44-73 | two activating inputs, clicks or keys in any mix, restore the face shown |

## Left out

- Rendering, JSX, materials, geometry and scene setup are left out: they compute nothing the state machines read. This covers glow and shadow positions, the `Html` portal and CSS classes.
- Trigonometric and exponential terms are not modelled; they enter as parameters or are dropped. Examples are the entrance bobbing and arcs, the nod and look-up angles, `elasticOut`, the idle bounce and float, and `1 - exp(-damping·delta)`. Where a value depends on one, the model takes it as an input with its range stated in the lemma: `arc` in [0, 1], `blend` in [0, 1].
- Positions (x, y, z) of the characters are left out; only scale, glow and shadow strength, Y rotation and texture, which the properties are about, are tracked. The sprite's own opacity is never set, so it is not tracked.
- Floating-point rounding, NaN and infinities are left out: numbers are exact reals.
- Strings are sequences of characters, not UTF-16 code units.
- `Math.random` is a parameter `pick < 3`.
- `setTimeout`, `requestAnimationFrame`, `IntersectionObserver` and `window` events are explicit events. Examples are a typing step, `Expire`, an entry, and `OnEntries` for one observer batch. The header passes a new `sectionIds` array on every render (src/widgets/Header.tsx:63), so each render re-runs the effect; `Resubscribe` models one such re-run, and `OnEntries` models the batches between renders.
- React batching and effect scheduling are reduced to synchronous updates: a render is modelled as a snapshot of the refs it reads plus a fresh throttle wrapper, taken when the dialogue index or the appeared flag changes. The dialogue effect also depends on `triggerMotion`, a new closure on every render, so it re-runs on each render and replays the current line's motion and broadcast; those re-runs are not modelled.
- PortalCharacter.HandleInteraction: a timer armed by a wrapper that a render has replaced is not modelled; `ThrottleExpires` acts only on the current wrapper, and an old wrapper's timer changes nothing the page reads.
- `onClose` and the `YU_VERSE_GUIDE_ACTION` broadcast are returned as an `Effect`, not performed.
- PortalCharacter's guide script (`guide.json`) is a parameter: the script file is not part of this model.
- DialogueState.Next: an empty script is excluded by its precondition, because the source's `% dialogues.length` would produce NaN there.
- Drag inertia and a layer sequencer are not modelled: the molecule has no drag handling and the portal scene uses a plain toggle.
- The collapse is guarded by the appeared flag, not by emergence, so a collapse during the entrance starts the exit at once.
- The Header's glow is modelled only as the predicate on the broadcast action; the rest of the Header is out of scope.

## Findings

| source | as written | input that shows it | evidently intended | confidence | as-written member | corrected member |
|---|---|---|---|---|---|---|
| src/shared/ui/Character/DialogueBubble.tsx:111-113 | The hint compares the tag-stripped length of the shown text with that of the raw line. The typing tokenizer drops a '<' that no '>' follows, but `replace(/<[^>]*>/g, "")` keeps it. | The line "a<b": typing ends on "ab" (2 characters), while the stripped line "a<b" has 3, so the hint never appears. | Show the hint once every character that typing will ever show has been typed, i.e. compare against the stripped joined tokens. | medium; not executed | DialogueBubble.HintAsWritten, DialogueBubble.HintAsWrittenNeverShows, DialogueBubble.DanglingHintExample | DialogueBubble.Hint, DialogueBubble.HintIffTextTyped |
| src/shared/hooks/useCharacterAnimation.ts:164-166 | `startTimeRef.current ? elapsed - start : 0` tests the start time for truthiness. A start recorded at clock reading 0 therefore counts as no start. The same test is at src/widgets/PaperPortal/Character.tsx:206-208. | An entrance whose first frame reads the clock at exactly 0: the time since start is 0 on every later frame, so the character waits at 80% with no glow or shadow and does not emerge until a click's jump (or, for the older character, a collapse) clears the start. | Test for `null` only, so a start at 0 counts like any other. | low (needs a first frame at clock 0, as with a frame clock that starts at 0 under test); not executed | CharacterAnimation.SinceStartAsWritten, CharacterAnimation.StartAtZeroHoldsEntrance, PaperCharacter.StartAtZeroHoldsEntrance | CharacterAnimation.SinceStart, CharacterAnimation.NullCheckEmerges |
| src/widgets/PaperPortal/PortalCharacter.tsx:124-127 | `useMemo` rebuilds the throttle wrapper whenever `handleInteractionCore` changes. That callback depends on `triggerJump` and `nextDialogue`, which are new closures on every render (src/shared/hooks/useCharacterAnimation.ts:309, src/shared/hooks/useDialogueState.ts:17). A click that moves the dialogue renders, and the render installs a fresh, unthrottled wrapper. | On a script of two or more lines, two clicks 100 ms apart: the first advances a line and renders, and the second reaches the new wrapper and advances another. | At most one line per 300 ms, with one wrapper kept across renders. | medium; not executed | PortalCharacter.HandleInteraction, PortalCharacter.DoubleClickAdvancesTwice | PortalCharacter.HandleInteractionStable, PortalCharacter.ThrottledDoubleClick |
