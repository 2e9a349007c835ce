/**
 * What both character components share: the two faces of the character
 * sprite and the ground shadow that follows it.
 */
module CharacterParts {
  import opened Numeric

  /** `Math.PI`. */
  const Pi: real := 3.141592653589793

  /** The material map of the character and glow meshes. */
  datatype Texture = Front | Back

  /** The shadow is pinned to this height. */
  const GroundY: real := -5.5

  /** `Math.abs(characterY - shadowY)`. */
  function GroundDistance(characterY: real): (d: real)
    ensures d >= 0.0
    ensures characterY >= GroundY ==> d == characterY - GroundY
  {
    Abs(characterY - GroundY)
  }

  /** `Math.max(0.6, 1.2 - shadowDistance * 0.15)`: the shadow shrinks as the character rises. */
  function ShadowScale(characterY: real): (f: real)
    ensures 0.6 <= f <= 1.2
  {
    Max(0.6, 1.2 - GroundDistance(characterY) * 0.15)
  }

  /** `Math.max(0.1, 0.4 - shadowDistance * 0.08)`, before the glow and shadow strength (`opacityRef`) is applied. */
  function ShadowFade(characterY: real): (f: real)
    ensures 0.1 <= f <= 0.4
  {
    Max(0.1, 0.4 - GroundDistance(characterY) * 0.08)
  }

  /** The shadow material's opacity: the fade times the glow and shadow strength. */
  function ShadowOpacity(characterY: real, opacity: real): real
  {
    ShadowFade(characterY) * opacity
  }

  /** The shadow's opacity lies between a tenth and four tenths of the glow and shadow strength. */
  lemma ShadowOpacityBounds(characterY: real, opacity: real)
    requires 0.0 <= opacity
    ensures 0.1 * opacity <= ShadowOpacity(characterY, opacity) <= 0.4 * opacity
  {
    var f := ShadowFade(characterY);
    MulNonNegative(f - 0.1, opacity);
    MulNonNegative(0.4 - f, opacity);
  }

  /** The higher the character stands above the ground, the smaller and fainter its shadow. */
  lemma ShadowFallsOff(y1: real, y2: real)
    requires GroundY <= y1 <= y2
    ensures ShadowScale(y2) <= ShadowScale(y1)
    ensures ShadowFade(y2) <= ShadowFade(y1)
  {
  }
}
