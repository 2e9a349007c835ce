/**
 * `ProjectCard`: a flip card whose neon glow colour is given as a hex
 * string and handed to CSS as an `"r, g, b"` triple by `hexToRgb`.
 */
module ProjectCard {
  import opened Optional

  /** An RGB colour as three channel values. */
  datatype Rgb = Rgb(r: nat, g: nat, b: nat)

  /** Every channel fits in a byte. */
  predicate IsByteColor(c: Rgb)
  {
    c.r < 256 && c.g < 256 && c.b < 256
  }

  /** What `hexToRgb` returns for anything it cannot read: white. */
  const Fallback: Rgb := Rgb(255, 255, 255)

  /** The value of a character of the class `[a-f\d]` under the `i` flag: an ASCII digit or a letter a-f in either case. */
  function HexValue(c: char): (v: Option<nat>)
    ensures v.Some? ==> v.value < 16
  {
    if '0' <= c <= '9' then Some(c as int - '0' as int)
    else if 'a' <= c <= 'f' then Some(c as int - 'a' as int + 10)
    else if 'A' <= c <= 'F' then Some(c as int - 'A' as int + 10)
    else None
  }

  /** `parseInt` of two hex digits at `i` and `i + 1`. */
  function ByteAt(s: string, i: nat): (v: nat)
    requires i + 1 < |s| && HexValue(s[i]).Some? && HexValue(s[i + 1]).Some?
    ensures v < 256
  {
    HexValue(s[i]).value * 16 + HexValue(s[i + 1]).value
  }

  /** Exactly six hex digits, read as three channel bytes. */
  function ParseDigits(s: string): (c: Option<Rgb>)
    ensures c.Some? ==> |s| == 6 && IsByteColor(c.value)
    ensures c.Some? <==> |s| == 6 && forall i :: 0 <= i < 6 ==> HexValue(s[i]).Some?
  {
    if |s| == 6 && forall i :: 0 <= i < 6 ==> HexValue(s[i]).Some? then
      Some(Rgb(ByteAt(s, 0), ByteAt(s, 2), ByteAt(s, 4)))
    else None
  }

  /** The regular expression `^#?([a-f\d]{2})([a-f\d]{2})([a-f\d]{2})$` with the `i` flag. */
  function ParseHexColor(s: string): (c: Option<Rgb>)
    ensures c.Some? ==> IsByteColor(c.value)
    ensures c.Some? ==> |s| == 6 || (|s| == 7 && s[0] == '#')
  {
    if |s| > 0 && s[0] == '#' then ParseDigits(s[1..]) else ParseDigits(s)
  }

  /** The decimal spelling of a number, without leading zeros. */
  function DecimalString(n: nat): (d: string)
    ensures |d| > 0 && forall i :: 0 <= i < |d| ==> '0' <= d[i] <= '9'
    decreases n
  {
    if n < 10 then [DigitChar(n)] else DecimalString(n / 10) + [DigitChar(n % 10)]
  }

  function DigitChar(n: nat): (c: char)
    requires n < 10
    ensures '0' <= c <= '9' && c as int - '0' as int == n
  {
    ('0' as int + n) as char
  }

  /** Reads a string of decimal digits back as a number. */
  function ParseDecimal(d: string): nat
    decreases |d|
  {
    if |d| == 0 then 0
    else ParseDecimal(d[..|d| - 1]) * 10 + (if '0' <= d[|d| - 1] <= '9' then d[|d| - 1] as int - '0' as int else 0)
  }

  /** Decimal spelling is faithful: reading it back gives the number. */
  lemma {:induction false} DecimalRoundTrip(n: nat)
    ensures ParseDecimal(DecimalString(n)) == n
    decreases n
  {
    if n >= 10 {
      DecimalRoundTrip(n / 10);
      var d := DecimalString(n);
      assert d[..|d| - 1] == DecimalString(n / 10);
    }
  }

  /** The CSS triple `"r, g, b"`. */
  function RgbString(c: Rgb): string
  {
    DecimalString(c.r) + ", " + DecimalString(c.g) + ", " + DecimalString(c.b)
  }

  /** `hexToRgb`. */
  function HexToRgb(hex: string): (s: string)
    ensures ParseHexColor(hex).None? ==> s == RgbString(Fallback)
    ensures ParseHexColor(hex).Some? ==> s == RgbString(ParseHexColor(hex).value)
  {
    match ParseHexColor(hex)
    case None => RgbString(Fallback)
    case Some(c) => RgbString(c)
  }

  /** The fallback spells white as the source writes it. */
  lemma FallbackIsWhite()
    ensures RgbString(Fallback) == "255, 255, 255"
  {
    assert DecimalString(25) == "25";
    assert DecimalString(255) == "255";
  }

  /** Whatever the input, the output is three byte values in the `"r, g, b"` format. */
  lemma HexToRgbShape(hex: string)
    ensures exists c: Rgb :: IsByteColor(c) && HexToRgb(hex) == RgbString(c)
  {
    if ParseHexColor(hex).None? {
      assert IsByteColor(Fallback);
    } else {
      assert IsByteColor(ParseHexColor(hex).value);
    }
  }

  /** Only six digits, optionally after one '#', are read: every other length falls back to white, so 3-digit shorthand and 8-digit alpha forms do. */
  lemma OnlySixDigitsAccepted(hex: string)
    requires |hex| != 6 && |hex| != 7
    ensures HexToRgb(hex) == RgbString(Fallback)
  {
  }

  /** A hex digit for a value below 16, in lower or upper case. */
  function HexDigit(v: nat, upper: bool): (c: char)
    requires v < 16
    ensures HexValue(c) == Some(v)
  {
    if v < 10 then DigitChar(v)
    else if upper then ('A' as int + v - 10) as char
    else ('a' as int + v - 10) as char
  }

  /** A colour written as `#rrggbb` (the '#' and the letter case optional). */
  function FormatHex(c: Rgb, upper: bool, hash: bool): string
    requires IsByteColor(c)
  {
    (if hash then "#" else "")
    + [HexDigit(c.r / 16, upper), HexDigit(c.r % 16, upper),
       HexDigit(c.g / 16, upper), HexDigit(c.g % 16, upper),
       HexDigit(c.b / 16, upper), HexDigit(c.b % 16, upper)]
  }

  /** Writing a colour as hex and reading it back gives the colour. */
  lemma HexRoundTrip(c: Rgb, upper: bool, hash: bool)
    requires IsByteColor(c)
    ensures ParseHexColor(FormatHex(c, upper, hash)) == Some(c)
    ensures HexToRgb(FormatHex(c, upper, hash)) == RgbString(c)
  {
    var s := FormatHex(c, upper, hash);
    var digits := s[if hash then 1 else 0..];
    assert |digits| == 6;
    assert forall i :: 0 <= i < 6 ==> HexValue(digits[i]).Some?;
    assert ByteAt(digits, 0) == c.r;
    assert ByteAt(digits, 2) == c.g;
    assert ByteAt(digits, 4) == c.b;
  }

  /** ASCII lower-casing. */
  function LowerChar(c: char): char
  {
    if 'A' <= c <= 'Z' then (c as int + 32) as char else c
  }

  function Lower(s: string): (t: string)
    ensures |t| == |s| && forall i :: 0 <= i < |s| ==> t[i] == LowerChar(s[i])
  {
    seq(|s|, i requires 0 <= i < |s| => LowerChar(s[i]))
  }

  /** Lower-casing keeps a character's hex value, or its lack of one. */
  lemma LowerKeepsHexValue(c: char)
    ensures HexValue(LowerChar(c)) == HexValue(c)
  {
  }

  /** Six digits read the same in either case. */
  lemma DigitsCaseInsensitive(d: string)
    ensures ParseDigits(Lower(d)) == ParseDigits(d)
  {
    var l := Lower(d);
    forall i | 0 <= i < |d| ensures HexValue(l[i]) == HexValue(d[i]) {
      LowerKeepsHexValue(d[i]);
    }
  }

  /** The letter case of the input does not matter. */
  lemma CaseInsensitive(hex: string)
    ensures ParseHexColor(Lower(hex)) == ParseHexColor(hex)
  {
    var l := Lower(hex);
    if |hex| > 0 && hex[0] == '#' {
      assert l[0] == '#';
      assert l[1..] == Lower(hex[1..]);
      DigitsCaseInsensitive(hex[1..]);
    } else {
      assert |hex| > 0 ==> l[0] != '#';
      DigitsCaseInsensitive(hex);
    }
  }

  /** A leading '#' does not matter either. */
  lemma HashOptional(digits: string)
    requires |digits| == 0 || digits[0] != '#'
    ensures ParseHexColor("#" + digits) == ParseHexColor(digits)
  {
    assert ("#" + digits)[1..] == digits;
  }

  // ---- the flip ---------------------------------------------------------

  /** A click flips the card. */
  function Toggle(flipped: bool): (r: bool)
    ensures r != flipped
  {
    !flipped
  }

  /** A key press: Enter or Space flips the card and suppresses the key's default action; other keys do nothing. */
  function OnKeyDown(flipped: bool, key: string): (r: (bool, bool))
    ensures r.1 <==> key == "Enter" || key == " "
    ensures r.1 ==> r.0 == Toggle(flipped)
    ensures !r.1 ==> r.0 == flipped
  {
    if key == "Enter" || key == " " then (Toggle(flipped), true) else (flipped, false)
  }

  /** What reaches the card: a click, or a key press with its key. */
  datatype CardInput = Click | KeyDown(key: string)

  /** The card's flip state after one input. */
  function Apply(flipped: bool, input: CardInput): bool
  {
    match input
    case Click => Toggle(flipped)
    case KeyDown(key) => OnKeyDown(flipped, key).0
  }

  /** Clicks, Enter and Space flip the card. */
  predicate Activates(input: CardInput)
  {
    input.Click? || input.key == "Enter" || input.key == " "
  }

  function ApplyAll(flipped: bool, inputs: seq<CardInput>): bool
    decreases |inputs|
  {
    if |inputs| == 0 then flipped else ApplyAll(Apply(flipped, inputs[0]), inputs[1..])
  }

  /** How many of the inputs flip the card. */
  function Flips(inputs: seq<CardInput>): nat
  {
    if |inputs| == 0 then 0 else (if Activates(inputs[0]) then 1 else 0) + Flips(inputs[1..])
  }

  /** One input flips the card exactly when it activates it. */
  lemma ApplyFlipsIff(flipped: bool, input: CardInput)
    ensures Apply(flipped, input) != flipped <==> Activates(input)
  {
  }

  /**
   * After any run of clicks and key presses the card shows its original face
   * exactly when an even number of them activated it.
   */
  lemma {:induction false} FaceFollowsParity(flipped: bool, inputs: seq<CardInput>)
    ensures ApplyAll(flipped, inputs) == (if Flips(inputs) % 2 == 0 then flipped else !flipped)
    decreases |inputs|
  {
    if |inputs| > 0 {
      ApplyFlipsIff(flipped, inputs[0]);
      FaceFollowsParity(Apply(flipped, inputs[0]), inputs[1..]);
    }
  }

  /** Two activating inputs, clicks or keys in any mix, restore the face shown. */
  lemma FlipTwiceRestores(flipped: bool, a: CardInput, b: CardInput)
    requires Activates(a) && Activates(b)
    ensures ApplyAll(flipped, [a, b]) == flipped
  {
    assert [a, b][1..] == [b] && [b][1..] == [];
    assert Flips([b]) == 1;
    assert Flips([a, b]) == 2;
    FaceFollowsParity(flipped, [a, b]);
  }
}
