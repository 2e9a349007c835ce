/**
 * The typing animation of `DialogueBubble`: the line is tokenized once, then
 * `typeNext` appends a whole tag in one step or one character of a text run
 * per step until the tokens are used up or the effect is cancelled.
 */
module DialogueBubble {
  import opened Optional
  import opened BubbleTokens

  /** Milliseconds between two typed characters. */
  const TypingSpeedMs: nat := 30

  /** The closure state of one run of the typing effect. */
  datatype Typing = Typing(tokens: seq<string>, tokenIndex: nat, charIndex: nat, shown: string, cancelled: bool)

  /** What the bubble shows before the token at `tokenIndex` is typed. */
  function Typed(tokens: seq<string>, tokenIndex: nat, charIndex: nat): string
    requires tokenIndex <= |tokens|
    requires tokenIndex < |tokens| ==> charIndex <= |tokens[tokenIndex]|
  {
    Concat(tokens[..tokenIndex]) + (if tokenIndex < |tokens| then tokens[tokenIndex][..charIndex] else "")
  }

  /**
   * The invariant of a typing run: well-formed tokens, a cursor inside them
   * that never rests inside a tag, and the shown text equal to everything
   * before the cursor.
   */
  predicate Valid(st: Typing)
  {
    && AllTokens(st.tokens)
    && st.tokenIndex <= |st.tokens|
    && (st.tokenIndex == |st.tokens| ==> st.charIndex == 0)
    && (st.tokenIndex < |st.tokens| ==> st.charIndex < |st.tokens[st.tokenIndex]|)
    && (st.tokenIndex < |st.tokens| && IsTag(st.tokens[st.tokenIndex]) ==> st.charIndex == 0)
    && st.shown == Typed(st.tokens, st.tokenIndex, st.charIndex)
  }

  /** `typeNext` has nothing left to do. */
  predicate Stopped(st: Typing)
  {
    st.cancelled || st.tokenIndex >= |st.tokens|
  }

  /** One step of typing for a token: a whole tag, or one character. */
  function TokenCost(t: string): nat
  {
    if IsTag(t) then 1 else |t|
  }

  function Cost(ts: seq<string>): nat
  {
    if |ts| == 0 then 0 else TokenCost(ts[0]) + Cost(ts[1..])
  }

  /** Steps still to run before the tokens are used up. */
  function Remaining(st: Typing): int
    requires st.tokenIndex <= |st.tokens|
  {
    Cost(st.tokens[st.tokenIndex..]) - st.charIndex
  }

  /** Text characters typed so far: the text runs before the cursor plus the partial run. */
  function TypedChars(st: Typing): nat
    requires st.tokenIndex <= |st.tokens|
  {
    TextChars(st.tokens[..st.tokenIndex]) + st.charIndex
  }

  /** The effect starting on a visible bubble: `displayedText` is reset and the line tokenized. */
  function Begin(text: string): (st: Typing)
    ensures Valid(st) && !st.cancelled && st.shown == ""
    ensures st.tokens == Tokenize(text)
  {
    Typing(Tokenize(text), 0, 0, "", false)
  }

  lemma {:induction false} CostAppend(a: seq<string>, b: seq<string>)
    ensures Cost(a + b) == Cost(a) + Cost(b)
    decreases |a|
  {
    if |a| > 0 {
      assert (a + b)[1..] == a[1..] + b;
      CostAppend(a[1..], b);
    } else {
      assert a + b == b;
    }
  }

  /** Moving the cursor past one token. */
  lemma PrefixStep(ts: seq<string>, i: nat)
    requires i < |ts|
    ensures Concat(ts[..i + 1]) == Concat(ts[..i]) + ts[i]
    ensures TextChars(ts[..i + 1]) == TextChars(ts[..i]) + |Visible(ts[i])|
    ensures Cost(ts[i..]) == TokenCost(ts[i]) + Cost(ts[i + 1..])
  {
    assert ts[..i + 1] == ts[..i] + [ts[i]];
    ConcatAppend(ts[..i], [ts[i]]);
    VisibleAppend(ts[..i], [ts[i]]);
    assert Concat([ts[i]]) == ts[i] + Concat([]);
    assert VisibleText([ts[i]]) == Visible(ts[i]) + VisibleText([]);
    assert ts[i..][1..] == ts[i + 1..];
  }

  /** A tag at the cursor is appended whole and the cursor moves past it. */
  function TypeTag(st: Typing): (r: Typing)
    requires Valid(st) && !Stopped(st) && IsTag(st.tokens[st.tokenIndex])
    ensures Valid(r) && r.tokens == st.tokens && r.cancelled == st.cancelled
    ensures r.shown == st.shown + st.tokens[st.tokenIndex]
    ensures TypedChars(r) == TypedChars(st) && Remaining(r) == Remaining(st) - 1
  {
    var token := st.tokens[st.tokenIndex];
    PrefixStep(st.tokens, st.tokenIndex);
    assert token[..0] == "";
    st.(shown := st.shown + token, tokenIndex := st.tokenIndex + 1)
  }

  /**
   * One character of the text run at the cursor is appended; the cursor moves
   * to the next token when the run is used up.
   */
  function TypeChar(st: Typing): (r: Typing)
    requires Valid(st) && !Stopped(st) && !IsTag(st.tokens[st.tokenIndex])
    ensures Valid(r) && r.tokens == st.tokens && r.cancelled == st.cancelled
    ensures r.shown == st.shown + [st.tokens[st.tokenIndex][st.charIndex]]
    ensures TypedChars(r) == TypedChars(st) + 1 && Remaining(r) == Remaining(st) - 1
  {
    var token := st.tokens[st.tokenIndex];
    var shown := st.shown + [token[st.charIndex]];
    assert token[..st.charIndex + 1] == token[..st.charIndex] + [token[st.charIndex]];
    if st.charIndex + 1 >= |token| then
      PrefixStep(st.tokens, st.tokenIndex);
      assert token[..st.charIndex + 1] == token;
      st.(shown := shown, tokenIndex := st.tokenIndex + 1, charIndex := 0)
    else
      st.(shown := shown, charIndex := st.charIndex + 1)
  }

  /**
   * `typeNext`: stopped runs do nothing; a tag is appended whole; a text run
   * gives up one character, and the cursor moves to the next token when the
   * run is used up.
   */
  function TypeNext(st: Typing): (r: Typing)
    requires Valid(st)
    ensures Valid(r)
    ensures r.tokens == st.tokens && r.cancelled == st.cancelled
    ensures Stopped(st) ==> r == st
    ensures !Stopped(st) && IsTag(st.tokens[st.tokenIndex]) ==>
              r.shown == st.shown + st.tokens[st.tokenIndex] && TypedChars(r) == TypedChars(st)
    ensures !Stopped(st) && !IsTag(st.tokens[st.tokenIndex]) ==>
              r.shown == st.shown + [st.tokens[st.tokenIndex][st.charIndex]] && TypedChars(r) == TypedChars(st) + 1
    ensures !Stopped(st) ==> Remaining(r) == Remaining(st) - 1
  {
    if st.cancelled || st.tokenIndex >= |st.tokens| then st
    else if IsTag(st.tokens[st.tokenIndex]) then TypeTag(st)
    else TypeChar(st)
  }

  /** `n` successive calls of `typeNext`. */
  function Run(st: Typing, n: nat): (r: Typing)
    requires Valid(st)
    ensures Valid(r) && r.tokens == st.tokens && r.cancelled == st.cancelled
    decreases n
  {
    if n == 0 then st else Run(TypeNext(st), n - 1)
  }

  /** Whatever the bubble shows during a run is a prefix of the joined tokens. */
  lemma ShownIsPrefix(st: Typing)
    requires Valid(st)
    ensures st.shown <= Concat(st.tokens)
  {
    var ts := st.tokens;
    var i := st.tokenIndex;
    assert ts == ts[..i] + ts[i..];
    ConcatAppend(ts[..i], ts[i..]);
    if i < |ts| {
      assert Concat(ts[i..]) == ts[i] + Concat(ts[i + 1..]);
      assert ts[i] == ts[i][..st.charIndex] + ts[i][st.charIndex..];
    } else {
      assert ts[..i] == ts;
    }
  }

  /** The cost of what is left never goes below the character cursor. */
  lemma RemainingNonNegative(st: Typing)
    requires Valid(st)
    ensures Remaining(st) >= 0
    ensures Remaining(st) == 0 <==> st.tokenIndex == |st.tokens|
  {
    if st.tokenIndex < |st.tokens| {
      PrefixStep(st.tokens, st.tokenIndex);
    }
  }

  /** Once the cursor is past the last token, the bubble shows all tokens joined. */
  lemma FinishedShowsAll(st: Typing)
    requires Valid(st) && st.tokenIndex == |st.tokens|
    ensures st.shown == Concat(st.tokens)
  {
    assert st.tokens[..st.tokenIndex] == st.tokens;
  }

  /**
   * A run that is not cancelled stops after exactly `Remaining` steps, and
   * then shows all tokens joined; before that it is still typing.
   */
  lemma {:induction false} RunCompletes(st: Typing, n: nat)
    requires Valid(st) && !st.cancelled
    ensures n < Remaining(st) ==> !Stopped(Run(st, n))
    ensures n >= Remaining(st) ==> Stopped(Run(st, n)) && Run(st, n).shown == Concat(st.tokens)
    decreases n
  {
    RemainingNonNegative(st);
    if n == 0 {
      if Remaining(st) == 0 {
        FinishedShowsAll(st);
      }
    } else if Stopped(st) {
      assert TypeNext(st) == st;
      RunCompletes(st, n - 1);
    } else {
      RunCompletes(TypeNext(st), n - 1);
    }
  }

  /**
   * Typing a fresh line takes one step per tag plus one per text character,
   * and ends on the joined tokens: the line itself when every tag is closed.
   */
  lemma TypingEndsOnText(text: string)
    ensures var st := Run(Begin(text), Cost(Tokenize(text)));
            Stopped(st) && st.shown == Concat(Tokenize(text))
    ensures TagsClosed(text) ==> Run(Begin(text), Cost(Tokenize(text))).shown == text
    ensures forall n :: 0 <= n < Cost(Tokenize(text)) ==> !Stopped(Run(Begin(text), n))
  {
    var st := Begin(text);
    assert st.tokens[0..] == st.tokens;
    RunCompletes(st, Cost(Tokenize(text)));
    forall n | 0 <= n < Cost(Tokenize(text)) ensures !Stopped(Run(st, n)) {
      RunCompletes(st, n);
    }
    TokenizeExact(text);
  }

  /** The effect's cleanup: `isCancelled = true`. */
  function Cancel(st: Typing): (r: Typing)
    ensures r.cancelled && r.shown == st.shown
    ensures Valid(st) ==> Valid(r)
  {
    st.(cancelled := true)
  }

  /** After cleanup no later `typeNext` changes what the bubble shows. */
  lemma {:induction false} CancelledRunFrozen(st: Typing, n: nat)
    requires Valid(st) && st.cancelled
    ensures Run(st, n) == st
    decreases n
  {
    if n > 0 {
      CancelledRunFrozen(TypeNext(st), n - 1);
    }
  }

  /** The `showNextHint && stripped lengths equal` test as the source writes it. */
  function HintAsWritten(showNextHint: bool, displayed: string, text: string): bool
  {
    showNextHint && |StripTags(displayed)| == |StripTags(text)|
  }

  /**
   * The hint test compared against what the typing will end on (the joined
   * tokens) rather than the raw line. It differs from the source only when
   * the line holds a '<' that no '>' follows.
   */
  function Hint(showNextHint: bool, displayed: string, text: string): bool
  {
    showNextHint && |StripTags(displayed)| == |StripTags(Concat(Tokenize(text)))|
  }

  /** The tag-stripped length of the shown text counts the text characters typed so far. */
  lemma StrippedShownLength(st: Typing)
    requires Valid(st)
    ensures |StripTags(st.shown)| == TypedChars(st)
    ensures |StripTags(Concat(st.tokens))| == TextChars(st.tokens)
  {
    var ts := st.tokens;
    var i := st.tokenIndex;
    var partial := if i < |ts| then ts[i][..st.charIndex] else "";
    assert AllTokens(ts[..i]) by {
      forall k | 0 <= k < i ensures IsToken(ts[..i][k]) {
        assert ts[..i][k] == ts[k];
      }
    }
    assert forall k :: 0 <= k < |partial| ==> partial[k] != '<' by {
      if i < |ts| && st.charIndex > 0 {
        assert IsText(ts[i]);
        forall k | 0 <= k < |partial| ensures partial[k] != '<' {
          assert partial[k] == ts[i][k];
        }
      }
    }
    StripTokens(ts[..i], partial);
    StripPlain(partial);
    StripTokens(ts, "");
    assert Concat(ts) + "" == Concat(ts);
  }

  /**
   * With the corrected test the hint appears exactly when every text
   * character of the line has been typed, whatever the line holds.
   */
  lemma HintIffTextTyped(st: Typing, text: string, showNextHint: bool)
    requires Valid(st) && st.tokens == Tokenize(text)
    ensures Hint(showNextHint, st.shown, text) <==> showNextHint && TypedChars(st) == TextChars(st.tokens)
  {
    StrippedShownLength(st);
  }

  /** The source's test agrees with the corrected one on every line whose tags are closed. */
  lemma HintAsWrittenAgrees(displayed: string, text: string, showNextHint: bool)
    requires TagsClosed(text)
    ensures HintAsWritten(showNextHint, displayed, text) == Hint(showNextHint, displayed, text)
  {
    TokenizeExact(text);
  }

  /** Typing never counts more text characters than the tokens hold. */
  lemma TypedCharsBounded(st: Typing)
    requires Valid(st)
    ensures TypedChars(st) <= TextChars(st.tokens)
  {
    var ts := st.tokens;
    var i := st.tokenIndex;
    assert ts == ts[..i] + ts[i..];
    VisibleAppend(ts[..i], ts[i..]);
    if i < |ts| {
      assert VisibleText(ts[i..]) == Visible(ts[i]) + VisibleText(ts[i + 1..]);
    }
  }

  /**
   * As written, a line holding a '<' with no '>' after it never shows the
   * hint: the typing drops that '<' while the stripped line keeps it.
   */
  lemma HintAsWrittenNeverShows(text: string, n: nat, showNextHint: bool)
    requires !TagsClosed(text)
    ensures !HintAsWritten(showNextHint, Run(Begin(text), n).shown, text)
  {
    var st := Run(Begin(text), n);
    StrippedShownLength(st);
    TypedCharsBounded(st);
    StripKeepsAtLeastText(text);
  }

  /** "a<b" splits into the runs "a" and "b": the dangling '<' is dropped. */
  lemma TokenizeDanglingExample()
    ensures Tokenize("a<b") == ["a", "b"]
  {
    var s := "a<b";
    assert RunLength(s) == 1;
    assert s[..1] == "a" && s[1..] == "<b";
    assert IndexOf("<b", '>', 1).None?;
    assert "<b"[1..] == "b";
    assert Tokenize("<b") == Tokenize("b");
    assert RunLength("b") == 1;
    assert "b"[..1] == "b" && "b"[1..] == "";
    assert Tokenize("b") == ["b"] + Tokenize("");
  }

  /** A concrete line: "a<b" is typed in two steps and ends on "ab". */
  lemma DanglingTypingExample()
    ensures Run(Begin("a<b"), 2).shown == "ab" && Stopped(Run(Begin("a<b"), 2))
  {
    TokenizeDanglingExample();
    var ts := Tokenize("a<b");
    assert ts[1..] == ["b"] && ts[1..][1..] == [];
    assert Cost(ts) == 2;
    assert Concat(ts) == "ab";
    TypingEndsOnText("a<b");
  }

  /** On "a<b" the stripped line keeps its '<', so the source's test never matches "ab". */
  lemma DanglingHintExample()
    ensures !HintAsWritten(true, "ab", "a<b")
    ensures Hint(true, "ab", "a<b")
  {
    TokenizeDanglingExample();
    var ts := Tokenize("a<b");
    assert ts[1..] == ["b"] && ts[1..][1..] == [];
    assert Concat(ts) == "ab";
    StripPlain("ab");
    StripPlain("b");
    assert IndexOf("<b", '>', 1).None?;
    assert "<b"[1..] == "b";
    assert |StripTags("<b")| == 2;
    assert "a<b"[1..] == "<b";
    assert |StripTags("a<b")| == 3;
  }

  /** The bubble as rendered: its HTML and whether the hint is shown. */
  datatype View = View(html: string, nextHint: bool)

  /**
   * The effect on a change of `text` or `visible`: a hidden bubble clears the
   * shown text and starts nothing; a visible one starts typing from "".
   */
  function Restart(text: string, visible: bool): (session: Option<Typing>)
    ensures visible <==> session.Some?
    ensures session.Some? ==> Valid(session.value) && session.value.shown == "" && session.value == Begin(text)
  {
    if visible then Some(Begin(text)) else None
  }

  /** `if (!visible) return null`, otherwise the bubble with the hint test as the source writes it. */
  function Render(text: string, visible: bool, displayed: string, showNextHint: bool): (v: Option<View>)
    ensures !visible <==> v.None?
    ensures v.Some? ==> v.value.html == displayed
    ensures v.Some? ==> v.value.nextHint == HintAsWritten(showNextHint, displayed, text)
  {
    if !visible then None else Some(View(displayed, HintAsWritten(showNextHint, displayed, text)))
  }

  /**
   * What the rendered hint means while a line is typed: on a line whose tags
   * are closed it shows exactly once every text character is out; on a line
   * with a '<' that no '>' follows it never shows.
   */
  lemma RenderedHintDuringTyping(text: string, n: nat, showNextHint: bool)
    ensures var st := Run(Begin(text), n);
            (Render(text, true, st.shown, showNextHint).value.nextHint <==>
               showNextHint && TagsClosed(text) && TypedChars(st) == TextChars(st.tokens))
  {
    var st := Run(Begin(text), n);
    if TagsClosed(text) {
      HintAsWrittenAgrees(st.shown, text, showNextHint);
      HintIffTextTyped(st, text, showNextHint);
    } else {
      HintAsWrittenNeverShows(text, n, showNextHint);
    }
  }
}
