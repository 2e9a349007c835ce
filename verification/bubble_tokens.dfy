/**
 * The text side of the dialogue bubble: the split of a line into markup tags
 * and text runs done by `text.match(/(<[^>]*>)|([^<]+)/g)`, and the tag
 * stripping done by `s.replace(/<[^>]*>/g, "")`.
 *
 * Both regular expressions are scanned left to right the way JavaScript's
 * global matching does it: at a '<' with some '>' later in the string the tag
 * alternative matches up to the first such '>'; at a '<' with no '>' after it
 * neither alternative matches, so the scan moves on one character (the match
 * drops that '<', the replacement keeps it); elsewhere `[^<]+` takes the
 * longest run of characters that are not '<'.
 */
module BubbleTokens {
  import opened Optional

  /** The first position at or after `from` that holds `c`. */
  function IndexOf(s: string, c: char, from: nat): (r: Option<nat>)
    ensures r.Some? ==> from <= r.value < |s| && s[r.value] == c
    ensures r.Some? ==> forall k :: from <= k < r.value ==> s[k] != c
    ensures r.None? ==> forall k :: from <= k < |s| ==> s[k] != c
    decreases |s| - from
  {
    if from >= |s| then None
    else if s[from] == c then Some(from)
    else IndexOf(s, c, from + 1)
  }

  /** How much `[^<]+` consumes: the longest prefix free of '<'. */
  function RunLength(s: string): (k: nat)
    ensures k <= |s|
    ensures forall i :: 0 <= i < k ==> s[i] != '<'
    ensures k < |s| ==> s[k] == '<'
  {
    if |s| == 0 || s[0] == '<' then 0 else 1 + RunLength(s[1..])
  }

  /** A whole tag: a '<', then anything but '>', then the first '>'. */
  predicate IsTag(t: string)
  {
    && |t| >= 2
    && t[0] == '<'
    && t[|t| - 1] == '>'
    && forall k :: 1 <= k < |t| - 1 ==> t[k] != '>'
  }

  /** A text run: non-empty and free of '<'. */
  predicate IsText(t: string)
  {
    |t| > 0 && forall k :: 0 <= k < |t| ==> t[k] != '<'
  }

  predicate IsToken(t: string)
  {
    IsTag(t) || IsText(t)
  }

  predicate AllTokens(ts: seq<string>)
  {
    forall i :: 0 <= i < |ts| ==> IsToken(ts[i])
  }

  /** Position `i` holds a '<' with no '>' anywhere after it. */
  predicate Unclosed(s: string, i: int)
  {
    0 <= i < |s| && s[i] == '<' && forall j :: i < j < |s| ==> s[j] != '>'
  }

  /** Every '<' of `s` is followed, somewhere later, by a '>'. */
  predicate TagsClosed(s: string)
  {
    forall i :: 0 <= i < |s| ==> !Unclosed(s, i)
  }

  /** `text.match(/(<[^>]*>)|([^<]+)/g) || []`. */
  function Tokenize(s: string): (ts: seq<string>)
    ensures AllTokens(ts)
    decreases |s|
  {
    if |s| == 0 then []
    else if s[0] == '<' then
      match IndexOf(s, '>', 1)
      case Some(j) => [s[..j + 1]] + Tokenize(s[j + 1..])
      case None => Tokenize(s[1..])
    else
      var k := RunLength(s);
      [s[..k]] + Tokenize(s[k..])
  }

  /** The tokens joined back together. */
  function Concat(ts: seq<string>): string
  {
    if |ts| == 0 then "" else ts[0] + Concat(ts[1..])
  }

  /** What a token contributes once tags are stripped: text runs stay, tags vanish. */
  function Visible(t: string): string
  {
    if IsTag(t) then "" else t
  }

  function VisibleText(ts: seq<string>): string
  {
    if |ts| == 0 then "" else Visible(ts[0]) + VisibleText(ts[1..])
  }

  /** Characters typed one at a time: the total length of the text runs. */
  function TextChars(ts: seq<string>): nat
  {
    |VisibleText(ts)|
  }

  /** `s.replace(/<[^>]*>/g, "")`. */
  function StripTags(s: string): (r: string)
    ensures |r| <= |s|
    decreases |s|
  {
    if |s| == 0 then ""
    else if s[0] == '<' then
      match IndexOf(s, '>', 1)
      case Some(j) => StripTags(s[j + 1..])
      case None => [s[0]] + StripTags(s[1..])
    else [s[0]] + StripTags(s[1..])
  }

  lemma {:induction false} ConcatAppend(a: seq<string>, b: seq<string>)
    ensures Concat(a + b) == Concat(a) + Concat(b)
    decreases |a|
  {
    if |a| > 0 {
      assert (a + b)[1..] == a[1..] + b;
      ConcatAppend(a[1..], b);
    } else {
      assert a + b == b;
    }
  }

  lemma {:induction false} VisibleAppend(a: seq<string>, b: seq<string>)
    ensures VisibleText(a + b) == VisibleText(a) + VisibleText(b)
    decreases |a|
  {
    if |a| > 0 {
      assert (a + b)[1..] == a[1..] + b;
      VisibleAppend(a[1..], b);
    } else {
      assert a + b == b;
    }
  }

  /** An unclosed '<' stays unclosed in any suffix that still holds it. */
  lemma UnclosedSuffix(s: string, m: nat, i: nat)
    requires m <= i && Unclosed(s, i)
    ensures Unclosed(s[m..], i - m)
  {
    var u := s[m..];
    forall j | i - m < j < |u|
      ensures u[j] != '>'
    {
      assert u[j] == s[j + m];
    }
  }

  /** An unclosed '<' of a suffix is an unclosed '<' of the whole line. */
  lemma UnclosedLift(s: string, m: nat, i: int)
    requires m <= |s|
    ensures Unclosed(s[m..], i) ==> Unclosed(s, i + m)
  {
    var u := s[m..];
    if Unclosed(u, i) {
      forall j | i + m < j < |s|
        ensures s[j] != '>'
      {
        assert s[j] == u[j - m];
      }
    }
  }

  /** A suffix of a line whose tags are closed has its tags closed. */
  lemma ClosedSuffix(s: string, m: nat)
    requires TagsClosed(s) && m <= |s|
    ensures TagsClosed(s[m..])
  {
    forall i | 0 <= i < |s[m..]|
      ensures !Unclosed(s[m..], i)
    {
      UnclosedLift(s, m, i);
    }
  }

  /** A '>' at `j` closes every '<' before it. */
  lemma ClosedBefore(s: string, j: nat)
    requires j < |s| && s[j] == '>'
    ensures forall i :: 0 <= i < j ==> !Unclosed(s, i)
  {
  }

  /** A '<' whose first later '>' is at `j` opens a whole tag, and no unclosed '<' lies up to `j`. */
  lemma ClosedPrefix(s: string, j: nat)
    requires 0 < j < |s| && s[0] == '<' && s[j] == '>'
    requires forall k :: 1 <= k < j ==> s[k] != '>'
    ensures IsTag(s[..j + 1])
    ensures forall i :: Unclosed(s, i) ==> i > j
  {
    var tag := s[..j + 1];
    forall k | 1 <= k < |tag| - 1 ensures tag[k] != '>' {
      assert tag[k] == s[k];
    }
    ClosedBefore(s, j);
    forall i | Unclosed(s, i) ensures i > j {
      assert s[i] == '<';
    }
  }

  /** The first step of `Tokenize` and `StripTags` at a closed '<'. */
  lemma TagStep(s: string, j: nat)
    requires |s| > 0 && s[0] == '<' && IndexOf(s, '>', 1) == Some(j)
    ensures IsTag(s[..j + 1])
    ensures Tokenize(s) == [s[..j + 1]] + Tokenize(s[j + 1..])
    ensures Concat(Tokenize(s)) == s[..j + 1] + Concat(Tokenize(s[j + 1..]))
    ensures VisibleText(Tokenize(s)) == VisibleText(Tokenize(s[j + 1..]))
    ensures StripTags(s) == StripTags(s[j + 1..])
    ensures forall i :: Unclosed(s, i) ==> i > j
  {
    ClosedPrefix(s, j);
    var tag := s[..j + 1];
    var rest := Tokenize(s[j + 1..]);
    assert Tokenize(s) == [tag] + rest;
    assert ([tag] + rest)[1..] == rest;
    assert Concat(Tokenize(s)) == tag + Concat(rest);
    assert Visible(tag) == "";
    assert VisibleText(Tokenize(s)) == Visible(tag) + VisibleText(rest);
  }

  /** The first step of `Tokenize` and `StripTags` at a '<' that no '>' follows. */
  lemma DanglingStep(s: string)
    requires |s| > 0 && s[0] == '<' && IndexOf(s, '>', 1).None?
    ensures Unclosed(s, 0)
    ensures Tokenize(s) == Tokenize(s[1..])
    ensures StripTags(s) == [s[0]] + StripTags(s[1..])
  {
  }

  /** A non-empty prefix free of '<' is a text run, and no unclosed '<' lies inside it. */
  lemma PlainPrefix(s: string, k: nat)
    requires 0 < k <= |s|
    requires forall i :: 0 <= i < k ==> s[i] != '<'
    ensures IsText(s[..k])
    ensures s == s[..k] + s[k..]
    ensures forall i :: Unclosed(s, i) ==> i >= k
  {
    var run := s[..k];
    forall i | 0 <= i < |run| ensures run[i] != '<' {
      assert run[i] == s[i];
    }
    forall i | Unclosed(s, i) ensures i >= k {
      assert s[i] == '<';
    }
    assert run + s[k..] == s;
  }

  /** The leading text run: free of '<', and no unclosed '<' lies inside it. */
  lemma TextRun(s: string)
    requires |s| > 0 && s[0] != '<'
    ensures 0 < RunLength(s) && IsText(s[..RunLength(s)])
    ensures s == s[..RunLength(s)] + s[RunLength(s)..]
    ensures forall i :: Unclosed(s, i) ==> i >= RunLength(s)
  {
    PlainPrefix(s, RunLength(s));
  }

  /** The first step of `Tokenize` at a text run. */
  lemma TextStep(s: string)
    requires |s| > 0 && s[0] != '<'
    ensures 0 < RunLength(s) && IsText(s[..RunLength(s)])
    ensures Tokenize(s) == [s[..RunLength(s)]] + Tokenize(s[RunLength(s)..])
    ensures Concat(Tokenize(s)) == s[..RunLength(s)] + Concat(Tokenize(s[RunLength(s)..]))
    ensures VisibleText(Tokenize(s)) == s[..RunLength(s)] + VisibleText(Tokenize(s[RunLength(s)..]))
    ensures s == s[..RunLength(s)] + s[RunLength(s)..]
    ensures forall i :: Unclosed(s, i) ==> i >= RunLength(s)
  {
    TextRun(s);
    var k := RunLength(s);
    var run := s[..k];
    var rest := Tokenize(s[k..]);
    assert Tokenize(s) == [run] + rest;
    assert ([run] + rest)[1..] == rest;
    assert !IsTag(run);
  }

  /** On a line whose tags are closed, a leading '<' has a '>' after it. */
  lemma ClosedOpener(s: string)
    requires |s| > 0 && s[0] == '<' && TagsClosed(s)
    ensures IndexOf(s, '>', 1).Some?
  {
    assert !Unclosed(s, 0);
  }

  /**
   * On a closed line the first token is a prefix of the line, and the rest
   * of the line is closed as well.
   */
  lemma ClosedHead(s: string) returns (k: nat)
    requires |s| > 0 && TagsClosed(s)
    ensures 0 < k <= |s| && s == s[..k] + s[k..]
    ensures Concat(Tokenize(s)) == s[..k] + Concat(Tokenize(s[k..]))
    ensures TagsClosed(s[k..])
  {
    if s[0] == '<' {
      ClosedOpener(s);
      var j := IndexOf(s, '>', 1).value;
      TagStep(s, j);
      k := j + 1;
    } else {
      TextStep(s);
      k := RunLength(s);
    }
    ClosedSuffix(s, k);
  }

  /** When every tag is closed, the tokens put back together give the line exactly. */
  lemma {:induction false} ClosedTokenizeReproduces(s: string)
    requires TagsClosed(s)
    ensures Concat(Tokenize(s)) == s
    decreases |s|
  {
    if |s| > 0 {
      var k := ClosedHead(s);
      ClosedTokenizeReproduces(s[k..]);
    }
  }

  /** Tokenizing never adds characters, and an unclosed '<' is lost. */
  lemma {:induction false} TokenizeShrinks(s: string)
    ensures |Concat(Tokenize(s))| <= |s|
    ensures !TagsClosed(s) ==> |Concat(Tokenize(s))| < |s|
    decreases |s|
  {
    if |s| == 0 {
    } else if s[0] == '<' {
      match IndexOf(s, '>', 1)
      case Some(j) =>
        TagStep(s, j);
        TokenizeShrinks(s[j + 1..]);
        if !TagsClosed(s) {
          var i :| 0 <= i < |s| && Unclosed(s, i);
          UnclosedSuffix(s, j + 1, i);
        }
      case None =>
        DanglingStep(s);
        TokenizeShrinks(s[1..]);
    } else {
      var k := RunLength(s);
      TextStep(s);
      TokenizeShrinks(s[k..]);
      if !TagsClosed(s) {
        var i :| 0 <= i < |s| && Unclosed(s, i);
        UnclosedSuffix(s, k, i);
      }
    }
  }

  /** The tokens reproduce the line exactly when, and only when, every '<' is closed. */
  lemma TokenizeExact(s: string)
    ensures Concat(Tokenize(s)) == s <==> TagsClosed(s)
  {
    TokenizeShrinks(s);
    if TagsClosed(s) {
      ClosedTokenizeReproduces(s);
    }
  }

  /** Stripping tags from a token followed by more text strips the token on its own. */
  lemma {:induction false} StripToken(t: string, rest: string)
    requires IsToken(t)
    ensures StripTags(t + rest) == Visible(t) + StripTags(rest)
    decreases |t|
  {
    var s := t + rest;
    if IsTag(t) {
      var n := |t| - 1;
      assert s[0] == '<' && s[n] == '>';
      var r := IndexOf(s, '>', 1);
      assert r.Some?;
      assert r.value == n;
      assert s[n + 1..] == rest;
    } else {
      assert s[0] == t[0] && s[0] != '<';
      assert s[1..] == t[1..] + rest;
      if |t| == 1 {
        assert t[1..] + rest == rest;
      } else {
        StripToken(t[1..], rest);
      }
    }
  }

  /** The tokens after the first are tokens too. */
  lemma AllTokensTail(ts: seq<string>)
    requires |ts| > 0 && AllTokens(ts)
    ensures IsToken(ts[0]) && AllTokens(ts[1..])
  {
    forall i | 0 <= i < |ts[1..]| ensures IsToken(ts[1..][i]) {
      assert ts[1..][i] == ts[i + 1];
    }
  }

  /** Joining strings is associative. */
  lemma Regroup(a: string, b: string, c: string)
    ensures (a + b) + c == a + (b + c)
  {
  }

  /** Stripping a run of tokens followed by more text. */
  lemma {:induction false} StripTokens(ts: seq<string>, rest: string)
    requires AllTokens(ts)
    ensures StripTags(Concat(ts) + rest) == VisibleText(ts) + StripTags(rest)
    decreases |ts|
  {
    if |ts| > 0 {
      AllTokensTail(ts);
      var t := ts[0];
      var tail := Concat(ts[1..]);
      var shown := VisibleText(ts[1..]);
      assert Concat(ts) == t + tail;
      Regroup(t, tail, rest);
      StripToken(t, tail + rest);
      StripTokens(ts[1..], rest);
      assert VisibleText(ts) == Visible(t) + shown;
      Regroup(Visible(t), shown, StripTags(rest));
    } else {
      assert Concat(ts) + rest == rest;
    }
  }

  /** Text without any '<' has nothing to strip. */
  lemma StripPlain(s: string)
    requires forall k :: 0 <= k < |s| ==> s[k] != '<'
    ensures StripTags(s) == s
  {
    if |s| > 0 {
      StripToken(s, "");
      assert s + "" == s;
    }
  }

  /**
   * Stripping keeps at least as many characters as the text runs of the
   * tokenizer, and strictly more when some '<' is unclosed: the replacement
   * keeps that '<', while the match skips it.
   */
  lemma {:induction false} StripKeepsAtLeastText(s: string)
    ensures TextChars(Tokenize(s)) <= |StripTags(s)|
    ensures !TagsClosed(s) ==> TextChars(Tokenize(s)) < |StripTags(s)|
    decreases |s|
  {
    if |s| == 0 {
    } else if s[0] == '<' {
      match IndexOf(s, '>', 1)
      case Some(j) =>
        TagStep(s, j);
        StripKeepsAtLeastText(s[j + 1..]);
        if !TagsClosed(s) {
          var i :| 0 <= i < |s| && Unclosed(s, i);
          UnclosedSuffix(s, j + 1, i);
        }
      case None =>
        DanglingStep(s);
        StripKeepsAtLeastText(s[1..]);
    } else {
      var k := RunLength(s);
      TextStep(s);
      StripToken(s[..k], s[k..]);
      StripKeepsAtLeastText(s[k..]);
      if !TagsClosed(s) {
        var i :| 0 <= i < |s| && Unclosed(s, i);
        UnclosedSuffix(s, k, i);
      }
    }
  }
}
