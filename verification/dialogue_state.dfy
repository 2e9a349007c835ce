/**
 * The dialogue cursor of `useDialogueState`: an index into a fixed script of
 * lines that advances by one with wrap-around and can jump to a line by id.
 */
module DialogueState {
  import opened Optional

  /** One scripted line: `{ id, text, action?, motion? }`. */
  datatype Dialogue = Dialogue(id: string, text: string, action: Option<string>, motion: Option<string>)

  type Script = seq<Dialogue>

  /** The cursor can be dereferenced: `currentDialogue` is defined. */
  predicate ValidIndex(script: Script, index: nat)
  {
    index < |script|
  }

  /** `useState(0)`: every session starts on the first line. */
  function InitialIndex(script: Script): (index: nat)
    ensures |script| > 0 ==> ValidIndex(script, index) && script[index] == script[0]
  {
    0
  }

  /** `currentDialogue`, i.e. `dialogues[dialogueIndex]`. */
  function Current(script: Script, index: nat): (d: Dialogue)
    requires ValidIndex(script, index)
    ensures d in script
  {
    script[index]
  }

  /**
   * `nextDialogue`: `(prev + 1) % dialogues.length`. An empty script is
   * outside the contract: the source divides by zero there.
   */
  function Next(script: Script, index: nat): (next: nat)
    requires |script| > 0
    ensures ValidIndex(script, next)
    ensures index + 1 < |script| ==> next == index + 1
    ensures index + 1 == |script| ==> next == 0
  {
    (index + 1) % |script|
  }

  /** `k` successive calls of `nextDialogue`. */
  function Advance(script: Script, index: nat, k: nat): (r: nat)
    requires |script| > 0
    decreases k
  {
    if k == 0 then index else Next(script, Advance(script, index, k - 1))
  }

  /** Below the last line, `k` advances just add `k`. */
  lemma {:induction false} AdvanceUpward(script: Script, index: nat, k: nat)
    requires index + k < |script|
    ensures Advance(script, index, k) == index + k
    decreases k
  {
    if k > 0 {
      AdvanceUpward(script, index, k - 1);
    }
  }

  /** Advancing `a` then `b` lines is advancing `a + b` lines. */
  lemma {:induction false} AdvanceCompose(script: Script, index: nat, a: nat, b: nat)
    requires |script| > 0
    ensures Advance(script, index, a + b) == Advance(script, Advance(script, index, a), b)
    decreases b
  {
    if b > 0 {
      AdvanceCompose(script, index, a, b - 1);
    }
  }

  /** Calling `nextDialogue` once per line brings the cursor back to where it was. */
  lemma AdvanceFullCycle(script: Script, index: nat)
    requires ValidIndex(script, index)
    ensures Advance(script, index, |script|) == index
  {
    var n := |script|;
    AdvanceUpward(script, index, n - 1 - index);
    assert Advance(script, index, n - index) == 0;
    AdvanceCompose(script, index, n - index, index);
    if index > 0 {
      AdvanceUpward(script, 0, index);
    }
  }

  /** `Array.prototype.findIndex` by id, scanning from position `from`. */
  function FindFrom(script: Script, id: string, from: nat): (r: Option<nat>)
    requires from <= |script|
    ensures r.Some? ==> from <= r.value < |script| && script[r.value].id == id
    ensures r.Some? ==> forall k :: from <= k < r.value ==> script[k].id != id
    ensures r.None? ==> forall k :: from <= k < |script| ==> script[k].id != id
    decreases |script| - from
  {
    if from == |script| then None
    else if script[from].id == id then Some(from)
    else FindFrom(script, id, from + 1)
  }

  /** `dialogues.findIndex((d) => d.id === id)`, with `-1` written as `None`. */
  function FindIndex(script: Script, id: string): (r: Option<nat>)
    ensures r.Some? ==> r.value < |script| && script[r.value].id == id
    ensures r.Some? ==> forall k :: 0 <= k < r.value ==> script[k].id != id
    ensures r.None? ==> forall k :: 0 <= k < |script| ==> script[k].id != id
  {
    FindFrom(script, id, 0)
  }

  /** `jumpToId`: move to the first line with that id; an unknown id is ignored. */
  function JumpToId(script: Script, index: nat, id: string): (next: nat)
    ensures (forall k :: 0 <= k < |script| ==> script[k].id != id) ==> next == index
    ensures (exists k :: 0 <= k < |script| && script[k].id == id) ==>
              ValidIndex(script, next) && Current(script, next).id == id
              && forall k :: 0 <= k < next ==> script[k].id != id
  {
    match FindIndex(script, id)
    case Some(i) => i
    case None => index
  }

  /** Neither operation can move a valid cursor off the script. */
  lemma OperationsKeepCursorValid(script: Script, index: nat, id: string)
    requires ValidIndex(script, index)
    ensures ValidIndex(script, Next(script, index))
    ensures ValidIndex(script, JumpToId(script, index, id))
  {
  }
}
