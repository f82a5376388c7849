/**
 * The typewriter effect of the product preview: a state machine over the
 * word index, the typed prefix and the deleting flag. Each run of the
 * hook's effect is one transition (Step); the hook returns the typed text
 * followed by a block cursor while typing (Display).
 */
module Typewriter {

  /** The glyph drawn after the typed text while typing: U+2588 FULL BLOCK. */
  const CURSOR: string := "\U{2588}"

  /** The three terminal commands the preview panel cycles through. */
  const PreviewCommands: seq<string> := [
    "invoke persistence --technique T1547",
    "simulate credential_access --mode spray",
    "exfiltrate --channel dns --rate stealth"
  ]

  /** The three state cells of the hook. */
  datatype State = State(index: nat, text: string, deleting: bool)

  /** Which branch of the effect a state takes. */
  datatype Phase = Typing | Pausing | Deleting | Advancing

  /** The timer that precedes a transition, as a label: `speed`, `pause`,
      `speed / 1.6`, or none (the advance happens within the effect). */
  datatype Delay = Speed | Pause | DeleteSpeed | Immediate

  /** Every state cell starts empty: index 0, no text, typing. */
  function Initial(): State {
    State(0, "", false)
  }

  /** The word being typed or deleted. The index is taken modulo the list length. */
  function Current(words: seq<string>, s: State): (w: string)
    requires |words| > 0
    ensures w in words
    ensures s.index < |words| ==> w == words[s.index]
  {
    words[s.index % |words|]
  }

  /** The first k characters of w, or all of w when it is shorter: what
      `w.slice(0, k)` gives for a non-negative k. */
  function Slice(w: string, k: nat): (r: string)
    ensures IsPrefix(r, w)
    ensures |r| == if k <= |w| then k else |w|
  {
    if k <= |w| then w[..k] else w
  }

  predicate IsPrefix(p: string, w: string) {
    |p| <= |w| && p == w[..|p|]
  }

  /** The invariant of every reachable state: the index is in range and the
      text is a prefix of the current word. */
  predicate Inv(words: seq<string>, s: State) {
    s.index < |words| && IsPrefix(s.text, words[s.index])
  }

  function PhaseOf(words: seq<string>, s: State): Phase
    requires |words| > 0
  {
    if !s.deleting then
      if |s.text| < |Current(words, s)| then Typing else Pausing
    else
      if |s.text| > 0 then Deleting else Advancing
  }

  function DelayOf(p: Phase): Delay {
    match p
    case Typing => Speed
    case Pausing => Pause
    case Deleting => DeleteSpeed
    case Advancing => Immediate
  }

  /** One run of the effect. The new text is always a slice of the current
      word, never of the old text, exactly as the hook computes it. */
  function Step(words: seq<string>, s: State): State
    requires |words| > 0
  {
    var current := Current(words, s);
    match PhaseOf(words, s)
    case Typing => s.(text := Slice(current, |s.text| + 1))
    case Pausing => s.(deleting := true)
    case Deleting => s.(text := Slice(current, |s.text| - 1))
    case Advancing => State(NextIndex(words, s.index), s.text, false)
  }

  /** The index of the word after word i, wrapping round. */
  function NextIndex(words: seq<string>, i: nat): (r: nat)
    requires |words| > 0
    ensures r < |words|
    ensures i < |words| ==> r == if i + 1 == |words| then 0 else i + 1
  {
    var n := |words|;
    assert i + 1 == n ==> (i + 1) % n == n % n == 0;
    assert i + 1 < n ==> (i + 1) % n == i + 1;
    (i + 1) % n
  }

  /** The state after n runs of the effect. */
  function Iterate(words: seq<string>, s: State, n: nat): State
    requires |words| > 0
  {
    if n == 0 then s else Step(words, Iterate(words, s, n - 1))
  }

  /** The string the hook returns. */
  function Display(s: State): string {
    s.text + (if s.deleting then "" else CURSOR)
  }

  // ---------------------------------------------------------------------
  // The four transitions

  /** Typing appends the next character of the current word. */
  lemma TypingStep(words: seq<string>, s: State)
    requires |words| > 0 && Inv(words, s)
    requires !s.deleting && |s.text| < |Current(words, s)|
    ensures PhaseOf(words, s) == Typing
    ensures Step(words, s) == State(s.index, s.text + [Current(words, s)[|s.text|]], false)
  {
  }

  /** Once the word is complete, only the deleting flag changes. */
  lemma PauseStep(words: seq<string>, s: State)
    requires |words| > 0 && Inv(words, s)
    requires !s.deleting && |s.text| == |Current(words, s)|
    ensures PhaseOf(words, s) == Pausing
    ensures s.text == Current(words, s)
    ensures Step(words, s) == State(s.index, s.text, true)
  {
  }

  /** Deleting drops the last character of the text. */
  lemma DeleteStep(words: seq<string>, s: State)
    requires |words| > 0 && Inv(words, s)
    requires s.deleting && |s.text| > 0
    ensures PhaseOf(words, s) == Deleting
    ensures Step(words, s) == State(s.index, s.text[..|s.text| - 1], true)
  {
  }

  /** Once the text is empty, typing resumes on the next word, wrapping round. */
  lemma AdvanceStep(words: seq<string>, s: State)
    requires |words| > 0 && Inv(words, s)
    requires s.deleting && s.text == ""
    ensures PhaseOf(words, s) == Advancing
    ensures Step(words, s) == State(if s.index + 1 == |words| then 0 else s.index + 1, "", false)
  {
  }

  /** A step changes the text by exactly one character, or not at all. */
  lemma StepChangesOneCharacter(words: seq<string>, s: State)
    requires |words| > 0 && Inv(words, s)
    ensures var r := Step(words, s);
            match PhaseOf(words, s)
            case Typing => |r.text| == |s.text| + 1 && s.text == r.text[..|s.text|]
            case Deleting => |r.text| + 1 == |s.text| && r.text == s.text[..|r.text|]
            case _ => r.text == s.text
  {
  }

  // ---------------------------------------------------------------------
  // Invariants

  lemma StepPreservesInv(words: seq<string>, s: State)
    requires |words| > 0 && Inv(words, s)
    ensures Inv(words, Step(words, s))
  {
  }

  /** Invariants preserved over any number of steps. */
  lemma {:induction false} IterateInv(words: seq<string>, s: State, n: nat)
    requires |words| > 0 && Inv(words, s)
    ensures Inv(words, Iterate(words, s, n))
  {
    if n > 0 {
      IterateInv(words, s, n - 1);
      StepPreservesInv(words, Iterate(words, s, n - 1));
    }
  }

  /** Every reachable state has its index in range and its text a prefix of
      the current word. */
  lemma ReachableInv(words: seq<string>, n: nat)
    requires |words| > 0
    ensures var s := Iterate(words, Initial(), n);
            s.index < |words| && IsPrefix(s.text, Current(words, s))
  {
    IterateInv(words, Initial(), n);
  }

  // ---------------------------------------------------------------------
  // Progress

  lemma {:induction false} IterateAdd(words: seq<string>, s: State, m: nat, n: nat)
    requires |words| > 0
    ensures Iterate(words, s, m + n) == Iterate(words, Iterate(words, s, m), n)
  {
    if n > 0 {
      IterateAdd(words, s, m, n - 1);
    }
  }

  /** k typing steps from an empty text type the first k characters. */
  lemma {:induction false} TypeRun(words: seq<string>, i: nat, k: nat)
    requires i < |words| && k <= |words[i]|
    ensures Iterate(words, State(i, "", false), k) == State(i, words[i][..k], false)
  {
    if k > 0 {
      TypeRun(words, i, k - 1);
    }
  }

  /** k deleting steps from a full word leave its first |w| - k characters. */
  lemma {:induction false} DeleteRun(words: seq<string>, i: nat, k: nat)
    requires i < |words| && k <= |words[i]|
    ensures Iterate(words, State(i, words[i], true), k)
         == State(i, words[i][..|words[i]| - k], true)
  {
    if k > 0 {
      DeleteRun(words, i, k - 1);
    }
  }

  /** The number of steps the effect takes to show and erase word i. */
  function CycleLength(words: seq<string>, i: nat): nat
    requires i < |words|
  {
    2 * |words[i]| + 2
  }

  /** One full cycle: |w| typing steps show the whole word with the cursor,
      one pause step starts deleting with the whole word shown, |w| deleting
      steps empty the text and one advance step moves to the next word. */
  lemma FullCycle(words: seq<string>, i: nat)
    requires i < |words|
    ensures var start, L := State(i, "", false), |words[i]|;
            && Iterate(words, start, L) == State(i, words[i], false)
            && Display(Iterate(words, start, L)) == words[i] + CURSOR
            && Iterate(words, start, L + 1) == State(i, words[i], true)
            && Display(Iterate(words, start, L + 1)) == words[i]
            && Iterate(words, start, 2 * L + 1) == State(i, "", true)
            && Iterate(words, start, CycleLength(words, i)) == State((i + 1) % |words|, "", false)
  {
    var start, L := State(i, "", false), |words[i]|;
    TypeRun(words, i, L);
    assert words[i][..L] == words[i];
    DeleteRun(words, i, L);
    IterateAdd(words, start, L + 1, L);
  }

  /** The steps taken by `count` full cycles starting at word i. */
  function CyclesLength(words: seq<string>, i: nat, count: nat): nat
    requires i < |words|
    decreases count
  {
    if count == 0 then 0
    else CycleLength(words, i) + CyclesLength(words, NextIndex(words, i), count - 1)
  }

  /** The word reached from word i after `count` advances. */
  function AdvanceBy(words: seq<string>, i: nat, count: nat): nat
    requires i < |words|
    decreases count
  {
    if count == 0 then i else AdvanceBy(words, NextIndex(words, i), count - 1)
  }

  lemma {:induction false} Cycles(words: seq<string>, i: nat, count: nat)
    requires i < |words|
    ensures Iterate(words, State(i, "", false), CyclesLength(words, i, count))
         == State(AdvanceBy(words, i, count), "", false)
    decreases count
  {
    if count > 0 {
      var j := NextIndex(words, i);
      FullCycle(words, i);
      IterateAdd(words, State(i, "", false), CycleLength(words, i), CyclesLength(words, j, count - 1));
      Cycles(words, j, count - 1);
    }
  }

  /** Advancing from word i visits the following words in order and wraps
      round to word 0 after the last one. */
  lemma {:induction false} AdvanceByInOrder(words: seq<string>, i: nat, count: nat)
    requires i < |words| && i + count <= |words|
    ensures AdvanceBy(words, i, count) == if i + count == |words| then 0 else i + count
    decreases count
  {
    if count > 0 {
      if i + 1 < |words| {
        AdvanceByInOrder(words, i + 1, count - 1);
      }
    }
  }

  /** The effect is periodic: after one cycle per word it is back in its
      initial state. */
  lemma Periodic(words: seq<string>)
    requires |words| > 0
    ensures Iterate(words, Initial(), CyclesLength(words, 0, |words|)) == Initial()
  {
    Cycles(words, 0, |words|);
    AdvanceByInOrder(words, 0, |words|);
  }

  // ---------------------------------------------------------------------
  // The displayed string

  /** The display is the text, followed by the cursor exactly when typing. */
  lemma DisplayShape(s: State)
    ensures var d := Display(s);
            && d[..|s.text|] == s.text
            && (s.deleting <==> |d| == |s.text|)
            && (!s.deleting <==> d[|s.text|..] == CURSOR)
  {
  }

  /** Two states whose texts hold no cursor glyph show the same string only
      if their texts and their phases of typing or deleting agree. */
  lemma DisplayDetermines(s1: State, s2: State)
    requires CURSOR[0] !in s1.text && CURSOR[0] !in s2.text
    requires Display(s1) == Display(s2)
    ensures s1.text == s2.text && s1.deleting == s2.deleting
  {
    var c := CURSOR[0];
    assert multiset(Display(s1))[c] == if s1.deleting then 0 else 1;
    assert multiset(Display(s2))[c] == if s2.deleting then 0 else 1;
    assert s1.text == Display(s1)[..|s1.text|];
  }

  /** On the preview's commands the first command is shown in full, with the
      cursor, after 36 steps, and erased again after 74. */
  lemma PreviewFirstCommand()
    ensures Display(Iterate(PreviewCommands, Initial(), 36)) == PreviewCommands[0] + CURSOR
    ensures Iterate(PreviewCommands, Initial(), 74) == State(1, "", false)
  {
    FullCycle(PreviewCommands, 0);
  }
}
