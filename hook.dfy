/**
 * The `useTypewriter` hook as the component holds it: three state cells
 * that each run of the effect updates in place, and the string the hook
 * hands back to the preview panel.
 */
module TypewriterHook {
  import opened Typewriter

  class Hook {
    /** The words to cycle through, fixed for the hook's lifetime. */
    const words: seq<string>
    var index: nat
    var text: string
    var deleting: bool

    /** The three cells as one state of the transition system. */
    function Cells(): State
      reads this
    {
      State(index, text, deleting)
    }

    ghost predicate Valid()
      reads this
    {
      |words| > 0 && Inv(words, Cells())
    }

    /** Mounting the hook: index 0, no text, typing. */
    constructor (words: seq<string>)
      requires |words| > 0
      ensures Valid()
      ensures this.words == words && Cells() == Initial()
    {
      this.words := words;
      index, text, deleting := 0, "", false;
    }

    /** One run of the effect: the branch taken, the cells it sets and the
        timer that precedes the update. */
    method Tick() returns (delay: Delay)
      requires Valid()
      modifies this
      ensures Valid()
      ensures Cells() == Step(words, old(Cells()))
      ensures delay == DelayOf(PhaseOf(words, old(Cells())))
    {
      StepPreservesInv(words, Cells());
      var current := words[index % |words|];
      if !deleting {
        if |text| < |current| {
          delay := Speed;
          text := current[..|text| + 1];
        } else {
          delay := Pause;
          deleting := true;
        }
      } else {
        if |text| > 0 {
          delay := DeleteSpeed;
          text := current[..|text| - 1];
        } else {
          delay := Immediate;
          deleting := false;
          index := (index + 1) % |words|;
        }
      }
    }

    /** The string the hook returns: the typed text, then the cursor while
        typing. The text shown is always a prefix of the current word. */
    function Typed(): (d: string)
      requires Valid()
      reads this
      ensures |text| <= |d| && IsPrefix(d[..|text|], Current(words, Cells()))
      ensures d[|text|..] == if deleting then "" else CURSOR
    {
      Display(Cells())
    }
  }
}
