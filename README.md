# Typewriter effect of the product preview

The landing page's preview panel shows a terminal that types a command,
pauses, erases it and types the next one, forever. The logic behind it is
the `useTypewriter` hook: three state cells (the word `index`, the typed
prefix `text` and the `deleting` flag) and an effect that, on every run,
takes exactly one of four branches:

- **typing**: append the next character of the current word;
- **pausing**: the word is complete, switch to deleting;
- **deleting**: drop the last character;
- **advancing**: the text is empty, stop deleting and move to the next word,
  wrapping round at the end of the list.

The hook returns the text followed by a block cursor (U+2588, the constant
`CURSOR`) while typing, and the bare text while deleting.

The project has two modules:

- `Typewriter` (`typewriter.dfy`): the state `State(index, text, deleting)`,
  the transition `Step(words, s)`, its iteration `Iterate(words, s, n)`,
  the displayed string `Display(s)`, and the lemmas about them — the four
  transitions, the invariant of every reachable state, progress through a
  full cycle of one word, and periodicity over the whole list.
- `TypewriterHook` (`hook.dfy`): the hook as a class `Hook` whose fields are
  the three state cells; `Tick` is one run of the effect, updating the
  fields in place and returning which timer preceded the update; `Typed` is
  the returned string. Their contracts tie them to `Step` and `Display`.

Every operation requires a non-empty word list: the hook computes
`index % words.length` and reads the length of the resulting word, which on
an empty list is an error. `Step` is defined on every state, not only on
reachable ones, and computes the new text as a slice of the current word,
as the hook does; a slice past the end of the word gives the whole word
(`Slice`). That the text is a prefix of the current word, and so that a
deleting step drops the text's own last character, is then proved from the
invariant.

## Model

| member | source | states |
|---|---|---|
| Typewriter.Current | src/components/Preview.jsx:11 | the current word is one of the words, and is the word at `index` whenever the index is in range |
| Typewriter.Slice | src/components/Preview.jsx:14 | a slice from 0 is a prefix of the word, of the requested length or of the whole word when that is shorter |
| Typewriter.NextIndex | src/components/Preview.jsx:23 | the next index is in range and is `i + 1`, or 0 after the last word |
| Typewriter.TypingStep | src/components/Preview.jsx:12-14 | while typing an incomplete word, a step appends the word's next character to the text and keeps `index` and `deleting` |
| Typewriter.PauseStep | src/components/Preview.jsx:15-16 | while typing a complete word (an empty word included), the text is the whole word and a step only sets `deleting` |
| Typewriter.DeleteStep | src/components/Preview.jsx:18-20 | while deleting a non-empty text, a step drops the text's last character and keeps `index` and `deleting` |
| Typewriter.AdvanceStep | src/components/Preview.jsx:21-23 | while deleting with an empty text, a step clears `deleting` and moves to the next index, wrapping to 0 after the last word |
| Typewriter.StepChangesOneCharacter | src/components/Preview.jsx:12-24 | a step lengthens the text by one character keeping what was typed, shortens it by one keeping the rest, or leaves it unchanged |
| Typewriter.StepPreservesInv | src/components/Preview.jsx:11-24 | a step keeps the index in range and the text a prefix of the current word |
| Typewriter.IterateInv | src/components/Preview.jsx:9-27 | any number of steps from a state satisfying the invariant keep it |
| Typewriter.ReachableInv | src/components/Preview.jsx:5-27 | in every state reachable from the initial one, the index is below the number of words and the text is a prefix of the current word |
| Typewriter.TypeRun | src/components/Preview.jsx:13-14 | k typing steps from an empty text show the first k characters of the word |
| Typewriter.DeleteRun | src/components/Preview.jsx:19-20 | k deleting steps from the whole word leave all but its last k characters |
| Typewriter.FullCycle | src/components/Preview.jsx:11-25 | from `(i, "", false)`, L typing steps show the whole word with the cursor, the pause step shows the whole word without it, L deleting steps empty the text, and the advance step reaches index `i + 1` modulo the number of words with an empty text, typing: 2L + 2 steps in all |
| Typewriter.Cycles | src/components/Preview.jsx:11-25 | `count` successive full cycles from an empty text at word i end with an empty text, typing, at the word `count` advances later |
| Typewriter.AdvanceByInOrder | src/components/Preview.jsx:23 | advancing visits the words in list order and wraps to word 0 after the last |
| Typewriter.Periodic | src/components/Preview.jsx:5-27 | after one full cycle per word the hook is back in its initial state |
| Typewriter.DisplayShape | src/components/Preview.jsx:29 | the returned string starts with the text, is followed by `CURSOR` exactly when not deleting, and is the bare text exactly when deleting |
| Typewriter.DisplayDetermines | src/components/Preview.jsx:29 | when no text contains the cursor glyph, the returned string determines the text and the deleting flag |
| Typewriter.PreviewFirstCommand | src/components/Preview.jsx:32-36 | with the preview's three commands, the first is shown in full with the cursor after 36 steps, and after 74 steps typing starts on the second |
| TypewriterHook.Hook.constructor | src/components/Preview.jsx:5-7 | the cells start at index 0, empty text, not deleting, and satisfy the invariant |
| TypewriterHook.Hook.Tick | src/components/Preview.jsx:9-25 | one run of the effect sets the cells to `Step` of their old values, keeps the invariant, and reports the timer of the branch taken (speed, pause, speed / 1.6, or none) |
| TypewriterHook.Hook.Typed | src/components/Preview.jsx:29 | the returned string holds a prefix of the current word followed by the cursor while typing and by nothing while deleting |

## Left out

- Timers: `setTimeout`, `clearTimeout` on cleanup and the delay values `speed`, `pause` and `speed / 1.6` are not modelled as time; each step only carries a label (`Delay`) naming which delay precedes it. A cleanup that cancels a pending timer before it fires is not modelled: every step in the model completes.
- React scheduling: the effect's dependency list, re-rendering, and the batching of `setDeleting(false)` with `setIndex` into one render are taken as given; the advance branch is one step of the model.
- String length: JavaScript measures strings in UTF-16 code units, the model in Unicode characters; the preview's commands are ASCII, where the two agree.
- The cursor glyph in the source file is a mis-decoded rendering of U+2588; the model uses U+2588 as the constant `CURSOR`.
- The `Preview` markup, `Hero.jsx` (cursor trail particles, parallax, the embedded 3D scene), `AboutFeatures.jsx`, `CTAFooter.jsx` and `App.jsx`: static markup, floating-point animation and DOM work with no logic to state.
