# Text scramble and active section, modelled in Dafny

This project models the two pieces of logic in the portfolio page's
`script.js`.

- **`TextScramble`.** This animator moves the text of one element from what it shows now to a new text.
  - `setText` builds a queue with one cell per character position, up to the longer of the two texts. Each cell holds the old character (`from`), the new one (`to`) and a random window `[start, end)` of frames.
  - Every animation frame, `update` walks the queue once. A cell shows its old character before `start`, a placeholder drawn from the alphabet `this.chars` inside its window, and its new character from `end` on. The placeholder is stored in the cell and is re-drawn only when it is unset or on a re-roll.
  - `update` resolves the transition's promise once every cell has settled. Otherwise it schedules the next frame and advances the frame counter.
- **The active-section rule of `updateActiveLink`.** A section is active when the scroll position lies within 100 pixels above its top, up to 100 pixels above its bottom. The last such section in document order gives the id of the link to highlight. When there is none, the id is `''`.

Files:

- `wrappers.dfy` (module `Wrappers`): the `Option` type.
- `scramble_model.dfy` (module `ScrambleModel`): the animator as values.
  - `BuildQueue`, `StepCell`, `Update` and `SetText` are the operations. `Update` is defined by the loop of `update`, one visit at a time (`Visit`, `SweepTo`).
  - `StepAll`, `Render` and `CountSettled` describe one frame declaratively, cell by cell, without the loop's order of visits. `UpdateMeaning` proves that the loop computes them. They share the per-cell rules with the loop:
    - `StepCell`'s own contract states, in both directions, which cells take a new placeholder and that they take the drawn one.
    - `RenderCell` is the source's three-way choice between old character, placeholder and new character.
  - `Run` repeats `Update` over several frames. The lemmas about it cover settling, stability and completion.
  - `WellFormed` is the invariant kept between calls.
- `text_scramble.dfy` (module `Scramble`): the class `TextScramble`.
  - Its fields are updated in place by `SetText` and `Update`, and each method is proved equal to the model.
  - The loops of `setText` and `update` are the methods `NewQueue` and `Pass` (with its body `VisitAt`). Their loop invariants tie them to `BuildQueue` and `SweepTo`.
- `active_link.dfy` (module `ActiveLink`): the section selection.
  - `SelectActive` is the `forEach` loop that overwrites the active id. `LastInWindow` is its specification.

Randomness is injected. The two `Math.random` draws of `setText` for position `i` become `rolls[i]`. Those rolls fit the code's bounds when `RollsFit` holds: `start < 40` and `offset < 40`.

Each `update` takes one `Draw` per cell. A draw has two parts:

- whether the re-roll test `Math.random() < 0.28` succeeds;
- the alphabet character the second draw selects.

The draw carries the character itself, not its index. `DrawsFrom(draws, chars)` states that each one is a character of the animator's alphabet.

The browser's animation frames become explicit calls of `Update`. The pending frame request becomes the flag `pending`, and the promise becomes the flag `resolved`. The element is the sequence of tokens last written to it: a `Plain` character, or a `Dud` placeholder that the source wraps in a `<span class="dud">`. Its `innerText` is `Text(display)`.

## Model

| member | source | states |
|---|---|---|
| ScrambleModel.BuildQueue | script.js:155-162 | the queue has one cell per position up to n; cell i goes from the old text's character at i to the new text's (none past either end), starts at the roll's start and ends `offset` frames later, has no placeholder yet, and respects the bounds 0 <= start < 40, start <= end < start + 40 when the rolls fit |
| ScrambleModel.StepCell | script.js:177-181 | a visit keeps a cell's characters and window, leaves it with a placeholder whenever it is inside its window, gives a cell inside its window that has no placeholder or re-rolls exactly the drawn character, changes no other cell's placeholder, and keeps the cell within its bounds |
| ScrambleModel.CountSettled | script.js:171-176 | the count of settled cells among the first n is at most n, and equals n exactly when every one of them has reached its `end` |
| ScrambleModel.MaxEnd | script.js:174 | the largest `end` in the queue: no cell ends later, some cell ends there, and an empty queue gives 0 |
| ScrambleModel.SweepTo | script.js:172-186 | the loop of `update` after n visits keeps the queue's length and has not touched the cells it has not yet visited |
| ScrambleModel.SweepCells | script.js:172-181 | after n visits, each of those cells is the cell stepped on its own draw |
| ScrambleModel.SweepOutput | script.js:173-186 | after n visits, the output is the rendering of those cells once stepped: the target for a settled cell, the placeholder inside the window, the source before `start` |
| ScrambleModel.SweepCount | script.js:171-176 | after n visits, `complete` is the number of those cells that have settled |
| ScrambleModel.UpdateMeaning | script.js:169-187 | one whole loop steps every cell, outputs the rendering of the stepped queue, counts the queue's length exactly when every cell is settled, and, when all are settled, leaves the queue unchanged and outputs exactly the target text |
| ScrambleModel.SettledFrame | script.js:174-176 | at a frame where all cells are settled no draw changes a cell and the output is the target text |
| ScrambleModel.SettledRender | script.js:174-176 | when every cell is settled, the output of the first n cells is their target characters in order |
| ScrambleModel.Update | script.js:169-194 | a frame keeps the queue's length and every cell's characters and window; when every cell is settled it resolves, schedules nothing, keeps the frame counter and the queue and shows the target text; otherwise it schedules a frame and advances the counter by exactly 1 |
| ScrambleModel.SetText | script.js:151-166 | a new transition, whatever the earlier state, has one cell per position up to the longer text, spells the new text with its targets, has frame counter 0 or 1 after its first update, is resolved exactly when every cell settles at frame 0, and then shows exactly the new text |
| ScrambleModel.SetTextCells | script.js:152-161 | after `setText`, cell i goes from the character shown at position i to the new text's character at i (none past either end) over the window `rolls[i]` gives it |
| ScrambleModel.SetTextTiming | script.js:159-165 | with rolls in range every new cell keeps 0 <= start < 40 and start <= end < start + 40; the first update leaves the counter at 0 exactly when every cell is already settled, at 1 otherwise |
| ScrambleModel.TargetsSpell | script.js:157-158 | a queue whose cell i targets the new text's character at i spells the new text, cut to the queue's length |
| ScrambleModel.TargetsOfSameTiming | script.js:180 | rewriting placeholders never changes the text a queue spells |
| ScrambleModel.Run | script.js:191-192 | repeated frames keep every cell's characters and window, advance the counter by at most one per frame, and never un-resolve |
| ScrambleModel.SettledStaysSettled | script.js:174-176 | a settled cell stays settled and keeps showing its target at every later frame |
| ScrambleModel.ResolvedIsStable | script.js:188-189 | once resolved with every cell settled, further frames change neither queue, counter nor display |
| ScrambleModel.RunCompletes | script.js:174-176 | once the counter can pass every cell's `end`, the transition resolves and the element shows exactly the target text |
| ScrambleModel.TransitionCompletes | script.js:151-194 | from any state, a transition started with rolls in range resolves and shows exactly the new text after 78 more frames, whatever the placeholder draws |
| ScrambleModel.FreshQueueWellFormed | script.js:155-164 | a queue of in-range cells without placeholders, with the counter at 0 and nothing scheduled or resolved, satisfies the animator's invariant |
| ScrambleModel.SetTextEstablishes | script.js:151-166 | after `setText` every cell is within bounds, every placeholder is from the alphabet, the counter is at most the last `end`, a scheduled frame means not resolved, and resolved means all settled and the target text shown |
| ScrambleModel.UpdatePreserves | script.js:169-194 | every frame keeps that invariant |
| Scramble.TextScramble.constructor | script.js:145-149 | a new animator uses the alphabet `!<>-_\/[]{}—=+*^?#________`, shows its element's text, satisfies the invariant and has no transition started yet |
| Scramble.TextScramble.SetText | script.js:151-166 | the fields become exactly the model's new transition, computed from the text the element shows; the invariant holds and a transition has started |
| Scramble.TextScramble.Update | script.js:169-194 | called only once a transition has started, it sets the fields to exactly the model's next frame and keeps the invariant |
| Scramble.NewQueue | script.js:155-162 | the `push` loop builds exactly the queue `BuildQueue` describes |
| Scramble.Pass | script.js:170-186 | the loop over the queue ends with the cells, output and count of the whole loop |
| Scramble.VisitAt | script.js:173-185 | one iteration, with the source's three branches, moves the loop state from n visits to n + 1 |
| ActiveLink.LastInWindow | script.js:48-58 | the chosen index, if any, is of a section whose window holds the scroll position and no later section's window does; there is none exactly when no window holds it |
| ActiveLink.SelectActive | script.js:48-58 | the active id is `''` when no section's window holds the scroll position, and otherwise the id of the last section in document order whose window holds it |
| ActiveLink.DisjointWindowsPickTheOne | script.js:50-57 | for sections laid out one after another without overlap, the active id is that of the section in view |

## Left out

- The theme toggle, the mobile navigation toggle, the link styling of `updateActiveLink`, the custom cursor, the magnetic buttons, the velocity skew and the phrase-cycling and hover handlers. These are DOM, storage, timer and floating-point effects with no logic of their own.
- `requestAnimationFrame` and `cancelAnimationFrame`. Frames are explicit calls of `Update`, and a scheduled frame is the flag `pending`. `setText` clearing it stands for the cancellation.
- The `Promise`. Resolving is the flag `resolved`. A superseded transition's promise is simply never resolved, and the model does not keep the old one.
- `Math.random`. The draws are parameters. The 0.28 re-roll probability is only a boolean per draw, and the placeholder is the drawn alphabet character, not the index `Math.floor(Math.random() * this.chars.length)`.
- HTML and rendering. The output is a token sequence, not an HTML string. Reading `innerText` back from `innerHTML` is `Text(display)`. Two browser effects are therefore not modelled:
  - parsing of characters such as `<` in the text;
  - the way `innerText` collapses and trims whitespace and applies CSS `text-transform`, so that the old text a later `setText` reads can differ from the characters written.
- Strings are sequences of Dafny characters. JavaScript's UTF-16 code units (surrogate pairs counted as two) are not distinguished.
- Scramble.TextScramble.Update: requires the ghost flag `started`, which only `SetText` sets. In the source, `update` before any `setText` reads the undefined `this.queue` and throws before writing anything. The model does not include that error path; it rules the call out instead.
- Scramble.TextScramble.Update: the source mutates `this.queue[i].char` inside its loop. The model runs the loop on the queue as a value and writes the queue back once, so aliasing of the cells is not modelled.
- The alphabet is a constant field, as in the source. The model proves that placeholders come from it, not that draws are uniform.
- ActiveLink: positions are whole pixels. The browser's fractional `scrollY` and the layout that determines `offsetTop` and `offsetHeight` are not modelled.
