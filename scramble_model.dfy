/** The text-scramble animation of script.js, as values.
 *
 *  A transition moves the text shown in one element from the text it shows
 *  now to a target text. `setText` builds one cell per character position,
 *  each with a random window [start, end) of frames; every frame, `update`
 *  renders each cell as its old character (before `start`), as a placeholder
 *  drawn from a fixed alphabet (inside the window) or as its new character
 *  (from `end` on), and resolves the transition once every cell is settled.
 *
 *  The browser's random numbers are injected: a `Roll` per cell for the two
 *  draws of `setText`, a `Draw` per cell for the draws of one `update`.
 */
module ScrambleModel {
  import opened Wrappers

  /** The placeholder alphabet (`this.chars`); U+2014 is the em dash. */
  const Alphabet: string := "!<>-_\\/[]{}\U{2014}=+*^?#________"

  /** Both timing offsets are `Math.floor(Math.random() * 40)`. */
  const Range: nat := 40

  /** One rendered character: a plain one, or a placeholder wrapped in a
      `<span class="dud">`. Either way it contributes its character to the
      element's text. */
  datatype Token = Plain(c: char) | Dud(c: char)

  /** One character position of a transition. `source` and `target` hold one
      character, or none past the end of the shorter text; `glyph` is the
      placeholder last drawn for this position, unset until the first draw. */
  datatype Cell = Cell(source: string, target: string, start: nat, end: nat, glyph: Option<char>)

  /** The two random draws `setText` makes for one position. */
  datatype Roll = Roll(start: nat, offset: nat)

  /** The random draws `update` may make for one position: whether the
      placeholder is re-rolled (`Math.random() < 0.28`), and the character a
      new placeholder takes (`this.chars` at a random index). */
  datatype Draw = Draw(reroll: bool, glyph: char)

  /** The state of one animator: what its element shows, the queue of the
      transition in flight, the frame counter, whether a frame is scheduled,
      and whether the transition's completion has been resolved. */
  datatype Animator = Animator(display: seq<Token>, queue: seq<Cell>, frame: nat, pending: bool, resolved: bool)

  function Max(a: nat, b: nat): nat { if a < b then b else a }

  function Min(a: nat, b: nat): nat { if a < b then a else b }

  /** `s[i] || ''`: the character at position i, or the empty string past the end. */
  function CharAt(s: string, i: nat): string { if i < |s| then [s[i]] else [] }

  /** The plain text an element shows for a sequence of tokens (its innerText). */
  function Text(ts: seq<Token>): string { seq(|ts|, i requires 0 <= i < |ts| => ts[i].c) }

  /** A string written as plain characters. */
  function Chars(s: string): seq<Token> { seq(|s|, i requires 0 <= i < |s| => Plain(s[i])) }

  predicate RollFits(r: Roll) { r.start < Range && r.offset < Range }

  predicate RollsFit(rolls: seq<Roll>) { forall k :: 0 <= k < |rolls| ==> RollFits(rolls[k]) }

  /** Every placeholder the draws can give comes from the animator's
      alphabet `chars`. */
  predicate DrawsFrom(draws: seq<Draw>, chars: string)
  {
    forall k :: 0 <= k < |draws| ==> draws[k].glyph in chars
  }

  /** One round of draws per frame, each with one draw per cell. */
  predicate RoundsFit(rounds: seq<seq<Draw>>, n: nat)
  {
    forall k :: 0 <= k < |rounds| ==> |rounds[k]| == n
  }

  /** The timing bounds a cell built by `setText` keeps. */
  predicate WellTimed(c: Cell)
  {
    c.start < Range && c.start <= c.end < c.start + Range
  }

  /** A cell's placeholder, once drawn, comes from the alphabet `chars`. */
  predicate GlyphFrom(c: Cell, chars: string)
  {
    c.glyph.Some? ==> c.glyph.value in chars
  }

  /** The two cells agree on everything `setText` chose for them. */
  predicate SameTiming(a: Cell, b: Cell)
  {
    a.source == b.source && a.target == b.target && a.start == b.start && a.end == b.end
  }

  predicate Settled(c: Cell, frame: nat) { c.end <= frame }

  predicate Scrambling(c: Cell, frame: nat) { c.start <= frame < c.end }

  predicate AllSettled(q: seq<Cell>, frame: nat)
  {
    forall k :: 0 <= k < |q| ==> Settled(q[k], frame)
  }

  /** A scrambling cell has a placeholder to show. */
  predicate Drawn(c: Cell, frame: nat) { Scrambling(c, frame) ==> c.glyph.Some? }

  predicate AllDrawn(q: seq<Cell>, frame: nat)
  {
    forall k :: 0 <= k < |q| ==> Drawn(q[k], frame)
  }

  // ---------------------------------------------------------------------
  // setText: building the queue

  /** The cell the loop of `setText` pushes for position i. */
  function NewCell(oldText: string, newText: string, i: nat, roll: Roll): Cell
  {
    Cell(CharAt(oldText, i), CharAt(newText, i), roll.start, roll.start + roll.offset, None)
  }

  /** The queue after the loop of `setText` has pushed its first n cells,
      cell i timed by roll i. */
  function BuildQueue(oldText: string, newText: string, rolls: seq<Roll>, n: nat): (q: seq<Cell>)
    requires n <= |rolls|
    ensures |q| == n
    ensures forall i :: 0 <= i < n ==>
      q[i].source == CharAt(oldText, i) && q[i].target == CharAt(newText, i) &&
      q[i].start == rolls[i].start && q[i].end == rolls[i].start + rolls[i].offset &&
      q[i].glyph == None
    ensures RollsFit(rolls) ==> forall i :: 0 <= i < n ==> WellTimed(q[i])
  {
    if n == 0 then []
    else BuildQueue(oldText, newText, rolls, n - 1) + [NewCell(oldText, newText, n - 1, rolls[n - 1])]
  }

  // ---------------------------------------------------------------------
  // update: one frame

  /** One cell after `update` has visited it at the given frame: a
      scrambling cell without a placeholder, or one whose draw re-rolls,
      takes a fresh placeholder from the alphabet. */
  function StepCell(c: Cell, frame: nat, d: Draw): (r: Cell)
    ensures SameTiming(r, c) && Drawn(r, frame)
    ensures r.glyph != c.glyph ==>
      Scrambling(c, frame) && (c.glyph.None? || d.reroll) && r.glyph == Some(d.glyph)
    ensures Scrambling(c, frame) && (c.glyph.None? || d.reroll) ==> r.glyph == Some(d.glyph)
    ensures WellTimed(c) ==> WellTimed(r)
  {
    if !Settled(c, frame) && c.start <= frame && (c.glyph.None? || d.reroll) then
      c.(glyph := Some(d.glyph))
    else
      c
  }

  /** The whole queue after one `update`. */
  function StepAll(q: seq<Cell>, frame: nat, draws: seq<Draw>): (r: seq<Cell>)
    requires |draws| == |q|
  {
    seq(|q|, i requires 0 <= i < |q| => StepCell(q[i], frame, draws[i]))
  }

  /** What one cell contributes to the element at the given frame. */
  function RenderCell(c: Cell, frame: nat): seq<Token>
    requires Drawn(c, frame)
  {
    if frame >= c.end then Chars(c.target)
    else if frame >= c.start then [Dud(c.glyph.value)]
    else Chars(c.source)
  }

  /** The output of the first n cells of a queue at the given frame: what
      the loop of `update` has accumulated after visiting them. */
  function Render(q: seq<Cell>, frame: nat, n: nat): seq<Token>
    requires n <= |q| && AllDrawn(q, frame)
  {
    if n == 0 then [] else Render(q, frame, n - 1) + RenderCell(q[n - 1], frame)
  }

  /** The target text a queue spells out: its `target` characters in order. */
  function Targets(q: seq<Cell>): string
  {
    if q == [] then [] else Targets(q[..|q| - 1]) + q[|q| - 1].target
  }

  /** The number of settled cells among the first n of a queue: the
      `complete` counter of `update` after visiting them. */
  function CountSettled(q: seq<Cell>, frame: nat, n: nat): (count: nat)
    requires n <= |q|
    ensures count <= n
    ensures count == n <==> forall k :: 0 <= k < n ==> Settled(q[k], frame)
  {
    if n == 0 then 0 else CountSettled(q, frame, n - 1) + (if frame >= q[n - 1].end then 1 else 0)
  }

  /** The largest `end` of a queue: the last frame at which a cell still changes. */
  function MaxEnd(q: seq<Cell>): (m: nat)
    ensures forall k :: 0 <= k < |q| ==> q[k].end <= m
    ensures q == [] ==> m == 0
    ensures q != [] ==> exists k :: 0 <= k < |q| && q[k].end == m
  {
    if q == [] then 0
    else
      var m := MaxEnd(q[..|q| - 1]);
      assert forall k :: 0 <= k < |q| - 1 ==> q[..|q| - 1][k] == q[k];
      if q[|q| - 1].end > m then q[|q| - 1].end else m
  }

  lemma {:induction false} SettledRender(q: seq<Cell>, frame: nat, n: nat)
    requires n <= |q| && AllSettled(q, frame)
    ensures AllDrawn(q, frame)
    ensures Render(q, frame, n) == Chars(Targets(q[..n]))
  {
    if n > 0 {
      SettledRender(q, frame, n - 1);
      assert q[..n][..n - 1] == q[..n - 1];
      assert Chars(Targets(q[..n - 1]) + q[n - 1].target)
          == Chars(Targets(q[..n - 1])) + Chars(q[n - 1].target);
    }
  }

  /** At a frame where every cell is settled, the draws change no cell and
      the output is the target text. */
  lemma SettledFrame(q: seq<Cell>, frame: nat, draws: seq<Draw>)
    requires |draws| == |q|
    ensures AllSettled(q, frame) ==>
      StepAll(q, frame, draws) == q && AllDrawn(q, frame) && Render(q, frame, |q|) == Chars(Targets(q))
  {
    if AllSettled(q, frame) {
      var r := StepAll(q, frame, draws);
      assert forall k :: 0 <= k < |q| ==> r[k] == q[k];
      SettledRender(q, frame, |q|);
      assert q[..|q|] == q;
    }
  }

  /** The state of the loop of `update` after it has visited the first
      `visited` cells: the queue with those cells stepped, the output so far
      and the settled count so far. */
  datatype Sweep = Sweep(cells: seq<Cell>, output: seq<Token>, complete: nat)

  /** One visit of the loop of `update`: it reads the cell at position i,
      steps it, writes it back, appends what it shows and counts it when it
      has settled. */
  function Visit(p: Sweep, frame: nat, d: Draw, i: nat): (r: Sweep)
    requires i < |p.cells|
  {
    var c := p.cells[i];
    var next := StepCell(c, frame, d);
    Sweep(p.cells[i := next], p.output + RenderCell(next, frame),
          p.complete + if frame >= c.end then 1 else 0)
  }

  /** The loop of `update` after its first n visits. */
  function SweepTo(q: seq<Cell>, frame: nat, draws: seq<Draw>, n: nat): (p: Sweep)
    requires n <= |q| && |draws| == |q|
    ensures |p.cells| == |q|
    ensures forall k :: n <= k < |q| ==> p.cells[k] == q[k]
  {
    if n == 0 then Sweep(q, [], 0)
    else Visit(SweepTo(q, frame, draws, n - 1), frame, draws[n - 1], n - 1)
  }

  /** After the first n visits of the loop, exactly those cells are
      stepped. */
  lemma {:induction false} SweepCells(q: seq<Cell>, frame: nat, draws: seq<Draw>, n: nat)
    requires n <= |q| && |draws| == |q|
    ensures forall k :: 0 <= k < n ==> SweepTo(q, frame, draws, n).cells[k] == StepCell(q[k], frame, draws[k])
  {
    if n > 0 {
      SweepCells(q, frame, draws, n - 1);
    }
  }

  /** After the first n visits of the loop, the output is the rendering of
      those cells once stepped. */
  lemma {:induction false} SweepOutput(q: seq<Cell>, frame: nat, draws: seq<Draw>, n: nat)
    requires n <= |q| && |draws| == |q|
    ensures AllDrawn(StepAll(q, frame, draws), frame)
    ensures SweepTo(q, frame, draws, n).output == Render(StepAll(q, frame, draws), frame, n)
  {
    var target := StepAll(q, frame, draws);
    assert AllDrawn(target, frame);
    if n > 0 {
      SweepOutput(q, frame, draws, n - 1);
      var p := SweepTo(q, frame, draws, n - 1);
      assert p.cells[n - 1] == q[n - 1];
      assert target[n - 1] == StepCell(q[n - 1], frame, draws[n - 1]);
    }
  }

  /** After the first n visits of the loop, the count is the number of those
      cells that have settled. */
  lemma {:induction false} SweepCount(q: seq<Cell>, frame: nat, draws: seq<Draw>, n: nat)
    requires n <= |q| && |draws| == |q|
    ensures SweepTo(q, frame, draws, n).complete == CountSettled(q, frame, n)
  {
    if n > 0 {
      SweepCount(q, frame, draws, n - 1);
      assert SweepTo(q, frame, draws, n - 1).cells[n - 1] == q[n - 1];
    }
  }

  /** One frame of the animation: the state after `update` runs, read off
      its loop. */
  function Update(s: Animator, draws: seq<Draw>): (r: Animator)
    requires |draws| == |s.queue|
    ensures |r.queue| == |s.queue|
    ensures forall k :: 0 <= k < |s.queue| ==> SameTiming(r.queue[k], s.queue[k])
    ensures r.frame == if AllSettled(s.queue, s.frame) then s.frame else s.frame + 1
    ensures r.resolved == (s.resolved || AllSettled(s.queue, s.frame))
    ensures r.pending == !AllSettled(s.queue, s.frame)
    ensures AllSettled(s.queue, s.frame) ==>
      r.queue == s.queue && r.display == Chars(Targets(s.queue))
  {
    var p := SweepTo(s.queue, s.frame, draws, |s.queue|);
    UpdateMeaning(s.queue, s.frame, draws);
    var done := p.complete == |s.queue|;
    Animator(p.output, p.cells, if done then s.frame else s.frame + 1, !done, s.resolved || done)
  }

  /** What the loop of `update` computes over a whole queue: every cell
      stepped, the rendering of the stepped queue, and a count that reaches
      the queue's length exactly when every cell has settled; once they all
      have, the queue is unchanged and the output is the target text. */
  lemma UpdateMeaning(q: seq<Cell>, frame: nat, draws: seq<Draw>)
    requires |draws| == |q|
    ensures var p := SweepTo(q, frame, draws, |q|);
      && p.cells == StepAll(q, frame, draws)
      && AllDrawn(p.cells, frame) && p.output == Render(p.cells, frame, |q|)
      && (p.complete == |q| <==> AllSettled(q, frame))
      && (AllSettled(q, frame) ==> p.cells == q && p.output == Chars(Targets(q)))
  {
    var p := SweepTo(q, frame, draws, |q|);
    SweepCells(q, frame, draws, |q|);
    SweepOutput(q, frame, draws, |q|);
    SweepCount(q, frame, draws, |q|);
    assert p.cells == StepAll(q, frame, draws);
    SettledFrame(q, frame, draws);
  }

  /** A transition begun while the element shows `display`: the queue is
      built from the text shown, the completion is a fresh one, no frame is
      scheduled, the frame counter is reset and the first update runs at
      once. Nothing else of the animator's earlier state is read: the
      queue, frame and completion of a transition still in flight are
      discarded. */
  function SetText(display: seq<Token>, newText: string, rolls: seq<Roll>, draws: seq<Draw>): (r: Animator)
    requires |rolls| == Max(|Text(display)|, |newText|)
    requires |draws| == |rolls|
    ensures |r.queue| == Max(|Text(display)|, |newText|)
    ensures Targets(r.queue) == newText
    ensures r.frame <= 1
    ensures r.resolved == AllSettled(r.queue, 0)
    ensures r.resolved ==> Text(r.display) == newText
  {
    var q := BuildQueue(Text(display), newText, rolls, |rolls|);
    TargetsSpell(q, newText);
    assert newText[..Min(|q|, |newText|)] == newText;
    var r := Update(Animator(display, q, 0, false, false), draws);
    TargetsOfSameTiming(r.queue, q);
    assert forall k :: 0 <= k < |q| ==> SameTiming(r.queue[k], q[k]);
    assert AllSettled(r.queue, 0) == AllSettled(q, 0);
    TextOfChars(newText);
    r
  }

  /** Cell i of a new transition goes from the character the element showed
      at position i to the new text's character there (either may be none),
      over the window its rolls give it. */
  lemma SetTextCells(display: seq<Token>, newText: string, rolls: seq<Roll>, draws: seq<Draw>)
    requires |rolls| == Max(|Text(display)|, |newText|)
    requires |draws| == |rolls|
    ensures var r := SetText(display, newText, rolls, draws);
      forall i :: 0 <= i < |r.queue| ==>
        && r.queue[i].source == CharAt(Text(display), i) && r.queue[i].target == CharAt(newText, i)
        && r.queue[i].start == rolls[i].start && r.queue[i].end == rolls[i].start + rolls[i].offset
  {
    var q := BuildQueue(Text(display), newText, rolls, |rolls|);
    var r := Update(Animator(display, q, 0, false, false), draws);
    assert forall k :: 0 <= k < |q| ==> SameTiming(r.queue[k], q[k]);
  }

  /** With rolls in range every cell settles by frame 78, and the first
      update moves the frame counter to 1 unless every cell is already
      settled. */
  lemma SetTextTiming(display: seq<Token>, newText: string, rolls: seq<Roll>, draws: seq<Draw>)
    requires |rolls| == Max(|Text(display)|, |newText|)
    requires |draws| == |rolls|
    ensures var r := SetText(display, newText, rolls, draws);
      && (RollsFit(rolls) ==> forall i :: 0 <= i < |r.queue| ==> WellTimed(r.queue[i]))
      && r.frame == if AllSettled(r.queue, 0) then 0 else 1
  {
    var q := BuildQueue(Text(display), newText, rolls, |rolls|);
    var r := Update(Animator(display, q, 0, false, false), draws);
    assert forall k :: 0 <= k < |q| ==> SameTiming(r.queue[k], q[k]);
    assert AllSettled(r.queue, 0) == AllSettled(q, 0);
  }

  /** A queue whose every target is the new text's character at that
      position (or none past its end) spells the new text, cut to the
      queue's length. */
  lemma {:induction false} TargetsSpell(q: seq<Cell>, newText: string)
    requires forall i :: 0 <= i < |q| ==> q[i].target == CharAt(newText, i)
    ensures Targets(q) == newText[..Min(|q|, |newText|)]
  {
    if q != [] {
      var n := |q| - 1;
      var p := q[..n];
      assert q == p + [q[n]];
      TargetsSpell(p, newText);
      TargetsSnoc(p, q[n]);
      if n < |newText| {
        assert newText[..n] + [newText[n]] == newText[..n + 1];
      }
    }
  }

  lemma TargetsSnoc(p: seq<Cell>, c: Cell)
    ensures Targets(p + [c]) == Targets(p) + c.target
  {
    assert (p + [c])[..|p|] == p;
  }

  /** A string written as plain characters reads back as itself. */
  lemma TextOfChars(s: string)
    ensures Text(Chars(s)) == s
  {
  }

  // ---------------------------------------------------------------------
  // Runs of several frames

  /** The state after one `update` per round of draws. */
  function Run(s: Animator, rounds: seq<seq<Draw>>): (r: Animator)
    requires RoundsFit(rounds, |s.queue|)
    ensures |r.queue| == |s.queue|
    ensures forall k :: 0 <= k < |s.queue| ==> SameTiming(r.queue[k], s.queue[k])
    ensures s.frame <= r.frame <= s.frame + |rounds|
    ensures s.resolved ==> r.resolved
    decreases |rounds|
  {
    if rounds == [] then s else Run(Update(s, rounds[0]), rounds[1..])
  }

  /** A settled cell stays settled: whatever the later draws, it shows its
      target at every later frame of the transition. */
  lemma {:induction false} SettledStaysSettled(s: Animator, rounds: seq<seq<Draw>>, i: nat)
    requires RoundsFit(rounds, |s.queue|)
    requires i < |s.queue| && Settled(s.queue[i], s.frame)
    ensures var r := Run(s, rounds);
      Settled(r.queue[i], r.frame) && RenderCell(r.queue[i], r.frame) == Chars(s.queue[i].target)
    decreases |rounds|
  {
    if rounds != [] {
      var t := Update(s, rounds[0]);
      assert RoundsFit(rounds[1..], |t.queue|);
      SettledStaysSettled(t, rounds[1..], i);
    }
  }

  /** Once every cell is settled and the completion resolved, further frames
      change nothing the element shows and keep the completion resolved. */
  lemma {:induction false} ResolvedIsStable(s: Animator, rounds: seq<seq<Draw>>)
    requires RoundsFit(rounds, |s.queue|)
    requires s.resolved && AllSettled(s.queue, s.frame)
    requires s.display == Chars(Targets(s.queue))
    ensures var r := Run(s, rounds);
      r.resolved && r.queue == s.queue && r.frame == s.frame && r.display == s.display
    decreases |rounds|
  {
    if rounds != [] {
      var t := Update(s, rounds[0]);
      assert RoundsFit(rounds[1..], |t.queue|);
      ResolvedIsStable(t, rounds[1..]);
    }
  }

  /** Once the frame counter can pass every cell's `end`, the transition
      resolves and the element shows exactly the target text. */
  lemma {:induction false} RunCompletes(s: Animator, rounds: seq<seq<Draw>>)
    requires RoundsFit(rounds, |s.queue|)
    requires |rounds| > 0
    requires forall k :: 0 <= k < |s.queue| ==> s.queue[k].end < s.frame + |rounds|
    ensures var r := Run(s, rounds);
      r.resolved && r.display == Chars(Targets(s.queue))
    decreases |rounds|
  {
    var t := Update(s, rounds[0]);
    assert RoundsFit(rounds[1..], |t.queue|);
    if AllSettled(s.queue, s.frame) {
      ResolvedIsStable(t, rounds[1..]);
    } else {
      assert |rounds| > 1;
      RunCompletes(t, rounds[1..]);
      TargetsOfSameTiming(t.queue, s.queue);
    }
  }

  /** Queues that agree on their timing spell the same target text. */
  lemma {:induction false} TargetsOfSameTiming(a: seq<Cell>, b: seq<Cell>)
    requires |a| == |b| && forall k :: 0 <= k < |a| ==> SameTiming(a[k], b[k])
    ensures Targets(a) == Targets(b)
  {
    if a != [] {
      var n := |a| - 1;
      assert forall k :: 0 <= k < n ==> a[..n][k] == a[k] && b[..n][k] == b[k];
      TargetsOfSameTiming(a[..n], b[..n]);
    }
  }

  /** Whatever state the animator is in (idle, mid-transition or done), a new
      transition ends with the element showing exactly the new text, after at
      most 78 frames beyond the one `setText` renders itself, 79 in all. */
  lemma TransitionCompletes(display: seq<Token>, newText: string, rolls: seq<Roll>, draws: seq<Draw>,
                            rounds: seq<seq<Draw>>)
    requires |rolls| == Max(|Text(display)|, |newText|) && RollsFit(rolls)
    requires |draws| == |rolls| && RoundsFit(rounds, |rolls|)
    requires |rounds| >= 2 * Range - 2
    ensures var r := Run(SetText(display, newText, rolls, draws), rounds);
      r.resolved && Text(r.display) == newText
  {
    var t := SetText(display, newText, rolls, draws);
    SetTextCells(display, newText, rolls, draws);
    assert forall k :: 0 <= k < |t.queue| ==> t.queue[k].end < t.frame + |rounds|;
    RunCompletes(t, rounds);
    TextOfChars(newText);
  }

  // ---------------------------------------------------------------------
  // The animator's invariant

  /** What holds of an animator at every point between calls: every cell
      keeps the bounds `setText` gave it and shows placeholders from the
      alphabet, the frame counter never passes the last `end`, a scheduled
      frame means the completion is still open, and a resolved transition
      has every cell settled and shows exactly its target text. */
  ghost predicate WellFormed(s: Animator, chars: string)
  {
    (forall k :: 0 <= k < |s.queue| ==> WellTimed(s.queue[k]) && GlyphFrom(s.queue[k], chars)) &&
    s.frame <= MaxEnd(s.queue) &&
    (s.pending ==> !s.resolved) &&
    (s.resolved ==> AllSettled(s.queue, s.frame) && s.display == Chars(Targets(s.queue)))
  }

  /** A new transition leaves the animator well formed, whatever state it
      was in before. */
  lemma SetTextEstablishes(chars: string, display: seq<Token>, newText: string, rolls: seq<Roll>, draws: seq<Draw>)
    requires |rolls| == Max(|Text(display)|, |newText|) && RollsFit(rolls)
    requires |draws| == |rolls| && DrawsFrom(draws, chars)
    ensures WellFormed(SetText(display, newText, rolls, draws), chars)
  {
    var q := BuildQueue(Text(display), newText, rolls, |rolls|);
    UpdatePreserves(Animator(display, q, 0, false, false), chars, draws);
  }

  /** A queue fresh from `setText`, before its first frame, satisfies the
      invariant whatever the element shows. */
  lemma FreshQueueWellFormed(display: seq<Token>, q: seq<Cell>, chars: string)
    requires forall k :: 0 <= k < |q| ==> WellTimed(q[k]) && q[k].glyph == None
    ensures WellFormed(Animator(display, q, 0, false, false), chars)
  {
  }

  /** Stepping keeps every cell within its bounds and every placeholder
      from the alphabet the draws come from. */
  lemma StepAllKeepsCells(q: seq<Cell>, frame: nat, draws: seq<Draw>, chars: string)
    requires |draws| == |q| && DrawsFrom(draws, chars)
    requires forall k :: 0 <= k < |q| ==> WellTimed(q[k]) && GlyphFrom(q[k], chars)
    ensures forall k :: 0 <= k < |q| ==>
      WellTimed(StepAll(q, frame, draws)[k]) && GlyphFrom(StepAll(q, frame, draws)[k], chars)
  {
    forall k | 0 <= k < |q|
      ensures WellTimed(StepAll(q, frame, draws)[k]) && GlyphFrom(StepAll(q, frame, draws)[k], chars)
    {
      assert StepAll(q, frame, draws)[k] == StepCell(q[k], frame, draws[k]);
    }
  }

  /** Every frame keeps the animator well formed. */
  lemma UpdatePreserves(s: Animator, chars: string, draws: seq<Draw>)
    requires |draws| == |s.queue| && DrawsFrom(draws, chars)
    requires WellFormed(s, chars)
    ensures WellFormed(Update(s, draws), chars)
  {
    var r := Update(s, draws);
    UpdateMeaning(s.queue, s.frame, draws);
    StepAllKeepsCells(s.queue, s.frame, draws, chars);
    assert r.queue == StepAll(s.queue, s.frame, draws);
    TargetsOfSameTiming(r.queue, s.queue);
    if !AllSettled(s.queue, s.frame) {
      var k :| 0 <= k < |s.queue| && !Settled(s.queue[k], s.frame);
      assert r.queue[k].end == s.queue[k].end;
    }
    assert r.frame <= MaxEnd(r.queue);
  }
}
