/** The `TextScramble` class of script.js: an animator bound to one element,
 *  whose `setText` and `update` change its fields in place.
 *
 *  The element is its `display` (the tokens last written to it); its text is
 *  `Text(display)`. The animation frames the browser schedules become
 *  explicit calls of `Update`, `pending` stands for the scheduled frame
 *  request and `resolved` for the completion of the transition in flight.
 */
module Scramble {
  import opened Wrappers
  import opened ScrambleModel

  class TextScramble {
    const chars: string
    var display: seq<Token>
    var queue: seq<Cell>
    var frame: nat
    var pending: bool
    var resolved: bool
    /** Whether `SetText` has run: before it, the source's `queue` and
        `frame` are undefined and `update` throws. */
    ghost var started: bool

    /** The animator's state as a value. */
    function Model(): Animator
      reads this
    {
      Animator(display, queue, frame, pending, resolved)
    }

    ghost predicate Valid()
      reads this
    {
      WellFormed(Model(), chars)
    }

    /** Binds the animator to an element that shows `initialText`. */
    constructor (initialText: string)
      ensures Valid()
      ensures chars == Alphabet
      ensures Model() == Animator(Chars(initialText), [], 0, false, false)
      ensures !started
    {
      chars := Alphabet;
      display := Chars(initialText);
      queue := [];
      frame := 0;
      pending := false;
      resolved := false;
      started := false;
    }

    /** Starts a transition from the text the element shows to `newText`,
        with `rolls` the timing draws for each position and `draws` the
        draws of the first update. */
    method SetText(newText: string, rolls: seq<Roll>, draws: seq<Draw>)
      requires |rolls| == Max(|Text(display)|, |newText|) && RollsFit(rolls)
      requires |draws| == |rolls| && DrawsFrom(draws, chars)
      modifies this
      ensures Valid() && started
      ensures Model() == ScrambleModel.SetText(old(display), newText, rolls, draws)
    {
      var oldText := Text(display);
      var length := Max(|oldText|, |newText|);
      var q := NewQueue(oldText, newText, length, rolls);
      queue, frame, pending, resolved := q, 0, false, false;
      ghost var start := Model();
      assert start == Animator(old(display), BuildQueue(Text(old(display)), newText, rolls, |rolls|), 0, false, false);
      FreshQueueWellFormed(display, q, chars);
      started := true;
      Update(draws);
      assert Model() == ScrambleModel.SetText(old(display), newText, rolls, draws);
    }

    /** One animation frame: re-renders every cell, draws placeholders for
        the cells that scramble, and either resolves the transition or
        schedules the next frame. */
    method Update(draws: seq<Draw>)
      requires Valid() && started
      requires |draws| == |queue| && DrawsFrom(draws, chars)
      modifies this
      ensures Valid() && started
      ensures Model() == ScrambleModel.Update(old(Model()), draws)
    {
      ghost var s := Model();
      UpdatePreserves(s, chars, draws);
      var cells, output, complete := Pass(queue, frame, draws);
      queue := cells;
      display := output;
      if complete == |cells| {
        resolved := true;
        pending := false;
      } else {
        pending := true;
        frame := frame + 1;
      }
      assert Model() == ScrambleModel.Update(s, draws);
    }
  }

  /** The loop of `setText`: one cell per position up to `length`, from
      the old text's character to the new one's, timed by that position's
      rolls. */
  method NewQueue(oldText: string, newText: string, length: nat, rolls: seq<Roll>) returns (queue: seq<Cell>)
    requires |rolls| == length
    ensures queue == BuildQueue(oldText, newText, rolls, length)
  {
    queue := [];
    var i := 0;
    while i < length
      invariant 0 <= i <= length
      invariant queue == BuildQueue(oldText, newText, rolls, i)
    {
      var from := CharAt(oldText, i);
      var to := CharAt(newText, i);
      var start := rolls[i].start;
      var end := start + rolls[i].offset;
      queue := queue + [Cell(from, to, start, end, None)];
      i := i + 1;
    }
  }

  /** The loop of `update` over the cells in order, on the queue as a
      value: each visit may rewrite the cell it visits. */
  method Pass(queue: seq<Cell>, frame: nat, draws: seq<Draw>)
    returns (cells: seq<Cell>, output: seq<Token>, complete: nat)
    requires |draws| == |queue|
    ensures Sweep(cells, output, complete) == SweepTo(queue, frame, draws, |queue|)
  {
    cells, output, complete := queue, [], 0;
    var i := 0;
    while i < |cells|
      invariant 0 <= i <= |cells| == |queue|
      invariant Sweep(cells, output, complete) == SweepTo(queue, frame, draws, i)
    {
      cells, output, complete := VisitAt(queue, cells, output, complete, frame, draws, i);
      i := i + 1;
    }
  }

  /** The body of the loop of `update` for the cell at position i: a cell
      that has not settled but has started gets a new placeholder when it
      has none or when the draw re-rolls it; the cell then contributes its
      target, its placeholder or its source to the output, and a settled
      cell is counted. */
  method VisitAt(ghost q0: seq<Cell>, queue: seq<Cell>, output: seq<Token>, complete: nat, frame: nat, draws: seq<Draw>, i: nat)
    returns (queue': seq<Cell>, output': seq<Token>, complete': nat)
    requires i < |q0| && |draws| == |q0|
    requires Sweep(queue, output, complete) == SweepTo(q0, frame, draws, i)
    ensures Sweep(queue', output', complete') == SweepTo(q0, frame, draws, i + 1)
  {
    var draw := draws[i];
    queue', output', complete' := queue, output, complete;
    var cell := queue[i];
    if frame >= cell.end {
      complete' := complete + 1;
      output' := output + Chars(cell.target);
    } else if frame >= cell.start {
      var glyph := cell.glyph;
      if glyph.None? || draw.reroll {
        glyph := Some(draw.glyph);
        queue' := queue[i := cell.(glyph := glyph)];
      }
      output' := output + [Dud(glyph.value)];
    } else {
      output' := output + Chars(cell.source);
    }
  }
}
