/** The integer skeleton of `game_manager_loop`: the counter `num` starts at
    1 and rises by one per sub-step, 1000 sub-steps per frame, and a pixel is
    drawn for a sub-step only when its colour's alpha is nonzero.  Pixel
    positions come from the floating-point spiral, which is not modelled; a
    drawn pixel is recorded with the number it was drawn for. */
module FrameLoop {
  import opened Colours
  import opened Colouring

  /** Sub-steps per frame. */
  const SUBSTEPS := 1000

  /** One `DrawPixelV` call: the number it was drawn for and its colour. */
  datatype Pixel = Pixel(index: int, colour: Colour)

  /** The pixels drawn, in order, for the numbers lo .. hi - 1 under the
      colouring f: one per number whose colour has nonzero alpha. */
  function Drawn(f: int -> Colour, lo: int, hi: int): (r: seq<Pixel>)
    ensures hi > lo ==> |r| <= hi - lo
    ensures hi <= lo ==> r == []
    ensures forall k :: 0 <= k < |r| ==> lo <= r[k].index < hi && r[k].colour == f(r[k].index) && r[k].colour.a > 0
    ensures forall i, j :: 0 <= i < j < |r| ==> r[i].index < r[j].index
    decreases hi - lo
  {
    if hi <= lo then []
    else Drawn(f, lo, hi - 1) + (if f(hi - 1).a > 0 then [Pixel(hi - 1, f(hi - 1))] else [])
  }

  /** The alpha gate: a pixel is drawn exactly for the numbers in range whose
      colour has nonzero alpha, with that colour. */
  lemma {:induction false} AlphaGate(f: int -> Colour, lo: int, hi: int, px: Pixel)
    ensures px in Drawn(f, lo, hi) <==> lo <= px.index < hi && px.colour == f(px.index) && f(px.index).a > 0
    decreases hi - lo
  {
    if hi > lo {
      AlphaGate(f, lo, hi - 1, px);
    }
  }

  /** Drawing lo .. mid - 1 and then mid .. hi - 1 draws lo .. hi - 1. */
  lemma {:induction false} DrawnSplit(f: int -> Colour, lo: int, mid: int, hi: int)
    requires lo <= mid <= hi
    ensures Drawn(f, lo, mid) + Drawn(f, mid, hi) == Drawn(f, lo, hi)
    decreases hi - mid
  {
    if mid < hi {
      DrawnSplit(f, lo, mid, hi - 1);
    }
  }

  /** With `_process` as written every number is drawn, in white. */
  lemma {:induction false} ProcessDrawsEveryNumber(lo: int, hi: int)
    requires lo <= hi
    ensures |Drawn(Process, lo, hi)| == hi - lo
    ensures forall k :: 0 <= k < hi - lo ==> Drawn(Process, lo, hi)[k] == Pixel(lo + k, WHITE)
    decreases hi - lo
  {
    if lo < hi {
      ProcessDrawsEveryNumber(lo, hi - 1);
    }
  }

  /** The inner `for` loop of one frame: 1000 sub-steps from `num`, each
      colouring the current number, drawing it if its alpha is nonzero, and
      advancing the number by one. */
  method DrawFrame(num: int) returns (next: int, pixels: seq<Pixel>)
    ensures next == num + SUBSTEPS
    ensures pixels == Drawn(Process, num, next)
  {
    next := num;
    pixels := [];
    for i := 0 to SUBSTEPS
      invariant next == num + i
      invariant pixels == Drawn(Process, num, next)
    {
      var colour := Process(next);
      if colour.a > 0 {
        pixels := pixels + [Pixel(next, colour)];
      }
      next := next + 1;
    }
  }

  /** The index of the first `true` in s. */
  function FirstTrue(s: seq<bool>): (t: nat)
    requires true in s
    ensures t < |s| && s[t] && forall j :: 0 <= j < t ==> !s[j]
  {
    if s[0] then 0 else 1 + FirstTrue(s[1..])
  }

  /** `game_manager_loop`, with `WindowShouldClose()` replaced by the
      sequence of its answers, one per frame.  The answer is read at the top
      of a frame and the frame still runs, so the loop runs one frame more
      than the number of `false` answers before the first `true`.  After k
      frames `num == 1 + 1000k`, and the pixels drawn are those of the
      numbers 1 .. num - 1. */
  method GameLoop(closeRequested: seq<bool>) returns (frames: nat, num: int, pixels: seq<Pixel>)
    requires true in closeRequested
    ensures frames == FirstTrue(closeRequested) + 1
    ensures num == 1 + SUBSTEPS * frames
    ensures pixels == Drawn(Process, 1, num)
  {
    var running := true;
    num := 1;
    frames := 0;
    pixels := [];
    while running
      invariant running ==> frames <= FirstTrue(closeRequested)
      invariant !running ==> frames == FirstTrue(closeRequested) + 1
      invariant num == 1 + SUBSTEPS * frames
      invariant pixels == Drawn(Process, 1, num)
      decreases FirstTrue(closeRequested) + 1 - frames
    {
      running := !closeRequested[frames];
      var next, drawn := DrawFrame(num);
      DrawnSplit(Process, 1, num, next);
      num, pixels := next, pixels + drawn;
      frames := frames + 1;
    }
  }
}
