/** What one `renderText` call emits (both programs): the draws of a run of
    glyphs laid out left to right from a start x, each at the pen position
    the glyphs before it leave, coloured by the colour policy. */
module Render {
  import opened Glyph
  import opened ColorPolicy
  import opened Quad
  import opened Layout

  /** `draws` are the draws of `gs` with the pen starting at `x` on the
      baseline `y`: the `i`-th draw is `gs[i]` at `x` plus the width of
      `gs[..i]`, in the colour of the `i`-th drawn glyph. */
  ghost predicate DrawsOf(draws: seq<Draw>, gs: seq<Character>, x: real, y: real, scale: real,
                          r: real, g: real, b: real, rand: nat -> nat)
  {
    && |draws| == |gs|
    && forall i :: 0 <= i < |draws| ==>
         draws[i] == Draw(gs[i], x + Width(gs[..i], scale), y, scale,
                          GlyphColor(RainbowMode(r, g, b), r, g, b, rand, i))
  }

  /** Drawing one more glyph at the pen and advancing the pen by its step
      extends the run by that glyph. */
  lemma DrawsSnoc(draws: seq<Draw>, gs: seq<Character>, ch: Character, penX: real,
                  x: real, y: real, scale: real, r: real, g: real, b: real, rand: nat -> nat)
    requires DrawsOf(draws, gs, x, y, scale, r, g, b, rand) && penX == x + Width(gs, scale)
    ensures DrawsOf(draws + [Draw(ch, penX, y, scale, GlyphColor(RainbowMode(r, g, b), r, g, b, rand, |draws|))],
                    gs + [ch], x, y, scale, r, g, b, rand)
    ensures penX + Step(ch, scale) == x + Width(gs + [ch], scale)
  {
    var gs' := gs + [ch];
    assert gs'[..|gs|] == gs;
    forall i | 0 <= i < |gs| ensures gs'[..i] == gs[..i] { }
  }

  /** The colours of a run: in rainbow mode every draw is vivid, its bright
      channel chosen by the first of its four `rand()` calls; otherwise
      every draw has the fixed colour. */
  lemma DrawColors(draws: seq<Draw>, gs: seq<Character>, x: real, y: real, scale: real,
                   r: real, g: real, b: real, rand: nat -> nat)
    requires DrawsOf(draws, gs, x, y, scale, r, g, b, rand)
    ensures RainbowMode(r, g, b) ==>
      forall i :: 0 <= i < |draws| ==> IsVivid(draws[i].color) && BrightChannel(draws[i].color) == rand(4 * i) % 3
    ensures !RainbowMode(r, g, b) ==>
      forall i :: 0 <= i < |draws| ==> draws[i].color == FixedColor(r, g, b)
  {
    forall i | 0 <= i < |draws|
      ensures draws[i].color == GlyphColor(RainbowMode(r, g, b), r, g, b, rand, i)
      ensures RainbowMode(r, g, b) ==> IsVivid(draws[i].color) && BrightChannel(draws[i].color) == rand(4 * i) % 3
      ensures !RainbowMode(r, g, b) ==> draws[i].color == FixedColor(r, g, b)
    {
      GlyphColorPolicy(RainbowMode(r, g, b), r, g, b, rand, i);
    }
  }

  /** The three lines `main` draws each frame with the colours (0, 0, 0),
      (-1, -1, -1) and (255, 215, 0) on baselines 100 pixels apart: the first
      all black, the second all vivid, the third all gold, and the same
      glyphs in each. */
  lemma FrameLineColors(black: seq<Draw>, rainbow: seq<Draw>, gold: seq<Draw>,
                        gs: seq<Character>, x: real, y: real, scale: real, rand: nat -> nat)
    requires DrawsOf(black, gs, x, y - 100.0, scale, 0.0, 0.0, 0.0, rand)
    requires DrawsOf(rainbow, gs, x, y, scale, -1.0, -1.0, -1.0, rand)
    requires DrawsOf(gold, gs, x, y + 100.0, scale, 255.0, 215.0, 0.0, rand)
    ensures |black| == |rainbow| == |gold| == |gs|
    ensures forall i :: 0 <= i < |gs| ==> black[i].glyph == rainbow[i].glyph == gold[i].glyph == gs[i]
    ensures forall i :: 0 <= i < |black| ==> black[i].color == Rgb(0.0, 0.0, 0.0)
    ensures forall i :: 0 <= i < |rainbow| ==> IsVivid(rainbow[i].color)
    ensures forall i :: 0 <= i < |gold| ==> gold[i].color == Rgb(1.0, 215.0 / 255.0, 0.0)
  {
    DrawColors(black, gs, x, y - 100.0, scale, 0.0, 0.0, 0.0, rand);
    DrawColors(rainbow, gs, x, y, scale, -1.0, -1.0, -1.0, rand);
    DrawColors(gold, gs, x, y + 100.0, scale, 255.0, 215.0, 0.0, rand);
  }
}
