/** The colour policy of `renderText` (both programs): a fixed RGB colour
    given on the 0..255 scale, or, when any channel is negative, a "rainbow"
    colour drawn per glyph from four `rand()` results. `rand()` is modelled
    as the stream `rand`, where `rand(k)` is the result of the k-th call
    after the `srand` at the start of the call. */
module ColorPolicy {

  datatype Rgb = Rgb(r: real, g: real, b: real)

  /** `rainbowMode = (r < 0 || g < 0 || b < 0)`. */
  predicate RainbowMode(r: real, g: real, b: real)
    ensures !RainbowMode(r, g, b) ==>
      var c := FixedColor(r, g, b); 0.0 <= c.r && 0.0 <= c.g && 0.0 <= c.b
  {
    r < 0.0 || g < 0.0 || b < 0.0
  }

  /** The uniform colour `(r/255, g/255, b/255)`. */
  function FixedColor(r: real, g: real, b: real): (c: Rgb)
    ensures c.r * 255.0 == r && c.g * 255.0 == g && c.b * 255.0 == b
  {
    Rgb(r / 255.0, g / 255.0, b / 255.0)
  }

  /** `0.8 + (rand() % 20) / 100`, the bright channel. */
  function Bright(n: nat): (x: real)
    ensures 0.8 <= x < 1.0
  {
    (80 + n % 20) as real / 100.0
  }

  /** `(rand() % 60) / 100`, a dim channel. */
  function Dim(n: nat): (x: real)
    ensures 0.0 <= x < 0.6
  {
    (n % 60) as real / 100.0
  }

  /** `x` is `j / 100` for a whole `j` with `lo <= j < lo + count`. */
  ghost predicate Percent(x: real, lo: int, count: int)
  {
    var p := x * 100.0;
    p == p.Floor as real && lo <= p.Floor < lo + count
  }

  ghost predicate IsBright(x: real) { Percent(x, 80, 20) }

  ghost predicate IsDim(x: real) { Percent(x, 0, 60) }

  /** The channel that is bright: 0 for red, 1 for green, 2 for blue. */
  function BrightChannel(c: Rgb): (channel: nat)
    ensures channel < 3
  {
    if c.r >= 0.8 then 0 else if c.g >= 0.8 then 1 else 2
  }

  /** A rainbow colour: one channel in {0.80, ..., 0.99}, the other two in
      {0.00, ..., 0.59}. Since the ranges are apart, exactly one channel is
      at least 0.8. */
  ghost predicate IsVivid(c: Rgb)
  {
    || (IsBright(c.r) && IsDim(c.g) && IsDim(c.b))
    || (IsDim(c.r) && IsBright(c.g) && IsDim(c.b))
    || (IsDim(c.r) && IsDim(c.g) && IsBright(c.b))
  }

  /** The rainbow colour of one glyph, from the calls `rand(k)` (the
      primary channel, `% 3`) and `rand(k + 1)`, `rand(k + 2)`,
      `rand(k + 3)` (red, green and blue in that order). */
  function VividColor(rand: nat -> nat, k: nat): (c: Rgb)
    ensures BrightChannel(c) == rand(k) % 3
    ensures 0.8 <= [c.r, c.g, c.b][rand(k) % 3] < 1.0
    ensures forall j :: 0 <= j < 3 && j != rand(k) % 3 ==> 0.0 <= [c.r, c.g, c.b][j] < 0.6
  {
    var primary := rand(k) % 3;
    var c1, c2, c3 := rand(k + 1), rand(k + 2), rand(k + 3);
    if primary == 0 then Rgb(Bright(c1), Dim(c2), Dim(c3))
    else if primary == 1 then Rgb(Dim(c1), Bright(c2), Dim(c3))
    else Rgb(Dim(c1), Dim(c2), Bright(c3))
  }

  /** Every rainbow colour is vivid: besides the ranges, each channel is a
      whole number of hundredths, 0.80 to 0.99 for the bright one and 0.00
      to 0.59 for the other two. */
  lemma VividColorIsVivid(rand: nat -> nat, k: nat)
    ensures IsVivid(VividColor(rand, k))
  {
    var c1, c2, c3 := rand(k + 1), rand(k + 2), rand(k + 3);
    PercentOf(80 + c1 % 20, 80, 20);
    PercentOf(80 + c2 % 20, 80, 20);
    PercentOf(80 + c3 % 20, 80, 20);
    PercentOf(c1 % 60, 0, 60);
    PercentOf(c2 % 60, 0, 60);
    PercentOf(c3 % 60, 0, 60);
  }

  lemma PercentOf(j: int, lo: int, count: int)
    requires lo <= j < lo + count
    ensures Percent(j as real / 100.0, lo, count)
  {
    assert (j as real / 100.0) * 100.0 == j as real;
  }

  /** The colour of the `i`-th glyph drawn by one `renderText` call: in
      rainbow mode every drawn glyph uses four `rand()` calls, so glyph `i`
      starts at call `4 * i`; otherwise the fixed colour. */
  function GlyphColor(rainbow: bool, r: real, g: real, b: real, rand: nat -> nat, i: nat): (c: Rgb)
    ensures rainbow ==> BrightChannel(c) == rand(4 * i) % 3 && 0.8 <= [c.r, c.g, c.b][rand(4 * i) % 3] < 1.0
    ensures !rainbow ==> c.r * 255.0 == r && c.g * 255.0 == g && c.b * 255.0 == b
  {
    if rainbow then VividColor(rand, 4 * i) else FixedColor(r, g, b)
  }

  /** In rainbow mode every drawn glyph gets a vivid colour. */
  lemma GlyphColorPolicy(rainbow: bool, r: real, g: real, b: real, rand: nat -> nat, i: nat)
    ensures rainbow ==> IsVivid(GlyphColor(rainbow, r, g, b, rand, i))
  {
    if rainbow {
      VividColorIsVivid(rand, 4 * i);
    }
  }

  /** The gold of the third demo line, (255, 215, 0), becomes (1.0, 0.843137..., 0.0). */
  lemma GoldNormalizes()
    ensures FixedColor(255.0, 215.0, 0.0).r == 1.0
    ensures 0.843137 < FixedColor(255.0, 215.0, 0.0).g < 0.843138
    ensures FixedColor(255.0, 215.0, 0.0).b == 0.0
  {
  }

  /** The three demo calls: black and gold are fixed colours, (-1, -1, -1)
      is the rainbow sentinel. */
  lemma DemoColorModes()
    ensures !RainbowMode(0.0, 0.0, 0.0) && FixedColor(0.0, 0.0, 0.0) == Rgb(0.0, 0.0, 0.0)
    ensures RainbowMode(-1.0, -1.0, -1.0)
    ensures !RainbowMode(255.0, 215.0, 0.0)
  {
  }
}
