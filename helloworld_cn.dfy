/** helloworld_cn.c: the CJK demo. A calloc'd table of 65536 `Character`
    entries indexed by codepoint is filled for the codepoints of the demo
    string, and each frame the string is measured, centred and drawn three
    times (black, rainbow, gold). Decoding goes through `codepoint_from_utf8`
    (module Utf8); unloaded entries are skipped when drawing. */
module HelloWorldCn {
  import opened Glyph
  import opened Utf8
  import opened ColorPolicy
  import opened Quad
  import opened Layout
  import opened GlyphCache
  import opened Render

  /** The fonts `initFreeType` tries, in order. */
  const FontPaths: seq<string> := [
    "/usr/share/fonts/truetype/droid/DroidSansFallbackFull.ttf",
    "/usr/share/fonts/noto/NotoSansCJK-Regular.ttc",
    "/usr/share/fonts/wenquanyi/wqy-microhei/wqy-microhei.ttc",
    "C:/Windows/Fonts/msyh.ttc",
    "C:/Windows/Fonts/simsun.ttc",
    "/System/Library/Fonts/PingFang.ttc",
    "fonts/NotoSansSC-Regular.otf"
  ]

  /** "你好，世界！" as UTF-8 bytes, the string both preloaded and drawn. */
  const DemoText: seq<byte> := [
    0xE4, 0xBD, 0xA0, 0xE5, 0xA5, 0xBD, 0xEF, 0xBC, 0x8C,
    0xE4, 0xB8, 0x96, 0xE7, 0x95, 0x8C, 0xEF, 0xBC, 0x81
  ]

  /** U+4F60 U+597D U+FF0C U+4E16 U+754C U+FF01. */
  const DemoCodepoints: seq<nat> := [0x4F60, 0x597D, 0xFF0C, 0x4E16, 0x754C, 0xFF01]

  const Scale: real := 1.5

  /** The three-byte UTF-8 sequences of the six demo characters. */
  lemma DemoCharacters()
    ensures Encode(0x4F60) == [0xE4, 0xBD, 0xA0] && Encode(0x597D) == [0xE5, 0xA5, 0xBD]
    ensures Encode(0xFF0C) == [0xEF, 0xBC, 0x8C] && Encode(0x4E16) == [0xE4, 0xB8, 0x96]
    ensures Encode(0x754C) == [0xE7, 0x95, 0x8C] && Encode(0xFF01) == [0xEF, 0xBC, 0x81]
  {
  }

  /** "世界！", the second half of the demo string, encodes its three
      codepoints. */
  lemma DemoTextTail()
    ensures EncodeAll(DemoCodepoints[3..]) == DemoText[9..]
  {
    DemoCharacters();
    var cps := DemoCodepoints;
    assert EncodeAll(cps[5..]) == DemoText[15..];
    assert EncodeAll(cps[4..]) == DemoText[12..];
  }

  /** "好，世界！", the demo string after its first character. */
  lemma DemoTextAfterFirst()
    ensures EncodeAll(DemoCodepoints[1..]) == DemoText[3..]
  {
    DemoCharacters();
    DemoTextTail();
    var cps := DemoCodepoints;
    assert EncodeAll(cps[2..]) == DemoText[6..];
  }

  /** The demo string is the UTF-8 encoding of its six codepoints. */
  lemma DemoTextEncodes()
    ensures EncodeAll(DemoCodepoints) == DemoText
  {
    DemoCharacters();
    DemoTextAfterFirst();
  }

  /** The demo codepoints are non-zero and in the Basic Multilingual Plane. */
  lemma DemoCodepointsInPlane()
    ensures forall k :: 0 <= k < |DemoCodepoints| ==> 0 < DemoCodepoints[k] < 0x10000
  {
  }

  /** Every demo codepoint indexes the 65536-entry table. */
  lemma DemoCodepointsFit()
    ensures InTable(DemoCodepoints, MAX_CHARS)
  {
  }

  /** The demo string is a well-formed C string of six three-byte
      sequences, and every codepoint it decodes to indexes the table. */
  lemma DemoTextDecodes()
    ensures CString(DemoText) && Framed(DemoText)
    ensures Codepoints(DemoText) == DemoCodepoints
    ensures InTable(DemoCodepoints, MAX_CHARS)
  {
    DemoTextEncodes();
    DemoCodepointsInPlane();
    EncodeAllRoundTrip(DemoCodepoints);
  }

  /** `calloc(MAX_CHARS, sizeof(Character))`: every entry zero, so every
      entry unloaded and blank, and no texture name in use. */
  method AllocCharacters() returns (table: array<Character>)
    ensures fresh(table) && table.Length == MAX_CHARS
    ensures forall k :: 0 <= k < table.Length ==> table[k] == Blank
    ensures UnloadedBlank(table[..]) && TexturesBelow(table[..], 1)
  {
    table := new Character[MAX_CHARS](_ => Blank);
  }

  /** The preload loop of `initFreeType`: decode the text and, for each
      codepoint whose entry has `TextureID == 0`, call the rasterizer; on
      success take a texture name and store the glyph, on failure go on. */
  method PreloadGlyphs(table: array<Character>, names: TextureNames, face: Face, text: seq<byte>)
    returns (attempts: seq<nat>)
    requires names.Valid()
    requires CString(text) && Framed(text) && InTable(Codepoints(text), table.Length)
    modifies table, names
    ensures names.Valid()
    ensures Cache(table[..], names.next, attempts)
         == PreloadMissing(Cache(old(table[..]), old(names.next), []), face, Codepoints(text))
  {
    ghost var cps := Codepoints(text);
    ghost var goal := PreloadMissing(Cache(table[..], names.next, []), face, cps);
    attempts := [];
    var p := 0;
    ghost var k := 0;
    while p < |text|
      invariant Aligned(text, cps, k, p)
      invariant names.Valid()
      invariant PassFrom(Cache(table[..], names.next, attempts), face, cps, k, goal)
      decreases |text| - p
    {
      var d := DecodeAt(text, p);
      var codepoint := d.codepoint;
      PreloadStep(text, p, cps, k, Cache(table[..], names.next, attempts), face, goal);
      p := p + d.consumed;
      k := k + 1;
      attempts := EnsureGlyph(table, names, face, codepoint, attempts);
    }
    PreloadDone(text, p, cps, k, Cache(table[..], names.next, attempts), face, goal);
  }

  /** The preload loop has decoded `cps[..k]` and stands at offset `p`,
      from which the rest of the text decodes to `cps[k..]`. */
  predicate Aligned(text: seq<byte>, cps: seq<nat>, k: nat, p: nat)
  {
    FramedFrom(text, p) && k <= |cps| && CodepointsFrom(text, p) == cps[k..]
  }

  /** The pass over what is left, `cps[k..]`, takes the cache `c` to `goal`. */
  predicate PassFrom(c: Cache, face: Face, cps: seq<nat>, k: nat, goal: Cache)
  {
    k <= |cps| && InTable(cps, |c.table|) && PreloadMissing(c, face, cps[k..]) == goal
  }

  /** One iteration of the preload loop on the specification side: the
      codepoint decoded at `p` is `cps[k]`, and the pass over `cps[k..]` is
      the step for `cps[k]` followed by the pass over the rest. */
  lemma PreloadStep(text: seq<byte>, p: nat, cps: seq<nat>, k: nat, c: Cache, face: Face, goal: Cache)
    requires Aligned(text, cps, k, p) && p < |text| && PassFrom(c, face, cps, k, goal)
    ensures var d := DecodeAt(text, p);
      && 0 < d.consumed && k < |cps| && cps[k] == d.codepoint && d.codepoint < |c.table|
      && Aligned(text, cps, k + 1, p + d.consumed)
      && PassFrom(EnsureLoaded(c, face, cps[k]), face, cps, k + 1, goal)
  {
    var d := DecodeAt(text, p);
    DecodeStep(text, p);
    assert cps[k..] == [cps[k]] + cps[k + 1..];
    PreloadMissingCons(c, face, cps[k], cps[k + 1..]);
  }

  /** At the end of the text nothing is left: the cache is the goal. */
  lemma PreloadDone(text: seq<byte>, p: nat, cps: seq<nat>, k: nat, c: Cache, face: Face, goal: Cache)
    requires Aligned(text, cps, k, p) && p >= |text| && PassFrom(c, face, cps, k, goal)
    ensures c == goal
  {
    assert CodepointsFrom(text, p) == [];
  }

  /** `initFreeType`: a failing `FT_Init_FreeType`, or no font path that
      opens, exits with 1 before any entry is written; otherwise the first
      path that opens is used and the demo string's glyphs are preloaded.
      `faceOf` stands for the face a path opens to, at 48 pixels. */
  method InitFreeType(table: array<Character>, names: TextureNames, libraryOk: bool,
                      opens: string -> bool, faceOf: string -> Face)
    returns (result: InitResult)
    requires names.Valid() && table.Length == MAX_CHARS
    modifies table, names
    ensures names.Valid()
    ensures result.Exit? ==> result.code == 1 && table[..] == old(table[..]) && names.next == old(names.next)
    ensures result.Exit? <==> !libraryOk || forall j :: 0 <= j < |FontPaths| ==> !opens(FontPaths[j])
    ensures result.FontLoaded? ==>
      && result.path < |FontPaths| && opens(FontPaths[result.path])
      && (forall j :: 0 <= j < result.path ==> !opens(FontPaths[j]))
      && Cache(table[..], names.next, result.attempts)
         == PreloadMissing(Cache(old(table[..]), old(names.next), []), faceOf(FontPaths[result.path]), DemoCodepoints)
  {
    if !libraryOk {
      return Exit(1);
    }
    var found := FirstOpenable(FontPaths, opens);
    if found.None? {
      return Exit(1);
    }
    DemoTextDecodes();
    var attempts := PreloadGlyphs(table, names, faceOf(FontPaths[found.value]), DemoText);
    result := FontLoaded(found.value, attempts);
  }

  /** The preload leaves the table as the renderer needs it: unloaded
      entries blank, texture names distinct; each demo codepoint whose glyph
      loads holds its metrics, each one that fails stays blank. */
  lemma PreloadedDemoTable(t: seq<Character>, next: nat, face: Face)
    requires |t| == MAX_CHARS && next > 0 && UnloadedBlank(t) && TexturesBelow(t, next)
    requires forall k :: 0 <= k < |DemoCodepoints| ==> !Loaded(t[DemoCodepoints[k]])
    ensures InTable(DemoCodepoints, |t|)
    ensures var c' := PreloadMissing(Cache(t, next, []), face, DemoCodepoints);
      && UnloadedBlank(c'.table) && TexturesBelow(c'.table, c'.next)
      && (forall k :: 0 <= k < |DemoCodepoints| && face(DemoCodepoints[k]).Some? ==>
            var ch := c'.table[DemoCodepoints[k]];
            Loaded(ch) && HoldsMetrics(ch, face(DemoCodepoints[k]).value))
      && (forall k :: 0 <= k < |DemoCodepoints| && face(DemoCodepoints[k]).None? ==>
            c'.table[DemoCodepoints[k]] == Blank)
  {
    DemoCodepointsFit();
    var c := Cache(t, next, []);
    PreloadKeepsInvariant(c, face, DemoCodepoints);
    forall k | 0 <= k < |DemoCodepoints| && face(DemoCodepoints[k]).Some?
      ensures var ch := PreloadMissing(c, face, DemoCodepoints).table[DemoCodepoints[k]];
              Loaded(ch) && HoldsMetrics(ch, face(DemoCodepoints[k]).value)
    {
      PreloadFills(c, face, DemoCodepoints, DemoCodepoints[k]);
    }
    forall k | 0 <= k < |DemoCodepoints| && face(DemoCodepoints[k]).None?
      ensures PreloadMissing(c, face, DemoCodepoints).table[DemoCodepoints[k]] == Blank
    {
      PreloadFrame(c, face, DemoCodepoints, DemoCodepoints[k]);
    }
  }

  /** The width pre-pass of `main`: the sum of `(Advance >> 6) * scale` over
      the decoded codepoints, unloaded entries included. */
  method TextWidth(table: array<Character>, text: seq<byte>, scale: real) returns (textWidth: real)
    requires CString(text) && Framed(text) && InTable(Codepoints(text), table.Length)
    ensures textWidth == Width(Glyphs(table[..], Codepoints(text)), scale)
  {
    textWidth := 0.0;
    var p := 0;
    ghost var done: seq<nat> := [];
    ProgressStart(text);
    while p < |text|
      invariant Progress(text, done, p)
      invariant InTable(done, table.Length)
      invariant textWidth == Measured(table[..], done, scale)
      decreases |text| - p
    {
      var d := DecodeAt(text, p);
      var codepoint := d.codepoint;
      DecodeNext(text, done, p, codepoint, d.consumed);
      MeasuredSnoc(table[..], done, codepoint, scale);
      textWidth := textWidth + Step(table[codepoint], scale);
      done := done + [codepoint];
      p := p + d.consumed;
    }
    DecodeDone(text, done, p);
    MeasuredIsWidth(table[..], done, scale);
  }

  /** The width pre-pass over decoded codepoints: every looked-up glyph,
      loaded or not, adds its step. */
  function Measured(t: seq<Character>, cps: seq<nat>, scale: real): (w: real)
    requires InTable(cps, |t|)
    ensures 0.0 <= scale && (forall k :: 0 <= k < |t| ==> 0 <= t[k].advance) ==> 0.0 <= w
    decreases |cps|
  {
    if cps == [] then 0.0
    else Measured(t, cps[..|cps| - 1], scale) + Step(t[cps[|cps| - 1]], scale)
  }

  lemma MeasuredSnoc(t: seq<Character>, cps: seq<nat>, cp: nat, scale: real)
    requires InTable(cps, |t|) && cp < |t|
    ensures InTable(cps + [cp], |t|)
    ensures Measured(t, cps + [cp], scale) == Measured(t, cps, scale) + Step(t[cp], scale)
  {
    assert (cps + [cp])[..|cps|] == cps;
  }

  /** The pre-pass measures exactly the width of the looked-up glyphs. */
  lemma {:induction false} MeasuredIsWidth(t: seq<Character>, cps: seq<nat>, scale: real)
    requires InTable(cps, |t|)
    ensures Measured(t, cps, scale) == Width(Glyphs(t, cps), scale)
    decreases |cps|
  {
    if cps != [] {
      var init, cp := cps[..|cps| - 1], cps[|cps| - 1];
      assert init + [cp] == cps;
      MeasuredIsWidth(t, init, scale);
      WidthGlyphsSnoc(t, init, cp, scale);
    }
  }

  /** What `renderText` has emitted after the codepoints `cps`: the draws
      so far and the pen position. */
  datatype Pen = Pen(draws: seq<Draw>, penX: real)

  /** `renderText` over decoded codepoints: a codepoint whose entry has no
      texture changes nothing; a loaded one adds its draw at the pen, in
      the colour of the next drawn glyph, and advances the pen by its step. */
  function Rendered(t: seq<Character>, cps: seq<nat>, x: real, y: real, scale: real,
                    r: real, g: real, b: real, rand: nat -> nat): (pen: Pen)
    requires InTable(cps, |t|)
    ensures |pen.draws| <= |cps|
    ensures forall i :: 0 <= i < |pen.draws| ==> Loaded(pen.draws[i].glyph)
    decreases |cps|
  {
    if cps == [] then Pen([], x)
    else
      var pen := Rendered(t, cps[..|cps| - 1], x, y, scale, r, g, b, rand);
      var ch := t[cps[|cps| - 1]];
      if ch.textureId == 0 then pen
      else Pen(pen.draws + [Draw(ch, pen.penX, y, scale, GlyphColor(RainbowMode(r, g, b), r, g, b, rand, |pen.draws|))],
               pen.penX + Step(ch, scale))
  }

  lemma RenderedSnoc(t: seq<Character>, cps: seq<nat>, cp: nat, x: real, y: real, scale: real,
                     r: real, g: real, b: real, rand: nat -> nat)
    requires InTable(cps, |t|) && cp < |t|
    ensures InTable(cps + [cp], |t|)
    ensures var pen := Rendered(t, cps, x, y, scale, r, g, b, rand);
            var ch := t[cp];
            Rendered(t, cps + [cp], x, y, scale, r, g, b, rand)
            == if ch.textureId == 0 then pen
               else Pen(pen.draws + [Draw(ch, pen.penX, y, scale, GlyphColor(RainbowMode(r, g, b), r, g, b, rand, |pen.draws|))],
                        pen.penX + Step(ch, scale))
  {
    assert (cps + [cp])[..|cps|] == cps;
  }

  /** The draws `renderText` emits are those of the loaded glyphs laid out
      from `x`, the `i`-th in the colour of the `i`-th drawn glyph, and the
      pen ends at `x` plus their total width. */
  lemma {:induction false} RenderedDraws(t: seq<Character>, cps: seq<nat>, x: real, y: real, scale: real,
                                         r: real, g: real, b: real, rand: nat -> nat)
    requires InTable(cps, |t|)
    ensures var pen := Rendered(t, cps, x, y, scale, r, g, b, rand);
            var shown := Shown(Glyphs(t, cps));
      && DrawsOf(pen.draws, shown, x, y, scale, r, g, b, rand)
      && pen.penX == x + Width(shown, scale)
    decreases |cps|
  {
    if cps != [] {
      var init, cp := cps[..|cps| - 1], cps[|cps| - 1];
      assert init + [cp] == cps;
      RenderedDraws(t, init, x, y, scale, r, g, b, rand);
      RenderedSnoc(t, init, cp, x, y, scale, r, g, b, rand);
      var before := Glyphs(t, init);
      GlyphsSnoc(t, init, cp);
      ShownSnoc(before, t[cp]);
      var pen := Rendered(t, init, x, y, scale, r, g, b, rand);
      if t[cp].textureId == 0 {
        assert Shown(Glyphs(t, cps)) == Shown(before);
      } else {
        assert Shown(Glyphs(t, cps)) == Shown(before) + [t[cp]];
        DrawsSnoc(pen.draws, Shown(before), t[cp], pen.penX, x, y, scale, r, g, b, rand);
      }
    }
  }

  /** `renderText`: decode the text; skip a codepoint whose entry has no
      texture (no draw, no advance); otherwise pick the colour, draw the
      glyph's quad at the pen and advance the pen. */
  method RenderText(table: array<Character>, text: seq<byte>, x: real, y: real, scale: real,
                    r: real, g: real, b: real, rand: nat -> nat)
    returns (draws: seq<Draw>, penX: real)
    requires CString(text) && Framed(text) && InTable(Codepoints(text), table.Length)
    ensures Pen(draws, penX) == Rendered(table[..], Codepoints(text), x, y, scale, r, g, b, rand)
  {
    var rainbowMode := RainbowMode(r, g, b);
    penX := x;
    draws := [];
    var p := 0;
    ghost var done: seq<nat> := [];
    ProgressStart(text);
    while p < |text|
      invariant Progress(text, done, p)
      invariant InTable(done, table.Length)
      invariant Pen(draws, penX) == Rendered(table[..], done, x, y, scale, r, g, b, rand)
      decreases |text| - p
    {
      var d := DecodeAt(text, p);
      var codepoint := d.codepoint;
      DecodeNext(text, done, p, codepoint, d.consumed);
      RenderedSnoc(table[..], done, codepoint, x, y, scale, r, g, b, rand);
      p := p + d.consumed;
      done := done + [codepoint];
      var ch := table[codepoint];
      if ch.textureId == 0 {
        continue;
      }
      var color := GlyphColor(rainbowMode, r, g, b, rand, |draws|);
      draws := draws + [Draw(ch, penX, y, scale, color)];
      penX := penX + Step(ch, scale);
    }
    DecodeDone(text, done, p);
  }

  /** One iteration of the main loop: measure the demo string, centre it,
      and draw it three times on baselines 100 pixels apart, in black, in
      rainbow colours and in gold. With unloaded entries blank, every line
      ends where the pre-pass said: the margins left and right are equal. */
  method DrawFrame(table: array<Character>, rand: nat -> nat)
    returns (x: real, black: seq<Draw>, rainbow: seq<Draw>, gold: seq<Draw>,
             end0: real, end1: real, end2: real)
    requires table.Length == MAX_CHARS && UnloadedBlank(table[..])
    ensures InTable(DemoCodepoints, table.Length)
    ensures var gs := Glyphs(table[..], DemoCodepoints);
            var y := HEIGHT as real / 2.0;
      && x == CenteredX(Width(gs, Scale))
      && DrawsOf(black, Shown(gs), x, y - 100.0, Scale, 0.0, 0.0, 0.0, rand)
      && DrawsOf(rainbow, Shown(gs), x, y, Scale, -1.0, -1.0, -1.0, rand)
      && DrawsOf(gold, Shown(gs), x, y + 100.0, Scale, 255.0, 215.0, 0.0, rand)
      && end0 == end1 == end2 == x + Width(gs, Scale)
      && x + end0 == WIDTH as real
  {
    DemoTextDecodes();
    ghost var gs := Glyphs(table[..], DemoCodepoints);
    var textWidth := TextWidth(table, DemoText, Scale);
    x := CenteredX(textWidth);
    var y := HEIGHT as real / 2.0;
    black, end0 := RenderText(table, DemoText, x, y - 100.0, Scale, 0.0, 0.0, 0.0, rand);
    DemoLine(table[..], x, y - 100.0, 0.0, 0.0, 0.0, rand);
    rainbow, end1 := RenderText(table, DemoText, x, y, Scale, -1.0, -1.0, -1.0, rand);
    DemoLine(table[..], x, y, -1.0, -1.0, -1.0, rand);
    gold, end2 := RenderText(table, DemoText, x, y + 100.0, Scale, 255.0, 215.0, 0.0, rand);
    DemoLine(table[..], x, y + 100.0, 255.0, 215.0, 0.0, rand);
  }

  /** `main` from the table allocation to the first frame: `calloc`, then
      `initFreeType`, which either exits with 1 or preloads the demo glyphs,
      then one pass of the main loop. Whatever glyphs fail to load, all
      three lines end at `WIDTH - x`: the pre-pass width equals the pen
      displacement on the table the program actually builds. */
  method Startup(libraryOk: bool, opens: string -> bool, faceOf: string -> Face, rand: nat -> nat)
    returns (result: InitResult, x: real, black: seq<Draw>, rainbow: seq<Draw>, gold: seq<Draw>,
             end0: real, end1: real, end2: real)
    ensures result.Exit? <==> !libraryOk || forall j :: 0 <= j < |FontPaths| ==> !opens(FontPaths[j])
    ensures result.Exit? ==> result.code == 1
    ensures result.FontLoaded? ==> end0 == end1 == end2 && x + end0 == WIDTH as real
  {
    var table := AllocCharacters();
    var names := new TextureNames();
    ghost var t0 := table[..];
    result := InitFreeType(table, names, libraryOk, opens, faceOf);
    x, black, rainbow, gold, end0, end1, end2 := 0.0, [], [], [], 0.0, 0.0, 0.0;
    if result.Exit? {
      return;
    }
    DemoCodepointsFit();
    PreloadKeepsInvariant(Cache(t0, 1, []), faceOf(FontPaths[result.path]), DemoCodepoints);
    x, black, rainbow, gold, end0, end1, end2 := DrawFrame(table, rand);
  }

  /** One line of the demo string drawn from `x` on the baseline `y`: the
      draws of its loaded glyphs, ending where the pre-pass width says. */
  lemma DemoLine(t: seq<Character>, x: real, y: real, r: real, g: real, b: real, rand: nat -> nat)
    requires |t| == MAX_CHARS && UnloadedBlank(t)
    ensures InTable(DemoCodepoints, |t|)
    ensures var pen := Rendered(t, DemoCodepoints, x, y, Scale, r, g, b, rand);
      && DrawsOf(pen.draws, Shown(Glyphs(t, DemoCodepoints)), x, y, Scale, r, g, b, rand)
      && pen.penX == x + Width(Glyphs(t, DemoCodepoints), Scale)
  {
    DemoCodepointsFit();
    RenderedDraws(t, DemoCodepoints, x, y, Scale, r, g, b, rand);
    SkippedGlyphsAreBlank(t, Scale);
  }

  /** With unloaded entries blank, the demo string's loaded glyphs are as
      wide as all its glyphs: the renderer's skips cost no width. */
  lemma SkippedGlyphsAreBlank(t: seq<Character>, scale: real)
    requires |t| == MAX_CHARS && UnloadedBlank(t)
    ensures InTable(DemoCodepoints, |t|)
    ensures Width(Shown(Glyphs(t, DemoCodepoints)), scale) == Width(Glyphs(t, DemoCodepoints), scale)
  {
    DemoCodepointsFit();
    LookupUnloadedIsBlank(t, DemoCodepoints);
    WidthOfShown(Glyphs(t, DemoCodepoints), scale);
  }
}
