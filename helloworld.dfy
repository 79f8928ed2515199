/** helloworld.c: the Latin demo. A static table of 128 `Character`
    entries, indexed by byte, is filled for codes 0..127 whether or not an
    entry is already loaded; each frame "Hello World!" is measured, centred
    and drawn three times (black, rainbow, gold). `renderText` draws every
    byte, loaded or not. */
module HelloWorld {
  import opened Glyph
  import opened Utf8
  import opened ColorPolicy
  import opened Quad
  import opened Layout
  import opened GlyphCache
  import opened Render

  /** The fonts `initFreeType` tries, in order. */
  const LatinFontPaths: seq<string> := [
    "fonts/arial.ttf",
    "/usr/share/fonts/truetype/freefont/FreeSans.ttf",
    "/usr/share/fonts/TTF/DejaVuSans.ttf",
    "/System/Library/Fonts/Helvetica.ttc",
    "/Library/Fonts/Arial.ttf",
    "C:\\Windows\\Fonts\\arial.ttf"
  ]

  /** "Hello World!" as bytes, without the terminating NUL. */
  const HelloText: seq<byte> := [72, 101, 108, 108, 111, 32, 87, 111, 114, 108, 100, 33]

  const Scale: real := 1.5

  /** Every byte indexes the 128-entry table (`Characters[*c]`). */
  predicate Ascii(text: seq<byte>)
  {
    forall k :: 0 <= k < |text| ==> text[k] < 128
  }

  /** The table indices a text looks up, one per byte. */
  function Codes(text: seq<byte>): (cps: seq<nat>)
    ensures |cps| == |text|
    ensures forall k :: 0 <= k < |text| ==> cps[k] == text[k] as nat
    ensures Ascii(text) ==> InTable(cps, ASCII_CHARS)
  {
    seq(|text|, k requires 0 <= k < |text| => text[k] as nat)
  }

  lemma HelloIsAscii()
    ensures CString(HelloText) && Ascii(HelloText)
    ensures Codes(HelloText)[0] == 'H' as nat && Codes(HelloText)[11] == '!' as nat
  {
  }

  /** The zero-initialised static table: every entry unloaded and blank,
      and no texture name in use. */
  method AllocCharacters() returns (table: array<Character>)
    ensures fresh(table) && table.Length == ASCII_CHARS
    ensures forall k :: 0 <= k < table.Length ==> table[k] == Blank
    ensures UnloadedBlank(table[..]) && TexturesBelow(table[..], 1)
  {
    table := new Character[ASCII_CHARS](_ => Blank);
  }

  /** The preload loop of `initFreeType`: for every code 0..127, call the
      rasterizer; on failure go on, on success take a texture name and
      overwrite the entry, whatever it held. */
  method PreloadAscii(table: array<Character>, names: TextureNames, face: Face)
    returns (attempts: seq<nat>)
    requires names.Valid() && table.Length == ASCII_CHARS
    modifies table, names
    ensures names.Valid()
    ensures Cache(table[..], names.next, attempts)
         == PreloadAll(Cache(old(table[..]), old(names.next), []), face, Span(0, ASCII_CHARS))
  {
    ghost var goal := PreloadAll(Cache(table[..], names.next, []), face, Span(0, ASCII_CHARS));
    attempts := [];
    for c := 0 to ASCII_CHARS
      invariant names.Valid()
      invariant PreloadAll(Cache(table[..], names.next, attempts), face, Span(c, ASCII_CHARS)) == goal
    {
      PreloadAllStep(Cache(table[..], names.next, attempts), face, c, ASCII_CHARS);
      attempts := LoadGlyph(table, names, face, c, attempts);
    }
  }

  /** What the preload leaves in a blank table: the rasterizer is called
      for 0..127 in order; every code whose glyph loads holds its metrics
      under its own texture name, every code whose glyph fails stays blank,
      and the table invariant holds. */
  lemma LatinPreloadEffect(t: seq<Character>, next: nat, face: Face)
    requires |t| == ASCII_CHARS && next > 0
    requires forall k :: 0 <= k < |t| ==> t[k] == Blank
    ensures var c' := PreloadAll(Cache(t, next, []), face, Span(0, ASCII_CHARS));
      && c'.attempts == Span(0, ASCII_CHARS)
      && UnloadedBlank(c'.table) && TexturesBelow(c'.table, c'.next)
      && (forall k :: 0 <= k < ASCII_CHARS && face(k).Some? ==>
            Loaded(c'.table[k]) && HoldsMetrics(c'.table[k], face(k).value))
      && (forall k :: 0 <= k < ASCII_CHARS && face(k).None? ==> c'.table[k] == Blank)
  {
    var c := Cache(t, next, []);
    var cps := Span(0, ASCII_CHARS);
    SpanIsRange(0, ASCII_CHARS);
    assert InTable(cps, |t|);
    PreloadAllAttempts(c, face, cps);
    PreloadAllIsPreloadMissing(c, face, cps);
    PreloadKeepsInvariant(c, face, cps);
    forall k | 0 <= k < ASCII_CHARS && face(k).Some?
      ensures Loaded(PreloadMissing(c, face, cps).table[k])
      ensures HoldsMetrics(PreloadMissing(c, face, cps).table[k], face(k).value)
    {
      assert cps[k] == k;
      PreloadFills(c, face, cps, k);
    }
    forall k | 0 <= k < ASCII_CHARS && face(k).None?
      ensures PreloadMissing(c, face, cps).table[k] == Blank
    {
      PreloadFrame(c, face, cps, k);
    }
  }

  /** Unlike the CJK pass, a second Latin pass reloads every glyph that
      loads: each such entry gets a texture name taken during the second
      pass, so the first pass's names are dropped without being deleted. */
  lemma {:induction false} PreloadAllRenames(c: Cache, face: Face, cps: seq<nat>, k: nat)
    requires InTable(cps, |c.table|) && k in cps && face(k).Some?
    ensures var c' := PreloadAll(c, face, cps);
            c.next <= c'.table[k].textureId < c'.next && HoldsMetrics(c'.table[k], face(k).value)
    decreases |cps|
  {
    var c1 := Load(c, face, cps[0]);
    if k in cps[1..] {
      PreloadAllRenames(c1, face, cps[1..], k);
    } else {
      assert cps[0] == k;
      PreloadAllLeaves(c1, face, cps[1..], k);
    }
  }

  /** An entry whose code is not passed to the Latin pass is untouched. */
  lemma {:induction false} PreloadAllLeaves(c: Cache, face: Face, cps: seq<nat>, k: nat)
    requires InTable(cps, |c.table|) && k < |c.table| && k !in cps
    ensures PreloadAll(c, face, cps).table[k] == c.table[k]
    ensures PreloadAll(c, face, cps).next >= c.next
    decreases |cps|
  {
    if cps != [] {
      assert k != cps[0] && k !in cps[1..];
      PreloadAllLeaves(Load(c, face, cps[0]), face, cps[1..], k);
    }
  }

  /** `initFreeType`: a failing `FT_Init_FreeType`, or no font path that
      opens, exits with 1 before any entry is written; otherwise the first
      path that opens is used and codes 0..127 are loaded. `faceOf` stands
      for the face a path opens to, at 48 pixels. */
  method InitFreeType(table: array<Character>, names: TextureNames, libraryOk: bool,
                      opens: string -> bool, faceOf: string -> Face)
    returns (result: InitResult)
    requires names.Valid() && table.Length == ASCII_CHARS
    modifies table, names
    ensures names.Valid()
    ensures result.Exit? ==> result.code == 1 && table[..] == old(table[..]) && names.next == old(names.next)
    ensures result.Exit? <==> !libraryOk || forall j :: 0 <= j < |LatinFontPaths| ==> !opens(LatinFontPaths[j])
    ensures result.FontLoaded? ==>
      && result.path < |LatinFontPaths| && opens(LatinFontPaths[result.path])
      && (forall j :: 0 <= j < result.path ==> !opens(LatinFontPaths[j]))
      && Cache(table[..], names.next, result.attempts)
         == PreloadAll(Cache(old(table[..]), old(names.next), []), faceOf(LatinFontPaths[result.path]),
                       Span(0, ASCII_CHARS))
  {
    if !libraryOk {
      return Exit(1);
    }
    var found := FirstOpenable(LatinFontPaths, opens);
    if found.None? {
      return Exit(1);
    }
    var attempts := PreloadAscii(table, names, faceOf(LatinFontPaths[found.value]));
    result := FontLoaded(found.value, attempts);
  }

  /** The width pre-pass of `main`: the sum of `(Advance >> 6) * scale`
      over the bytes of the text. */
  method TextWidth(table: array<Character>, text: seq<byte>, scale: real) returns (textWidth: real)
    requires table.Length == ASCII_CHARS && CString(text) && Ascii(text)
    ensures textWidth == Width(Glyphs(table[..], Codes(text)), scale)
  {
    textWidth := 0.0;
    var i := 0;
    while i < |text|
      invariant 0 <= i <= |text|
      invariant textWidth == Width(Glyphs(table[..], Codes(text)[..i]), scale)
    {
      assert Codes(text)[..i + 1] == Codes(text)[..i] + [text[i] as nat];
      WidthGlyphsSnoc(table[..], Codes(text)[..i], text[i] as nat, scale);
      textWidth := textWidth + Step(table[text[i]], scale);
      i := i + 1;
    }
    assert Codes(text)[..i] == Codes(text);
  }

  /** `renderText`: for every byte, pick the colour, draw the entry's quad
      at the pen and advance the pen, loaded or not. The draws are those of
      all the looked-up glyphs laid out from `x`; the pen ends at `x` plus
      their total width. */
  method RenderText(table: array<Character>, text: seq<byte>, x: real, y: real, scale: real,
                    r: real, g: real, b: real, rand: nat -> nat)
    returns (draws: seq<Draw>, penX: real)
    requires table.Length == ASCII_CHARS && CString(text) && Ascii(text)
    ensures var gs := Glyphs(table[..], Codes(text));
      && DrawsOf(draws, gs, x, y, scale, r, g, b, rand)
      && penX == x + Width(gs, scale)
  {
    var rainbowMode := RainbowMode(r, g, b);
    penX := x;
    draws := [];
    var i := 0;
    while i < |text|
      invariant 0 <= i <= |text|
      invariant DrawsOf(draws, Glyphs(table[..], Codes(text)[..i]), x, y, scale, r, g, b, rand)
      invariant penX == x + Width(Glyphs(table[..], Codes(text)[..i]), scale)
    {
      var ch := table[text[i]];
      ghost var before := Glyphs(table[..], Codes(text)[..i]);
      assert Codes(text)[..i + 1] == Codes(text)[..i] + [text[i] as nat];
      GlyphsSnoc(table[..], Codes(text)[..i], text[i] as nat);
      var color := GlyphColor(rainbowMode, r, g, b, rand, |draws|);
      DrawsSnoc(draws, before, ch, penX, x, y, scale, r, g, b, rand);
      draws := draws + [Draw(ch, penX, y, scale, color)];
      penX := penX + Step(ch, scale);
      i := i + 1;
    }
    assert Codes(text)[..i] == Codes(text);
  }

  /** One iteration of the main loop: measure "Hello World!", centre it,
      and draw it three times on baselines 100 pixels apart, in black, in
      rainbow colours and in gold. Every line ends where the pre-pass said,
      whatever the table holds: the margins left and right are equal. */
  method DrawFrame(table: array<Character>, rand: nat -> nat)
    returns (x: real, black: seq<Draw>, rainbow: seq<Draw>, gold: seq<Draw>,
             end0: real, end1: real, end2: real)
    requires table.Length == ASCII_CHARS
    ensures InTable(Codes(HelloText), table.Length)
    ensures var gs := Glyphs(table[..], Codes(HelloText));
            var y := HEIGHT as real / 2.0;
      && x == CenteredX(Width(gs, Scale))
      && DrawsOf(black, gs, x, y - 100.0, Scale, 0.0, 0.0, 0.0, rand)
      && DrawsOf(rainbow, gs, x, y, Scale, -1.0, -1.0, -1.0, rand)
      && DrawsOf(gold, gs, x, y + 100.0, Scale, 255.0, 215.0, 0.0, rand)
      && end0 == end1 == end2 == x + Width(gs, Scale)
      && x + end0 == WIDTH as real
  {
    HelloIsAscii();
    var textWidth := TextWidth(table, HelloText, Scale);
    x := CenteredX(textWidth);
    var y := HEIGHT as real / 2.0;
    black, end0 := RenderText(table, HelloText, x, y - 100.0, Scale, 0.0, 0.0, 0.0, rand);
    rainbow, end1 := RenderText(table, HelloText, x, y, Scale, -1.0, -1.0, -1.0, rand);
    gold, end2 := RenderText(table, HelloText, x, y + 100.0, Scale, 255.0, 215.0, 0.0, rand);
  }
}
