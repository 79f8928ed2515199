# OpenGL-Learning text demos, modelled in Dafny

This project models the text-drawing core of two OpenGL/FreeType demo
programs. `helloworld.c` draws "Hello World!" using a 128-entry glyph table
indexed by byte. `helloworld_cn.c` draws "你好，世界！" using a 65536-entry
table indexed by Unicode codepoint, after decoding the UTF-8 text with its own
decoder, `codepoint_from_utf8`. Both programs work in three steps. First they
fill the glyph table from a font: each loaded glyph gets a GL texture name
and its metrics. Then, every frame, a pre-pass measures the text to centre
it. Finally `renderText` draws one textured quad per glyph at a moving pen
position, in a fixed colour or in per-glyph "rainbow" colours.

Modules, one per file:

- `Glyph` (glyph.dfy): the `Character` record, font metrics, the window and
  table sizes, and the table invariants.
- `Utf8` (utf8.dfy): the decoder, a reference RFC 3629 encoder, and the view
  of a C string as the codepoints its decoding loop yields.
- `ColorPolicy` (color.dfy): fixed and rainbow colours. `rand()` is a stream
  `rand: nat -> nat`, where `rand(k)` is the k-th call after the `srand` at
  the start of a `renderText` call.
- `Quad` (quad.dfy): a glyph's rectangle, its six-vertex buffer, and the
  draw record.
- `Layout` (layout.dfy): pen advances, text width, the "loaded glyphs only"
  filter of the CJK renderer, and centring.
- `Render` (render.dfy): what one `renderText` call emits.
- `GlyphCache` (glyph_cache.dfy): the specification functions of the two
  preload passes and their lemmas, the texture-name allocator, and the
  font-path probe.
- `HelloWorldCn` (helloworld_cn.dfy) and `HelloWorld` (helloworld.dfy): the
  two programs' loops as methods over an `array<Character>`, each proved
  against those specification functions.

The main result is that the pre-pass width equals the distance the pen
travels while drawing. In the Latin program this holds for any table. In the
CJK program, unloaded glyphs are skipped while drawing but still counted in
the pre-pass. The two agree because the table starts zeroed and a failed
load never writes an entry: every unloaded entry has advance 0
(`Layout.WidthOfShown`, `HelloWorldCn.DrawFrame`). So the layout cannot drift
out of step, whichever skip rule is chosen.

Two points about how the programs fill their tables:

- The Latin preload loop (helloworld.c:266-305) calls the rasterizer for
  every code from 0 to 127 without looking at `TextureID`, and overwrites the
  entry. The model keeps this as `PreloadAll`, next to the CJK rule
  `PreloadMissing`, which loads a codepoint only when its entry has
  `TextureID == 0`. `GlyphCache.PreloadAllIsPreloadMissing` shows the two
  passes agree on a fresh table. `HelloWorld.PreloadAllRenames` shows that a
  second Latin pass would give every loadable glyph a new texture name.
- The CJK program never overwrites a loaded entry (`PreloadFrame`,
  `PreloadSettled`). In the Latin program entries stay as first written only
  because the preload runs once.

## Model

| member | source | states |
|---|---|---|
| Utf8.SequenceLength | helloworld_cn.c:341-354 | A lead byte announces at most four bytes. |
| Utf8.LeadClasses | helloworld_cn.c:341-354 | A lead byte announces 1, 2, 3 or 4 bytes exactly when it is in 0x00-0x7F, 0xC0-0xDF, 0xE0-0xEF or 0xF0-0xF7 respectively. Any other byte is in no class. |
| Utf8.DecodeAt | helloworld_cn.c:337-357 | The pointer moves by exactly the length class of the lead byte. An unclassified lead yields codepoint 0 and the pointer does not move. A byte below 0x80 decodes to itself. Every result is below 0x200000. Sequences of 1 to 3 bytes give results below 0x10000. |
| Utf8.Encode | helloworld_cn.c:341-353 | Reference encoder (RFC 3629, section 3) used as the decoder's partner. Its length class matches its lead byte, continuation bytes are 0x80-0xBF, and a non-zero codepoint encodes without a NUL byte. |
| Utf8.DecodeEncode2 | helloworld_cn.c:344-346 | Every codepoint in 0x80-0x7FF, in its two-byte form, decodes back to itself in 2 bytes. |
| Utf8.DecodeEncode3 | helloworld_cn.c:347-349 | Every codepoint in 0x800-0xFFFF, in its three-byte form, decodes back to itself in 3 bytes. |
| Utf8.DecodeEncode4 | helloworld_cn.c:350-353 | Every codepoint in 0x10000-0x10FFFF, in its four-byte form, decodes back to itself in 4 bytes. |
| Utf8.DecodeEncode | helloworld_cn.c:337-357 | Round trip for every codepoint up to 0x10FFFF, wherever its encoding sits in a buffer: decode(encode(cp)) = (cp, length of the encoding). |
| Utf8.EncodeAllFrom | helloworld_cn.c:286-287 | The decoding loop, started at any offset before a sequence of encodings, steps exactly over each sequence and yields the original codepoints. |
| Utf8.CodepointsFromLength | helloworld_cn.c:286-287 | The `while (*p)` decoding loop yields at most one codepoint per byte of the text. |
| Utf8.DecodeNext | helloworld_cn.c:286-287 | One pass of a `while (*p)` decoding loop moves the pointer forward and yields the next codepoint of the text. The rest of the text stays framed. |
| Utf8.DecodeDone | helloworld_cn.c:286 | A decoding loop that reaches the terminator has yielded every codepoint of the text. |
| Utf8.EncodeAllNoNul | helloworld_cn.c:286 | Encoding non-NUL codepoints produces no NUL byte, so the `while (*p)` loop stops only at the terminator. |
| Utf8.EncodeAllRoundTrip | helloworld_cn.c:372-375 | Any sequence of codepoints in 1-0x10FFFF encodes to a C string whose decoding loop terminates and returns that same sequence. |
| Utf8.NoFourByteLeadsFitTable | helloworld_cn.c:347-353 | A framed text in which no byte the loop reads as a lead is 0xF0 or above decodes only to codepoints below 0x10000. Each of those codepoints indexes the 65536-entry table. Continuation bytes are unconstrained. |
| Utf8.ContinuationMayExceedF0 | helloworld_cn.c:347-349 | E4 F5 A0, whose continuation byte is 0xF5, meets that condition and decodes to U+4D60. |
| Utf8.StrayByteStalls | helloworld_cn.c:340-355 | A byte in 0x80-0xBF or 0xF8-0xFF at a lead position decodes to 0 without moving the pointer. No text holding one there is framed. |
| Utf8.TruncatedSequenceOverruns | helloworld_cn.c:343-353 | A sequence cut short by the end of the text is not framed. |
| Utf8.DecodeIgnoresContinuationTags | helloworld_cn.c:345-352 | Continuation bytes are never checked: only their low six bits affect the result. |
| Utf8.DecodeNi | helloworld_cn.c:347-349 | E4 BD A0 decodes to U+4F60 in 3 bytes. |
| Utf8.DecodeAcceptsMalformed | helloworld_cn.c:344-349 | Malformed input is accepted as written: the overlong C0 80 gives U+0000, the surrogate ED A0 80 gives U+D800, and C3 41 gives U+00C1. |
| ColorPolicy.FixedColor | helloworld_cn.c:406-409 | In fixed mode each channel is its input divided by 255. |
| ColorPolicy.RainbowMode | helloworld_cn.c:366 | Outside rainbow mode no input is negative, so the fixed colour has no negative channel. |
| ColorPolicy.VividColor | helloworld_cn.c:389-405 | The channel picked by the first `rand()` (mod 3) is the bright one, in [0.8, 1.0). The other two are in [0.0, 0.6). |
| ColorPolicy.VividColorIsVivid | helloworld_cn.c:389-405 | Every channel is a whole number of hundredths: (80+k)/100 with 0 <= k < 20 for the bright one, j/100 with 0 <= j < 60 for the others. So exactly one channel is at least 0.8. |
| ColorPolicy.GlyphColor | helloworld_cn.c:382-409 | In rainbow mode, the i-th drawn glyph's bright channel is picked by call 4i of the stream and lies in [0.8, 1.0). Otherwise each channel times 255 is the input. |
| ColorPolicy.GlyphColorPolicy | helloworld_cn.c:366-409 | In rainbow mode every drawn glyph gets a vivid colour. |
| ColorPolicy.GoldNormalizes | helloworld_cn.c:161 | (255, 215, 0) becomes (1, 0.8431..., 0). |
| ColorPolicy.DemoColorModes | helloworld_cn.c:159-161 | (0, 0, 0) and (255, 215, 0) are fixed colours, and (-1, -1, -1) turns rainbow mode on. |
| Quad.QuadVertices | helloworld_cn.c:422-430 | Six vertices forming two triangles. The triangles share the diagonal from the top-left vertex to the bottom-right one, and these two vertices differ. |
| Quad.GlyphQuad | helloworld_cn.c:412-419 | The quad's left edge is Left*scale right of the pen, and its top edge is Top*scale above the baseline. |
| Quad.QuadCoversRectangle | helloworld_cn.c:422-430 | The six vertices lie in [xpos, xpos+w] x [ypos, ypos+h] and use all four corners. Both triangles are counter-clockwise with area w*h/2 each. Texture coordinates map affinely, with (0,0) at (xpos, ypos+h). |
| Quad.GlyphQuadPlacement | helloworld_cn.c:412-419 | The quad starts Left*scale to the right of the pen, its top edge is Top*scale above the baseline, and it is Width*scale wide and Height*scale tall. |
| Layout.Step | helloworld_cn.c:149 | The pen step `(Advance >> 6) * scale`, also used at line 438. A zero advance does not move the pen. A non-negative advance moves it rightward. Dropping the low six bits never rounds up. |
| Layout.WidthAppend | helloworld_cn.c:145-150 | The pre-pass width adds up over concatenation. |
| Layout.ShownAreLoaded | helloworld_cn.c:376-379 | The CJK renderer draws only loaded glyphs, and when every glyph is loaded it draws them all. |
| Layout.WidthOfShown | helloworld_cn.c:373-439 | If every unloaded glyph has advance 0, skipping unloaded glyphs does not change the total width. |
| Layout.LookupUnloadedIsBlank | helloworld_cn.c:99 | In a table whose unloaded entries are blank, every unloaded glyph the text looks up has advance 0. |
| Layout.CenteredX | helloworld_cn.c:153 | x = (WIDTH - textWidth)/2 leaves equal margins: x + (x + textWidth) = WIDTH. |
| Layout.HiIsCentered | helloworld.c:134-143 | A worked example: advances of 960 and 384 give a 21-pixel line starting at x = 389.5. |
| Render.DrawsSnoc | helloworld_cn.c:411-438 | Drawing one more glyph at the pen and advancing by (Advance >> 6)*scale extends the emitted run by that glyph, and the pen stays at start x plus the width so far. |
| Render.DrawColors | helloworld_cn.c:382-409 | In a run, every draw is vivid in rainbow mode and has the fixed colour otherwise. |
| Render.FrameLineColors | helloworld_cn.c:159-161 | The three lines draw the same glyphs, all black, all vivid and all gold respectively. |
| GlyphCache.Load | helloworld_cn.c:291-327 | One `FT_Load_Char` call is logged, and only the entry for its codepoint may change. On failure the table and the name counter are unchanged. On success the counter moves up by one and the entry takes the old counter value as its texture name. |
| GlyphCache.EnsureLoaded | helloworld_cn.c:290 | A loaded entry is left alone: nothing changes and the rasterizer is not called. Otherwise the call is logged. No other entry changes. |
| GlyphCache.PreloadMissing | helloworld_cn.c:286-329 | The CJK pass keeps the table size and never lowers the name counter. The call log only grows, by at most one call per codepoint. |
| GlyphCache.PreloadAll | helloworld.c:266-305 | The Latin pass keeps the table size. The name counter grows by at most one per code. |
| GlyphCache.SpanIsRange | helloworld.c:266 | The Latin loop visits 0, 1, ..., 127 in order. |
| GlyphCache.PreloadFrame | helloworld_cn.c:286-329 | The CJK pass leaves untouched any entry that was already loaded, whose codepoint is not in the text, or whose glyph fails to load. |
| GlyphCache.PreloadFills | helloworld_cn.c:290-327 | An unloaded entry whose codepoint is in the text and whose glyph loads ends up holding that glyph's metrics, under a texture name taken during the pass. |
| GlyphCache.PreloadAttempts | helloworld_cn.c:290-293 | The CJK pass calls the rasterizer only for codepoints of the text whose entries were unloaded, and the call log only grows. |
| GlyphCache.LoadKeepsInvariant | helloworld_cn.c:297-327 | One load keeps unloaded entries blank and texture names below the counter and pairwise distinct. |
| GlyphCache.PreloadKeepsInvariant | helloworld_cn.c:286-329 | The whole CJK pass keeps the same table invariant. |
| GlyphCache.PreloadSettled | helloworld_cn.c:290 | Once every loadable glyph of the text is loaded, a further pass changes neither the table nor the names and retries only glyphs that fail. |
| GlyphCache.PreloadIdempotent | helloworld_cn.c:289-290 | Running the CJK pass twice leaves the table and names as after one run. When every glyph loads, the second run is a no-op. |
| GlyphCache.PreloadAllAttempts | helloworld.c:266-271 | The Latin pass calls the rasterizer once for each code given, in order. |
| GlyphCache.PreloadAllIsPreloadMissing | helloworld.c:266-305 | On distinct codes whose entries are all unloaded, the Latin and CJK passes give the same result. |
| GlyphCache.LoadGlyph | helloworld_cn.c:291-327 | One load updates the table, counter and call log as `Load` specifies. A failing rasterizer call leaves the table and counter alone. A successful one takes a fresh texture name and stores the glyph. |
| GlyphCache.EnsureGlyph | helloworld_cn.c:290-328 | The load runs only when the entry's TextureID is 0. The result is as `EnsureLoaded` specifies. |
| GlyphCache.TextureNames.constructor | helloworld_cn.c:297-298 | The texture-name allocator starts at 1, so 0 stays free to mean "not loaded". |
| GlyphCache.TextureNames.Gen | helloworld_cn.c:297-298 | `glGenTextures` returns a non-zero name never handed out before. |
| GlyphCache.FirstOpenable | helloworld_cn.c:262-273 | Returns the first path that opens, or None exactly when no path opens. |
| HelloWorldCn.DemoTextEncodes | helloworld_cn.c:283 | The demo bytes are the UTF-8 encoding of U+4F60 U+597D U+FF0C U+4E16 U+754C U+FF01. |
| HelloWorldCn.DemoTextDecodes | helloworld_cn.c:283-287 | The demo string is a framed C string that decodes to those six codepoints, all of which index the table. |
| HelloWorldCn.AllocCharacters | helloworld_cn.c:99 | The calloc'd table holds 65536 blank entries and no texture names are in use. |
| HelloWorldCn.PreloadGlyphs | helloworld_cn.c:286-329 | The preload loop leaves exactly the table, counter and rasterizer call log that `PreloadMissing` specifies. |
| HelloWorldCn.InitFreeType | helloworld_cn.c:240-334 | Exits with 1, leaving the table and names unchanged, exactly when library init fails or no path opens. Otherwise it uses the first path that opens and preloads the demo codepoints as `PreloadMissing` specifies. |
| HelloWorldCn.PreloadedDemoTable | helloworld_cn.c:283-329 | After the preload, every demo codepoint whose glyph loads holds its metrics and every failing one stays blank. The table invariant holds. |
| HelloWorldCn.PreloadStep | helloworld_cn.c:286-290 | The codepoint decoded in one pass of the preload loop is the next one of the text. The pass over the rest of the text is that codepoint's step followed by the pass over what follows. |
| HelloWorldCn.TextWidth | helloworld_cn.c:145-150 | The pre-pass sums (Advance >> 6)*scale over all decoded codepoints, unloaded ones included. |
| HelloWorldCn.Measured | helloworld_cn.c:145-150 | With a non-negative scale and no negative advance in the table, the measured width is non-negative. |
| HelloWorldCn.MeasuredIsWidth | helloworld_cn.c:145-150 | Summing the steps codepoint by codepoint gives the width of the looked-up glyph sequence. |
| HelloWorldCn.RenderText | helloworld_cn.c:359-443 | The loop leaves exactly the draws and pen position that `Rendered` gives for the decoded codepoints. |
| HelloWorldCn.Rendered | helloworld_cn.c:373-439 | At most one draw per codepoint, and every draw is of a loaded glyph. |
| HelloWorldCn.RenderedDraws | helloworld_cn.c:373-439 | `Rendered` emits exactly the draws of the loaded glyphs, laid out from x and coloured by the policy. The pen ends at x plus their width. |
| HelloWorldCn.DemoLine | helloworld_cn.c:155-161 | With unloaded entries blank, a demo line ends where the pre-pass width says, counting unloaded glyphs too. |
| HelloWorldCn.DrawFrame | helloworld_cn.c:140-161 | Measures, centres and draws three lines. Each line ends at x + textWidth = WIDTH - x, so the pre-pass width equals the pen displacement. |
| HelloWorldCn.Startup | helloworld_cn.c:98-161 | From `calloc` to the first frame: the program exits with 1 exactly when library init fails or no font path opens. Otherwise all three lines end at WIDTH - x, whichever glyphs failed to load. |
| HelloWorld.HelloIsAscii | helloworld.c:130 | "Hello World!" is a C string whose bytes all index the 128-entry table. |
| HelloWorld.AllocCharacters | helloworld.c:46 | The static table holds 128 blank entries. |
| HelloWorld.PreloadAscii | helloworld.c:266-305 | The 0..127 loop leaves exactly the table, counter and call log that `PreloadAll` over 0..127 specifies. |
| HelloWorld.LatinPreloadEffect | helloworld.c:266-305 | On the zeroed table: the rasterizer is called for 0..127 in order, each loadable code holds its metrics, each failing code stays blank, and the table invariant holds. |
| HelloWorld.PreloadAllRenames | helloworld.c:296-304 | A Latin pass gives every loadable code it visits a texture name taken during that pass, even if the entry was loaded before. |
| HelloWorld.PreloadAllLeaves | helloworld.c:266-304 | An entry whose code the Latin pass does not visit is untouched. |
| HelloWorld.InitFreeType | helloworld.c:224-310 | Exits with 1 exactly when library init fails or no path opens. Otherwise it uses the first path that opens and loads codes 0..127 as `PreloadAll` specifies. |
| HelloWorld.TextWidth | helloworld.c:134-137 | The pre-pass sums (Advance >> 6)*scale over the bytes of the text. |
| HelloWorld.RenderText | helloworld.c:312-389 | Emits one draw per byte, loaded or not, laid out from x and coloured by the policy. The pen ends at x plus the pre-pass width. |
| HelloWorld.DrawFrame | helloworld.c:129-148 | Measures, centres and draws three lines, each ending at WIDTH - x, for any table contents. |

## Left out

- Windowing and events (GLFW setup, the frame loop itself, the resize and
  key callbacks), shader compilation, and every GL state call are not part
  of this model. A draw is modelled only as an emitted record: glyph, pen,
  baseline, scale and colour. Its vertex buffer is `Quad.Vertices`.
- FreeType is abstract. `FT_Init_FreeType` is a boolean and `FT_New_Face`
  is a predicate on paths. The face at 48 pixels is a partial function from
  codepoint to metrics. Bitmap contents and texture uploads are not modelled.
- `glGenTextures` is a counter that starts at 1 (`GlyphCache.TextureNames`).
  Real GL names need not be consecutive. The model keeps only "non-zero and
  never reused".
- `float` is `real`: `scale`, `/255`, `/100` and vertex coordinates have no
  rounding. `Advance >> 6` is `/ 64`, which is floor division, like an
  arithmetic shift on a negative `int`.
- `srand(time(NULL))` and `rand()` are replaced by the stream parameter
  `rand`, which restarts at every `renderText` call. This models the
  per-call reseeding. Clock-dependent behaviour, such as identical colours
  within one second, is not modelled.
- The decoding loops require `Utf8.Framed(text)`: the lead bytes must tile
  the text exactly. Two inputs are excluded by this:
  - A lead byte outside the four classes leaves the pointer in place, so
    `while (*p)` would never end (`Utf8.StrayByteStalls`).
  - A truncated final sequence would read past the terminating NUL
    (`Utf8.TruncatedSequenceOverruns`).
  The model states these two behaviours of the decoder. It does not model
  the endless loop or the out-of-bounds read that follow from them.
- Utf8.SequenceLength: its contract gives only the upper bound of four
  bytes. The exact byte range of each class is stated by `Utf8.LeadClasses`,
  kept apart so that the decoding proofs stay small.
- HelloWorldCn.RenderText, HelloWorldCn.TextWidth and
  HelloWorldCn.PreloadGlyphs require every decoded codepoint to be below
  65536, the table size. Four-byte sequences, and any codepoint at or above
  65536, would index past the calloc'd table.
- HelloWorld.RenderText and HelloWorld.TextWidth require every byte to be
  below 128, because the source indexes `Characters[128]` with a `char`.
- Fatal error paths keep only "exit with 1". Messages to stderr and stdout
  are left out, as are the calloc failure in `main` (return -1) and the
  `FT_Done_*` cleanup.
- scripts/font_rendering_diagram.py draws an illustration and contains no
  program logic. It is not part of this model.
