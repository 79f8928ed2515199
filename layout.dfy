/** Horizontal layout shared by the width pre-pass in `main` and the pen
    updates of `renderText` (both programs). The pen moves by
    `(Advance >> 6) * scale` per glyph; on an `int`, `>> 6` is division by
    64 rounded toward minus infinity, which is Dafny's `/ 64`. */
module Layout {
  import opened Glyph

  /** `(Advance >> 6) * scale`: the advance in whole pixels, scaled. */
  function Step(ch: Character, scale: real): (s: real)
    ensures ch.advance == 0 ==> s == 0.0
    ensures 0.0 <= scale && 0 <= ch.advance ==> 0.0 <= s
    ensures 0.0 <= scale ==> s <= ch.advance as real / 64.0 * scale
  {
    var px := ch.advance / 64;
    assert px * 64 <= ch.advance && (ch.advance == 0 ==> px == 0);
    assert 0.0 <= scale ==> px as real * scale <= ch.advance as real / 64.0 * scale;
    px as real * scale
  }

  /** The sum of the steps of `gs`, the first glyph first. */
  function Width(gs: seq<Character>, scale: real): (w: real)
    decreases |gs|
  {
    if gs == [] then 0.0 else Width(gs[..|gs| - 1], scale) + Step(gs[|gs| - 1], scale)
  }

  /** The glyphs that are loaded (`TextureID != 0`), in order. */
  function Shown(gs: seq<Character>): (r: seq<Character>)
    decreases |gs|
  {
    if gs == [] then []
    else Shown(gs[..|gs| - 1]) + (if Loaded(gs[|gs| - 1]) then [gs[|gs| - 1]] else [])
  }

  /** The table entries a sequence of codepoints looks up. */
  predicate InTable(cps: seq<nat>, n: nat)
  {
    forall k :: 0 <= k < |cps| ==> cps[k] < n
  }

  function Glyphs(t: seq<Character>, cps: seq<nat>): (gs: seq<Character>)
    requires InTable(cps, |t|)
    ensures |gs| == |cps|
    ensures forall k :: 0 <= k < |cps| ==> gs[k] == t[cps[k]]
  {
    seq(|cps|, k requires 0 <= k < |cps| => t[cps[k]])
  }

  lemma GlyphsSnoc(t: seq<Character>, cps: seq<nat>, cp: nat)
    requires InTable(cps, |t|) && cp < |t|
    ensures InTable(cps + [cp], |t|)
    ensures Glyphs(t, cps + [cp]) == Glyphs(t, cps) + [t[cp]]
  {
  }

  /** The width of one more looked-up glyph. */
  lemma WidthGlyphsSnoc(t: seq<Character>, cps: seq<nat>, cp: nat, scale: real)
    requires InTable(cps, |t|) && cp < |t|
    ensures InTable(cps + [cp], |t|)
    ensures Width(Glyphs(t, cps + [cp]), scale) == Width(Glyphs(t, cps), scale) + Step(t[cp], scale)
  {
    GlyphsSnoc(t, cps, cp);
    var gs := Glyphs(t, cps + [cp]);
    assert gs[..|gs| - 1] == Glyphs(t, cps);
  }

  lemma ShownSnoc(gs: seq<Character>, g: Character)
    ensures Shown(gs + [g]) == Shown(gs) + (if Loaded(g) then [g] else [])
  {
    assert (gs + [g])[..|gs|] == gs;
  }

  /** Widths add up over concatenation. */
  lemma {:induction false} WidthAppend(a: seq<Character>, b: seq<Character>, scale: real)
    ensures Width(a + b, scale) == Width(a, scale) + Width(b, scale)
    decreases |b|
  {
    if b != [] {
      var b' := b[..|b| - 1];
      assert (a + b)[..|a + b| - 1] == a + b';
      WidthAppend(a, b', scale);
    } else {
      assert a + b == a;
    }
  }

  /** Only loaded glyphs are shown, and when all are loaded all are shown. */
  lemma {:induction false} ShownAreLoaded(gs: seq<Character>)
    ensures |Shown(gs)| <= |gs|
    ensures forall k :: 0 <= k < |Shown(gs)| ==> Loaded(Shown(gs)[k])
    ensures (forall k :: 0 <= k < |gs| ==> Loaded(gs[k])) ==> Shown(gs) == gs
    decreases |gs|
  {
    if gs != [] {
      var init, last := gs[..|gs| - 1], gs[|gs| - 1];
      ShownAreLoaded(init);
      var tail := if Loaded(last) then [last] else [];
      assert Shown(gs) == Shown(init) + tail;
      forall k | 0 <= k < |Shown(gs)| ensures Loaded(Shown(gs)[k]) {
        if k >= |Shown(init)| { assert Shown(gs)[k] == last; }
        else { assert Shown(gs)[k] == Shown(init)[k]; }
      }
      if forall k :: 0 <= k < |gs| ==> Loaded(gs[k]) {
        assert forall k :: 0 <= k < |init| ==> init[k] == gs[k];
        assert init + [last] == gs;
      }
    }
  }

  /** When every unloaded glyph carries a zero advance, skipping unloaded
      glyphs does not change the total width: the pen displacement of a
      skipping draw pass equals the width of a non-skipping pre-pass. */
  lemma {:induction false} WidthOfShown(gs: seq<Character>, scale: real)
    requires forall k :: 0 <= k < |gs| && !Loaded(gs[k]) ==> gs[k].advance == 0
    ensures Width(Shown(gs), scale) == Width(gs, scale)
    decreases |gs|
  {
    if gs != [] {
      var init, last := gs[..|gs| - 1], gs[|gs| - 1];
      WidthOfShown(init, scale);
      WidthAppend(Shown(init), if Loaded(last) then [last] else [], scale);
      if Loaded(last) {
        assert [last][..0] == [];
      }
    }
  }

  /** A table whose unloaded entries are blank looks up blank glyphs for
      every codepoint that is not loaded. */
  lemma LookupUnloadedIsBlank(t: seq<Character>, cps: seq<nat>)
    requires UnloadedBlank(t) && InTable(cps, |t|)
    ensures forall k :: 0 <= k < |cps| && !Loaded(Glyphs(t, cps)[k]) ==> Glyphs(t, cps)[k].advance == 0
  {
  }

  /** `x = (WIDTH - textWidth) / 2` leaves equal margins: a line of width
      `textWidth` starting at `x` ends at `WIDTH - x`. */
  function CenteredX(textWidth: real): (x: real)
    ensures x + (x + textWidth) == WIDTH as real
  {
    (WIDTH as real - textWidth) / 2.0
  }

  /** "Hi" at scale 1 with advances 960 and 384 (15 and 6 pixels) is 21
      pixels wide and starts at x = 389.5 in an 800-pixel window. */
  lemma HiIsCentered()
    ensures var h := Character(1, 14, 30, 960, 2, 30);
            var i := Character(2, 4, 30, 384, 1, 30);
            Width([h, i], 1.0) == 21.0 && CenteredX(Width([h, i], 1.0)) == 389.5
  {
    var h := Character(1, 14, 30, 960, 2, 30);
    var i := Character(2, 4, 30, 384, 1, 30);
    assert [h, i][..1] == [h];
    assert [h][..0] == [];
    assert Step(h, 1.0) == 15.0 && Step(i, 1.0) == 6.0;
    assert Width([h], 1.0) == 15.0;
  }
}
