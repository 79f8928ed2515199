/** The glyph table as `initFreeType` fills it (both programs). The table,
    the next texture name and the log of `FT_Load_Char` calls are bundled
    in `Cache`; the functions below say what a preload pass leaves behind,
    and the methods of the two programs are proved against them.

    The CJK program (helloworld_cn.c) loads a codepoint only when its entry
    has `TextureID == 0` (`EnsureLoaded`, folded by `PreloadMissing`); the
    Latin program (helloworld.c) loads codepoints 0..127 without looking
    (`Load`, folded by `PreloadAll`). A failed load is logged and skipped. */
module GlyphCache {
  import opened Glyph
  import opened Layout

  /** The table, the texture name `glGenTextures` hands out next, and the
      codepoints passed to `FT_Load_Char` so far, in call order. */
  datatype Cache = Cache(table: seq<Character>, next: nat, attempts: seq<nat>)

  /** One `FT_Load_Char(face, cp)`: on success a new texture name is taken
      and the entry for `cp` is overwritten; on failure nothing but the log
      changes. */
  function Load(c: Cache, face: Face, cp: nat): (c': Cache)
    requires cp < |c.table|
    ensures |c'.table| == |c.table| && c'.attempts == c.attempts + [cp]
    ensures forall k :: 0 <= k < |c.table| && k != cp ==> c'.table[k] == c.table[k]
    ensures face(cp).None? ==> c'.table == c.table && c'.next == c.next
    ensures face(cp).Some? ==> c'.next == c.next + 1 && c'.table[cp].textureId == c.next
  {
    match face(cp)
    case None => c.(attempts := c.attempts + [cp])
    case Some(m) => Cache(c.table[cp := FromMetrics(c.next, m)], c.next + 1, c.attempts + [cp])
  }

  /** The CJK rule: load `cp` only if its entry has no texture yet. */
  function EnsureLoaded(c: Cache, face: Face, cp: nat): (c': Cache)
    requires cp < |c.table|
    ensures |c'.table| == |c.table|
    ensures forall k :: 0 <= k < |c.table| && k != cp ==> c'.table[k] == c.table[k]
    ensures Loaded(c.table[cp]) ==> c' == c
    ensures !Loaded(c.table[cp]) ==> c'.attempts == c.attempts + [cp]
  {
    if Loaded(c.table[cp]) then c else Load(c, face, cp)
  }

  /** The CJK preload pass over the decoded codepoints, in text order. */
  function PreloadMissing(c: Cache, face: Face, cps: seq<nat>): (c': Cache)
    requires InTable(cps, |c.table|)
    ensures |c'.table| == |c.table| && c'.next >= c.next
    ensures c.attempts <= c'.attempts && |c'.attempts| <= |c.attempts| + |cps|
    decreases |cps|
  {
    if cps == [] then c else PreloadMissing(EnsureLoaded(c, face, cps[0]), face, cps[1..])
  }

  /** The Latin preload pass: every codepoint of `cps` is loaded. */
  function PreloadAll(c: Cache, face: Face, cps: seq<nat>): (c': Cache)
    requires InTable(cps, |c.table|)
    ensures |c'.table| == |c.table| && c'.next >= c.next
    ensures c'.next <= c.next + |cps|
    decreases |cps|
  {
    if cps == [] then c else PreloadAll(Load(c, face, cps[0]), face, cps[1..])
  }

  /** `lo, lo + 1, ..., hi - 1`. */
  function Span(lo: nat, hi: nat): (s: seq<nat>)
    ensures forall k :: 0 <= k < |s| ==> lo <= s[k] < hi
    decreases hi - lo
  {
    if lo >= hi then [] else [lo] + Span(lo + 1, hi)
  }

  lemma {:induction false} SpanIsRange(lo: nat, hi: nat)
    requires lo <= hi
    ensures |Span(lo, hi)| == hi - lo
    ensures forall k :: 0 <= k < hi - lo ==> Span(lo, hi)[k] == lo + k
    decreases hi - lo
  {
    if lo < hi {
      SpanIsRange(lo + 1, hi);
    }
  }

  /** One step of the CJK pass: ensure `cp` is loaded, then go on with
      the rest. */
  lemma PreloadMissingCons(c: Cache, face: Face, cp: nat, rest: seq<nat>)
    requires InTable([cp] + rest, |c.table|)
    ensures cp < |c.table| && InTable(rest, |c.table|)
    ensures PreloadMissing(c, face, [cp] + rest) == PreloadMissing(EnsureLoaded(c, face, cp), face, rest)
  {
    assert ([cp] + rest)[0] == cp && ([cp] + rest)[1..] == rest;
    assert forall k :: 0 <= k < |rest| ==> rest[k] == ([cp] + rest)[k + 1];
  }

  /** One step of the Latin pass over `lo, ..., hi - 1`: load `lo`, then
      go on from `lo + 1`. */
  lemma PreloadAllStep(c: Cache, face: Face, lo: nat, hi: nat)
    requires lo < hi <= |c.table|
    ensures InTable(Span(lo, hi), |c.table|) && InTable(Span(lo + 1, hi), |c.table|)
    ensures PreloadAll(c, face, Span(lo, hi)) == PreloadAll(Load(c, face, lo), face, Span(lo + 1, hi))
  {
    assert Span(lo, hi) == [lo] + Span(lo + 1, hi);
  }

  /** The entry holds the metrics `m` under some texture name. */
  predicate HoldsMetrics(ch: Character, m: GlyphMetrics)
  {
    ch == FromMetrics(ch.textureId, m)
  }

  /** Frame of the CJK pass: an entry that was already loaded, whose
      codepoint is not in the text, or whose glyph fails to load, is left
      exactly as it was. */
  lemma {:induction false} PreloadFrame(c: Cache, face: Face, cps: seq<nat>, k: nat)
    requires InTable(cps, |c.table|) && k < |c.table|
    requires Loaded(c.table[k]) || k !in cps || face(k).None?
    ensures PreloadMissing(c, face, cps).table[k] == c.table[k]
    decreases |cps|
  {
    if cps != [] {
      var c1 := EnsureLoaded(c, face, cps[0]);
      assert c1.table[k] == c.table[k];
      assert k !in cps ==> k !in cps[1..];
      PreloadFrame(c1, face, cps[1..], k);
    }
  }

  /** What the CJK pass fills: an unloaded entry whose codepoint occurs in
      the text and whose glyph loads ends up holding that glyph's metrics
      under a texture name taken during the pass. */
  lemma {:induction false} PreloadFills(c: Cache, face: Face, cps: seq<nat>, k: nat)
    requires InTable(cps, |c.table|) && k < |c.table|
    requires c.next > 0 && !Loaded(c.table[k]) && k in cps && face(k).Some?
    ensures var c' := PreloadMissing(c, face, cps);
            && c.next <= c'.table[k].textureId < c'.next
            && HoldsMetrics(c'.table[k], face(k).value)
    decreases |cps|
  {
    var c1 := EnsureLoaded(c, face, cps[0]);
    if cps[0] == k {
      assert c1.table[k] == FromMetrics(c.next, face(k).value);
      PreloadFrame(c1, face, cps[1..], k);
    } else {
      assert c1.table[k] == c.table[k];
      assert k in cps[1..];
      PreloadFills(c1, face, cps[1..], k);
    }
  }

  /** The CJK pass only calls the rasterizer for codepoints of the text
      whose entries had no texture before the pass; the log only grows. */
  lemma {:induction false} PreloadAttempts(c: Cache, face: Face, cps: seq<nat>)
    requires InTable(cps, |c.table|) && c.next > 0
    ensures var c' := PreloadMissing(c, face, cps);
            && |c.attempts| <= |c'.attempts|
            && c'.attempts[..|c.attempts|] == c.attempts
            && forall j :: |c.attempts| <= j < |c'.attempts| ==>
                 c'.attempts[j] in cps && c'.attempts[j] < |c.table| && !Loaded(c.table[c'.attempts[j]])
    decreases |cps|
  {
    if cps != [] {
      var c1 := EnsureLoaded(c, face, cps[0]);
      PreloadAttempts(c1, face, cps[1..]);
      var c' := PreloadMissing(c, face, cps);
      assert c' == PreloadMissing(c1, face, cps[1..]);
      assert c1.next > 0;
      forall j | |c.attempts| <= j < |c'.attempts|
        ensures c'.attempts[j] in cps && c'.attempts[j] < |c.table| && !Loaded(c.table[c'.attempts[j]])
      {
        if j < |c1.attempts| {
          assert c1.attempts == c.attempts + [cps[0]] && !Loaded(c.table[cps[0]]);
          assert c'.attempts[j] == c1.attempts[j] == cps[0];
        } else {
          var a := c'.attempts[j];
          assert a in cps[1..] && !Loaded(c1.table[a]);
          assert c1.table[a] == c.table[a];
        }
      }
    }
  }

  /** One load keeps the table invariant: unloaded entries stay blank,
      texture names stay below `next` and pairwise distinct. */
  lemma LoadKeepsInvariant(c: Cache, face: Face, cp: nat)
    requires cp < |c.table| && c.next > 0
    requires UnloadedBlank(c.table) && TexturesBelow(c.table, c.next)
    ensures var c' := Load(c, face, cp);
            c'.next > 0 && UnloadedBlank(c'.table) && TexturesBelow(c'.table, c'.next)
  {
    var c' := Load(c, face, cp);
    if face(cp).Some? {
      var t, t' := c.table, c'.table;
      forall i, j | 0 <= i < j < |t'| && Loaded(t'[i]) ensures t'[i].textureId != t'[j].textureId {
        if i == cp || j == cp {
          assert t'[cp].textureId == c.next;
        }
      }
    }
  }

  /** The CJK pass keeps the table invariant. */
  lemma {:induction false} PreloadKeepsInvariant(c: Cache, face: Face, cps: seq<nat>)
    requires InTable(cps, |c.table|) && c.next > 0
    requires UnloadedBlank(c.table) && TexturesBelow(c.table, c.next)
    ensures var c' := PreloadMissing(c, face, cps);
            c'.next > 0 && UnloadedBlank(c'.table) && TexturesBelow(c'.table, c'.next)
    decreases |cps|
  {
    if cps != [] {
      if !Loaded(c.table[cps[0]]) {
        LoadKeepsInvariant(c, face, cps[0]);
      }
      PreloadKeepsInvariant(EnsureLoaded(c, face, cps[0]), face, cps[1..]);
    }
  }

  /** Once every loadable codepoint of the text has a texture, another pass
      changes neither the table nor the texture names; it only retries the
      glyphs that fail to load. */
  lemma {:induction false} PreloadSettled(c: Cache, face: Face, cps: seq<nat>)
    requires InTable(cps, |c.table|)
    requires forall k :: 0 <= k < |cps| && face(cps[k]).Some? ==> Loaded(c.table[cps[k]])
    ensures var c' := PreloadMissing(c, face, cps);
            && c'.table == c.table && c'.next == c.next
            && |c.attempts| <= |c'.attempts| && c'.attempts[..|c.attempts|] == c.attempts
            && (forall j :: |c.attempts| <= j < |c'.attempts| ==> face(c'.attempts[j]).None?)
            && ((forall k :: 0 <= k < |cps| ==> face(cps[k]).Some?) ==> c'.attempts == c.attempts)
    decreases |cps|
  {
    if cps != [] {
      var c1 := EnsureLoaded(c, face, cps[0]);
      assert c1.table == c.table && c1.next == c.next;
      assert face(cps[0]).Some? ==> c1 == c;
      assert forall k :: 0 <= k < |cps[1..]| ==> cps[1..][k] == cps[k + 1];
      PreloadSettled(c1, face, cps[1..]);
      var c' := PreloadMissing(c1, face, cps[1..]);
      forall j | |c.attempts| <= j < |c'.attempts| ensures face(c'.attempts[j]).None? {
        if j < |c1.attempts| {
          assert c1.attempts == c.attempts + [cps[0]];
        }
      }
    }
  }

  /** Idempotence of the CJK pass: running it a second time over the same
      text leaves the table and the texture names as the first run left
      them, and calls the rasterizer only for glyphs that fail to load;
      when every glyph loads, the second run calls it not at all. */
  lemma PreloadIdempotent(c: Cache, face: Face, cps: seq<nat>)
    requires InTable(cps, |c.table|) && c.next > 0
    ensures var c' := PreloadMissing(c, face, cps);
            var c'' := PreloadMissing(c', face, cps);
            && c''.table == c'.table && c''.next == c'.next
            && forall j :: |c'.attempts| <= j < |c''.attempts| ==> face(c''.attempts[j]).None?
    ensures (forall k :: 0 <= k < |cps| ==> face(cps[k]).Some?) ==>
              PreloadMissing(PreloadMissing(c, face, cps), face, cps) == PreloadMissing(c, face, cps)
  {
    var c' := PreloadMissing(c, face, cps);
    forall k | 0 <= k < |cps| && face(cps[k]).Some? ensures Loaded(c'.table[cps[k]]) {
      if Loaded(c.table[cps[k]]) {
        PreloadFrame(c, face, cps, cps[k]);
      } else {
        PreloadFills(c, face, cps, cps[k]);
      }
    }
    PreloadSettled(c', face, cps);
    var c'' := PreloadMissing(c', face, cps);
  }

  /** The Latin pass logs every codepoint it is given, once each, in order. */
  lemma {:induction false} PreloadAllAttempts(c: Cache, face: Face, cps: seq<nat>)
    requires InTable(cps, |c.table|)
    ensures PreloadAll(c, face, cps).attempts == c.attempts + cps
    decreases |cps|
  {
    if cps != [] {
      PreloadAllAttempts(Load(c, face, cps[0]), face, cps[1..]);
      assert c.attempts + [cps[0]] + cps[1..] == c.attempts + cps;
    }
  }

  /** Over distinct codepoints whose entries are all unloaded, loading
      unconditionally (Latin) and loading only unloaded entries (CJK) are
      the same pass. */
  lemma {:induction false} PreloadAllIsPreloadMissing(c: Cache, face: Face, cps: seq<nat>)
    requires InTable(cps, |c.table|)
    requires forall i, j :: 0 <= i < j < |cps| ==> cps[i] != cps[j]
    requires forall k :: 0 <= k < |cps| ==> !Loaded(c.table[cps[k]])
    ensures PreloadAll(c, face, cps) == PreloadMissing(c, face, cps)
    decreases |cps|
  {
    if cps != [] {
      var c1 := Load(c, face, cps[0]);
      assert EnsureLoaded(c, face, cps[0]) == c1;
      forall k | 0 <= k < |cps[1..]| ensures !Loaded(c1.table[cps[1..][k]]) {
        assert cps[1..][k] == cps[k + 1] != cps[0];
      }
      PreloadAllIsPreloadMissing(c1, face, cps[1..]);
    }
  }

  /** The texture names `glGenTextures` hands out: never 0, never reused.
      Modelled as a counter; the GL object store itself is not modelled. */
  class TextureNames {
    var next: nat

    ghost predicate Valid()
      reads this
    {
      next > 0
    }

    constructor ()
      ensures Valid() && next == 1
    {
      next := 1;
    }

    /** `glGenTextures(1, &texture)`. */
    method Gen() returns (name: nat)
      requires Valid()
      modifies this
      ensures Valid() && name == old(next) && next == old(next) + 1
    {
      name := next;
      next := next + 1;
    }
  }

  /** The body both preload loops run for a codepoint they decide to load:
      `FT_Load_Char` (recorded as an attempt); on failure nothing else
      happens, on success a fresh texture name is taken and the entry is
      overwritten with the glyph's metrics under that name. */
  method LoadGlyph(table: array<Character>, names: TextureNames, face: Face, cp: nat,
                   attempts: seq<nat>)
    returns (attempts': seq<nat>)
    requires names.Valid() && cp < table.Length
    modifies table, names
    ensures names.Valid()
    ensures Cache(table[..], names.next, attempts')
         == Load(Cache(old(table[..]), old(names.next), attempts), face, cp)
  {
    var glyph := face(cp);
    attempts' := attempts + [cp];
    if glyph.None? {
      return;
    }
    var texture := names.Gen();
    table[cp] := FromMetrics(texture, glyph.value);
  }

  /** The CJK loop body for one codepoint: `LoadGlyph` only when the entry
      has no texture yet. */
  method EnsureGlyph(table: array<Character>, names: TextureNames, face: Face, cp: nat,
                     attempts: seq<nat>)
    returns (attempts': seq<nat>)
    requires names.Valid() && cp < table.Length
    modifies table, names
    ensures names.Valid()
    ensures Cache(table[..], names.next, attempts')
         == EnsureLoaded(Cache(old(table[..]), old(names.next), attempts), face, cp)
  {
    attempts' := attempts;
    if table[cp].textureId == 0 {
      attempts' := LoadGlyph(table, names, face, cp, attempts);
    }
  }

  /** What `initFreeType` can end in (both programs): `exit(1)`, or a font
      opened (the index of its path) and the preload done, with the
      rasterizer calls. */
  datatype InitResult = Exit(code: int) | FontLoaded(path: nat, attempts: seq<nat>)

  /** The font-path probe of `initFreeType`: try the paths in order and stop
      at the first that `FT_New_Face` opens; `None` when none opens. */
  method FirstOpenable(paths: seq<string>, opens: string -> bool) returns (found: Option<nat>)
    ensures found.Some? ==> found.value < |paths| && opens(paths[found.value])
    ensures found.Some? ==> forall j :: 0 <= j < found.value ==> !opens(paths[j])
    ensures found.None? <==> forall j :: 0 <= j < |paths| ==> !opens(paths[j])
  {
    found := None;
    var i := 0;
    while i < |paths|
      invariant 0 <= i <= |paths|
      invariant forall j :: 0 <= j < i ==> !opens(paths[j])
    {
      if opens(paths[i]) {
        found := Some(i);
        return;
      }
      i := i + 1;
    }
  }
}
