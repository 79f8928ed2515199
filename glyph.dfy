/** Records and constants shared by the two demo programs (helloworld.c and
    helloworld_cn.c): the cached `Character` record, the metrics the font
    rasterizer hands back for one glyph, and the window and table sizes. */
module Glyph {

  datatype Option<+T> = None | Some(value: T)

  /** Window size in pixels (`WIDTH`, `HEIGHT`). */
  const WIDTH: int := 800
  const HEIGHT: int := 600

  /** Entries of the CJK program's calloc'd table (`MAX_CHARS`). */
  const MAX_CHARS: nat := 65536

  /** Entries of the Latin program's static table (`Characters[128]`). */
  const ASCII_CHARS: nat := 128

  /** What one successful glyph load yields: bitmap width and rows, the
      horizontal advance in 1/64 pixel units, and the bitmap bearings. */
  datatype GlyphMetrics = GlyphMetrics(width: nat, rows: nat, advance: int, left: int, top: int)

  /** The font face at the requested pixel size, seen as a partial function
      from codepoint to metrics: `None` is a failed `FT_Load_Char`. */
  type Face = nat -> Option<GlyphMetrics>

  /** One table entry. `textureId == 0` means "not loaded". */
  datatype Character = Character(textureId: nat, width: int, height: int, advance: int, left: int, top: int)

  /** The all-zero entry that calloc (CJK) and static initialisation (Latin) give. */
  const Blank: Character := Character(0, 0, 0, 0, 0, 0)

  predicate Loaded(ch: Character) { ch.textureId != 0 }

  /** The entry stored after a successful load with texture name `texture`. */
  function FromMetrics(texture: nat, m: GlyphMetrics): (ch: Character)
  {
    Character(texture, m.width, m.rows, m.advance, m.left, m.top)
  }

  /** An unloaded entry carries no metrics at all: the state every entry is
      in before a load, and which a failed load never disturbs. */
  ghost predicate UnloadedBlank(t: seq<Character>)
  {
    forall k :: 0 <= k < |t| && !Loaded(t[k]) ==> t[k] == Blank
  }

  /** Every loaded entry has a non-negative bitmap size and a texture name
      below `next`, and no two loaded entries share a texture name. */
  ghost predicate TexturesBelow(t: seq<Character>, next: nat)
  {
    && (forall k :: 0 <= k < |t| && Loaded(t[k]) ==> t[k].textureId < next && t[k].width >= 0 && t[k].height >= 0)
    && (forall i, j :: 0 <= i < j < |t| && Loaded(t[i]) ==> t[i].textureId != t[j].textureId)
  }
}
