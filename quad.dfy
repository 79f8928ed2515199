/** The textured quad `renderText` uploads for one glyph (both programs):
    six vertices of (position x, position y, texcoord u, texcoord v), two
    triangles, and the draw that binds the glyph's texture and colour.
    Screen y grows upward under the programs' projection matrix. */
module Quad {
  import opened Glyph
  import opened ColorPolicy

  datatype Vertex = Vertex(x: real, y: real, u: real, v: real)

  /** The rectangle a glyph is drawn into: lower-left corner (`xpos`,
      `ypos`), width `w`, height `h`. */
  datatype Rect = Rect(xpos: real, ypos: real, w: real, h: real)

  /** One `glDrawArrays(GL_TRIANGLES, 0, 6)` for `glyph` with the pen at
      (`penX`, `y`) on the baseline: it binds `glyph.textureId`, sets the
      colour uniform to `color`, and draws the vertex buffer
      `Vertices(d)`. */
  datatype Draw = Draw(glyph: Character, penX: real, y: real, scale: real, color: Rgb)

  /** The vertex array for a `w` by `h` quad whose lower-left corner is
      (`xpos`, `ypos`). */
  function QuadVertices(xpos: real, ypos: real, w: real, h: real): (vs: seq<Vertex>)
    ensures |vs| == 6
    ensures vs[0] == vs[3] && vs[2] == vs[4] && vs[0] != vs[2]
  {
    [ Vertex(xpos,     ypos + h, 0.0, 0.0),
      Vertex(xpos,     ypos,     0.0, 1.0),
      Vertex(xpos + w, ypos,     1.0, 1.0),
      Vertex(xpos,     ypos + h, 0.0, 0.0),
      Vertex(xpos + w, ypos,     1.0, 1.0),
      Vertex(xpos + w, ypos + h, 1.0, 0.0) ]
  }

  /** The set of vertex positions. */
  function Positions(vs: seq<Vertex>): (ps: set<(real, real)>)
  {
    set k | 0 <= k < |vs| :: (vs[k].x, vs[k].y)
  }

  /** Twice the signed area of a triangle: positive when counter-clockwise. */
  function Cross(a: Vertex, b: Vertex, c: Vertex): (area2: real)
  {
    (b.x - a.x) * (c.y - a.y) - (b.y - a.y) * (c.x - a.x)
  }

  /** The quad covers the rectangle [xpos, xpos+w] x [ypos, ypos+h]: every
      vertex lies in it, the four corners all occur, and the two triangles
      are counter-clockwise with areas that sum to w*h. The texture maps
      affinely onto it: u grows from 0 at the left edge to 1 at the right,
      v grows from 0 at the top edge to 1 at the bottom, so texcoord (0,0),
      the bitmap's first row, is at the top-left corner (xpos, ypos+h). */
  lemma QuadCoversRectangle(xpos: real, ypos: real, w: real, h: real)
    requires w >= 0.0 && h >= 0.0
    ensures var vs := QuadVertices(xpos, ypos, w, h);
      && (forall k :: 0 <= k < 6 ==> xpos <= vs[k].x <= xpos + w && ypos <= vs[k].y <= ypos + h)
      && (forall k :: 0 <= k < 6 ==> vs[k].u * w == vs[k].x - xpos && vs[k].v * h == ypos + h - vs[k].y)
      && (forall k :: 0 <= k < 6 ==> 0.0 <= vs[k].u <= 1.0 && 0.0 <= vs[k].v <= 1.0)
      && Positions(vs) == {(xpos, ypos), (xpos + w, ypos), (xpos, ypos + h), (xpos + w, ypos + h)}
      && vs[0] == Vertex(xpos, ypos + h, 0.0, 0.0)
      && Cross(vs[0], vs[1], vs[2]) == w * h && Cross(vs[3], vs[4], vs[5]) == w * h
  {
    var vs := QuadVertices(xpos, ypos, w, h);
    assert Positions(vs) == {(vs[0].x, vs[0].y), (vs[1].x, vs[1].y), (vs[2].x, vs[2].y),
                             (vs[3].x, vs[3].y), (vs[4].x, vs[4].y), (vs[5].x, vs[5].y)};
  }

  /** The rectangle of one glyph with the pen at (`penX`, `y`) on the
      baseline: `xpos = x + Left*scale`, `ypos = y - (Height - Top)*scale`,
      `w = Width*scale`, `h = Height*scale`. */
  function GlyphQuad(ch: Character, penX: real, y: real, scale: real): (q: Rect)
    ensures q.xpos - penX == ch.left as real * scale
    ensures q.ypos + q.h == y + ch.top as real * scale
  {
    Rect(penX + ch.left as real * scale, y - (ch.height - ch.top) as real * scale,
         ch.width as real * scale, ch.height as real * scale)
  }

  /** The vertex buffer a draw uploads. */
  function Vertices(d: Draw): (vs: seq<Vertex>)
    ensures |vs| == 6
  {
    var q := GlyphQuad(d.glyph, d.penX, d.y, d.scale);
    QuadVertices(q.xpos, q.ypos, q.w, q.h)
  }

  /** Baseline alignment: the glyph's left edge sits `Left*scale` right of
      the pen, its top edge (texture row 0) `Top*scale` above the baseline,
      and the quad is `Width*scale` wide and `Height*scale` tall. */
  lemma GlyphQuadPlacement(d: Draw)
    ensures var vs := Vertices(d);
      && vs[0].x == d.penX + d.glyph.left as real * d.scale
      && vs[0].y == d.y + d.glyph.top as real * d.scale
      && vs[0].u == 0.0 && vs[0].v == 0.0
      && vs[5].x - vs[0].x == d.glyph.width as real * d.scale
      && vs[5].y - vs[2].y == d.glyph.height as real * d.scale
  {
  }
}
