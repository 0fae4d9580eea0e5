/** A font that was loaded, as the renderer uses it. */
module FontUse {
  import opened Bytes
  import opened Mbm
  import FontFile
  import Render

  /** The dots of a bitmap in a file. */
  ghost function DotsOf(b: FontFile.Bits): set<Dot>
    requires FontFile.Whole(b)
  {
    set r: nat, c: nat | r < b.height && c < b.width && IsSet(b, r, c) :: (r, c)
  }

  predicate IsSet(b: FontFile.Bits, r: nat, c: nat)
    requires FontFile.Whole(b) && r < b.height && c < b.width
  {
    LinearFits(b.height, b.width, r, c);
    var n := Linear(b.width, r, c);
    HasBit(b.bytes[n / 8] as bv8, n % 8)
  }

  ghost function GlyphOf(g: FontFile.Glyph): Render.Glyph
    requires FontFile.Whole(g.bm)
  {
    Render.Glyph(g.ascent, g.descent, g.lbearing, g.rbearing, g.width, g.bm.height, g.bm.width, DotsOf(g.bm))
  }

  ghost function FontOf(f: FontFile.Font): Render.Font
    requires |f.glyphs| == 256 && forall n: nat | n < 256 :: FontFile.Whole(f.glyphs[n].bm)
  {
    Render.Font(f.ascent, f.descent, seq(256, n requires 0 <= n < 256 => GlyphOf(f.glyphs[n])))
  }

  /** Whatever bytes a font is loaded from, the renderer can rely on its metrics. */
  lemma {:induction false} LoadedFontIsChecked(s: seq<byte>)
    requires FontFile.TakeFont(s).Parsed?
    ensures var f := FontFile.TakeFont(s).value;
            && |f.glyphs| == 256 && (forall n: nat | n < 256 :: FontFile.Whole(f.glyphs[n].bm))
            && Render.Checked(FontOf(f))
  {
    FontFile.FontReadIsSound(s);
    var f := FontFile.TakeFont(s).value;
    forall n: nat | n < 256 ensures Render.CheckedGlyph(FontOf(f), FontOf(f).glyphs[n]) {
      assert FontFile.GlyphFits(f.ascent, f.descent, f.glyphs[n]);
      assert FontOf(f).glyphs[n] == GlyphOf(f.glyphs[n]);
    }
  }

  /** The renderer gets the fonts whose metrics fit, and no others. */
  lemma {:induction false} MetricsFitIffChecked(f: FontFile.Font)
    requires |f.glyphs| == 256 && forall n: nat | n < 256 :: FontFile.Whole(f.glyphs[n].bm)
    ensures FontFile.MetricsFit(f) <==> Render.Checked(FontOf(f))
  {
    forall n: nat | n < 256
      ensures FontFile.GlyphFits(f.ascent, f.descent, f.glyphs[n]) <==>
              Render.CheckedGlyph(FontOf(f), FontOf(f).glyphs[n])
    {
      assert FontOf(f).glyphs[n] == GlyphOf(f.glyphs[n]);
    }
  }
}
