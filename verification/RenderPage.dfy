/** The renderer proper: it draws into a bitmap that may lie on its side, and prints it label
    by label. */
module RenderPage {
  import opened Bytes
  import opened Lines
  import opened Mbm
  import opened Options
  import opened Render
  import opened RenderPlaces

  // ----- orientation

  /** Where the dot of a page that the reader sees at `d` is in the bitmap. */
  function Physical(turned: bool, vheight: nat, d: Dot): Dot
    requires d.0 < vheight
  {
    if turned then (d.1, vheight - 1 - d.0) else d
  }

  function Logical(turned: bool, vheight: nat, e: Dot): Dot
    requires turned ==> e.1 < vheight
  {
    if turned then (vheight - 1 - e.1, e.0) else e
  }

  /** A page is turned a quarter to the right: its top row is the last column of the bitmap, and its left
      column the top row. */
  lemma {:induction false} QuarterTurn(vheight: nat, vwidth: nat, d: Dot)
    requires d.0 < vheight && d.1 < vwidth
    ensures var e := Physical(true, vheight, d);
            && (d.0 == 0 <==> e.1 == vheight - 1) && (d.1 == 0 <==> e.0 == 0)
            && e.0 < vwidth && e.1 < vheight && e.0 == d.1 && e.1 + d.0 == vheight - 1
    ensures Physical(false, vheight, d) == d
  {
  }

  /** Bitmap dots `dots` show the page `ink`. */
  ghost predicate Pictures(turned: bool, vheight: nat, vwidth: nat, dots: set<Dot>, ink: set<Dot>) {
    && (forall d: Dot :: d in ink ==> d.0 < vheight && d.1 < vwidth && Physical(turned, vheight, d) in dots)
    && (forall e: Dot :: e in dots ==> (turned ==> e.1 < vheight) && Logical(turned, vheight, e) in ink)
  }

  lemma {:induction false} PicturesOneMore(turned: bool, vheight: nat, vwidth: nat, dots: set<Dot>, ink: set<Dot>,
                                           d: Dot)
    requires Pictures(turned, vheight, vwidth, dots, ink) && d.0 < vheight && d.1 < vwidth
    ensures Pictures(turned, vheight, vwidth, dots + {Physical(turned, vheight, d)}, ink + {d})
  {
    assert Logical(turned, vheight, Physical(turned, vheight, d)) == d;
  }

  /** A page has one picture, and a picture shows one page. */
  lemma {:induction false} PictureIsUnique(turned: bool, vheight: nat, vwidth: nat, dots: set<Dot>, dots': set<Dot>,
                                           ink: set<Dot>, ink': set<Dot>)
    requires Pictures(turned, vheight, vwidth, dots, ink) && Pictures(turned, vheight, vwidth, dots', ink')
    ensures dots == dots' <==> ink == ink'
  {
    if ink == ink' {
      SamePage(turned, vheight, vwidth, dots, dots', ink);
      SamePage(turned, vheight, vwidth, dots', dots, ink);
    }
    if dots == dots' {
      SamePicture(turned, vheight, vwidth, dots, ink, ink');
      SamePicture(turned, vheight, vwidth, dots, ink', ink);
    }
  }

  lemma {:induction false} SamePage(turned: bool, vheight: nat, vwidth: nat, dots: set<Dot>, dots': set<Dot>,
                                    ink: set<Dot>)
    requires Pictures(turned, vheight, vwidth, dots, ink) && Pictures(turned, vheight, vwidth, dots', ink)
    ensures dots <= dots'
  {
    forall e: Dot | e in dots ensures e in dots' {
      assert Physical(turned, vheight, Logical(turned, vheight, e)) == e;
    }
  }

  lemma {:induction false} SamePicture(turned: bool, vheight: nat, vwidth: nat, dots: set<Dot>, ink: set<Dot>,
                                       ink': set<Dot>)
    requires Pictures(turned, vheight, vwidth, dots, ink) && Pictures(turned, vheight, vwidth, dots, ink')
    ensures ink <= ink'
  {
    forall d: Dot | d in ink ensures d in ink' {
      assert Logical(turned, vheight, Physical(turned, vheight, d)) == d;
    }
  }

  // ----- parts of a glyph

  /** The dots of a glyph above row `i`, and in it left of column `j`. */
  ghost function Part(g: Glyph, i: nat, j: nat): Glyph {
    g.(dots := set d | d in g.dots && (d.0 < i || (d.0 == i && d.1 < j)))
  }

  lemma {:induction false} PartNextCol(g: Glyph, i: nat, j: nat)
    ensures Part(g, i, j + 1).dots == Part(g, i, j).dots + if (i, j) in g.dots then {(i, j)} else {}
  {
  }

  lemma {:induction false} PartNextRow(g: Glyph, i: nat)
    requires forall d: Dot :: d in g.dots ==> d.1 < g.cols
    ensures Part(g, i, g.cols) == Part(g, i + 1, 0)
  {
    assert Part(g, i, g.cols).dots == Part(g, i + 1, 0).dots;
  }

  lemma {:induction false} ShapeWith(row: int, col: int, vheight: nat, vwidth: nat, g: Glyph, g': Glyph, d: Dot)
    requires Fits(row, col, vheight, vwidth, g) && OnPage(Place(row, col, g, d), vheight, vwidth)
    requires g' == g.(dots := g.dots + {d})
    ensures Fits(row, col, vheight, vwidth, g')
    ensures var p := Place(row, col, g, d);
            Shape(row, col, vheight, vwidth, g') == Shape(row, col, vheight, vwidth, g) + {(p.0 as nat, p.1 as nat)}
  {
    forall e: Dot ensures Place(row, col, g', e) == Place(row, col, g, e) {
    }
  }

  /** The page `ink` with the part of a glyph above row `i`, and in it left of column `j`. */
  ghost predicate PartFits(row: int, col: int, vheight: nat, vwidth: nat, g: Glyph, i: nat, j: nat) {
    Fits(row, col, vheight, vwidth, Part(g, i, j))
  }

  ghost function WithPart(row: int, col: int, vheight: nat, vwidth: nat, g: Glyph, i: nat, j: nat,
                          ink: set<Dot>): set<Dot>
    requires PartFits(row, col, vheight, vwidth, g, i, j)
  {
    ink + Shape(row, col, vheight, vwidth, Part(g, i, j))
  }

  lemma {:induction false} NextDot(row: int, col: int, vheight: nat, vwidth: nat, g: Glyph, i: nat, j: nat,
                                   ink: set<Dot>)
    requires PartFits(row, col, vheight, vwidth, g, i, j)
    ensures var p := Place(row, col, g, (i, j));
            if (i, j) !in g.dots then
              && PartFits(row, col, vheight, vwidth, g, i, j + 1)
              && WithPart(row, col, vheight, vwidth, g, i, j + 1, ink)
                 == WithPart(row, col, vheight, vwidth, g, i, j, ink)
            else if OnPage(p, vheight, vwidth) then
              && PartFits(row, col, vheight, vwidth, g, i, j + 1)
              && WithPart(row, col, vheight, vwidth, g, i, j + 1, ink) ==
                 WithPart(row, col, vheight, vwidth, g, i, j, ink) + {(p.0 as nat, p.1 as nat)}
            else !Fits(row, col, vheight, vwidth, g)
  {
    var part, part' := Part(g, i, j), Part(g, i, j + 1);
    PartNextCol(g, i, j);
    if (i, j) !in g.dots {
      assert part' == part;
    } else if OnPage(Place(row, col, g, (i, j)), vheight, vwidth) {
      ShapeWith(row, col, vheight, vwidth, part, part', (i, j));
    }
  }

  lemma {:induction false} NoPart(row: int, col: int, vheight: nat, vwidth: nat, g: Glyph, ink: set<Dot>)
    ensures PartFits(row, col, vheight, vwidth, g, 0, 0)
    ensures WithPart(row, col, vheight, vwidth, g, 0, 0, ink) == ink
  {
    assert Part(g, 0, 0).dots == {};
  }

  lemma {:induction false} WholeGlyph(row: int, col: int, vheight: nat, vwidth: nat, g: Glyph, ink: set<Dot>)
    requires forall d: Dot :: d in g.dots ==> d.0 < g.rows
    requires PartFits(row, col, vheight, vwidth, g, g.rows, 0)
    ensures Fits(row, col, vheight, vwidth, g)
    ensures WithPart(row, col, vheight, vwidth, g, g.rows, 0, ink) == ink + Shape(row, col, vheight, vwidth, g)
  {
    assert Part(g, g.rows, 0).dots == g.dots;
    assert Part(g, g.rows, 0) == g;
  }

  // ----- the line buffer

  /** A backspace too many is one in every longer line. */
  lemma {:induction false} StaysUnerasable(line: seq<byte>, k: nat)
    requires k <= |line| && Erase(line[..k]).None?
    ensures Erase(line).None?
  {
    if k == |line| {
      assert line[..k] == line;
    } else {
      assert line[..|line| - 1][..k] == line[..k];
      StaysUnerasable(line[..|line| - 1], k);
    }
  }

  lemma {:induction false} EraseNext(line: seq<byte>, p: nat, kept: seq<byte>)
    requires p < |line| && Erase(line[..p]) == Some(kept)
    ensures Erase(line[..p + 1]) ==
            if line[p] != BACKSPACE then Some(kept + [line[p]])
            else if kept == [] then None else Some(kept[..|kept| - 1])
  {
    assert line[..p + 1][..p] == line[..p];
  }

  lemma {:induction false} NeverErased(was: seq<byte>, end: nat, k: nat)
    requires k <= end <= |was| && Erase(was[..k]).None?
    ensures Erase(was[..end]).None?
  {
    assert was[..end][..k] == was[..k];
    StaysUnerasable(was[..end], k);
  }

  /** Takes the backspaces out of a line, in place; false when one has nothing before it. */
  method Compact(buf: array<byte>) returns (ok: bool)
    requires NUL in buf[..]
    modifies buf
    ensures var erased := Erase(UpToNul(old(buf[..])));
            if erased.None? then !ok else ok && NUL in buf[..] && UpToNul(buf[..]) == erased.value
  {
    ghost var was, end := buf[..], FirstNul(buf[..]);
    UpToNulIs(was, end);
    var p: nat, q: nat := 0, 0;
    while buf[p] != NUL
      invariant q <= p <= end < buf.Length && forall i | p <= i < buf.Length :: buf[i] == was[i]
      invariant Erase(was[..p]) == Some(buf[..q])
      invariant forall i | 0 <= i < q :: buf[i] != NUL
      decreases end - p
    {
      ghost var kept := buf[..q];
      EraseNext(was, p, kept);
      if buf[p] == BACKSPACE {
        if q == 0 {
          NeverErased(was, end, p + 1);
          return false;
        }
        q := q - 1;
        assert buf[..q] == kept[..q];
      } else {
        buf[q] := buf[p];
        q := q + 1;
        assert buf[..q] == kept + [was[p]];
      }
      p := p + 1;
    }
    buf[q] := NUL;
    UpToNulIs(buf[..], q);
    ok := true;
  }

  /** Once the original stops, it does not go on. */
  lemma {:induction false} NoneStaysNone(l: Layout, st: State, line: seq<byte>, k: nat)
    requires Checked(l.font) && k <= |line| && Steps(l, st, line[..k]).None?
    ensures Steps(l, st, line).None?
  {
    if k == |line| {
      assert line[..k] == line;
    } else {
      assert line[..|line| - 1][..k] == line[..k];
      NoneStaysNone(l, st, line[..|line| - 1], k);
    }
  }

  lemma {:induction false} LayNext(l: Layout, st: State, text: seq<byte>, room: nat)
    requires Checked(l.font) && room > 0 && text != []
    ensures var after := LayLine(l, st, text, room);
            Lay(l, st, text, room) ==
            if after.None? then None else Lay(l, after.value, text[ReadLen(text, room)..], room)
  {
  }

  lemma {:induction false} LineStops(l: Layout, st: State, line: seq<byte>, end: nat, k: nat)
    requires Checked(l.font) && k <= end <= |line| && Steps(l, st, line[..k]).None?
    ensures Steps(l, st, line[..end]).None?
  {
    assert line[..end][..k] == line[..k];
    NoneStaysNone(l, st, line[..end], k);
  }

  lemma {:induction false} StepsNext(l: Layout, st: State, line: seq<byte>, p: nat, now: State)
    requires Checked(l.font) && p < |line| && Steps(l, st, line[..p]) == Some(now)
    ensures Steps(l, st, line[..p + 1]) == Step(l, now, line[p])
  {
    assert line[..p + 1][..p] == line[..p];
  }

  /** A space is as wide as the bitmap of the first of these glyphs that has any width. */
  function SpaceWidth(font: Font): (n: nat)
    requires |font.glyphs| == 256
    ensures n != 0 <==> font.glyphs[32].cols != 0 || font.glyphs[109].cols != 0 || font.glyphs[77].cols != 0
                        || font.glyphs[95].cols != 0
    ensures font.glyphs[32].cols != 0 ==> n == font.glyphs[32].cols
    ensures font.glyphs[32].cols == 0 && font.glyphs[109].cols != 0 ==> n == font.glyphs[109].cols
    ensures font.glyphs[32].cols == 0 == font.glyphs[109].cols && font.glyphs[77].cols != 0 ==>
              n == font.glyphs[77].cols
    ensures n == font.glyphs[95].cols <== font.glyphs[32].cols == 0 == font.glyphs[109].cols == font.glyphs[77].cols
  {
    if font.glyphs[' ' as int].cols != 0 then font.glyphs[' ' as int].cols
    else if font.glyphs['m' as int].cols != 0 then font.glyphs['m' as int].cols
    else if font.glyphs['M' as int].cols != 0 then font.glyphs['M' as int].cols
    else font.glyphs['_' as int].cols
  }

  // ----- the box round a label

  /** The dots of a box: the top and the bottom row, and both sides from row 2 on. */
  ghost function Box(h: nat, w: nat): set<Dot> {
    BoxPart(h, w, w, 0)
  }

  /** The part of a box left of column `k` at the top and the bottom, and from row `t` on at the
      sides. */
  ghost function BoxPart(h: nat, w: nat, k: nat, t: nat): set<Dot> {
    set r: nat, c: nat |
      r < h && c < w && ((c < k && (r == 0 || r == h - 1)) || (r > 1 && r >= t && (c == 0 || c == w - 1)))
      :: (r, c)
  }

  lemma {:induction false} BoxAcross(h: nat, w: nat, k: nat)
    requires h > 0 && k < w
    ensures BoxPart(h, w, k + 1, h) == BoxPart(h, w, k, h) + {(0, k)} + {(h - 1, k)}
  {
  }

  lemma {:induction false} BoxDown(h: nat, w: nat, t: nat)
    requires w > 0 && 1 < t < h
    ensures BoxPart(h, w, w, t) == BoxPart(h, w, w, t + 1) + {(t, 0)} + {(t, w - 1)}
  {
  }

  lemma {:induction false} BoxEnds(h: nat, w: nat, t: nat)
    requires t <= 2
    ensures BoxPart(h, w, w, t) == Box(h, w) && BoxPart(h, w, 0, h) == {}
  {
  }

  /** The dots at the edge of a label. */
  ghost function Outline(h: nat, w: nat): set<Dot> {
    set r: nat, c: nat | r < h && c < w && (r == 0 || r == h - 1 || c == 0 || c == w - 1) :: (r, c)
  }

  /** A box is an outline, but for both ends of its second row, when that is not its last. */
  lemma {:induction false} BoxIsOutlineIff(h: nat, w: nat)
    requires h > 0 && w > 0
    ensures Box(h, w) == Outline(h, w) - if h > 2 then {(1, 0), (1, w - 1)} else {}
    ensures Box(h, w) == Outline(h, w) <==> h <= 2
  {
    if h > 2 {
      assert (1, 0) in Outline(h, w);
    }
  }

  /** Draws a box into a blank bitmap. */
  method DrawBox(bm: Bitmap)
    requires bm.Valid() && bm.dots == {} && bm.height > 0 && bm.width > 0
    modifies bm, bm.bits
    ensures bm.Valid() && bm.dots == Box(bm.height, bm.width)
  {
    ghost var h, w := bm.height, bm.width;
    BoxEnds(h, w, 0);
    for col: nat := 0 to bm.width
      invariant bm.Valid() && bm.dots == BoxPart(h, w, col, h)
    {
      BoxAcross(h, w, col);
      bm.Set(0, col);
      bm.Set(bm.height - 1, col);
    }
    var row: nat := bm.height - 1;
    while row > 1
      invariant row < bm.height && bm.Valid() && bm.dots == BoxPart(h, w, w, row + 1)
    {
      BoxDown(h, w, row);
      bm.Set(row, 0);
      bm.Set(row, bm.width - 1);
      row := row - 1;
    }
    BoxEnds(h, w, row + 1);
  }

  /** A page that a bitmap shows. */
  ghost function PageOf(turned: bool, vheight: nat, dots: set<Dot>): set<Dot>
    requires turned ==> forall e: Dot :: e in dots ==> e.1 < vheight
  {
    set e: Dot | e in dots :: Logical(turned, vheight, e)
  }

  lemma {:induction false} PageOfPictures(turned: bool, h: nat, w: nat, vheight: nat, vwidth: nat, dots: set<Dot>)
    requires if turned then h == vwidth && w == vheight else h == vheight && w == vwidth
    requires forall e: Dot :: e in dots ==> e.0 < h && e.1 < w
    ensures Pictures(turned, vheight, vwidth, dots, PageOf(turned, vheight, dots))
  {
  }

  // ----- the renderer

  class Renderer {
    /** The bitmap, and whether a dot of it was set since it was cleared. */
    const bm: Bitmap
    var dirty: bool
    /** The labels printed. */
    ghost var printed: seq<set<Dot>>
    /** The size of the page as the reader sees it. */
    const vheight: nat
    const vwidth: nat
    /** Whether labels have a box round them, and that box on the page. */
    const boxed: bool
    ghost const frame: set<Dot>

    ghost predicate Valid()
      reads this, bm, bm.bits
    {
      && bm.Valid()
      && (if Turned() then bm.height == vwidth && bm.width == vheight else bm.height == vheight && bm.width == vwidth)
    }

    predicate Turned() {
      bm.height != vheight
    }

    /** The box on the page is that which is drawn into the bitmap. */
    ghost predicate Framed() {
      && (boxed ==> bm.height > 0 && bm.width > 0)
      && Pictures(Turned(), vheight, vwidth, if boxed then Box(bm.height, bm.width) else {}, frame)
    }

    /** The bitmap shows a page, with its box. */
    ghost predicate Holds(ink: set<Dot>)
      reads this, bm, bm.bits
    {
      Valid() && Pictures(Turned(), vheight, vwidth, bm.dots, frame + ink) && (dirty <==> ink != {})
    }

    /** Renders on labels, upright or on their side, with a box round them or without. */
    constructor (bm: Bitmap, portrait: bool, boxed: bool)
      requires bm.Valid() && (boxed ==> bm.height > 0 && bm.width > 0)
      ensures Valid() && Framed() && this.bm == bm && this.boxed == boxed && printed == []
      ensures vheight == (if portrait == (bm.height > bm.width) then bm.height else bm.width)
    {
      var h, w := bm.height, bm.width;
      this.bm, this.boxed := bm, boxed;
      var tall: nat, wide: nat := if w > h then w else h, if w < h then w else h;
      var vh: nat, vw: nat := if portrait then tall else wide, if portrait then wide else tall;
      vheight, vwidth := vh, vw;
      dirty, printed := false, [];
      ghost var box := if boxed then Box(h, w) else {};
      frame := PageOf(h != vh, vh, box);
      PageOfPictures(h != vh, h, w, vh, vw, box);
    }

    /** Sets a dot of the page in the bitmap. */
    method SetBit(row: nat, col: nat)
      requires Valid() && row < vheight && col < vwidth
      modifies bm, bm.bits
      ensures Valid() && bm.dots == old(bm.dots) + {Physical(Turned(), vheight, (row, col))}
    {
      if bm.height != vheight {
        bm.Set(col, vheight - 1 - row);
      } else {
        bm.Set(row, col);
      }
    }

    /** Sets a dot of the page; the original stops when it is off the page. */
    method SetDot(row: int, col: int, ghost ink: set<Dot>, ghost ink': set<Dot>) returns (ok: bool)
      requires Holds(ink)
      requires OnPage((row, col), vheight, vwidth) ==> ink' == ink + {(row as nat, col as nat)}
      modifies `dirty, bm, bm.bits
      ensures ok <==> OnPage((row, col), vheight, vwidth)
      ensures if ok then Holds(ink') else Holds(ink)
    {
      ok := 0 <= row < vheight && 0 <= col < vwidth;
      if ok {
        PicturesOneMore(Turned(), vheight, vwidth, bm.dots, frame + ink, (row, col));
        assert frame + ink + {(row as nat, col as nat)} == frame + ink';
        SetBit(row, col);
        dirty := true;
      }
    }

    /** Clears the label, but for its box. */
    method Wipe()
      requires Valid() && Framed()
      modifies `dirty, bm, bm.bits
      ensures Holds({})
    {
      bm.Clear();
      if boxed {
        DrawBox(bm);
      }
      dirty := false;
      assert frame + {} == frame;
    }

    /** Prints the label unless it is blank, and clears it. */
    method NewPage(ghost ink: set<Dot>)
      requires Holds(ink) && Framed()
      modifies this, bm, bm.bits
      ensures Holds({})
      ensures printed == old(printed) + if ink == {} then [] else [old(bm.dots)]
    {
      if dirty {
        printed := printed + [bm.dots];
      }
      Wipe();
    }

    /** Draws the dot of a glyph at row `i` and column `j` of its bitmap, if it is set. */
    method DrawDot(row: int, col: int, g: Glyph, i: nat, j: nat, ghost ink: set<Dot>) returns (ok: bool)
      requires PartFits(row, col, vheight, vwidth, g, i, j)
      requires Holds(WithPart(row, col, vheight, vwidth, g, i, j, ink))
      modifies `dirty, bm, bm.bits
      ensures Valid()
      ensures !ok ==> !Fits(row, col, vheight, vwidth, g)
      ensures ok ==> PartFits(row, col, vheight, vwidth, g, i, j + 1)
                     && Holds(WithPart(row, col, vheight, vwidth, g, i, j + 1, ink))
    {
      NextDot(row, col, vheight, vwidth, g, i, j, ink);
      ok := true;
      if (i, j) in g.dots {
        ghost var page := WithPart(row, col, vheight, vwidth, g, i, j, ink);
        ghost var page' := if PartFits(row, col, vheight, vwidth, g, i, j + 1)
                           then WithPart(row, col, vheight, vwidth, g, i, j + 1, ink) else {};
        ok := SetDot(row - g.ascent + i, StartCol(col, g) + j, page, page');
      }
    }

    /** Draws all of a glyph at baseline `row` from column `col` on, or none of it; gives the
        column after it. The original stops when a dot falls off the page. */
    method PutGlyph(row: int, col: int, g: Glyph, ghost f: Font, ghost ink: set<Dot>) returns (col': int, ok: bool)
      requires CheckedGlyph(f, g) && Holds(ink)
      modifies `dirty, bm, bm.bits
      ensures Valid() && col' == NextCol(col, g)
      ensures !Accepted(row, col, vheight, vwidth, g) ==> ok && Holds(ink)
      ensures Accepted(row, col, vheight, vwidth, g) ==>
                && (ok <==> Fits(row, col, vheight, vwidth, g))
                && (ok ==> Holds(ink + Shape(row, col, vheight, vwidth, g)))
    {
      var left;
      left, col' := Advance(col, g);
      ok := true;
      if Unsigned(left + g.rbearing) <= vwidth
         && Unsigned(row) >= Unsigned(g.ascent) && Unsigned(row + g.descent) <= vheight {
        ok := DrawRows(row, col, g, ink);
      }
    }

    /** The column glyph `g` starts in, and the column after it. */
    method Advance(col: int, g: Glyph) returns (left: int, col': int)
      ensures left == StartCol(col, g) && col' == NextCol(col, g)
    {
      var extra: int;
      if g.lbearing < 0 && 0 - g.lbearing > Unsigned(col) {
        left, extra := 0, 0 - g.lbearing;
      } else {
        left, extra := col + g.lbearing, 0;
      }
      col' := left + g.width + extra;
    }

    method DrawRows(row: int, col: int, g: Glyph, ghost ink: set<Dot>) returns (ok: bool)
      requires Holds(ink) && g.ascent + g.descent == g.rows
      requires forall d: Dot :: d in g.dots ==> d.0 < g.rows && d.1 < g.cols
      modifies `dirty, bm, bm.bits
      ensures Valid() && (ok <==> Fits(row, col, vheight, vwidth, g))
      ensures ok ==> Holds(ink + Shape(row, col, vheight, vwidth, g))
    {
      NoPart(row, col, vheight, vwidth, g, ink);
      for i: nat := 0 to g.ascent + g.descent
        invariant PartFits(row, col, vheight, vwidth, g, i, 0)
        invariant Holds(WithPart(row, col, vheight, vwidth, g, i, 0, ink))
      {
        for j: nat := 0 to g.cols
          invariant PartFits(row, col, vheight, vwidth, g, i, j)
          invariant Holds(WithPart(row, col, vheight, vwidth, g, i, j, ink))
        {
          ok := DrawDot(row, col, g, i, j, ink);
          if !ok {
            return;
          }
        }
        PartNextRow(g, i);
      }
      WholeGlyph(row, col, vheight, vwidth, g, ink);
      ok := true;
    }

    /** The bitmap shows the current label, and the labels printed are those done. */
    ghost predicate Agrees(st: State)
      reads this, bm, bm.bits
    {
      Holds(st.ink) && |printed| == |st.done|
      && forall k | 0 <= k < |printed| :: Pictures(Turned(), vheight, vwidth, printed[k], frame + st.done[k])
    }

    /** A layout is for pages of this size. */
    predicate Suits(l: Layout) {
      l.vheight == vheight && l.vwidth == vwidth && l.space < 0x1_0000_0000
    }

    /** Prints the label unless it is blank, and starts the next. */
    method StartLabel(ghost l: Layout, ghost st: State)
      requires Agrees(st) && Framed()
      modifies this, bm, bm.bits
      ensures Agrees(NewLabel(l, st))
    {
      NewPage(st.ink);
    }

    /** Goes on to a tab stop; the count of spaces is that of unsigned columns. */
    method Tab(col: int, space: nat) returns (col': int)
      requires 0 < space < 0x1_0000_0000
      ensures col' == TabStop(col, space)
    {
      var n: nat := 1;
      ghost var u := Unsigned(col);
      ghost var q, m := u / space, 8 - u / space % 8;
      col' := col + space;
      TabCount(col, space, n);
      while (Unsigned(col') / space) % 8 != 0
        invariant 1 <= n <= m && col' == col + Spaces(n, space)
        invariant TabDone(col, space, n) <==> (Unsigned(col') / space) % 8 == 0
        invariant TabDone(col, space, n) ==> col' == TabStop(col, space)
        invariant !TabDone(col, space, n) ==> n < m
        decreases m - n
      {
        n := n + 1;
        col' := col' + space;
        TabCount(col, space, n);
      }
    }

    method LineFeed(l: Layout, row: int, col: int, ghost st: State) returns (row': int, col': int)
      requires Agrees(st) && Framed() && row == st.row && col == st.col && l.vheight == vheight
      modifies this, bm, bm.bits
      ensures var st' := NewLine(l, st);
              Agrees(st') && row' == st'.row && col' == st'.col
    {
      row', col' := row, col;
      if l.squeeze && !dirty {
        return;
      }
      row' := row + l.font.descent + l.font.ascent;
      col' := 0;
      if Unsigned(row' + l.font.descent) >= vheight {
        StartLabel(l, st);
        row' := l.font.ascent;
        col' := 0;
      }
    }

    /** Draws glyph `g` at the current place. */
    method Glyphic(l: Layout, g: Glyph, row: int, col: int, ghost st: State) returns (col': int, ok: bool)
      requires Agrees(st) && row == st.row && col == st.col && CheckedGlyph(l.font, g)
      requires l.vheight == vheight && l.vwidth == vwidth
      modifies `dirty, bm, bm.bits
      ensures Valid() && (ok <==> DrawGlyph(l, st, g).Some?)
      ensures ok ==> var st' := DrawGlyph(l, st, g).value; Agrees(st') && row == st'.row && col' == st'.col
    {
      col', ok := PutGlyph(row, col, g, l.font, st.ink);
    }

    /** One character of a line. */
    method Character(l: Layout, ch: byte, row: int, col: int, ghost st: State) returns (row': int, col': int, ok: bool)
      requires Agrees(st) && row == st.row && col == st.col
      requires Framed() && Checked(l.font) && Suits(l)
      modifies this, bm, bm.bits
      ensures Valid() && (ok <==> Step(l, st, ch).Some?)
      ensures ok ==> var st' := Step(l, st, ch).value; Agrees(st') && row' == st'.row && col' == st'.col
    {
      var g := l.font.glyphs[ch];
      row', col', ok := row, col, true;
      if g.width != 0 {
        col', ok := Glyphic(l, g, row, col, st);
      } else if ch == TAB {
        if l.space == 0 {
          ok := false;
          return;
        }
        col' := Tab(col, l.space);
      } else if ch == NEWLINE {
        row', col' := LineFeed(l, row, col, st);
      } else if ch == RETURN {
        col' := 0;
      } else if ch == FORMFEED {
        StartLabel(l, st);
        row' := l.font.ascent;
        col' := 0;
      } else {
        col' := col + l.space;
      }
    }

    /** The characters of the buffer up to its NUL. */
    method RenderLine(l: Layout, buf: array<byte>, row: int, col: int, ghost st: State)
      returns (row': int, col': int, ok: bool)
      requires Agrees(st) && row == st.row && col == st.col && NUL in buf[..]
      requires Framed() && Checked(l.font) && Suits(l) && buf as object !in {this, bm, bm.bits}
      modifies this, bm, bm.bits
      ensures var after := Steps(l, st, UpToNul(buf[..]));
              && Valid() && (ok <==> after.Some?)
              && (ok ==> Agrees(after.value) && row' == after.value.row && col' == after.value.col)
    {
      ghost var line, end := buf[..], FirstNul(buf[..]);
      UpToNulIs(line, end);
      row', col', ok := row, col, true;
      var p: nat := 0;
      ghost var now := st;
      while buf[p] != NUL
        invariant p <= end < buf.Length && buf[..] == line && Steps(l, st, line[..p]) == Some(now)
        invariant Agrees(now) && row' == now.row && col' == now.col
        decreases end - p
      {
        StepsNext(l, st, line, p, now);
        row', col', ok := Character(l, buf[p], row', col', now);
        if !ok {
          LineStops(l, st, line, end, p + 1);
          return;
        }
        now := Step(l, now, line[p]).value;
        p := p + 1;
      }
    }

    /** The layout of a text in a font on this page. */
    function LayoutFor(font: Font, squeeze: bool): Layout
      requires |font.glyphs| == 256
    {
      Layout(font, vheight, vwidth, SpaceWidth(font), squeeze)
    }

    /** The line of a text from character `at` on; `n` is its length, `rest` the text from there. */
    method OneLine(l: Layout, text: seq<byte>, at: nat, room: nat, buf: array<byte>, row: int, col: int,
                   ghost st: State, ghost rest: seq<byte>)
      returns (n: nat, row': int, col': int, ok: bool)
      requires Agrees(st) && row == st.row && col == st.col && at < |text| && rest == text[at..]
      requires buf.Length == room + 1 && room > 0 && buf as object !in {this, bm, bm.bits}
      requires Framed() && Checked(l.font) && Suits(l)
      modifies this, bm, bm.bits, buf
      ensures n == ReadLen(rest, room) && 0 < n && at + n <= |text| && rest[n..] == text[at + n..]
      ensures var after := LayLine(l, st, rest, room);
              && Valid() && (ok <==> after.Some?)
              && (ok ==> Agrees(after.value) && row' == after.value.row && col' == after.value.col)
    {
      row', col' := row, col;
      n := ReadLine(text, at, buf);
      assert rest[..n] == text[at..at + n];
      ok := Compact(buf);
      if ok {
        row', col', ok := RenderLine(l, buf, row, col, st);
      }
    }

    /** Renders the lines of a text. */
    method RenderLines(l: Layout, text: seq<byte>, room: nat) returns (ok: bool, ghost now: State)
      requires Framed() && Checked(l.font) && room > 0 && Suits(l) && Agrees(Start(l))
      modifies this, bm, bm.bits
      ensures Valid() && (ok <==> Lay(l, Start(l), text, room).Some?)
      ensures ok ==> Lay(l, Start(l), text, room) == Some(now) && Agrees(now)
    {
      var row: int, col: int, at: nat := l.font.ascent, 0, 0;
      var buf := new byte[room + 1];
      now, ok := Start(l), true;
      ghost var rest, goal := text, Lay(l, now, text, room);
      while at < |text|
        invariant at <= |text| && fresh(buf) && ok && rest == text[at..]
        invariant Agrees(now) && row == now.row && col == now.col
        invariant Lay(l, now, rest, room) == goal
      {
        var n;
        n, row, col, ok := OneLine(l, text, at, room, buf, row, col, now, rest);
        LayNext(l, now, rest, room);
        if !ok {
          return;
        }
        now := LayLine(l, now, rest, room).value;
        rest := rest[n..];
        at := at + n;
      }
    }

    /** Renders a text on labels; false when the original stops before the end of it. */
    method RenderText(font: Font, text: seq<byte>, squeeze: bool, room: nat) returns (ok: bool)
      requires Valid() && Framed() && printed == [] && Checked(font) && room > 0
      modifies this, bm, bm.bits
      ensures var l := LayoutFor(font, squeeze);
              && (ok <==> font.ascent + font.descent <= vheight && Lay(l, Start(l), text, room).Some?)
              && (ok ==> Shown(Labels(Lay(l, Start(l), text, room).value)))
      ensures var l := LayoutFor(font, squeeze);
              ok && vheight < 0x1_0000 ==>
                Kept(text, room).Some? && Shown(LabelsOf(l.(squeeze := false), Counted(l, text, room)))
    {
      var l := LayoutFor(font, squeeze);
      if font.ascent + font.descent <= vheight < 0x1_0000 && Lay(l, Start(l), text, room).Some? {
        LabelsOfText(l, text, room);
      }
      Wipe();
      if font.ascent + font.descent > vheight {
        return false;
      }
      ghost var now;
      ok, now := RenderLines(l, text, room);
      if ok && dirty {
        printed := printed + [bm.dots];
      }
    }

    /** The labels printed show the given pages, each with the box. */
    ghost predicate Shown(pages: seq<set<Dot>>)
      reads this
    {
      && |printed| == |pages|
      && forall k | 0 <= k < |printed| :: Pictures(Turned(), vheight, vwidth, printed[k], frame + pages[k])
    }
  }
}
