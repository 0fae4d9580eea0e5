/** Laying text out on labels: where glyphs fall, and which dots come out on which label. */
module Render {
  import opened Bytes
  import opened Lines
  import opened Mbm
  import opened Options

  const BACKSPACE: byte := 8
  const TAB: byte := 9
  const FORMFEED: byte := 12

  /** A glyph: its metrics, and the dots of its bitmap of `rows` by `cols`. */
  datatype Glyph = Glyph(ascent: short, descent: short, lbearing: short, rbearing: short, width: short,
                         rows: nat, cols: nat, dots: set<Dot>)

  datatype Font = Font(ascent: short, descent: short, glyphs: seq<Glyph>)

  /** The metrics of a font fit together, as those of each font loaded do. */
  ghost predicate Checked(f: Font) {
    && |f.glyphs| == 256 && f.ascent + f.descent >= 0
    && forall i: nat | i < 256 :: CheckedGlyph(f, f.glyphs[i])
  }

  ghost predicate CheckedGlyph(f: Font, g: Glyph) {
    && g.ascent <= f.ascent && g.descent <= f.descent
    && g.ascent + g.descent == g.rows && g.rbearing - g.lbearing == g.cols
    && forall d: Dot :: d in g.dots ==> d.0 < g.rows && d.1 < g.cols
  }

  // ----- placing a glyph

  // Rows and columns are those of the page: a glyph of negative width can lead left of it, and the
  // first baseline of a font of negative ascent is above it.

  /** A number as the original's 32-bit unsigned arithmetic sees it. */
  function Unsigned(x: int): nat {
    if x < 0 then x % 0x1_0000_0000 else x
  }

  /** The column a glyph starts in, when its origin is at column `col`. */
  function StartCol(col: int, g: Glyph): int {
    if g.lbearing < 0 && 0 - g.lbearing > Unsigned(col) then 0 else col + g.lbearing
  }

  /** The column after a glyph. */
  function NextCol(col: int, g: Glyph): int {
    StartCol(col, g) + g.width + if g.lbearing < 0 && 0 - g.lbearing > Unsigned(col) then 0 - g.lbearing else 0
  }

  /** A glyph with its origin at `row` and `col` passes the original's tests for a page of
      `vheight` by `vwidth`. */
  predicate Accepted(row: int, col: int, vheight: nat, vwidth: nat, g: Glyph) {
    && Unsigned(StartCol(col, g) + g.rbearing) <= vwidth
    && Unsigned(row) >= Unsigned(g.ascent)
    && Unsigned(row + g.descent) <= vheight
  }

  /** Where dot `d` of a glyph falls. */
  function Place(row: int, col: int, g: Glyph, d: Dot): (int, int) {
    (row - g.ascent + d.0, StartCol(col, g) + d.1)
  }

  predicate OnPage(p: (int, int), vheight: nat, vwidth: nat) {
    0 <= p.0 < vheight && 0 <= p.1 < vwidth
  }

  /** All dots of a glyph fall on the page. */
  ghost predicate Fits(row: int, col: int, vheight: nat, vwidth: nat, g: Glyph) {
    forall d: Dot :: d in g.dots ==> OnPage(Place(row, col, g, d), vheight, vwidth)
  }

  /** The dots of a glyph, where they fall. */
  ghost function Shape(row: int, col: int, vheight: nat, vwidth: nat, g: Glyph): set<Dot>
    requires Fits(row, col, vheight, vwidth, g)
  {
    set d | d in g.dots :: (Place(row, col, g, d).0 as nat, Place(row, col, g, d).1 as nat)
  }

  /** The bitmap of a glyph falls on the page. */
  predicate BoxFits(row: int, col: int, vheight: nat, vwidth: nat, g: Glyph) {
    && 0 <= StartCol(col, g) && StartCol(col, g) + g.cols <= vwidth
    && g.ascent <= row && row - g.ascent + g.rows <= vheight
  }

  /** A baseline that a line of font `f` can have: the first is as far down as the font ascends. */
  predicate Reachable(f: Font, row: int) {
    f.ascent <= row < 0x8000_0000
  }

  lemma {:induction false} AcceptedFits(f: Font, row: int, col: nat, vheight: nat, vwidth: nat, g: Glyph)
    requires CheckedGlyph(f, g) && g.lbearing >= 0 && Reachable(f, row) && vheight < 0x8000_0000
    requires Accepted(row, col, vheight, vwidth, g)
    ensures BoxFits(row, col, vheight, vwidth, g) && Fits(row, col, vheight, vwidth, g)
  {
    assert Unsigned(StartCol(col, g) + g.rbearing) == col + g.lbearing + g.rbearing;
    assert row - g.ascent + g.rows == row + g.descent >= 0;
  }

  /** A place on a page: sizes are below `size`, rows and columns below `far`. */
  predicate Somewhere(f: Font, row: int, col: nat, vheight: nat, vwidth: nat, size: nat, far: nat) {
    f.ascent <= row < far && col < far && vheight < size && vwidth < size
  }

  /** The tests keep a glyph of a checked font on every page exactly when its left bearing is not
      negative, or it is not drawn at all. Pages of 16 bits are enough to tell. */
  lemma {:induction false} TestsKeepOnPageIff(f: Font, g: Glyph, size: nat, far: nat)
    requires CheckedGlyph(f, g) && g.cols > 0 && 0x1_0000 <= size <= 0x8000_0000 && 0x2_0000 <= far <= 0x8000_0000
    ensures (forall row: int, col: nat, vheight: nat, vwidth: nat ::
               (Somewhere(f, row, col, vheight, vwidth, size, far) && Accepted(row, col, vheight, vwidth, g)) ==>
                 BoxFits(row, col, vheight, vwidth, g))
            <==> g.lbearing >= 0 || g.ascent < 0 <= f.ascent
  {
    forall row: int, col: nat, vheight: nat, vwidth: nat |
      && Somewhere(f, row, col, vheight, vwidth, size, far) && Accepted(row, col, vheight, vwidth, g)
      && (g.lbearing >= 0 || g.ascent < 0 <= f.ascent)
      ensures BoxFits(row, col, vheight, vwidth, g)
    {
      if g.lbearing >= 0 {
        AcceptedFits(f, row, col, vheight, vwidth, g);
      } else {
        NegativeAscentIff(f, row, col, vheight, vwidth, g);
      }
    }
    if g.lbearing < 0 && !(g.ascent < 0 <= f.ascent) {
      var row, col, vheight, vwidth := EscapeFor(f, g);
    }
  }

  /** A place and a page where a glyph with a negative left bearing is accepted and hangs out. */
  lemma {:induction false} EscapeFor(f: Font, g: Glyph) returns (row: int, col: nat, vheight: nat, vwidth: nat)
    requires CheckedGlyph(f, g) && g.cols > 0 && g.lbearing < 0 && !(g.ascent < 0 <= f.ascent)
    ensures Somewhere(f, row, col, vheight, vwidth, 0x1_0000, 0x2_0000)
    ensures Accepted(row, col, vheight, vwidth, g) && !BoxFits(row, col, vheight, vwidth, g)
  {
    row, vheight := f.ascent, f.ascent + g.descent;
    col := if g.rbearing >= 0 then 0 else 0 - g.lbearing - g.rbearing;
    vwidth := if g.rbearing >= 0 then g.rbearing else 0;
  }

  /** A glyph that begins below its baseline is accepted only at baselines above the page, which the
      first lines of a font of negative ascent have. */
  lemma {:induction false} NegativeAscentIff(f: Font, row: int, col: int, vheight: nat, vwidth: nat, g: Glyph)
    requires CheckedGlyph(f, g) && g.ascent < 0 && -0x8000_0000 <= row < 0x8000_0000 && vheight < 0x8000_0000
    ensures Accepted(row, col, vheight, vwidth, g) <==>
            g.ascent <= row < 0 && row + g.descent <= vheight && Unsigned(StartCol(col, g) + g.rbearing) <= vwidth
  {
    assert Unsigned(g.ascent) == 0x1_0000_0000 + g.ascent;
    assert g.ascent <= row ==> row + g.descent >= 0;
  }

  /** At such baselines it is drawn wherever it fits, when its left bearing is 0. */
  lemma {:induction false} NegativeAscentIsDrawn(f: Font, row: int, col: nat, vheight: nat, vwidth: nat, g: Glyph)
    requires CheckedGlyph(f, g) && g.lbearing == 0 && f.ascent <= row < 0 && vheight < 0x8000_0000
    ensures Accepted(row, col, vheight, vwidth, g) <==> BoxFits(row, col, vheight, vwidth, g)
  {
    NegativeAscentIff(f, row, col, vheight, vwidth, g);
    assert row - g.ascent + g.rows == row + g.descent;
  }

  /** It is never drawn in a font whose ascent is not negative, nor from the page's first row on. */
  lemma {:induction false} NegativeAscentIsDropped(row: nat, col: int, vheight: nat, vwidth: nat, g: Glyph)
    requires g.ascent < 0 && row < 0x8000_0000
    ensures !Accepted(row, col, vheight, vwidth, g)
  {
    assert Unsigned(g.ascent) == 0x1_0000_0000 + g.ascent;
  }

  /** A font in whose first line a glyph is drawn that is dropped in the second, where it fits too. */
  lemma {:induction false} FirstLineOnly()
    ensures var g := Glyph(-3, 5, 0, 1, 1, 2, 1, {(0, 0)}); var f := Font(-2, 5, seq(256, _ => g));
            && Checked(f) && Baseline(f, 0) == -2 && Baseline(f, 1) == 1
            && Accepted(-2, 0, 100, 100, g) && Fits(-2, 0, 100, 100, g)
            && !Accepted(1, 0, 100, 100, g) && BoxFits(1, 0, 100, 100, g)
  {
    var g := Glyph(-3, 5, 0, 1, 1, 2, 1, {(0, 0)});
    var f := Font(-2, 5, seq(256, _ => g));
    NegativeAscentIff(f, -2, 0, 100, 100, g);
    NegativeAscentIff(f, 1, 0, 100, 100, g);
    assert Baseline(f, 1) == Baseline(f, 0) + 3;
  }

  /** A glyph with a positive left bearing is not drawn on a page that it fills to the edge. */
  lemma {:induction false} PositiveBearingIsDropped(f: Font, g: Glyph)
    requires CheckedGlyph(f, g) && g.cols > 0 && g.lbearing > 0
    ensures var vheight: nat, vwidth: nat := f.ascent + g.descent, g.rbearing;
            BoxFits(f.ascent, 0, vheight, vwidth, g) && !Accepted(f.ascent, 0, vheight, vwidth, g)
  {
    assert StartCol(0, g) == g.lbearing && Unsigned(g.lbearing + g.rbearing) == g.lbearing + g.rbearing;
  }

  /** A glyph is drawn exactly where it fits, whatever the place and the page, exactly when its
      left bearing is 0 and its ascent is not negative. Pages of 16 bits are enough to tell. */
  lemma {:induction false} DrawnWhereItFitsIff(f: Font, g: Glyph, size: nat, far: nat)
    requires CheckedGlyph(f, g) && g.cols > 0 && 0x1_0000 <= size <= 0x8000_0000 && 0x2_0000 <= far <= 0x8000_0000
    ensures (forall row: int, col: nat, vheight: nat, vwidth: nat ::
               Somewhere(f, row, col, vheight, vwidth, size, far) ==>
                 (Accepted(row, col, vheight, vwidth, g) <==> BoxFits(row, col, vheight, vwidth, g)))
            <==> g.lbearing == 0 && g.ascent >= 0
  {
    if g.lbearing > 0 {
      PositiveBearingIsDropped(f, g);
      assert Somewhere(f, f.ascent, 0, f.ascent + g.descent, g.rbearing, size, far);
    } else if g.ascent < 0 {
      var row: nat, col: nat := if f.ascent < 0 then 0 else f.ascent, 0 - g.lbearing;
      NegativeAscentIsDropped(row, col, row + g.descent, g.cols, g);
      assert BoxFits(row, col, row + g.descent, g.cols, g);
      assert Somewhere(f, row, col, row + g.descent, g.cols, size, far);
    } else if g.lbearing < 0 {
      var row, col, vheight, vwidth := EscapeFor(f, g);
    } else {
      forall row: int, col: nat, vheight: nat, vwidth: nat | Somewhere(f, row, col, vheight, vwidth, size, far)
        ensures Accepted(row, col, vheight, vwidth, g) <==> BoxFits(row, col, vheight, vwidth, g)
      {
        assert StartCol(col, g) == col && g.rbearing == g.cols;
        assert row + g.descent == row - g.ascent + g.rows;
      }
    }
  }

  // ----- laying out a text

  /** A page as the reader sees it, the width of a space, and whether blank lines at the top
      of a label are left out. */
  datatype Layout = Layout(font: Font, vheight: nat, vwidth: nat, space: nat, squeeze: bool)

  /** One glyph drawn: the dots it made, on which label. */
  datatype Draw = Draw(page: nat, dots: set<Dot>)

  /** The place of the next glyph, the dots on the current label, the labels done, and what was
      drawn so far. */
  datatype State = State(row: int, col: int, ink: set<Dot>, done: seq<set<Dot>>, draws: seq<Draw>)

  ghost predicate Usable(l: Layout) {
    Checked(l.font) && l.font.ascent + l.font.descent <= l.vheight < 0x1_0000
  }

  function Start(l: Layout): State {
    State(l.font.ascent, 0, {}, [], [])
  }

  /** The labels after the current one is printed, unless it is blank. */
  function Labels(st: State): seq<set<Dot>> {
    if st.ink == {} then st.done else st.done + [st.ink]
  }

  function NewLabel(l: Layout, st: State): State {
    State(l.font.ascent, 0, {}, Labels(st), st.draws)
  }

  /** Where a tab from column `col` goes: on by whole spaces until their number, counted from
      column 0, is a multiple of eight; left of the page the count can come round to 0 first. */
  function TabStop(col: int, space: nat): int
    requires space > 0
  {
    var u := Unsigned(col);
    var on := Spaces(8 - u / space % 8, space);
    var below := u - 0x1_0000_0000;
    if col < 0 && below + on >= 0 then col - below + below % space else col + on
  }

  function Spaces(n: nat, space: nat): nat {
    if n == 0 then 0 else Spaces(n - 1, space) + space
  }

  /** The end of a line. */
  function NewLine(l: Layout, st: State): State {
    if l.squeeze && st.ink == {} then st
    else
      var row := st.row + l.font.descent + l.font.ascent;
      if Unsigned(row + l.font.descent) >= l.vheight then NewLabel(l, st) else st.(row := row, col := 0)
  }

  /** What drawing a glyph does; None when the original stops because a dot is off the page. */
  ghost function DrawGlyph(l: Layout, st: State, g: Glyph): Option<State> {
    var st' := st.(col := NextCol(st.col, g));
    if !Accepted(st.row, st.col, l.vheight, l.vwidth, g) then Some(st')
    else if !Fits(st.row, st.col, l.vheight, l.vwidth, g) then None
    else
      var shape := Shape(st.row, st.col, l.vheight, l.vwidth, g);
      Some(st'.(ink := st.ink + shape, draws := st.draws + [Draw(|st.done|, shape)]))
  }

  /** One character; None also when a tab is met and a space has no width. */
  ghost function Step(l: Layout, st: State, ch: byte): Option<State>
    requires Checked(l.font)
  {
    var g := l.font.glyphs[ch];
    if g.width != 0 then DrawGlyph(l, st, g)
    else if ch == TAB then (if l.space == 0 then None else Some(st.(col := TabStop(st.col, l.space))))
    else if ch == NEWLINE then Some(NewLine(l, st))
    else if ch == RETURN then Some(st.(col := 0))
    else if ch == FORMFEED then Some(NewLabel(l, st))
    else Some(st.(col := st.col + l.space))
  }

  /** The characters of one line. */
  ghost function Steps(l: Layout, st: State, line: seq<byte>): Option<State>
    requires Checked(l.font)
  {
    if line == [] then Some(st)
    else match Steps(l, st, line[..|line| - 1])
      case None => None
      case Some(st') => Step(l, st', line[|line| - 1])
  }

  // ----- lines

  /** Each backspace takes the character before it away; None when there is none. */
  function Erase(line: seq<byte>): Option<seq<byte>> {
    if line == [] then Some([])
    else match Erase(line[..|line| - 1])
      case None => None
      case Some(kept) =>
        if line[|line| - 1] != BACKSPACE then Some(kept + [line[|line| - 1]])
        else if kept == [] then None
        else Some(kept[..|kept| - 1])
  }

  /** How many characters of a line stand, each backspace having taken one away. */
  function Balance(line: seq<byte>): int {
    if line == [] then 0
    else Balance(line[..|line| - 1]) + if line[|line| - 1] == BACKSPACE then -1 else 1
  }

  /** Backspaces can be erased exactly when no beginning of the line has more of them than of
      other characters, and then no backspace is left. */
  lemma {:induction false} EraseIff(line: seq<byte>)
    ensures Erase(line).Some? <==> forall k: nat :: k <= |line| ==> Balance(line[..k]) >= 0
    ensures Erase(line).Some? ==> |Erase(line).value| == Balance(line) && BACKSPACE !in Erase(line).value
  {
    if line == [] {
      assert forall k: nat :: k <= |line| ==> line[..k] == [];
    } else {
      EraseIff(line[..|line| - 1]);
      BalancesOfFront(line);
    }
  }

  lemma {:induction false} BalancesOfFront(line: seq<byte>)
    requires line != []
    ensures (forall k: nat :: k <= |line| ==> Balance(line[..k]) >= 0) <==>
            var front := line[..|line| - 1];
            (forall k: nat :: k <= |front| ==> Balance(front[..k]) >= 0) && Balance(line) >= 0
  {
    var front := line[..|line| - 1];
    assert forall k: nat :: k <= |front| ==> front[..k] == line[..k];
    assert line[..|line|] == line;
  }

  /** A tab goes to the next column that is a multiple of eight spaces, and as many columns more as
      `col` was past a whole number of spaces. */
  lemma {:induction false} TabStopIsNext(col: nat, space: nat)
    requires space > 0
    ensures TabStop(col, space) / space % 8 == 0
    ensures TabStop(col, space) / space == col / space + 8 - col / space % 8
    ensures TabStop(col, space) % (8 * space) == col % space
  {
    TabIsNext(col, space, 8 - col / space % 8, TabStop(col, space));
  }

  lemma {:induction false} TabIsNext(col: nat, space: nat, n: nat, stop: nat)
    requires space > 0 && n == 8 - col / space % 8 && stop == col + Spaces(n, space)
    ensures stop / space % 8 == 0 && stop / space == col / space + n && stop % (8 * space) == col % space
  {
    AddSpaces(col, space, n);
    EighthIsLast(col / space, n);
    TabKeepsRest(col, space, n);
  }

  /** A tab goes to one of the stops, which are eight spaces apart, exactly when it is met a whole
      number of spaces in. */
  lemma {:induction false} TabStopIsOnGridIff(col: nat, space: nat)
    requires space > 0
    ensures TabStop(col, space) % (8 * space) == 0 <==> col % space == 0
  {
    TabStopIsNext(col, space);
  }

  /** A tab that misses the stop at column 24 by two columns. */
  lemma {:induction false} TabMissesStop()
    ensures TabStop(5, 3) == 26
  {
    assert Spaces(1, 3) == 3 && Spaces(2, 3) == 6 && Spaces(3, 3) == 9 && Spaces(4, 3) == 12;
    assert Spaces(5, 3) == 15 && Spaces(6, 3) == 18 && Spaces(7, 3) == 21;
  }

  lemma {:induction false} SpacesAreProduct(n: nat, space: nat)
    ensures Spaces(n, space) == n * space
  {
    if n > 0 {
      SpacesAreProduct(n - 1, space);
    }
  }

  lemma {:induction false} RestIs(d: nat, q: nat, r: nat, x: nat)
    requires r < d && x == q * d + r
    ensures x % d == r
  {
    QuotientIsUnique(d, q, r, x / d, x % d);
  }

  lemma {:induction false} SpacesGroup(space: nat, q: nat, n: nat, m: nat)
    requires q + n == m * 8
    ensures q * space + n * space == m * (8 * space)
  {
    assert (q + n) * space == q * space + n * space;
    assert m * 8 * space == m * (8 * space);
  }

  lemma {:induction false} RestAfterEighths(q: nat, r: nat, space: nat, n: nat, d: nat, x: nat)
    requires r < space && n == 8 - q % 8 && d == 8 * space && x == q * space + r + Spaces(n, space)
    ensures x % d == r
  {
    SpacesAreProduct(n, space);
    SpacesGroup(space, q, n, q / 8 + 1);
    RestIs(d, q / 8 + 1, r, x);
  }

  lemma {:induction false} TabKeepsRest(col: nat, space: nat, n: nat)
    requires space > 0 && n == 8 - col / space % 8
    ensures (col + Spaces(n, space)) % (8 * space) == col % space
  {
    var q, r := col / space, col % space;
    RestAfterEighths(q, r, space, n, 8 * space, col + Spaces(n, space));
  }

  // A tab is a loop: it adds one space after the other.

  lemma {:induction false} EighthIsLast(q: int, n: nat)
    requires 1 <= n <= 8 - q % 8
    ensures (q + n) % 8 == 0 <==> n == 8 - q % 8
  {
  }

  lemma {:induction false} AtLeastOnce(k: int, d: nat)
    requires k >= 1
    ensures k * d >= d
  {
    assert (k - 1) * d >= 0;
  }

  /** Going on by whole spaces keeps the remainder, left of the page too. */
  lemma {:induction false} RestIsKept(col: int, n: nat, space: nat)
    requires space > 0 && 0 <= col + Spaces(n, space) < space
    ensures col % space == col + Spaces(n, space)
  {
    SpacesAreProduct(n, space);
    OnlyRest(col, col / space, col % space, n, space);
  }

  lemma {:induction false} OnlyRest(col: int, q: int, r: nat, n: nat, space: nat)
    requires col == q * space + r && r < space && 0 <= col + n * space < space
    ensures r == col + n * space
  {
    assert (q + n) * space == q * space + n * space;
    if q + n >= 1 {
      AtLeastOnce(q + n, space);
    } else if q + n <= -1 {
      AtLeastOnce(0 - q - n, space);
    }
  }

  lemma {:induction false} MoreSpaces(n: nat, m: nat, space: nat)
    requires n <= m
    ensures Spaces(n, space) <= Spaces(m, space)
  {
    if n < m {
      MoreSpaces(n, m - 1, space);
    }
  }

  /** The `n`th space of a tab is its last: their number is a multiple of eight, or the unsigned
      column has come round to 0. */
  predicate TabDone(col: int, space: nat, n: nat)
    requires space > 0
  {
    var u := Unsigned(col);
    n == 8 - u / space % 8 || (col < 0 && u - 0x1_0000_0000 + Spaces(n, space) >= 0)
  }

  /** Going on from left of the page, the unsigned column comes round to 0 once. */
  lemma {:induction false} UnsignedGoesOn(col: int, on: nat)
    requires col < 0 && Unsigned(col) + on < 0x2_0000_0000
    ensures Unsigned(col + on) == Unsigned(col) + on - if Unsigned(col) + on < 0x1_0000_0000 then 0 else 0x1_0000_0000
  {
  }

  lemma {:induction false} TabCount(col: int, space: nat, n: nat)
    requires 0 < space < 0x1_0000_0000 && 1 <= n <= 8 - Unsigned(col) / space % 8
    requires n > 1 ==> !TabDone(col, space, n - 1)
    ensures TabDone(col, space, n) <==> Unsigned(col + Spaces(n, space)) / space % 8 == 0
    ensures TabDone(col, space, n) ==> col + Spaces(n, space) == TabStop(col, space)
  {
    var on := Spaces(n, space);
    if col < 0 && Unsigned(col) + on >= 0x1_0000_0000 {
      TabComesRound(col, space, n);
    } else {
      if col < 0 {
        UnsignedGoesOn(col, on);
      }
      TabGoesOn(col, space, n);
    }
  }

  lemma {:induction false} TabComesRound(col: int, space: nat, n: nat)
    requires col < 0 && 0 < space < 0x1_0000_0000 && 1 <= n <= 8 - Unsigned(col) / space % 8
    requires 0x1_0000_0000 <= Unsigned(col) + Spaces(n, space) < 0x1_0000_0000 + space
    ensures Unsigned(col + Spaces(n, space)) / space % 8 == 0
    ensures col + Spaces(n, space) == TabStop(col, space)
  {
    var u, on := Unsigned(col), Spaces(n, space);
    var below := u - 0x1_0000_0000;
    RestIsKept(below, n, space);
    MoreSpaces(n, 8 - u / space % 8, space);
    InFirstSpace(below + on, space);
    UnsignedGoesOn(col, on);
  }

  lemma {:induction false} TabGoesOn(col: int, space: nat, n: nat)
    requires space > 0 && 1 <= n <= 8 - Unsigned(col) / space % 8
    requires col < 0 ==> Unsigned(col) + Spaces(n, space) < 0x1_0000_0000
    requires Unsigned(col + Spaces(n, space)) == Unsigned(col) + Spaces(n, space)
    ensures TabDone(col, space, n) <==> Unsigned(col + Spaces(n, space)) / space % 8 == 0
    ensures TabDone(col, space, n) ==> col + Spaces(n, space) == TabStop(col, space)
  {
    var u := Unsigned(col);
    AddSpaces(u, space, n);
    EighthIsLast(u / space, n);
  }

  lemma {:induction false} InFirstSpace(x: nat, space: nat)
    requires x < space
    ensures x / space == 0
  {
    QuotientIsUnique(space, 0, x, x / space, x % space);
  }

  lemma {:induction false} AddSpaces(col: nat, space: nat, n: nat)
    requires space > 0
    ensures (col + Spaces(n, space)) / space == col / space + n
  {
    if n > 0 {
      AddSpaces(col, space, n - 1);
      AddOnce(col + Spaces(n - 1, space), space);
    }
  }

  lemma {:induction false} AddOnce(col: nat, space: nat)
    requires space > 0
    ensures (col + space) / space == col / space + 1
  {
    var q, r := col / space, (col + space) / space;
    QuotientIsUnique(space, q + 1, col % space, r, (col + space) % space);
  }

  lemma {:induction false} QuotientIsUnique(d: nat, q: nat, r: nat, q': nat, r': nat)
    requires r < d && r' < d && q * d + r == q' * d + r'
    ensures q == q'
  {
    if q > 0 && q' > 0 {
      QuotientIsUnique(d, q - 1, r, q' - 1, r');
    }
  }

  /** The first line of a text, of at most `room` characters. */
  ghost function LayLine(l: Layout, st: State, text: seq<byte>, room: nat): Option<State>
    requires Checked(l.font)
  {
    match Erase(UpToNul(text[..ReadLen(text, room)]))
    case None => None
    case Some(line) => Steps(l, st, line)
  }

  /** A whole text, line by line. */
  ghost function Lay(l: Layout, st: State, text: seq<byte>, room: nat): Option<State>
    requires Checked(l.font) && room > 0
    decreases |text|
  {
    if text == [] then Some(st)
    else match LayLine(l, st, text, room)
      case None => None
      case Some(st') => Lay(l, st', text[ReadLen(text, room)..], room)
  }

  // ----- what every run keeps

  /** The dots drawn on label `k`. */
  ghost function InkOn(draws: seq<Draw>, k: nat): set<Dot> {
    if draws == [] then {}
    else
      var last := draws[|draws| - 1];
      InkOn(draws[..|draws| - 1], k) + if last.page == k then last.dots else {}
  }

  lemma {:induction false} InkOnNext(draws: seq<Draw>, d: Draw, k: nat)
    ensures InkOn(draws + [d], k) == InkOn(draws, k) + if d.page == k then d.dots else {}
  {
    assert (draws + [d])[..|draws|] == draws;
  }

  lemma {:induction false} NothingOnLaterLabels(draws: seq<Draw>, k: nat)
    requires forall i | 0 <= i < |draws| :: draws[i].page < k
    ensures InkOn(draws, k) == {}
  {
    if draws != [] {
      NothingOnLaterLabels(draws[..|draws| - 1], k);
    }
  }

  lemma {:induction false} DrawnIsInk(draws: seq<Draw>, i: nat)
    requires i < |draws|
    ensures draws[i].dots <= InkOn(draws, draws[i].page)
  {
    if i < |draws| - 1 {
      DrawnIsInk(draws[..|draws| - 1], i);
    }
  }

  /** Each label done shows what was drawn on it, and so does the current one. */
  ghost predicate Accounted(st: State) {
    && (forall k: nat | k < |st.done| :: st.done[k] == InkOn(st.draws, k) && st.done[k] != {})
    && st.ink == InkOn(st.draws, |st.done|)
    && (forall i | 0 <= i < |st.draws| :: st.draws[i].page <= |st.done|)
  }

  /** The row of the baseline of line `k` of a label. */
  function Baseline(f: Font, k: nat): int {
    if k == 0 then f.ascent else Baseline(f, k - 1) + f.descent + f.ascent
  }

  /** The baseline is a whole number of lines below the first, and the line fits on the label. */
  ghost predicate OnGrid(l: Layout, row: int) {
    && (exists k: nat :: row == Baseline(l.font, k))
    && l.font.ascent <= row && (row == l.font.ascent || row + l.font.descent < l.vheight)
  }

  ghost predicate Sound(l: Layout, st: State) {
    Accounted(st) && OnGrid(l, st.row)
  }

  lemma {:induction false} StartIsSound(l: Layout)
    requires Usable(l)
    ensures Sound(l, Start(l))
  {
    assert Baseline(l.font, 0) == l.font.ascent;
  }

  lemma {:induction false} NewLabelIsSound(l: Layout, st: State)
    requires Usable(l) && Sound(l, st)
    ensures Sound(l, NewLabel(l, st))
  {
    StartIsSound(l);
    if st.ink != {} {
      NothingOnLaterLabels(st.draws, |st.done| + 1);
    }
  }

  lemma {:induction false} NextRow(l: Layout, row: int)
    requires Usable(l) && OnGrid(l, row)
    ensures exists k: nat :: row + l.font.descent + l.font.ascent == Baseline(l.font, k)
  {
    var k: nat :| row == Baseline(l.font, k);
    assert row + l.font.descent + l.font.ascent == Baseline(l.font, k + 1);
  }

  lemma {:induction false} DrawGlyphIsSound(l: Layout, st: State, g: Glyph)
    requires Sound(l, st) && DrawGlyph(l, st, g).Some?
    ensures Sound(l, DrawGlyph(l, st, g).value)
  {
    if Accepted(st.row, st.col, l.vheight, l.vwidth, g) {
      var d := Draw(|st.done|, Shape(st.row, st.col, l.vheight, l.vwidth, g));
      forall k: nat ensures InkOn(st.draws + [d], k) == InkOn(st.draws, k) + if d.page == k then d.dots else {} {
        InkOnNext(st.draws, d, k);
      }
    }
  }

  lemma {:induction false} StepIsSound(l: Layout, st: State, ch: byte)
    requires Usable(l) && Sound(l, st) && Step(l, st, ch).Some?
    ensures Sound(l, Step(l, st, ch).value)
  {
    NewLabelIsSound(l, st);
    NextRow(l, st.row);
    if l.font.glyphs[ch].width != 0 {
      DrawGlyphIsSound(l, st, l.font.glyphs[ch]);
    }
  }

  lemma {:induction false} StepsAreSound(l: Layout, st: State, line: seq<byte>)
    requires Usable(l) && Sound(l, st) && Steps(l, st, line).Some?
    ensures Sound(l, Steps(l, st, line).value)
  {
    if line != [] {
      StepsAreSound(l, st, line[..|line| - 1]);
      StepIsSound(l, Steps(l, st, line[..|line| - 1]).value, line[|line| - 1]);
    }
  }

  lemma {:induction false} LayIsSound(l: Layout, st: State, text: seq<byte>, room: nat)
    requires Usable(l) && room > 0 && Sound(l, st) && Lay(l, st, text, room).Some?
    ensures Sound(l, Lay(l, st, text, room).value)
    decreases |text|
  {
    if text != [] {
      var n := ReadLen(text, room);
      var line := Erase(UpToNul(text[..n])).value;
      StepsAreSound(l, st, line);
      LayIsSound(l, Steps(l, st, line).value, text[n..], room);
    }
  }

  /** Over a whole text no blank label is printed, each label printed shows exactly what was
      drawn on it, and whatever was drawn is on a label printed. */
  lemma {:induction false} NothingIsLost(l: Layout, text: seq<byte>, room: nat)
    requires Usable(l) && room > 0 && Lay(l, Start(l), text, room).Some?
    ensures var st := Lay(l, Start(l), text, room).value; var labels := Labels(st);
            && (forall k: nat | k < |labels| :: labels[k] != {} && labels[k] == InkOn(st.draws, k))
            && (forall i | 0 <= i < |st.draws| && st.draws[i].dots != {} ::
                  st.draws[i].page < |labels| && st.draws[i].dots <= labels[st.draws[i].page])
  {
    StartIsSound(l);
    LayIsSound(l, Start(l), text, room);
    var st := Lay(l, Start(l), text, room).value;
    forall i | 0 <= i < |st.draws| ensures st.draws[i].dots <= InkOn(st.draws, st.draws[i].page) {
      DrawnIsInk(st.draws, i);
    }
  }

  // ----- when the renderer gets through a text

  /** No glyph that is drawn hangs left of its origin or moves the place back. */
  ghost predicate Tame(l: Layout) {
    forall i: nat | i < |l.font.glyphs| ::
      l.font.glyphs[i].width != 0 ==> l.font.glyphs[i].width > 0 && l.font.glyphs[i].lbearing >= 0
  }

  /** A tab can be met: a space has a width, or the tab is a glyph, or there is none. */
  ghost predicate TabsGoThrough(l: Layout, line: seq<byte>)
    requires |l.font.glyphs| == 256
  {
    l.space > 0 || l.font.glyphs[TAB].width != 0 || TAB !in line
  }

  /** In no line do backspaces outnumber what stands before them, and no tab is left that has no
      width to go on by. */
  ghost predicate GoesThrough(l: Layout, text: seq<byte>, room: nat)
    requires |l.font.glyphs| == 256 && room > 0
    decreases |text|
  {
    text == [] ||
    var n := ReadLen(text, room);
    var line := Erase(UpToNul(text[..n]));
    line.Some? && TabsGoThrough(l, line.value) && GoesThrough(l, text[n..], room)
  }

  /** No baseline, nor a sum with a glyph's metrics, leaves 32 bits. */
  lemma {:induction false} RowIsReachable(l: Layout, row: int)
    requires Usable(l) && OnGrid(l, row)
    ensures Reachable(l.font, row) && -0x8000 <= row < 0x2_0000
  {
  }

  /** With such a font a character makes the renderer stop exactly if it is a tab without a width. */
  lemma {:induction false} TameStepGoesOnIff(l: Layout, st: State, ch: byte)
    requires Usable(l) && Tame(l) && st.col >= 0 && OnGrid(l, st.row)
    ensures Step(l, st, ch).Some? <==> TabsGoThrough(l, [ch])
    ensures Step(l, st, ch).Some? ==> Step(l, st, ch).value.col >= 0 && OnGrid(l, Step(l, st, ch).value.row)
  {
    var g := l.font.glyphs[ch];
    assert TAB in [ch] <==> TAB == ch;
    RowIsReachable(l, st.row);
    RowStaysOnGrid(l, st);
    if g.width != 0 && Accepted(st.row, st.col, l.vheight, l.vwidth, g) {
      AcceptedFits(l.font, st.row, st.col, l.vheight, l.vwidth, g);
    }
  }

  lemma {:induction false} RowStaysOnGrid(l: Layout, st: State)
    requires Usable(l) && OnGrid(l, st.row)
    ensures OnGrid(l, NewLine(l, st).row) && OnGrid(l, NewLabel(l, st).row)
  {
    assert Baseline(l.font, 0) == l.font.ascent;
    NextRow(l, st.row);
  }

  lemma {:induction false} TameStepsGoOnIff(l: Layout, st: State, line: seq<byte>)
    requires Usable(l) && Tame(l) && st.col >= 0 && OnGrid(l, st.row)
    ensures Steps(l, st, line).Some? <==> TabsGoThrough(l, line)
    ensures Steps(l, st, line).Some? ==> Steps(l, st, line).value.col >= 0 && OnGrid(l, Steps(l, st, line).value.row)
  {
    if line != [] {
      var front, ch := line[..|line| - 1], line[|line| - 1];
      assert line == front + [ch];
      TameStepsGoOnIff(l, st, front);
      if Steps(l, st, front).Some? {
        TameStepGoesOnIff(l, Steps(l, st, front).value, ch);
      }
    }
  }

  /** With such a font every text is laid out, but for one that has a backspace too many, or a tab
      when a space has no width. */
  lemma {:induction false} TameTextsGoThroughIff(l: Layout, st: State, text: seq<byte>, room: nat)
    requires Usable(l) && Tame(l) && st.col >= 0 && OnGrid(l, st.row) && room > 0
    ensures Lay(l, st, text, room).Some? <==> GoesThrough(l, text, room)
    decreases |text|
  {
    if text != [] {
      var n := ReadLen(text, room);
      var line := Erase(UpToNul(text[..n]));
      if line.Some? {
        TameStepsGoOnIff(l, st, line.value);
        if TabsGoThrough(l, line.value) {
          TameTextsGoThroughIff(l, Steps(l, st, line.value).value, text[n..], room);
        }
      }
    }
  }
}
