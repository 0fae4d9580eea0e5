/** The SLP-100/200/Pro driver: each row of a bitmap becomes a block of bytes, the dots of a
    byte most significant bit first, shifted one column left on models that cannot print
    the rightmost dot. */
module SlPro {
  import opened Bytes
  import opened Mbm

  /** The byte `0x80 >> n`. */
  function TopMask(n: nat): bv8
    requires n < 8
  {
    Mask(7 - n)
  }

  /** Bit `n` of a byte, from the top. */
  predicate Fires(x: bv8, n: nat)
    requires n < 8
  {
    HasBit(x, 7 - n)
  }

  lemma {:induction false} OrFiresOne(x: bv8, k: nat, n: nat)
    requires k < 8 && n < 8
    ensures Fires(x | TopMask(k), n) <==> n == k || Fires(x, n)
  {
    OrSetsOneBit(x, 7 - k, 7 - n);
  }

  /** The top bit of a byte fires the first of its eight columns. */
  lemma {:induction false} TopBitOrder(x: bv8)
    ensures x == (if Fires(x, 0) then 0x80 else 0) | (if Fires(x, 1) then 0x40 else 0)
               | (if Fires(x, 2) then 0x20 else 0) | (if Fires(x, 3) then 0x10 else 0)
               | (if Fires(x, 4) then 0x08 else 0) | (if Fires(x, 5) then 0x04 else 0)
               | (if Fires(x, 6) then 0x02 else 0) | (if Fires(x, 7) then 0x01 else 0)
  {
  }

  // ----- the printer

  datatype Mode = Command | Count | Data(left: nat) | Feed

  /** The print head: it prints the rows of a label one after the other, eight columns a byte.
      `ink` are the dots on the label it is on, `fed` the labels fed out before, `dead` the column whose
      dot never fires, `gap` the rows fed by a blank feed. */
  datatype Head = Head(mode: Mode, row: nat, slice: nat, ink: set<Dot>, fed: seq<set<Dot>>, gap: nat, dead: nat)

  /** The head is ready for commands at the top of a blank label. */
  ghost predicate AtTop(h: Head) {
    h.mode == Command && h.row == 0 && h.slice == 0 && h.ink == {}
  }

  /** `n` labels are fed out, and the head is at the top of the next. */
  function FedOut(h: Head, n: nat): Head
    decreases n
  {
    if n == 0 then h else FedOut(h.(row := 0, ink := {}, fed := h.fed + [h.ink]), n - 1)
  }

  lemma {:induction false} FedOnce(h: Head)
    ensures FedOut(h, 1) == h.(row := 0, ink := {}, fed := h.fed + [h.ink])
  {
    assert FedOut(h.(row := 0, ink := {}, fed := h.fed + [h.ink]), 0)
        == h.(row := 0, ink := {}, fed := h.fed + [h.ink]);
  }

  /** The dots the first `k` bits of byte `x`, the top one first, make from column `col` on. */
  function Fired(row: nat, col: nat, x: bv8, dead: nat, k: nat): set<Dot>
    requires k <= 8
  {
    if k == 0 then {} else Fired(row, col, x, dead, k - 1) + FiredOne(row, col + k - 1, Fires(x, k - 1), dead)
  }

  function FiredOne(row: nat, col: nat, on: bool, dead: nat): set<Dot> {
    if on && col != dead then {(row, col)} else {}
  }

  function Take(h: Head, b: byte): Head {
    match h.mode
    case Command =>
      if b == 0x4 then h.(mode := Count)
      else if b == 0xA then h.(row := h.row + h.gap)
      else if b == 0xC then h.(mode := Feed)
      else h
    case Count => if b == 0 then h.(mode := Command, row := h.row + 1) else h.(mode := Data(b))
    case Data(left) =>
      var h' := h.(ink := h.ink + Fired(h.row, h.slice * 8, b as bv8, h.dead, 8));
      if left <= 1 then h'.(mode := Command, row := h.row + 1, slice := 0)
      else h'.(mode := Data(left - 1), slice := h.slice + 1)
    case Feed => FedOut(h.(mode := Command), b)
  }

  function Run(h: Head, out: seq<byte>): Head {
    if out == [] then h else Take(Run(h, out[..|out| - 1]), out[|out| - 1])
  }

  lemma {:induction false} RunOfOne(h: Head, b: byte)
    ensures Run(h, [b]) == Take(h, b)
  {
    assert [b][..0] == [];
  }

  /** What each command does, in the codes that are sent: 4 and a count begin a row of that many bytes. */
  lemma {:induction false} CommandCodes(h: Head, n: byte)
    requires h.mode == Command && n > 0
    ensures Run(h, [0xA]) == h.(row := h.row + h.gap) && Run(h, [0x4, n]) == h.(mode := Data(n))
    ensures Run(h, [0xC, 0x1]) == h.(row := 0, ink := {}, fed := h.fed + [h.ink])
  {
    RunOfOne(h, 0xA);
    RunOfOne(h, 0x4);
    RunOfOne(h, 0xC);
    assert [0x4, n][..1] == [0x4] && [0xC, 0x1][..1] == [0xC];
    FedOnce(h);
  }

  lemma {:induction false} RunAppends(h: Head, a: seq<byte>, b: seq<byte>)
    ensures Run(h, a + b) == Run(Run(h, a), b)
    decreases |b|
  {
    if b == [] {
      assert a + b == a;
    } else {
      var front, last := b[..|b| - 1], b[|b| - 1];
      assert a + b == a + front + [last] && (a + b)[..|a + b| - 1] == a + front;
      RunAppends(h, a, front);
    }
  }

  method Send(out: seq<byte>, b: byte, ghost start: Head) returns (out': seq<byte>)
    ensures out' == out + [b] && Run(start, out') == Take(Run(start, out), b)
  {
    out' := out + [b];
    assert out'[..|out'| - 1] == out;
  }

  // ----- the picture

  /** The column of the label that is printed in column `c`. */
  function Source(slop: bool, width: nat, c: nat): nat {
    if slop && c + 1 < width then c + 1 else c
  }

  /** Column `c` of row `r` is to be printed. */
  predicate On(dots: set<Dot>, slop: bool, w: nat, r: nat, c: nat) {
    (r, Source(slop, w, c)) in dots
  }

  /** The picture of rows `from` up to `to`, as far as column `width` of label width `w`. */
  ghost function Image(dots: set<Dot>, slop: bool, w: nat, from: nat, to: nat, width: nat, dead: nat,
                       gap: nat): set<Dot> {
    set r: nat, c: nat | from <= r < to && c < width && c != dead && On(dots, slop, w, r, c) :: (r + gap, c)
  }

  /** Byte `x` shows the first `k` dots of slice `s` of row `r`. */
  ghost predicate Shows(dots: set<Dot>, slop: bool, w: nat, r: nat, s: nat, k: nat, x: bv8) {
    forall n: nat | n < 8 :: Fires(x, n) <==> n < k && On(dots, slop, w, r, s * 8 + n)
  }

  lemma {:induction false} ShowsNothing(dots: set<Dot>, slop: bool, w: nat, r: nat, s: nat)
    ensures Shows(dots, slop, w, r, s, 0, 0)
  {
    forall n: nat | n < 8 ensures !Fires(0, n) {
      ZeroHasNoBit(7 - n);
    }
  }

  lemma {:induction false} ShowsOneMore(dots: set<Dot>, slop: bool, w: nat, r: nat, s: nat, k: nat, x: bv8, y: bv8)
    requires k < 8 && Shows(dots, slop, w, r, s, k, x)
    requires y == if On(dots, slop, w, r, s * 8 + k) then x | TopMask(k) else x
    ensures Shows(dots, slop, w, r, s, k + 1, y)
  {
    if On(dots, slop, w, r, s * 8 + k) {
      forall n: nat | n < 8 ensures Fires(y, n) <==> n == k || Fires(x, n) {
        OrFiresOne(x, k, n);
      }
    }
  }

  /** The dots that fire for a byte are the columns of its slice. */
  lemma {:induction false} FiredIsImage(dots: set<Dot>, slop: bool, w: nat, r: nat, s: nat, x: bv8, dead: nat,
                                        gap: nat, k: nat)
    requires k <= 8 && Shows(dots, slop, w, r, s, 8, x)
    ensures Image(dots, slop, w, r, r + 1, s * 8 + k, dead, gap) ==
            Image(dots, slop, w, r, r + 1, s * 8, dead, gap) + Fired(r + gap, s * 8, x, dead, k)
  {
    if k > 0 {
      FiredIsImage(dots, slop, w, r, s, x, dead, gap, k - 1);
      ImageColumn(dots, slop, w, r, s * 8 + k - 1, dead, gap);
      assert Fires(x, k - 1) <==> On(dots, slop, w, r, s * 8 + (k - 1));
    }
  }

  lemma {:induction false} ImageColumn(dots: set<Dot>, slop: bool, w: nat, r: nat, c: nat, dead: nat, gap: nat)
    ensures Image(dots, slop, w, r, r + 1, c + 1, dead, gap) ==
            Image(dots, slop, w, r, r + 1, c, dead, gap) + FiredOne(r + gap, c, On(dots, slop, w, r, c), dead)
  {
    if c != dead && On(dots, slop, w, r, c) {
      var d: Dot := (r + gap, c);
      assert d in Image(dots, slop, w, r, r + 1, c + 1, dead, gap);
    }
  }

  lemma {:induction false} ImageRow(dots: set<Dot>, slop: bool, w: nat, r: nat, dead: nat, gap: nat)
    ensures Image(dots, slop, w, 0, r + 1, w, dead, gap) ==
            Image(dots, slop, w, 0, r, w, dead, gap) + Image(dots, slop, w, r, r + 1, w, dead, gap)
  {
  }

  /** Row `r` has something to print in its first `width` columns. */
  ghost predicate RowOn(dots: set<Dot>, slop: bool, w: nat, r: nat, width: nat) {
    exists c: nat :: c < width && On(dots, slop, w, r, c)
  }

  lemma {:induction false} RowOnNext(dots: set<Dot>, slop: bool, w: nat, r: nat, c: nat)
    ensures RowOn(dots, slop, w, r, c + 1) <==> RowOn(dots, slop, w, r, c) || On(dots, slop, w, r, c)
  {
    if On(dots, slop, w, r, c) {
      assert RowOn(dots, slop, w, r, c + 1);
    }
  }

  /** Of the first `rows` rows, `last` is the last that has something to print; it is row 0 when
      none has. */
  ghost predicate IsLast(dots: set<Dot>, slop: bool, w: nat, rows: nat, last: nat) {
    && (forall r: nat | last < r < rows :: !RowOn(dots, slop, w, r, w))
    && (last > 0 ==> last < rows && RowOn(dots, slop, w, last, w))
  }

  /** The printer takes the byte that shows slice `s` of row `r`. */
  lemma {:induction false} PrintsSlice(h: Head, dots: set<Dot>, slop: bool, w: nat, r: nat, s: nat, v: byte,
                                       gap: nat, ink: set<Dot>)
    requires h.mode.Data? && h.row == r + gap && h.slice == s && Shows(dots, slop, w, r, s, 8, v as bv8)
    requires h.ink == ink + Image(dots, slop, w, r, r + 1, s * 8, h.dead, gap)
    ensures var h' := Take(h, v);
            && h'.ink == ink + Image(dots, slop, w, r, r + 1, (s + 1) * 8, h.dead, gap)
            && h' == (if h.mode.left <= 1 then h.(mode := Command, row := r + gap + 1, slice := 0)
                      else h.(mode := Data(h.mode.left - 1), slice := s + 1)).(ink := h'.ink)
  {
    FiredIsImage(dots, slop, w, r, s, v as bv8, h.dead, gap, 8);
  }

  /** Leaving out the rows after the last loses nothing. */
  lemma {:induction false} RestIsBlank(dots: set<Dot>, slop: bool, w: nat, rows: nat, last: nat, dead: nat, gap: nat)
    requires last < rows && IsLast(dots, slop, w, rows, last)
    ensures Image(dots, slop, w, 0, last + 1, w, dead, gap) == Image(dots, slop, w, 0, rows, w, dead, gap)
  {
    forall r: nat, c: nat | r < rows && c < w && On(dots, slop, w, r, c) ensures r <= last {
      assert RowOn(dots, slop, w, r, w);
    }
  }

  // ----- what is printed

  ghost predicate Within(dots: set<Dot>, rows: nat, width: nat) {
    forall d: Dot :: d in dots ==> d.0 < rows && d.1 < width
  }

  /** The dots from column `from` on, moved left by `step` columns. */
  ghost function Moved(dots: set<Dot>, from: nat, step: nat, gap: nat): set<Dot>
    requires step <= from
  {
    set d | d in dots && from <= d.1 :: (d.0 + gap, d.1 - step)
  }

  /** A printer without the bug prints the label. */
  lemma {:induction false} PrintsLabel(dots: set<Dot>, rows: nat, w: nat, dead: nat, gap: nat)
    requires Within(dots, rows, w) && dead >= w
    ensures Image(dots, false, w, 0, rows, w, dead, gap) == Moved(dots, 0, 0, gap)
  {
    forall d: Dot | d in dots ensures (d.0 + gap, d.1) in Image(dots, false, w, 0, rows, w, dead, gap) {
      assert On(dots, false, w, d.0, d.1);
    }
  }

  /** A printer whose last column never fires prints the label but for its first column, one
      column to the left. */
  lemma {:induction false} SlopDropsFirstColumn(dots: set<Dot>, rows: nat, w: nat, gap: nat)
    requires Within(dots, rows, w) && w > 0
    ensures Image(dots, true, w, 0, rows, w, w - 1, gap) == Moved(dots, 1, 1, gap)
  {
    var image := Image(dots, true, w, 0, rows, w, w - 1, gap);
    forall d: Dot | d in dots && d.1 >= 1 ensures (d.0 + gap, d.1 - 1) in image {
      assert On(dots, true, w, d.0, d.1 - 1);
    }
    forall r: nat, c: nat | r < rows && c < w && c != w - 1 && On(dots, true, w, r, c)
      ensures (r + gap, c) in Moved(dots, 1, 1, gap)
    {
      var d: Dot := (r, c + 1);
      assert d in dots;
    }
  }

  /** Were the last column to fire, it would repeat its neighbour. */
  lemma {:induction false} SlopRepeatsLastColumn(dots: set<Dot>, rows: nat, w: nat, dead: nat, gap: nat, r: nat)
    requires Within(dots, rows, w) && w > 1 && dead >= w && r < rows
    ensures var image := Image(dots, true, w, 0, rows, w, dead, gap);
            (r + gap, w - 1) in image <==> (r + gap, w - 2) in image
  {
    assert On(dots, true, w, r, w - 1) <==> On(dots, true, w, r, w - 2);
  }

  // ----- the driver

  class Driver {
    const nbands: nat
    const nslices: nat
    const slop: bool
    const cells: array2<bv8>

    ghost predicate Valid() {
      cells.Length0 == nbands && cells.Length1 == nslices
    }

    /** The slices of the rows before row `top` show what is to be printed. */
    ghost predicate Mapped(dots: set<Dot>, top: nat)
      requires Valid() && top <= nbands
      reads cells
    {
      forall r: nat | r < top :: ShowsRow(dots, r, nslices)
    }

    ghost predicate ShowsRow(dots: set<Dot>, r: nat, k: nat)
      requires Valid() && r < nbands && k <= nslices
      reads cells
    {
      forall s: nat | s < k :: Shows(dots, slop, nslices * 8, r, s, 8, cells[r, s])
    }

    constructor (nbands: nat, nslices: nat, slop: bool)
      ensures Valid() && fresh(cells)
      ensures this.nbands == nbands && this.nslices == nslices && this.slop == slop
    {
      this.nbands, this.nslices, this.slop := nbands, nslices, slop;
      cells := new bv8[nbands, nslices]((_, _) => 0);
    }

    method Mark(band: nat, slice: nat, n: nat)
      requires Valid() && band < nbands && slice < nslices && n < 8
      modifies cells
      ensures cells[band, slice] == old(cells[band, slice]) | TopMask(n)
      ensures forall b, s | 0 <= b < nbands && 0 <= s < nslices && (b != band || s != slice) ::
                cells[b, s] == old(cells[b, s])
    {
      cells[band, slice] := cells[band, slice] | TopMask(n);
    }

    /** Looks at the dot that is to be printed in column `col`. */
    method Look(bm: Bitmap, band: nat, col: nat) returns (on: bool)
      requires Valid() && bm.Valid() && bm.height == nbands && bm.width == nslices * 8
      requires band < nbands && col < nslices * 8
      ensures on == On(bm.dots, slop, nslices * 8, band, col)
    {
      var c := col;
      if c < nslices * 8 - 1 && slop {
        c := c + 1;
      }
      on := bm.Test(band, c);
    }

    /** Maps the dot that is to be printed as bit `n` of slice `slice`. */
    method Probe(bm: Bitmap, band: nat, slice: nat, n: nat, last: nat) returns (last': nat)
      requires Valid() && bm.Valid() && bm.height == nbands && bm.width == nslices * 8
      requires band < nbands && slice < nslices && n < 8
      requires Shows(bm.dots, slop, nslices * 8, band, slice, n, cells[band, slice])
      modifies cells
      ensures Shows(bm.dots, slop, nslices * 8, band, slice, n + 1, cells[band, slice])
      ensures last' == if On(bm.dots, slop, nslices * 8, band, slice * 8 + n) then band else last
      ensures forall b, s | 0 <= b < nbands && 0 <= s < nslices && (b != band || s != slice) ::
                cells[b, s] == old(cells[b, s])
    {
      last' := last;
      ghost var was := cells[band, slice];
      var on := Look(bm, band, slice * 8 + n);
      if on {
        Mark(band, slice, n);
        last' := band;
      }
      ShowsOneMore(bm.dots, slop, nslices * 8, band, slice, n, was, cells[band, slice]);
    }

    method MapSlice(bm: Bitmap, band: nat, slice: nat, last: nat) returns (last': nat)
      requires Valid() && bm.Valid() && bm.height == nbands && bm.width == nslices * 8
      requires band < nbands && slice < nslices
      requires last != band ==> !RowOn(bm.dots, slop, nslices * 8, band, slice * 8)
      modifies cells
      ensures Shows(bm.dots, slop, nslices * 8, band, slice, 8, cells[band, slice])
      ensures last' == if RowOn(bm.dots, slop, nslices * 8, band, slice * 8 + 8) then band else last
      ensures forall b, s | 0 <= b < nbands && 0 <= s < nslices && (b != band || s != slice) ::
                cells[b, s] == old(cells[b, s])
    {
      last' := last;
      cells[band, slice] := 0;
      ShowsNothing(bm.dots, slop, nslices * 8, band, slice);
      for n := 0 to 8
        invariant Shows(bm.dots, slop, nslices * 8, band, slice, n, cells[band, slice])
        invariant last' == if RowOn(bm.dots, slop, nslices * 8, band, slice * 8 + n) then band else last
        invariant forall b, s | 0 <= b < nbands && 0 <= s < nslices && (b != band || s != slice) ::
                    cells[b, s] == old(cells[b, s])
      {
        RowOnNext(bm.dots, slop, nslices * 8, band, slice * 8 + n);
        last' := Probe(bm, band, slice, n, last');
      }
    }

    method MapRow(bm: Bitmap, band: nat, last: nat) returns (last': nat)
      requires Valid() && bm.Valid() && bm.height == nbands && bm.width == nslices * 8 && band < nbands
      modifies cells
      ensures ShowsRow(bm.dots, band, nslices)
      ensures last' == if RowOn(bm.dots, slop, nslices * 8, band, nslices * 8) then band else last
      ensures forall b, s | 0 <= b < nbands && 0 <= s < nslices && b != band :: cells[b, s] == old(cells[b, s])
    {
      last' := last;
      for slice := 0 to nslices
        invariant ShowsRow(bm.dots, band, slice)
        invariant last' == if RowOn(bm.dots, slop, nslices * 8, band, slice * 8) then band else last
        invariant forall b, s | 0 <= b < nbands && 0 <= s < nslices && b != band :: cells[b, s] == old(cells[b, s])
      {
        last' := MapSlice(bm, band, slice, last');
      }
    }

    /** Maps the dots of a label onto slices. */
    method MapBands(bm: Bitmap) returns (lastband: nat)
      requires Valid() && bm.Valid() && bm.height == nbands && bm.width == nslices * 8
      modifies cells
      ensures Mapped(bm.dots, nbands) && IsLast(bm.dots, slop, nslices * 8, nbands, lastband)
    {
      lastband := 0;
      for band := 0 to nbands
        invariant Mapped(bm.dots, band) && IsLast(bm.dots, slop, nslices * 8, band, lastband)
      {
        label Before:
        lastband := MapRow(bm, band, lastband);
        forall r: nat | r < band ensures ShowsRow(bm.dots, r, nslices) {
          assert old@Before(ShowsRow(bm.dots, r, nslices));
        }
      }
    }

    /** The head stands at the start of row `band`, `gap` rows down. */
    ghost predicate HeadAt(h: Head, band: nat, gap: nat, start: Head) {
      && h.mode == Command && h.row == band + gap && h.slice == 0
      && h.dead == start.dead && h.gap == start.gap && h.fed == start.fed
    }

    /** Sends row `band`. */
    method SendRow(band: nat, out: seq<byte>, ghost dots: set<Dot>, ghost start: Head, ghost gap: nat)
      returns (out': seq<byte>)
      requires Valid() && band < nbands && nslices <= 255 && ShowsRow(dots, band, nslices)
      requires HeadAt(Run(start, out), band, gap, start)
      ensures HeadAt(Run(start, out'), band + 1, gap, start)
      ensures Run(start, out').ink == Run(start, out).ink +
              Image(dots, slop, nslices * 8, band, band + 1, nslices * 8, start.dead, gap)
    {
      ghost var ink := Run(start, out).ink;
      out' := Send(out, 0x4, start);
      out' := Send(out', nslices, start);
      for s: nat := 0 to nslices
        invariant var h := Run(start, out');
                  if s == nslices then HeadAt(h, band + 1, gap, start)
                  else h.row == band + gap && h.slice == s && h.mode == Data(nslices - s)
                       && h.dead == start.dead && h.gap == start.gap && h.fed == start.fed
        invariant Run(start, out').ink ==
                  ink + Image(dots, slop, nslices * 8, band, band + 1, s * 8, start.dead, gap)
      {
        var v := cells[band, s] as byte;
        ByteOfBits(cells[band, s]);
        PrintsSlice(Run(start, out'), dots, slop, nslices * 8, band, s, v, gap, ink);
        out' := Send(out', v, start);
      }
    }

    /** Sends the rows up to `lastband`. */
    method SendRows(lastband: nat, out: seq<byte>, ghost dots: set<Dot>, ghost start: Head, ghost gap: nat)
      returns (out': seq<byte>)
      requires Valid() && lastband < nbands && nslices <= 255 && Mapped(dots, nbands)
      requires HeadAt(Run(start, out), 0, gap, start) && Run(start, out).ink == {}
      ensures HeadAt(Run(start, out'), lastband + 1, gap, start)
      ensures Run(start, out').ink == Image(dots, slop, nslices * 8, 0, lastband + 1, nslices * 8, start.dead, gap)
    {
      out' := out;
      for band: nat := 0 to lastband + 1
        invariant HeadAt(Run(start, out'), band, gap, start)
        invariant Run(start, out').ink == Image(dots, slop, nslices * 8, 0, band, nslices * 8, start.dead, gap)
      {
        assert ShowsRow(dots, band, nslices);
        ImageRow(dots, slop, nslices * 8, band, start.dead, gap);
        out' := SendRow(band, out', dots, start, gap);
      }
    }

    /** Feeds three blank rows. The original feeds them in a loop. */
    method Begin(ghost start: Head) returns (out: seq<byte>)
      requires HeadAt(start, 0, 0, start)
      ensures out == [0xA, 0xA, 0xA]
      ensures HeadAt(Run(start, out), 0, start.gap * 3, start) && Run(start, out).ink == start.ink
    {
      out := Send([], 0xA, start);
      out := Send(out, 0xA, start);
      out := Send(out, 0xA, start);
    }

    /** Moves the paper to the next label. */
    method Finish(out: seq<byte>, ghost start: Head) returns (out': seq<byte>)
      requires Run(start, out).mode == Command
      ensures out' == out + [0xC, 0x1]
      ensures var h := Run(start, out);
              Run(start, out') == h.(row := 0, ink := {}, fed := h.fed + [h.ink])
    {
      ghost var h := Run(start, out);
      out' := Send(out, 0xC, start);
      assert Run(start, out') == h.(mode := Feed);
      FedOnce(h);
      out' := Send(out', 0x1, start);
    }

    /** The dots of a label as this printer makes them. */
    ghost function Picture(dots: set<Dot>, start: Head): set<Dot> {
      Image(dots, slop, nslices * 8, 0, nbands, nslices * 8, start.dead, start.gap * 3)
    }

    /** Prints a label: exactly one is fed out, and the head is ready for the next. */
    method PrintLabel(bm: Bitmap, ghost start: Head) returns (out: seq<byte>)
      requires Valid() && nbands > 0 && nslices <= 255
      requires bm.Valid() && bm.height == nbands && bm.width == nslices * 8 && AtTop(start)
      modifies cells
      ensures Mapped(bm.dots, nbands)
      ensures var h := Run(start, out);
              AtTop(h) && h.dead == start.dead && h.gap == start.gap && h.fed == start.fed + [Picture(bm.dots, start)]
    {
      var lastband := MapBands(bm);
      out := Begin(start);
      out := SendRows(lastband, out, bm.dots, start, start.gap * 3);
      RestIsBlank(bm.dots, slop, nslices * 8, nbands, lastband, start.dead, start.gap * 3);
      out := Finish(out, start);
    }

    ghost function Pictures(labels: seq<set<Dot>>, start: Head): seq<set<Dot>> {
      seq(|labels|, k requires 0 <= k < |labels| => Picture(labels[k], start))
    }

    /** Prints a series of labels with dots `labels`: one label is fed out for each. */
    method PrintSeries(bms: seq<Bitmap>, ghost labels: seq<set<Dot>>, ghost start: Head) returns (out: seq<byte>)
      requires Valid() && nbands > 0 && nslices <= 255 && AtTop(start) && |labels| == |bms|
      requires forall k | 0 <= k < |bms| ::
                 bms[k].Valid() && bms[k].height == nbands && bms[k].width == nslices * 8 && bms[k].dots == labels[k]
      modifies cells
      ensures AtTop(Run(start, out)) && Run(start, out).fed == start.fed + Pictures(labels, start)
    {
      out := [];
      for n: nat := 0 to |bms|
        invariant forall k | 0 <= k < |bms| ::
                    bms[k].Valid() && bms[k].height == nbands && bms[k].width == nslices * 8 && bms[k].dots == labels[k]
        invariant var h := Run(start, out);
                  AtTop(h) && h.dead == start.dead && h.gap == start.gap
                  && h.fed == start.fed + Pictures(labels[..n], start)
      {
        var more := PrintLabel(bms[n], Run(start, out));
        RunAppends(start, out, more);
        assert Pictures(labels[..n + 1], start) == Pictures(labels[..n], start) + [Picture(labels[n], start)];
        out := out + more;
      }
      assert labels[..|bms|] == labels;
    }
  }
}
