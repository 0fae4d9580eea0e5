/** The SLP-1x00 driver: a bitmap becomes pairs of interleaved bands, and the bands a
    stream of head motions and print data. */
module SlPlus {
  import opened Bytes
  import opened Mbm
  import opened Options

  // A band is 8 rows of dots high, two apart; two interleaved bands are a pair, 16 rows high.

  // ----- rows, bands and bits

  /** The band a row is printed in: even rows of a pair of bands first, odd rows second. */
  function BandOf(row: nat): nat {
    row / 16 * 2 + row % 2
  }

  function BitOf(row: nat): (n: nat)
    ensures n < 8
  {
    row % 16 / 2
  }

  function TopRow(band: nat): nat {
    band / 2 * 16 + band % 2
  }

  function RowOf(band: nat, n: nat): nat {
    TopRow(band) + n * 2
  }

  lemma {:induction false} RowsAreBits(row: nat)
    ensures RowOf(BandOf(row), BitOf(row)) == row
  {
    var q, m := row / 16, row % 16;
    assert row % 2 == m % 2;
    assert BandOf(row) / 2 == q && BandOf(row) % 2 == m % 2;
  }

  lemma {:induction false} BitsAreRows(band: nat, n: nat)
    requires n < 8
    ensures BandOf(RowOf(band, n)) == band && BitOf(RowOf(band, n)) == n
    ensures RowOf(band, n) / 16 == band / 2 && RowOf(band, n) % 16 == n * 2 + band % 2
  {
    var q, m := band / 2, n * 2 + band % 2;
    QuotientAndRest(q, m);
    assert m / 2 == n && m % 2 == band % 2;
    assert q * 2 + band % 2 == band;
  }

  lemma {:induction false} QuotientAndRest(q: nat, m: nat)
    requires m < 16
    ensures (q * 16 + m) / 16 == q && (q * 16 + m) % 16 == m && (q * 16 + m) % 2 == m % 2
  {
  }

  /** Interleaving pairs the rows of a label off with the bits of its bands. */
  lemma {:induction false} InterleavingIsBijective(nbands: nat, row: nat, band: nat, n: nat)
    requires nbands % 2 == 0 && n < 8
    ensures RowOf(BandOf(row), BitOf(row)) == row
    ensures BandOf(RowOf(band, n)) == band && BitOf(RowOf(band, n)) == n
    ensures row < nbands * 8 <==> BandOf(row) < nbands
    ensures band < nbands <==> RowOf(band, n) < nbands * 8
  {
    RowsAreBits(row);
    BitsAreRows(band, n);
    BandsOfRows(nbands, row);
    BandsOfRows(nbands, RowOf(band, n));
  }

  lemma {:induction false} BandsOfRows(nbands: nat, row: nat)
    requires nbands % 2 == 0
    ensures row < nbands * 8 <==> BandOf(row) < nbands
  {
    var q, half := row / 16, nbands / 2;
    assert row < nbands * 8 <==> q < half;
  }

  /** The height of the printable area, made a whole number of pairs of bands; `h` is the
      unrounded height, and the sum is kept in 16 bits. */
  function RoundedHeight(h: ushort): ushort {
    (h + 16 - h % 16) % 0x1_0000
  }

  lemma {:induction false} GeometryGivesEvenBands(h: ushort)
    ensures var g := RoundedHeight(h);
            && g % 8 == 0 && g / 8 % 2 == 0
            && (h < 0x1_0000 - 16 ==> h < g <= h + 16 && g / 8 > 0)
  {
  }

  // ----- the printer

  datatype Mode = Command | Right | Left | Count | Data(left: nat) | Feed

  /** A print head with eight pins two rows apart: its row and column, the dots printed on the label
      it is on, and the labels fed out before. `gap` is how far the printer feeds for a blank band. */
  datatype Head = Head(mode: Mode, row: nat, col: int, ink: set<(int, int)>, fed: seq<set<(int, int)>>, gap: nat)

  /** The head is ready for commands at the top of a blank label. */
  ghost predicate AtTop(h: Head) {
    h.mode == Command && h.row == 0 && h.ink == {}
  }

  /** `n` labels are fed out, and the head is at the top of the next. */
  function FedOut(h: Head, n: nat): Head
    decreases n
  {
    if n == 0 then h else FedOut(h.(row := 0, ink := {}, fed := h.fed + [h.ink]), n - 1)
  }

  /** The dots the first `k` pins make for print data `x`, the topmost pin at `row` and `col`. */
  function Pins(row: nat, col: int, x: bv8, k: nat): set<(int, int)>
    requires k <= 8
  {
    if k == 0 then {}
    else Pins(row, col, x, k - 1) + if HasBit(x, k - 1) then {(row + (k - 1) * 2, col)} else {}
  }

  /** The printer takes one byte. */
  function Take(h: Head, b: byte): Head {
    match h.mode
    case Command =>
      if b == 0x7 then h.(mode := Right)
      else if b == 0x8 then h.(mode := Left)
      else if b == 0x3 then h.(mode := Count)
      else if b == 0x9 then h.(row := h.row + 1)
      else if b == 0xB then h.(row := h.row + 16 - 1)
      else if b == 0xA then h.(row := h.row + h.gap)
      else if b == 0xD then h.(col := 0)
      else if b == 0xC then h.(mode := Feed)
      else h
    case Right => h.(mode := Command, col := h.col + b)
    case Left => h.(mode := Command, col := h.col - b)
    case Count => h.(mode := if b == 0 then Command else Data(b))
    case Data(left) =>
      h.(mode := if left <= 1 then Command else Data(left - 1),
         col := h.col + 1,
         ink := h.ink + Pins(h.row, h.col, b as bv8, 8))
    case Feed => FedOut(h.(mode := Command), b)
  }

  function Run(h: Head, out: seq<byte>): Head {
    if out == [] then h else Take(Run(h, out[..|out| - 1]), out[|out| - 1])
  }

  lemma {:induction false} FedOnce(h: Head)
    ensures FedOut(h, 1) == h.(row := 0, ink := {}, fed := h.fed + [h.ink])
  {
    assert FedOut(h.(row := 0, ink := {}, fed := h.fed + [h.ink]), 0)
        == h.(row := 0, ink := {}, fed := h.fed + [h.ink]);
  }

  lemma {:induction false} RunAppends(h: Head, a: seq<byte>, b: seq<byte>)
    ensures Run(h, a + b) == Run(Run(h, a), b)
    decreases |b|
  {
    if b == [] {
      assert a + b == a;
    } else {
      var front, last := b[..|b| - 1], b[|b| - 1];
      assert a + b == a + front + [last] && (a + b)[..|a + b| - 1] == a + front;
      RunAppends(h, a, front);
    }
  }

  lemma {:induction false} LastIsTold<T>(xs: seq<T>, x: T, y: T)
    ensures xs + [x] == xs + [y] <==> x == y
  {
    assert (xs + [x])[|xs|] == x && (xs + [y])[|xs|] == y;
  }

  /** The driver sends one byte; `start` is the head before the first of them. */
  method Send(out: seq<byte>, b: byte, ghost start: Head) returns (out': seq<byte>)
    ensures out' == out + [b] && Run(start, out') == Take(Run(start, out), b)
  {
    out' := out + [b];
    assert out'[..|out' | - 1] == out;
  }

  /** What each command does, in the codes that are sent. */
  lemma {:induction false} CommandCodes(h: Head, n: byte)
    requires h.mode == Command
    ensures Run(h, [0x7, n]) == h.(col := h.col + n) && Run(h, [0x8, n]) == h.(col := h.col - n)
    ensures Run(h, [0x9]) == h.(row := h.row + 1) && Run(h, [0xB]) == h.(row := h.row + 15)
    ensures Run(h, [0xA]) == h.(row := h.row + h.gap) && Run(h, [0xD]) == h.(col := 0)
    ensures Run(h, [0xC, 0x1]) == h.(row := 0, ink := {}, fed := h.fed + [h.ink])
  {
    RunOfOne(h, 0x7);
    RunOfOne(h, 0x8);
    RunOfOne(h, 0x9);
    RunOfOne(h, 0xB);
    RunOfOne(h, 0xA);
    RunOfOne(h, 0xD);
    RunOfOne(h, 0xC);
    RunOfTwo(h, 0x7, n);
    RunOfTwo(h, 0x8, n);
    RunOfTwo(h, 0xC, 0x1);
    FedOnce(h);
  }

  lemma {:induction false} RunOfOne(h: Head, b: byte)
    ensures Run(h, [b]) == Take(h, b)
  {
    assert [b][..0] == [];
  }

  lemma {:induction false} RunOfTwo(h: Head, a: byte, b: byte)
    ensures Run(h, [a, b]) == Take(Take(h, a), b)
  {
    RunOfOne(h, a);
    assert [a, b][..1] == [a];
  }

  /** One byte of print data: the lowest bit is the topmost pin, and pins are two rows apart. */
  lemma {:induction false} DataCodes(h: Head)
    requires h.mode == Data(1)
    ensures Take(h, 0x01) == h.(mode := Command, col := h.col + 1, ink := h.ink + {(h.row, h.col)})
    ensures Take(h, 0x80) == h.(mode := Command, col := h.col + 1, ink := h.ink + {(h.row + 14, h.col)})
  {
    PinsOfOne(h.row, h.col, 0x01, 0, 8);
    PinsOfOne(h.row, h.col, 0x80, 7, 8);
  }

  lemma {:induction false} PinsOfOne(row: nat, col: int, x: bv8, k: nat, n: nat)
    requires k < 8 && n <= 8 && x == Mask(k)
    ensures Pins(row, col, x, n) == if k < n then {(row + k * 2, col)} else {}
  {
    if n > 0 {
      PinsOfOne(row, col, x, k, n - 1);
      MasksDiffer(k, n - 1);
    }
  }

  lemma {:induction false} MasksDiffer(k: nat, m: nat)
    requires k < 8 && m < 8
    ensures HasBit(Mask(k), m) <==> m == k
  {
    OrSetsOneBit(0, k, m);
    ZeroHasNoBit(m);
    OrNothing(Mask(k));
  }

  lemma {:induction false} OrNothing(x: bv8)
    ensures 0 | x == x
  {
  }

  // ----- the picture

  /** Where the printer makes dot `d`: two columns in, below a blank band. */
  function Place(d: Dot, gap: nat): (int, int) {
    (d.0 + gap, d.1 + 2)
  }

  /** The dots of band `b` from column `from` up to column `to`, as printed. */
  ghost function BandPicture(dots: set<Dot>, b: nat, from: nat, to: nat, gap: nat): set<(int, int)> {
    set d | d in dots && BandOf(d.0) == b && from <= d.1 < to :: Place(d, gap)
  }

  /** Band `b` has a dot right of the first column. */
  ghost predicate Inked(dots: set<Dot>, b: nat) {
    exists d: Dot :: d in dots && BandOf(d.0) == b && d.1 > 0
  }

  /** The dots of the inked bands before band `top`, as printed. */
  ghost function Picture(dots: set<Dot>, top: nat, gap: nat): set<(int, int)> {
    set d | d in dots && BandOf(d.0) < top && Inked(dots, BandOf(d.0)) :: Place(d, gap)
  }

  lemma {:induction false} PictureGrows(dots: set<Dot>, b: nat, width: nat, gap: nat)
    requires forall d: Dot :: d in dots ==> d.1 < width
    ensures Picture(dots, b + 1, gap) ==
            Picture(dots, b, gap) + if Inked(dots, b) then BandPicture(dots, b, 0, width, gap) else {}
  {
  }

  /** The pins make dots of column `s` of band `b` only... */
  lemma {:induction false} PinsMakeDots(dots: set<Dot>, b: nat, s: nat, x: bv8, gap: nat, k: nat)
    requires k <= 8 && Shows(dots, b, s, 8, x)
    ensures Pins(gap + TopRow(b), s + 2, x, k) <= BandPicture(dots, b, s, s + 1, gap)
  {
    if k > 0 {
      PinsMakeDots(dots, b, s, x, gap, k - 1);
      if HasBit(x, k - 1) {
        BitsAreRows(b, k - 1);
        var d: Dot := (RowOf(b, k - 1), s);
        assert Place(d, gap) == (gap + TopRow(b) + (k - 1) * 2, s + 2);
      }
    }
  }

  /** ...and each of them. */
  lemma {:induction false} PinsMakeEach(row: nat, col: int, x: bv8, n: nat, k: nat)
    requires n < k <= 8 && HasBit(x, n)
    ensures (row + n * 2, col) in Pins(row, col, x, k)
  {
    if n < k - 1 {
      PinsMakeEach(row, col, x, n, k - 1);
    }
  }

  lemma {:induction false} PinMakesDot(dots: set<Dot>, b: nat, s: nat, x: bv8, gap: nat, row: nat)
    requires Shows(dots, b, s, 8, x) && (row, s) in dots && BandOf(row) == b
    ensures Place((row, s), gap) in Pins(gap + TopRow(b), s + 2, x, 8)
  {
    var n := BitOf(row);
    RowsAreBits(row);
    PinsMakeEach(gap + TopRow(b), s + 2, x, n, 8);
  }

  /** The pins that print column `s` of band `b` make its dots. */
  lemma {:induction false} PinsAreDots(dots: set<Dot>, b: nat, s: nat, x: bv8, gap: nat)
    requires Shows(dots, b, s, 8, x)
    ensures Pins(gap + TopRow(b), s + 2, x, 8) == BandPicture(dots, b, s, s + 1, gap)
  {
    PinsMakeDots(dots, b, s, x, gap, 8);
    forall d: Dot | d in dots && BandOf(d.0) == b && s <= d.1 < s + 1
      ensures Place(d, gap) in Pins(gap + TopRow(b), s + 2, x, 8)
    {
      PinMakesDot(dots, b, s, x, gap, d.0);
    }
  }

  /** The printer takes the byte that shows column `s` of band `b`. */
  lemma {:induction false} PrintsColumn(h: Head, dots: set<Dot>, b: nat, s: nat, v: byte, gap: nat)
    requires Shows(dots, b, s, 8, v as bv8) && h.mode.Data? && h.row == gap + TopRow(b) && h.col == s + 2
    ensures Take(h, v) == h.(mode := if h.mode.left <= 1 then Command else Data(h.mode.left - 1),
                             col := s + 3, ink := h.ink + BandPicture(dots, b, s, s + 1, gap))
  {
    PinsAreDots(dots, b, s, v as bv8, gap);
  }

  lemma {:induction false} PicturesJoin(dots: set<Dot>, b: nat, from: nat, mid: nat, to: nat, gap: nat)
    requires from <= mid <= to
    ensures BandPicture(dots, b, from, to, gap)
         == BandPicture(dots, b, from, mid, gap) + BandPicture(dots, b, mid, to, gap)
  {
  }

  /** Every dot of a label, as printed. */
  ghost function WholePicture(dots: set<Dot>, gap: nat): set<(int, int)> {
    set d | d in dots :: Place(d, gap)
  }

  /** The band the driver stops after, given the dot it looked at last: an odd band is followed
      by one more. */
  function LastSent(mark: Option<Dot>): nat {
    if mark.None? then 0 else
      var band := BandOf(mark.value.0);
      if band % 2 == 1 then band + 1 else band
  }

  // ----- what the driver maps

  /** The bits of byte `x` are the first `k` of the eight dots that column `s` of band `b` has. */
  ghost predicate Shows(dots: set<Dot>, b: nat, s: nat, k: nat, x: bv8) {
    forall n: nat | n < 8 :: HasBit(x, n) <==> n < k && (RowOf(b, n), s) in dots
  }

  lemma {:induction false} ShowsNothing(dots: set<Dot>, b: nat, s: nat)
    ensures Shows(dots, b, s, 0, 0)
  {
    forall n: nat | n < 8 ensures !HasBit(0, n) {
      ZeroHasNoBit(n);
    }
  }

  lemma {:induction false} ShowsOneMore(dots: set<Dot>, b: nat, s: nat, k: nat, x: bv8)
    requires k < 8 && Shows(dots, b, s, k, x)
    ensures (RowOf(b, k), s) in dots ==> Shows(dots, b, s, k + 1, x | Mask(k)) && x | Mask(k) != 0
    ensures (RowOf(b, k), s) !in dots ==> Shows(dots, b, s, k + 1, x)
  {
    forall n: nat | n < 8 ensures HasBit(x | Mask(k), n) <==> n == k || HasBit(x, n) {
      OrSetsOneBit(x, k, n);
    }
    SomeBitIsSet(x | Mask(k), k);
  }

  /** A band of an even number, and the one after it, stand for the even and the odd rows
      of a pair. */
  lemma {:induction false} RowsOfPair(band: nat, n: nat)
    requires band % 2 == 0 && n < 8
    ensures RowOf(band, n) == band * 8 + n * 2 && RowOf(band + 1, n) == band * 8 + n * 2 + 1
  {
  }

  lemma {:induction false} SomeBitIsSet(x: bv8, n: nat)
    requires n < 8 && HasBit(x, n)
    ensures x != 0
  {
    ZeroHasNoBit(n);
  }

  lemma {:induction false} NonzeroHasBit(x: bv8)
    ensures x != 0 ==> exists n: nat :: n < 8 && HasBit(x, n)
  {
    if x != 0 {
      assert HasBit(x, 0) || HasBit(x, 1) || HasBit(x, 2) || HasBit(x, 3)
             || HasBit(x, 4) || HasBit(x, 5) || HasBit(x, 6) || HasBit(x, 7);
    }
  }

  /** The driver looks at dot `e` before dot `d`: pair by pair, column by column, row by row. */
  predicate Before(e: Dot, d: Dot) {
    || e.0 / 16 < d.0 / 16
    || (e.0 / 16 == d.0 / 16 && (e.1 < d.1 || (e.1 == d.1 && e.0 < d.0)))
  }

  /** `mark` is the dot above row `top` that is looked at last. */
  ghost predicate LastAbove(dots: set<Dot>, top: nat, mark: Option<Dot>) {
    match mark
    case None => forall d: Dot :: d in dots ==> d.0 >= top
    case Some(m) => m in dots && m.0 < top && forall d: Dot :: d in dots && d.0 < top ==> d == m || Before(d, m)
  }

  /** Row `low` is the lowest of the first `k` rows of the pair of bands from `band` on that has
      a dot in column `s`; there is none when `low` is None. */
  ghost predicate Lowest(dots: set<Dot>, band: nat, s: nat, k: nat, low: Option<nat>) {
    match low
    case None => forall r: nat | band * 8 <= r < band * 8 + k :: (r, s) !in dots
    case Some(row) =>
      && (row, s) in dots && band * 8 <= row < band * 8 + k
      && forall r: nat | row < r < band * 8 + k :: (r, s) !in dots
  }

  lemma {:induction false} BandOfRow(q: nat, odd: nat, k: nat, row: nat)
    requires odd < 2 && k < 8 && row == q * 16 + (k * 2 + odd)
    ensures BandOf(row) == q * 2 + odd
  {
    QuotientAndRest(q, k * 2 + odd);
  }

  lemma {:induction false} BandsOfPair(band: nat, k: nat)
    requires band % 2 == 0 && k < 8
    ensures BandOf(band * 8 + k * 2) == band && BandOf(band * 8 + k * 2 + 1) == band + 1
  {
    BandOfRow(band / 2, 0, k, band * 8 + k * 2);
    BandOfRow(band / 2, 1, k, band * 8 + k * 2 + 1);
  }

  lemma {:induction false} LowestNext(dots: set<Dot>, band: nat, s: nat, n: nat, low: Option<nat>)
    returns (low': Option<nat>)
    requires band % 2 == 0 && n < 8 && Lowest(dots, band, s, n * 2, low)
    ensures Lowest(dots, band, s, n * 2 + 2, low')
    ensures var r := band * 8 + n * 2;
            if (r + 1, s) in dots then low' == Some(r + 1) && BandOf(r + 1) == band + 1 && low' != low
            else if (r, s) in dots then low' == Some(r) && BandOf(r) == band && low' != low
            else low' == low
  {
    var r := band * 8 + n * 2;
    assert low.Some? ==> low.value < r;
    low' := if (r + 1, s) in dots then Some(r + 1) else if (r, s) in dots then Some(r) else low;
    BandsOfPair(band, n);
  }

  predicate InPair(d: Dot, band: nat, c: nat) {
    band * 8 <= d.0 < band * 8 + 16 && d.1 < c
  }

  /** `mark` is the dot looked at last in the first `c` columns of the pair from `band` on. */
  ghost predicate LastInPair(dots: set<Dot>, band: nat, c: nat, mark: Option<Dot>) {
    match mark
    case None => forall d: Dot :: d in dots ==> !InPair(d, band, c)
    case Some(m) =>
      && m in dots && InPair(m, band, c)
      && forall d: Dot :: d in dots && InPair(d, band, c) ==> d == m || d.1 < m.1 || (d.1 == m.1 && d.0 < m.0)
  }

  lemma {:induction false} LastInPairNext(dots: set<Dot>, band: nat, c: nat, mark: Option<Dot>, low: Option<nat>)
    requires band % 2 == 0 && LastInPair(dots, band, c, mark) && Lowest(dots, band, c, 16, low)
    ensures LastInPair(dots, band, c + 1, if low.None? then mark else Some((low.value, c)))
  {
    forall d: Dot | d in dots && InPair(d, band, c + 1) && !InPair(d, band, c)
      ensures low.Some? && d.1 == c && d.0 <= low.value
    {
      assert d == (d.0, c);
    }
  }

  lemma {:induction false} LastAboveNext(dots: set<Dot>, band: nat, width: nat, mark0: Option<Dot>, mark: Option<Dot>)
    requires band % 2 == 0 && forall d: Dot :: d in dots ==> d.1 < width
    requires LastAbove(dots, band * 8, mark0) && LastInPair(dots, band, width, mark)
    ensures LastAbove(dots, band * 8 + 16, if mark.None? then mark0 else mark)
  {
    var top := band * 8;
    forall d: Dot | d in dots && d.0 < top + 16 ensures d.0 < top || (InPair(d, band, width) && d.0 / 16 == band / 2) {
    }
    forall d: Dot | d.0 < top ensures d.0 / 16 < band / 2 {
    }
  }

  lemma {:induction false} LastBandExists(dots: set<Dot>, nbands: nat, mark: Option<Dot>)
    requires nbands % 2 == 0 && LastAbove(dots, nbands * 8, mark)
    ensures mark.Some? ==> BandOf(mark.value.0) < nbands
  {
    if mark.Some? {
      BandsOfRows(nbands, mark.value.0);
    }
  }

  lemma {:induction false} LastSentExists(dots: set<Dot>, nbands: nat, mark: Option<Dot>)
    requires nbands % 2 == 0 && nbands > 0 && LastAbove(dots, nbands * 8, mark)
    ensures mark.Some? ==> BandOf(mark.value.0) < nbands
    ensures LastSent(mark) <= nbands
    ensures LastSent(mark) == nbands <==> mark.Some? && BandOf(mark.value.0) == nbands - 1
  {
    LastBandExists(dots, nbands, mark);
  }

  lemma {:induction false} NoBandAfter(dots: set<Dot>, nbands: nat, gap: nat)
    requires nbands % 2 == 0 && forall d: Dot :: d in dots ==> d.0 < nbands * 8
    ensures Picture(dots, nbands, gap) == Picture(dots, nbands + 1, gap)
  {
    forall d: Dot | d in dots ensures BandOf(d.0) < nbands {
      BandsOfRows(nbands, d.0);
    }
  }

  /** No dot is missing on the paper exactly when no band has all its dots in the first column, and
      the dot looked at last is in an odd row or its pair of bands has no dot in an odd row. */
  lemma {:induction false} NoDotIsMissingIff(dots: set<Dot>, nbands: nat, mark: Option<Dot>, gap: nat)
    requires nbands % 2 == 0 && LastAbove(dots, nbands * 8, mark)
    requires forall d: Dot :: d in dots ==> d.0 < nbands * 8
    ensures Picture(dots, LastSent(mark) + 1, gap) == WholePicture(dots, gap) <==>
              && (forall d: Dot :: d in dots ==> Inked(dots, BandOf(d.0)))
              && (mark.Some? && mark.value.0 % 2 == 0 ==>
                   forall d: Dot :: d in dots && d.0 / 16 == mark.value.0 / 16 ==> d.0 % 2 == 0)
  {
    forall d: Dot | d in dots ensures BandOf(d.0) <= LastSent(mark) <==>
        !(mark.value.0 % 2 == 0 && d.0 / 16 == mark.value.0 / 16 && d.0 % 2 == 1) {
      SentUnlessOdd(dots, nbands, mark.value, d);
    }
    if Picture(dots, LastSent(mark) + 1, gap) == WholePicture(dots, gap) {
      forall d: Dot | d in dots ensures BandOf(d.0) <= LastSent(mark) && Inked(dots, BandOf(d.0)) {
        assert Place(d, gap) in Picture(dots, LastSent(mark) + 1, gap);
      }
    }
  }

  /** No band has all its dots in the first column; the dot looked at last is in an odd row, or
      its pair of bands has no dot in one; and it is not in the last band. */
  ghost predicate Printable(dots: set<Dot>, nbands: nat, mark: Option<Dot>) {
    && (forall d: Dot :: d in dots ==> Inked(dots, BandOf(d.0)))
    && (mark.Some? && mark.value.0 % 2 == 0 ==>
         forall d: Dot :: d in dots && d.0 / 16 == mark.value.0 / 16 ==> d.0 % 2 == 0)
    && (mark.Some? ==> BandOf(mark.value.0) < nbands - 1)
  }

  /** The driver prints the whole label and stays within its map, which has `nbands` bands,
      exactly when the label is printable. */
  lemma {:induction false} PrintsWholeLabelIff(dots: set<Dot>, nbands: nat, mark: Option<Dot>, gap: nat)
    requires nbands % 2 == 0 && nbands > 0 && LastAbove(dots, nbands * 8, mark)
    requires forall d: Dot :: d in dots ==> d.0 < nbands * 8
    ensures LastSent(mark) < nbands && Picture(dots, LastSent(mark) + 1, gap) == WholePicture(dots, gap) <==>
            Printable(dots, nbands, mark)
  {
    NoDotIsMissingIff(dots, nbands, mark, gap);
    LastSentExists(dots, nbands, mark);
  }

  lemma {:induction false} BandParity(row: nat)
    ensures BandOf(row) % 2 == row % 2
  {
    var q := row / 16;
    assert (q * 2 + row % 2) % 2 == row % 2;
  }

  lemma {:induction false} SentUnlessOdd(dots: set<Dot>, nbands: nat, m: Dot, d: Dot)
    requires d in dots && d.0 < nbands * 8 && LastAbove(dots, nbands * 8, Some(m))
    ensures BandOf(d.0) <= LastSent(Some(m)) <==> !(m.0 % 2 == 0 && d.0 / 16 == m.0 / 16 && d.0 % 2 == 1)
  {
    BandParity(m.0);
    assert d.0 / 16 <= m.0 / 16;
  }

  /** A dot in an odd row that is lost: the dot looked at last is in an even row. */
  lemma {:induction false} OddRowLost(gap: nat)
    ensures var dots: set<Dot>, m: Dot := {(1, 1), (0, 2)}, (0, 2);
            && LastAbove(dots, 16, Some(m))
            && Place((1, 1), gap) !in Picture(dots, LastSent(Some(m)) + 1, gap)
  {
    var dots: set<Dot> := {(1, 1), (0, 2)};
    assert BandOf(0) == 0 && BandOf(1) == 1;
    forall d: Dot | d in dots && BandOf(d.0) < 1 ensures d == (0, 2) {
    }
  }

  /** A label that is printed whole and still makes the driver read past its map. */
  lemma {:induction false} WholeButOverran(gap: nat)
    ensures var dots: set<Dot>, m: Dot := {(15, 1)}, (15, 1);
            && LastAbove(dots, 16, Some(m)) && LastSent(Some(m)) == 2
            && Picture(dots, LastSent(Some(m)) + 1, gap) == WholePicture(dots, gap)
  {
    var dots: set<Dot>, m: Dot := {(15, 1)}, (15, 1);
    assert BandOf(15) == 1 && m in dots && Inked(dots, 1);
  }

  /** So does every label with a dot in its bottom right corner, one with a box round it, say. */
  lemma {:induction false} BottomCornerOverruns(dots: set<Dot>, nbands: nat, nslices: nat, mark: Option<Dot>)
    requires nbands % 2 == 0 && nbands > 0 && nslices > 0 && (nbands * 8 - 1, nslices - 1) in dots
    requires LastAbove(dots, nbands * 8, mark)
    requires forall d: Dot :: d in dots ==> d.0 < nbands * 8 && d.1 < nslices
    ensures mark == Some((nbands * 8 - 1, nslices - 1)) && LastSent(mark) == nbands
  {
    var corner: Dot := (nbands * 8 - 1, nslices - 1);
    BandsOfPair(nbands - 2, 7);
    assert corner == mark.value || Before(corner, mark.value);
  }

  /** `min` and `max` are `min0` and `max0`, stretched to column `s` if byte `x` has a dot. */
  predicate Stretched(x: bv8, s: nat, min0: nat, max0: nat, min: nat, max: nat) {
    if x == 0 then min == min0 && max == max0
    else min == (if s < min0 then s else min0) && max == (if s > max0 then s else max0)
  }

  /** Byte `x0` got no dot, or it got one and `min0` and `max0` are stretched to column `s`. */
  predicate Grown(x0: bv8, x: bv8, s: nat, min0: nat, max0: nat, min: nat, max: nat) {
    || (x == x0 && min == min0 && max == max0)
    || (x != 0 && Stretched(x, s, min0, max0, min, max))
  }

  // ----- a series of labels

  /** The labels fed out since `start` are the pictures of the first `n` of a series. */
  ghost predicate FedSince(h: Head, start: Head, labels: seq<set<Dot>>, marks: seq<Option<Dot>>, n: nat)
    requires n <= |labels| && n <= |marks|
  {
    && |h.fed| == |start.fed| + n && start.fed <= h.fed
    && forall k | 0 <= k < n ::
         h.fed[|start.fed| + k] == Picture(labels[k], LastSent(marks[k]) + 1, start.gap)
  }

  lemma {:induction false} FedOneMore(h: Head, h': Head, start: Head, labels: seq<set<Dot>>, marks: seq<Option<Dot>>,
                                      n: nat, mark: Option<Dot>)
    requires n < |labels| && n == |marks| && FedSince(h, start, labels, marks, n)
    ensures h'.fed == h.fed ==> FedSince(h', start, labels, marks + [mark], n)
    ensures h'.fed == h.fed + [Picture(labels[n], LastSent(mark) + 1, start.gap)] ==>
              FedSince(h', start, labels, marks + [mark], n + 1)
  {
  }

  /** A series of printable labels comes out whole, one label for each. */
  lemma {:induction false} SeriesComesOutWholeIff(h: Head, start: Head, labels: seq<set<Dot>>,
                                                  marks: seq<Option<Dot>>, nbands: nat)
    requires nbands % 2 == 0 && nbands > 0 && |marks| == |labels| && FedSince(h, start, labels, marks, |labels|)
    requires forall k | 0 <= k < |labels| :: LastAbove(labels[k], nbands * 8, marks[k])
    requires forall k | 0 <= k < |labels| :: LastSent(marks[k]) != nbands
    requires forall k, d: Dot | 0 <= k < |labels| && d in labels[k] :: d.0 < nbands * 8
    ensures forall k | 0 <= k < |labels| ::
              h.fed[|start.fed| + k] == WholePicture(labels[k], start.gap) <==> Printable(labels[k], nbands, marks[k])
  {
    forall k | 0 <= k < |labels|
      ensures h.fed[|start.fed| + k] == WholePicture(labels[k], start.gap) <==> Printable(labels[k], nbands, marks[k])
    {
      LastSentExists(labels[k], nbands, marks[k]);
      PrintsWholeLabelIff(labels[k], nbands, marks[k], start.gap);
    }
  }

  // ----- the driver

  class Driver {
    const nbands: nat
    const nslices: nat
    const cells: array2<bv8>
    const min: array<nat>
    const max: array<nat>

    ghost predicate Valid() {
      && cells.Length0 == nbands && cells.Length1 == nslices && min.Length == max.Length == nbands
      && min != max
    }

    /** `min` and `max` are the first and the last of the first `c` columns in which band `b`
        has a dot. */
    ghost predicate Edges(b: nat, c: nat)
      requires Valid() && b < nbands && c <= nslices
      reads cells, min, max
    {
      && (forall s: nat | s < c && cells[b, s] != 0 :: min[b] <= s <= max[b])
      && if min[b] == nslices then max[b] == 0 && forall s: nat | s < c :: cells[b, s] == 0
         else min[b] <= max[b] < c && cells[b, min[b]] != 0 && cells[b, max[b]] != 0
    }

    /** The first `c` slices of band `b` show its dots. */
    ghost predicate ShowsBand(dots: set<Dot>, b: nat, c: nat)
      requires Valid() && b < nbands && c <= nslices
      reads cells
    {
      forall s: nat | s < c :: Shows(dots, b, s, 8, cells[b, s])
    }

    constructor (nbands: nat, nslices: nat)
      ensures Valid() && this.nbands == nbands && this.nslices == nslices
      ensures fresh(cells) && fresh(min) && fresh(max)
    {
      this.nbands, this.nslices := nbands, nslices;
      cells := new bv8[nbands, nslices]((_, _) => 0);
      min := new nat[nbands](_ => nslices);
      max := new nat[nbands](_ => 0);
    }

    /** Puts a dot into slice `s` of band `b` as bit `n`. */
    method Mark(b: nat, n: nat, s: nat)
      requires Valid() && b < nbands && s < nslices && n < 8
      modifies cells, min, max
      ensures cells[b, s] == old(cells[b, s]) | Mask(n)
      ensures min[b] == (if s < old(min[b]) then s else old(min[b]))
      ensures max[b] == (if s > old(max[b]) then s else old(max[b]))
      ensures forall b', s' | 0 <= b' < nbands && 0 <= s' < nslices && (b' != b || s' != s) ::
                cells[b', s'] == old(cells[b', s'])
      ensures forall b' | 0 <= b' < nbands && b' != b :: min[b'] == old(min[b']) && max[b'] == old(max[b'])
    {
      cells[b, s] := cells[b, s] | Mask(n);
      min[b] := if s < min[b] then s else min[b];
      max[b] := if s > max[b] then s else max[b];
    }

    /** Looks at the dot of row `row`, bit `n` of band `b`, in column `s`. */
    method Probe(bm: Bitmap, row: nat, b: nat, n: nat, s: nat, last: nat) returns (last': nat)
      requires Valid() && b < nbands && s < nslices && n < 8
      requires bm.Valid() && row < bm.height && s < bm.width
      requires row == RowOf(b, n) && Shows(bm.dots, b, s, n, cells[b, s])
      modifies cells, min, max
      ensures Shows(bm.dots, b, s, n + 1, cells[b, s]) && last' == if (row, s) in bm.dots then b else last
      ensures Grown(old(cells[b, s]), cells[b, s], s, old(min[b]), old(max[b]), min[b], max[b])
      ensures forall b', s' | 0 <= b' < nbands && 0 <= s' < nslices && (b' != b || s' != s) ::
                cells[b', s'] == old(cells[b', s'])
      ensures forall b' | 0 <= b' < nbands && b' != b :: min[b'] == old(min[b']) && max[b'] == old(max[b'])
    {
      ShowsOneMore(bm.dots, b, s, n, cells[b, s]);
      last' := last;
      var on := bm.Test(row, s);
      if on {
        Mark(b, n, s);
        last' := b;
      }
    }

    /** Looks at row `n` of either band of the pair from `band` on. */
    method TwoRows(bm: Bitmap, band: nat, n: nat, s: nat, last: nat, ghost low: Option<nat>)
      returns (last': nat, ghost low': Option<nat>)
      requires Valid() && band % 2 == 0 && band + 1 < nbands && s < nslices && n < 8
      requires bm.Valid() && bm.height == nbands * 8 && bm.width == nslices && bm.bits as object !in {min, max}
      requires Shows(bm.dots, band, s, n, cells[band, s]) && Shows(bm.dots, band + 1, s, n, cells[band + 1, s])
      requires Lowest(bm.dots, band, s, n * 2, low)
      modifies cells, min, max
      ensures Shows(bm.dots, band, s, n + 1, cells[band, s]) && Shows(bm.dots, band + 1, s, n + 1, cells[band + 1, s])
      ensures Grown(old(cells[band, s]), cells[band, s], s, old(min[band]), old(max[band]), min[band], max[band])
      ensures Grown(old(cells[band + 1, s]), cells[band + 1, s], s,
                    old(min[band + 1]), old(max[band + 1]), min[band + 1], max[band + 1])
      ensures Lowest(bm.dots, band, s, n * 2 + 2, low')
      ensures if low' == low then last' == last else low'.Some? && last' == BandOf(low'.value)
      ensures forall b, c | 0 <= b < nbands && 0 <= c < nslices && (b < band || b >= band + 2 || c != s) ::
                cells[b, c] == old(cells[b, c])
      ensures forall b | 0 <= b < nbands && (b < band || b >= band + 2) ::
                min[b] == old(min[b]) && max[b] == old(max[b])
    {
      RowsOfPair(band, n);
      low' := LowestNext(bm.dots, band, s, n, low);
      var r := band * 8 + n * 2;
      last' := Probe(bm, r, band, n, s, last);
      last' := Probe(bm, r + 1, band + 1, n, s, last');
    }

    /** One column of the pair of bands from `band` on. */
    method Column(bm: Bitmap, band: nat, s: nat, last: nat) returns (last': nat, ghost low: Option<nat>)
      requires Valid() && band % 2 == 0 && band + 1 < nbands && s < nslices
      requires bm.Valid() && bm.height == nbands * 8 && bm.width == nslices && bm.bits as object !in {min, max}
      modifies cells, min, max
      ensures Shows(bm.dots, band, s, 8, cells[band, s]) && Shows(bm.dots, band + 1, s, 8, cells[band + 1, s])
      ensures old(Edges(band, s)) ==> Edges(band, s + 1)
      ensures old(Edges(band + 1, s)) ==> Edges(band + 1, s + 1)
      ensures Lowest(bm.dots, band, s, 16, low) && last' == if low.None? then last else BandOf(low.value)
      ensures forall b, c | 0 <= b < nbands && 0 <= c < nslices && (b < band || b >= band + 2 || c != s) ::
                cells[b, c] == old(cells[b, c])
      ensures forall b | 0 <= b < nbands && (b < band || b >= band + 2) ::
                min[b] == old(min[b]) && max[b] == old(max[b])
    {
      last', low := last, None;
      cells[band, s] := 0;
      cells[band + 1, s] := 0;
      ShowsNothing(bm.dots, band, s);
      ShowsNothing(bm.dots, band + 1, s);
      for n := 0 to 8
        invariant Shows(bm.dots, band, s, n, cells[band, s]) && Shows(bm.dots, band + 1, s, n, cells[band + 1, s])
        invariant Stretched(cells[band, s], s, old(min[band]), old(max[band]), min[band], max[band])
        invariant Stretched(cells[band + 1, s], s, old(min[band + 1]), old(max[band + 1]), min[band + 1], max[band + 1])
        invariant Lowest(bm.dots, band, s, n * 2, low) && last' == if low.None? then last else BandOf(low.value)
        invariant forall b, c | 0 <= b < nbands && 0 <= c < nslices && (b < band || b >= band + 2 || c != s) ::
                    cells[b, c] == old(cells[b, c])
        invariant forall b | 0 <= b < nbands && (b < band || b >= band + 2) ::
                    min[b] == old(min[b]) && max[b] == old(max[b])
      {
        last', low := TwoRows(bm, band, n, s, last', low);
      }
    }

    /** The pair of bands from `band` on. */
    method Pair(bm: Bitmap, band: nat, last: nat) returns (last': nat, ghost mark: Option<Dot>)
      requires Valid() && band % 2 == 0 && band + 1 < nbands
      requires bm.Valid() && bm.height == nbands * 8 && bm.width == nslices && bm.bits as object !in {min, max}
      modifies cells, min, max
      ensures ShowsBand(bm.dots, band, nslices) && Edges(band, nslices)
      ensures ShowsBand(bm.dots, band + 1, nslices) && Edges(band + 1, nslices)
      ensures LastInPair(bm.dots, band, nslices, mark)
      ensures last' == if mark.None? then last else BandOf(mark.value.0)
      ensures forall b, c | 0 <= b < nbands && 0 <= c < nslices && (b < band || b >= band + 2) ::
                cells[b, c] == old(cells[b, c])
      ensures forall b | 0 <= b < nbands && (b < band || b >= band + 2) ::
                min[b] == old(min[b]) && max[b] == old(max[b])
    {
      last', mark := last, None;
      min[band], max[band] := nslices, 0;
      min[band + 1], max[band + 1] := nslices, 0;
      for s := 0 to nslices
        invariant ShowsBand(bm.dots, band, s) && ShowsBand(bm.dots, band + 1, s)
        invariant Edges(band, s) && Edges(band + 1, s)
        invariant LastInPair(bm.dots, band, s, mark)
        invariant last' == if mark.None? then last else BandOf(mark.value.0)
        invariant forall b, c | 0 <= b < nbands && 0 <= c < nslices && (b < band || b >= band + 2) ::
                    cells[b, c] == old(cells[b, c])
        invariant forall b | 0 <= b < nbands && (b < band || b >= band + 2) ::
                    min[b] == old(min[b]) && max[b] == old(max[b])
      {
        ghost var low;
        last', low := Column(bm, band, s, last');
        LastInPairNext(bm.dots, band, s, mark, low);
        mark := if low.None? then mark else Some((low.value, s));
      }
    }

    /** The bands before band `top` show the dots of a bitmap, and their edges are known. */
    ghost predicate Mapped(dots: set<Dot>, top: nat)
      requires Valid() && top <= nbands
      reads cells, min, max
    {
      forall b: nat | b < top :: ShowsBand(dots, b, nslices) && Edges(b, nslices)
    }

    lemma {:induction false} MoreMapped(dots: set<Dot>, band: nat)
      requires Valid() && band + 1 < nbands && Mapped(dots, band)
      requires ShowsBand(dots, band, nslices) && Edges(band, nslices)
      requires ShowsBand(dots, band + 1, nslices) && Edges(band + 1, nslices)
      ensures Mapped(dots, band + 2)
    {
    }

    /** Maps the dots of a label onto the bands. */
    method MapBands(bm: Bitmap) returns (lastband: nat, ghost mark: Option<Dot>)
      requires Valid() && nbands % 2 == 0
      requires bm.Valid() && bm.height == nbands * 8 && bm.width == nslices && bm.bits as object !in {min, max}
      modifies cells, min, max
      ensures Mapped(bm.dots, nbands)
      ensures LastAbove(bm.dots, nbands * 8, mark) && lastband == if mark.None? then 0 else BandOf(mark.value.0)
    {
      var band: nat := 0;
      lastband, mark := 0, None;
      while band < nbands
        invariant band <= nbands && band % 2 == 0
        invariant Mapped(bm.dots, band)
        invariant LastAbove(bm.dots, band * 8, mark) && lastband == if mark.None? then 0 else BandOf(mark.value.0)
      {
        ghost var mark';
        label Before:
        lastband, mark' := Pair(bm, band, lastband);
        forall b: nat | b < band ensures ShowsBand(bm.dots, b, nslices) && Edges(b, nslices) {
          assert old@Before(ShowsBand(bm.dots, b, nslices) && Edges(b, nslices));
        }
        MoreMapped(bm.dots, band);
        LastAboveNext(bm.dots, band, nslices, mark, mark');
        mark := if mark'.None? then mark else mark';
        band := band + 2;
      }
    }

    /** The head stands `pos` slices in, on the first row of band `b`. */
    ghost predicate HeadAt(h: Head, b: nat, pos: int, start: Head) {
      && h.mode == Command && h.row == start.gap + TopRow(b) && h.col == pos + 2
      && h.gap == start.gap && h.fed == start.fed
    }

    /** Moves the head to the first dot of band `b`, a little before it when moving left. */
    method Seek(b: nat, pos: nat, out: seq<byte>, ghost start: Head) returns (pos': nat, out': seq<byte>)
      requires Valid() && b < nbands && min[b] < nslices <= 255 && pos <= nslices
      requires HeadAt(Run(start, out), b, pos, start)
      ensures HeadAt(Run(start, out'), b, pos', start) && Run(start, out').ink == Run(start, out).ink
      ensures pos' <= min[b]
    {
      var shift: int := min[b] - pos;
      pos' := pos + shift;
      if shift > 0 {
        out' := Send(out, 0x7, start);
        out' := Send(out', shift, start);
      } else {
        out' := Send(out, 0x8, start);
        out' := Send(out', -shift, start);
        if pos' > 0 {
          out' := Send(out', 0x8, start);
          out' := Send(out', if pos' > 1 then 2 else 1, start);
          pos' := if pos' - 2 > 0 then pos' - 2 else 0;
        }
      }
    }

    /** Sends the slices of band `b` from the head to the last dot. */
    method SendSlices(b: nat, pos: nat, out: seq<byte>, ghost dots: set<Dot>, ghost start: Head)
      returns (pos': nat, out': seq<byte>)
      requires Valid() && b < nbands && pos <= max[b] < nslices <= 255 && ShowsBand(dots, b, nslices)
      requires HeadAt(Run(start, out), b, pos, start)
      ensures pos' == max[b] + 1 && HeadAt(Run(start, out'), b, pos', start)
      ensures Run(start, out').ink == Run(start, out).ink + BandPicture(dots, b, pos, max[b] + 1, start.gap)
    {
      out' := Send(out, 0x3, start);
      out' := Send(out', max[b] - pos + 1, start);
      pos' := pos;
      var slice := pos;
      ghost var h0 := Run(start, out);
      while slice <= max[b]
        invariant pos <= slice == pos' <= max[b] + 1
        invariant var h := Run(start, out');
                  && h == h0.(mode := h.mode, col := slice + 2, ink := h.ink)
                  && h.mode == (if slice <= max[b] then Data(max[b] - slice + 1) else Command)
                  && h.ink == h0.ink + BandPicture(dots, b, pos, slice, start.gap)
      {
        var v := cells[b, slice] as byte;
        ByteOfBits(cells[b, slice]);
        PrintsColumn(Run(start, out'), dots, b, slice, v, start.gap);
        PicturesJoin(dots, b, pos, slice, slice + 1, start.gap);
        out' := Send(out', v, start);
        slice, pos' := slice + 1, pos' + 1;
      }
    }

    /** A dot of a mapped band shows in a slice, and a slice that shows anything has a dot. */
    lemma {:induction false} SliceHasDot(dots: set<Dot>, b: nat, s: nat)
      requires Valid() && b < nbands && s < nslices && ShowsBand(dots, b, nslices)
      ensures cells[b, s] != 0 <==> exists d: Dot :: d in dots && BandOf(d.0) == b && d.1 == s
    {
      var x := cells[b, s];
      assert Shows(dots, b, s, 8, x);
      if x != 0 {
        NonzeroHasBit(x);
        var n: nat :| n < 8 && HasBit(x, n);
        BitsAreRows(b, n);
        var d: Dot := (RowOf(b, n), s);
        assert d in dots && BandOf(d.0) == b && d.1 == s;
      }
      if d: Dot :| d in dots && BandOf(d.0) == b && d.1 == s {
        RowsAreBits(d.0);
        assert d == (RowOf(b, BitOf(d.0)), s);
        SomeBitIsSet(x, BitOf(d.0));
      }
    }

    /** The dots of a mapped band lie between its edges, and the last edge is 0 unless the band
        is inked. */
    lemma {:induction false} EdgesOfBand(dots: set<Dot>, b: nat)
      requires Valid() && b < nbands && ShowsBand(dots, b, nslices) && Edges(b, nslices)
      requires forall d: Dot :: d in dots ==> d.1 < nslices
      ensures forall d: Dot :: d in dots && BandOf(d.0) == b ==> min[b] <= d.1 <= max[b]
      ensures max[b] > 0 <==> Inked(dots, b)
      ensures max[b] > 0 ==> min[b] <= max[b] < nslices
    {
      forall d: Dot | d in dots && BandOf(d.0) == b ensures min[b] <= d.1 <= max[b] {
        SliceHasDot(dots, b, d.1);
      }
      if max[b] > 0 {
        SliceHasDot(dots, b, max[b]);
      }
    }

    /** Prints band `b`. */
    method SendBand(b: nat, pos: nat, out: seq<byte>, ghost dots: set<Dot>, ghost start: Head)
      returns (pos': nat, out': seq<byte>)
      requires Valid() && b < nbands && pos <= nslices <= 255 && ShowsBand(dots, b, nslices) && Edges(b, nslices)
      requires forall d: Dot :: d in dots ==> d.1 < nslices
      requires HeadAt(Run(start, out), b, pos, start)
      ensures pos' <= nslices && HeadAt(Run(start, out'), b, pos', start)
      ensures Run(start, out').ink ==
              Run(start, out).ink + if Inked(dots, b) then BandPicture(dots, b, 0, nslices, start.gap) else {}
    {
      pos', out' := pos, out;
      EdgesOfBand(dots, b);
      if max[b] > 0 {
        pos', out' := Seek(b, pos', out', start);
        assert BandPicture(dots, b, pos', max[b] + 1, start.gap) == BandPicture(dots, b, 0, nslices, start.gap);
        pos', out' := SendSlices(b, pos', out', dots, start);
      }
    }

    /** Prints the bands up to `last`. The map has no band `nbands`: with `last` there, the
        original reads past its end. */
    method SendBands(last: nat, out: seq<byte>, ghost dots: set<Dot>, ghost start: Head)
      returns (out': seq<byte>, overran: bool)
      requires Valid() && nslices <= 255 && last <= nbands && Mapped(dots, nbands)
      requires forall d: Dot :: d in dots ==> d.1 < nslices
      requires HeadAt(Run(start, out), 0, 0, start) && Run(start, out).ink == {}
      ensures overran <==> last == nbands
      ensures Run(start, out').ink == Picture(dots, if overran then nbands else last + 1, start.gap)
      ensures var h := Run(start, out');
              h.mode == Command && h.gap == start.gap && h.fed == start.fed
    {
      var band: nat, pos: nat := 0, 0;
      out' := out;
      while band <= last && band < nbands
        invariant band <= last + 1 && band <= nbands && pos <= nslices
        invariant HeadAt(Run(start, out'), band, pos, start)
        invariant Run(start, out').ink == Picture(dots, band, start.gap)
      {
        assert ShowsBand(dots, band, nslices);
        PictureGrows(dots, band, nslices, start.gap);
        pos, out' := SendBand(band, pos, out', dots, start);
        out' := Send(out', if band % 2 != 0 then 0xB else 0x9, start);
        band := band + 1;
      }
      overran := band <= last;
    }

    /** Feeds one blank band and moves the head two columns in. */
    method Begin(ghost start: Head) returns (out: seq<byte>)
      requires start.mode == Command && start.row == 0
      ensures out == [0xA, 0xD, 0x7, 2]
      ensures HeadAt(Run(start, out), 0, 0, start) && Run(start, out).ink == start.ink
    {
      out := Send([], 0xA, start);
      assert Run(start, out) == start.(row := start.gap);
      out := Send(out, 0xD, start);
      assert Run(start, out) == start.(row := start.gap, col := 0);
      out := Send(out, 0x7, start);
      assert Run(start, out) == start.(mode := Right, row := start.gap, col := 0);
      out := Send(out, 2, start);
    }

    /** Moves the head to the margin and the paper to the next label. */
    method Finish(out: seq<byte>, ghost start: Head) returns (out': seq<byte>)
      requires Run(start, out).mode == Command
      ensures out' == out + [0xD, 0xC, 0x1]
      ensures var h := Run(start, out);
              Run(start, out') == h.(row := 0, col := 0, ink := {}, fed := h.fed + [h.ink])
    {
      ghost var h := Run(start, out);
      out' := Send(out, 0xD, start);
      assert Run(start, out') == h.(col := 0);
      out' := Send(out', 0xC, start);
      assert Run(start, out') == h.(col := 0, mode := Feed);
      FedOnce(h.(col := 0));
      out' := Send(out', 0x1, start);
    }

    /** Sends a label that is mapped, up to band `last`. */
    method SendLabel(last: nat, ghost dots: set<Dot>, ghost start: Head) returns (out: seq<byte>, overran: bool)
      requires Valid() && nbands % 2 == 0 && nslices <= 255 && last <= nbands && Mapped(dots, nbands)
      requires forall d: Dot :: d in dots ==> d.0 < nbands * 8 && d.1 < nslices
      requires AtTop(start)
      ensures overran <==> last == nbands
      ensures var h, picture := Run(start, out), Picture(dots, last + 1, start.gap);
              if overran then h.ink == picture && h.fed == start.fed
              else AtTop(h) && h.col == 0 && h.gap == start.gap && h.fed == start.fed + [picture]
    {
      out := Begin(start);
      out, overran := SendBands(last, out, dots, start);
      if overran {
        NoBandAfter(dots, nbands, start.gap);
        return;
      }
      out := Finish(out, start);
    }

    /** A bitmap of the size of a label, apart from the map. */
    ghost predicate Printed(bm: Bitmap)
      reads bm, bm.bits
    {
      bm.Valid() && bm.height == nbands * 8 && bm.width == nslices && bm.bits as object !in {min, max}
    }

    /** Prints a label: unless the map is overrun, exactly one label is fed out, with the bands sent on
        it, and the head is ready for the next. */
    method PrintLabel(bm: Bitmap, ghost start: Head) returns (out: seq<byte>, overran: bool, ghost mark: Option<Dot>)
      requires Valid() && nbands % 2 == 0 && nbands > 0 && nslices <= 255
      requires Printed(bm) && AtTop(start)
      modifies cells, min, max
      ensures Mapped(bm.dots, nbands) && LastAbove(bm.dots, nbands * 8, mark)
      ensures overran <==> mark.Some? && BandOf(mark.value.0) == nbands - 1
      ensures var h, picture := Run(start, out), Picture(bm.dots, LastSent(mark) + 1, start.gap);
              if overran then h.ink == picture && h.fed == start.fed
              else AtTop(h) && h.col == 0 && h.gap == start.gap && h.fed == start.fed + [picture]
      ensures !overran && Run(start, out).fed == start.fed + [WholePicture(bm.dots, start.gap)] <==>
              Printable(bm.dots, nbands, mark)
    {
      var lastband;
      lastband, mark := MapBands(bm);
      LastSentExists(bm.dots, nbands, mark);
      if lastband < nbands && lastband % 2 != 0 {
        lastband := lastband + 1;
      }
      assert lastband == LastSent(mark);
      out, overran := SendLabel(lastband, bm.dots, start);
      PrintsWholeLabelIff(bm.dots, nbands, mark, start.gap);
      LastIsTold(start.fed, Picture(bm.dots, LastSent(mark) + 1, start.gap), WholePicture(bm.dots, start.gap));
    }

    /** Prints the label after those that `out` prints. */
    method PrintNext(bm: Bitmap, out: seq<byte>, ghost start: Head)
      returns (out': seq<byte>, overran: bool, ghost mark: Option<Dot>)
      requires Valid() && nbands % 2 == 0 && nbands > 0 && nslices <= 255
      requires Printed(bm) && AtTop(Run(start, out)) && Run(start, out).gap == start.gap
      modifies cells, min, max
      ensures LastAbove(bm.dots, nbands * 8, mark) && (overran <==> LastSent(mark) == nbands)
      ensures var h, h' := Run(start, out), Run(start, out');
              if overran then h'.fed == h.fed
              else AtTop(h') && h'.gap == start.gap
                   && h'.fed == h.fed + [Picture(bm.dots, LastSent(mark) + 1, start.gap)]
    {
      var more;
      more, overran, mark := PrintLabel(bm, Run(start, out));
      RunAppends(start, out, more);
      LastSentExists(bm.dots, nbands, mark);
      out' := out + more;
    }

    /** Prints a series of labels with dots `labels`, up to the first that overruns the map: one label is
        fed out for each, and the head is at the top of a blank label before and after it. */
    method PrintSeries(bms: seq<Bitmap>, ghost labels: seq<set<Dot>>, ghost start: Head)
      returns (out: seq<byte>, n: nat, ghost marks: seq<Option<Dot>>)
      requires Valid() && nbands % 2 == 0 && nbands > 0 && nslices <= 255 && AtTop(start)
      requires |labels| == |bms| && forall k | 0 <= k < |bms| :: Printed(bms[k]) && bms[k].dots == labels[k]
      modifies cells, min, max
      ensures n <= |bms| && |marks| == if n < |bms| then n + 1 else n
      ensures forall k | 0 <= k < |marks| :: LastAbove(labels[k], nbands * 8, marks[k])
      ensures forall k | 0 <= k < |marks| :: k == n <==> LastSent(marks[k]) == nbands
      ensures FedSince(Run(start, out), start, labels, marks, n) && (n == |bms| ==> AtTop(Run(start, out)))
    {
      out, n, marks := [], 0, [];
      while n < |bms|
        invariant n <= |bms| && |marks| == n && AtTop(Run(start, out)) && Run(start, out).gap == start.gap
        invariant forall k | 0 <= k < |bms| :: Printed(bms[k]) && bms[k].dots == labels[k]
        invariant forall k | 0 <= k < n :: LastAbove(labels[k], nbands * 8, marks[k]) && LastSent(marks[k]) != nbands
        invariant FedSince(Run(start, out), start, labels, marks, n)
      {
        var overran;
        ghost var mark, h := None, Run(start, out);
        out, overran, mark := PrintNext(bms[n], out, start);
        FedOneMore(h, Run(start, out), start, labels, marks, n, mark);
        marks := marks + [mark];
        if overran {
          return;
        }
        n := n + 1;
      }
    }
  }
}
