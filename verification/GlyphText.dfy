/** Glyph bitmaps as rows of `#` and `-`: printed, and read back through a line buffer. */
module GlyphText {
  import opened Bytes
  import opened Lines
  import opened Mbm
  import opened Options
  import opened Sequences

  const INK: byte := '#' as int
  const BLANK: byte := '-' as int

  function Mark(dots: set<Dot>, i: nat, j: nat): byte {
    if (i, j) in dots then INK else BLANK
  }

  /** The first `k` characters of row `i`. */
  function RowText(dots: set<Dot>, i: nat, k: nat): seq<byte> {
    seq(k, j requires 0 <= j < k => Mark(dots, i, j))
  }

  /** The first `k` rows, each with the end of its line. */
  function RowsText(dots: set<Dot>, k: nat, width: nat): seq<byte> {
    if k == 0 then [] else RowsText(dots, k - 1, width) + (RowText(dots, k - 1, width) + [NEWLINE])
  }

  /** What is printed for a bitmap. */
  function Text(dots: set<Dot>, height: nat, width: nat): seq<byte> {
    if width == 0 then [] else RowsText(dots, height, width)
  }

  /** Prints a bitmap. */
  method Dump(bm: Bitmap) returns (out: seq<byte>)
    requires bm.Valid()
    ensures out == Text(bm.dots, bm.height, bm.width)
  {
    out := [];
    if bm.height != 0 && bm.width != 0 {
      for i: nat := 0 to bm.height
        invariant out == RowsText(bm.dots, i, bm.width)
      {
        ghost var before := out;
        for j: nat := 0 to bm.width
          invariant out == before + RowText(bm.dots, i, j)
        {
          var on := bm.Test(i, j);
          out := out + [if on then INK else BLANK];
          assert RowText(bm.dots, i, j + 1) == RowText(bm.dots, i, j) + [Mark(bm.dots, i, j)];
        }
        out := out + [NEWLINE];
      }
    }
  }

  /** Every dot has its mark in the text, `#` for one that is set and `-` for one that is not, and every
      row the end of its line. */
  lemma {:induction false} MarksInText(dots: set<Dot>, k: nat, width: nat, i: nat, j: nat)
    requires i < k && j <= width
    ensures |RowsText(dots, k, width)| == k * (width + 1) && i * (width + 1) + j < k * (width + 1)
    ensures RowsText(dots, k, width)[i * (width + 1) + j] ==
            if j == width then 10 else if (i, j) in dots then 35 else 45
  {
    RowsTextLength(dots, k, width);
    RowsTextLength(dots, k - 1, width);
    var before := RowsText(dots, k - 1, width);
    if i < k - 1 {
      MarksInText(dots, k - 1, width, i, j);
    } else {
      assert RowsText(dots, k, width)[|before| + j] == (RowText(dots, i, width) + [NEWLINE])[j];
    }
  }

  lemma {:induction false} RowsTextLength(dots: set<Dot>, k: nat, width: nat)
    ensures |RowsText(dots, k, width)| == k * (width + 1)
  {
    if k > 0 {
      RowsTextLength(dots, k - 1, width);
    }
  }

  // ----- reading

  /** A line has a mark for every column. */
  predicate Legible(line: seq<byte>, width: nat) {
    width <= |line| && forall j: nat | j < width :: line[j] == INK || line[j] == BLANK
  }

  /** The dots that the first `k` characters of a line give row `i`. */
  ghost function RowDots(line: seq<byte>, i: nat, k: nat): set<Dot>
    requires k <= |line|
  {
    if k == 0 then {} else RowDots(line, i, k - 1) + if line[k - 1] == INK then {(i, k - 1)} else {}
  }

  /** The text after a row; None when there is none or it is not legible. */
  function AfterRow(text: seq<byte>, width: nat, room: nat): Option<seq<byte>> {
    var n := ReadLen(text, room);
    if text == [] || !Legible(text[..n], width) then None else Some(text[n..])
  }

  /** The text after the first `k` rows. */
  function AfterRows(text: seq<byte>, k: nat, width: nat, room: nat): Option<seq<byte>> {
    if k == 0 then Some(text)
    else match AfterRows(text, k - 1, width, room)
      case None => None
      case Some(rest) => AfterRow(rest, width, room)
  }

  /** The dots that the first `k` rows of a text are read as. */
  ghost function Drawn(text: seq<byte>, k: nat, width: nat, room: nat): set<Dot>
    requires AfterRows(text, k, width, room).Some?
  {
    if k == 0 then {}
    else
      var rest := AfterRows(text, k - 1, width, room).value;
      Drawn(text, k - 1, width, room) + RowDots(rest[..ReadLen(rest, room)], k - 1, width)
  }

  lemma {:induction false} NextRow(text: seq<byte>, k: nat, width: nat, room: nat, rest: seq<byte>)
    requires AfterRows(text, k, width, room) == Some(rest)
    ensures AfterRows(text, k + 1, width, room) == AfterRow(rest, width, room)
    ensures AfterRow(rest, width, room).Some? ==>
              Drawn(text, k + 1, width, room) ==
              Drawn(text, k, width, room) + RowDots(rest[..ReadLen(rest, room)], k, width)
  {
  }

  /** Reads row `i` from place `at` of the text on. */
  method OneRow(bm: Bitmap, i: nat, text: seq<byte>, at: nat, room: nat, buf: array<byte>, ghost rest: seq<byte>)
    returns (ok: bool, end: nat, ghost rest': seq<byte>)
    requires bm.Valid() && i < bm.height && at <= |text| && text[at..] == rest
    requires buf.Length == room + 1 && room > 0 && buf as object != bm.bits
    modifies bm, bm.bits, buf
    ensures bm.Valid() && end <= |text|
    ensures AfterRow(rest, bm.width, room) == if ok then Some(rest') else None
    ensures ok ==> bm.dots == old(bm.dots) + RowDots(rest[..ReadLen(rest, room)], i, bm.width)
    ensures ok ==> text[end..] == rest'
  {
    end, rest' := at, rest;
    if at == |text| {
      return false, end, rest';
    }
    var n := ReadLine(text, at, buf);
    assert rest[..n] == text[at..at + n] && rest[n..] == text[at + n..];
    ok := ReadRow(bm, i, buf, rest[..n]);
    end, rest' := at + n, rest[n..];
  }

  /** Reads row `i` after the rows above it, whose dots are set. */
  method AddRow(bm: Bitmap, i: nat, text: seq<byte>, at: nat, room: nat, buf: array<byte>, ghost rest: seq<byte>)
    returns (ok: bool, end: nat, ghost rest': seq<byte>)
    requires bm.Valid() && i < bm.height && at <= |text| && text[at..] == rest
    requires buf.Length == room + 1 && room > 0 && buf as object != bm.bits
    requires AfterRows(text, i, bm.width, room) == Some(rest) && bm.dots == Drawn(text, i, bm.width, room)
    modifies bm, bm.bits, buf
    ensures bm.Valid() && end <= |text|
    ensures AfterRows(text, i + 1, bm.width, room) == if ok then Some(rest') else None
    ensures ok ==> bm.dots == Drawn(text, i + 1, bm.width, room) && text[end..] == rest'
  {
    NextRow(text, i, bm.width, room, rest);
    ok, end, rest' := OneRow(bm, i, text, at, room, buf, rest);
  }

  /** Reads the rows of a blank bitmap with a buffer of `room` characters; `end` is where it
      stopped in the text. */
  method ReadRows(bm: Bitmap, text: seq<byte>, room: nat) returns (ok: bool, end: nat)
    requires bm.Valid() && bm.dots == {} && room > 0
    modifies bm, bm.bits
    ensures bm.Valid() && end <= |text|
    ensures match AfterRows(text, bm.height, bm.width, room)
            case None => !ok
            case Some(rest) => ok && bm.dots == Drawn(text, bm.height, bm.width, room) && text[end..] == rest
  {
    ok, end := true, 0;
    var buf := new byte[room + 1];
    ghost var rest := text;
    for i: nat := 0 to bm.height
      invariant bm.Valid() && end <= |text| && fresh(buf) && ok && text[end..] == rest
      invariant AfterRows(text, i, bm.width, room) == Some(rest) && bm.dots == Drawn(text, i, bm.width, room)
    {
      ghost var rest';
      ok, end, rest' := AddRow(bm, i, text, end, room, buf, rest);
      if !ok {
        NoMoreRows(text, i + 1, bm.height, bm.width, room);
        return;
      }
      rest := rest';
    }
  }

  lemma {:induction false} NoMoreRows(text: seq<byte>, k: nat, h: nat, width: nat, room: nat)
    requires k <= h && AfterRows(text, k, width, room).None?
    ensures AfterRows(text, h, width, room).None?
  {
    if k < h {
      NoMoreRows(text, k, h - 1, width, room);
    }
  }

  /** Sets the dots of row `i` from a line in a buffer. */
  method ReadRow(bm: Bitmap, i: nat, buf: array<byte>, ghost line: seq<byte>) returns (ok: bool)
    requires bm.Valid() && i < bm.height && |line| < buf.Length && buf[..|line|] == line && buf[|line|] == NUL
    requires buf as object != bm.bits
    modifies bm, bm.bits
    ensures bm.Valid() && (ok <==> Legible(line, bm.width))
    ensures ok ==> bm.dots == old(bm.dots) + RowDots(line, i, bm.width)
  {
    for j: nat := 0 to bm.width
      invariant bm.Valid() && Legible(line, j) && buf[..|line|] == line && buf[|line|] == NUL
      invariant bm.dots == old(bm.dots) + RowDots(line, i, j)
    {
      assert j < |line| ==> buf[j] == line[j];
      if buf[j] == INK {
        bm.Set(i, j);
      } else if buf[j] != BLANK {
        return false;
      }
    }
    ok := true;
  }

  // ----- reading back what was printed

  /** No dot is to the right of a bitmap of some width. */
  ghost predicate Narrow(dots: set<Dot>, width: nat) {
    forall d: Dot {:trigger d in dots} :: d in dots ==> d.1 < width
  }

  /** The dots of a bitmap above row `k`. */
  ghost function Above(dots: set<Dot>, k: nat): set<Dot> {
    set d | d in dots && d.0 < k
  }

  lemma {:induction false} RowDotsOfText(dots: set<Dot>, i: nat, width: nat, line: seq<byte>)
    requires width <= |line| && line[..width] == RowText(dots, i, width) && Narrow(dots, width)
    ensures Legible(line, width) && Above(dots, i) + RowDots(line, i, width) == Above(dots, i + 1)
  {
    forall j: nat | j < width ensures line[j] == Mark(dots, i, j) {
      assert line[j] == line[..width][j];
    }
    RowDotsOfMarks(dots, i, line, width);
  }

  lemma {:induction false} RowDotsOfMarks(dots: set<Dot>, i: nat, line: seq<byte>, k: nat)
    requires k <= |line| && forall j: nat | j < k :: line[j] == Mark(dots, i, j)
    ensures RowDots(line, i, k) == set d | d in dots && d.0 == i && d.1 < k
  {
    if k > 0 {
      RowDotsOfMarks(dots, i, line, k - 1);
    }
  }

  lemma {:induction false} RowIsReadBack(dots: set<Dot>, i: nat, width: nat, room: nat, more: seq<byte>)
    requires width < room && Narrow(dots, width)
    ensures var rest := RowText(dots, i, width) + [NEWLINE] + more;
            && AfterRow(rest, width, room) == Some(more)
            && Above(dots, i) + RowDots(rest[..ReadLen(rest, room)], i, width) == Above(dots, i + 1)
  {
    var row := RowText(dots, i, width);
    var s := row + [NEWLINE] + more;
    assert forall j | 0 <= j < width :: s[j] == row[j];
    ReadLenIs(s, room, width + 1);
    assert s[..width + 1][..width] == row && s[width + 1..] == more;
    RowDotsOfText(dots, i, width, s[..width + 1]);
  }

  /** Row by row, the text of a bitmap is read to its end, as its dots. */
  lemma {:induction false} RowsAreReadBack(text: seq<byte>, dots: set<Dot>, k: nat, width: nat, room: nat,
                                           more: seq<byte>)
    requires width < room && Narrow(dots, width)
    requires text == RowsText(dots, k, width) + more
    ensures AfterRows(text, k, width, room) == Some(more) && Drawn(text, k, width, room) == Above(dots, k)
    decreases k
  {
    if k == 0 {
      NoRowsText(text, dots, width, more);
    } else {
      LastRowText(text, dots, k - 1, width, more);
      var rest := RowText(dots, k - 1, width) + [NEWLINE] + more;
      RowsAreReadBack(text, dots, k - 1, width, room, rest);
      NextRowIsReadBack(text, dots, k - 1, width, room, rest, more);
    }
  }

  lemma {:induction false} NextRowIsReadBack(text: seq<byte>, dots: set<Dot>, k: nat, width: nat, room: nat,
                                             rest: seq<byte>,
                                             more: seq<byte>)
    requires width < room && Narrow(dots, width)
    requires AfterRows(text, k, width, room) == Some(rest) && rest == RowText(dots, k, width) + [NEWLINE] + more
    requires Drawn(text, k, width, room) == Above(dots, k)
    ensures AfterRows(text, k + 1, width, room) == Some(more) && Drawn(text, k + 1, width, room) == Above(dots, k + 1)
  {
    RowIsReadBack(dots, k, width, room, more);
    NextRow(text, k, width, room, rest);
  }

  lemma {:induction false} NoRowsText(text: seq<byte>, dots: set<Dot>, width: nat, more: seq<byte>)
    requires text == RowsText(dots, 0, width) + more
    ensures text == more && Above(dots, 0) == {}
  {
  }

  lemma {:induction false} LastRowText(text: seq<byte>, dots: set<Dot>, k: nat, width: nat, more: seq<byte>)
    requires text == RowsText(dots, k + 1, width) + more
    ensures text == RowsText(dots, k, width) + (RowText(dots, k, width) + [NEWLINE] + more)
  {
    Regroup(RowsText(dots, k, width), RowText(dots, k, width) + [NEWLINE], more);
  }

  /** A row that fills the buffer is read without the end of its line. */
  lemma {:induction false} FullRowIsRead(dots: set<Dot>, room: nat, more: seq<byte>)
    requires room > 0 && Narrow(dots, room)
    ensures var rest := RowText(dots, 0, room) + more;
            AfterRow(rest, room, room) == Some(more) && RowDots(rest[..ReadLen(rest, room)], 0, room) == Above(dots, 1)
  {
    var row := RowText(dots, 0, room);
    var s := row + more;
    assert forall j | 0 <= j < room :: s[j] == row[j];
    ReadLenIs(s, room, room);
    assert s[..room][..room] == row && s[room..] == more;
    RowDotsOfText(dots, 0, room, s[..room]);
    assert Above(dots, 0) == {};
  }

  /** What is left of its line is no row. */
  lemma {:induction false} EndOfLineIsNoRow(more: seq<byte>, width: nat, room: nat)
    requires width > 0 && room > 0
    ensures AfterRow([NEWLINE] + more, width, room).None?
  {
    var rest := [NEWLINE] + more;
    assert rest[..ReadLen(rest, room)][0] == NEWLINE;
  }

  /** With rows that fill the buffer or are longer, only a bitmap of one row that fills it is read
      back. */
  lemma {:induction false} LongRowsAreReadBackIff(text: seq<byte>, dots: set<Dot>, height: nat, width: nat, room: nat,
                                                  more: seq<byte>)
    requires height > 0 && width >= room > 0 && Narrow(dots, width)
    requires forall d: Dot :: d in dots ==> d.0 < height
    requires text == RowsText(dots, height, width) + more
    ensures (AfterRows(text, height, width, room).Some? && Drawn(text, height, width, room) == dots) <==>
            height == 1 && width == room
  {
    var later := FirstRow(dots, height, width, more);
    assert AfterRows(text, 0, width, room) == Some(text);
    NextRow(text, 0, width, room, text);
    if width > room {
      NoMoreRows(text, 1, height, width, room);
    } else {
      FullRowIsRead(dots, room, [NEWLINE] + later);
      if height == 1 {
        assert Above(dots, 1) == dots;
      } else {
        EndOfLineIsNoRow(later, width, room);
        NextRow(text, 1, width, room, [NEWLINE] + later);
        NoMoreRows(text, 2, height, width, room);
      }
    }
  }

  /** A bitmap is read back as it was printed exactly when its rows, with the ends of their
      lines, fit the buffer, or there is but one row and it fits without. */
  lemma {:induction false} BitmapIsReadBackIff(dots: set<Dot>, height: nat, width: nat, room: nat, more: seq<byte>)
    requires height > 0 && width > 0 && room > 0
    requires forall d: Dot :: d in dots ==> d.0 < height && d.1 < width
    ensures var text := Text(dots, height, width) + more;
            (AfterRows(text, height, width, room).Some? && Drawn(text, height, width, room) == dots) <==>
            width < room || (height == 1 && width == room)
  {
    var text := Text(dots, height, width) + more;
    if width < room {
      RowsAreReadBack(text, dots, height, width, room, more);
      assert Above(dots, height) == dots;
    } else {
      LongRowsAreReadBackIff(text, dots, height, width, room, more);
    }
  }

  /** The text of a bitmap starts with its first row. */
  lemma {:induction false} FirstRow(dots: set<Dot>, k: nat, width: nat, more: seq<byte>) returns (later: seq<byte>)
    requires k > 0
    ensures RowsText(dots, k, width) + more == RowText(dots, 0, width) + ([NEWLINE] + later)
  {
    var row := RowText(dots, k - 1, width) + [NEWLINE];
    if k == 1 {
      later := more;
      assert RowsText(dots, 0, width) == [];
    } else {
      later := FirstRow(dots, k - 1, width, row + more);
      assert RowsText(dots, k, width) + more == RowsText(dots, k - 1, width) + (row + more);
    }
  }
}
