/** Fonts and bitmaps in files: words are stored least significant byte first, whatever the
    byte order of the machine. */
module FontFile {
  import opened Bytes
  import opened Lines
  import opened Mbm
  import opened Sequences

  // ----- words

  /** How a machine keeps the two bytes of a word in memory. */
  datatype Host = LittleEnd | BigEnd

  /** The bytes of a word, in the order of their addresses. */
  function Memory(host: Host, v: ushort): (byte, byte) {
    match host
    case LittleEnd => (v % 256, v / 256)
    case BigEnd => (v / 256, v % 256)
  }

  /** The word with the given bytes in memory. */
  function InMemory(host: Host, p: (byte, byte)): ushort {
    match host
    case LittleEnd => p.0 + p.1 as int * 256
    case BigEnd => p.1 + p.0 as int * 256
  }

  /** Puts the low byte of a word first in memory. */
  method ToLsbFirst(host: Host, src: ushort) returns (dest: ushort)
    ensures Memory(host, dest) == (src % 256, src / 256)
  {
    var low: byte := src % 256;
    var high: byte := src / 256 % 256;
    dest := InMemory(host, (low, high));
  }

  /** Takes the byte that is first in memory for the low one. */
  method FromLsbFirst(host: Host, src: ushort) returns (dest: ushort)
    ensures var p := Memory(host, src); dest == p.0 + p.1 as int * 256
  {
    var p := Memory(host, src);
    dest := p.0;
    dest := dest + p.1 as int * 256;
  }

  lemma {:induction false} MemoryIsKept(host: Host, p: (byte, byte))
    ensures Memory(host, InMemory(host, p)) == p
  {
  }

  /** A word written by one machine is read as itself by any other. */
  method ThroughFile(writer: Host, reader: Host, v: ushort) returns (v': ushort)
    ensures v' == v
  {
    var out := ToLsbFirst(writer, v);
    var p := Memory(writer, out);
    MemoryIsKept(reader, p);
    v' := FromLsbFirst(reader, InMemory(reader, p));
  }

  /** A signed number as the word that has its bits, and back. */
  function Unsigned(x: short): ushort {
    if x < 0 then x + 0x1_0000 else x
  }

  function Signed(v: ushort): short {
    if v >= 0x8000 then v - 0x1_0000 else v
  }

  // ----- what the files hold

  datatype Bits = Bits(height: ushort, width: ushort, bytes: seq<byte>)

  datatype Glyph = Glyph(ascent: short, descent: short, lbearing: short, rbearing: short, width: short, bm: Bits)

  datatype Font = Font(name: seq<byte>, ascent: short, descent: short, glyphs: seq<Glyph>)

  predicate Whole(b: Bits) {
    |b.bytes| == Need(b.height, b.width)
  }

  /** The metrics of a glyph agree with those of its font and with its bitmap. */
  predicate GlyphFits(ascent: short, descent: short, g: Glyph) {
    && g.ascent <= ascent && g.descent <= descent
    && g.ascent + g.descent == g.bm.height
    && g.rbearing - g.lbearing == g.bm.width
  }

  ghost predicate MetricsFit(f: Font) {
    f.ascent + f.descent >= 0 && forall n: nat | n < |f.glyphs| :: GlyphFits(f.ascent, f.descent, f.glyphs[n])
  }

  /** Does a font have metrics that agree with one another? */
  method CheckMetrics(f: Font) returns (ok: bool)
    ensures ok <==> MetricsFit(f)
  {
    if f.ascent + f.descent < 0 {
      return false;
    }
    for n: nat := 0 to |f.glyphs|
      invariant forall m: nat | m < n :: GlyphFits(f.ascent, f.descent, f.glyphs[m])
    {
      var g := f.glyphs[n];
      if g.ascent > f.ascent {
        return false;
      }
      if g.descent > f.descent {
        return false;
      }
      if g.ascent + g.descent < 0 {
        return false;
      }
      if g.lbearing > g.rbearing {
        return false;
      }
      if (g.ascent + g.descent) % 0x1_0000 != g.bm.height {
        return false;
      }
      if (g.rbearing - g.lbearing) % 0x1_0000 != g.bm.width {
        return false;
      }
    }
    return true;
  }

  // ----- the file format

  function WordBytes(v: ushort): seq<byte> {
    [v % 256, v / 256]
  }

  /** The words of a series, one after the other. */
  function WordsBytes(vs: seq<ushort>): seq<byte> {
    if vs == [] then [] else WordsBytes(vs[..|vs| - 1]) + WordBytes(vs[|vs| - 1])
  }

  /** The eight bytes a file starts with: four of magic, the version, the end of the line, flags. */
  function Head(kind: byte, version: byte): seq<byte>
    requires version < 10
  {
    ['<' as int, 'M' as int, 'B' as int, kind, '0' as int + version, RETURN, NEWLINE, 0]
  }

  function BitsBytes(b: Bits): seq<byte> {
    Head('M' as int, 1) + (WordsBytes([b.height, b.width]) + b.bytes)
  }

  function GlyphBytes(g: Glyph): seq<byte> {
    WordsBytes(GlyphWords(g)) + BitsBytes(g.bm)
  }

  function GlyphWords(g: Glyph): seq<ushort> {
    [Unsigned(g.ascent), Unsigned(g.descent), Unsigned(g.lbearing), Unsigned(g.rbearing), Unsigned(g.width)]
  }

  function GlyphsBytes(gs: seq<Glyph>): seq<byte> {
    if gs == [] then [] else GlyphsBytes(gs[..|gs| - 1]) + GlyphBytes(gs[|gs| - 1])
  }

  /** What stands before the glyphs; the name is written up to its first NUL. */
  function TitleBytes(f: Font): seq<byte> {
    Head('F' as int, 2) + (UpToNul(f.name) + [RETURN, NEWLINE] + WordsBytes([Unsigned(f.ascent), Unsigned(f.descent)]))
  }

  function FontBytes(f: Font): seq<byte> {
    TitleBytes(f) + GlyphsBytes(f.glyphs)
  }

  /** What files start with: the magic, the version and the end of the line. */
  lemma {:induction false} FileHeads()
    ensures Head('F' as int, 2) == [0x3C, 0x4D, 0x42, 0x46, 0x32, 0x0D, 0x0A, 0]
    ensures Head('M' as int, 1) == [0x3C, 0x4D, 0x42, 0x4D, 0x31, 0x0D, 0x0A, 0]
  {
  }

  /** Word `v` stands in `s` at `i`, its low byte first. */
  predicate WordAt(s: seq<byte>, i: nat, v: ushort) {
    i + 2 <= |s| && s[i] as int + 256 * s[i + 1] as int == v
  }

  /** Where the numbers of a bitmap and of a glyph stand in a file. */
  lemma {:induction false} BitsLayout(b: Bits)
    ensures var s := BitsBytes(b);
            |s| == 12 + |b.bytes| && WordAt(s, 8, b.height) && WordAt(s, 10, b.width) && s[12..] == b.bytes
  {
    TwoWords(b.height, b.width);
    assert WordsBytes([b.height, b.width]) == WordBytes(b.height) + WordBytes(b.width);
  }

  lemma {:induction false} GlyphLayout(g: Glyph)
    ensures var s := GlyphBytes(g);
            && |s| >= 10 && WordAt(s, 0, g.ascent % 0x1_0000) && WordAt(s, 2, g.descent % 0x1_0000)
            && WordAt(s, 4, g.lbearing % 0x1_0000) && WordAt(s, 6, g.rbearing % 0x1_0000)
            && WordAt(s, 8, g.width % 0x1_0000) && s[10..] == BitsBytes(g.bm)
  {
    var vs := GlyphWords(g);
    FiveWords(vs[0], vs[1], vs[2], vs[3], vs[4]);
    var words := WordsBytes(vs);
    assert vs == [vs[0], vs[1], vs[2], vs[3], vs[4]];
    assert (words + BitsBytes(g.bm))[10..] == BitsBytes(g.bm);
  }

  lemma {:induction false} FiveWords(a: ushort, b: ushort, c: ushort, d: ushort, e: ushort)
    ensures WordsBytes([a, b, c, d, e]) == WordBytes(a) + WordBytes(b) + WordBytes(c) + WordBytes(d) + WordBytes(e)
  {
    TwoWords(a, b);
    assert [a, b, c][..2] == [a, b] && [a, b, c, d][..3] == [a, b, c] && [a, b, c, d, e][..4] == [a, b, c, d];
    assert WordsBytes([a, b, c]) == WordsBytes([a, b]) + WordBytes(c);
    assert WordsBytes([a, b, c, d]) == WordsBytes([a, b, c]) + WordBytes(d);
  }

  /** The name stands up to its first NUL after the head, and the numbers of the font after its line. */
  lemma {:induction false} TitleLayout(f: Font)
    ensures var s, n := TitleBytes(f), |UpToNul(f.name)|;
            && |s| == n + 14 && s[8..8 + n] == UpToNul(f.name) && s[8 + n] == 0x0D && s[9 + n] == 0x0A
            && WordAt(s, n + 10, f.ascent % 0x1_0000) && WordAt(s, n + 12, f.descent % 0x1_0000)
  {
    TwoWords(Unsigned(f.ascent), Unsigned(f.descent));
  }

  // ----- reading

  /** What a read yields, and the bytes after it. */
  datatype Parsed<+T> = Fail | Parsed(value: T, rest: seq<byte>)

  function TakeWord(s: seq<byte>): Parsed<ushort> {
    if |s| < 2 then Fail else Parsed(s[0] + s[1] as int * 256, s[2..])
  }

  function TakeWords(s: seq<byte>, n: nat): Parsed<seq<ushort>> {
    if n == 0 then Parsed([], s)
    else match TakeWords(s, n - 1)
      case Fail => Fail
      case Parsed(vs, rest) =>
        match TakeWord(rest)
        case Fail => Fail
        case Parsed(v, rest') => Parsed(vs + [v], rest')
  }

  /** The head of a file; the flags can be anything. */
  function TakeHead(s: seq<byte>, kind: byte, version: byte): Parsed<byte>
    requires version < 10
  {
    if |s| < 8 || s[..7] != Head(kind, version)[..7] then Fail else Parsed(s[7], s[8..])
  }

  function TakeBits(s: seq<byte>): Parsed<Bits> {
    match TakeHead(s, 'M' as int, 1)
    case Fail => Fail
    case Parsed(_, s1) =>
      match TakeWords(s1, 2)
      case Fail => Fail
      case Parsed(vs, s2) =>
        if |vs| != 2 || |s2| < Need(vs[0], vs[1]) then Fail
        else Parsed(Bits(vs[0], vs[1], s2[..Need(vs[0], vs[1])]), s2[Need(vs[0], vs[1])..])
  }

  function TakeGlyph(s: seq<byte>): Parsed<Glyph> {
    match TakeWords(s, 5)
    case Fail => Fail
    case Parsed(vs, s1) =>
      match TakeBits(s1)
      case Fail => Fail
      case Parsed(b, s2) =>
        if |vs| != 5 then Fail
        else Parsed(Glyph(Signed(vs[0]), Signed(vs[1]), Signed(vs[2]), Signed(vs[3]), Signed(vs[4]), b), s2)
  }

  function TakeGlyphs(s: seq<byte>, n: nat): Parsed<seq<Glyph>> {
    if n == 0 then Parsed([], s)
    else match TakeGlyphs(s, n - 1)
      case Fail => Fail
      case Parsed(gs, rest) =>
        match TakeGlyph(rest)
        case Fail => Fail
        case Parsed(g, rest') => Parsed(gs + [g], rest')
  }

  /** How many bytes are taken for the name: up to and with the first newline, 128 at most. */
  function NameLen(s: seq<byte>, room: nat): (n: nat)
    ensures n <= room && n <= |s|
  {
    if s == [] || room == 0 then 0 else if s[0] == NEWLINE then 1 else 1 + NameLen(s[1..], room - 1)
  }

  /** The line of the name, as it is kept: with the bytes that end it. */
  function TakeName(s: seq<byte>): Parsed<seq<byte>> {
    var n := NameLen(s, 128);
    if n < 128 && (n == 0 || s[n - 1] != NEWLINE) then Fail
    else
      var k := if s[n - 1] == NEWLINE then n - 1 else n;
      if k == 0 || s[k - 1] != RETURN then Fail else Parsed(s[..n], s[n..])
  }

  /** What stands before the glyphs of a font; the name still has what ends its line. */
  function TakeTitle(s: seq<byte>): Parsed<Font> {
    match TakeHead(s, 'F' as int, 2)
    case Fail => Fail
    case Parsed(_, s1) =>
      match TakeName(s1)
      case Fail => Fail
      case Parsed(name, s2) =>
        match TakeWords(s2, 2)
        case Fail => Fail
        case Parsed(vs, s3) =>
          if |vs| != 2 then Fail else Parsed(Font(name, Signed(vs[0]), Signed(vs[1]), []), s3)
  }

  ghost function TakeFont(s: seq<byte>): Parsed<Font> {
    match TakeTitle(s)
    case Fail => Fail
    case Parsed(title, s1) =>
      match TakeGlyphs(s1, 256)
      case Fail => Fail
      case Parsed(gs, s2) =>
        var f := title.(glyphs := gs);
        if MetricsFit(f) then Parsed(f, s2) else Fail
  }

  // ----- reading back what was written

  lemma {:induction false} WordIsReadBack(v: ushort, rest: seq<byte>)
    ensures TakeWord(WordBytes(v) + rest) == Parsed(v, rest)
  {
    assert (WordBytes(v) + rest)[2..] == rest;
  }

  lemma {:induction false} WordsAreReadBack(vs: seq<ushort>, rest: seq<byte>)
    ensures TakeWords(WordsBytes(vs) + rest, |vs|) == Parsed(vs, rest)
  {
    if vs == [] {
      assert WordsBytes(vs) + rest == rest;
    } else {
      var front, v := vs[..|vs| - 1], vs[|vs| - 1];
      Regroup(WordsBytes(front), WordBytes(v), rest);
      WordsAreReadBack(front, WordBytes(v) + rest);
      WordIsReadBack(v, rest);
      assert vs == front + [v];
    }
  }

  lemma {:induction false} HeadIsReadBack(kind: byte, version: byte, rest: seq<byte>)
    requires version < 10
    ensures TakeHead(Head(kind, version) + rest, kind, version) == Parsed(0, rest)
  {
    var s := Head(kind, version) + rest;
    assert s[8..] == rest && s[..7] == Head(kind, version)[..7];
  }

  lemma {:induction false} BitsAreReadBack(b: Bits, rest: seq<byte>)
    requires Whole(b)
    ensures TakeBits(BitsBytes(b) + rest) == Parsed(b, rest)
  {
    var size := WordsBytes([b.height, b.width]);
    Regroup(Head('M' as int, 1), size + b.bytes, rest);
    Regroup(size, b.bytes, rest);
    HeadIsReadBack('M' as int, 1, size + (b.bytes + rest));
    WordsAreReadBack([b.height, b.width], b.bytes + rest);
    assert (b.bytes + rest)[..|b.bytes|] == b.bytes && (b.bytes + rest)[|b.bytes|..] == rest;
  }

  lemma {:induction false} GlyphIsReadBack(g: Glyph, rest: seq<byte>)
    requires Whole(g.bm)
    ensures TakeGlyph(GlyphBytes(g) + rest) == Parsed(g, rest)
  {
    Regroup(WordsBytes(GlyphWords(g)), BitsBytes(g.bm), rest);
    WordsAreReadBack(GlyphWords(g), BitsBytes(g.bm) + rest);
    BitsAreReadBack(g.bm, rest);
  }

  lemma {:induction false} GlyphsAreReadBack(gs: seq<Glyph>, rest: seq<byte>)
    requires forall n: nat | n < |gs| :: Whole(gs[n].bm)
    ensures TakeGlyphs(GlyphsBytes(gs) + rest, |gs|) == Parsed(gs, rest)
  {
    if gs == [] {
      assert GlyphsBytes(gs) + rest == rest;
    } else {
      var front, g := gs[..|gs| - 1], gs[|gs| - 1];
      Regroup(GlyphsBytes(front), GlyphBytes(g), rest);
      GlyphsAreReadBack(front, GlyphBytes(g) + rest);
      GlyphIsReadBack(g, rest);
      assert gs == front + [g];
    }
  }

  lemma {:induction false} NameLenIs(s: seq<byte>, room: nat, n: nat)
    requires n < room && n < |s| && s[n] == NEWLINE && forall i | 0 <= i < n :: s[i] != NEWLINE
    ensures NameLen(s, room) == n + 1
  {
    if n > 0 {
      NameLenIs(s[1..], room - 1, n - 1);
    }
  }

  /** A name that a file can hold. */
  predicate Storable(name: seq<byte>) {
    |name| <= 126 && NEWLINE !in name && NUL !in name
  }

  lemma {:induction false} NameIsReadBack(name: seq<byte>, rest: seq<byte>)
    requires Storable(name)
    ensures UpToNul(name) == name
    ensures TakeName(name + [RETURN, NEWLINE] + rest) == Parsed(name + [RETURN, NEWLINE], rest)
  {
    UpToNulIsAll(name);
    var s := name + [RETURN, NEWLINE] + rest;
    NameLenIs(s, 128, |name| + 1);
    assert s[..|name| + 2] == name + [RETURN, NEWLINE] && s[|name| + 2..] == rest;
  }

  lemma {:induction false} TitleIsReadBack(f: Font, rest: seq<byte>)
    requires Storable(f.name)
    ensures TakeTitle(TitleBytes(f) + rest) == Parsed(f.(name := f.name + [RETURN, NEWLINE], glyphs := []), rest)
  {
    var words := [Unsigned(f.ascent), Unsigned(f.descent)];
    Regroup(Head('F' as int, 2), f.name + [RETURN, NEWLINE] + WordsBytes(words), rest);
    Regroup(f.name + [RETURN, NEWLINE], WordsBytes(words), rest);
    HeadIsReadBack('F' as int, 2, f.name + [RETURN, NEWLINE] + (WordsBytes(words) + rest));
    NameIsReadBack(f.name, WordsBytes(words) + rest);
    WordsAreReadBack(words, rest);
  }

  lemma {:induction false} NameLenStops(s: seq<byte>, room: nat, n: nat)
    requires n < |s| && s[n] == NEWLINE
    ensures NameLen(s, room) <= n + 1
  {
    if n > 0 && room > 0 && s[0] != NEWLINE {
      NameLenStops(s[1..], room - 1, n - 1);
    }
  }

  /** The line of a name is read back exactly when the name is storable: it has no newline and no
      NUL, and 126 bytes at most. */
  lemma {:induction false} NameIsReadBackIff(name: seq<byte>, rest: seq<byte>)
    ensures var s := UpToNul(name) + [RETURN, NEWLINE] + rest;
            (TakeName(s).Parsed? && TakeName(s).value == name + [RETURN, NEWLINE]) <==> Storable(name)
  {
    if Storable(name) {
      NameIsReadBack(name, rest);
    } else if NUL in name {
      CutNameIsNotReadBack(name, rest);
    } else {
      UpToNulIsAll(name);
      if NEWLINE in name {
        var n: nat :| n < |name| && name[n] == NEWLINE;
        NameLenStops(name + [RETURN, NEWLINE] + rest, 128, n);
      }
    }
  }

  lemma {:induction false} CutNameIsNotReadBack(name: seq<byte>, rest: seq<byte>)
    requires NUL in name
    ensures var s := UpToNul(name) + [RETURN, NEWLINE] + rest;
            TakeName(s).Parsed? ==> TakeName(s).value != name + [RETURN, NEWLINE]
  {
    var n := FirstNul(name);
    UpToNulIs(name, n);
    var s := UpToNul(name) + [RETURN, NEWLINE] + rest;
    assert s[n] == RETURN && (name + [RETURN, NEWLINE])[n] == NUL;
    assert TakeName(s).Parsed? && n < |TakeName(s).value| ==> TakeName(s).value[n] == s[n];
  }

  /** A font whose metrics agree is read back as it was written, but that the name keeps the bytes
      that end its line, exactly when a file can hold its name. */
  lemma {:induction false} FontIsReadBackIff(f: Font, rest: seq<byte>)
    requires |f.glyphs| == 256 && MetricsFit(f) && forall n: nat | n < 256 :: Whole(f.glyphs[n].bm)
    ensures var read := TakeFont(FontBytes(f) + rest);
            && (read.Parsed? && read.value == f.(name := f.name + [RETURN, NEWLINE]) <==> Storable(f.name))
            && (Storable(f.name) ==> read.rest == rest)
  {
    if Storable(f.name) {
      Regroup(TitleBytes(f), GlyphsBytes(f.glyphs), rest);
      TitleIsReadBack(f, GlyphsBytes(f.glyphs) + rest);
      GlyphsAreReadBack(f.glyphs, rest);
    } else {
      TitleIsGarbled(f, GlyphsBytes(f.glyphs) + rest);
      Regroup(TitleBytes(f), GlyphsBytes(f.glyphs), rest);
    }
  }

  lemma {:induction false} TitleIsGarbled(f: Font, rest: seq<byte>)
    requires !Storable(f.name)
    ensures var t := TakeTitle(TitleBytes(f) + rest);
            t.Parsed? ==> t.value.name != f.name + [RETURN, NEWLINE]
  {
    var line, words := UpToNul(f.name) + [RETURN, NEWLINE], WordsBytes([Unsigned(f.ascent), Unsigned(f.descent)]);
    Regroup(Head('F' as int, 2), line + words, rest);
    Regroup(line, words, rest);
    HeadIsReadBack('F' as int, 2, line + (words + rest));
    NameIsReadBackIff(f.name, words + rest);
  }

  // ----- what is read is sound

  lemma {:induction false} GlyphsAreWhole(s: seq<byte>, n: nat)
    requires TakeGlyphs(s, n).Parsed?
    ensures var gs := TakeGlyphs(s, n).value;
            |gs| == n && forall i: nat | i < n :: Whole(gs[i].bm)
  {
    if n > 0 {
      GlyphsAreWhole(s, n - 1);
    }
  }

  /** Whatever bytes a font is read from, its metrics agree, and it has all its glyphs. */
  lemma {:induction false} FontReadIsSound(s: seq<byte>)
    requires TakeFont(s).Parsed?
    ensures var f := TakeFont(s).value;
            MetricsFit(f) && |f.glyphs| == 256 && forall n: nat | n < 256 :: Whole(f.glyphs[n].bm)
  {
    GlyphsAreWhole(TakeTitle(s).rest, 256);
  }

  // ----- the files

  /** A file: its bytes, and the place where it is read or written. */
  class Stream {
    var data: seq<byte>
    var pos: nat

    predicate Valid()
      reads this
    {
      pos <= |data|
    }

    function Rest(): seq<byte>
      requires Valid()
      reads this
    {
      data[pos..]
    }

    constructor (data: seq<byte>)
      ensures Valid() && this.data == data && pos == 0
    {
      this.data, pos := data, 0;
    }

    /** Writes at the end of the file. */
    method Write(bytes: seq<byte>)
      requires pos == |data|
      modifies this
      ensures data == old(data) + bytes && pos == |data|
    {
      data := data + bytes;
      pos := |data|;
    }

    /** Reads `n` bytes; fewer when the file ends. */
    method Read(n: nat) returns (bytes: seq<byte>)
      requires Valid()
      modifies `pos
      ensures Valid()
      ensures if n <= |old(Rest())| then bytes == old(Rest())[..n] && Rest() == old(Rest())[n..]
              else |bytes| < n && Rest() == []
    {
      var end := if pos + n <= |data| then pos + n else |data|;
      bytes := data[pos..end];
      pos := end;
    }
  }

  method WriteWord(host: Host, pf: Stream, v: ushort)
    requires pf.pos == |pf.data|
    modifies pf
    ensures pf.data == old(pf.data) + WordBytes(v) && pf.pos == |pf.data|
  {
    var out := ToLsbFirst(host, v);
    var p := Memory(host, out);
    pf.Write([p.0, p.1]);
  }

  method ReadWord(host: Host, pf: Stream) returns (ok: bool, v: ushort)
    requires pf.Valid()
    modifies pf`pos
    ensures pf.Valid()
    ensures match TakeWord(old(pf.Rest()))
            case Fail => !ok
            case Parsed(value, rest) => ok && v == value && pf.Rest() == rest
  {
    v := 0;
    var bytes := pf.Read(2);
    ok := |bytes| == 2;
    if ok {
      MemoryIsKept(host, (bytes[0], bytes[1]));
      v := FromLsbFirst(host, InMemory(host, (bytes[0], bytes[1])));
    }
  }

  /** Writes a bitmap. */
  method SaveBits(host: Host, pf: Stream, b: Bits)
    requires pf.pos == |pf.data|
    modifies pf
    ensures pf.data == old(pf.data) + BitsBytes(b) && pf.pos == |pf.data|
  {
    pf.Write(Head('M' as int, 1));
    WriteWord(host, pf, b.height);
    WriteWord(host, pf, b.width);
    pf.Write(b.bytes);
    TwoWords(b.height, b.width);
    assert pf.data == old(pf.data) + BitsBytes(b);
  }

  lemma {:induction false} TwoWords(v: ushort, w: ushort)
    ensures WordsBytes([v, w]) == WordBytes(v) + WordBytes(w)
  {
    assert [v, w][..1] == [v] && WordsBytes([v]) == WordsBytes([]) + WordBytes(v);
  }

  /** Writes the words of a series. */
  method WriteWords(host: Host, pf: Stream, vs: seq<ushort>)
    requires pf.pos == |pf.data|
    modifies pf
    ensures pf.data == old(pf.data) + WordsBytes(vs) && pf.pos == |pf.data|
  {
    assert old(pf.data) + WordsBytes([]) == old(pf.data);
    for n: nat := 0 to |vs|
      invariant pf.data == old(pf.data) + WordsBytes(vs[..n]) && pf.pos == |pf.data|
    {
      assert vs[..n + 1][..n] == vs[..n];
      WriteWord(host, pf, vs[n]);
    }
    assert vs[..|vs|] == vs;
  }

  /** Writes a font, if its metrics agree. */
  method SaveFont(host: Host, pf: Stream, f: Font) returns (ok: bool)
    requires pf.pos == |pf.data|
    modifies pf
    ensures (ok <==> MetricsFit(f)) && pf.data == old(pf.data) + if ok then FontBytes(f) else []
  {
    ok := CheckMetrics(f);
    if !ok {
      return;
    }
    SaveTitle(host, pf, f);
    SaveGlyphs(host, pf, f.glyphs);
    Regroup(old(pf.data), TitleBytes(f), GlyphsBytes(f.glyphs));
  }

  /** Writes what stands before the glyphs of a font. */
  method SaveTitle(host: Host, pf: Stream, f: Font)
    requires pf.pos == |pf.data|
    modifies pf
    ensures pf.data == old(pf.data) + TitleBytes(f) && pf.pos == |pf.data|
  {
    pf.Write(Head('F' as int, 2));
    pf.Write(UpToNul(f.name) + [RETURN, NEWLINE]);
    WriteWords(host, pf, [Unsigned(f.ascent), Unsigned(f.descent)]);
    assert pf.data == old(pf.data) + TitleBytes(f);
  }

  lemma {:induction false} OneMoreGlyph(before: seq<byte>, gs: seq<Glyph>, n: nat)
    requires n < |gs|
    ensures before + GlyphsBytes(gs[..n]) + GlyphBytes(gs[n]) == before + GlyphsBytes(gs[..n + 1])
  {
    assert gs[..n + 1][..n] == gs[..n];
  }

  method SaveGlyphs(host: Host, pf: Stream, gs: seq<Glyph>)
    requires pf.pos == |pf.data|
    modifies pf
    ensures pf.data == old(pf.data) + GlyphsBytes(gs) && pf.pos == |pf.data|
  {
    assert old(pf.data) + GlyphsBytes([]) == old(pf.data);
    for n: nat := 0 to |gs|
      invariant pf.data == old(pf.data) + GlyphsBytes(gs[..n]) && pf.pos == |pf.data|
    {
      ghost var before := pf.data;
      WriteWords(host, pf, GlyphWords(gs[n]));
      SaveBits(host, pf, gs[n].bm);
      assert pf.data == before + GlyphBytes(gs[n]);
      OneMoreGlyph(old(pf.data), gs, n);
    }
    assert gs[..|gs|] == gs;
  }

  /** Reads the words of a series. */
  method ReadWords(host: Host, pf: Stream, n: nat) returns (ok: bool, vs: seq<ushort>)
    requires pf.Valid()
    modifies pf`pos
    ensures pf.Valid()
    ensures match TakeWords(old(pf.Rest()), n)
            case Fail => !ok
            case Parsed(value, rest) => ok && vs == value && |vs| == n && pf.Rest() == rest
  {
    vs := [];
    ghost var s := pf.Rest();
    for k: nat := 0 to n
      invariant pf.Valid() && |vs| == k && TakeWords(s, k) == Parsed(vs, pf.Rest())
    {
      var v;
      ok, v := ReadWord(host, pf);
      if !ok {
        FailedWords(s, k + 1, n);
        return;
      }
      vs := vs + [v];
    }
    ok := true;
  }

  lemma {:induction false} FailedWords(s: seq<byte>, k: nat, n: nat)
    requires k <= n && TakeWords(s, k) == Fail
    ensures TakeWords(s, n) == Fail
  {
    if k < n {
      FailedWords(s, k, n - 1);
    }
  }

  method ReadHead(pf: Stream, kind: byte, version: byte) returns (ok: bool)
    requires pf.Valid() && version < 10
    modifies pf`pos
    ensures pf.Valid()
    ensures match TakeHead(old(pf.Rest()), kind, version)
            case Fail => !ok
            case Parsed(_, rest) => ok && pf.Rest() == rest
  {
    var buf := pf.Read(8);
    if |buf| != 8 {
      return false;
    }
    assert buf[..7] == old(pf.Rest())[..7];
    ok := buf[0] == '<' as int && buf[1] == 'M' as int && buf[2] == 'B' as int && buf[3] == kind
          && buf[4] - '0' as int == version && buf[5] == RETURN && buf[6] == NEWLINE;
    if ok {
      assert buf[..7] == Head(kind, version)[..7];
    } else {
      assert forall i | 0 <= i < 7 :: Head(kind, version)[..7][i] == Head(kind, version)[i] && buf[..7][i] == buf[i];
    }
  }

  /** Reads a bitmap; when there is none, goes back to where it started. */
  method LoadBits(host: Host, pf: Stream) returns (ok: bool, b: Bits)
    requires pf.Valid()
    modifies pf`pos
    ensures pf.Valid()
    ensures match TakeBits(old(pf.Rest()))
            case Fail => !ok && pf.pos == old(pf.pos)
            case Parsed(value, rest) => ok && b == value && pf.Rest() == rest
  {
    b := Bits(0, 0, []);
    var fpos := pf.pos;
    ok := ReadHead(pf, 'M' as int, 1);
    if !ok {
      pf.pos := fpos;
      return;
    }
    var vs;
    ok, vs := ReadWords(host, pf, 2);
    if !ok {
      pf.pos := fpos;
      return;
    }
    var bytes := pf.Read(Need(vs[0], vs[1]));
    if |bytes| != Need(vs[0], vs[1]) {
      pf.pos := fpos;
      return false, b;
    }
    b := Bits(vs[0], vs[1], bytes);
  }

  /** Reads one glyph. */
  method LoadGlyph(host: Host, pf: Stream) returns (ok: bool, g: Glyph)
    requires pf.Valid()
    modifies pf`pos
    ensures pf.Valid()
    ensures match TakeGlyph(old(pf.Rest()))
            case Fail => !ok
            case Parsed(value, rest) => ok && g == value && pf.Rest() == rest
  {
    var b := Bits(0, 0, []);
    g := Glyph(0, 0, 0, 0, 0, b);
    var vs;
    ok, vs := ReadWords(host, pf, 5);
    if ok {
      ok, b := LoadBits(host, pf);
      g := Glyph(Signed(vs[0]), Signed(vs[1]), Signed(vs[2]), Signed(vs[3]), Signed(vs[4]), b);
    }
  }

  lemma {:induction false} FailedGlyphs(s: seq<byte>, k: nat, n: nat)
    requires k <= n && TakeGlyphs(s, k) == Fail
    ensures TakeGlyphs(s, n) == Fail
  {
    if k < n {
      FailedGlyphs(s, k, n - 1);
    }
  }

  method LoadGlyphs(host: Host, pf: Stream, n: nat) returns (ok: bool, gs: seq<Glyph>)
    requires pf.Valid()
    modifies pf`pos
    ensures pf.Valid()
    ensures match TakeGlyphs(old(pf.Rest()), n)
            case Fail => !ok
            case Parsed(value, rest) => ok && gs == value && pf.Rest() == rest
  {
    gs := [];
    ghost var s := pf.Rest();
    for k: nat := 0 to n
      invariant pf.Valid() && TakeGlyphs(s, k) == Parsed(gs, pf.Rest())
    {
      var g;
      ok, g := LoadGlyph(host, pf);
      if !ok {
        FailedGlyphs(s, k + 1, n);
        return;
      }
      gs := gs + [g];
    }
    ok := true;
  }

  lemma {:induction false} NameLenFills(s: seq<byte>, room: nat, n: nat)
    requires n <= room && n <= |s| && (n == room || n == |s|) && forall i | 0 <= i < n :: s[i] != NEWLINE
    ensures NameLen(s, room) == n
  {
    if n > 0 {
      NameLenFills(s[1..], room - 1, n - 1);
    }
  }

  /** Reads the line of the name. */
  method ReadName(pf: Stream) returns (ok: bool, name: seq<byte>)
    requires pf.Valid()
    modifies pf`pos
    ensures pf.Valid()
    ensures match TakeName(old(pf.Rest()))
            case Fail => !ok
            case Parsed(value, rest) => ok && name == value && pf.Rest() == rest
  {
    ghost var s := pf.Rest();
    name := [];
    var n: nat := 0;
    while n < 128
      invariant pf.Valid() && n <= 128 && n <= |s| && n == |name| && name == s[..n] && pf.Rest() == s[n..]
      invariant forall i | 0 <= i < n :: s[i] != NEWLINE
    {
      var b := pf.Read(1);
      if |b| == 0 {
        NameLenFills(s, 128, n);
        return false, name;
      }
      name := name + b;
      if b[0] == NEWLINE {
        NameLenIs(s, 128, n);
        break;
      }
      n := n + 1;
    }
    if n == 128 {
      NameLenFills(s, 128, n);
    }
    ok := n > 0 && name[n - 1] == RETURN;
  }

  /** Reads a font; goes back to where it started when what stands before the glyphs is not
      that of a font. */
  method LoadFont(host: Host, pf: Stream) returns (ok: bool, f: Font)
    requires pf.Valid()
    modifies pf`pos
    ensures pf.Valid()
    ensures match TakeFont(old(pf.Rest()))
            case Fail => !ok
            case Parsed(value, rest) => ok && f == value && pf.Rest() == rest
    ensures TakeTitle(old(pf.Rest())).Fail? ==> pf.pos == old(pf.pos)
  {
    ok, f := ReadTitle(host, pf);
    if !ok {
      return;
    }
    var gs;
    ok, gs := LoadGlyphs(host, pf, 256);
    if !ok {
      return;
    }
    f := f.(glyphs := gs);
    ok := CheckMetrics(f);
  }

  method ReadTitle(host: Host, pf: Stream) returns (ok: bool, f: Font)
    requires pf.Valid()
    modifies pf`pos
    ensures pf.Valid()
    ensures match TakeTitle(old(pf.Rest()))
            case Fail => !ok && pf.pos == old(pf.pos)
            case Parsed(value, rest) => ok && f == value && pf.Rest() == rest
  {
    f := Font([], 0, 0, []);
    var fpos := pf.pos;
    ok := ReadHead(pf, 'F' as int, 2);
    if !ok {
      pf.pos := fpos;
      return;
    }
    var name;
    ok, name := ReadName(pf);
    if !ok {
      pf.pos := fpos;
      return;
    }
    var vs;
    ok, vs := ReadWords(host, pf, 2);
    if !ok {
      pf.pos := fpos;
      return;
    }
    f := Font(name, Signed(vs[0]), Signed(vs[1]), []);
  }

  /** A font saved on one machine and loaded on another: it is the same, but for the bytes that end
      the line of the name, exactly when a file can hold the name. */
  method Transfer(writer: Host, reader: Host, f: Font) returns (ok: bool, f': Font)
    requires |f.glyphs| == 256 && MetricsFit(f) && forall n: nat | n < 256 :: Whole(f.glyphs[n].bm)
    ensures ok && f' == f.(name := f.name + [RETURN, NEWLINE]) <==> Storable(f.name)
  {
    var pf := new Stream([]);
    ok := SaveFont(writer, pf, f);
    FontIsReadBackIff(f, []);
    pf.pos := 0;
    assert pf.Rest() == FontBytes(f) + [];
    ok, f' := LoadFont(reader, pf);
  }
}
