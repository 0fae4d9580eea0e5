/** Where on which label each character of a text stands, told by the characters before it. */
module RenderPlaces {
  import opened Bytes
  import opened Lines
  import opened Mbm
  import opened Options
  import opened Render

  // ----- kinds of characters

  predicate Draws(l: Layout, ch: byte)
    requires |l.font.glyphs| == 256
  {
    l.font.glyphs[ch].width != 0
  }

  predicate EndsLine(l: Layout, ch: byte)
    requires |l.font.glyphs| == 256
  {
    !Draws(l, ch) && ch == 10
  }

  predicate EndsLabel(l: Layout, ch: byte)
    requires |l.font.glyphs| == 256
  {
    !Draws(l, ch) && ch == 12
  }

  predicate GoesBack(l: Layout, ch: byte)
    requires |l.font.glyphs| == 256
  {
    !Draws(l, ch) && (ch == 10 || ch == 12 || ch == 13)
  }

  // ----- columns

  /** The characters after the last that goes back to the first column. */
  function Segment(l: Layout, s: seq<byte>): seq<byte>
    requires |l.font.glyphs| == 256
  {
    if s == [] || GoesBack(l, s[|s| - 1]) then []
    else Segment(l, s[..|s| - 1]) + [s[|s| - 1]]
  }

  /** The column after characters that do not go back: each glyph takes its width and its left bearing,
      but for a negative bearing that reaches over the edge; tabs go to their stops, and characters
      without a glyph take a space. */
  function Column(l: Layout, s: seq<byte>): int
    requires |l.font.glyphs| == 256
  {
    if s == [] then 0
    else
      var (before, ch) := (Column(l, s[..|s| - 1]), s[|s| - 1]);
      var g := l.font.glyphs[ch];
      if Draws(l, ch) then
        if g.lbearing < 0 && 0 - g.lbearing > Unsigned(before) then g.width - g.lbearing
        else before + g.lbearing + g.width
      else if ch != 9 then before + l.space
      else if l.space > 0 then TabStop(before, l.space)
      else before
  }

  /** The widths and bearings of some characters. */
  function Widths(l: Layout, s: seq<byte>): int
    requires |l.font.glyphs| == 256
  {
    if s == [] then 0
    else
      var g := l.font.glyphs[s[|s| - 1]];
      Widths(l, s[..|s| - 1]) + g.width + g.lbearing
  }

  /** A glyph stands at the sum of the widths before it in its line, and of the left bearings. */
  lemma {:induction false} ColumnIsWidths(l: Layout, s: seq<byte>)
    requires |l.font.glyphs| == 256
    requires forall i | 0 <= i < |s| :: Draws(l, s[i]) && l.font.glyphs[s[i]].lbearing >= 0
    ensures Column(l, s) == Widths(l, s)
  {
    if s != [] {
      ColumnIsWidths(l, s[..|s| - 1]);
    }
  }

  /** A line begins after a character that goes back. */
  lemma {:induction false} SegmentIsLine(l: Layout, before: seq<byte>, line: seq<byte>)
    requires |l.font.glyphs| == 256 && (before == [] || GoesBack(l, before[|before| - 1]))
    requires forall i | 0 <= i < |line| :: !GoesBack(l, line[i])
    ensures Segment(l, before + line) == line
    decreases |line|
  {
    if line == [] {
      assert before + line == before;
    } else {
      var front := line[..|line| - 1];
      assert (before + line)[..|before + line| - 1] == before + front;
      SegmentIsLine(l, before, front);
    }
  }

  // ----- lines and labels

  function Pitch(l: Layout): int {
    l.font.ascent + l.font.descent
  }

  /** How many lines a label has; 0 when there is no end of them, because a line has no height. */
  function Capacity(l: Layout): nat
    requires Pitch(l) >= 0
  {
    if Pitch(l) == 0 then (if l.vheight == 0 then 1 else 0)
    else if l.vheight == 0 || (l.vheight - 1) / Pitch(l) == 0 then 1
    else (l.vheight - 1) / Pitch(l)
  }

  /** A label has room for one line at least, and for every further one that ends above its last row. */
  lemma {:induction false} CapacityIff(l: Layout, k: nat)
    requires Pitch(l) >= 0 && k > 0
    ensures Capacity(l) == 0 || k < Capacity(l) <==> (k + 1) * Pitch(l) < l.vheight
  {
    var p := Pitch(l);
    if p > 0 && l.vheight > 0 {
      QuotientIff(k + 1, p, l.vheight - 1);
    } else if p > 0 {
      assert (k + 1) * p > 0;
    }
  }

  lemma {:induction false} QuotientIff(k: nat, p: nat, x: nat)
    requires p > 0
    ensures k * p <= x <==> k <= x / p
  {
    var q, r := x / p, x % p;
    assert x == q * p + r;
    if k <= q {
      assert (q - k) * p >= 0;
    } else {
      assert (k - q - 1) * p >= 0;
    }
  }

  /** How many newlines stand after the last form feed. */
  function NewLines(l: Layout, s: seq<byte>): nat
    requires |l.font.glyphs| == 256
  {
    if s == [] || EndsLabel(l, s[|s| - 1]) then 0
    else NewLines(l, s[..|s| - 1]) + if EndsLine(l, s[|s| - 1]) then 1 else 0
  }

  /** Which label and which line of it is `n` newlines on, when labels have `m` lines. */
  function LabelOf(n: nat, m: nat): nat {
    if m == 0 then 0 else n / m
  }

  function LineOf(n: nat, m: nat): nat {
    if m == 0 then n else n % m
  }

  lemma {:induction false} OneLineOn(n: nat, m: nat)
    ensures if m != 0 && LineOf(n, m) + 1 == m then LabelOf(n + 1, m) == LabelOf(n, m) + 1 && LineOf(n + 1, m) == 0
            else LabelOf(n + 1, m) == LabelOf(n, m) && LineOf(n + 1, m) == LineOf(n, m) + 1
    ensures m != 0 ==> LineOf(n, m) < m
  {
    if m != 0 {
      var q, r := n / m, n % m;
      if r + 1 == m {
        assert n + 1 == (q + 1) * m + 0;
        RestIs(m, q + 1, 0, n + 1);
        QuotientIsUnique(m, q + 1, 0, (n + 1) / m, (n + 1) % m);
      } else {
        QuotientIsUnique(m, q, r + 1, (n + 1) / m, (n + 1) % m);
        RestIs(m, q, r + 1, n + 1);
      }
    }
  }

  /** How many labels were begun before the one that the last form feed began. */
  function Earlier(l: Layout, s: seq<byte>): nat
    requires |l.font.glyphs| == 256 && Pitch(l) >= 0
    decreases |s|, 0
  {
    if s == [] then 0
    else if EndsLabel(l, s[|s| - 1]) then Label(l, s[..|s| - 1]) + 1
    else Earlier(l, s[..|s| - 1])
  }

  /** The number of the label on which the text goes on, blank labels counted. */
  function Label(l: Layout, s: seq<byte>): nat
    requires |l.font.glyphs| == 256 && Pitch(l) >= 0
    decreases |s|, 1
  {
    Earlier(l, s) + LabelOf(NewLines(l, s), Capacity(l))
  }

  /** The row of the baseline on which the text goes on. */
  function Row(l: Layout, s: seq<byte>): int
    requires |l.font.glyphs| == 256 && Pitch(l) >= 0
  {
    l.font.ascent + LineOf(NewLines(l, s), Capacity(l)) * Pitch(l)
  }

  // ----- dots

  /** The dots that a character makes after text `s`. */
  ghost function DotsOf(l: Layout, s: seq<byte>, ch: byte): set<Dot>
    requires |l.font.glyphs| == 256 && Pitch(l) >= 0
  {
    var (row, col, g) := (Row(l, s), Column(l, Segment(l, s)), l.font.glyphs[ch]);
    if Draws(l, ch) && Accepted(row, col, l.vheight, l.vwidth, g) && Fits(row, col, l.vheight, l.vwidth, g)
    then Shape(row, col, l.vheight, l.vwidth, g) else {}
  }

  /** The dots of label `k`: those of all characters that stand on it. */
  ghost function InkOf(l: Layout, s: seq<byte>, k: nat): set<Dot>
    requires |l.font.glyphs| == 256 && Pitch(l) >= 0
  {
    if s == [] then {}
    else
      var front := s[..|s| - 1];
      InkOf(l, front, k) + if Label(l, front) == k then DotsOf(l, front, s[|s| - 1]) else {}
  }

  /** The first `n` labels but for the blank ones. */
  ghost function NotBlank(l: Layout, s: seq<byte>, n: nat): seq<set<Dot>>
    requires |l.font.glyphs| == 256 && Pitch(l) >= 0
  {
    if n == 0 then []
    else NotBlank(l, s, n - 1) + if InkOf(l, s, n - 1) == {} then [] else [InkOf(l, s, n - 1)]
  }

  /** The labels that a text comes to. */
  ghost function LabelsOf(l: Layout, s: seq<byte>): seq<set<Dot>>
    requires |l.font.glyphs| == 256 && Pitch(l) >= 0
  {
    NotBlank(l, s, Label(l, s) + 1)
  }

  // ----- the layout is that

  /** The state after a text is what its characters say. */
  ghost predicate Stands(l: Layout, s: seq<byte>, st: State)
    requires |l.font.glyphs| == 256 && Pitch(l) >= 0
  {
    && st.row == Row(l, s) && st.col == Column(l, Segment(l, s))
    && st.ink == InkOf(l, s, Label(l, s)) && st.done == NotBlank(l, s, Label(l, s))
  }

  lemma {:induction false} NoInkLater(l: Layout, s: seq<byte>, k: nat)
    requires |l.font.glyphs| == 256 && Pitch(l) >= 0 && k > Label(l, s)
    ensures InkOf(l, s, k) == {}
  {
    if s != [] {
      LabelGrows(l, s[..|s| - 1], s[|s| - 1], s);
      NoInkLater(l, s[..|s| - 1], k);
    }
  }

  lemma {:induction false} LabelGrows(l: Layout, s: seq<byte>, ch: byte, s': seq<byte>)
    requires |l.font.glyphs| == 256 && Pitch(l) >= 0 && s' == s + [ch]
    ensures Label(l, s) <= Label(l, s') <= Label(l, s) + 1
    ensures EndsLabel(l, ch) ==> Label(l, s') == Label(l, s) + 1 && NewLines(l, s') == 0
    ensures !EndsLabel(l, ch) && !EndsLine(l, ch) ==> Label(l, s') == Label(l, s) && NewLines(l, s') == NewLines(l, s)
    ensures EndsLine(l, ch) ==> NewLines(l, s') == NewLines(l, s) + 1 && Earlier(l, s') == Earlier(l, s)
  {
    CountsNext(l, s, ch, s');
    OneLineOn(NewLines(l, s), Capacity(l));
    assert LabelOf(0, Capacity(l)) == 0;
  }

  lemma {:induction false} CountsNext(l: Layout, s: seq<byte>, ch: byte, s': seq<byte>)
    requires |l.font.glyphs| == 256 && Pitch(l) >= 0 && s' == s + [ch]
    ensures NewLines(l, s') == if EndsLabel(l, ch) then 0 else NewLines(l, s) + if EndsLine(l, ch) then 1 else 0
    ensures Earlier(l, s') == if EndsLabel(l, ch) then Label(l, s) + 1 else Earlier(l, s)
  {
    assert s'[..|s'| - 1] == s;
  }

  lemma {:induction false} InkNext(l: Layout, s: seq<byte>, ch: byte, s': seq<byte>, k: nat)
    requires |l.font.glyphs| == 256 && Pitch(l) >= 0 && s' == s + [ch]
    ensures InkOf(l, s', k) == InkOf(l, s, k) + if Label(l, s) == k then DotsOf(l, s, ch) else {}
  {
    assert s'[..|s'| - 1] == s;
  }

  lemma {:induction false} NotBlankNext(l: Layout, s: seq<byte>, ch: byte, s': seq<byte>, n: nat)
    requires |l.font.glyphs| == 256 && Pitch(l) >= 0 && s' == s + [ch] && n <= Label(l, s)
    ensures NotBlank(l, s', n) == NotBlank(l, s, n)
  {
    if n > 0 {
      NotBlankNext(l, s, ch, s', n - 1);
      InkNext(l, s, ch, s', n - 1);
    }
  }

  lemma {:induction false} SegmentNext(l: Layout, s: seq<byte>, ch: byte, s': seq<byte>)
    requires |l.font.glyphs| == 256 && s' == s + [ch]
    ensures Segment(l, s') == if GoesBack(l, ch) then [] else Segment(l, s) + [ch]
  {
    assert s'[..|s'| - 1] == s;
  }

  lemma {:induction false} ColumnNext(l: Layout, s: seq<byte>, ch: byte)
    requires |l.font.glyphs| == 256
    ensures var (before, g) := (Column(l, s), l.font.glyphs[ch]);
            Column(l, s + [ch]) ==
            if Draws(l, ch) then NextCol(before, g)
            else if ch != 9 then before + l.space
            else if l.space > 0 then TabStop(before, l.space)
            else before
  {
    assert (s + [ch])[..|s|] == s;
  }

  /** The column is told by the characters since the last that goes back. */
  lemma {:induction false} ColumnStands(l: Layout, s: seq<byte>, st: State, ch: byte, s': seq<byte>)
    requires Usable(l) && !l.squeeze && Stands(l, s, st) && s' == s + [ch] && Step(l, st, ch).Some?
    ensures Step(l, st, ch).value.col == Column(l, Segment(l, s'))
  {
    SegmentNext(l, s, ch, s');
    ColumnNext(l, Segment(l, s), ch);
  }

  /** Labels and rows are told by the newlines and form feeds. */
  lemma {:induction false} RowStands(l: Layout, s: seq<byte>, st: State, ch: byte, s': seq<byte>)
    requires Usable(l) && !l.squeeze && Stands(l, s, st) && s' == s + [ch] && Step(l, st, ch).Some?
    ensures Step(l, st, ch).value.row == Row(l, s')
  {
    LabelGrows(l, s, ch, s');
    if EndsLine(l, ch) {
      NewLineStands(l, s, st, s');
    }
  }

  /** A new label begins at a form feed, and at a newline exactly when the label is full. */
  lemma {:induction false} LabelBeginsIff(l: Layout, s: seq<byte>, ch: byte, s': seq<byte>)
    requires |l.font.glyphs| == 256 && Pitch(l) >= 0 && s' == s + [ch]
    ensures Label(l, s') > Label(l, s) <==> EndsLabel(l, ch) || (EndsLine(l, ch) && LineIsFull(l, s))
  {
    LabelGrows(l, s, ch, s');
    OneLineOn(NewLines(l, s), Capacity(l));
  }

  /** The next line does not fit on the label any more. */
  predicate LineIsFull(l: Layout, s: seq<byte>)
    requires |l.font.glyphs| == 256 && Pitch(l) >= 0
  {
    Capacity(l) != 0 && LineOf(NewLines(l, s), Capacity(l)) + 1 == Capacity(l)
  }

  lemma {:induction false} NewLineStands(l: Layout, s: seq<byte>, st: State, s': seq<byte>)
    requires Usable(l) && !l.squeeze && st.row == Row(l, s)
    requires NewLines(l, s') == NewLines(l, s) + 1 && Earlier(l, s') == Earlier(l, s)
    ensures NewLine(l, st) == if LineIsFull(l, s) then NewLabel(l, st) else st.(row := Row(l, s'), col := 0)
    ensures LineIsFull(l, s) ==> Row(l, s') == l.font.ascent
    ensures Label(l, s') > Label(l, s) <==> LineIsFull(l, s)
  {
    var n, m, p := NewLines(l, s), Capacity(l), Pitch(l);
    var k := LineOf(n, m) + 1;
    OneLineOn(n, m);
    CapacityIff(l, k);
    LinesDown(LineOf(n, m), p);
    assert st.row + l.font.descent + l.font.ascent + l.font.descent == (k + 1) * p;
  }

  lemma {:induction false} LinesDown(k: nat, p: nat)
    ensures (k + 1) * p == k * p + p && (k + 2) * p == k * p + p + p && k * p >= 0
  {
  }

  lemma {:induction false} InkStands(l: Layout, s: seq<byte>, st: State, ch: byte, s': seq<byte>)
    requires Usable(l) && !l.squeeze && Stands(l, s, st) && s' == s + [ch] && Step(l, st, ch).Some?
    ensures var st' := Step(l, st, ch).value;
            st'.ink == InkOf(l, s', Label(l, s')) && st'.done == NotBlank(l, s', Label(l, s'))
  {
    LabelGrows(l, s, ch, s');
    if Draws(l, ch) {
      GlyphInks(l, s, st, ch, s');
    } else {
      InkStays(l, s, ch, s');
      if EndsLine(l, ch) {
        NewLineStands(l, s, st, s');
      }
    }
  }

  lemma {:induction false} GlyphInks(l: Layout, s: seq<byte>, st: State, ch: byte, s': seq<byte>)
    requires Usable(l) && Stands(l, s, st) && s' == s + [ch] && Draws(l, ch) && Label(l, s') == Label(l, s)
    requires DrawGlyph(l, st, l.font.glyphs[ch]).Some?
    ensures var st' := DrawGlyph(l, st, l.font.glyphs[ch]).value;
            st'.ink == InkOf(l, s', Label(l, s)) && st'.done == NotBlank(l, s', Label(l, s))
  {
    InkNext(l, s, ch, s', Label(l, s));
    NotBlankNext(l, s, ch, s', Label(l, s));
  }

  /** Characters without a glyph leave the labels as they are. */
  lemma {:induction false} InkStays(l: Layout, s: seq<byte>, ch: byte, s': seq<byte>)
    requires |l.font.glyphs| == 256 && Pitch(l) >= 0 && s' == s + [ch] && !Draws(l, ch)
    ensures var k := Label(l, s);
            && InkOf(l, s', k) == InkOf(l, s, k) && NotBlank(l, s', k) == NotBlank(l, s, k)
            && InkOf(l, s', k + 1) == {}
            && NotBlank(l, s', k + 1) == NotBlank(l, s, k) + if InkOf(l, s, k) == {} then [] else [InkOf(l, s, k)]
  {
    var k := Label(l, s);
    InkNext(l, s, ch, s', k);
    InkNext(l, s, ch, s', k + 1);
    NotBlankNext(l, s, ch, s', k);
    NoInkLater(l, s, k + 1);
  }

  /** After a text the layout stands where its characters say, and each label has the dots of those that
      stand on it. */
  lemma {:induction false} TextStands(l: Layout, s: seq<byte>)
    requires Usable(l) && !l.squeeze && Steps(l, Start(l), s).Some?
    ensures Stands(l, s, Steps(l, Start(l), s).value)
  {
    if s != [] {
      var front, ch := s[..|s| - 1], s[|s| - 1];
      var st := Steps(l, Start(l), front).value;
      assert s == front + [ch];
      TextStands(l, front);
      ColumnStands(l, front, st, ch, s);
      RowStands(l, front, st, ch, s);
      InkStands(l, front, st, ch, s);
    }
  }

  // ----- texts

  /** The characters of a text that are laid out: those of its lines, without backspaces and what they take
      away; None when a backspace has nothing to take away. */
  function Kept(text: seq<byte>, room: nat): Option<seq<byte>>
    requires room > 0
    decreases |text|
  {
    if text == [] then Some([])
    else
      var n := ReadLen(text, room);
      match (Erase(UpToNul(text[..n])), Kept(text[n..], room))
      case (Some(line), Some(rest)) => Some(line + rest)
      case _ => None
  }

  lemma {:induction false} StepsJoin(l: Layout, st: State, a: seq<byte>, b: seq<byte>)
    requires Checked(l.font)
    ensures Steps(l, st, a + b) ==
            if Steps(l, st, a).None? then None else Steps(l, Steps(l, st, a).value, b)
    decreases |b|
  {
    if b == [] {
      assert a + b == a;
    } else {
      var front, ch := b[..|b| - 1], b[|b| - 1];
      assert (a + b)[..|a + b| - 1] == a + front && (a + b)[|a + b| - 1] == ch;
      StepsJoin(l, st, a, front);
    }
  }

  /** Laying out a text is laying out the characters kept. */
  lemma {:induction false} LayIsSteps(l: Layout, st: State, text: seq<byte>, room: nat)
    requires Checked(l.font) && room > 0
    ensures Lay(l, st, text, room) == if Kept(text, room).None? then None else Steps(l, st, Kept(text, room).value)
    decreases |text|
  {
    if text != [] {
      var n := ReadLen(text, room);
      var line, rest := Erase(UpToNul(text[..n])), text[n..];
      if line.Some? {
        if Kept(rest, room).Some? {
          StepsJoin(l, st, line.value, Kept(rest, room).value);
        }
        if Steps(l, st, line.value).Some? {
          LayIsSteps(l, Steps(l, st, line.value).value, rest, room);
        }
      }
    }
  }

  /** The characters that count when blank lines at the top of a label are left out: all but the newlines
      met on a blank label. */
  ghost function Squeezed(l: Layout, s: seq<byte>): seq<byte>
    requires |l.font.glyphs| == 256 && Pitch(l) >= 0
  {
    if s == [] then []
    else
      var (before, ch) := (Squeezed(l, s[..|s| - 1]), s[|s| - 1]);
      if EndsLine(l, ch) && InkOf(l, before, Label(l, before)) == {} then before else before + [ch]
  }

  /** With the squeeze option the layout is that of the text without these newlines; they do not even go back
      to the first column. */
  lemma {:induction false} SqueezedStands(l: Layout, l': Layout, s: seq<byte>)
    requires Usable(l) && !l.squeeze && l' == l.(squeeze := true)
    ensures Steps(l', Start(l), s) == Steps(l, Start(l), Squeezed(l, s))
  {
    if s != [] {
      var front, ch := s[..|s| - 1], s[|s| - 1];
      var before := Squeezed(l, front);
      SqueezedStands(l, l', front);
      StepsJoin(l, Start(l), before, [ch]);
      if Steps(l, Start(l), before).Some? {
        var st := Steps(l, Start(l), before).value;
        TextStands(l, before);
        SqueezedStep(l, l', before, st, ch);
        OneStep(l, st, ch);
      }
    }
  }

  lemma {:induction false} SqueezedStep(l: Layout, l': Layout, s: seq<byte>, st: State, ch: byte)
    requires Usable(l) && !l.squeeze && l' == l.(squeeze := true) && Stands(l, s, st)
    ensures Step(l', st, ch) ==
            if EndsLine(l, ch) && InkOf(l, s, Label(l, s)) == {} then Some(st) else Step(l, st, ch)
  {
  }

  lemma {:induction false} OneStep(l: Layout, st: State, ch: byte)
    requires Checked(l.font)
    ensures Steps(l, st, [ch]) == Step(l, st, ch)
  {
    assert [ch][..0] == [] && Steps(l, st, []) == Some(st);
  }

  /** The characters of a text that count. */
  ghost function Counted(l: Layout, text: seq<byte>, room: nat): seq<byte>
    requires |l.font.glyphs| == 256 && Pitch(l) >= 0 && room > 0 && Kept(text, room).Some?
  {
    if l.squeeze then Squeezed(l.(squeeze := false), Kept(text, room).value) else Kept(text, room).value
  }

  /** A whole text comes to the labels that its characters say. */
  lemma {:induction false} LabelsOfText(l: Layout, text: seq<byte>, room: nat)
    requires Usable(l) && room > 0 && Lay(l, Start(l), text, room).Some?
    ensures Kept(text, room).Some?
    ensures var plain := l.(squeeze := false);
            Labels(Lay(l, Start(l), text, room).value) == LabelsOf(plain, Counted(l, text, room))
  {
    var plain := l.(squeeze := false);
    LayIsSteps(l, Start(l), text, room);
    if l.squeeze {
      SqueezedStands(plain, l, Kept(text, room).value);
    }
    var s := Counted(l, text, room);
    assert plain.(squeeze := l.squeeze) == l;
    TextStands(plain, s);
  }

  // ----- what that means

  /** Glyphs without bearings stand side by side from the left edge of the page, on the baseline that the
      newlines before their line lead to. */
  lemma {:induction false} LineStands(l: Layout, before: seq<byte>, line: seq<byte>)
    requires Usable(l) && !l.squeeze && (before == [] || EndsLine(l, before[|before| - 1]))
    requires forall i | 0 <= i < |line| :: Draws(l, line[i]) && l.font.glyphs[line[i]].lbearing == 0
    requires Steps(l, Start(l), before + line).Some?
    ensures var st, n, m := Steps(l, Start(l), before + line).value, NewLines(l, before), Capacity(l);
            && st.col == Widths(l, line)
            && st.row == l.font.ascent + (if m == 0 then n else n % m) * Pitch(l)
  {
    TextStands(l, before + line);
    SegmentIsLine(l, before, line);
    ColumnIsWidths(l, line);
    NewLinesOfLine(l, before, line);
  }

  lemma {:induction false} NewLinesOfLine(l: Layout, before: seq<byte>, line: seq<byte>)
    requires |l.font.glyphs| == 256 && forall i | 0 <= i < |line| :: Draws(l, line[i])
    ensures NewLines(l, before + line) == NewLines(l, before)
    decreases |line|
  {
    if line == [] {
      assert before + line == before;
    } else {
      assert (before + line)[..|before + line| - 1] == before + line[..|line| - 1];
      NewLinesOfLine(l, before, line[..|line| - 1]);
    }
  }

  /** A label that is exactly `n` lines high has room for all of them but the last. */
  lemma {:induction false} ExactLineIsMoved(l: Layout, n: nat)
    requires Pitch(l) > 0 && n >= 2 && l.vheight == n * Pitch(l)
    ensures Capacity(l) == n - 1
  {
    OneLineLess(Pitch(l), n, l.vheight - 1);
  }

  lemma {:induction false} OneLineLess(p: nat, n: nat, x: nat)
    requires p > 0 && n > 0 && x + 1 == n * p
    ensures x / p == n - 1
  {
    var q, r := x / p, x % p;
    assert x == (n - 1) * p + (p - 1);
    QuotientIsUnique(p, n - 1, p - 1, q, r);
  }

  /** A carriage return goes back to the first column of its line. */
  lemma {:induction false} ReturnStands(l: Layout, s: seq<byte>, s': seq<byte>)
    requires |l.font.glyphs| == 256 && Pitch(l) >= 0 && !Draws(l, 13) && s' == s + [13]
    ensures Segment(l, s') == [] && Row(l, s') == Row(l, s) && Label(l, s') == Label(l, s)
  {
    SegmentNext(l, s, 13, s');
    LabelGrows(l, s, 13, s');
  }

  /** A form feed goes to the top of the next label, whether this one is blank or not. */
  lemma {:induction false} FeedStands(l: Layout, s: seq<byte>, s': seq<byte>)
    requires |l.font.glyphs| == 256 && Pitch(l) >= 0 && !Draws(l, 12) && s' == s + [12]
    ensures Segment(l, s') == [] && Row(l, s') == l.font.ascent && Label(l, s') == Label(l, s) + 1
  {
    SegmentNext(l, s, 12, s');
    LabelGrows(l, s, 12, s');
    assert LineOf(0, Capacity(l)) == 0;
  }

  /** A character without a glyph takes a space. */
  lemma {:induction false} SpaceStands(l: Layout, s: seq<byte>, ch: byte, s': seq<byte>)
    requires |l.font.glyphs| == 256 && Pitch(l) >= 0 && !Draws(l, ch) && s' == s + [ch]
    requires ch != 9 && ch != 10 && ch != 12 && ch != 13
    ensures Column(l, Segment(l, s')) == Column(l, Segment(l, s)) + l.space
    ensures Row(l, s') == Row(l, s) && Label(l, s') == Label(l, s)
  {
    SegmentNext(l, s, ch, s');
    ColumnNext(l, Segment(l, s), ch);
    LabelGrows(l, s, ch, s');
  }

  /** A newline that is squeezed out leaves the place where it is, the column too. */
  lemma {:induction false} SqueezedNewlineStays(l: Layout, st: State)
    requires Checked(l.font) && l.squeeze && l.font.glyphs[10].width == 0 && st.ink == {}
    ensures Steps(l, st, [10]) == Some(st)
  {
    OneStep(l, st, 10);
  }
}
