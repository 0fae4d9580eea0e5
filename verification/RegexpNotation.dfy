/** The notation of expressions, spelling by spelling, and what each spelling compiles to. */
module RegexpNotation {
  import opened Bytes
  import opened Options
  import opened RegexpCode
  import opened RegexpCompile
  import opened RegexpCompiled

  // ----- written texts

  /** `xs` is written in `text` from `i` on. */
  predicate WrittenAt(xs: seq<byte>, text: seq<byte>, i: nat) {
    i + |xs| <= |text| && forall k :: 0 <= k < |xs| ==> xs[k] == text[i + k]
  }

  lemma {:induction false} WrittenSplit(xs: seq<byte>, ys: seq<byte>, text: seq<byte>, i: nat)
    requires WrittenAt(xs + ys, text, i)
    ensures WrittenAt(xs, text, i) && WrittenAt(ys, text, i + |xs|)
  {
    forall k | 0 <= k < |xs| ensures xs[k] == text[i + k] {
      assert xs[k] == (xs + ys)[k];
    }
    forall k | 0 <= k < |ys| ensures ys[k] == text[i + |xs| + k] {
      assert ys[k] == (xs + ys)[|xs| + k];
    }
  }

  lemma {:induction false} WrittenInFull(before: seq<byte>, xs: seq<byte>, after: seq<byte>)
    ensures WrittenAt(xs, before + xs + after, |before|)
  {
  }

  lemma {:induction false} WrittenFirst(xs: seq<byte>, text: seq<byte>, i: nat)
    requires WrittenAt(xs, text, i) && xs != []
    ensures i < |text| && text[i] == xs[0]
  {
    assert xs[0] == text[i + 0];
  }

  lemma {:induction false} WrittenInside(before: seq<byte>, xs: seq<byte>, after: seq<byte>, tail: seq<byte>)
    ensures var text, end := before + xs + after + tail, |before| + |xs|;
            WrittenAt(xs, text, |before|) && end <= |text| && text[end..] == after + tail
  {
    assert before + xs + after + tail == before + xs + (after + tail);
    WrittenInFull(before, xs, after + tail);
  }

  lemma {:induction false} ClassParts(head: seq<byte>, body: seq<byte>, text: seq<byte>, i: nat)
    requires WrittenAt(head + body + [RBRACKET], text, i)
    ensures var j := i + |head|;
            var end := j + |body|;
            WrittenAt(head, text, i) && WrittenAt(body, text, j) && end < |text| && text[end] == RBRACKET
  {
    WrittenSplit(head + body, [RBRACKET], text, i);
    WrittenSplit(head, body, text, i);
    WrittenFirst([RBRACKET], text, i + |head| + |body|);
  }

  function StartState(bol: bool): State {
    if bol then State([Sbol, LPar(0)], false, 0, [], 1) else State([LPar(0)], false, 0, [], 0)
  }

  // ----- characters

  type digit = d: int | 0 <= d < 8

  /** A way to write a character: as it is, a letter after a backslash, or octal digits after one. */
  datatype Mark = Bare(c: byte) | Letter(c: byte) | Oct1(d: digit) | Oct2(d: digit, e: digit)
                | Oct3(d: digit, e: digit, f: digit)

  function MarkText(m: Mark): (s: seq<byte>)
    ensures s != []
  {
    match m
    case Bare(c) => [c]
    case Letter(c) => [92, c]
    case Oct1(d) => [92, 48 + d]
    case Oct2(d, e) => [92, 48 + d, 48 + e]
    case Oct3(d, e, f) => [92, 48 + d, 48 + e, 48 + f]
  }

  /** The character that is meant: backspace, form feed, newline, return, tab and vertical tab have letters;
      octal numbers are stored in a byte. */
  function MarkCode(m: Mark): byte {
    match m
    case Bare(c) => c
    case Letter(c) =>
      if c == 'b' as int then 8 else if c == 'f' as int then 12 else if c == 'n' as int then 10
      else if c == 'r' as int then 13 else if c == 't' as int then 9 else if c == 'v' as int then 11 else c
    case Oct1(d) => d
    case Oct2(d, e) => d * 8 + e
    case Oct3(d, e, f) => (d * 64 + e * 8 + f) % 256
  }

  predicate IsDigit(c: byte) {
    '0' as int <= c <= '7' as int
  }

  /** A spelling means that when character `next` comes after it. */
  predicate MarkOk(m: Mark, next: byte) {
    match m
    case Bare(c) => c != 0 && c != 92
    case Letter(c) => c != 0 && !IsDigit(c)
    case Oct1(_) => !IsDigit(next)
    case Oct2(_, _) => !IsDigit(next)
    case Oct3(_, _, _) => true
  }

  lemma {:induction false} Written(xs: seq<byte>, text: seq<byte>, i: nat, k: nat)
    requires WrittenAt(xs, text, i) && k < |xs|
    ensures i + k < |text| && text[i + k] == xs[k]
  {
  }

  lemma {:induction false} MarkIsEscaped(m: Mark, text: seq<byte>, i: nat)
    requires WrittenAt(MarkText(m), text, i) && MarkOk(m, Peek(text, i + |MarkText(m)|))
    ensures i < |text| && Escaped(text, i) == (MarkCode(m), i + |MarkText(m)| - 1)
    ensures text[i] == MarkText(m)[0]
  {
    Written(MarkText(m), text, i, 0);
    match m
    case Bare(_) =>
    case Letter(c) =>
      Written([92, c], text, i, 1);
    case Oct1(d) =>
      Written([92, 48 + d], text, i, 1);
      OneDigit(d, text, i);
    case Oct2(d, e) =>
      Written([92, 48 + d, 48 + e], text, i, 1);
      Written([92, 48 + d, 48 + e], text, i, 2);
      TwoDigits(d, e, text, i);
    case Oct3(d, e, f) =>
      ThreeWritten(d, e, f, text, i);
      ThreeDigits(d, e, f, text, i);
  }

  lemma {:induction false} ThreeWritten(d: digit, e: digit, f: digit, text: seq<byte>, i: nat)
    requires WrittenAt([92, 48 + d, 48 + e, 48 + f], text, i)
    ensures i + 4 <= |text| && text[i + 1] == 48 + d && text[i + 2] == 48 + e && text[i + 3] == 48 + f
  {
    Written([92, 48 + d, 48 + e, 48 + f], text, i, 1);
    Written([92, 48 + d, 48 + e, 48 + f], text, i, 2);
    Written([92, 48 + d, 48 + e, 48 + f], text, i, 3);
  }

  lemma {:induction false} OneDigit(d: digit, text: seq<byte>, i: nat)
    requires i + 2 <= |text| && text[i + 1] == 48 + d && !IsDigit(Peek(text, i + 2))
    ensures Escape(text, i) == (d, i + 1)
  {
  }

  lemma {:induction false} TwoDigits(d: digit, e: digit, text: seq<byte>, i: nat)
    requires i + 3 <= |text| && text[i + 1] == 48 + d && text[i + 2] == 48 + e && !IsDigit(Peek(text, i + 3))
    ensures Escape(text, i) == (d * 8 + e, i + 2)
  {
    assert OctalFrom(text, i + 3, 1, d * 8 + e) == (d * 8 + e, i + 2);
  }

  lemma {:induction false} ThreeDigits(d: digit, e: digit, f: digit, text: seq<byte>, i: nat)
    requires i + 4 <= |text| && text[i + 1] == 48 + d && text[i + 2] == 48 + e && text[i + 3] == 48 + f
    ensures Escape(text, i) == ((d * 64 + e * 8 + f) % 256, i + 3)
  {
    assert OctalFrom(text, i + 4, 0, d * 64 + e * 8 + f) == (d * 64 + e * 8 + f, i + 3);
    assert OctalFrom(text, i + 3, 1, d * 8 + e) == (d * 64 + e * 8 + f, i + 3);
  }

  // ----- classes

  /** A member of a class: a character, or a range of them. */
  datatype Member = OneOf(m: Mark) | Range(lo: Mark, hi: Mark)

  function MemberText(m: Member): (s: seq<byte>)
    ensures s != []
  {
    match m
    case OneOf(m) => MarkText(m)
    case Range(lo, hi) => MarkText(lo) + [45] + MarkText(hi)
  }

  function MemberItem(m: Member): Item {
    match m
    case OneOf(m) => One(MarkCode(m))
    case Range(lo, hi) => Span(MarkCode(lo), MarkCode(hi))
  }

  /** A bare `]` ends the class, and a bare `-` after a character, unless it is the last, makes a range. */
  predicate InClass(m: Mark, after: bool, next: byte) {
    m.Bare? ==> m.c != 93 && (m.c == 45 ==> !after || next == 93)
  }

  predicate MemberOk(m: Member, after: bool, next: byte) {
    match m
    case OneOf(m) => MarkOk(m, next) && InClass(m, after, next)
    case Range(lo, hi) => MarkOk(lo, 45) && InClass(lo, after, 45) && MarkOk(hi, next) && (hi.Bare? ==> hi.c != 93)
  }

  function MembersText(ms: seq<Member>): seq<byte> {
    if ms == [] then [] else MemberText(ms[0]) + MembersText(ms[1..])
  }

  function MembersItems(ms: seq<Member>): seq<Item> {
    if ms == [] then [] else [MemberItem(ms[0])] + MembersItems(ms[1..])
  }

  function FirstOfMembers(ms: seq<Member>): byte {
    if ms == [] then 93 else MemberText(ms[0])[0]
  }

  predicate MembersOk(ms: seq<Member>, after: bool) {
    ms == [] || (MemberOk(ms[0], after, FirstOfMembers(ms[1..])) && MembersOk(ms[1..], ms[0].OneOf?))
  }

  lemma {:induction false} OneScans(m: Mark, text: seq<byte>, cs: ClassScan, end: nat)
    requires cs.Valid() && WrittenAt(MarkText(m), text, cs.at) && end == cs.at + |MarkText(m)|
    requires MarkOk(m, Peek(text, end)) && InClass(m, cs.ranok, Peek(text, end))
    ensures ScanItems(text, cs) == ScanItems(text, ClassScan(cs.items + [One(MarkCode(m))], end, true))
  {
    MarkIsEscaped(m, text, cs.at);
    assert NextItem(text, cs) == Some(ClassScan(cs.items + [One(MarkCode(m))], end, true));
  }

  lemma {:induction false} RangeScans(lo: byte, hi: Mark, text: seq<byte>, items: seq<Item>, i: nat, end: nat)
    requires WrittenAt([45] + MarkText(hi), text, i) && end == i + 1 + |MarkText(hi)|
    requires MarkOk(hi, Peek(text, end)) && (hi.Bare? ==> hi.c != 93)
    ensures ScanItems(text, ClassScan(items + [One(lo)], i, true))
         == ScanItems(text, ClassScan(items + [Span(lo, MarkCode(hi))], end, false))
  {
    WrittenSplit([45], MarkText(hi), text, i);
    WrittenFirst([45], text, i);
    MarkIsEscaped(hi, text, i + 1);
    SpanIsNext(text, items + [One(lo)], i, items, lo);
  }

  lemma {:induction false} MemberScans(m: Member, text: seq<byte>, cs: ClassScan, end: nat, own: seq<byte>)
    requires own == MemberText(m) && cs.Valid() && WrittenAt(own, text, cs.at) && end == cs.at + |own|
    requires MemberOk(m, cs.ranok, Peek(text, end))
    ensures ScanItems(text, cs) == ScanItems(text, ClassScan(cs.items + [MemberItem(m)], end, m.OneOf?))
  {
    match m
    case OneOf(m) => OneScans(m, text, cs, end);
    case Range(lo, hi) =>
      var mid := cs.at + |MarkText(lo)|;
      assert MemberText(m) == MarkText(lo) + ([45] + MarkText(hi));
      WrittenSplit(MarkText(lo), [45] + MarkText(hi), text, cs.at);
      WrittenSplit([45], MarkText(hi), text, mid);
      WrittenFirst([45], text, mid);
      OneOfRange(lo, text, cs, mid);
      RangeScans(MarkCode(lo), hi, text, cs.items, mid, end);
  }

  lemma {:induction false} OneOfRange(lo: Mark, text: seq<byte>, cs: ClassScan, mid: nat)
    requires cs.Valid() && WrittenAt(MarkText(lo), text, cs.at) && mid == cs.at + |MarkText(lo)|
    requires MarkOk(lo, 45) && InClass(lo, cs.ranok, 45) && mid < |text| && text[mid] == 45
    ensures ScanItems(text, cs) == ScanItems(text, ClassScan(cs.items + [One(MarkCode(lo))], mid, true))
  {
    OneScans(lo, text, cs, mid);
  }

  lemma {:induction false} FirstIsPeeked(xs: seq<byte>, text: seq<byte>, i: nat)
    requires WrittenAt(xs, text, i) && xs != []
    ensures Peek(text, i) == xs[0]
  {
    WrittenFirst(xs, text, i);
  }

  lemma {:induction false} MembersScan(ms: seq<Member>, text: seq<byte>, cs: ClassScan, end: nat, own: seq<byte>)
    requires cs.Valid() && own == MembersText(ms) && WrittenAt(own, text, cs.at) && end == cs.at + |own|
    requires end < |text| && text[end] == 93 && MembersOk(ms, cs.ranok)
    ensures ScanItems(text, cs) == Some((cs.items + MembersItems(ms), end))
    decreases |ms|, 1
  {
    if ms == [] {
      assert cs.items + [] == cs.items;
    } else {
      MembersScanOn(ms, text, cs, end, MemberText(ms[0]), MembersText(ms[1..]));
    }
  }

  lemma {:induction false} MembersScanOn(ms: seq<Member>, text: seq<byte>, cs: ClassScan, end: nat,
                                         first: seq<byte>, rest: seq<byte>)
    requires ms != [] && first == MemberText(ms[0]) && rest == MembersText(ms[1..])
    requires cs.Valid() && WrittenAt(first + rest, text, cs.at) && end == cs.at + |first| + |rest|
    requires end < |text| && text[end] == 93 && MembersOk(ms, cs.ranok)
    ensures ScanItems(text, cs) == Some((cs.items + MembersItems(ms), end))
    decreases |ms|, 0
  {
    var mid := cs.at + |first|;
    WrittenSplit(first, rest, text, cs.at);
    FirstOfRest(ms[1..], text, mid, rest);
    MemberScans(ms[0], text, cs, mid, first);
    MembersScan(ms[1..], text, ClassScan(cs.items + [MemberItem(ms[0])], mid, ms[0].OneOf?), end, rest);
    ItemsJoin(cs.items, ms);
  }

  lemma {:induction false} ItemsJoin(items: seq<Item>, ms: seq<Member>)
    requires ms != []
    ensures items + [MemberItem(ms[0])] + MembersItems(ms[1..]) == items + MembersItems(ms)
  {
  }

  lemma {:induction false} FirstOfRest(ms: seq<Member>, text: seq<byte>, i: nat, own: seq<byte>)
    requires own == MembersText(ms) && WrittenAt(own, text, i) && i + |own| < |text| && text[i + |own|] == 93
    ensures Peek(text, i) == FirstOfMembers(ms)
  {
    if ms != [] {
      assert own[0] == MemberText(ms[0])[0];
      FirstIsPeeked(own, text, i);
    }
  }

  /** A character is one of the members: it is one, or lies in a range, ends included. */
  ghost predicate IsMember(ms: seq<Member>, c: byte) {
    exists k :: 0 <= k < |ms| &&
      match ms[k]
      case OneOf(m) => c == MarkCode(m)
      case Range(lo, hi) => MarkCode(lo) <= c <= MarkCode(hi)
  }

  /** A class stands for its members, a negated one for all other characters but newline. */
  lemma {:induction false} ClassStandsFor(negated: bool, ms: seq<Member>, c: byte)
    ensures Accepts(Class(negated, MembersItems(ms)), c) <==>
            if negated then c != 10 && !IsMember(ms, c) else IsMember(ms, c)
    ensures Accepts(Any, c) <==> c != 10
  {
    var items := MembersItems(ms);
    forall k | 0 <= k < |ms| ensures k < |items| && items[k] == MemberItem(ms[k]) {
      ItemOfMember(ms, k);
    }
    ItemsOfMembers(ms);
  }

  lemma {:induction false} ItemsOfMembers(ms: seq<Member>)
    ensures |MembersItems(ms)| == |ms|
  {
    if ms != [] {
      ItemsOfMembers(ms[1..]);
    }
  }

  lemma {:induction false} ItemOfMember(ms: seq<Member>, k: nat)
    requires k < |ms|
    ensures k < |MembersItems(ms)| && MembersItems(ms)[k] == MemberItem(ms[k])
  {
    if k > 0 {
      ItemOfMember(ms[1..], k - 1);
    }
  }

  // ----- elements

  /** What matches one character, or a tag with the parenthesis that belongs to it. */
  datatype Atom = Sym(m: Mark) | Quest | Cls(negated: bool, ms: seq<Member>) | Dollar | Tag(open: bool)

  function AtomText(a: Atom): (s: seq<byte>)
    ensures s != []
  {
    match a
    case Sym(m) => MarkText(m)
    case Quest => [63]
    case Cls(negated, ms) => (if negated then [91, 33] else [91]) + MembersText(ms) + [93]
    case Dollar => [36]
    case Tag(open) => [92, if open then 40 else 41]
  }

  /** What an atom matches. A tag matches its own parenthesis. */
  function AtomSingle(a: Atom): Single {
    match a
    case Sym(m) => Lit(MarkCode(m))
    case Quest => Any
    case Cls(negated, ms) => Class(negated, MembersItems(ms))
    case Dollar => Lit(36)
    case Tag(open) => Lit(if open then 40 else 41)
  }

  /** An atom, closed by `^` or not; `*`; or a `^` that closes nothing. */
  datatype Word = Unit(a: Atom, closed: bool) | Star | Up

  function WordText(w: Word): (s: seq<byte>)
    ensures s != []
  {
    match w
    case Unit(a, closed) => AtomText(a) + if closed then [94] else []
    case Star => [42]
    case Up => [94]
  }

  /** The tags: how many were opened, and which are open. */
  datatype Tags = Tags(n: nat, open: seq<tag>)

  /** A tag is compiled if it is one of the first nine. */
  function TagElems(a: Atom, t: Tags): seq<Elem> {
    if !a.Tag? then []
    else if a.open then (if t.n < 9 then [LPar(t.n + 1)] else [])
    else if t.n >= 10 || t.open == [] then []
    else [RPar(t.open[|t.open| - 1])]
  }

  function TagsAfter(w: Word, t: Tags): Tags {
    if !w.Unit? || !w.a.Tag? then t
    else if w.a.open then Tags(t.n + 1, if t.n < 9 then t.open + [t.n + 1] else t.open)
    else if t.n >= 10 then Tags(t.n - 1, t.open)
    else if t.open == [] then t
    else Tags(t.n, t.open[..|t.open| - 1])
  }

  function WordElems(w: Word, t: Tags): seq<Elem> {
    match w
    case Unit(a, closed) => TagElems(a, t) + [if closed then Close(AtomSingle(a)) else Char(AtomSingle(a))]
    case Star => [Close(Any)]
    case Up => [Char(Lit(94))]
  }

  /** A bare character is none of `? * $ ^ [`. */
  predicate AtomOk(a: Atom, t: Tags, delim: byte, next: byte) {
    match a
    case Sym(m) =>
      && MarkOk(m, next) && (m.Letter? ==> m.c != 40 && m.c != 41)
      && (m.Bare? ==> m.c != 63 && m.c != 42 && m.c != 36 && m.c != 94 && m.c != 91)
    case Quest => true
    case Cls(negated, ms) => MembersOk(ms, false) && (!negated ==> FirstOfMembers(ms) != 33)
    case Dollar => next != 0 && next != delim
    case Tag(open) => (if open then delim != 40 else delim != 41) && (open || t.n >= 10 || t.open != [])
  }

  /** A word means that where it stands; `closable` tells whether a `^` would close what is before it. */
  predicate WordOk(w: Word, closable: bool, t: Tags, delim: byte, next: byte) {
    && WordText(w)[0] != delim
    && match w
       case Unit(a, closed) => AtomOk(a, t, delim, if closed then 94 else next) && (closed ==> delim != 94)
       case Star => true
       case Up => !closable
  }

  function Text(ws: seq<Word>): seq<byte> {
    if ws == [] then [] else WordText(ws[0]) + Text(ws[1..])
  }

  function Meaning(ws: seq<Word>, t: Tags): seq<Elem> {
    if ws == [] then [] else WordElems(ws[0], t) + Meaning(ws[1..], TagsAfter(ws[0], t))
  }

  function AllTags(ws: seq<Word>, t: Tags): Tags {
    if ws == [] then t else AllTags(ws[1..], TagsAfter(ws[0], t))
  }

  /** The first character of some words, or of what comes after them. */
  function First(ws: seq<Word>, after: byte): byte {
    if ws == [] then after else WordText(ws[0])[0]
  }

  predicate WordsOk(ws: seq<Word>, closable: bool, t: Tags, delim: byte, after: byte) {
    ws == [] ||
    (WordOk(ws[0], closable, t, delim, First(ws[1..], after))
     && WordsOk(ws[1..], ws[0].Unit? && !ws[0].closed, TagsAfter(ws[0], t), delim, after))
  }

  // ----- translating them

  lemma {:induction false} ClassIsNext(negated: bool, ms: seq<Member>, text: seq<byte>, i: nat,
                                       head: seq<byte>, body: seq<byte>)
    requires head == (if negated then [91, 33] else [91]) && body == MembersText(ms)
    requires WrittenAt(head + body + [93], text, i) && MembersOk(ms, false) && (!negated ==> FirstOfMembers(ms) != 33)
    ensures i < |text| && text[i] == 91
    ensures ScanClass(text, i) == Some((Class(negated, MembersItems(ms)), i + |head| + |body|))
  {
    var j := i + |head|;
    ClassParts(head, body, text, i);
    WrittenFirst(head, text, i);
    FirstOfRest(ms, text, j, body);
    if negated {
      Written(head, text, i, 1);
    }
    ClassScansOn(negated, ms, text, i, j, j + |body|, body);
  }

  lemma {:induction false} ClassScansOn(negated: bool, ms: seq<Member>, text: seq<byte>, i: nat, j: nat, end: nat,
                                        body: seq<byte>)
    requires j == (if negated then i + 2 else i + 1) && (Peek(text, i + 1) == 33 <==> negated)
    requires body == MembersText(ms) && WrittenAt(body, text, j) && end == j + |body|
    requires end < |text| && text[end] == 93 && MembersOk(ms, false)
    ensures ScanClass(text, i) == Some((Class(negated, MembersItems(ms)), end))
  {
    MembersScan(ms, text, ClassScan([], j, false), end, body);
    assert [] + MembersItems(ms) == MembersItems(ms);
  }

  lemma {:induction false} SymTranslates(m: Mark, text: seq<byte>, delim: byte, st: State, end: nat)
    requires AtomOk(Sym(m), Tags(st.nlp, st.stack), delim, Peek(text, end))
    requires WrittenAt(MarkText(m), text, st.at) && end == st.at + |MarkText(m)|
    ensures st.at < |text| && text[st.at] == MarkText(m)[0]
    ensures Step(text, delim, st) == Go(st.Add(Char(Lit(MarkCode(m))), end))
  {
    MarkIsEscaped(m, text, st.at);
    if |MarkText(m)| > 1 {
      Written(MarkText(m), text, st.at, 1);
    }
    assert !AtTag(text, st.at);
  }

  lemma {:induction false} ClsTranslates(negated: bool, ms: seq<Member>, text: seq<byte>, delim: byte, st: State,
                                         k: nat, head: seq<byte>, body: seq<byte>, s: Single)
    requires head == (if negated then [91, 33] else [91]) && body == MembersText(ms)
    requires MembersOk(ms, false) && (!negated ==> FirstOfMembers(ms) != 33)
    requires WrittenAt(head + body + [93], text, st.at) && k == st.at + |head| + |body|
    requires s == Class(negated, MembersItems(ms))
    ensures st.at < |text| && text[st.at] == 91 && Step(text, delim, st) == Go(st.Add(Char(s), k + 1))
  {
    ClassIsNext(negated, ms, text, st.at, head, body);
    ClassSteps(text, delim, st, s, k);
  }

  lemma {:induction false} ClassSteps(text: seq<byte>, delim: byte, st: State, s: Single, k: nat)
    requires st.at < |text| && text[st.at] == 91 && ScanClass(text, st.at) == Some((s, k))
    ensures Step(text, delim, st) == Go(st.Add(Char(s), k + 1))
  {
    assert NextElem(text, delim, st.at) == Some((Char(s), k + 1));
  }

  /** An atom that is no tag is one turn. */
  lemma {:induction false} AtomTranslates(a: Atom, text: seq<byte>, delim: byte, st: State, end: nat)
    requires !a.Tag? && AtomOk(a, Tags(st.nlp, st.stack), delim, Peek(text, end))
    requires WrittenAt(AtomText(a), text, st.at) && end == st.at + |AtomText(a)|
    ensures st.at < |text| && text[st.at] == AtomText(a)[0]
    ensures Step(text, delim, st) == Go(st.Add(Char(AtomSingle(a)), end))
  {
    match a
    case Sym(m) => SymTranslates(m, text, delim, st, end);
    case Quest => WrittenFirst([63], text, st.at);
    case Cls(negated, ms) =>
      var head, body := if negated then [91, 33] else [91], MembersText(ms);
      ClsTranslates(negated, ms, text, delim, st, end - 1, head, body, AtomSingle(a));
    case Dollar => WrittenFirst([36], text, st.at);
  }

  /** The state after a tag: its parenthesis is still to be translated. */
  function AfterTag(st: State, open: bool): State {
    var t := Tags(st.nlp, st.stack);
    var t' := TagsAfter(Unit(Tag(open), false), t);
    State(st.es + TagElems(Tag(open), t), st.ready || TagElems(Tag(open), t) != [], t'.n, t'.open, st.at + 1)
  }

  lemma {:induction false} TagTranslates(open: bool, text: seq<byte>, delim: byte, st: State)
    requires AtomOk(Tag(open), Tags(st.nlp, st.stack), delim, 0)
    requires WrittenAt(AtomText(Tag(open)), text, st.at)
    ensures st.at < |text| && text[st.at] == 92 && Step(text, delim, st) == Go(AfterTag(st, open))
  {
    Written(AtomText(Tag(open)), text, st.at, 0);
    Written(AtomText(Tag(open)), text, st.at, 1);
    assert st.es + [] == st.es;
  }

  /** The parenthesis after the backslash of a tag is a character of the pattern. */
  lemma {:induction false} ParenTranslates(open: bool, text: seq<byte>, delim: byte, st: State)
    requires st.at < |text| && text[st.at] == (if open then 40 else 41)
    ensures Step(text, delim, st) == Go(st.Add(Char(Lit(if open then 40 else 41)), st.at + 1))
  {
    assert !AtTag(text, st.at);
  }

  /** The state after an atom, before a `^` that closes it. */
  function AfterAtom(st: State, a: Atom, end: nat): State {
    var t := Tags(st.nlp, st.stack);
    var t' := TagsAfter(Unit(a, false), t);
    State(st.es + TagElems(a, t) + [Char(AtomSingle(a))], true, t'.n, t'.open, end)
  }

  lemma {:induction false} AtomGoesOn(a: Atom, text: seq<byte>, delim: byte, st: State, end: nat, next: State)
    requires AtomOk(a, Tags(st.nlp, st.stack), delim, Peek(text, end)) && AtomText(a)[0] != delim
    requires WrittenAt(AtomText(a), text, st.at) && end == st.at + |AtomText(a)| && next == AfterAtom(st, a, end)
    ensures Translate(text, delim, st) == Translate(text, delim, next)
  {
    if a.Tag? {
      TagTranslates(a.open, text, delim, st);
      Written(AtomText(a), text, st.at, 1);
      ParenTranslates(a.open, text, delim, AfterTag(st, a.open));
    } else {
      AtomTranslates(a, text, delim, st, end);
      assert st.es + [] == st.es;
    }
  }

  /** The state after a word. */
  function AfterWord(st: State, w: Word): State {
    var t := Tags(st.nlp, st.stack);
    var t' := TagsAfter(w, t);
    State(st.es + WordElems(w, t), !w.Up?, t'.n, t'.open, st.at + |WordText(w)|)
  }

  lemma {:induction false} CloseGoesOn(before: seq<Elem>, s: Single, text: seq<byte>, delim: byte, st: State,
                                       next: State)
    requires st.es == before + [Char(s)] && st.ready && st.at < |text| && text[st.at] == 94 && delim != 94
    requires next == st.(es := before + [Close(s)], at := st.at + 1)
    ensures Translate(text, delim, st) == Translate(text, delim, next)
  {
    assert st.es[..|st.es| - 1] == before;
  }

  lemma {:induction false} UnitGoesOn(a: Atom, text: seq<byte>, delim: byte, st: State, next: State)
    requires WordOk(Unit(a, true), false, Tags(st.nlp, st.stack), delim, 0)
    requires WrittenAt(AtomText(a) + [94], text, st.at) && next == AfterWord(st, Unit(a, true))
    ensures Translate(text, delim, st) == Translate(text, delim, next)
  {
    var end := st.at + |AtomText(a)|;
    WrittenSplit(AtomText(a), [94], text, st.at);
    WrittenFirst([94], text, end);
    assert AtomText(a)[0] == (AtomText(a) + [94])[0];
    var mid := AfterAtom(st, a, end);
    AtomGoesOn(a, text, delim, st, end, mid);
    var before := st.es + TagElems(a, Tags(st.nlp, st.stack));
    assert next.es == before + [Close(AtomSingle(a))];
    CloseGoesOn(before, AtomSingle(a), text, delim, mid, next);
  }

  lemma {:induction false} WordGoesOn(w: Word, text: seq<byte>, delim: byte, st: State, next: State, own: seq<byte>)
    requires WordOk(w, st.Closable(), Tags(st.nlp, st.stack), delim, Peek(text, st.at + |own|))
    requires own == WordText(w) && WrittenAt(own, text, st.at) && next == AfterWord(st, w)
    ensures Translate(text, delim, st) == Translate(text, delim, next)
  {
    match w
    case Unit(a, closed) =>
      if closed {
        UnitGoesOn(a, text, delim, st, next);
      } else {
        assert AtomText(a) + [] == AtomText(a);
        assert next.es == st.es + TagElems(a, Tags(st.nlp, st.stack)) + [Char(AtomSingle(a))];
        AtomGoesOn(a, text, delim, st, next.at, next);
      }
    case Star => WrittenFirst([42], text, st.at);
    case Up => WrittenFirst([94], text, st.at);
  }

  /** The state after some words. */
  function AfterWords(st: State, ws: seq<Word>): State {
    var (t, t') := (Tags(st.nlp, st.stack), AllTags(ws, Tags(st.nlp, st.stack)));
    State(st.es + Meaning(ws, t), if ws == [] then st.ready else !ws[|ws| - 1].Up?, t'.n, t'.open, st.at + |Text(ws)|)
  }

  lemma {:induction false} AfterMoreWords(st: State, ws: seq<Word>, next: State, first: seq<byte>, rest: seq<byte>)
    requires ws != [] && first == WordText(ws[0]) && rest == Text(ws[1..]) && next == AfterWord(st, ws[0])
    ensures AfterWords(next, ws[1..]) == AfterWords(st, ws)
  {
    var t := Tags(st.nlp, st.stack);
    ElemsJoin(st.es, WordElems(ws[0], t), Meaning(ws[1..], TagsAfter(ws[0], t)));
  }

  lemma {:induction false} ElemsJoin<T>(a: seq<T>, b: seq<T>, c: seq<T>)
    ensures a + b + c == a + (b + c)
  {
  }

  lemma {:induction false} WordsGoOn(ws: seq<Word>, text: seq<byte>, delim: byte, st: State, end: State, own: seq<byte>,
                                     after: byte)
    requires own == Text(ws) && WrittenAt(own, text, st.at) && end == AfterWords(st, ws)
    requires after == Peek(text, st.at + |own|) && WordsOk(ws, st.Closable(), Tags(st.nlp, st.stack), delim, after)
    ensures Translate(text, delim, st) == Translate(text, delim, end)
    decreases |ws|, 1
  {
    if ws == [] {
      assert st.es + [] == st.es;
    } else {
      var next := AfterWord(st, ws[0]);
      AfterMoreWords(st, ws, next, WordText(ws[0]), Text(ws[1..]));
      WordsGoFrom(ws, text, delim, st, end, WordText(ws[0]), Text(ws[1..]), next, next.at, after);
    }
  }

  lemma {:induction false} WordsGoFrom(ws: seq<Word>, text: seq<byte>, delim: byte, st: State, end: State,
                                       first: seq<byte>, rest: seq<byte>, next: State, mid: nat, after: byte)
    requires ws != [] && first == WordText(ws[0]) && rest == Text(ws[1..]) && WrittenAt(first + rest, text, st.at)
    requires next == AfterWord(st, ws[0]) && mid == next.at == st.at + |first| && end == AfterWords(next, ws[1..])
    requires after == Peek(text, mid + |rest|) && WordsOk(ws, st.Closable(), Tags(st.nlp, st.stack), delim, after)
    ensures Translate(text, delim, st) == Translate(text, delim, end)
    decreases |ws|, 0
  {
    WordsPart(ws, text, delim, st, next, first, rest, mid, after);
    WordAndMore(ws[0], ws[1..], text, delim, st, next, end, first, rest, after);
  }

  lemma {:induction false} WordAndMore(w: Word, more: seq<Word>, text: seq<byte>, delim: byte, st: State, next: State,
                                       end: State, first: seq<byte>, rest: seq<byte>, after: byte)
    requires first == WordText(w) && WrittenAt(first, text, st.at) && next == AfterWord(st, w)
    requires WordOk(w, st.Closable(), Tags(st.nlp, st.stack), delim, Peek(text, next.at))
    requires rest == Text(more) && WrittenAt(rest, text, next.at) && end == AfterWords(next, more)
    requires after == Peek(text, next.at + |rest|)
    requires WordsOk(more, next.Closable(), Tags(next.nlp, next.stack), delim, after)
    ensures Translate(text, delim, st) == Translate(text, delim, end)
    decreases |more|, 2
  {
    WordGoesOn(w, text, delim, st, next, first);
    WordsGoOn(more, text, delim, next, end, rest, after);
  }

  lemma {:induction false} AfterWordCloses(st: State, w: Word, next: State)
    requires next == AfterWord(st, w)
    ensures next.Closable() <==> w.Unit? && !w.closed
    ensures Tags(next.nlp, next.stack) == TagsAfter(w, Tags(st.nlp, st.stack))
  {
    if w.Unit? {
      assert next.es[|next.es| - 1] == if w.closed then Close(AtomSingle(w.a)) else Char(AtomSingle(w.a));
    }
  }

  lemma {:induction false} WordsPart(ws: seq<Word>, text: seq<byte>, delim: byte, st: State, next: State,
                                     first: seq<byte>, rest: seq<byte>, mid: nat, after: byte)
    requires ws != [] && first == WordText(ws[0]) && rest == Text(ws[1..]) && WrittenAt(first + rest, text, st.at)
    requires after == Peek(text, mid + |rest|) && WordsOk(ws, st.Closable(), Tags(st.nlp, st.stack), delim, after)
    requires next == AfterWord(st, ws[0]) && mid == st.at + |first|
    ensures WrittenAt(first, text, st.at) && WrittenAt(rest, text, mid)
    ensures WordOk(ws[0], st.Closable(), Tags(st.nlp, st.stack), delim, Peek(text, mid))
    ensures WordsOk(ws[1..], next.Closable(), Tags(next.nlp, next.stack), delim, after)
  {
    WordsWritten(ws[1..], text, st.at, first, rest, mid);
    WordsStillOk(ws, st, next, delim, Peek(text, mid), after);
  }

  lemma {:induction false} WordsWritten(ws: seq<Word>, text: seq<byte>, i: nat, first: seq<byte>, rest: seq<byte>,
                                        mid: nat)
    requires rest == Text(ws) && WrittenAt(first + rest, text, i) && mid == i + |first|
    ensures WrittenAt(first, text, i) && WrittenAt(rest, text, mid)
    ensures Peek(text, mid) == First(ws, Peek(text, mid + |rest|))
  {
    WrittenSplit(first, rest, text, i);
    FirstOfWords(ws, text, mid, rest);
  }

  lemma {:induction false} WordsStillOk(ws: seq<Word>, st: State, next: State, delim: byte, mid: byte, after: byte)
    requires ws != [] && WordsOk(ws, st.Closable(), Tags(st.nlp, st.stack), delim, after)
    requires next == AfterWord(st, ws[0]) && mid == First(ws[1..], after)
    ensures WordOk(ws[0], st.Closable(), Tags(st.nlp, st.stack), delim, mid)
    ensures WordsOk(ws[1..], next.Closable(), Tags(next.nlp, next.stack), delim, after)
  {
    AfterWordCloses(st, ws[0], next);
  }

  lemma {:induction false} FirstOfWords(ws: seq<Word>, text: seq<byte>, i: nat, own: seq<byte>)
    requires own == Text(ws) && WrittenAt(own, text, i)
    ensures Peek(text, i) == First(ws, Peek(text, i + |own|))
  {
    if ws != [] {
      assert own[0] == WordText(ws[0])[0];
      FirstIsPeeked(own, text, i);
    }
  }

  // ----- whole expressions

  /** How an expression ends: nothing, `$`, or a backslash with nothing after it. */
  datatype Ending = Plain | Eol | Lone

  function EndText(e: Ending): seq<byte> {
    match e
    case Plain => []
    case Eol => [36]
    case Lone => [92]
  }

  function EndElems(e: Ending): seq<Elem> {
    match e
    case Plain => []
    case Eol => [Seol]
    case Lone => [Char(Lit(92))]
  }

  /** The expression: `^` or not, words, and an ending. */
  function Spelled(bol: bool, ws: seq<Word>, e: Ending): seq<byte> {
    (if bol then [94] else []) + Text(ws) + EndText(e)
  }

  /** The character after the words of an expression. */
  function AfterText(e: Ending, tail: seq<byte>): byte {
    if EndText(e) + tail == [] then 0 else (EndText(e) + tail)[0]
  }

  /** The delimiter ends the expression, or nothing comes after it. */
  predicate EndOk(e: Ending, delim: byte, tail: seq<byte>) {
    && (tail != [] ==> tail[0] == delim)
    && (e.Eol? ==> delim != 36)
    && (e.Lone? ==> delim != 92 && tail == [])
  }

  lemma {:induction false} EndingTranslates(e: Ending, text: seq<byte>, delim: byte, tail: seq<byte>, st: State)
    requires EndOk(e, delim, tail) && st.at <= |text| && text[st.at..] == EndText(e) + tail
    ensures Translate(text, delim, st) == Done(st.es + EndElems(e) + [RPar(0)], |text| - |tail|, st.stack == [])
  {
    var i := st.at;
    assert i < |text| ==> text[i] == text[i..][0];
    assert i + 1 < |text| ==> text[i + 1] == text[i..][1];
    match e
    case Plain => assert st.es + [] == st.es;
    case Eol => assert NextElem(text, delim, i) == Some((Seol, i + 1));
    case Lone => assert NextElem(text, delim, i) == Some((Char(Lit(92)), i + 1));
  }

  /** Every spelling of the notation compiles to what it means: characters bare, by letter and by number,
      `?`, `*`, classes, tags with their parentheses, closures, and the `^` and `$` that stand for
      themselves; with `^` before, and `$` or a lone backslash after, or not. */
  lemma {:induction false} NotationCompiles(bol: bool, ws: seq<Word>, e: Ending, delim: byte, tail: seq<byte>)
    requires EndOk(e, delim, tail) && WordsOk(ws, false, Tags(0, []), delim, AfterText(e, tail))
    requires !bol ==> First(ws, AfterText(e, tail)) != 94
    ensures Compile(Spelled(bol, ws, e) + tail, delim)
         == Done((if bol then [Sbol, LPar(0)] else [LPar(0)]) + Meaning(ws, Tags(0, [])) + EndElems(e) + [RPar(0)],
                 |Spelled(bol, ws, e)|, AllTags(ws, Tags(0, [])).open == [])
  {
    var text, own, st := Spelled(bol, ws, e) + tail, Text(ws), StartState(bol);
    SpelledStarts(bol, ws, e, tail, own, text);
    assert !st.Closable();
    WordsGoOn(ws, text, delim, st, AfterWords(st, ws), own, AfterText(e, tail));
    EndingTranslates(e, text, delim, tail, AfterWords(st, ws));
  }

  lemma {:induction false} SpelledStarts(bol: bool, ws: seq<Word>, e: Ending, tail: seq<byte>, own: seq<byte>,
                                         text: seq<byte>)
    requires own == Text(ws) && text == (if bol then [94] else []) + own + EndText(e) + tail
    requires !bol ==> First(ws, AfterText(e, tail)) != 94
    ensures var i := StartState(bol).at;
            && Start(text) == StartState(bol) && WrittenAt(own, text, i)
            && i + |own| <= |text| && text[i + |own|..] == EndText(e) + tail
            && Peek(text, i + |own|) == AfterText(e, tail)
  {
    var i := StartState(bol).at;
    WrittenInside(if bol then [94] else [], own, EndText(e), tail);
    AfterIsPeeked(text, i + |own|, e, tail);
    FirstOfWords(ws, text, i, own);
  }

  lemma {:induction false} AfterIsPeeked(text: seq<byte>, i: nat, e: Ending, tail: seq<byte>)
    requires i <= |text| && text[i..] == EndText(e) + tail
    ensures Peek(text, i) == AfterText(e, tail)
  {
    assert i < |text| ==> text[i] == text[i..][0];
  }

  // ----- some expressions

  lemma {:induction false} OneWord(w: Word, text: seq<byte>)
    requires WordOk(w, false, Tags(0, []), 0, 0) && !w.Up? && text == WordText(w)
    ensures Compile(text, 0) == Done([LPar(0)] + WordElems(w, Tags(0, [])) + [RPar(0)], |text|,
                                     TagsAfter(w, Tags(0, [])).open == [])
  {
    var ws := [w];
    assert ws[1..] == [];
    assert Text(ws) == text && Meaning(ws, Tags(0, [])) == WordElems(w, Tags(0, []));
    assert Spelled(false, ws, Plain) + [] == text;
    assert AllTags(ws, Tags(0, [])) == TagsAfter(w, Tags(0, []));
    assert WordText(w)[0] != 94;
    NotationCompiles(false, ws, Plain, 0, []);
    assert [LPar(0)] + WordElems(w, Tags(0, [])) + [] + [RPar(0)] == [LPar(0)] + WordElems(w, Tags(0, [])) + [RPar(0)];
  }

  /** A backslash and a letter, or another character that is no digit and no parenthesis. */
  lemma {:induction false} EscapeCompiles(c: byte, x: byte)
    requires c != 0 && !IsDigit(c) && c != 40 && c != 41
    requires x == (if c == 98 then 8 else if c == 102 then 12 else if c == 110 then 10 else if c == 114 then 13
                   else if c == 116 then 9 else if c == 118 then 11 else c)
    ensures Compile([92, c], 0) == Done([LPar(0), Char(Lit(x)), RPar(0)], 2, true)
  {
    OneWord(Unit(Sym(Letter(c)), false), [92, c]);
    assert [92, c] + [] == [92, c];
    assert [LPar(0)] + ([] + [Char(Lit(x))]) + [RPar(0)] == [LPar(0), Char(Lit(x)), RPar(0)];
  }

  /** The manual allows the letters in upper case too; there they stand for themselves. */
  lemma {:induction false} UpperCaseIsNoEscape()
    ensures Compile([92, 'N' as int], 0) == Done([LPar(0), Char(Lit('N' as int)), RPar(0)], 2, true)
  {
    EscapeCompiles('N' as int, 'N' as int);
  }

  lemma {:induction false} ConsWords(w: Word, ws: seq<Word>, t: Tags, delim: byte, after: byte, all: seq<Word>)
    requires all == [w] + ws
    ensures Text(all) == WordText(w) + Text(ws)
    ensures Meaning(all, t) == WordElems(w, t) + Meaning(ws, TagsAfter(w, t))
    ensures AllTags(all, t) == AllTags(ws, TagsAfter(w, t))
    ensures forall closable: bool ::
              WordsOk(all, closable, t, delim, after) <==>
              WordOk(w, closable, t, delim, First(ws, after))
              && WordsOk(ws, w.Unit? && !w.closed, TagsAfter(w, t), delim, after)
  {
    assert all[1..] == ws;
  }

  /** A tagged character: the parentheses of the tag are characters of the pattern, although the manual says
      that tagging has no effect on what is matched. */
  lemma {:induction false} TagMatchesParens(c: byte)
    requires AtomOk(Sym(Bare(c)), Tags(1, [1]), 0, 92)
    ensures Compile([92, 40, c, 92, 41], 0) ==
            Done([LPar(0), LPar(1), Char(Lit(40)), Char(Lit(c)), RPar(1), Char(Lit(41)), RPar(0)], 5, true)
  {
    var ws := [Unit(Tag(true), false), Unit(Sym(Bare(c)), false), Unit(Tag(false), false)];
    OpenToShut(c, ws, ws[1..], ws[2..]);
    PlainCompiles(ws, [92, 40, c, 92, 41], [LPar(1), Char(Lit(40)), Char(Lit(c)), RPar(1), Char(Lit(41))]);
  }

  lemma {:induction false} PlainCompiles(ws: seq<Word>, text: seq<byte>, es: seq<Elem>)
    requires text == Text(ws) && es == Meaning(ws, Tags(0, [])) && AllTags(ws, Tags(0, [])).open == []
    requires WordsOk(ws, false, Tags(0, []), 0, 0) && First(ws, 0) != 94
    ensures Compile(text, 0) == Done([LPar(0)] + es + [RPar(0)], |text|, true)
  {
    assert [] + text == text && text + [] == text;
    NotationCompiles(false, ws, Plain, 0, []);
    assert [LPar(0)] + es + [] == [LPar(0)] + es;
  }

  lemma {:induction false} ShutOnly(ws: seq<Word>)
    requires ws == [Unit(Tag(false), false)]
    ensures Text(ws) == [92, 41] && Meaning(ws, Tags(1, [1])) == [RPar(1), Char(Lit(41))]
    ensures AllTags(ws, Tags(1, [1])).open == [] && WordsOk(ws, true, Tags(1, [1]), 0, 0)
  {
    ConsWords(ws[0], [], Tags(1, [1]), 0, 0, ws);
  }

  lemma {:induction false} SymToShut(c: byte, ws: seq<Word>, rest: seq<Word>)
    requires rest == [Unit(Tag(false), false)] && ws == [Unit(Sym(Bare(c)), false)] + rest
    requires AtomOk(Sym(Bare(c)), Tags(1, [1]), 0, 92)
    ensures Text(ws) == [c, 92, 41] && Meaning(ws, Tags(1, [1])) == [Char(Lit(c)), RPar(1), Char(Lit(41))]
    ensures AllTags(ws, Tags(1, [1])).open == [] && WordsOk(ws, true, Tags(1, [1]), 0, 0)
  {
    ShutOnly(rest);
    ConsWords(ws[0], rest, Tags(1, [1]), 0, 0, ws);
  }

  lemma {:induction false} OpenToShut(c: byte, ws: seq<Word>, rest: seq<Word>, last: seq<Word>)
    requires last == [Unit(Tag(false), false)] && rest == [Unit(Sym(Bare(c)), false)] + last
    requires ws == [Unit(Tag(true), false)] + rest && AtomOk(Sym(Bare(c)), Tags(1, [1]), 0, 92)
    ensures Text(ws) == [92, 40, c, 92, 41] && AllTags(ws, Tags(0, [])).open == []
    ensures Meaning(ws, Tags(0, [])) == [LPar(1), Char(Lit(40)), Char(Lit(c)), RPar(1), Char(Lit(41))]
    ensures WordsOk(ws, false, Tags(0, []), 0, 0) && First(ws, 0) == 92
  {
    SymToShut(c, rest, last);
    assert TagsAfter(ws[0], Tags(0, [])) == Tags(1, [1]);
    ConsWords(ws[0], rest, Tags(0, []), 0, 0, ws);
  }

  /** So it is found where the character stands in parentheses, and nowhere else. */
  lemma {:induction false} TaggedNeedsParens(c: byte, buf: seq<byte>, i: nat)
    requires i <= |buf|
    ensures Derives(buf, i, [LPar(0), LPar(1), Char(Lit(40)), Char(Lit(c)), RPar(1), Char(Lit(41)), RPar(0)]) <==>
            i + 3 <= |buf| && buf[i] == 40 && buf[i + 1] == c && buf[i + 2] == 41
  {
    var es := [LPar(0), LPar(1), Char(Lit(40)), Char(Lit(c)), RPar(1), Char(Lit(41)), RPar(0)];
    assert es[1..] == [LPar(1), Char(Lit(40)), Char(Lit(c)), RPar(1), Char(Lit(41)), RPar(0)];
    assert es[2..] == [Char(Lit(40)), Char(Lit(c)), RPar(1), Char(Lit(41)), RPar(0)];
    forall ks: seq<nat>, j: nat
      ensures Parses(false, buf, i, es, ks, j) <==>
              i + 3 <= |buf| && buf[i] == 40 && buf[i + 1] == c && buf[i + 2] == 41 && ks == [] && j == i + 3
    {
      TagParses(buf, i, es, ks, j);
      TagParses(buf, i, es[1..], ks, j);
      assert es[1..][1..] == es[2..];
      TaggedParses(c, buf, i, ks, j);
    }
    if i + 3 <= |buf| && buf[i] == 40 && buf[i + 1] == c && buf[i + 2] == 41 {
      assert Parses(false, buf, i, es, [], i + 3);
    }
  }

  lemma {:induction false} TagParses(buf: seq<byte>, i: nat, es: seq<Elem>, ks: seq<nat>, j: nat)
    requires i <= |buf| && es != [] && (es[0].LPar? || es[0].RPar?)
    ensures Parses(false, buf, i, es, ks, j) <==> Parses(false, buf, i, es[1..], ks, j)
  {
  }

  lemma {:induction false} LitParses(c: byte, buf: seq<byte>, i: nat, es: seq<Elem>, ks: seq<nat>, j: nat)
    requires i <= |buf| && es != [] && es[0] == Char(Lit(c))
    ensures Parses(false, buf, i, es, ks, j) <==> i < |buf| && buf[i] == c && Parses(false, buf, i + 1, es[1..], ks, j)
  {
  }

  lemma {:induction false} TaggedParses(c: byte, buf: seq<byte>, i: nat, ks: seq<nat>, j: nat)
    requires i <= |buf|
    ensures Parses(false, buf, i, [Char(Lit(40)), Char(Lit(c)), RPar(1), Char(Lit(41)), RPar(0)], ks, j) <==>
            i + 3 <= |buf| && buf[i] == 40 && buf[i + 1] == c && buf[i + 2] == 41 && ks == [] && j == i + 3
  {
    var e0 := [Char(Lit(40)), Char(Lit(c)), RPar(1), Char(Lit(41)), RPar(0)];
    var e1 := [Char(Lit(c)), RPar(1), Char(Lit(41)), RPar(0)];
    var e2, e3, e4 := [RPar(1), Char(Lit(41)), RPar(0)], [Char(Lit(41)), RPar(0)], [RPar(0)];
    assert e0[1..] == e1 && e1[1..] == e2 && e2[1..] == e3 && e3[1..] == e4 && e4[1..] == [];
    LitParses(40, buf, i, e0, ks, j);
    if i + 1 <= |buf| {
      LitParses(c, buf, i + 1, e1, ks, j);
    }
    if i + 2 <= |buf| {
      TagParses(buf, i + 2, e2, ks, j);
      LitParses(41, buf, i + 2, e3, ks, j);
    }
    if i + 3 <= |buf| {
      TagParses(buf, i + 3, e4, ks, j);
    }
  }

  // ----- printed patterns

  /** Every byte as the three octal digits of an escape. */
  function Octal(c: byte): (s: seq<byte>)
    ensures |s| == 4
  {
    [BACKSLASH, 48 + c / 64, 48 + c / 8 % 8, 48 + c % 8]
  }

  function PrintItem(item: Item): seq<byte> {
    match item
    case One(c) => Octal(c)
    case Span(lo, hi) => Octal(lo) + [DASH] + Octal(hi)
  }

  function PrintItems(items: seq<Item>): seq<byte> {
    if items == [] then [] else PrintItem(items[0]) + PrintItems(items[1..])
  }

  function PrintSingle(s: Single): seq<byte> {
    match s
    case Lit(c) => Octal(c)
    case Any => [QUERY]
    case Class(negated, items) =>
      ClassHead(negated) + PrintItems(items) + [RBRACKET]
  }

  function ClassHead(negated: bool): seq<byte> {
    if negated then [LBRACKET, BANG] else [LBRACKET]
  }

  /** A single-character element, closed or not. */
  datatype Piece = Piece(s: Single, closed: bool) {
    function ToElem(): Elem {
      if closed then Close(s) else Char(s)
    }

    function Print(): seq<byte> {
      if closed then PrintSingle(s) + [CARET] else PrintSingle(s)
    }
  }

  function Elems(ps: seq<Piece>): seq<Elem> {
    if ps == [] then [] else [ps[0].ToElem()] + Elems(ps[1..])
  }

  function Print(ps: seq<Piece>): seq<byte> {
    if ps == [] then [] else ps[0].Print() + Print(ps[1..])
  }

  /** A delimiter that does not start an element of the printed notation. */
  predicate Neutral(delim: byte) {
    delim != BACKSLASH && delim != QUERY && delim != LBRACKET && delim != CARET && delim != DOLLAR
  }

  /** An expression: `^` or not, printed pieces, `$` or not. */
  function Expression(bol: bool, ps: seq<Piece>, eol: bool): seq<byte> {
    (if bol then [CARET] else []) + Print(ps) + (if eol then [DOLLAR] else [])
  }

  // Printed pieces are words, every character an octal number of three digits.

  function MarkOf(c: byte): Mark {
    Oct3(c / 64, c / 8 % 8, c % 8)
  }

  function MemberOf(item: Item): Member {
    match item
    case One(c) => OneOf(MarkOf(c))
    case Span(lo, hi) => Range(MarkOf(lo), MarkOf(hi))
  }

  function MembersOf(items: seq<Item>): seq<Member> {
    if items == [] then [] else [MemberOf(items[0])] + MembersOf(items[1..])
  }

  function AtomOf(s: Single): Atom {
    match s
    case Lit(c) => Sym(MarkOf(c))
    case Any => Quest
    case Class(negated, items) => Cls(negated, MembersOf(items))
  }

  function WordsOf(ps: seq<Piece>): seq<Word> {
    if ps == [] then [] else [Unit(AtomOf(ps[0].s), ps[0].closed)] + WordsOf(ps[1..])
  }

  lemma {:induction false} MarkOfMeans(c: byte)
    ensures MarkCode(MarkOf(c)) == c && MarkText(MarkOf(c)) == Octal(c)
  {
    assert c / 64 * 64 + c / 8 % 8 * 8 + c % 8 == c;
  }

  lemma {:induction false} MembersOfMean(items: seq<Item>, after: bool)
    ensures MembersText(MembersOf(items)) == PrintItems(items) && MembersItems(MembersOf(items)) == items
    ensures MembersOk(MembersOf(items), after) && FirstOfMembers(MembersOf(items)) != 33
  {
    if items != [] {
      match items[0]
      case One(c) =>
        MarkOfMeans(c);
        MembersOfMean(items[1..], true);
      case Span(lo, hi) =>
        MarkOfMeans(lo);
        MarkOfMeans(hi);
        MembersOfMean(items[1..], false);
    }
  }

  lemma {:induction false} AtomOfMeans(s: Single, delim: byte, next: byte)
    requires Neutral(delim)
    ensures AtomText(AtomOf(s)) == PrintSingle(s) && AtomSingle(AtomOf(s)) == s
    ensures AtomOk(AtomOf(s), Tags(0, []), delim, next) && AtomText(AtomOf(s))[0] != delim
    ensures AtomText(AtomOf(s))[0] != 94 && !AtomOf(s).Tag?
  {
    match s
    case Lit(c) => MarkOfMeans(c);
    case Any =>
    case Class(_, items) => MembersOfMean(items, false);
  }

  lemma {:induction false} WordsOfMean(ps: seq<Piece>, closable: bool, delim: byte, after: byte)
    requires Neutral(delim)
    ensures var (ws, t) := (WordsOf(ps), Tags(0, []));
            && Text(ws) == Print(ps) && Meaning(ws, t) == Elems(ps) && AllTags(ws, t) == t
            && WordsOk(ws, closable, t, delim, after) && (after != 94 ==> First(ws, after) != 94)
  {
    if ps != [] {
      var more, w := WordsOf(ps[1..]), Unit(AtomOf(ps[0].s), ps[0].closed);
      AtomOfMeans(ps[0].s, delim, if ps[0].closed then 94 else First(more, after));
      WordsOfMean(ps[1..], !ps[0].closed, delim, after);
      ConsWords(w, more, Tags(0, []), delim, after, WordsOf(ps));
      assert AtomText(AtomOf(ps[0].s)) + [] == AtomText(AtomOf(ps[0].s));
      assert WordElems(w, Tags(0, [])) == [ps[0].ToElem()];
    }
  }

  /** Compiling undoes printing: whatever characters, classes and closures a pattern is made
      of, with `^` before and `$` after or not, the printed expression compiles back to it. */
  lemma {:induction false} PrintCompiles(bol: bool, ps: seq<Piece>, eol: bool, delim: byte, tail: seq<byte>)
    requires Neutral(delim) && (tail == [] || tail[0] == delim)
    ensures Compile(Expression(bol, ps, eol) + tail, delim)
         == Done(StartState(bol).es + Elems(ps) + (if eol then [Seol] else []) + [RPar(0)],
                 |Expression(bol, ps, eol)|, true)
  {
    var e := if eol then Eol else Plain;
    WordsOfMean(ps, false, delim, AfterText(e, tail));
    assert Spelled(bol, WordsOf(ps), e) == Expression(bol, ps, eol);
    NotationCompiles(bol, WordsOf(ps), e, delim, tail);
  }
}
