/** The compiler from expression text to encoded patterns. */
module RegexpCompile {
  import opened Bytes
  import opened Options
  import opened RegexpCode

  // The characters the notation gives a meaning to.
  const BANG: byte := 33
  const DOLLAR: byte := 36
  const OPEN: byte := 40
  const SHUT: byte := 41
  const STAR: byte := 42
  const DASH: byte := 45
  const QUERY: byte := 63
  const LBRACKET: byte := 91
  const BACKSLASH: byte := 92
  const RBRACKET: byte := 93
  const CARET: byte := 94

  predicate IsOctal(c: byte) { 48 <= c <= 55 }

  /** The character at `i` of a NUL-terminated string whose text is `text`. */
  function Peek(text: seq<byte>, i: nat): byte {
    if i < |text| then text[i] else NUL
  }

  /** A three-digit octal value, as one byte stores it. */
  function Wrapped(x: nat): (c: byte)
    requires x < 0x200
    ensures c == x % 0x100
  {
    if x < 0x100 then x else x - 0x100
  }

  /** The octal number that goes on at `i` with at most `n` more digits after `code`, and
      where its last digit is. */
  function OctalFrom(text: seq<byte>, i: nat, n: nat, code: nat): (r: (nat, nat))
    requires 0 < i <= |text|
    ensures i - 1 <= r.1 < |text| && r.1 < i + n
    ensures r.0 < (code + 1) * (if n == 0 then 1 else if n == 1 then 8 else 64) || n > 2
    decreases n
  {
    if n == 0 || !IsOctal(Peek(text, i)) then (code, i - 1)
    else OctalFrom(text, i + 1, n - 1, code * 8 + text[i] - 48)
  }

  /** The code of the escape whose backslash is at `i`, and where its last character is.
      Octal codes are stored in one byte. */
  function Escape(text: seq<byte>, i: nat): (r: (byte, nat))
    requires i < |text|
    ensures i <= r.1 < |text|
  {
    if i + 1 >= |text| then (text[i], i)
    else if IsOctal(text[i + 1]) then
      var (code, k) := OctalFrom(text, i + 2, 2, text[i + 1] - 48);
      (Wrapped(code), k)
    else (EscapedLetter(text[i + 1]), i + 1)
  }

  /** The character written at `i`, escaped or not, and where its last character is. */
  function Escaped(text: seq<byte>, i: nat): (r: (byte, nat))
    requires i < |text|
    ensures i <= r.1 < |text| && (text[i] != BACKSLASH ==> r == (text[i], i))
  {
    if text[i] == BACKSLASH then Escape(text, i) else (text[i], i)
  }

  /** `b f n r t v` stand for control characters, anything else for itself. */
  function EscapedLetter(c: byte): byte {
    if c == 98 then 8
    else if c == 102 then 12
    else if c == 110 then 10
    else if c == 114 then 13
    else if c == 116 then 9
    else if c == 118 then 11
    else c
  }

  /** A class so far: its members, where the scan is, and whether a `-` makes a range. */
  datatype ClassScan = ClassScan(items: seq<Item>, at: nat, ranok: bool) {
    predicate Valid() {
      ranok ==> items != [] && items[|items| - 1].One?
    }
  }

  /** One more character of a class; None when a range runs into the terminator. */
  function NextItem(text: seq<byte>, cs: ClassScan): (r: Option<ClassScan>)
    requires cs.Valid() && cs.at < |text|
    ensures r.Some? ==> r.value.Valid() && cs.at < r.value.at <= |text|
  {
    var (items, i) := (cs.items, cs.at);
    if text[i] == DASH && cs.ranok && Peek(text, i + 1) != RBRACKET then
      if i + 1 >= |text| then None
      else
        var ((code, k), last) := (Escaped(text, i + 1), |items| - 1);
        Some(ClassScan(items[..last] + [Span(items[last].c, code)], k + 1, false))
    else
      var (code, k) := Escaped(text, i);
      Some(ClassScan(items + [One(code)], k + 1, true))
  }

  /** The members of a class and where its `]` is; None when it is not closed. */
  function ScanItems(text: seq<byte>, cs: ClassScan): (r: Option<(seq<Item>, nat)>)
    requires cs.Valid()
    ensures r.Some? ==> cs.at <= r.value.1 < |text|
    decreases |text| - cs.at
  {
    if cs.at >= |text| then None
    else if text[cs.at] == RBRACKET then Some((cs.items, cs.at))
    else
      match NextItem(text, cs)
      case None => None
      case Some(next) => ScanItems(text, next)
  }

  /** The class whose `[` is at `i`, and where its `]` is. */
  function ScanClass(text: seq<byte>, i: nat): (r: Option<(Single, nat)>)
    ensures r.Some? ==> i < r.value.1 < |text|
  {
    var negated := Peek(text, i + 1) == BANG;
    match ScanItems(text, ClassScan([], if negated then i + 2 else i + 1, false))
    case None => None
    case Some((items, k)) => Some((Class(negated, items), k))
  }

  /** What compiling comes to: the elements, where the scan stopped and whether the tags
      balance; or the scan runs past the terminator; or `\)` outruns `\(`. */
  datatype Compiled = Done(es: seq<Elem>, stop: nat, balanced: bool) | OverRead | Underflow

  /** A translation so far: the elements, whether a `^` may close the last of them, how many
      tags were opened, which are still open, and where the scan is. */
  datatype State = State(es: seq<Elem>, ready: bool, nlp: nat, stack: seq<tag>, at: nat) {
    predicate Closable() {
      ready && es != [] && es[|es| - 1].Char?
    }

    function Add(e: Elem, next: nat): State {
      this.(es := es + [e], ready := true, at := next)
    }

    function CloseLast(): State
      requires Closable()
    {
      this.(es := es[..|es| - 1] + [Close(es[|es| - 1].s)], at := at + 1)
    }
  }

  datatype Stepped = Go(st: State) | Over | Under

  /** The element written at `i`, where neither `^` nor a tag is, and where the text goes on;
      None when it is a class that is not closed. */
  function NextElem(text: seq<byte>, delim: byte, i: nat): (r: Option<(Elem, nat)>)
    requires i < |text|
    ensures r.Some? ==> i < r.value.1 <= |text| && (r.value.0.Char? || r.value.0.Close? || r.value.0.Seol?)
    ensures r.Some? && r.value.0.Seol? ==> r.value.1 >= |text| || text[r.value.1] == delim
  {
    var c := text[i];
    if c == QUERY then Some((Char(Any), i + 1))
    else if c == STAR then Some((Close(Any), i + 1))
    else if c == DOLLAR && (i + 1 >= |text| || text[i + 1] == delim) then Some((Seol, i + 1))
    else if c == LBRACKET then
      match ScanClass(text, i)
      case None => None
      case Some((s, k)) => Some((Char(s), k + 1))
    else
      var (code, k) := Escaped(text, i);
      Some((Char(Lit(code)), k + 1))
  }

  /** Is `\(` or `\)` at `i`? */
  predicate AtTag(text: seq<byte>, i: nat) {
    Peek(text, i) == BACKSLASH && (Peek(text, i + 1) == OPEN || Peek(text, i + 1) == SHUT)
  }

  function CaretStep(st: State): State {
    if st.Closable() then st.CloseLast() else st.Add(Char(Lit(CARET)), st.at + 1).(ready := false)
  }

  /** `\(` opens the next tag, `\)` closes the last one opened; from the tenth on they only
      cancel out. The parenthesis itself is left to be translated as a literal. */
  function TagStep(st: State, open: bool): Stepped {
    if open && st.nlp + 1 < TAGS then Go(Opened(st))
    else if open then Go(Passed(st, st.nlp + 1))
    else if TAGS <= st.nlp then Go(Passed(st, st.nlp - 1))
    else if st.stack == [] then Under
    else Go(Shut(st))
  }

  /** A parenthesis that is counted and not compiled. */
  function Passed(st: State, nlp: nat): State {
    State(st.es, st.ready, nlp, st.stack, st.at + 1)
  }

  function Opened(st: State): State
    requires st.nlp + 1 < TAGS
  {
    State(st.es + [LPar(st.nlp + 1)], true, st.nlp + 1, st.stack + [st.nlp + 1], st.at + 1)
  }

  function Shut(st: State): State
    requires st.stack != []
  {
    var top := |st.stack| - 1;
    State(st.es + [RPar(st.stack[top])], true, st.nlp, st.stack[..top], st.at + 1)
  }

  /** One turn of the translation. */
  function Step(text: seq<byte>, delim: byte, st: State): (r: Stepped)
    requires st.at < |text|
    ensures r.Go? ==> st.at < r.st.at <= |text|
  {
    if text[st.at] == CARET then Go(CaretStep(st))
    else if AtTag(text, st.at) then TagStep(st, text[st.at + 1] == OPEN)
    else
      match NextElem(text, delim, st.at)
      case None => Over
      case Some((e, next)) => Go(st.Add(e, next))
  }

  function Translate(text: seq<byte>, delim: byte, st: State): Compiled
    decreases |text| - st.at
  {
    if st.at >= |text| || text[st.at] == delim then Done(st.es + [RPar(0)], st.at, st.stack == [])
    else
      match Step(text, delim, st)
      case Go(next) => Translate(text, delim, next)
      case Over => OverRead
      case Under => Underflow
  }

  function Start(text: seq<byte>): State {
    if Peek(text, 0) == CARET then State([Sbol, LPar(0)], false, 0, [], 1)
    else State([LPar(0)], false, 0, [], 0)
  }

  function Compile(text: seq<byte>, delim: byte): Compiled {
    Translate(text, delim, Start(text))
  }

  // ----- the code

  lemma {:induction false} EncodeAppends(es: seq<Elem>, e: Elem)
    ensures Encode(es + [e]) == Encode(es) + EncodeElem(e)
    decreases |es|
  {
    if es == [] {
      assert es + [e] == [e];
    } else {
      assert (es + [e])[0] == es[0] && (es + [e])[1..] == es[1..] + [e];
      EncodeAppends(es[1..], e);
    }
  }

  lemma {:induction false} EncodeItemsAppends(items: seq<Item>, item: Item)
    ensures EncodeItems(items + [item]) == EncodeItems(items) + EncodeItem(item)
    decreases |items|
  {
    if items == [] {
      assert items + [item] == [item];
    } else {
      assert (items + [item])[0] == items[0] && (items + [item])[1..] == items[1..] + [item];
      EncodeItemsAppends(items[1..], item);
    }
  }

  /** Compiles the escape at `text[p]`. */
  method DoEscape(text: seq<byte>, p: nat) returns (code: byte, p': nat)
    requires p < |text|
    ensures code == Escape(text, p).0 && p' == Escape(text, p).1
  {
    p' := p;
    if p + 1 >= |text| {
      code := text[p];
    } else if IsOctal(text[p + 1]) {
      p' := p' + 1;
      code := text[p'] - 48;
      if IsOctal(Peek(text, p' + 1)) {
        p' := p' + 1;
        code := code * 8 + text[p'] - 48;
        if IsOctal(Peek(text, p' + 1)) {
          p' := p' + 1;
          code := Wrapped(code * 8 + text[p'] - 48);
        }
      }
    } else {
      p' := p' + 1;
      code := EscapedLetter(text[p']);
    }
  }

  /** Compiles the character written at `text[p]`, escaped or not. */
  method GetChar(text: seq<byte>, p: nat) returns (code: byte, p': nat)
    requires p < |text|
    ensures code == Escaped(text, p).0 && p' == Escaped(text, p).1
  {
    code, p' := text[p], p;
    if code == BACKSLASH {
      code, p' := DoEscape(text, p);
    }
  }

  /** Writes one element of code at `n`. */
  method Emit(pat: array<ushort>, n: nat, x: ushort) returns (n': nat)
    requires n < pat.Length
    modifies pat
    ensures n' == n + 1 && pat[..n'] == old(pat[..n]) + [x]
    ensures forall j :: n' <= j < pat.Length ==> pat[j] == old(pat[j])
  {
    pat[n] := x;
    n' := n + 1;
  }

  method EmitPair(pat: array<ushort>, n: nat, x: ushort, y: ushort) returns (n': nat)
    requires n + 1 < pat.Length
    modifies pat
    ensures n' == n + 2 && pat[..n'] == old(pat[..n]) + [x, y]
    ensures forall j :: n' <= j < pat.Length ==> pat[j] == old(pat[j])
  {
    n' := Emit(pat, n, x);
    n' := Emit(pat, n', y);
  }

  /** Turns the literal last written before `n` into the range from it up to `hi`. */
  method EmitRange(pat: array<ushort>, n: nat, hi: byte, ghost code: seq<ushort>, ghost lo: byte) returns (n': nat)
    requires n < pat.Length && pat[..n] == code + [CCHAR, lo]
    modifies pat
    ensures n' == n + 1 && pat[..n'] == code + [RANGE, lo, hi]
    ensures forall j :: n' <= j < pat.Length ==> pat[j] == old(pat[j])
  {
    assert |code| == n - 2;
    assert pat[n - 1] == pat[..n][n - 1] == lo;
    assert pat[..n - 2] == pat[..n][..n - 2] == code;
    pat[n - 2] := RANGE;
    n' := Emit(pat, n, hi);
  }

  /** Adds one written member to a class. */
  method EmitItem(pat: array<ushort>, n: nat, c: byte, ghost code: seq<ushort>,
                  ghost items: seq<Item>) returns (n': nat)
    requires n + 1 < pat.Length && pat[..n] == code + EncodeItems(items)
    modifies pat
    ensures n' == n + 2 && pat[..n'] == code + EncodeItems(items + [One(c)])
    ensures forall j :: n' <= j < pat.Length ==> pat[j] == old(pat[j])
  {
    EncodeItemsAppends(items, One(c));
    n' := EmitPair(pat, n, CCHAR, c);
  }

  /** Makes the last written member of a class the low end of a range. */
  method EmitSpan(pat: array<ushort>, n: nat, hi: byte, ghost code: seq<ushort>, ghost front: seq<Item>, ghost lo: byte)
    returns (n': nat)
    requires n < pat.Length && pat[..n] == code + EncodeItems(front + [One(lo)])
    modifies pat
    ensures n' == n + 1 && pat[..n'] == code + EncodeItems(front + [Span(lo, hi)])
    ensures forall j :: n' <= j < pat.Length ==> pat[j] == old(pat[j])
  {
    EncodeItemsAppends(front, One(lo));
    EncodeItemsAppends(front, Span(lo, hi));
    n' := EmitRange(pat, n, hi, code + EncodeItems(front), lo);
  }

  lemma {:induction false} ClassCode(before: seq<ushort>, negated: bool, items: seq<Item>)
    ensures before + [if negated then NCCL else CCL] + EncodeItems(items) + [CCLEND]
         == before + EncodeElem(Char(Class(negated, items)))
  {
  }

  lemma {:induction false} SpanIsNext(text: seq<byte>, items: seq<Item>, q: nat, front: seq<Item>, lo: byte)
    requires q + 1 < |text| && text[q] == DASH && Peek(text, q + 1) != RBRACKET && items == front + [One(lo)]
    ensures var (hi, k) := Escaped(text, q + 1);
            NextItem(text, ClassScan(items, q, true)) == Some(ClassScan(front + [Span(lo, hi)], k + 1, false))
  {
    assert items[..|items| - 1] == front;
  }

  /** Compiles the high end of a range, written at `text[q]`. */
  method GetSpan(text: seq<byte>, pat: array<ushort>, m: nat, q: nat,
                 ghost code: seq<ushort>, ghost front: seq<Item>, ghost lo: byte)
    returns (m': nat, q': nat)
    requires q < |text| && m < pat.Length && pat[..m] == code + EncodeItems(front + [One(lo)])
    modifies pat
    ensures var (hi, k) := Escaped(text, q);
            q' == k + 1 && m' == m + 1 && pat[..m'] == code + EncodeItems(front + [Span(lo, hi)])
    ensures forall j :: m' <= j < pat.Length ==> pat[j] == old(pat[j])
  {
    var hi, k := GetChar(text, q);
    m' := EmitSpan(pat, m, hi, code, front, lo);
    q' := k + 1;
  }

  /** One turn of the class loop, at a character that does not end the class. */
  method GetItem(text: seq<byte>, pat: array<ushort>, m: nat, q: nat, ranok: bool,
                 ghost code: seq<ushort>, ghost items: seq<Item>)
    returns (more: bool, m': nat, q': nat, ranok': bool)
    requires q < |text| && m <= 2 * q + 1 && ClassScan(items, q, ranok).Valid()
    requires pat.Length >= 2 * |text| + 6 && pat[..m] == code + EncodeItems(items)
    modifies pat
    ensures match NextItem(text, ClassScan(items, q, ranok))
            case None => !more
            case Some(next) =>
              && more && q' == next.at && ranok' == next.ranok && m' <= 2 * q' + 1
              && pat[..m'] == code + EncodeItems(next.items)
              && forall j :: 2 * q' + 4 <= j < pat.Length ==> pat[j] == old(pat[j])
  {
    var c;
    if text[q] == DASH && ranok && Peek(text, q + 1) != RBRACKET {
      if q + 1 >= |text| {
        return false, m, q, ranok;
      }
      ghost var front, lo := items[..|items| - 1], items[|items| - 1].c;
      SpanIsNext(text, items, q, front, lo);
      m', q' := GetSpan(text, pat, m, q + 1, code, front, lo);
      return true, m', q', false;
    }
    c, q' := GetChar(text, q);
    assert NextItem(text, ClassScan(items, q, ranok)) == Some(ClassScan(items + [One(c)], q' + 1, true));
    m' := EmitItem(pat, m, c, code, items);
    return true, m', q' + 1, true;
  }

  /** Compiles the members of a class, from `text[p]` up to its `]`. */
  method GetItems(text: seq<byte>, p: nat, pat: array<ushort>, n: nat) returns (closed: bool, q: nat, m: nat)
    requires p <= |text| && n <= 2 * p + 1 && pat.Length >= 2 * |text| + 6
    modifies pat
    ensures match ScanItems(text, ClassScan([], p, false))
            case None => !closed
            case Some((items, k)) =>
              && closed && q == k && m <= 2 * q + 1
              && pat[..m] == old(pat[..n]) + EncodeItems(items)
              && forall j :: 2 * q + 4 <= j < pat.Length ==> pat[j] == old(pat[j])
  {
    q, m := p, n;
    var ranok := false;
    ghost var code, items, start := pat[..n], [], ClassScan([], p, false);
    while q < |text| && text[q] != RBRACKET
      invariant p <= q <= |text| && m <= 2 * q + 1 && ClassScan(items, q, ranok).Valid()
      invariant ScanItems(text, start) == ScanItems(text, ClassScan(items, q, ranok))
      invariant pat[..m] == code + EncodeItems(items)
      invariant forall j :: 2 * q + 4 <= j < pat.Length ==> pat[j] == old(pat[j])
      decreases |text| - q
    {
      ghost var next := NextItem(text, ClassScan(items, q, ranok));
      var more;
      more, m, q, ranok := GetItem(text, pat, m, q, ranok, code, items);
      if !more {
        return false, q, m;
      }
      items := next.value.items;
    }
    closed := q < |text|;
  }

  /** Compiles the class whose `[` is at `text[p]` into `pat` from `n` on. */
  method GetClass(text: seq<byte>, p: nat, pat: array<ushort>, n: nat)
    returns (closed: bool, p': nat, n': nat)
    requires p < |text| && text[p] == LBRACKET
    requires n <= 2 * p + 2 && pat.Length >= 2 * |text| + 6
    modifies pat
    ensures match ScanClass(text, p)
            case None => !closed
            case Some((s, k)) =>
              && closed && p' == k && n' <= 2 * p' + 4 && n' <= pat.Length
              && pat[..n'] == old(pat[..n]) + EncodeElem(Char(s))
              && forall j :: 2 * p' + 4 <= j < pat.Length ==> pat[j] == old(pat[j])
  {
    var q: nat := p + 1;
    var negated := Peek(text, q) == BANG;
    if negated {
      q := q + 1;
    }
    n' := Emit(pat, n, if negated then NCCL else CCL);
    ghost var scanned := ScanItems(text, ClassScan([], q, false));
    closed, p', n' := GetItems(text, q, pat, n');
    if closed {
      n' := Emit(pat, n', CCLEND);
      ClassCode(old(pat[..n]), negated, scanned.value.0);
    }
  }

  /** Shifts the code from `last` on up by one to put a CLOSE there; the slot after it is
      written too. */
  method InsertClose(pat: array<ushort>, n: nat, last: nat) returns (n': nat)
    requires last <= n && n + 1 < pat.Length
    modifies pat
    ensures n' == n + 1 && pat[..n'] == old(pat[..last]) + [CLOSE] + old(pat[last..n])
    ensures forall j :: n + 2 <= j < pat.Length ==> pat[j] == old(pat[j])
  {
    n' := n + 1;
    var t := n';
    while t != last
      invariant last <= t <= n'
      invariant forall j :: 0 <= j <= t ==> pat[j] == old(pat[j])
      invariant forall j :: t < j <= n' ==> pat[j] == old(pat[j - 1])
      invariant forall j :: n + 2 <= j < pat.Length ==> pat[j] == old(pat[j])
    {
      pat[t] := pat[t - 1];
      t := t - 1;
    }
    pat[last] := CLOSE;
  }

  /** Does the code find nothing at `last` that a `^` could close? */
  predicate NothingToClose(code: seq<ushort>, last: int)
    requires -1 <= last < |code|
  {
    last == -1 || code[last] == LPAR || code[last] == RPAR || code[last] == CLOSE
  }

  /** What the code's `last` has to tell a `^`: where the element it may close starts, or
      that there is none. */
  ghost predicate LastTells(es: seq<Elem>, ready: bool, code: seq<ushort>, last: int) {
    if ready && es != [] && es[|es| - 1].Char? then last == |Encode(es[..|es| - 1])| < |code|
    else -1 <= last < |code| && NothingToClose(code, last)
  }

  /** The translation goes on with a `^`. */
  predicate AtCaret(text: seq<byte>, delim: byte, at: nat) {
    at < |text| && text[at] != delim && text[at] == CARET
  }

  /** The code written so far stands for the translation so far. */
  ghost predicate Written(text: seq<byte>, delim: byte, st: State, code: seq<ushort>, last: int) {
    CodeOf(text, delim, st.es, st.ready, st.at, code, last)
  }

  ghost predicate CodeOf(text: seq<byte>, delim: byte, es: seq<Elem>, ready: bool, at: nat,
                         code: seq<ushort>, last: int) {
    && at <= |text|
    && code == Encode(es) && |code| <= 2 * at + 2
    && (AtCaret(text, delim, at) ==> LastTells(es, ready, code, last))
  }

  lemma {:induction false} WrittenAfterAdd(text: seq<byte>, delim: byte, es: seq<Elem>, code: seq<ushort>, e: Elem,
                                           next: nat)
    requires code == Encode(es)
    requires !e.Sbol? && (e.Seol? ==> !AtCaret(text, delim, next))
    requires |code| + |EncodeElem(e)| <= 2 * next + 2 && next <= |text|
    ensures CodeOf(text, delim, es + [e], true, next, code + EncodeElem(e), |code|)
  {
    EncodeAppends(es, e);
    var es' := es + [e];
    assert es'[..|es'| - 1] == es;
  }

  /** The code with a `^` compiled: the element at `last` closed, or a literal added. */
  function CaretCode(code: seq<ushort>, last: int): seq<ushort>
    requires -1 <= last < |code|
  {
    if NothingToClose(code, last) then code + [CCHAR, CARET] else code[..last] + [CLOSE] + code[last..]
  }

  lemma {:induction false} CaretCloses(front: seq<Elem>, s: Single, code: seq<ushort>, last: nat)
    requires code == Encode(front + [Char(s)]) && last == |Encode(front)|
    ensures last < |code| && !NothingToClose(code, last)
    ensures CaretCode(code, last) == Encode(front + [Close(s)])
    ensures LastTells(front + [Close(s)], true, CaretCode(code, last), last)
  {
    EncodeAppends(front, Char(s));
    EncodeAppends(front, Close(s));
    InsertBeforeLast(Encode(front), EncodeSingle(s), CLOSE);
    NothingLeftToClose(front, s, CaretCode(code, last), last);
  }

  lemma {:induction false} NothingLeftToClose(front: seq<Elem>, s: Single, code: seq<ushort>, last: nat)
    requires last < |code| && code[last] == CLOSE
    ensures LastTells(front + [Close(s)], true, code, last)
  {
  }

  lemma {:induction false} InsertBeforeLast(code: seq<ushort>, own: seq<ushort>, x: ushort)
    ensures var full, last := code + own, |code|;
            && full[..last] + [x] + full[last..] == code + ([x] + own)
            && (full[..last] + [x] + full[last..])[last] == x
            && (own != [] ==> full[last] == own[0])
  {
    assert (code + own)[..|code|] == code && (code + own)[|code|..] == own;
  }

  lemma {:induction false} WrittenAfterCaret(text: seq<byte>, delim: byte, st: State, code: seq<ushort>, last: int)
    requires Written(text, delim, st, code, last) && AtCaret(text, delim, st.at)
    ensures -1 <= last < |code|
    ensures Written(text, delim, CaretStep(st), CaretCode(code, last), last)
  {
    if st.Closable() {
      var front, s := st.es[..|st.es| - 1], st.es[|st.es| - 1].s;
      assert st.es == front + [Char(s)];
      CaretCloses(front, s, code, last);
    } else {
      EncodeAppends(st.es, Char(Lit(CARET)));
    }
  }

  lemma {:induction false} WrittenAfterPass(text: seq<byte>, delim: byte, st: State, code: seq<ushort>, last: int,
                                            nlp: nat, last': int)
    requires Written(text, delim, st, code, last) && AtTag(text, st.at)
    ensures Written(text, delim, Passed(st, nlp), code, last')
  {
    assert !AtCaret(text, delim, st.at + 1);
  }

  lemma {:induction false} WrittenAfterOpen(text: seq<byte>, delim: byte, st: State, code: seq<ushort>, last: int,
                                            k: tag)
    requires Written(text, delim, st, code, last) && AtTag(text, st.at) && st.nlp + 1 == k
    ensures Written(text, delim, Opened(st), code + [LPAR, k], |code|)
  {
    WrittenAfterAdd(text, delim, st.es, code, LPar(k), st.at + 1);
  }

  lemma {:induction false} WrittenAfterShut(text: seq<byte>, delim: byte, st: State, code: seq<ushort>, last: int,
                                            k: tag)
    requires Written(text, delim, st, code, last) && AtTag(text, st.at)
    requires st.stack != [] && k == st.stack[|st.stack| - 1]
    ensures Written(text, delim, Shut(st), code + [RPAR, k], |code|)
  {
    WrittenAfterAdd(text, delim, st.es, code, RPar(k), st.at + 1);
  }

  /** Compiles the element written at `text[p]`, where neither `^` nor a tag is. */
  method GetElem(text: seq<byte>, delim: byte, p: nat, pat: array<ushort>, n: nat)
    returns (closed: bool, p': nat, n': nat)
    requires p < |text| && text[p] != CARET && !AtTag(text, p)
    requires n <= 2 * p + 2 && pat.Length >= 2 * |text| + 6
    modifies pat
    ensures match NextElem(text, delim, p)
            case None => !closed
            case Some((e, next)) =>
              && closed && p' == next && n' <= 2 * p' + 2 && n' <= pat.Length
              && pat[..n'] == old(pat[..n]) + EncodeElem(e)
              && forall j :: 2 * p' + 6 <= j < pat.Length ==> pat[j] == old(pat[j])
  {
    closed, p' := true, p;
    if text[p] == QUERY {
      n' := Emit(pat, n, ANY);
    } else if text[p] == STAR {
      n' := EmitPair(pat, n, CLOSE, ANY);
    } else if text[p] == DOLLAR && (p + 1 >= |text| || text[p + 1] == delim) {
      n' := Emit(pat, n, SEOL);
    } else if text[p] == LBRACKET {
      closed, p', n' := GetClass(text, p, pat, n);
    } else {
      var code;
      code, p' := GetChar(text, p);
      n' := EmitPair(pat, n, CCHAR, code);
    }
    p' := p' + 1;
  }

  /** Compiles a `^`: it closes the element at `last`, or stands for itself. */
  method GetCaret(pat: array<ushort>, n: nat, last: int) returns (n': nat)
    requires -1 <= last < n && n + 1 < pat.Length
    modifies pat
    ensures n' <= n + 2 && n' <= pat.Length
    ensures pat[..n'] == CaretCode(old(pat[..n]), last)
    ensures forall j :: n + 2 <= j < pat.Length ==> pat[j] == old(pat[j])
  {
    ghost var code := pat[..n];
    if last == -1 || pat[last] == LPAR || pat[last] == RPAR || pat[last] == CLOSE {
      n' := EmitPair(pat, n, CCHAR, CARET);
    } else {
      assert pat[last..n] == code[last..] && pat[..last] == code[..last];
      n' := InsertClose(pat, n, last);
    }
  }

  /** The first `pstack` slots of the stack hold the tags still open. */
  ghost predicate Stacked(parstack: array<tag>, pstack: nat, nlp: nat, stack: seq<tag>)
    reads parstack
  {
    parstack.Length == TAGS && pstack == |stack| < TAGS && pstack <= nlp && parstack[..pstack] == stack
  }

  /** One turn of the compiling loop, on a `^` or an element. */
  method PlainTurn(text: seq<byte>, delim: byte, pat: array<ushort>, p: nat, n: nat, last: int,
                   ghost st: State, ghost code: seq<ushort>)
    returns (fine: bool, p': nat, n': nat, last': int, ghost code': seq<ushort>, ghost next: State)
    requires p == st.at < |text| && text[p] != delim && !AtTag(text, p)
    requires pat.Length >= 2 * |text| + 6 && n <= pat.Length
    requires pat[..n] == code && Written(text, delim, st, code, last)
    modifies pat
    ensures Step(text, delim, st) == if fine then Go(next) else Over
    ensures fine ==> p < p' == next.at && next.nlp == st.nlp && next.stack == st.stack
    ensures fine ==> Written(text, delim, next, code', last')
    ensures fine ==> n' <= pat.Length && pat[..n'] == code'
    ensures fine ==> forall j :: 2 * p' + 6 <= j < pat.Length ==> pat[j] == old(pat[j])
  {
    if text[p] == CARET {
      WrittenAfterCaret(text, delim, st, code, last);
      n' := GetCaret(pat, n, last);
      return true, p + 1, n', last, CaretCode(code, last), CaretStep(st);
    }
    fine, p', n' := GetElem(text, delim, p, pat, n);
    last', code', next := n, code, st;
    if fine {
      ghost var e := NextElem(text, delim, p).value.0;
      code', next := code + EncodeElem(e), st.Add(e, p');
      WrittenAfterAdd(text, delim, st.es, code, e, p');
    }
  }

  /** Pushes a tag that is opened. */
  method Push(parstack: array<tag>, pstack: nat, k: tag, ghost stack: seq<tag>) returns (pstack': nat)
    requires pstack < k && Stacked(parstack, pstack, k - 1, stack)
    modifies parstack
    ensures Stacked(parstack, pstack', k, stack + [k])
  {
    parstack[pstack] := k;
    pstack' := pstack + 1;
  }

  /** Compiles a `\(` that opens tag `k`. */
  method OpenTag(text: seq<byte>, delim: byte, pat: array<ushort>, parstack: array<tag>, n: nat, pstack: nat, k: tag,
                 ghost st: State, ghost code: seq<ushort>, ghost last: int)
    returns (n': nat, pstack': nat, ghost code': seq<ushort>)
    requires AtTag(text, st.at) && k == st.nlp + 1 && n + 1 < pat.Length && pat as object != parstack
    requires pat[..n] == code && Written(text, delim, st, code, last) && Stacked(parstack, pstack, st.nlp, st.stack)
    modifies pat, parstack
    ensures n' == n + 2 && Stacked(parstack, pstack', k, Opened(st).stack)
    ensures Written(text, delim, Opened(st), code', n) && pat[..n'] == code'
    ensures forall j :: n' <= j < pat.Length ==> pat[j] == old(pat[j])
  {
    WrittenAfterOpen(text, delim, st, code, last, k);
    pstack' := Push(parstack, pstack, k, st.stack);
    n' := EmitPair(pat, n, LPAR, k);
    code' := code + [LPAR, k];
  }

  /** One turn of the compiling loop, on `\(`. */
  method OpenTurn(text: seq<byte>, delim: byte, pat: array<ushort>, parstack: array<tag>,
                  p: nat, n: nat, pstack: nat, nlp: nat, ghost st: State, ghost code: seq<ushort>, ghost last: int)
    returns (n': nat, pstack': nat, nlp': nat, ghost code': seq<ushort>, ghost next: State)
    requires p == st.at && AtTag(text, p) && text[p + 1] == OPEN && nlp == st.nlp
    requires pat.Length >= 2 * |text| + 6 && n <= pat.Length && pat as object != parstack
    requires pat[..n] == code && Written(text, delim, st, code, last) && Stacked(parstack, pstack, nlp, st.stack)
    modifies pat, parstack
    ensures TagStep(st, true) == Go(next)
    ensures p + 1 == next.at && nlp' == next.nlp && Stacked(parstack, pstack', nlp', next.stack)
    ensures Written(text, delim, next, code', n) && n' <= pat.Length && pat[..n'] == code'
    ensures forall j :: 2 * p + 8 <= j < pat.Length ==> pat[j] == old(pat[j])
  {
    n', pstack', nlp', code' := n, pstack, nlp + 1, code;
    next := Passed(st, nlp');
    WrittenAfterPass(text, delim, st, code, last, nlp', n);
    if nlp' < TAGS {
      n', pstack', code' := OpenTag(text, delim, pat, parstack, n, pstack, nlp', st, code, last);
      next := Opened(st);
    }
  }

  /** Pops the tag that is closed. */
  method Pop(parstack: array<tag>, pstack: nat, ghost nlp: nat, ghost stack: seq<tag>) returns (k: tag, pstack': nat)
    requires pstack > 0 && Stacked(parstack, pstack, nlp, stack)
    ensures Stacked(parstack, pstack', nlp, stack[..|stack| - 1]) && k == stack[|stack| - 1]
  {
    pstack' := pstack - 1;
    k := parstack[pstack'];
  }

  /** Compiles a `\)` that closes a tag. */
  method ShutTag(text: seq<byte>, delim: byte, pat: array<ushort>, parstack: array<tag>, n: nat, pstack: nat,
                 ghost st: State, ghost code: seq<ushort>, ghost last: int)
    returns (n': nat, pstack': nat, ghost code': seq<ushort>)
    requires AtTag(text, st.at) && st.nlp < TAGS && st.stack != []
    requires n + 1 < pat.Length && pat as object != parstack
    requires pat[..n] == code && Written(text, delim, st, code, last) && Stacked(parstack, pstack, st.nlp, st.stack)
    modifies pat
    ensures n' == n + 2 && Stacked(parstack, pstack', st.nlp, Shut(st).stack)
    ensures Written(text, delim, Shut(st), code', n) && pat[..n'] == code'
    ensures forall j :: n' <= j < pat.Length ==> pat[j] == old(pat[j])
  {
    var k;
    k, pstack' := Pop(parstack, pstack, st.nlp, st.stack);
    WrittenAfterShut(text, delim, st, code, last, k);
    n' := EmitPair(pat, n, RPAR, k);
    code' := code + [RPAR, k];
  }

  /** One turn of the compiling loop, on `\)`. */
  method ShutTurn(text: seq<byte>, delim: byte, pat: array<ushort>, parstack: array<tag>,
                  p: nat, n: nat, pstack: nat, nlp: nat, ghost st: State, ghost code: seq<ushort>, ghost last: int)
    returns (open: bool, n': nat, pstack': nat, nlp': nat, ghost code': seq<ushort>, ghost next: State)
    requires p == st.at && AtTag(text, p) && text[p + 1] != OPEN && nlp == st.nlp
    requires pat.Length >= 2 * |text| + 6 && n <= pat.Length && pat as object != parstack
    requires pat[..n] == code && Written(text, delim, st, code, last) && Stacked(parstack, pstack, nlp, st.stack)
    modifies pat
    ensures TagStep(st, false) == if open then Go(next) else Under
    ensures open ==> p + 1 == next.at && nlp' == next.nlp && Stacked(parstack, pstack', nlp', next.stack)
    ensures open ==> Written(text, delim, next, code', n) && n' <= pat.Length && pat[..n'] == code'
    ensures forall j :: 2 * p + 8 <= j < pat.Length ==> pat[j] == old(pat[j])
  {
    open, n', pstack', nlp', code', next := true, n, pstack, nlp, code, st;
    if TAGS <= nlp {
      nlp' := nlp - 1;
      next := Passed(st, nlp');
      WrittenAfterPass(text, delim, st, code, last, nlp', n);
    } else if pstack == 0 {
      open := false;
    } else {
      n', pstack', code' := ShutTag(text, delim, pat, parstack, n, pstack, st, code, last);
      next := Shut(st);
    }
  }

  /** One turn of the compiling loop, on a tag. */
  method TagTurn(text: seq<byte>, delim: byte, pat: array<ushort>, parstack: array<tag>,
                 p: nat, n: nat, pstack: nat, nlp: nat, ghost st: State, ghost code: seq<ushort>, ghost last: int)
    returns (fine: bool, n': nat, pstack': nat, nlp': nat, ghost code': seq<ushort>, ghost next: State)
    requires p == st.at && AtTag(text, p) && text[p] != delim && nlp == st.nlp
    requires pat.Length >= 2 * |text| + 6 && n <= pat.Length && pat as object != parstack
    requires pat[..n] == code && Written(text, delim, st, code, last) && Stacked(parstack, pstack, nlp, st.stack)
    modifies pat, parstack
    ensures Step(text, delim, st) == if fine then Go(next) else Under
    ensures fine ==> p + 1 == next.at && nlp' == next.nlp && Stacked(parstack, pstack', nlp', next.stack)
    ensures fine ==> Written(text, delim, next, code', n) && n' <= pat.Length && pat[..n'] == code'
    ensures forall j :: 2 * p + 8 <= j < pat.Length ==> pat[j] == old(pat[j])
  {
    if text[p + 1] == OPEN {
      fine := true;
      n', pstack', nlp', code', next := OpenTurn(text, delim, pat, parstack, p, n, pstack, nlp, st, code, last);
    } else {
      fine, n', pstack', nlp', code', next := ShutTurn(text, delim, pat, parstack, p, n, pstack, nlp, st, code, last);
    }
  }

  /** One turn of the compiling loop. */
  method Turn(text: seq<byte>, delim: byte, pat: array<ushort>, parstack: array<tag>,
              p: nat, n: nat, last: int, pstack: nat, nlp: nat, ghost st: State, ghost code: seq<ushort>)
    returns (fine: bool, p': nat, n': nat, last': int, pstack': nat, nlp': nat,
             ghost code': seq<ushort>, ghost next: State)
    requires p == st.at < |text| && text[p] != delim && nlp == st.nlp
    requires pat.Length >= 2 * |text| + 6 && n <= pat.Length && pat as object != parstack
    requires pat[..n] == code && Written(text, delim, st, code, last) && Stacked(parstack, pstack, nlp, st.stack)
    modifies pat, parstack
    ensures !fine ==> !Step(text, delim, st).Go?
    ensures fine ==> Step(text, delim, st) == Go(next) && p < p' == next.at && nlp' == next.nlp
    ensures fine ==> Stacked(parstack, pstack', nlp', next.stack) && Written(text, delim, next, code', last')
    ensures fine ==> n' <= pat.Length && pat[..n'] == code'
    ensures fine ==> forall j :: 2 * p' + 6 <= j < pat.Length ==> pat[j] == old(pat[j])
  {
    pstack', nlp' := pstack, nlp;
    if AtTag(text, p) {
      fine, n', pstack', nlp', code', next := TagTurn(text, delim, pat, parstack, p, n, pstack, nlp, st, code, last);
      p', last' := p + 1, n;
    } else {
      fine, p', n', last', code', next := PlainTurn(text, delim, pat, p, n, last, st, code);
    }
  }

  /** What the caller sees: the place of the delimiter when the expression is well formed. */
  datatype Verdict = Accepted(at: nat) | Rejected | Undefined

  /** Compiles the expression in `text` up to `delim` into `pat`. Where the C code reads past
      the terminator or pops an empty stack the verdict is Undefined. */
  method Pattern(pat: array<ushort>, delim: byte, text: seq<byte>) returns (verdict: Verdict)
    requires pat.Length >= 2 * |text| + 6
    modifies pat
    ensures match Compile(text, delim)
            case Done(es, stop, balanced) =>
              && verdict == (if Peek(text, stop) == delim && balanced then Accepted(stop) else Rejected)
              && |Encode(es)| + 2 <= 2 * stop + 6 <= pat.Length
              && pat[..|Encode(es)| + 2] == Encode(es) + [PEND, 0]
              && forall j :: 2 * stop + 6 <= j < pat.Length ==> pat[j] == old(pat[j])
            case _ => verdict == Undefined
  {
    var parstack := new tag[TAGS](_ => 0);
    var p: nat, n: nat, last: int, pstack: nat, nlp: nat := 0, 0, -1, 0, 0;
    if Peek(text, 0) == CARET {
      p := p + 1;
      n := Emit(pat, n, SBOL);
    }
    n := EmitPair(pat, n, LPAR, 0);
    ghost var st, code := Start(text), pat[..n];
    StartIsWritten(text, delim);
    while p < |text| && text[p] != delim
      invariant p == st.at <= |text| && n <= pat.Length && nlp == st.nlp
      invariant pat[..n] == code && Written(text, delim, st, code, last) && Stacked(parstack, pstack, nlp, st.stack)
      invariant Translate(text, delim, st) == Compile(text, delim)
      invariant forall j :: 2 * p + 6 <= j < pat.Length ==> pat[j] == old(pat[j])
      decreases |text| - p
    {
      var fine;
      fine, p, n, last, pstack, nlp, code, st := Turn(text, delim, pat, parstack, p, n, last, pstack, nlp, st, code);
      if !fine {
        return Undefined;
      }
    }
    n := Finish(pat, n, st.es);
    verdict := if Peek(text, p) == delim && pstack == 0 then Accepted(p) else Rejected;
  }

  /** Closes the tag of the whole match and ends the pattern. */
  method Finish(pat: array<ushort>, n: nat, ghost es: seq<Elem>) returns (n': nat)
    requires n + 3 < pat.Length && pat[..n] == Encode(es)
    modifies pat
    ensures n' == n + 4 == |Encode(es + [RPar(0)])| + 2
    ensures pat[..n'] == Encode(es + [RPar(0)]) + [PEND, 0]
    ensures forall j :: n + 4 <= j < pat.Length ==> pat[j] == old(pat[j])
  {
    EncodeAppends(es, RPar(0));
    n' := EmitPair(pat, n, RPAR, 0);
    n' := EmitPair(pat, n', PEND, 0);
  }

  lemma {:induction false} StartIsWritten(text: seq<byte>, delim: byte)
    ensures Written(text, delim, Start(text), if Peek(text, 0) == CARET then [SBOL, LPAR, 0] else [LPAR, 0], -1)
  {
    EncodeAppends([], LPar(0));
    EncodeAppends([], Sbol);
    EncodeAppends([Sbol], LPar(0));
    assert [] + [LPar(0)] == [LPar(0)] && [] + [Sbol] == [Sbol] && [Sbol] + [LPar(0)] == [Sbol, LPar(0)];
  }
}
