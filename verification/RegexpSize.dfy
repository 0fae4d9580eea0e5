/** How much room a compiled pattern takes, counted on the text of the expression. */
module RegexpSize {
  import opened Bytes
  import opened Options
  import opened RegexpCode
  import opened RegexpCompile

  // A character of an expression makes two elements at most; what it makes less is spared.

  /** What the characters inside a class, from `i` on, spare. */
  function SparedInClass(text: seq<byte>, i: nat, ranok: bool): nat
    decreases |text| - i
  {
    if i >= |text| || text[i] == RBRACKET then 0
    else if text[i] == DASH && ranok && Peek(text, i + 1) != RBRACKET then
      if i + 1 >= |text| then 0
      else
        var k := Escaped(text, i + 1).1;
        (k - i) * 2 + 1 + SparedInClass(text, k + 1, false)
    else
      var k := Escaped(text, i).1;
      (k - i) * 2 + SparedInClass(text, k + 1, true)
  }

  /** What the class whose `[` is at `i` spares. */
  function SparedByClass(text: seq<byte>, i: nat): nat {
    if Peek(text, i + 1) == BANG then 4 + SparedInClass(text, i + 2, false)
    else 2 + SparedInClass(text, i + 1, false)
  }

  /** What the expression from `at` on spares; `closable` tells whether a `^` there closes the
      element before it, `nlp` how many tags were opened. */
  function Spared(text: seq<byte>, delim: byte, at: nat, closable: bool, nlp: nat): nat
    decreases |text| - at
  {
    if at >= |text| || text[at] == delim then 0
    else if text[at] == CARET then (if closable then 1 else 0) + Spared(text, delim, at + 1, false, nlp)
    else if AtTag(text, at) then
      if text[at + 1] == OPEN then
        if nlp + 1 < TAGS then Spared(text, delim, at + 1, false, nlp + 1)
        else 2 + Spared(text, delim, at + 1, closable, nlp + 1)
      else if TAGS <= nlp then 2 + Spared(text, delim, at + 1, closable, nlp - 1)
      else Spared(text, delim, at + 1, false, nlp)
    else if text[at] == QUERY then 1 + Spared(text, delim, at + 1, true, nlp)
    else if text[at] == STAR then Spared(text, delim, at + 1, false, nlp)
    else if text[at] == DOLLAR && (at + 1 >= |text| || text[at + 1] == delim) then 1
    else if text[at] == LBRACKET then
      match ScanClass(text, at)
      case None => 0
      case Some((_, k)) => SparedByClass(text, at) + Spared(text, delim, k + 1, true, nlp)
    else
      var k := Escaped(text, at).1;
      (k - at) * 2 + Spared(text, delim, k + 1, true, nlp)
  }

  // ----- the sizes of the parts

  lemma {:induction false} ItemsSizeAppends(items: seq<Item>, item: Item)
    ensures ItemsSize(items + [item]) == ItemsSize(items) + ItemSize(item)
    decreases |items|
  {
    if items == [] {
      assert items + [item] == [item];
    } else {
      assert (items + [item])[0] == items[0] && (items + [item])[1..] == items[1..] + [item];
      ItemsSizeAppends(items[1..], item);
    }
  }

  lemma {:induction false} ItemsCode(items: seq<Item>)
    ensures |EncodeItems(items)| == ItemsSize(items)
    decreases |items|
  {
    if items != [] {
      ItemsCode(items[1..]);
    }
  }

  lemma {:induction false} ElemCode(e: Elem)
    ensures |EncodeElem(e)| == Size(e)
  {
    if (e.Char? || e.Close?) && e.s.Class? {
      ItemsCode(e.s.items);
    }
  }

  /** One more member: what it adds, and what its characters spare, come to two a character. */
  lemma {:induction false} NextItemSize(text: seq<byte>, cs: ClassScan)
    requires cs.Valid() && cs.at < |text| && text[cs.at] != RBRACKET && NextItem(text, cs).Some?
    ensures var next := NextItem(text, cs).value;
            ItemsSize(next.items) + SparedInClass(text, cs.at, cs.ranok) ==
            ItemsSize(cs.items) + SparedInClass(text, next.at, next.ranok) + (next.at - cs.at) * 2
  {
    var items, i := cs.items, cs.at;
    if text[i] == DASH && cs.ranok && Peek(text, i + 1) != RBRACKET {
      var last := |items| - 1;
      assert items == items[..last] + [items[last]];
      ItemsSizeAppends(items[..last], items[last]);
      ItemsSizeAppends(items[..last], Span(items[last].c, Escaped(text, i + 1).0));
    } else {
      ItemsSizeAppends(items, One(Escaped(text, i).0));
    }
  }

  lemma {:induction false} ScanItemsSize(text: seq<byte>, cs: ClassScan)
    requires cs.Valid() && ScanItems(text, cs).Some?
    ensures var (items, k) := ScanItems(text, cs).value;
            ItemsSize(items) + SparedInClass(text, cs.at, cs.ranok) == ItemsSize(cs.items) + (k - cs.at) * 2
    decreases |text| - cs.at
  {
    if text[cs.at] != RBRACKET {
      NextItemSize(text, cs);
      ScanItemsSize(text, NextItem(text, cs).value);
    }
  }

  lemma {:induction false} ClassSize(text: seq<byte>, i: nat)
    requires ScanClass(text, i).Some?
    ensures var (s, k) := ScanClass(text, i).value;
            SingleSize(s) + SparedByClass(text, i) == (k + 1 - i) * 2
  {
    var negated := Peek(text, i + 1) == BANG;
    ScanItemsSize(text, ClassScan([], if negated then i + 2 else i + 1, false));
  }

  // ----- the size of a pattern

  ghost function SparedFrom(text: seq<byte>, delim: byte, st: State): nat {
    Spared(text, delim, st.at, st.Closable(), st.nlp)
  }

  lemma {:induction false} CodeAppends(es: seq<Elem>, e: Elem)
    ensures |Encode(es + [e])| == |Encode(es)| + Size(e)
  {
    EncodeAppends(es, e);
    ElemCode(e);
  }

  lemma {:induction false} CloseAddsOne(st: State)
    requires st.Closable()
    ensures |Encode(st.CloseLast().es)| == |Encode(st.es)| + 1
  {
    var front, e := st.es[..|st.es| - 1], st.es[|st.es| - 1];
    assert st.es == front + [e];
    CodeAppends(front, e);
    CodeAppends(front, Close(e.s));
  }

  lemma {:induction false} CaretStepSize(text: seq<byte>, delim: byte, st: State)
    requires st.at < |text| && text[st.at] != delim && text[st.at] == CARET
    ensures var next := CaretStep(st);
            |Encode(next.es)| + SparedFrom(text, delim, st) == |Encode(st.es)| + SparedFrom(text, delim, next) + 2
  {
    if st.Closable() {
      CloseAddsOne(st);
      assert !CaretStep(st).Closable();
    } else {
      CodeAppends(st.es, Char(Lit(CARET)));
    }
  }

  /** A tag is written, or only counted. */
  lemma {:induction false} TagStepCode(st: State, open: bool, next: State)
    requires TagStep(st, open) == Go(next)
    ensures next.at == st.at + 1
    ensures if (open && st.nlp + 1 < TAGS) || (!open && st.nlp < TAGS)
            then |Encode(next.es)| == |Encode(st.es)| + 2 && !next.Closable()
            else next.es == st.es && next.Closable() == st.Closable()
    ensures next.nlp == if open then st.nlp + 1 else if TAGS <= st.nlp then st.nlp - 1 else st.nlp
  {
    if |next.es| > |st.es| {
      var e := next.es[|st.es|];
      assert next.es == st.es + [e];
      CodeAppends(st.es, e);
    }
  }

  lemma {:induction false} SparedByTag(text: seq<byte>, delim: byte, at: nat, closable: bool, nlp: nat)
    requires at < |text| && text[at] != delim && AtTag(text, at)
    ensures var open := text[at + 1] == OPEN;
            var written := (open && nlp + 1 < TAGS) || (!open && nlp < TAGS);
            Spared(text, delim, at, closable, nlp) ==
            (if written then 0 else 2) +
            Spared(text, delim, at + 1, closable && !written,
                   if open then nlp + 1 else if TAGS <= nlp then nlp - 1 else nlp)
  {
  }

  lemma {:induction false} TagStepSize(text: seq<byte>, delim: byte, st: State, next: State)
    requires st.at < |text| && text[st.at] != delim && AtTag(text, st.at)
    requires TagStep(st, text[st.at + 1] == OPEN) == Go(next)
    ensures |Encode(next.es)| + SparedFrom(text, delim, st) == |Encode(st.es)| + SparedFrom(text, delim, next) + 2
  {
    TagStepCode(st, text[st.at + 1] == OPEN, next);
    SparedByTag(text, delim, st.at, st.Closable(), st.nlp);
    var open := text[st.at + 1] == OPEN;
    if (open && st.nlp + 1 < TAGS) || (!open && st.nlp < TAGS) {
      assert SparedFrom(text, delim, st) == SparedFrom(text, delim, next);
    } else {
      assert SparedFrom(text, delim, st) == SparedFrom(text, delim, next) + 2;
    }
  }

  lemma {:induction false} ElemSize(text: seq<byte>, delim: byte, at: nat, closable: bool, nlp: nat)
    requires at < |text| && text[at] != delim && text[at] != CARET && !AtTag(text, at)
    requires NextElem(text, delim, at).Some?
    ensures var (e, next) := NextElem(text, delim, at).value;
            Size(e) + Spared(text, delim, at, closable, nlp) ==
            Spared(text, delim, next, e.Char?, nlp) + (next - at) * 2
  {
    if text[at] == LBRACKET {
      ClassSize(text, at);
    }
  }

  lemma {:induction false} ElemStepSize(text: seq<byte>, delim: byte, st: State)
    requires st.at < |text| && text[st.at] != delim && text[st.at] != CARET && !AtTag(text, st.at)
    requires NextElem(text, delim, st.at).Some?
    ensures var (e, next) := NextElem(text, delim, st.at).value;
            |Encode(st.es + [e])| + SparedFrom(text, delim, st) ==
            |Encode(st.es)| + Spared(text, delim, next, e.Char?, st.nlp) + (next - st.at) * 2
  {
    CodeAppends(st.es, NextElem(text, delim, st.at).value.0);
    ElemSize(text, delim, st.at, st.Closable(), st.nlp);
  }

  /** One turn: what it writes, and what its characters spare, come to two a character. */
  lemma {:induction false} StepSize(text: seq<byte>, delim: byte, st: State, next: State)
    requires st.at < |text| && text[st.at] != delim && Step(text, delim, st) == Go(next)
    ensures |Encode(next.es)| + SparedFrom(text, delim, st) ==
            |Encode(st.es)| + SparedFrom(text, delim, next) + (next.at - st.at) * 2
  {
    if text[st.at] == CARET {
      CaretStepSize(text, delim, st);
    } else if AtTag(text, st.at) {
      TagStepCode(st, text[st.at + 1] == OPEN, next);
      TagStepSize(text, delim, st, next);
    } else {
      ElemStepSize(text, delim, st);
    }
  }

  lemma {:induction false} TranslationSize(text: seq<byte>, delim: byte, st: State)
    requires st.at <= |text| && Translate(text, delim, st).Done?
    ensures var c := Translate(text, delim, st);
            |Encode(c.es)| + SparedFrom(text, delim, st) == |Encode(st.es)| + (c.stop - st.at) * 2 + 2
    decreases |text| - st.at
  {
    if st.at >= |text| || text[st.at] == delim {
      CodeAppends(st.es, RPar(0));
    } else {
      var next := Step(text, delim, st).st;
      StepSize(text, delim, st, next);
      TranslationSize(text, delim, next);
    }
  }

  /** What a whole expression spares. */
  function SparedInAll(text: seq<byte>, delim: byte): nat {
    if Peek(text, 0) == CARET then 1 + Spared(text, delim, 1, false, 0) else Spared(text, delim, 0, false, 0)
  }

  /** Exactly how many elements a pattern takes, with the two that end it. */
  lemma {:induction false} PatternSize(text: seq<byte>, delim: byte)
    requires Compile(text, delim).Done?
    ensures var c := Compile(text, delim);
            |Encode(c.es) + [PEND, 0]| + SparedInAll(text, delim) == c.stop * 2 + 6
  {
    TranslationSize(text, delim, Start(text));
    CodeAppends([], LPar(0));
    CodeAppends([Sbol], LPar(0));
    CodeAppends([], Sbol);
    assert [] + [LPar(0)] == [LPar(0)] && [Sbol] + [LPar(0)] == [Sbol, LPar(0)] && [] + [Sbol] == [Sbol];
  }

  /** The manual's bound, two elements for every character up to and with the delimiter, holds
      exactly for the expressions that spare four. */
  lemma {:induction false} ManualBoundHoldsIff(text: seq<byte>, delim: byte)
    requires Compile(text, delim).Done?
    ensures var c := Compile(text, delim);
            |Encode(c.es) + [PEND, 0]| <= (c.stop + 1) * 2 <==> SparedInAll(text, delim) >= 4
  {
    PatternSize(text, delim);
  }
}
