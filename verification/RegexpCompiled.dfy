/** What compiled patterns look like, and that the compiler means what it writes. */
module RegexpCompiled {
  import opened Bytes
  import opened Options
  import opened RegexpCode
  import opened RegexpSearch
  import opened RegexpMatch
  import opened RegexpTags
  import opened RegexpCompile

  // ----- tags

  datatype TagState = Unused | Open | Closed | Misused

  function TagStateOf(es: seq<Elem>, k: tag): TagState
    decreases |es|
  {
    if es == [] then Unused
    else
      var before := TagStateOf(es[..|es| - 1], k);
      match es[|es| - 1]
      case LPar(t) => if t != k then before else if before == Unused then Open else Misused
      case RPar(t) => if t != k then before else if before == Open then Closed else Misused
      case _ => before
  }

  lemma {:induction false} TagStateAppends(es: seq<Elem>, e: Elem, k: tag)
    ensures TagStateOf(es + [e], k)
         == match e
            case LPar(t) =>
              if t != k then TagStateOf(es, k) else if TagStateOf(es, k) == Unused then Open else Misused
            case RPar(t) =>
              if t != k then TagStateOf(es, k) else if TagStateOf(es, k) == Open then Closed else Misused
            case _ => TagStateOf(es, k)
  {
    assert (es + [e])[..|es + [e]| - 1] == es;
  }

  /** Tag `k` is opened at element `a` and not touched otherwise. */
  predicate Pending(es: seq<Elem>, k: tag, a: nat) {
    a < |es| && es[a] == LPar(k) && TagFree(es[..a], k) && TagFree(es[a + 1..], k)
  }

  lemma {:induction false} PendingAppends(front: seq<Elem>, e: Elem, k: tag, a: nat)
    requires Pending(front, k, a)
    ensures e == RPar(k) ==> Tagged(front + [e], k, a, |front|)
    ensures e != RPar(k) && e != LPar(k) ==> Pending(front + [e], k, a)
  {
    var es, n := front + [e], |front|;
    assert es[..a] == front[..a] && es[a + 1..n] == front[a + 1..] && es[n + 1..] == [];
    assert es[a + 1..] == front[a + 1..] + [e];
  }

  lemma {:induction false} TaggedAppends(front: seq<Elem>, e: Elem, k: tag, a: nat, b: nat)
    requires Tagged(front, k, a, b) && e != LPar(k) && e != RPar(k)
    ensures Tagged(front + [e], k, a, b)
  {
    var es := front + [e];
    assert es[..a] == front[..a] && es[a + 1..b] == front[a + 1..b] && es[b + 1..] == front[b + 1..] + [e];
  }

  /** A tag that was opened and then closed, and nothing else, is a tagged part of the pattern. */
  lemma {:induction false} ClosedIsTagged(es: seq<Elem>, k: tag)
    ensures match TagStateOf(es, k)
            case Unused => TagFree(es, k)
            case Open => exists a: nat :: Pending(es, k, a)
            case Closed => exists a: nat, b: nat :: Tagged(es, k, a, b)
            case Misused => true
    decreases |es|
  {
    if es != [] {
      var n := |es| - 1;
      var front, e := es[..n], es[n];
      assert es == front + [e];
      ClosedIsTagged(front, k);
      match TagStateOf(front, k) {
        case Unused =>
          if e == LPar(k) {
            assert es[..n] == front && es[n + 1..] == [];
            assert Pending(es, k, n);
          }
        case Open =>
          var a: nat :| Pending(front, k, a);
          PendingAppends(front, e, k, a);
        case Closed =>
          var a: nat, b: nat :| Tagged(front, k, a, b);
          if e != LPar(k) && e != RPar(k) {
            TaggedAppends(front, e, k, a, b);
          }
        case Misused =>
      }
    }
  }

  lemma {:induction false} ProperTagsAreNotReopened(es: seq<Elem>)
    requires forall k: tag :: TagStateOf(es, k) != Misused
    ensures NoReopening(es)
    decreases |es|
  {
    if es != [] {
      var front, e := es[..|es| - 1], es[|es| - 1];
      assert es == front + [e];
      forall k: tag ensures TagStateOf(front, k) != Misused {
        assert TagStateOf(es, k) != Misused;
        TagStateAppends(front, e, k);
      }
      ProperTagsAreNotReopened(front);
      if e.LPar? {
        TagStateAppends(front, e, e.k);
        ClosedIsTagged(front, e.k);
        assert RPar(e.k) !in front;
      }
    }
  }

  /** What a translation knows about its tags. */
  ghost predicate TagsInOrder(st: State) {
    && (forall a, b :: 0 <= a < b < |st.stack| ==> st.stack[a] < st.stack[b])
    && (forall a :: 0 <= a < |st.stack| ==> 0 < st.stack[a] <= st.nlp)
    && (forall k: tag :: TagStateOf(st.es, k) ==
          if k == 0 || k in st.stack then Open else if k <= st.nlp then Closed else Unused)
  }

  lemma {:induction false} StepKeepsTags(text: seq<byte>, delim: byte, st: State)
    requires st.at < |text| && TagsInOrder(st)
    ensures var r := Step(text, delim, st); r.Go? ==> TagsInOrder(r.st)
  {
    var r := Step(text, delim, st);
    if r.Go? {
      if text[st.at] == CARET && st.Closable() {
        ClosingKeepsTags(st, r.st);
      } else if |r.st.es| > |st.es| {
        var e := r.st.es[|st.es|];
        assert r.st.es == st.es + [e];
        forall k: tag {
          TagStateAppends(st.es, e, k);
        }
        StackAfterTag(st, r.st, e);
      }
    }
  }

  lemma {:induction false} ClosingKeepsTags(st: State, next: State)
    requires TagsInOrder(st) && next.stack == st.stack && next.nlp == st.nlp
    requires st.es != [] && st.es[|st.es| - 1].Char?
    requires next.es == st.es[..|st.es| - 1] + [Close(st.es[|st.es| - 1].s)]
    ensures TagsInOrder(next)
  {
    var front, e := st.es[..|st.es| - 1], st.es[|st.es| - 1];
    assert st.es == front + [e];
    forall k: tag ensures TagStateOf(next.es, k) == TagStateOf(st.es, k) {
      TagStateAppends(front, e, k);
      TagStateAppends(front, Close(e.s), k);
    }
  }

  lemma {:induction false} StackAfterTag(st: State, next: State, e: Elem)
    requires TagsInOrder(st) && next.es == st.es + [e]
    requires match e
             case LPar(k) => k == st.nlp + 1 == next.nlp && next.stack == st.stack + [k]
             case RPar(k) => st.stack != [] && k == st.stack[|st.stack| - 1]
                             && next.stack == st.stack[..|st.stack| - 1] && next.nlp == st.nlp
             case _ => next.stack == st.stack && next.nlp == st.nlp
    ensures TagsInOrder(next)
  {
    forall k: tag
      ensures TagStateOf(next.es, k) ==
              if k == 0 || k in next.stack then Open else if k <= next.nlp then Closed else Unused
    {
      TagStateAppends(st.es, e, k);
      if e.RPar? {
        PoppedTag(st.stack, k);
      }
    }
  }

  lemma {:induction false} PoppedTag(stack: seq<tag>, k: tag)
    requires stack != [] && forall a, b :: 0 <= a < b < |stack| ==> stack[a] < stack[b]
    ensures k in stack[..|stack| - 1] <==> k in stack && k != stack[|stack| - 1]
  {
    assert stack == stack[..|stack| - 1] + [stack[|stack| - 1]];
  }

  lemma {:induction false} TranslationKeepsTags(text: seq<byte>, delim: byte, st: State)
    requires st.at <= |text| && TagsInOrder(st)
    ensures match Translate(text, delim, st)
            case Done(es, _, balanced) =>
              && TagStateOf(es, 0) == Closed
              && forall k: tag :: TagStateOf(es, k) != Misused && (balanced ==> TagStateOf(es, k) != Open)
            case _ => true
    decreases |text| - st.at
  {
    if st.at >= |text| || text[st.at] == delim {
      forall k: tag {
        TagStateAppends(st.es, RPar(0), k);
      }
    } else {
      StepKeepsTags(text, delim, st);
      var r := Step(text, delim, st);
      if r.Go? {
        TranslationKeepsTags(text, delim, r.st);
      }
    }
  }

  // ----- the shape of a compiled pattern

  lemma {:induction false} TranslationKeepsStart(text: seq<byte>, delim: byte, st: State, start: seq<Elem>)
    requires st.at <= |text| && start <= st.es && (st.Closable() ==> |start| < |st.es|)
    ensures match Translate(text, delim, st)
            case Done(es, stop, _) =>
              start <= es && |start| < |es| && es[|es| - 1] == RPar(0) && stop <= |text|
            case _ => true
    decreases |text| - st.at
  {
    if st.at < |text| && text[st.at] != delim {
      var r := Step(text, delim, st);
      if r.Go? {
        TranslationKeepsStart(text, delim, r.st, start);
      }
    }
  }

  /** Every compiled pattern is a `^` perhaps, then the whole match as tag 0, and its other
      tags are opened once and closed once, all of them when the expression balances. */
  lemma {:induction false} CompiledShape(text: seq<byte>, delim: byte)
    ensures match Compile(text, delim)
            case Done(es, stop, balanced) =>
              var a := if Peek(text, 0) == CARET then 1 else 0;
              && stop <= |text| && NoReopening(es)
              && |es| > a + 1 && es[a] == LPar(0) && (a == 1 ==> es[0] == Sbol)
              && Tagged(es, 0, a, |es| - 1)
              && (balanced ==> forall k: tag :: TagFree(es, k) || exists b: nat, c: nat :: Tagged(es, k, b, c))
            case _ => true
  {
    var st := Start(text);
    StartTagsInOrder(text);
    TranslationKeepsTags(text, delim, st);
    TranslationKeepsStart(text, delim, st, st.es);
    match Compile(text, delim)
    case Done(es, stop, balanced) =>
      var a := if Peek(text, 0) == CARET then 1 else 0;
      ProperTagsAreNotReopened(es);
      forall k: tag | balanced ensures TagFree(es, k) || exists b: nat, c: nat :: Tagged(es, k, b, c) {
        ClosedIsTagged(es, k);
      }
      ClosedIsTagged(es, 0);
      assert es[a] == st.es[a] == LPar(0);
      var b: nat, c: nat :| Tagged(es, 0, b, c);
      TaggedOnce(es, 0, b, c, a, |es| - 1);
    case _ =>
  }

  lemma {:induction false} TaggedOnce(es: seq<Elem>, k: tag, b: nat, c: nat, a: nat, z: nat)
    requires Tagged(es, k, b, c) && a < |es| && z < |es| && es[a] == LPar(k) && es[z] == RPar(k)
    ensures a == b && z == c
  {
    assert forall i :: 0 <= i < b ==> es[..b][i] == es[i];
    assert forall i :: b < i < c ==> es[b + 1..c][i - b - 1] == es[i];
    assert forall i :: c < i < |es| ==> es[c + 1..][i - c - 1] == es[i];
  }

  lemma {:induction false} StartTagsInOrder(text: seq<byte>)
    ensures TagsInOrder(Start(text))
  {
    forall k: tag ensures TagStateOf(Start(text).es, k) == if k == 0 then Open else Unused {
      assert [LPar(0)][..0] == [] && [Sbol][..0] == [] && [Sbol, LPar(0)][..1] == [Sbol];
      assert TagStateOf([Sbol], k) == Unused;
    }
  }

  /** A compiled pattern can be run. */
  lemma {:induction false} CompiledRuns(text: seq<byte>, delim: byte, pat: seq<ushort>)
    requires Compile(text, delim).Done?
    requires var code := Encode(Compile(text, delim).es); |code| + 2 <= |pat| && pat[..|code| + 2] == code + [PEND, 0]
    ensures var es := Compile(text, delim).es;
            Holds(pat, 0, es) && NoReopening(es) && |es| > 1 && (es[0] == Sbol || es[0].LPar?)
  {
    CodeHolds(Compile(text, delim).es, pat);
    CompiledShape(text, delim);
  }

  lemma {:induction false} CodeHolds(es: seq<Elem>, pat: seq<ushort>)
    requires |Encode(es)| + 2 <= |pat| && pat[..|Encode(es)| + 2] == Encode(es) + [PEND, 0]
    ensures Holds(pat, 0, es)
  {
    var code := Encode(es) + [PEND];
    assert pat[0..|code|] == pat[..|code| + 1][..|code|] == code;
    EncodeHolds(es, pat, 0);
  }

  /** Compiles an expression and looks for it in a text: whatever the expression, if it is
      accepted the search ends, and finds it exactly where it can be derived. */
  method Find(text: seq<byte>, delim: byte, buf: seq<byte>) returns (verdict: Verdict, found: bool)
    ensures var c := Compile(text, delim);
            && (verdict.Accepted? <==> c.Done? && c.balanced && Peek(text, c.stop) == delim)
            && (verdict.Accepted? ==>
                 (found <==> if c.es != [] && c.es[0] == Sbol then DerivesAsCoded(buf, 0, c.es)
                             else exists i: nat :: i < |buf| && DerivesAsCoded(buf, i, c.es)))
  {
    var pat := new ushort[2 * |text| + 6](_ => 0);
    verdict := Pattern(pat, delim, text);
    found := false;
    if verdict.Accepted? {
      CompiledRuns(text, delim, pat[..]);
      found := Match(buf, pat[..], Compile(text, delim).es);
    }
  }

  /** `m` is the part of the text that elements `a` to `b` of a pattern take in its greedy parse. */
  ghost predicate IsPart(buf: seq<byte>, i: nat, es: seq<Elem>, a: nat, b: nat, m: TagMatch)
    requires i <= |buf| && a <= b <= |es|
  {
    Best(buf, i, es).Some? &&
    var ks := Best(buf, i, es).value;
    var from, to := Reach(i, es, ks, a).at, Reach(i, es, ks, b).at;
    && m == TagMatch(from, to - from) && from <= to <= |buf|
    && exists used: seq<nat> :: Parses(true, buf, from, es[a..b], used, to)
  }

  /** Every tag is the part of the text that its part of the pattern takes; tags that the pattern
      does not have are as they were. */
  ghost predicate TagsTell(buf: seq<byte>, i: nat, es: seq<Elem>, was: seq<TagMatch>, tags: seq<TagMatch>)
    requires i <= |buf| && |was| >= TAGS && |tags| >= TAGS
  {
    && (forall k: tag, a: nat, b: nat :: Tagged(es, k, a, b) ==> IsPart(buf, i, es, a, b, tags[k]))
    && (forall k: tag :: TagFree(es, k) ==> tags[k] == was[k])
  }

  lemma {:induction false} CompiledTags(text: seq<byte>, delim: byte, buf: seq<byte>, i: nat, was: seq<TagMatch>)
    requires Compile(text, delim).Done? && i <= |buf| && |was| >= TAGS
    requires Outcome(buf, i, Compile(text, delim).es, was).Some?
    ensures var es := Compile(text, delim).es;
            var (end, tags) := Outcome(buf, i, es, was).value;
            |tags| >= TAGS && tags[0] == TagMatch(i, end - i) && TagsTell(buf, i, es, was, tags)
  {
    var es := Compile(text, delim).es;
    CompiledShape(text, delim);
    TagZeroIsTheMatch(buf, i, es, was, if Peek(text, 0) == CARET then 1 else 0);
    OutcomeIsBest(buf, i, es, was);
    forall k: tag, a: nat, b: nat | Tagged(es, k, a, b)
      ensures IsPart(buf, i, es, a, b, Outcome(buf, i, es, was).value.1[k])
    {
      TagsAreSubstrings(buf, i, es, was, k, a, b);
    }
    forall k: tag | TagFree(es, k) ensures Outcome(buf, i, es, was).value.1[k] == was[k] {
      Untouched(i, es, Best(buf, i, es).value, was, k);
    }
  }

  /** Compiles an expression and looks for it at one place of a text: whatever the expression, if it
      is accepted and can be derived there, tag 0 is the match, and all tags are the parts of it. */
  method FindAt(text: seq<byte>, delim: byte, buf: seq<byte>, i: nat, tags: array<TagMatch>)
    returns (verdict: Verdict, found: bool, end: nat)
    requires i <= |buf| && tags.Length >= TAGS
    modifies tags
    ensures var c := Compile(text, delim);
            && (verdict.Accepted? <==> c.Done? && c.balanced && Peek(text, c.stop) == delim)
            && (verdict.Accepted? ==> (found <==> DerivesAsCoded(buf, i, c.es)))
            && (verdict.Accepted? && found ==>
                  && tags[0] == TagMatch(i, end - i) && TagsTell(buf, i, c.es, old(tags[..]), tags[..])
                  && forall k: tag :: TagFree(c.es, k) || exists a: nat, b: nat :: Tagged(c.es, k, a, b))
  {
    var pat := new ushort[2 * |text| + 6](_ => 0);
    verdict := Pattern(pat, delim, text);
    found, end := false, 0;
    if verdict.Accepted? {
      ghost var es, was := Compile(text, delim).es, tags[..];
      CompiledRuns(text, delim, pat[..]);
      CompiledShape(text, delim);
      found, end := AnchoredMatch(buf, i, pat[..], 0, tags, es, was);
      OutcomeIsBest(buf, i, es, was);
      SearchDecides(buf, i, es);
      if found {
        CompiledTags(text, delim, buf, i, was);
      }
    }
  }

  // ----- plain words

  /** A character that stands for itself wherever it is written outside a class. */
  predicate PlainChar(c: byte) {
    c != NUL && c != QUERY && c != STAR && c != DOLLAR && c != CARET && c != LBRACKET && c != BACKSLASH
  }

  predicate Plain(word: seq<byte>) {
    forall k :: 0 <= k < |word| ==> PlainChar(word[k])
  }

  function Literals(word: seq<byte>): (es: seq<Elem>)
    ensures |es| == |word|
  {
    if word == [] then [] else [Char(Lit(word[0]))] + Literals(word[1..])
  }

  lemma {:induction false} WordTranslates(word: seq<byte>, i: nat, st: State)
    requires Plain(word) && i == st.at <= |word|
    ensures Translate(word, NUL, st) == Done(st.es + Literals(word[i..]) + [RPar(0)], |word|, st.stack == [])
    decreases |word| - i
  {
    if i == |word| {
      assert st.es + Literals(word[i..]) == st.es;
    } else {
      assert Step(word, NUL, st) == Go(st.Add(Char(Lit(word[i])), i + 1));
      WordTranslates(word, i + 1, st.Add(Char(Lit(word[i])), i + 1));
      assert word[i..][1..] == word[i + 1..];
      assert st.es + [Char(Lit(word[i]))] + Literals(word[i + 1..]) == st.es + Literals(word[i..]);
    }
  }

  function WordElems(word: seq<byte>): seq<Elem> {
    [LPar(0)] + Literals(word) + [RPar(0)]
  }

  lemma {:induction false} WordCompiles(word: seq<byte>)
    requires Plain(word)
    ensures Compile(word, NUL) == Done(WordElems(word), |word|, true)
  {
    WordTranslates(word, 0, Start(word));
    assert word[0..] == word;
  }

  lemma {:induction false} LiteralsParse(word: seq<byte>, buf: seq<byte>, i: nat, ks: seq<nat>, j: nat)
    requires i <= |buf|
    ensures Parses(true, buf, i, Literals(word) + [RPar(0)], ks, j)
       <==> ks == [] && j == i + |word| <= |buf| && buf[i..j] == word
    decreases |word|
  {
    var es := Literals(word) + [RPar(0)];
    if word == [] {
      assert es == [RPar(0)] && es[1..] == [];
      assert i <= |buf| ==> buf[i..i] == word;
    } else {
      assert es[0] == Char(Lit(word[0])) && es[1..] == Literals(word[1..]) + [RPar(0)];
      if i < |buf| {
        LiteralsParse(word[1..], buf, i + 1, ks, j);
        if j == i + |word| <= |buf| {
          assert buf[i..j] == [buf[i]] + buf[i + 1..j];
          assert word == [word[0]] + word[1..];
        }
      }
    }
  }

  /** A compiled plain word derives, where it starts, the word and nothing else. */
  lemma {:induction false} WordDerivesItself(word: seq<byte>, buf: seq<byte>, i: nat)
    requires i <= |buf|
    ensures DerivesAsCoded(buf, i, WordElems(word))
       <==> Occurs(word, buf, i)
  {
    var es := WordElems(word);
    assert es[1..] == Literals(word) + [RPar(0)];
    LiteralsParse(word, buf, i, [], i + |word|);
    if DerivesAsCoded(buf, i, es) {
      var ks, j :| Parses(true, buf, i, es, ks, j);
      LiteralsParse(word, buf, i, ks, j);
    }
    if i + |word| <= |buf| && buf[i..i + |word|] == word {
      assert Parses(true, buf, i, es, [], i + |word|);
    }
  }

  predicate Occurs(word: seq<byte>, buf: seq<byte>, i: nat) {
    i + |word| <= |buf| && buf[i..i + |word|] == word
  }

  /** Compiling a word that has no special characters and matching it is substring search. */
  method FindWord(word: seq<byte>, buf: seq<byte>) returns (found: bool)
    requires Plain(word) && word != []
    ensures found <==> exists i: nat :: Occurs(word, buf, i)
  {
    WordCompiles(word);
    var verdict;
    verdict, found := Find(word, NUL, buf);
    forall i: nat | i <= |buf| ensures DerivesAsCoded(buf, i, WordElems(word)) <==> Occurs(word, buf, i) {
      WordDerivesItself(word, buf, i);
    }
  }

  // ----- how much code there is

  lemma {:induction false} LiteralsCode(word: seq<byte>)
    ensures |Encode(Literals(word))| == 2 * |word|
    decreases |word|
  {
    if word != [] {
      assert Literals(word)[1..] == Literals(word[1..]);
      LiteralsCode(word[1..]);
    }
  }

  /** The bound of two elements a character and six more is reached by every plain word, so
      twice the length of the expression with its terminator is never enough for one. */
  lemma {:induction false} PlainWordsFillTheBound(word: seq<byte>)
    requires Plain(word)
    ensures Compile(word, NUL).Done?
    ensures var es := Compile(word, NUL).es;
            |Encode(es) + [PEND, 0]| == 2 * |word| + 6 > 2 * (|word| + 1)
  {
    WordCompiles(word);
    LiteralsCode(word);
    EncodeAppends([LPar(0)] + Literals(word), RPar(0));
    var es := [LPar(0)] + Literals(word);
    assert es[0] == LPar(0) && es[1..] == Literals(word);
  }
}
