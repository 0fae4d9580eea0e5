/** The matcher: one element at a time, closures longest first, tags recorded on the way. */
module RegexpMatch {
  import opened Bytes
  import opened Options
  import opened RegexpCode
  import opened RegexpSearch

  /** A tagged substring; `mtext` is an index into the buffer. */
  datatype TagMatch = TagMatch(mtext: nat, mlen: int)

  // ----- what a parse records

  function RecordTag(i: nat, e: Elem, tags: seq<TagMatch>): (r: seq<TagMatch>)
    requires |tags| >= TAGS
    ensures |r| == |tags|
  {
    match e
    case LPar(k) => tags[k := TagMatch(i, 0)]
    case RPar(k) => tags[k := TagMatch(tags[k].mtext, i - tags[k].mtext)]
    case _ => tags
  }

  /** The tags after the parse of `es` from `i` with closure counts `ks`. */
  function Record(i: nat, es: seq<Elem>, ks: seq<nat>, tags: seq<TagMatch>): (r: seq<TagMatch>)
    requires |tags| >= TAGS
    ensures |r| == |tags|
    decreases |es|
  {
    if es == [] then tags
    else if es[0].Char? then Record(i + 1, es[1..], ks, tags)
    else if es[0].Close? && ks != [] then Record(i + ks[0], es[1..], ks[1..], tags)
    else Record(i, es[1..], ks, RecordTag(i, es[0], tags))
  }

  /** No tag is opened again after it has been closed. */
  predicate NoReopening(es: seq<Elem>) {
    forall a, b :: 0 <= a < b < |es| && es[a].RPar? && es[b].LPar? ==> es[a].k != es[b].k
  }

  lemma {:induction false} NoReopeningAfter(es: seq<Elem>, k: nat)
    requires NoReopening(es) && k <= |es|
    ensures NoReopening(es[k..])
  {
    assert forall a :: 0 <= a < |es[k..]| ==> es[k..][a] == es[a + k];
  }

  /** An attempt at `es` can have turned entry `t` of the tags from `was` into `now`. */
  predicate ScratchedAt(es: seq<Elem>, t: nat, was: TagMatch, now: TagMatch) {
    || now == was
    || (t < TAGS && LPar(t) in es)
    || (t < TAGS && RPar(t) in es && now.mtext == was.mtext)
  }

  /** `now` differs from `was` at most in what an attempt at `es` can have written. */
  predicate Scratched(es: seq<Elem>, was: seq<TagMatch>, now: seq<TagMatch>) {
    |now| == |was| && forall t :: 0 <= t < |was| ==> ScratchedAt(es, t, was[t], now[t])
  }

  lemma {:induction false} ScratchedMore(es: seq<Elem>, part: seq<Elem>, was: seq<TagMatch>, mid: seq<TagMatch>,
                                         now: seq<TagMatch>)
    requires Scratched(es, was, mid) && Scratched(part, mid, now)
    requires forall e :: e in part && (e.LPar? || e.RPar?) ==> e in es
    ensures Scratched(es, was, now)
  {
    forall t | 0 <= t < |was| ensures ScratchedAt(es, t, was[t], now[t]) {
      assert ScratchedAt(es, t, was[t], mid[t]) && ScratchedAt(part, t, mid[t], now[t]);
    }
  }

  lemma {:induction false} ScratchedByOne(es: seq<Elem>, k: nat, i: nat, was: seq<TagMatch>, now: seq<TagMatch>)
    requires k < |es| && |was| >= TAGS && Scratched(es, was, now)
    ensures Scratched(es, was, RecordTag(i, es[k], now))
  {
    assert forall t :: 0 <= t < |was| ==> ScratchedAt(es, t, was[t], now[t]);
  }

  lemma {:induction false} ScratchedLater(es: seq<Elem>, k: nat, was: seq<TagMatch>, mid: seq<TagMatch>,
                                          now: seq<TagMatch>)
    requires k <= |es| && Scratched(es, was, mid) && Scratched(es[k..], mid, now)
    ensures Scratched(es, was, now)
  {
    ScratchedMore(es, es[k..], was, mid, now);
  }

  /** A successful parse leaves nothing of what abandoned attempts wrote. */
  lemma {:induction false} RecordForgets(i: nat, es: seq<Elem>, ks: seq<nat>, was: seq<TagMatch>, now: seq<TagMatch>)
    requires |was| >= TAGS && NoReopening(es) && Scratched(es, was, now)
    ensures Record(i, es, ks, now) == Record(i, es, ks, was)
    decreases |es|
  {
    if es == [] {
      assert now == was;
    } else {
      var e, rest := es[0], es[1..];
      NoReopeningAfter(es, 1);
      var was', now' := RecordTag(i, e, was), RecordTag(i, e, now);
      forall t | 0 <= t < |was'| ensures ScratchedAt(rest, t, was'[t], now'[t]) {
        assert ScratchedAt(es, t, was[t], now[t]);
        if e.RPar? && t == e.k {
          assert LPar(t) !in es;
        }
      }
      if e.Char? {
        RecordForgets(i + 1, rest, ks, was', now');
      } else if e.Close? && ks != [] {
        RecordForgets(i + ks[0], rest, ks[1..], was', now');
      } else {
        RecordForgets(i, rest, ks, was', now');
      }
    }
  }

  // ----- what the search comes to

  /** Does the element, when it is not a closure, let the match go on at `i`? */
  predicate Passes(buf: seq<byte>, i: nat, e: Elem)
    requires i <= |buf|
  {
    match e
    case Sbol => i == 0
    case Seol => i == |buf| || buf[i] == NEWLINE
    case Char(s) => i < |buf| && Accepts(s, buf[i])
    case _ => true
  }

  /** The end of the match and the tags it leaves, when the search from `i` succeeds. */
  function Outcome(buf: seq<byte>, i: nat, es: seq<Elem>, tags: seq<TagMatch>): (r: Option<(nat, seq<TagMatch>)>)
    requires i <= |buf| && |tags| >= TAGS
    ensures r.Some? ==> |r.value.1| == |tags|
    decreases |es|, 0, 0
  {
    if es == [] then Some((i, tags))
    else if es[0].Close? then
      var s := es[0].s;
      Untried(buf, i, es[1..], if Stuck(buf, s, i) then 1 else 0, RunEnd(buf, s, i) - i, tags)
    else if !Passes(buf, i, es[0]) then None
    else Outcome(buf, if es[0].Char? then i + 1 else i, es[1..], RecordTag(i, es[0], tags))
  }

  /** As `Outcome`, behind a closure that may still take from `lo` to `hi` characters. */
  function Untried(buf: seq<byte>, indx: nat, tail: seq<Elem>, lo: nat, hi: nat, tags: seq<TagMatch>)
    : (r: Option<(nat, seq<TagMatch>)>)
    requires indx + hi <= |buf| && |tags| >= TAGS
    ensures r.Some? ==> |r.value.1| == |tags|
    decreases |tail|, 1, hi
  {
    if hi < lo then None
    else
      match Outcome(buf, indx + hi, tail, tags)
      case Some(r) => Some(r)
      case None => if hi == 0 then None else Untried(buf, indx, tail, lo, hi - 1, tags)
  }

  /** The search comes to the greedy parse: its end and the tags it records. */
  lemma {:induction false} OutcomeIsBest(buf: seq<byte>, i: nat, es: seq<Elem>, tags: seq<TagMatch>)
    requires i <= |buf| && |tags| >= TAGS
    ensures Outcome(buf, i, es, tags)
         == match Best(buf, i, es)
            case None => None
            case Some(ks) => Some((End(i, es, ks), Record(i, es, ks, tags)))
    decreases |es|, 0, 0
  {
    if es != [] {
      match es[0]
      case Char(_) => if i < |buf| { OutcomeIsBest(buf, i + 1, es[1..], tags); }
      case Close(s) =>
        UntriedIsBest(buf, i, es, if Stuck(buf, s, i) then 1 else 0, RunEnd(buf, s, i) - i, tags);
      case _ => OutcomeIsBest(buf, i, es[1..], RecordTag(i, es[0], tags));
    }
  }

  lemma {:induction false} UntriedIsBest(buf: seq<byte>, i: nat, es: seq<Elem>, lo: nat, hi: nat, tags: seq<TagMatch>)
    requires i + hi <= |buf| && |tags| >= TAGS && es != [] && es[0].Close?
    ensures Untried(buf, i, es[1..], lo, hi, tags)
         == match BestRun(buf, i, es[1..], lo, hi)
            case None => None
            case Some(ks) => Some((End(i, es, ks), Record(i, es, ks, tags)))
    decreases |es| - 1, 1, hi
  {
    if lo <= hi {
      OutcomeIsBest(buf, i + hi, es[1..], tags);
      match Best(buf, i + hi, es[1..])
      case Some(ks) => assert ([hi] + ks)[1..] == ks;
      case None => if hi > 0 { UntriedIsBest(buf, i, es, lo, hi - 1, tags); }
    }
  }

  /** The pattern a closure goes on with: after a stuck run the closed element comes again. */
  function Suffix(s: Single, stuck: bool, tail: seq<Elem>): (suffix: seq<Elem>)
    ensures NoReopening(tail) ==> NoReopening(suffix)
    ensures forall e: Elem :: e.LPar? || e.RPar? ==> (e in suffix <==> e in tail)
    ensures stuck ==> suffix != [] && suffix[0] == Char(s) && suffix[1..] == tail
  {
    if stuck then
      var suffix := [Char(s)] + tail;
      assert forall a :: 0 < a < |suffix| ==> suffix[a] == tail[a - 1];
      suffix
    else tail
  }

  /** What the attempts from `i` down to `indx` come to. */
  function Attempts(buf: seq<byte>, indx: nat, suffix: seq<Elem>, i: nat, tags: seq<TagMatch>)
    : Option<(nat, seq<TagMatch>)>
    requires indx <= i <= |buf| && |tags| >= TAGS
    decreases i
  {
    match Outcome(buf, i, suffix, tags)
    case Some(r) => Some(r)
    case None => if i == indx then None else Attempts(buf, indx, suffix, i - 1, tags)
  }

  lemma {:induction false} FreeAttempts(buf: seq<byte>, indx: nat, tail: seq<Elem>, i: nat, tags: seq<TagMatch>)
    requires indx <= i <= |buf| && |tags| >= TAGS
    ensures Attempts(buf, indx, tail, i, tags) == Untried(buf, indx, tail, 0, i - indx, tags)
    decreases i
  {
    if i > indx {
      FreeAttempts(buf, indx, tail, i - 1, tags);
    }
  }

  lemma {:induction false} OutcomeOfChar(buf: seq<byte>, s: Single, suffix: seq<Elem>, i: nat, tags: seq<TagMatch>)
    requires i <= |buf| && |tags| >= TAGS && suffix != [] && suffix[0] == Char(s)
    ensures Outcome(buf, i, suffix, tags)
         == if i < |buf| && Accepts(s, buf[i]) then Outcome(buf, i + 1, suffix[1..], tags) else None
  {
  }

  /** Putting the closed element before the rest of the pattern, and starting one place
      sooner, is what keeps a stuck closure from taking nothing. */
  lemma {:induction false} StuckAttempts(buf: seq<byte>, s: Single, indx: nat, suffix: seq<Elem>, i: nat, run: nat,
                                        tags: seq<TagMatch>)
    requires suffix != [] && suffix[0] == Char(s) && |tags| >= TAGS
    requires indx <= i < run <= |buf| && Run(buf, s, indx, run - indx)
    ensures Attempts(buf, indx, suffix, i, tags) == Untried(buf, indx, suffix[1..], 1, i + 1 - indx, tags)
    decreases i
  {
    OutcomeOfChar(buf, s, suffix, i, tags);
    if i > indx {
      StuckAttempts(buf, s, indx, suffix, i - 1, run, tags);
    }
  }

  /** The attempts on the pattern a closure goes on with come to what the closure allows. */
  lemma {:induction false} AttemptsAreUntried(buf: seq<byte>, s: Single, indx: nat, tail: seq<Elem>,
                                              tags: seq<TagMatch>)
    requires indx <= |buf| && |tags| >= TAGS
    ensures var stuck, run := Stuck(buf, s, indx), RunEnd(buf, s, indx);
            Attempts(buf, indx, Suffix(s, stuck, tail), run, tags)
            == Untried(buf, indx, tail, if stuck then 1 else 0, run - indx, tags)
  {
    var stuck, run := Stuck(buf, s, indx), RunEnd(buf, s, indx);
    var suffix := Suffix(s, stuck, tail);
    if !stuck {
      FreeAttempts(buf, indx, tail, run, tags);
    } else {
      OutcomeOfChar(buf, s, suffix, run, tags);
      if indx < run {
        StuckAttempts(buf, s, indx, suffix, run - 1, run, tags);
      }
    }
  }

  lemma {:induction false} OutcomeForgets(buf: seq<byte>, i: nat, es: seq<Elem>, was: seq<TagMatch>, now: seq<TagMatch>)
    requires i <= |buf| && |was| >= TAGS && NoReopening(es) && Scratched(es, was, now)
    ensures Outcome(buf, i, es, was) == Outcome(buf, i, es, now)
  {
    OutcomeIsBest(buf, i, es, was);
    OutcomeIsBest(buf, i, es, now);
    match Best(buf, i, es)
    case None =>
    case Some(ks) => RecordForgets(i, es, ks, was, now);
  }

  // ----- the code

  /** Is `c` in the character class whose members start at `pat[p]`? */
  method MatchClass(c: byte, pat: seq<ushort>, p: nat, ghost items: seq<Item>)
    returns (matched: bool, offset: nat)
    requires HoldsItems(pat, p, items)
    ensures matched <==> InItems(items, c)
    ensures offset == ItemsSize(items) + 1
  {
    matched := false;
    var q: nat := p;
    ghost var rest := items;
    while pat[q] != CCLEND
      invariant HoldsItems(pat, q, rest)
      invariant q < |pat|
      invariant matched || InItems(rest, c) <==> InItems(items, c)
      invariant q - p + ItemsSize(rest) == ItemsSize(items)
      decreases |rest|
    {
      ghost var tail := rest[1..];
      assert InItems(rest, c) <==> InItem(rest[0], c) || InItems(tail, c) by {
        assert forall k :: 0 <= k < |tail| ==> tail[k] == rest[k + 1];
        if InItems(tail, c) {
          var k :| 0 <= k < |tail| && InItem(tail[k], c);
          assert InItem(rest[k + 1], c);
        }
      }
      if pat[q] == CCHAR {
        if c == pat[q + 1] {
          matched := true;
        }
        q := q + 2;
      } else {
        var rlc, ruc: int := pat[q + 1], pat[q + 2];
        ghost var before := matched;
        while rlc <= ruc
          invariant pat[q + 1] <= rlc
          invariant matched <==> before || (pat[q + 1] <= c < rlc && c <= ruc)
        {
          if c == rlc {
            matched := true;
          }
          rlc := rlc + 1;
        }
        q := q + 3;
      }
      rest := tail;
    }
    offset := q - p + 1;
  }

  /** A failed attempt leaves the pattern past the element: past a character always, past a class only
      when its members were looked at, which they are not at the end of the text nor, for a negated
      class, at a newline. */
  predicate StepsOverWhenFailing(buf: seq<byte>, i: nat, e: Elem)
    requires i <= |buf|
  {
    e.Char? && (e.s.Class? ==> i < |buf| && !(e.s.negated && buf[i] == NEWLINE))
  }

  /** Tries the element at `pat[p]` against `buf[i]`. */
  method MatchOne(buf: seq<byte>, i: nat, pat: seq<ushort>, p: nat, pmsub: array?<TagMatch>, ghost e: Elem)
    returns (ok: bool, i': nat, p': nat)
    requires i <= |buf| && HoldsElem(pat, p, e) && !e.Close?
    requires pmsub != null ==> pmsub.Length >= TAGS
    modifies if pmsub == null then {} else {pmsub}
    ensures ok <==> Passes(buf, i, e)
    ensures i' == if ok && e.Char? then i + 1 else i
    ensures p' == if ok || StepsOverWhenFailing(buf, i, e) then p + Size(e) else p
    ensures pmsub != null ==> pmsub[..] == RecordTag(i, e, old(pmsub[..]))
  {
    var bump := -1;
    ok, i', p' := false, i, p;
    var opcode := pat[p];
    if opcode == SBOL {
      if i == 0 {
        bump := 0;
        p' := p' + 1;
      }
    } else if opcode == ANY {
      if i < |buf| && buf[i] != NEWLINE {
        bump := 1;
      }
      p' := p' + 1;
    } else if opcode == SEOL {
      if i == |buf| || buf[i] == NEWLINE {
        bump := 0;
        p' := p' + 1;
      }
    } else if opcode == CCL {
      var offset := 0;
      if i < |buf| {
        p' := p' + 1;
        var matched;
        matched, offset := MatchClass(buf[i], pat, p', e.s.items);
        if matched {
          bump := 1;
        }
      }
      p' := p' + offset;
    } else if opcode == NCCL {
      var offset := 0;
      if i < |buf| && buf[i] != NEWLINE {
        p' := p' + 1;
        var matched;
        matched, offset := MatchClass(buf[i], pat, p', e.s.items);
        if !matched {
          bump := 1;
        }
      }
      p' := p' + offset;
    } else if opcode == LPAR {
      if pmsub != null {
        pmsub[pat[p' + 1]] := TagMatch(i, 0);
      }
      p' := p' + 2;
      bump := 0;
    } else if opcode == RPAR {
      if pmsub != null {
        pmsub[pat[p' + 1]] := TagMatch(pmsub[pat[p' + 1]].mtext, i - pmsub[pat[p' + 1]].mtext);
      }
      p' := p' + 2;
      bump := 0;
    } else {
      p' := p' + 2;
      if i < |buf| && buf[i] == pat[p + 1] {
        bump := 1;
      }
    }
    if 0 <= bump {
      i' := i' + bump;
      ok := true;
    }
  }

  /** The tag array holds `tags`; a caller that passes NULL records nothing. */
  ghost predicate Holding(pmsub: array?<TagMatch>, tags: seq<TagMatch>)
    reads pmsub
  {
    |tags| >= TAGS && (pmsub != null ==> pmsub[..] == tags)
  }

  /** What a search that began with `tags` leaves in the tag array. */
  ghost predicate Left(pmsub: array?<TagMatch>, es: seq<Elem>, tags: seq<TagMatch>,
                       outcome: Option<(nat, seq<TagMatch>)>)
    reads pmsub
  {
    pmsub != null ==>
      match outcome
      case Some(r) => pmsub[..] == r.1
      case None => Scratched(es, tags, pmsub[..])
  }

  lemma {:induction false} HoldsFirst(pat: seq<ushort>, p: nat, es: seq<Elem>)
    requires es != [] && Holds(pat, p, es)
    ensures p < |pat| && pat[p] != PEND && HoldsElem(pat, p, es[0])
    ensures p + Size(es[0]) < |pat| && Holds(pat, p + Size(es[0]), es[1..])
    ensures pat[p] == CLOSE <==> es[0].Close?
    ensures es[0].Close? ==>
              && HoldsSingle(pat, p + 1, es[0].s)
              && Holds(pat, p + 1 + SingleSize(es[0].s), es[1..])
  {
  }

  /** One turn of the matching loop, on an element that is not a closure. */
  method Advance(buf: seq<byte>, i: nat, pat: seq<ushort>, p: nat, pmsub: array?<TagMatch>,
                 ghost es: seq<Elem>, ghost tags: seq<TagMatch>)
    returns (ok: bool, i': nat, p': nat)
    requires i <= |buf| && es != [] && !es[0].Close? && Holds(pat, p, es)
    requires Holding(pmsub, tags) && (pmsub != null ==> pmsub.Length >= TAGS)
    modifies if pmsub == null then {} else {pmsub}
    ensures !ok ==> Outcome(buf, i, es, tags).None?
    ensures ok ==> i' <= |buf| && p < p' && Holds(pat, p', es[1..])
    ensures ok ==> Outcome(buf, i, es, tags) == Outcome(buf, i', es[1..], RecordTag(i, es[0], tags))
    ensures Holding(pmsub, RecordTag(i, es[0], tags))
  {
    ok, i', p' := MatchOne(buf, i, pat, p, pmsub, es[0]);
  }

  /** Looks for a match of the pattern at `pat[start]`, anchored at `buf[indx]`. */
  method AnchoredMatch(buf: seq<byte>, indx: nat, pat: seq<ushort>, start: nat, pmsub: array?<TagMatch>,
                       ghost es: seq<Elem>, ghost tags: seq<TagMatch>)
    returns (ok: bool, pmend: nat)
    requires indx <= |buf| && Holds(pat, start, es) && NoReopening(es)
    requires Holding(pmsub, tags)
    modifies if pmsub == null then {} else {pmsub}
    ensures ok <==> Outcome(buf, indx, es, tags).Some?
    ensures ok ==> pmend == Outcome(buf, indx, es, tags).value.0
    ensures Left(pmsub, es, tags, Outcome(buf, indx, es, tags))
    decreases |pat| - start, 1
  {
    pmend := 0;
    var at: nat, p: nat := indx, start;
    ghost var k, now := 0, tags;
    while pat[p] != PEND
      invariant at <= |buf| && start <= p < |pat| && k <= |es| && Holds(pat, p, es[k..])
      invariant Holding(pmsub, now) && Scratched(es, tags, now)
      invariant Outcome(buf, indx, es, tags) == Outcome(buf, at, es[k..], now)
      decreases |es| - k
    {
      ghost var rest := es[k..];
      HoldsFirst(pat, p, rest);
      assert rest[0] == es[k] && rest[1..] == es[k + 1..];
      if pat[p] == CLOSE {
        NoReopeningAfter(es, k + 1);
        ok, pmend := MatchClosure(buf, at, pat, p, pmsub, rest, now);
        if pmsub != null && !ok {
          ScratchedLater(es, k + 1, tags, now, pmsub[..]);
        }
        return;
      }
      ScratchedByOne(es, k, at, tags, now);
      var tried, at', p' := Advance(buf, at, pat, p, pmsub, rest, now);
      now := RecordTag(at, es[k], now);
      if !tried {
        return false, 0;
      }
      at, p, k := at', p', k + 1;
    }
    assert es[k..] == [];
    ok, pmend := true, at;
  }

  /** The closure branch: runs the closed element as far as it goes, then tries the rest of
      the pattern from the longest run down. */
  method MatchClosure(buf: seq<byte>, indx: nat, pat: seq<ushort>, p: nat, pmsub: array?<TagMatch>,
                      ghost es: seq<Elem>, ghost tags: seq<TagMatch>)
    returns (ok: bool, pmend: nat)
    requires indx <= |buf| && es != [] && es[0].Close? && Holds(pat, p, es) && NoReopening(es[1..])
    requires Holding(pmsub, tags)
    modifies if pmsub == null then {} else {pmsub}
    ensures var outcome := Outcome(buf, indx, es, tags);
            && (ok <==> outcome.Some?)
            && (ok ==> pmend == outcome.value.0)
            && Left(pmsub, es[1..], tags, outcome)
    decreases |pat| - p, 0
  {
    HoldsFirst(pat, p, es);
    ghost var s, tail := es[0].s, es[1..];
    var run: nat, rpat: nat := RunClosed(buf, indx, pat, p, s);
    ghost var suffix := Suffix(s, Stuck(buf, s, indx), tail);
    AttemptsAreUntried(buf, s, indx, tail, tags);
    ok, pmend := TryShorter(buf, indx, run, pat, rpat, pmsub, suffix, tags);
    if pmsub != null && !ok {
      ScratchedMore(tail, suffix, tags, tags, pmsub[..]);
    }
  }

  /** Tries the pattern at `pat[rpat]` from `run` down to `indx`. */
  method TryShorter(buf: seq<byte>, indx: nat, run: nat, pat: seq<ushort>, rpat: nat, pmsub: array?<TagMatch>,
                    ghost suffix: seq<Elem>, ghost tags: seq<TagMatch>)
    returns (ok: bool, pmend: nat)
    requires indx <= run <= |buf| && Holds(pat, rpat, suffix) && NoReopening(suffix)
    requires Holding(pmsub, tags)
    modifies if pmsub == null then {} else {pmsub}
    ensures ok <==> Attempts(buf, indx, suffix, run, tags).Some?
    ensures ok ==> pmend == Attempts(buf, indx, suffix, run, tags).value.0
    ensures Left(pmsub, suffix, tags, Attempts(buf, indx, suffix, run, tags))
    decreases |pat| - rpat, 2
  {
    pmend := 0;
    var i := run;
    ghost var now := tags;
    while true
      invariant indx <= i <= run
      invariant Attempts(buf, indx, suffix, run, tags) == Attempts(buf, indx, suffix, i, tags)
      invariant Holding(pmsub, now) && Scratched(suffix, tags, now)
      decreases i
    {
      OutcomeForgets(buf, i, suffix, tags, now);
      ok, pmend := AnchoredMatch(buf, i, pat, rpat, pmsub, suffix, now);
      if ok {
        return;
      }
      if pmsub != null {
        ScratchedMore(suffix, suffix, tags, now, pmsub[..]);
        now := pmsub[..];
      }
      if i == indx {
        return false, 0;
      }
      i := i - 1;
    }
  }

  /** Steps over the longest run of the closed element; `rpat` is where the last attempt left
      the pattern. */
  method RunClosed(buf: seq<byte>, indx: nat, pat: seq<ushort>, p: nat, ghost s: Single)
    returns (i: nat, rpat: nat)
    requires indx <= |buf| && HoldsSingle(pat, p + 1, s)
    ensures i == RunEnd(buf, s, indx)
    ensures rpat == if Stuck(buf, s, indx) then p + 1 else p + 1 + SingleSize(s)
  {
    i, rpat := indx, p + 1;
    while i < |buf|
      invariant indx <= i <= |buf| && rpat == p + 1
      invariant RunEnd(buf, s, i) == RunEnd(buf, s, indx)
      decreases |buf| - i
    {
      var more;
      more, i, rpat := MatchOne(buf, i, pat, rpat, null, Char(s));
      if !more {
        break;
      }
      rpat := p + 1;
    }
  }

  /** Looks for a match of the pattern anywhere in `buf`, skipping every place where the
      first literal of the pattern cannot match. */
  method Match(buf: seq<byte>, pat: seq<ushort>, ghost es: seq<Elem>) returns (ok: bool)
    requires Holds(pat, 0, es) && NoReopening(es)
    requires es != [] && (es[0] == Sbol || (|es| > 1 && es[0].LPar?))
    ensures ok <==> if es[0] == Sbol then DerivesAsCoded(buf, 0, es)
                    else exists indx: nat :: indx < |buf| && DerivesAsCoded(buf, indx, es)
  {
    ghost var tags := seq(TAGS, _ => TagMatch(0, 0));
    var end;
    if pat[0] == SBOL {
      ok, end := AnchoredMatch(buf, 0, pat, 0, null, es, tags);
      OutcomeDecides(buf, 0, es, tags);
      return;
    }
    HoldsFirst(pat, 2, es[1..]);
    var indx := 0;
    while indx < |buf|
      invariant indx <= |buf|
      invariant forall i: nat :: i < indx ==> !DerivesAsCoded(buf, i, es)
    {
      OutcomeDecides(buf, indx, es, tags);
      if buf[indx] != pat[3] && pat[2] == CCHAR {
        FirstLiteralFails(buf, indx, pat, es, tags);
      } else {
        ok, end := AnchoredMatch(buf, indx, pat, 0, null, es, tags);
        if ok {
          return;
        }
      }
      indx := indx + 1;
    }
    ok := false;
  }

  /** The search finds a match exactly when one can be derived. */
  lemma {:induction false} OutcomeDecides(buf: seq<byte>, i: nat, es: seq<Elem>, tags: seq<TagMatch>)
    requires i <= |buf| && |tags| >= TAGS
    ensures Outcome(buf, i, es, tags).Some? <==> DerivesAsCoded(buf, i, es)
  {
    OutcomeIsBest(buf, i, es, tags);
    SearchDecides(buf, i, es);
  }

  lemma {:induction false} FirstLiteralFails(buf: seq<byte>, i: nat, pat: seq<ushort>, es: seq<Elem>,
                                             tags: seq<TagMatch>)
    requires i < |buf| && |tags| >= TAGS && Holds(pat, 0, es) && |es| > 1 && es[0].LPar?
    requires |pat| > 3 && pat[2] == CCHAR && pat[3] != buf[i]
    ensures Outcome(buf, i, es, tags).None?
  {
    HoldsFirst(pat, 2, es[1..]);
    assert es[1] == Char(Lit(pat[3]));
    var tags' := RecordTag(i, es[0], tags);
    assert Outcome(buf, i, es, tags) == Outcome(buf, i, es[1..], tags');
    assert Outcome(buf, i, es[1..], tags').None?;
  }
}
