/** The parse a backtracking search settles on, and why it is the greedy one. */
module RegexpSearch {
  import opened Bytes
  import opened Options
  import opened RegexpCode

  /** The closure counts the search settles on, longest first at every closure. */
  function Best(buf: seq<byte>, i: nat, es: seq<Elem>): (r: Option<seq<nat>>)
    requires i <= |buf|
    decreases |es|, 0, 0
  {
    if es == [] then Some([])
    else
      match es[0]
      case Sbol => if i == 0 then Best(buf, i, es[1..]) else None
      case Seol => if i == |buf| || buf[i] == NEWLINE then Best(buf, i, es[1..]) else None
      case Char(s) => if i < |buf| && Accepts(s, buf[i]) then Best(buf, i + 1, es[1..]) else None
      case Close(s) =>
        BestRun(buf, i, es[1..], if Stuck(buf, s, i) then 1 else 0, RunEnd(buf, s, i) - i)
      case _ => Best(buf, i, es[1..])
  }

  /** As `Best`, for a closure that takes between `lo` and `hi` characters. */
  function BestRun(buf: seq<byte>, i: nat, rest: seq<Elem>, lo: nat, hi: nat): (r: Option<seq<nat>>)
    requires i + hi <= |buf|
    decreases |rest|, 1, hi
  {
    if hi < lo then None
    else
      match Best(buf, i + hi, rest)
      case Some(ks) => Some([hi] + ks)
      case None => if hi == 0 then None else BestRun(buf, i, rest, lo, hi - 1)
  }

  /** Where a parse of `es` from `i` with closure counts `ks` stops. */
  function End(i: nat, es: seq<Elem>, ks: seq<nat>): nat
    decreases |es|
  {
    if es == [] then i
    else if es[0].Char? then End(i + 1, es[1..], ks)
    else if es[0].Close? && ks != [] then End(i + ks[0], es[1..], ks[1..])
    else End(i, es[1..], ks)
  }

  ghost predicate LexLeq(xs: seq<nat>, ys: seq<nat>)
    decreases |xs|
  {
    xs == [] || (ys != [] && (xs[0] < ys[0] || (xs[0] == ys[0] && LexLeq(xs[1..], ys[1..]))))
  }

  lemma {:induction false} EndIsForced(coded: bool, buf: seq<byte>, i: nat, es: seq<Elem>, ks: seq<nat>, j: nat)
    requires i <= |buf| && Parses(coded, buf, i, es, ks, j)
    ensures j == End(i, es, ks) && i <= j <= |buf|
    decreases |es|
  {
    if es != [] {
      match es[0]
      case Char(_) => EndIsForced(coded, buf, i + 1, es[1..], ks, j);
      case Close(_) => EndIsForced(coded, buf, i + ks[0], es[1..], ks[1..], j);
      case _ => EndIsForced(coded, buf, i, es[1..], ks, j);
    }
  }

  lemma {:induction false} BestIsSound(buf: seq<byte>, i: nat, es: seq<Elem>)
    requires i <= |buf|
    ensures Best(buf, i, es).Some? ==>
              Parses(true, buf, i, es, Best(buf, i, es).value, End(i, es, Best(buf, i, es).value))
    decreases |es|, 0, 0
  {
    if es != [] && Best(buf, i, es).Some? {
      match es[0]
      case Char(_) => BestIsSound(buf, i + 1, es[1..]);
      case Close(s) =>
        BestRunIsSound(buf, s, i, es[1..], if Stuck(buf, s, i) then 1 else 0, RunEnd(buf, s, i) - i);
      case _ => BestIsSound(buf, i, es[1..]);
    }
  }

  lemma {:induction false} BestRunIsSound(buf: seq<byte>, s: Single, i: nat, rest: seq<Elem>, lo: nat, hi: nat)
    requires i + hi <= |buf| && Run(buf, s, i, hi)
    ensures var r := BestRun(buf, i, rest, lo, hi);
            r.Some? ==>
              && r.value != [] && lo <= r.value[0] <= hi
              && Parses(true, buf, i + r.value[0], rest, r.value[1..], End(i + r.value[0], rest, r.value[1..]))
    decreases |rest|, 1, hi
  {
    if lo <= hi {
      BestIsSound(buf, i + hi, rest);
      if hi > 0 {
        BestRunIsSound(buf, s, i, rest, lo, hi - 1);
      }
    }
  }

  /** No run that starts at `i` is longer than the longest one. */
  lemma {:induction false} RunFits(buf: seq<byte>, s: Single, i: nat, k: nat)
    requires i <= |buf| && Run(buf, s, i, k)
    ensures i + k <= RunEnd(buf, s, i)
  {
    assert forall t :: i <= t < i + k ==> Accepts(s, buf[t]);
  }

  lemma {:induction false} BestIsGreatest(buf: seq<byte>, i: nat, es: seq<Elem>, ks: seq<nat>, j: nat)
    requires i <= |buf| && Parses(true, buf, i, es, ks, j)
    ensures Best(buf, i, es).Some? && LexLeq(ks, Best(buf, i, es).value)
    decreases |es|, 0, 0
  {
    if es != [] {
      match es[0]
      case Char(_) => BestIsGreatest(buf, i + 1, es[1..], ks, j);
      case Close(s) =>
        RunFits(buf, s, i, ks[0]);
        BestRunIsGreatest(buf, i, es[1..], if Stuck(buf, s, i) then 1 else 0, RunEnd(buf, s, i) - i, ks, j);
      case _ => BestIsGreatest(buf, i, es[1..], ks, j);
    }
  }

  lemma {:induction false} BestRunIsGreatest(buf: seq<byte>, i: nat, rest: seq<Elem>, lo: nat, hi: nat,
                                            ks: seq<nat>, j: nat)
    requires i + hi <= |buf| && ks != [] && lo <= ks[0] <= hi
    requires Parses(true, buf, i + ks[0], rest, ks[1..], j)
    ensures BestRun(buf, i, rest, lo, hi).Some? && LexLeq(ks, BestRun(buf, i, rest, lo, hi).value)
    decreases |rest|, 1, hi
  {
    if ks[0] == hi {
      BestIsGreatest(buf, i + hi, rest, ks[1..], j);
    } else if Best(buf, i + hi, rest).None? {
      BestRunIsGreatest(buf, i, rest, lo, hi - 1, ks, j);
    }
  }

  /** The search succeeds exactly when a parse it can find exists. */
  lemma {:induction false} SearchDecides(buf: seq<byte>, i: nat, es: seq<Elem>)
    requires i <= |buf|
    ensures Best(buf, i, es).Some? <==> DerivesAsCoded(buf, i, es)
  {
    BestIsSound(buf, i, es);
    if DerivesAsCoded(buf, i, es) {
      var ks, j :| Parses(true, buf, i, es, ks, j);
      BestIsGreatest(buf, i, es, ks, j);
    }
  }

  // What the manual says of each element.

  /** `^` at the start holds at the start of the text only. */
  lemma {:induction false} SbolDerivesIff(buf: seq<byte>, i: nat, es: seq<Elem>)
    requires i <= |buf|
    ensures Derives(buf, i, [Sbol] + es) <==> i == 0 && Derives(buf, i, es)
  {
    var all := [Sbol] + es;
    assert all[1..] == es;
    forall ks: seq<nat>, j: nat
      ensures Parses(false, buf, i, all, ks, j) <==> i == 0 && Parses(false, buf, i, es, ks, j)
    {
    }
  }

  /** `$` at the end holds before a newline and at the end of the text. */
  lemma {:induction false} SeolDerivesIff(buf: seq<byte>, i: nat, es: seq<Elem>)
    requires i <= |buf|
    ensures Derives(buf, i, [Seol] + es) <==> (i == |buf| || buf[i] == 10) && Derives(buf, i, es)
  {
    var all := [Seol] + es;
    assert all[1..] == es;
    forall ks: seq<nat>, j: nat
      ensures Parses(false, buf, i, all, ks, j) <==> (i == |buf| || buf[i] == 10) && Parses(false, buf, i, es, ks, j)
    {
    }
  }

  lemma {:induction false} CharDerivesIff(buf: seq<byte>, i: nat, s: Single, es: seq<Elem>)
    requires i <= |buf|
    ensures Derives(buf, i, [Char(s)] + es) <==> i < |buf| && Accepts(s, buf[i]) && Derives(buf, i + 1, es)
  {
    var all := [Char(s)] + es;
    assert all[1..] == es;
    if Derives(buf, i, all) {
      var ks: seq<nat>, j: nat :| Parses(false, buf, i, all, ks, j);
      assert Parses(false, buf, i + 1, es, ks, j);
    }
    if i < |buf| && Accepts(s, buf[i]) && Derives(buf, i + 1, es) {
      var ks: seq<nat>, j: nat :| Parses(false, buf, i + 1, es, ks, j);
      assert Parses(false, buf, i, all, ks, j);
    }
  }

  /** A tag has no effect on what is derived, and nothing is derived everywhere. */
  lemma {:induction false} TagDerivesIff(buf: seq<byte>, i: nat, e: Elem, es: seq<Elem>)
    requires i <= |buf| && (e.LPar? || e.RPar?)
    ensures Derives(buf, i, [e] + es) <==> Derives(buf, i, es)
    ensures Derives(buf, i, [])
  {
    var all := [e] + es;
    assert all[1..] == es;
    forall ks: seq<nat>, j: nat
      ensures Parses(false, buf, i, all, ks, j) <==> Parses(false, buf, i, es, ks, j)
    {
    }
    assert Parses(false, buf, i, [], [], i);
  }

  /** A closure takes any number of characters that its element accepts. */
  lemma {:induction false} ClosureDerivesIff(buf: seq<byte>, i: nat, s: Single, es: seq<Elem>)
    requires i <= |buf|
    ensures Derives(buf, i, [Close(s)] + es) <==> exists k: nat :: Run(buf, s, i, k) && Derives(buf, i + k, es)
  {
    var all := [Close(s)] + es;
    assert all[1..] == es;
    if Derives(buf, i, all) {
      var ks: seq<nat>, j: nat :| Parses(false, buf, i, all, ks, j);
      assert Run(buf, s, i, ks[0]) && Parses(false, buf, i + ks[0], es, ks[1..], j);
    }
    if k: nat :| Run(buf, s, i, k) && Derives(buf, i + k, es) {
      var ks: seq<nat>, j: nat :| Parses(false, buf, i + k, es, ks, j);
      assert ([k] + ks)[1..] == ks;
      assert Parses(false, buf, i, all, [k] + ks, j);
    }
  }

  // ----- the coded meaning against the manual's

  lemma {:induction false} CodedIsMeant(buf: seq<byte>, i: nat, es: seq<Elem>, ks: seq<nat>, j: nat)
    requires i <= |buf| && Parses(true, buf, i, es, ks, j)
    ensures Parses(false, buf, i, es, ks, j)
    decreases |es|
  {
    if es != [] {
      match es[0]
      case Char(_) => CodedIsMeant(buf, i + 1, es[1..], ks, j);
      case Close(_) => CodedIsMeant(buf, i + ks[0], es[1..], ks[1..], j);
      case _ => CodedIsMeant(buf, i, es[1..], ks, j);
    }
  }

  /** A line ends in the text, at `i` or later. */
  ghost predicate LineEnds(buf: seq<byte>, i: nat) {
    exists t: nat :: i <= t < |buf| && buf[t] == NEWLINE
  }

  /** A closure over `s` never gets stuck before the end of a line. */
  predicate SafeToClose(s: Single) {
    !Accepts(s, NEWLINE) && !(s.Class? && s.negated)
  }

  predicate HasClosure(es: seq<Elem>) {
    exists k :: 0 <= k < |es| && es[k].Close?
  }

  /** No character before a closure matches a newline, and every closure is safe. */
  predicate KeepsToLine(es: seq<Elem>) {
    forall k :: 0 <= k < |es| ==>
      && (es[k].Char? && HasClosure(es[k + 1..]) ==> !Accepts(es[k].s, NEWLINE))
      && (es[k].Close? ==> SafeToClose(es[k].s))
  }

  lemma {:induction false} RestKeepsToLine(es: seq<Elem>)
    requires es != []
    ensures KeepsToLine(es) <==>
            && KeepsToLine(es[1..])
            && (es[0].Char? && HasClosure(es[1..]) ==> !Accepts(es[0].s, NEWLINE))
            && (es[0].Close? ==> SafeToClose(es[0].s))
    ensures HasClosure(es) <==> es[0].Close? || HasClosure(es[1..])
  {
    var rest := es[1..];
    forall k | 0 <= k < |rest| ensures rest[k] == es[k + 1] && rest[k + 1..] == es[k + 2..] {
    }
    forall k | 0 < k < |es| ensures es[k] == rest[k - 1] && es[k + 1..] == rest[k..] {
    }
  }

  /** Without closures the coded meaning is the manual's. */
  lemma {:induction false} NoClosureNoMatter(buf: seq<byte>, i: nat, es: seq<Elem>, ks: seq<nat>, j: nat)
    requires i <= |buf| && !HasClosure(es)
    ensures Parses(true, buf, i, es, ks, j) <==> Parses(false, buf, i, es, ks, j)
    decreases |es|
  {
    if es != [] {
      RestKeepsToLine(es);
      match es[0]
      case Char(_) =>
        if i < |buf| {
          NoClosureNoMatter(buf, i + 1, es[1..], ks, j);
        }
      case Close(_) =>
      case _ => NoClosureNoMatter(buf, i, es[1..], ks, j);
    }
  }

  lemma {:induction false} MeantIsCoded(buf: seq<byte>, i: nat, es: seq<Elem>, ks: seq<nat>, j: nat)
    requires i <= |buf| && LineEnds(buf, i) && KeepsToLine(es)
    requires Parses(false, buf, i, es, ks, j)
    ensures Parses(true, buf, i, es, ks, j)
    decreases |es|
  {
    if !HasClosure(es) {
      NoClosureNoMatter(buf, i, es, ks, j);
    } else {
      RestKeepsToLine(es);
      match es[0]
      case Char(_) =>
        assert LineEnds(buf, i + 1);
        MeantIsCoded(buf, i + 1, es[1..], ks, j);
      case Close(s) =>
        RunStopsAtNewline(buf, s, i, ks[0]);
        MeantIsCoded(buf, i + ks[0], es[1..], ks[1..], j);
      case _ => MeantIsCoded(buf, i, es[1..], ks, j);
    }
  }

  lemma {:induction false} RunStopsAtNewline(buf: seq<byte>, s: Single, i: nat, k: nat)
    requires i <= |buf| && LineEnds(buf, i) && SafeToClose(s) && Run(buf, s, i, k)
    ensures !Stuck(buf, s, i) && LineEnds(buf, i + k)
  {
    var t: nat :| i <= t < |buf| && buf[t] == NEWLINE;
    assert !Accepts(s, buf[t]);
    var r := RunEnd(buf, s, i);
    assert Run(buf, s, i, r - i);
  }

  /** Where a line ends, the search means what the manual says, for every pattern that keeps to
      the line, and settles on the greatest parse. */
  lemma {:induction false} MeansWhatItSays(buf: seq<byte>, i: nat, es: seq<Elem>)
    requires i <= |buf| && LineEnds(buf, i) && KeepsToLine(es)
    ensures Best(buf, i, es).Some? <==> Derives(buf, i, es)
    ensures forall ks: seq<nat>, j: nat :: Parses(false, buf, i, es, ks, j) ==>
              Best(buf, i, es).Some? && LexLeq(ks, Best(buf, i, es).value)
  {
    if Best(buf, i, es).Some? {
      BestIsSound(buf, i, es);
      var ks := Best(buf, i, es).value;
      CodedIsMeant(buf, i, es, ks, End(i, es, ks));
    }
    forall ks: seq<nat>, j: nat | Parses(false, buf, i, es, ks, j)
      ensures Best(buf, i, es).Some? && LexLeq(ks, Best(buf, i, es).value)
    {
      MeantIsCoded(buf, i, es, ks, j);
      BestIsGreatest(buf, i, es, ks, j);
    }
  }

  /** The literals of the text from `i` on, and after them any characters. */
  function RestAndMore(buf: seq<byte>, i: nat): seq<Elem>
    requires i <= |buf|
    decreases |buf| - i
  {
    if i == |buf| then [Close(Any)] else [Char(Lit(buf[i]))] + RestAndMore(buf, i + 1)
  }

  /** At the end of the text nothing is left for a closure to take, and the search gives up. */
  lemma {:induction false} RestAndMoreFails(buf: seq<byte>, i: nat)
    requires i <= |buf| && !LineEnds(buf, i)
    ensures KeepsToLine(RestAndMore(buf, i)) && Best(buf, i, RestAndMore(buf, i)).None?
    ensures Parses(false, buf, i, RestAndMore(buf, i), [0], |buf|)
    decreases |buf| - i
  {
    var es := RestAndMore(buf, i);
    RestAndMoreKeeps(buf, i);
    if i == |buf| {
      NothingToTake(buf);
    } else {
      assert !LineEnds(buf, i + 1) && es[1..] == RestAndMore(buf, i + 1);
      RestAndMoreFails(buf, i + 1);
    }
  }

  lemma {:induction false} RestAndMoreKeeps(buf: seq<byte>, i: nat)
    requires i <= |buf| && !LineEnds(buf, i)
    ensures KeepsToLine(RestAndMore(buf, i))
    decreases |buf| - i
  {
    RestKeepsToLine(RestAndMore(buf, i));
    if i < |buf| {
      assert !LineEnds(buf, i + 1) && RestAndMore(buf, i)[1..] == RestAndMore(buf, i + 1);
      RestAndMoreKeeps(buf, i + 1);
    }
  }

  lemma {:induction false} NothingToTake(buf: seq<byte>)
    ensures Best(buf, |buf|, [Close(Any)]).None? && Parses(false, buf, |buf|, [Close(Any)], [0], |buf|)
  {
    assert [Close(Any)][1..] == [] && [0][1..] == [];
    assert RunEnd(buf, Any, |buf|) == |buf|;
    assert BestRun(buf, |buf|, [Close(Any)][1..], 1, 0) == None;
  }

  /** From a place in a text the search means what the manual says, for all patterns that keep to
      the line, exactly when a line ends there or later. */
  lemma {:induction false} MeansWhatItSaysIffLineEnds(buf: seq<byte>, i: nat)
    requires i <= |buf|
    ensures (forall es: seq<Elem> :: KeepsToLine(es) ==> (Best(buf, i, es).Some? <==> Derives(buf, i, es)))
            <==> LineEnds(buf, i)
  {
    if LineEnds(buf, i) {
      forall es: seq<Elem> | KeepsToLine(es) ensures Best(buf, i, es).Some? <==> Derives(buf, i, es) {
        MeansWhatItSays(buf, i, es);
      }
    } else {
      RestAndMoreFails(buf, i);
      assert Derives(buf, i, RestAndMore(buf, i));
    }
  }

  /** The search and the manual agree on every pattern that closes `s` before a pattern that keeps
      to the line, wherever the match starts and a line ends there or later. */
  ghost predicate ClosesAsMeant(s: Single) {
    forall buf: seq<byte>, i: nat, rest: seq<Elem> ::
      i <= |buf| && LineEnds(buf, i) && KeepsToLine(rest) ==>
        (Best(buf, i, [Close(s)] + rest).Some? <==> Derives(buf, i, [Close(s)] + rest))
  }

  /** Exactly which closures a newline makes work: those over an element
      that rejects newline and is not a negated class. */
  lemma {:induction false} ClosureIsMeantIffSafe(s: Single)
    ensures ClosesAsMeant(s) <==> SafeToClose(s)
  {
    if SafeToClose(s) {
      forall buf: seq<byte>, i: nat, rest: seq<Elem> |
          i <= |buf| && LineEnds(buf, i) && KeepsToLine(rest)
        ensures Best(buf, i, [Close(s)] + rest).Some? <==> Derives(buf, i, [Close(s)] + rest)
      {
        assert ([Close(s)] + rest)[1..] == rest;
        RestKeepsToLine([Close(s)] + rest);
        MeansWhatItSays(buf, i, [Close(s)] + rest);
      }
    } else {
      UnsafeClosureFails(s);
    }
  }

  /** `x^a^` finds nothing in an empty line when `x` is not safe to close. */
  lemma {:induction false} UnsafeClosureFails(s: Single)
    requires !SafeToClose(s)
    ensures var es := [Close(s)] + [Close(Lit(97))];
            Best([NEWLINE], 0, es).None? && Derives([NEWLINE], 0, es)
    ensures !ClosesAsMeant(s)
  {
    var buf, rest := [NEWLINE], [Close(Lit(97))];
    var es := [Close(s)] + rest;
    assert es[1..] == rest && rest[1..] == [];
    assert Parses(false, buf, 0, [], [], 0);
    assert [0, 0][1..] == [0] && [0][1..] == [];
    assert Parses(false, buf, 0, rest, [0], 0);
    assert Parses(false, buf, 0, es, [0, 0], 0);
    assert RunEnd(buf, Lit(97), 1) == 1;
    assert Best(buf, 1, rest) == None;
    assert Stuck(buf, s, 0);
    assert RunEnd(buf, s, 0) <= 1;
    assert BestRun(buf, 0, rest, 1, 0) == None;
    assert BestRun(buf, 0, rest, 1, 1) == None;
    assert Best(buf, 0, es) == None;
    assert KeepsToLine(rest) && buf[0] == NEWLINE && LineEnds(buf, 0);
  }
}
