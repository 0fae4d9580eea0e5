/** What the recorded tags are: the substrings of the parse the search settled on. */
module RegexpTags {
  import opened Bytes
  import opened Options
  import opened RegexpCode
  import opened RegexpSearch
  import opened RegexpMatch

  /** How far a parse has come: its place in the buffer and the closure counts still to go. */
  datatype Spot = Spot(at: nat, left: seq<nat>)

  /** Where the parse of `es` from `i` stands before element `a`. */
  function Reach(i: nat, es: seq<Elem>, ks: seq<nat>, a: nat): Spot
    requires a <= |es|
    decreases a
  {
    if a == 0 then Spot(i, ks)
    else if es[0].Char? then Reach(i + 1, es[1..], ks, a - 1)
    else if es[0].Close? && ks != [] then Reach(i + ks[0], es[1..], ks[1..], a - 1)
    else Reach(i, es[1..], ks, a - 1)
  }

  lemma {:induction false} ParsesFrom(coded: bool, buf: seq<byte>, i: nat, es: seq<Elem>, ks: seq<nat>, j: nat, a: nat)
    requires i <= |buf| && a <= |es| && Parses(coded, buf, i, es, ks, j)
    ensures var spot := Reach(i, es, ks, a);
            i <= spot.at <= |buf| && Parses(coded, buf, spot.at, es[a..], spot.left, j)
    decreases a
  {
    if a > 0 {
      assert es[1..][a - 1..] == es[a..];
      match es[0]
      case Char(_) => ParsesFrom(coded, buf, i + 1, es[1..], ks, j, a - 1);
      case Close(_) => ParsesFrom(coded, buf, i + ks[0], es[1..], ks[1..], j, a - 1);
      case _ => ParsesFrom(coded, buf, i, es[1..], ks, j, a - 1);
    }
  }

  lemma {:induction false} ParsesUpTo(coded: bool, buf: seq<byte>, i: nat, es: seq<Elem>, ks: seq<nat>, j: nat, a: nat)
    returns (used: seq<nat>)
    requires i <= |buf| && a <= |es| && Parses(coded, buf, i, es, ks, j)
    ensures Parses(coded, buf, i, es[..a], used, Reach(i, es, ks, a).at)
    decreases a
  {
    if a == 0 {
      used := [];
    } else {
      assert es[..a][0] == es[0] && es[..a][1..] == es[1..][..a - 1];
      match es[0]
      case Char(_) => used := ParsesUpTo(coded, buf, i + 1, es[1..], ks, j, a - 1);
      case Close(_) =>
        used := ParsesUpTo(coded, buf, i + ks[0], es[1..], ks[1..], j, a - 1);
        var rest := used;
        used := [ks[0]] + rest;
        assert used[1..] == rest;
      case _ => used := ParsesUpTo(coded, buf, i, es[1..], ks, j, a - 1);
    }
  }

  lemma {:induction false} ReachAfter(i: nat, es: seq<Elem>, ks: seq<nat>, a: nat, b: nat)
    requires a <= b <= |es|
    ensures var spot := Reach(i, es, ks, a);
            Reach(spot.at, es[a..], spot.left, b - a) == Reach(i, es, ks, b)
    decreases a
  {
    if a > 0 {
      assert es[1..][a - 1..] == es[a..];
      if es[0].Char? {
        ReachAfter(i + 1, es[1..], ks, a - 1, b - 1);
      } else if es[0].Close? && ks != [] {
        ReachAfter(i + ks[0], es[1..], ks[1..], a - 1, b - 1);
      } else {
        ReachAfter(i, es[1..], ks, a - 1, b - 1);
      }
    }
  }

  /** The elements from `a` up to `b` derive the text the parse gives them. */
  lemma {:induction false} ParsesBetween(coded: bool, buf: seq<byte>, i: nat, es: seq<Elem>, ks: seq<nat>, j: nat,
                                         a: nat, b: nat)
    requires i <= |buf| && a <= b <= |es| && Parses(coded, buf, i, es, ks, j)
    ensures var from, to := Reach(i, es, ks, a).at, Reach(i, es, ks, b).at;
            from <= to <= |buf| && exists used: seq<nat> :: Parses(coded, buf, from, es[a..b], used, to)
  {
    var spot := Reach(i, es, ks, a);
    ParsesFrom(coded, buf, i, es, ks, j, a);
    ReachAfter(i, es, ks, a, b);
    assert es[a..][..b - a] == es[a..b];
    var used := ParsesUpTo(coded, buf, spot.at, es[a..], spot.left, j, b - a);
    EndIsForced(coded, buf, spot.at, es[a..b], used, Reach(i, es, ks, b).at);
  }

  predicate TagFree(es: seq<Elem>, k: tag) {
    LPar(k) !in es && RPar(k) !in es
  }

  lemma {:induction false} Untouched(i: nat, es: seq<Elem>, ks: seq<nat>, tags: seq<TagMatch>, k: tag)
    requires |tags| >= TAGS && TagFree(es, k)
    ensures Record(i, es, ks, tags)[k] == tags[k]
    decreases |es|
  {
    if es != [] {
      var rest := es[1..];
      if es[0].Char? {
        Untouched(i + 1, rest, ks, tags, k);
      } else if es[0].Close? && ks != [] {
        Untouched(i + ks[0], rest, ks[1..], tags, k);
      } else {
        Untouched(i, rest, ks, RecordTag(i, es[0], tags), k);
      }
    }
  }

  lemma {:induction false} TagIsClosed(i: nat, es: seq<Elem>, ks: seq<nat>, tags: seq<TagMatch>, k: tag, b: nat)
    requires |tags| >= TAGS && b < |es| && es[b] == RPar(k)
    requires TagFree(es[..b], k) && TagFree(es[b + 1..], k)
    ensures Record(i, es, ks, tags)[k]
         == TagMatch(tags[k].mtext, Reach(i, es, ks, b).at - tags[k].mtext)
    decreases |es|
  {
    var rest := es[1..];
    if b == 0 {
      Untouched(i, rest, ks, RecordTag(i, es[0], tags), k);
    } else {
      assert rest[b - 1] == es[b] && rest[..b - 1] == es[..b][1..] && rest[b..] == es[b + 1..];
      assert es[0] == es[..b][0];
      if es[0].Char? {
        TagIsClosed(i + 1, rest, ks, tags, k, b - 1);
      } else if es[0].Close? && ks != [] {
        TagIsClosed(i + ks[0], rest, ks[1..], tags, k, b - 1);
      } else {
        TagIsClosed(i, rest, ks, RecordTag(i, es[0], tags), k, b - 1);
      }
    }
  }

  lemma {:induction false} TagIsSpan(i: nat, es: seq<Elem>, ks: seq<nat>, tags: seq<TagMatch>, k: tag, a: nat, b: nat)
    requires |tags| >= TAGS && Tagged(es, k, a, b)
    ensures var from := Reach(i, es, ks, a).at;
            Record(i, es, ks, tags)[k] == TagMatch(from, Reach(i, es, ks, b).at - from)
    decreases |es|
  {
    var rest := es[1..];
    assert rest[b - 1] == es[b] && rest[b..] == es[b + 1..];
    if a == 0 {
      assert rest[..b - 1] == es[1..b];
      TagIsClosed(i, rest, ks, RecordTag(i, es[0], tags), k, b - 1);
    } else {
      assert rest[a - 1] == es[a] && rest[..a - 1] == es[..a][1..] && rest[a..b - 1] == es[a + 1..b];
      assert es[0] == es[..a][0];
      if es[0].Char? {
        TagIsSpan(i + 1, rest, ks, tags, k, a - 1, b - 1);
      } else if es[0].Close? && ks != [] {
        TagIsSpan(i + ks[0], rest, ks[1..], tags, k, a - 1, b - 1);
      } else {
        TagIsSpan(i, rest, ks, RecordTag(i, es[0], tags), k, a - 1, b - 1);
      }
    }
  }

  /** Tag `k` is opened at element `a`, closed at element `b`, and nowhere else. */
  predicate Tagged(es: seq<Elem>, k: tag, a: nat, b: nat) {
    && a < b < |es| && es[a] == LPar(k) && es[b] == RPar(k)
    && TagFree(es[..a], k) && TagFree(es[a + 1..b], k) && TagFree(es[b + 1..], k)
  }

  /** After a match every tag is the substring its part of the pattern derives in the greedy
      parse, whatever the tag array held before and whatever was tried on the way. */
  lemma {:induction false} TagsAreSubstrings(buf: seq<byte>, i: nat, es: seq<Elem>, tags: seq<TagMatch>, k: tag,
                                             a: nat, b: nat)
    requires i <= |buf| && |tags| >= TAGS && Tagged(es, k, a, b) && Outcome(buf, i, es, tags).Some?
    ensures Best(buf, i, es).Some?
    ensures var ks := Best(buf, i, es).value;
            var from, to := Reach(i, es, ks, a).at, Reach(i, es, ks, b).at;
            && Outcome(buf, i, es, tags).value.1[k] == TagMatch(from, to - from)
            && from <= to <= |buf|
            && exists used: seq<nat> :: Parses(true, buf, from, es[a..b], used, to)
  {
    OutcomeIsBest(buf, i, es, tags);
    BestIsSound(buf, i, es);
    var ks := Best(buf, i, es).value;
    TagIsSpan(i, es, ks, tags, k, a, b);
    ParsesBetween(true, buf, i, es, ks, End(i, es, ks), a, b);
  }

  /** When tag 0 opens before anything is consumed and closes last, it is the whole match. */
  lemma {:induction false} TagZeroIsTheMatch(buf: seq<byte>, i: nat, es: seq<Elem>, tags: seq<TagMatch>, a: nat)
    requires i <= |buf| && |tags| >= TAGS && Outcome(buf, i, es, tags).Some?
    requires es != [] && Tagged(es, 0, a, |es| - 1) && (a == 0 || (a == 1 && es[0] == Sbol))
    ensures var (end, recorded) := Outcome(buf, i, es, tags).value;
            recorded[0] == TagMatch(i, end - i)
  {
    TagsAreSubstrings(buf, i, es, tags, 0, a, |es| - 1);
    OutcomeIsBest(buf, i, es, tags);
    BestIsSound(buf, i, es);
    var ks := Best(buf, i, es).value;
    var last := Reach(i, es, ks, |es| - 1);
    ParsesFrom(true, buf, i, es, ks, End(i, es, ks), |es| - 1);
    assert es[|es| - 1..] == [RPar(0)];
    EndIsForced(true, buf, last.at, [RPar(0)], last.left, End(i, es, ks));
    assert Reach(i, es, ks, a).at == i;
  }
}
