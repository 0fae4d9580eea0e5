/** Encoded regular expressions: the opcode alphabet, the elements an encoded
    pattern is made of, and what a parse of a buffer by a pattern is. */
module RegexpCode {
  import opened Bytes

  const CCHAR: ushort := 0x100
  const ANY: ushort := 0x200
  const SBOL: ushort := 0x300
  const SEOL: ushort := 0x400
  const CLOSE: ushort := 0x500
  const CCL: ushort := 0x600
  const NCCL: ushort := 0x700
  const RANGE: ushort := 0x800
  const CCLEND: ushort := 0x900
  const PEND: ushort := 0xA00
  const RPAR: ushort := 0x1300
  const LPAR: ushort := 0x1400

  const TAGS := 10

  type tag = k: int | 0 <= k < TAGS

  /** A member of a character class. */
  datatype Item = One(c: byte) | Span(lo: byte, hi: byte)

  /** An element that consumes exactly one character: the only kind a closure can hold. */
  datatype Single = Lit(c: byte) | Any | Class(negated: bool, items: seq<Item>)

  datatype Elem = Sbol | Seol | Char(s: Single) | Close(s: Single) | LPar(k: tag) | RPar(k: tag)

  // ----- the encoding

  function EncodeItem(item: Item): seq<ushort> {
    match item
    case One(c) => [CCHAR, c]
    case Span(lo, hi) => [RANGE, lo, hi]
  }

  function EncodeItems(items: seq<Item>): seq<ushort> {
    if items == [] then [] else EncodeItem(items[0]) + EncodeItems(items[1..])
  }

  function EncodeSingle(s: Single): seq<ushort> {
    match s
    case Lit(c) => [CCHAR, c]
    case Any => [ANY]
    case Class(negated, items) => [if negated then NCCL else CCL] + EncodeItems(items) + [CCLEND]
  }

  function EncodeElem(e: Elem): seq<ushort> {
    match e
    case Sbol => [SBOL]
    case Seol => [SEOL]
    case Char(s) => EncodeSingle(s)
    case Close(s) => [CLOSE] + EncodeSingle(s)
    case LPar(k) => [LPAR, k]
    case RPar(k) => [RPAR, k]
  }

  function Encode(es: seq<Elem>): seq<ushort> {
    if es == [] then [] else EncodeElem(es[0]) + Encode(es[1..])
  }

  // ----- reading an encoded pattern in place

  function ItemSize(item: Item): nat {
    if item.One? then 2 else 3
  }

  function ItemsSize(items: seq<Item>): nat {
    if items == [] then 0 else ItemSize(items[0]) + ItemsSize(items[1..])
  }

  function SingleSize(s: Single): nat {
    match s
    case Lit(_) => 2
    case Any => 1
    case Class(_, items) => 2 + ItemsSize(items)
  }

  function Size(e: Elem): nat {
    match e
    case Char(s) => SingleSize(s)
    case Close(s) => 1 + SingleSize(s)
    case LPar(_) => 2
    case RPar(_) => 2
    case _ => 1
  }

  predicate HoldsItem(pat: seq<ushort>, p: nat, item: Item) {
    match item
    case One(c) => p + 2 <= |pat| && pat[p] == CCHAR && pat[p + 1] == c
    case Span(lo, hi) => p + 3 <= |pat| && pat[p] == RANGE && pat[p + 1] == lo && pat[p + 2] == hi
  }

  /** `pat` holds, from offset `p`, the code of `items` and then CCLEND. */
  predicate HoldsItems(pat: seq<ushort>, p: nat, items: seq<Item>)
    decreases |items|
  {
    if items == [] then p < |pat| && pat[p] == CCLEND
    else HoldsItem(pat, p, items[0]) && HoldsItems(pat, p + ItemSize(items[0]), items[1..])
  }

  predicate HoldsSingle(pat: seq<ushort>, p: nat, s: Single) {
    match s
    case Lit(c) => p + 2 <= |pat| && pat[p] == CCHAR && pat[p + 1] == c
    case Any => p < |pat| && pat[p] == ANY
    case Class(negated, items) =>
      p < |pat| && pat[p] == (if negated then NCCL else CCL) && HoldsItems(pat, p + 1, items)
  }

  predicate HoldsElem(pat: seq<ushort>, p: nat, e: Elem) {
    match e
    case Sbol => p < |pat| && pat[p] == SBOL
    case Seol => p < |pat| && pat[p] == SEOL
    case Char(s) => HoldsSingle(pat, p, s)
    case Close(s) => p < |pat| && pat[p] == CLOSE && HoldsSingle(pat, p + 1, s)
    case LPar(k) => p + 2 <= |pat| && pat[p] == LPAR && pat[p + 1] == k
    case RPar(k) => p + 2 <= |pat| && pat[p] == RPAR && pat[p + 1] == k
  }

  /** `pat` holds, from offset `p`, the code of `es` and then PEND. */
  predicate Holds(pat: seq<ushort>, p: nat, es: seq<Elem>)
    decreases |es|
  {
    if es == [] then p < |pat| && pat[p] == PEND
    else HoldsElem(pat, p, es[0]) && Holds(pat, p + Size(es[0]), es[1..])
  }

  // ----- reading in place is reading the encoding

  /** `xs` lies in `pat` from offset `p`. */
  predicate Lies(xs: seq<ushort>, pat: seq<ushort>, p: nat) {
    p + |xs| <= |pat| && pat[p..p + |xs|] == xs
  }

  lemma {:induction false} LiesOne(x: ushort, pat: seq<ushort>, p: nat)
    ensures Lies([x], pat, p) <==> p < |pat| && pat[p] == x
  {
    if Lies([x], pat, p) {
      assert pat[p] == pat[p..p + 1][0] == [x][0];
    }
  }

  lemma {:induction false} LiesSplit(xs: seq<ushort>, ys: seq<ushort>, pat: seq<ushort>, p: nat)
    ensures Lies(xs + ys, pat, p) <==> Lies(xs, pat, p) && Lies(ys, pat, p + |xs|)
  {
    if p + |xs + ys| <= |pat| {
      var mid := p + |xs|;
      assert pat[p..mid + |ys|] == pat[p..mid] + pat[mid..mid + |ys|];
      if Lies(xs + ys, pat, p) {
        assert pat[p..mid] == (xs + ys)[..|xs|] == xs;
        assert pat[mid..mid + |ys|] == (xs + ys)[|xs|..] == ys;
      }
    }
  }

  lemma {:induction false} LiesPair(x: ushort, y: ushort, pat: seq<ushort>, p: nat)
    ensures Lies([x, y], pat, p) <==> p + 2 <= |pat| && pat[p] == x && pat[p + 1] == y
  {
    assert [x, y] == [x] + [y];
    LiesSplit([x], [y], pat, p);
    LiesOne(x, pat, p);
    LiesOne(y, pat, p + 1);
  }

  lemma {:induction false} ItemLies(item: Item, pat: seq<ushort>, p: nat)
    ensures Lies(EncodeItem(item), pat, p) <==> HoldsItem(pat, p, item)
    ensures |EncodeItem(item)| == ItemSize(item)
  {
    match item
    case One(c) => LiesPair(CCHAR, c, pat, p);
    case Span(lo, hi) =>
      assert [RANGE, lo, hi] == [RANGE] + [lo, hi];
      LiesSplit([RANGE], [lo, hi], pat, p);
      LiesOne(RANGE, pat, p);
      LiesPair(lo, hi, pat, p + 1);
  }

  lemma {:induction false} ItemsLie(items: seq<Item>, pat: seq<ushort>, p: nat)
    ensures Lies(EncodeItems(items) + [CCLEND], pat, p) <==> HoldsItems(pat, p, items)
    ensures |EncodeItems(items)| == ItemsSize(items)
    decreases |items|
  {
    if items == [] {
      assert EncodeItems(items) + [CCLEND] == [CCLEND];
      LiesOne(CCLEND, pat, p);
    } else {
      var first := EncodeItem(items[0]);
      assert EncodeItems(items) + [CCLEND] == first + (EncodeItems(items[1..]) + [CCLEND]);
      LiesSplit(first, EncodeItems(items[1..]) + [CCLEND], pat, p);
      ItemLies(items[0], pat, p);
      ItemsLie(items[1..], pat, p + |first|);
    }
  }

  lemma {:induction false} SingleLies(s: Single, pat: seq<ushort>, p: nat)
    ensures Lies(EncodeSingle(s), pat, p) <==> HoldsSingle(pat, p, s)
    ensures |EncodeSingle(s)| == SingleSize(s)
  {
    match s
    case Lit(c) => LiesPair(CCHAR, c, pat, p);
    case Any => LiesOne(ANY, pat, p);
    case Class(negated, items) =>
      var op := if negated then NCCL else CCL;
      assert EncodeSingle(s) == [op] + (EncodeItems(items) + [CCLEND]);
      LiesSplit([op], EncodeItems(items) + [CCLEND], pat, p);
      LiesOne(op, pat, p);
      ItemsLie(items, pat, p + 1);
  }

  lemma {:induction false} ElemLies(e: Elem, pat: seq<ushort>, p: nat)
    ensures Lies(EncodeElem(e), pat, p) <==> HoldsElem(pat, p, e)
    ensures |EncodeElem(e)| == Size(e)
  {
    match e
    case Sbol => LiesOne(SBOL, pat, p);
    case Seol => LiesOne(SEOL, pat, p);
    case Char(s) => SingleLies(s, pat, p);
    case Close(s) =>
      LiesSplit([CLOSE], EncodeSingle(s), pat, p);
      LiesOne(CLOSE, pat, p);
      SingleLies(s, pat, p + 1);
    case LPar(k) => LiesPair(LPAR, k, pat, p);
    case RPar(k) => LiesPair(RPAR, k, pat, p);
  }

  /** Reading element by element is reading the encoding. */
  lemma {:induction false} EncodeHolds(es: seq<Elem>, pat: seq<ushort>, p: nat)
    ensures Lies(Encode(es) + [PEND], pat, p) <==> Holds(pat, p, es)
    decreases |es|
  {
    if es == [] {
      assert Encode(es) + [PEND] == [PEND];
      LiesOne(PEND, pat, p);
    } else {
      var first := EncodeElem(es[0]);
      assert Encode(es) + [PEND] == first + (Encode(es[1..]) + [PEND]);
      LiesSplit(first, Encode(es[1..]) + [PEND], pat, p);
      ElemLies(es[0], pat, p);
      EncodeHolds(es[1..], pat, p + |first|);
    }
  }

  lemma {:induction false} ItemsUnique(pat: seq<ushort>, p: nat, xs: seq<Item>, ys: seq<Item>)
    requires HoldsItems(pat, p, xs) && HoldsItems(pat, p, ys)
    ensures xs == ys
    decreases |xs|
  {
    if xs != [] && ys != [] {
      ItemsUnique(pat, p + ItemSize(xs[0]), xs[1..], ys[1..]);
      assert xs == [xs[0]] + xs[1..] && ys == [ys[0]] + ys[1..];
    }
  }

  lemma {:induction false} ElemUnique(pat: seq<ushort>, p: nat, x: Elem, y: Elem)
    requires HoldsElem(pat, p, x) && HoldsElem(pat, p, y)
    ensures x == y
  {
    match x
    case Char(s) =>
      if s.Class? { ItemsUnique(pat, p + 1, s.items, y.s.items); }
    case Close(s) =>
      if s.Class? { ItemsUnique(pat, p + 2, s.items, y.s.items); }
    case _ =>
  }

  /** An encoded pattern can be read in one way only: the code is a prefix code. */
  lemma {:induction false} DecodingIsUnique(pat: seq<ushort>, p: nat, xs: seq<Elem>, ys: seq<Elem>)
    requires Holds(pat, p, xs) && Holds(pat, p, ys)
    ensures xs == ys
    decreases |xs|
  {
    if xs != [] && ys != [] {
      ElemUnique(pat, p, xs[0], ys[0]);
      DecodingIsUnique(pat, p + Size(xs[0]), xs[1..], ys[1..]);
      assert xs == [xs[0]] + xs[1..] && ys == [ys[0]] + ys[1..];
    }
  }

  // ----- what a pattern means

  predicate InItem(item: Item, c: byte) {
    match item
    case One(x) => c == x
    case Span(lo, hi) => lo <= c <= hi
  }

  predicate InItems(items: seq<Item>, c: byte) {
    exists k :: 0 <= k < |items| && InItem(items[k], c)
  }

  /** The character `c` is one that `s` stands for. */
  predicate Accepts(s: Single, c: byte) {
    match s
    case Lit(x) => c == x
    case Any => c != NEWLINE
    case Class(negated, items) =>
      if negated then c != NEWLINE && !InItems(items, c) else InItems(items, c)
  }

  /** The `k` characters of `buf` from `i` are all ones that `s` stands for. */
  predicate Run(buf: seq<byte>, s: Single, i: nat, k: nat) {
    i + k <= |buf| && forall t :: i <= t < i + k ==> Accepts(s, buf[t])
  }

  /** Where the longest run of `s` that starts at `i` ends. */
  function RunEnd(buf: seq<byte>, s: Single, i: nat): (r: nat)
    requires i <= |buf|
    ensures i <= r <= |buf| && Run(buf, s, i, r - i)
    ensures r < |buf| ==> !Accepts(s, buf[r])
    decreases |buf| - i
  {
    if i < |buf| && Accepts(s, buf[i]) then RunEnd(buf, s, i + 1) else i
  }

  /** The run from `i` ends where the failing attempt does not step the pattern over
      the closed element: at the end of the buffer, or with a negated class on a newline. */
  predicate Stuck(buf: seq<byte>, s: Single, i: nat)
    requires i <= |buf|
  {
    var r := RunEnd(buf, s, i);
    r == |buf| || (s.Class? && s.negated && buf[r] == NEWLINE)
  }

  /** The pattern `es` derives `buf[i..j)`, its closures taking `ks` characters in turn.
      With `coded`, a closure whose run is stuck must take at least one character. */
  ghost predicate Parses(coded: bool, buf: seq<byte>, i: nat, es: seq<Elem>, ks: seq<nat>, j: nat)
    requires i <= |buf|
    decreases |es|
  {
    if es == [] then ks == [] && i == j
    else
      match es[0]
      case Sbol => i == 0 && Parses(coded, buf, i, es[1..], ks, j)
      case Seol => (i == |buf| || buf[i] == NEWLINE) && Parses(coded, buf, i, es[1..], ks, j)
      case Char(s) => i < |buf| && Accepts(s, buf[i]) && Parses(coded, buf, i + 1, es[1..], ks, j)
      case Close(s) =>
        && ks != []
        && Run(buf, s, i, ks[0])
        && (coded && Stuck(buf, s, i) ==> ks[0] > 0)
        && Parses(coded, buf, i + ks[0], es[1..], ks[1..], j)
      case _ => Parses(coded, buf, i, es[1..], ks, j)
  }

  /** Some parse exists, by the meaning the manual gives patterns. */
  ghost predicate Derives(buf: seq<byte>, i: nat, es: seq<Elem>)
    requires i <= |buf|
  {
    exists ks: seq<nat>, j: nat :: Parses(false, buf, i, es, ks, j)
  }

  /** Some parse exists that the matcher, as it is coded, can find. */
  ghost predicate DerivesAsCoded(buf: seq<byte>, i: nat, es: seq<Elem>)
    requires i <= |buf|
  {
    exists ks: seq<nat>, j: nat :: Parses(true, buf, i, es, ks, j)
  }
}
