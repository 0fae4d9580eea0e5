/** How the SLP-100/200/Pro driver decodes the bytes the printer sends. */
module SlProSense {
  import opened Options

  /** A byte, or a word of status bits. */
  type word = bv16

  const PHYSICAL: word := 0x03F
  const GARBLED: word := 0x100
  const BUF_FULL: word := 0x200
  const CHECKPOINT: word := 0x400
  const PING_OK: word := 0x800

  /** The ids of the printer models the driver knows, in the order of its table. */
  const MODEL_IDS: seq<word> := [0x2, 0x4, 0x6, 0x8, 0x5, 0x7, 0x9, 0xB]

  // ----- the status word

  /** The soft bits of a status word, its physical bits, and the bits without a meaning. */
  datatype View = View(full: bool, garbled: bool, checkpoint: bool, ping: bool, physical: word, others: word)

  function ViewOf(ps: word): View {
    View(ps & BUF_FULL != 0, ps & GARBLED != 0, ps & CHECKPOINT != 0, ps & PING_OK != 0, ps & PHYSICAL, ps & 0xF0C0)
  }

  lemma {:induction false} FullSet(ps: word)
    ensures ViewOf(ps | BUF_FULL) == ViewOf(ps).(full := true)
  {
  }

  lemma {:induction false} FullClear(ps: word)
    ensures ViewOf(ps & !BUF_FULL) == ViewOf(ps).(full := false)
  {
  }

  lemma {:induction false} GarbledSet(ps: word)
    ensures ViewOf(ps | GARBLED) == ViewOf(ps).(garbled := true)
  {
  }

  lemma {:induction false} GarbledClear(ps: word)
    ensures ViewOf(ps & !GARBLED) == ViewOf(ps).(garbled := false)
  {
  }

  lemma {:induction false} CheckpointBit(ps: word)
    ensures ViewOf(ps | CHECKPOINT) == ViewOf(ps).(checkpoint := true)
  {
  }

  lemma {:induction false} PingBit(ps: word)
    ensures ViewOf(ps | PING_OK) == ViewOf(ps).(ping := true)
  {
  }

  lemma {:induction false} NoAnswerBits(ps: word)
    ensures ViewOf(ps & !(CHECKPOINT | PING_OK)) == ViewOf(ps).(checkpoint := false, ping := false)
  {
  }

  lemma {:induction false} StatusBits(sb: word)
    requires sb & 0xC0 == 0x40 && sb <= 0xFF
    ensures var x := sb & !0x40;
            x == sb & PHYSICAL && x & PHYSICAL == x && x & 0x40 == 0
  {
  }

  lemma {:induction false} PhysicalBits(ps: word, x: word)
    requires x & PHYSICAL == x
    ensures ViewOf((ps & !PHYSICAL) | x) == ViewOf(ps).(physical := x)
  {
  }

  // ----- what the bytes say

  datatype Kind = Xon | Xoff | Checkpoint | Ping | Reply | Model | Status | Strange

  function KindOf(b: word): Kind {
    var s := b & 0xFF;
    if s == 0x11 then Xon
    else if s == 0x13 then Xoff
    else if s == 0xC7 then Checkpoint
    else if s == 0xC9 then Ping
    else if s & 0xF0 == 0xD0 || s & 0xF0 == 0x80 then Reply
    else if s & 0xF0 == 0xE0 then Model
    else if s & 0xC0 == 0x40 then Status
    else Strange
  }

  function Last(bytes: seq<word>): word
    requires bytes != []
  {
    bytes[|bytes| - 1]
  }

  function Front(bytes: seq<word>): seq<word>
    requires bytes != []
  {
    bytes[..|bytes| - 1]
  }

  /** The last flow-control byte decides, and `before` when there is none. */
  predicate BufFull(bytes: seq<word>, before: bool) {
    if bytes == [] then before
    else match KindOf(Last(bytes))
      case Xon => false
      case Xoff => true
      case _ => BufFull(Front(bytes), before)
  }

  /** The last byte that is no flow control decides. */
  predicate Garbage(bytes: seq<word>, before: bool) {
    if bytes == [] then before
    else match KindOf(Last(bytes))
      case Xon | Xoff => Garbage(Front(bytes), before)
      case kind => kind == Strange
  }

  predicate Has(bytes: seq<word>, kind: Kind) {
    bytes != [] && (KindOf(Last(bytes)) == kind || Has(Front(bytes), kind))
  }

  /** The last status byte, or what was known before. */
  function Physical(bytes: seq<word>, before: word): word {
    if bytes == [] then before
    else if KindOf(Last(bytes)).Status? then Last(bytes) & PHYSICAL
    else Physical(Front(bytes), before)
  }

  /** The table entry of a model id. */
  ghost predicate Identifies(id: word, m: Option<nat>) {
    match m
    case None => id !in MODEL_IDS
    case Some(i) => i < |MODEL_IDS| && MODEL_IDS[i] == id
  }

  /** The last model byte, or the model known before. */
  ghost predicate Detects(bytes: seq<word>, before: Option<nat>, m: Option<nat>) {
    if bytes == [] then m == before
    else if KindOf(Last(bytes)).Model? then Identifies(Last(bytes) & 0x1F, m)
    else Detects(Front(bytes), before, m)
  }

  /** Status `v` is what the bytes make of status `v0`, but for its physical bits, which are
      those that the bytes `settled` make. */
  predicate Decodes(bytes: seq<word>, settled: seq<word>, v0: View, v: View) {
    v == View(BufFull(bytes, v0.full), Garbage(bytes, v0.garbled), v0.checkpoint || Has(bytes, Checkpoint),
              v0.ping || Has(bytes, Ping), Physical(settled, v0.physical), v0.others)
  }

  /** The bytes of the first `k` reads. */
  function Joined(chunks: seq<seq<word>>, k: nat): seq<word>
    requires k <= |chunks|
  {
    if k == 0 then [] else Joined(chunks, k - 1) + chunks[k - 1]
  }

  /** The first read from the `k`th on that brings nothing. */
  function EmptyFrom(chunks: seq<seq<word>>, k: nat): (n: nat)
    requires k <= |chunks|
    ensures n <= |chunks|
    decreases |chunks| - k
  {
    if k == |chunks| || chunks[k] == [] then k else EmptyFrom(chunks, k + 1)
  }

  /** The bytes of all reads up to the first that brings none. */
  function Received(chunks: seq<seq<word>>): seq<word> {
    Joined(chunks, EmptyFrom(chunks, 0))
  }

  lemma {:induction false} NothingReceived(v: View, m: Option<nat>)
    ensures Decodes([], [], v, v) && Detects([], m, m)
  {
  }

  // ----- one byte

  /** What a byte of some kind does to the soft bits. */
  function Soften(v: View, kind: Kind): View {
    match kind
    case Xon => v.(full := false)
    case Xoff => v.(full := true)
    case Checkpoint => v.(checkpoint := true, garbled := false)
    case Ping => v.(ping := true, garbled := false)
    case _ => v.(garbled := kind.Strange?)
  }

  lemma {:induction false} DecodesOneMore(bytes: seq<word>, b: word, settled: seq<word>, v0: View, v: View)
    requires Decodes(bytes, settled, v0, v)
    ensures Decodes(bytes + [b], settled, v0, Soften(v, KindOf(b)))
  {
    assert Front(bytes + [b]) == bytes && Last(bytes + [b]) == b;
  }

  /** Status byte `sb`, when there is one, holds the physical bits not yet settled. */
  predicate Pending(bytes: seq<word>, settled: seq<word>, phys0: word, sb: word) {
    if sb & 0x40 == 0 then Physical(bytes, phys0) == Physical(settled, phys0)
    else sb & 0xC0 == 0x40 && sb <= 0xFF && Physical(bytes, phys0) == sb & PHYSICAL
  }

  lemma {:induction false} PendingOneMore(bytes: seq<word>, b: word, settled: seq<word>, phys0: word, sb: word)
    requires Pending(bytes, settled, phys0, sb)
    ensures Pending(bytes + [b], settled, phys0, if KindOf(b).Status? then b & 0xFF else sb)
  {
    assert Front(bytes + [b]) == bytes && Last(bytes + [b]) == b;
    assert (b & 0xFF) & PHYSICAL == b & PHYSICAL;
  }

  lemma {:induction false} DetectsOneMore(bytes: seq<word>, b: word, before: Option<nat>, m: Option<nat>,
                                          m': Option<nat>)
    requires Detects(bytes, before, m)
    requires if KindOf(b).Model? then Identifies(b & 0x1F, m') else m' == m
    ensures Detects(bytes + [b], before, m')
  {
    assert Front(bytes + [b]) == bytes && Last(bytes + [b]) == b;
  }

  // ----- how the bytes were split into reads

  lemma {:induction false} ViewIsWord(ps: word, ps': word)
    requires ViewOf(ps) == ViewOf(ps')
    ensures ps == ps'
  {
    assert ps == ((ps & BUF_FULL) | (ps & GARBLED) | (ps & CHECKPOINT) | (ps & PING_OK)
                  | (ps & PHYSICAL) | (ps & 0xF0C0));
  }

  lemma {:induction false} DetectsOne(bytes: seq<word>, before: Option<nat>, m: Option<nat>, m': Option<nat>)
    requires Detects(bytes, before, m) && Detects(bytes, before, m')
    ensures m == m'
  {
    if bytes != [] && !KindOf(Last(bytes)).Model? {
      DetectsOne(Front(bytes), before, m, m');
    }
  }

  /** The status and the model that come of two series of reads are the same when the bytes
      are. */
  lemma {:induction false} SplitDoesNotMatter(chunks: seq<seq<word>>, chunks': seq<seq<word>>, v0: View,
                                              m0: Option<nat>,
                                              ps: word, ps': word, m: Option<nat>, m': Option<nat>)
    requires Received(chunks) == Received(chunks')
    requires Decodes(Received(chunks), Received(chunks), v0, ViewOf(ps)) && Detects(Received(chunks), m0, m)
    requires Decodes(Received(chunks'), Received(chunks'), v0, ViewOf(ps')) && Detects(Received(chunks'), m0, m')
    ensures ps == ps' && m == m'
  {
    ViewIsWord(ps, ps');
    DetectsOne(Received(chunks), m0, m, m');
  }

  // ----- what the bytes say, in bytes

  /** The codes of bytes, by what they are for. */
  predicate IsFlow(s: word) { s == 0x11 || s == 0x13 }
  predicate IsModel(s: word) { 0xE0 <= s <= 0xEF }
  predicate IsStatus(s: word) { 0x40 <= s <= 0x7F }

  /** A byte that the printer never sends: none of those, no answer and no version or option report. */
  predicate IsStrange(s: word) {
    || (s < 0x40 && s != 0x11 && s != 0x13)
    || (0x90 <= s <= 0xCF && s != 0xC7 && s != 0xC9)
    || 0xF0 <= s
  }

  lemma {:induction false} KindsAreCodes(b: word)
    ensures var s := b & 0xFF;
            && (KindOf(b).Xon? <==> s == 0x11) && (KindOf(b).Xoff? <==> s == 0x13)
            && (KindOf(b).Checkpoint? <==> s == 0xC7) && (KindOf(b).Ping? <==> s == 0xC9)
            && (KindOf(b).Model? <==> IsModel(s)) && (KindOf(b).Status? <==> IsStatus(s))
            && (KindOf(b).Strange? <==> IsStrange(s)) && (KindOf(b).Reply? <==> 0x80 <= s <= 0x8F || 0xD0 <= s <= 0xDF)
  {
  }

  /** Byte `k` is the last for which `p` holds of the code. */
  ghost predicate LastSuch(bytes: seq<word>, p: word -> bool, k: int) {
    && 0 <= k < |bytes| && p(bytes[k] & 0xFF)
    && forall j | k < j < |bytes| :: !p(bytes[j] & 0xFF)
  }

  ghost predicate NoneSuch(bytes: seq<word>, p: word -> bool) {
    forall j | 0 <= j < |bytes| :: !p(bytes[j] & 0xFF)
  }

  lemma {:induction false} LastSuchIsNext(bytes: seq<word>, p: word -> bool, k: int)
    requires bytes != []
    ensures if p(Last(bytes) & 0xFF) then LastSuch(bytes, p, k) <==> k == |bytes| - 1
            else LastSuch(bytes, p, k) <==> LastSuch(Front(bytes), p, k)
    ensures NoneSuch(bytes, p) <==> !p(Last(bytes) & 0xFF) && NoneSuch(Front(bytes), p)
  {
    NoneSuchIsNext(bytes, p);
  }

  lemma {:induction false} NoneSuchIsNext(bytes: seq<word>, p: word -> bool)
    requires bytes != []
    ensures NoneSuch(bytes, p) <==> !p(Last(bytes) & 0xFF) && NoneSuch(Front(bytes), p)
  {
  }

  lemma {:induction false} FullIsLastFlow(bytes: seq<word>, before: bool, k: int)
    ensures LastSuch(bytes, IsFlow, k) ==> (BufFull(bytes, before) <==> bytes[k] & 0xFF == 0x13)
    ensures NoneSuch(bytes, IsFlow) ==> BufFull(bytes, before) == before
  {
    if bytes != [] {
      LastSuchIsNext(bytes, IsFlow, k);
      KindsAreCodes(Last(bytes));
      FullIsLastFlow(Front(bytes), before, k);
    }
  }

  lemma {:induction false} GarbageIsLastOther(bytes: seq<word>, before: bool, k: int)
    ensures LastSuch(bytes, s => !IsFlow(s), k) ==> (Garbage(bytes, before) <==> IsStrange(bytes[k] & 0xFF))
    ensures NoneSuch(bytes, s => !IsFlow(s)) ==> Garbage(bytes, before) == before
  {
    if bytes != [] {
      LastSuchIsNext(bytes, s => !IsFlow(s), k);
      KindsAreCodes(Last(bytes));
      GarbageIsLastOther(Front(bytes), before, k);
    }
  }

  lemma {:induction false} HasIsCode(bytes: seq<word>)
    ensures Has(bytes, Checkpoint) <==> exists k :: 0 <= k < |bytes| && bytes[k] & 0xFF == 0xC7
    ensures Has(bytes, Ping) <==> exists k :: 0 <= k < |bytes| && bytes[k] & 0xFF == 0xC9
  {
    if bytes != [] {
      var front := Front(bytes);
      KindsAreCodes(Last(bytes));
      HasIsCode(front);
      assert forall k :: 0 <= k < |front| ==> front[k] == bytes[k];
    }
  }

  lemma {:induction false} PhysicalIsLastStatus(bytes: seq<word>, before: word, k: int)
    ensures LastSuch(bytes, IsStatus, k) ==> Physical(bytes, before) == bytes[k] & 0x3F
    ensures NoneSuch(bytes, IsStatus) ==> Physical(bytes, before) == before
  {
    if bytes != [] {
      LastSuchIsNext(bytes, IsStatus, k);
      KindsAreCodes(Last(bytes));
      PhysicalIsLastStatus(Front(bytes), before, k);
    }
  }

  /** The place in the driver's table of the model that answers with code `s`. */
  function ModelOf(s: word): Option<nat> {
    if s == 0xE2 then Some(0) else if s == 0xE4 then Some(1) else if s == 0xE6 then Some(2)
    else if s == 0xE8 then Some(3) else if s == 0xE5 then Some(4) else if s == 0xE7 then Some(5)
    else if s == 0xE9 then Some(6) else if s == 0xEB then Some(7) else None
  }

  lemma {:induction false} ModelIdIsCode(b: word)
    requires IsModel(b & 0xFF)
    ensures b & 0x1F == (b & 0xFF) - 0xE0
  {
  }

  lemma {:induction false} IdentifiesOne(s: word, m: Option<nat>)
    requires IsModel(s) && Identifies(s - 0xE0, m)
    ensures m == ModelOf(s)
  {
    assert MODEL_IDS == [0x2, 0x4, 0x6, 0x8, 0x5, 0x7, 0x9, 0xB];
  }

  lemma {:induction false} DetectsLastModel(bytes: seq<word>, before: Option<nat>, m: Option<nat>, k: int)
    requires Detects(bytes, before, m)
    ensures LastSuch(bytes, IsModel, k) ==> m == ModelOf(bytes[k] & 0xFF)
    ensures NoneSuch(bytes, IsModel) ==> m == before
  {
    if bytes != [] {
      LastSuchIsNext(bytes, IsModel, k);
      KindsAreCodes(Last(bytes));
      if IsModel(Last(bytes) & 0xFF) {
        ModelIdIsCode(Last(bytes));
        IdentifiesOne(Last(bytes) & 0xFF, m);
      } else {
        DetectsLastModel(Front(bytes), before, m, k);
      }
    }
  }

  /** What a call leaves in the status word, bit by bit, and which model it finds, by the codes of the
      bytes received. */
  ghost predicate Says(bytes: seq<word>, ps0: word, ps: word, m0: Option<nat>, m: Option<nat>) {
    // the last of 0x11 and 0x13 tells whether the printer's buffer is full
    && (forall k :: LastSuch(bytes, IsFlow, k) ==> (ps & 0x200 != 0 <==> bytes[k] & 0xFF == 0x13))
    && (NoneSuch(bytes, IsFlow) ==> ps & 0x200 == ps0 & 0x200)
    // the last other byte tells whether the line is garbled
    && (forall k :: LastSuch(bytes, s => !IsFlow(s), k) ==> (ps & 0x100 != 0 <==> IsStrange(bytes[k] & 0xFF)))
    && (NoneSuch(bytes, s => !IsFlow(s)) ==> ps & 0x100 == ps0 & 0x100)
    // 0xC7 and 0xC9 are answers to this call
    && (ps & 0x400 != 0 <==> exists k :: 0 <= k < |bytes| && bytes[k] & 0xFF == 0xC7)
    && (ps & 0x800 != 0 <==> exists k :: 0 <= k < |bytes| && bytes[k] & 0xFF == 0xC9)
    // the last status byte holds the physical bits
    && (forall k :: LastSuch(bytes, IsStatus, k) ==> ps & 0x3F == bytes[k] & 0x3F)
    && (NoneSuch(bytes, IsStatus) ==> ps & 0x3F == ps0 & 0x3F)
    && ps & 0xF0C0 == ps0 & 0xF0C0
    // the last model byte tells the model
    && (forall k :: LastSuch(bytes, IsModel, k) ==> m == ModelOf(bytes[k] & 0xFF))
    && (NoneSuch(bytes, IsModel) ==> m == m0)
  }

  /** The decoding is what the codes of the bytes say. */
  lemma {:induction false} DecodingSays(bytes: seq<word>, ps0: word, ps: word, m0: Option<nat>, m: Option<nat>)
    requires Decodes(bytes, bytes, ViewOf(ps0).(checkpoint := false, ping := false), ViewOf(ps))
    requires Detects(bytes, m0, m)
    ensures Says(bytes, ps0, ps, m0, m)
  {
    forall k: int
      ensures LastSuch(bytes, IsFlow, k) ==> (ps & 0x200 != 0 <==> bytes[k] & 0xFF == 0x13)
      ensures NoneSuch(bytes, IsFlow) ==> ps & 0x200 == ps0 & 0x200
    {
      FullIsLastFlow(bytes, ViewOf(ps0).full, k);
    }
    forall k: int
      ensures LastSuch(bytes, s => !IsFlow(s), k) ==> (ps & 0x100 != 0 <==> IsStrange(bytes[k] & 0xFF))
      ensures NoneSuch(bytes, s => !IsFlow(s)) ==> ps & 0x100 == ps0 & 0x100
    {
      GarbageIsLastOther(bytes, ViewOf(ps0).garbled, k);
    }
    HasIsCode(bytes);
    forall k: int
      ensures LastSuch(bytes, IsStatus, k) ==> ps & 0x3F == bytes[k] & 0x3F
      ensures NoneSuch(bytes, IsStatus) ==> ps & 0x3F == ps0 & 0x3F
    {
      PhysicalIsLastStatus(bytes, ViewOf(ps0).physical, k);
    }
    forall k: int
      ensures LastSuch(bytes, IsModel, k) ==> m == ModelOf(bytes[k] & 0xFF)
      ensures NoneSuch(bytes, IsModel) ==> m == m0
    {
      DetectsLastModel(bytes, m0, m, k);
    }
  }

  // ----- the driver

  class Driver {
    /** The status, and the place in the table of the model last detected. */
    var ps: word
    var model: Option<nat>

    /** Looks a model up, as the original does: the last entry wins. */
    method FindModel(id: word)
      modifies `model
      ensures Identifies(id, model)
    {
      model := None;
      for p: nat := 0 to |MODEL_IDS|
        invariant match model
                  case None => id !in MODEL_IDS[..p]
                  case Some(i) => i < p && MODEL_IDS[i] == id
      {
        if id == MODEL_IDS[p] {
          model := Some(p);
        }
      }
      assert MODEL_IDS[..|MODEL_IDS|] == MODEL_IDS;
    }

    method SetFull(on: bool)
      modifies `ps
      ensures ViewOf(ps) == ViewOf(old(ps)).(full := on)
    {
      if on {
        FullSet(ps);
        ps := ps | BUF_FULL;
      } else {
        FullClear(ps);
        ps := ps & !BUF_FULL;
      }
    }

    method SetGarbled(on: bool)
      modifies `ps
      ensures ViewOf(ps) == ViewOf(old(ps)).(garbled := on)
    {
      if on {
        GarbledSet(ps);
        ps := ps | GARBLED;
      } else {
        GarbledClear(ps);
        ps := ps & !GARBLED;
      }
    }

    method SetCheckpoint()
      modifies `ps
      ensures ViewOf(ps) == ViewOf(old(ps)).(checkpoint := true)
    {
      CheckpointBit(ps);
      ps := ps | CHECKPOINT;
    }

    method SetPing()
      modifies `ps
      ensures ViewOf(ps) == ViewOf(old(ps)).(ping := true)
    {
      PingBit(ps);
      ps := ps | PING_OK;
    }

    method ForgetAnswers()
      modifies `ps
      ensures ViewOf(ps) == ViewOf(old(ps)).(checkpoint := false, ping := false)
    {
      NoAnswerBits(ps);
      ps := ps & !(CHECKPOINT | PING_OK);
    }

    method SetPhysical(sb: word) returns (sb': word)
      requires sb & 0xC0 == 0x40 && sb <= 0xFF
      modifies `ps
      ensures ViewOf(ps) == ViewOf(old(ps)).(physical := sb & PHYSICAL) && sb' & 0x40 == 0
    {
      StatusBits(sb);
      sb' := sb & !0x40;
      PhysicalBits(ps, sb');
      var now := ps & !PHYSICAL;
      if sb' & PHYSICAL != sb' {
        now := now | GARBLED;
      }
      now := now | (sb' & PHYSICAL);
      ps := now;
    }

    /** Takes one byte; `sb` is the last status byte of the chunk. */
    method Take(b: word, sb: word) returns (sb': word)
      modifies this
      ensures ViewOf(ps) == Soften(ViewOf(old(ps)), KindOf(b))
      ensures if KindOf(b).Model? then Identifies(b & 0x1F, model) else model == old(model)
      ensures sb' == if KindOf(b).Status? then b & 0xFF else sb
    {
      sb' := sb;
      var s := b & 0xFF;
      if s == 0x11 {
        SetFull(false);
      } else if s == 0x13 {
        SetFull(true);
      } else if s == 0xC7 {
        SetCheckpoint();
        SetGarbled(false);
      } else if s == 0xC9 {
        SetPing();
        SetGarbled(false);
      } else {
        SetGarbled(false);
        if s & 0xF0 == 0xD0 {
        } else if s & 0xF0 == 0xE0 {
          assert s & !0xE0 == b & 0x1F;
          FindModel(s & !0xE0);
        } else if s & 0xF0 == 0x80 {
        } else if s & 0xC0 == 0x40 {
          sb' := s;
        } else {
          SetGarbled(true);
        }
      }
    }

    /** Puts the physical bits of the last status byte into the status. */
    method Settle(sb: word, ghost bytes: seq<word>, ghost settled: seq<word>, ghost v0: View) returns (sb': word)
      requires Decodes(bytes, settled, v0, ViewOf(ps)) && Pending(bytes, settled, v0.physical, sb)
      modifies `ps
      ensures Decodes(bytes, bytes, v0, ViewOf(ps)) && sb' & 0x40 == 0
    {
      sb' := sb;
      if sb & 0x40 != 0 {
        sb' := SetPhysical(sb);
      }
    }

    /** One read. */
    method TakeAll(buf: seq<word>, sb: word, ghost settled: seq<word>, ghost v0: View, ghost m0: Option<nat>)
      returns (sb': word)
      requires Decodes(settled, settled, v0, ViewOf(ps)) && Detects(settled, m0, model) && sb & 0x40 == 0
      modifies this
      ensures Decodes(settled + buf, settled + buf, v0, ViewOf(ps)) && Detects(settled + buf, m0, model)
      ensures sb' & 0x40 == 0
    {
      sb' := sb;
      ghost var bytes := settled;
      for i: nat := 0 to |buf|
        invariant bytes == settled + buf[..i]
        invariant Decodes(bytes, settled, v0, ViewOf(ps)) && Detects(bytes, m0, model)
        invariant Pending(bytes, settled, v0.physical, sb')
      {
        DecodesOneMore(bytes, buf[i], settled, v0, ViewOf(ps));
        PendingOneMore(bytes, buf[i], settled, v0.physical, sb');
        ghost var m := model;
        sb' := Take(buf[i], sb');
        DetectsOneMore(bytes, buf[i], m0, m, model);
        bytes := bytes + [buf[i]];
      }
      assert bytes == settled + buf;
      sb' := Settle(sb', bytes, settled, v0);
    }

    /** The reads of one call, up to the one that brings nothing. */
    method TakeChunks(chunks: seq<seq<word>>, ghost v0: View, ghost m0: Option<nat>)
      requires ViewOf(ps) == v0 && model == m0
      modifies this
      ensures Decodes(Received(chunks), Received(chunks), v0, ViewOf(ps)) && Detects(Received(chunks), m0, model)
    {
      var sb: word, k: nat := 0, 0;
      NothingReceived(v0, m0);
      while k < |chunks| && chunks[k] != []
        invariant k <= |chunks| && EmptyFrom(chunks, k) == EmptyFrom(chunks, 0)
        invariant Decodes(Joined(chunks, k), Joined(chunks, k), v0, ViewOf(ps)) && sb & 0x40 == 0
        invariant Detects(Joined(chunks, k), m0, model)
      {
        sb := TakeAll(chunks[k], sb, Joined(chunks, k), v0, m0);
        k := k + 1;
      }
    }

    /** Decodes what the printer sent. */
    method Sense(chunks: seq<seq<word>>)
      modifies this
      ensures var v0 := ViewOf(old(ps)).(checkpoint := false, ping := false);
              Decodes(Received(chunks), Received(chunks), v0, ViewOf(ps))
      ensures Detects(Received(chunks), old(model), model)
      ensures Says(Received(chunks), old(ps), ps, old(model), model)
    {
      ForgetAnswers();
      TakeChunks(chunks, ViewOf(ps), model);
      DecodingSays(Received(chunks), old(ps), ps, old(model), model);
    }
  }
}
