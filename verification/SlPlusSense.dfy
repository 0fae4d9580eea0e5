/** How the SLP-1x00 driver takes the status bytes the printer sends. */
module SlPlusSense {

  const ACK: bv8 := 0x80

  /** One of the bytes acknowledges a band. */
  predicate HasAck(bytes: seq<bv8>) {
    bytes != [] && (bytes[|bytes| - 1] & ACK != 0 || HasAck(bytes[..|bytes| - 1]))
  }

  /** The bytes of the first `k` reads. */
  function Joined(chunks: seq<seq<bv8>>, k: nat): seq<bv8>
    requires k <= |chunks|
  {
    if k == 0 then [] else Joined(chunks, k - 1) + chunks[k - 1]
  }

  ghost predicate Live(chunks: seq<seq<bv8>>) {
    forall i | 0 <= i < |chunks| :: chunks[i] != []
  }

  /** The status after one read: its last byte, with the acknowledgement of any byte of it. */
  function AfterRead(read: seq<bv8>): bv8
    requires read != []
  {
    if HasAck(read) then read[|read| - 1] | ACK else read[|read| - 1]
  }

  /** The status after the first `k` reads of one call. */
  function AfterReads(ps: bv8, chunks: seq<seq<bv8>>, k: nat): bv8
    requires k <= |chunks| && Live(chunks)
  {
    if k == 0 then ps & !ACK else AfterRead(chunks[k - 1])
  }

  lemma {:induction false} AckBit(x: bv8)
    ensures (x | ACK) & ACK != 0 && (x | ACK) & !ACK == x & !ACK && (x & !ACK) & ACK == 0
  {
  }

  lemma {:induction false} HasAckJoins(a: seq<bv8>, b: seq<bv8>)
    ensures HasAck(a + b) <==> HasAck(a) || HasAck(b)
  {
    if b == [] {
      assert a + b == a;
    } else {
      assert (a + b)[..|a + b| - 1] == a + b[..|b| - 1];
      HasAckJoins(a, b[..|b| - 1]);
    }
  }

  lemma {:induction false} AckNotMissing(read: seq<bv8>)
    requires read != []
    ensures AfterRead(read) & ACK != 0 <==> HasAck(read)
  {
    AckBit(read[|read| - 1]);
  }

  /** A call that reads nothing keeps the status but for the acknowledgement, which is forgotten. */
  lemma {:induction false} QuietCall(ps: bv8)
    ensures AfterReads(ps, [], 0) == ps & 0x7F
    ensures forall x: bv8 :: AfterRead([x]) == x
  {
    forall x: bv8 ensures AfterRead([x]) == x {
      OneByte(x);
    }
  }

  lemma {:induction false} OneByte(x: bv8)
    ensures AfterRead([x]) == x
  {
    var read: seq<bv8> := [x];
    assert read[..0] == [] && !HasAck([]);
    assert x & ACK != 0 ==> x | ACK == x;
  }

  /** But for the acknowledgement, the status is the last byte, however the bytes were split. */
  lemma {:induction false} StatusIsLastByte(ps: bv8, chunks: seq<seq<bv8>>, k: nat)
    requires 0 < k <= |chunks| && Live(chunks)
    ensures var bytes := Joined(chunks, k);
            bytes != [] && AfterReads(ps, chunks, k) & !ACK == bytes[|bytes| - 1] & !ACK
  {
    var read := chunks[k - 1];
    AckBit(read[|read| - 1]);
    assert Joined(chunks, k)[|Joined(chunks, k)| - 1] == read[|read| - 1];
  }

  /** The acknowledgements of a call are reported faithfully exactly when the last read has one,
      or no read has. */
  lemma {:induction false} AckReportedIff(ps: bv8, chunks: seq<seq<bv8>>, k: nat)
    requires 0 < k <= |chunks| && Live(chunks)
    ensures (AfterReads(ps, chunks, k) & ACK != 0 <==> HasAck(Joined(chunks, k))) <==>
            HasAck(chunks[k - 1]) || !HasAck(Joined(chunks, k - 1))
  {
    AckNotMissing(chunks[k - 1]);
    HasAckJoins(Joined(chunks, k - 1), chunks[k - 1]);
  }

  /** The same bytes, an acknowledgement and then idle, in one read and in two. */
  lemma {:induction false} AckLost(ps: bv8)
    ensures Joined([[0x80, 0x20]], 1) == Joined([[0x80], [0x20]], 2)
    ensures AfterReads(ps, [[0x80, 0x20]], 1) == 0xA0 && AfterReads(ps, [[0x80], [0x20]], 2) == 0x20
  {
    var two: seq<bv8> := [0x80, 0x20];
    assert two[..1] == [0x80] && HasAck([0x80]) && HasAck(two);
    var a: seq<bv8> := [0x20];
    assert a[..0] == [] && !HasAck(a);
    assert Joined([[0x80], [0x20]], 1) == [0x80];
  }

  class Driver {
    var ps: bv8

    /** One read, `n` bytes in the buffer; an acknowledgement is moved to the last byte. */
    method TakeRead(buf: array<bv8>, n: nat)
      requires 0 < n <= buf.Length
      modifies this, buf
      ensures ps == AfterRead(old(buf[..n]))
    {
      ghost var read := buf[..n];
      var i: nat := 0;
      while i < n
        invariant i <= n && buf[..n] == read && !HasAck(read[..i])
      {
        assert read[..i + 1][..i] == read[..i];
        if buf[i] & ACK != 0 {
          AckStays(read, i + 1);
          buf[n - 1] := buf[n - 1] | ACK;
          break;
        }
        i := i + 1;
      }
      assert read[..n] == read;
      ps := buf[n - 1];
    }

    /** Takes what the printer sent, read by read. */
    method Sense(chunks: seq<seq<bv8>>)
      requires Live(chunks)
      modifies this
      ensures ps == AfterReads(old(ps), chunks, |chunks|)
    {
      ps := ps & !ACK;
      for k: nat := 0 to |chunks|
        invariant ps == AfterReads(old(ps), chunks, k)
      {
        var buf := new bv8[|chunks[k]|](i requires 0 <= i < |chunks[k]| => chunks[k][i]);
        assert buf[..|chunks[k]|] == chunks[k];
        TakeRead(buf, |chunks[k]|);
      }
    }
  }

  lemma {:induction false} AckStays(bytes: seq<bv8>, k: nat)
    requires k <= |bytes| && HasAck(bytes[..k])
    ensures HasAck(bytes)
  {
    HasAckJoins(bytes[..k], bytes[k..]);
    assert bytes[..k] + bytes[k..] == bytes;
  }
}
