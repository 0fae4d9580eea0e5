/** Reading a text line by line into a buffer of limited size. */
module Lines {
  import opened Bytes

  /** How many characters one read takes: up to and with the next newline, as many as fit. */
  function ReadLen(text: seq<byte>, room: nat): (n: nat)
    ensures n <= |text| && n <= room && (text != [] && room > 0 ==> n > 0)
  {
    if text == [] || room == 0 then 0
    else if text[0] == NEWLINE then 1
    else 1 + ReadLen(text[1..], room - 1)
  }

  /** A line ends at its first NUL. */
  function UpToNul(line: seq<byte>): seq<byte> {
    if line == [] || line[0] == NUL then [] else [line[0]] + UpToNul(line[1..])
  }

  lemma {:induction false} UpToNulIs(s: seq<byte>, n: nat)
    requires n < |s| && s[n] == NUL && forall i | 0 <= i < n :: s[i] != NUL
    ensures UpToNul(s) == s[..n]
  {
    if n > 0 {
      UpToNulIs(s[1..], n - 1);
    }
  }

  lemma {:induction false} UpToNulIsAll(s: seq<byte>)
    requires NUL !in s
    ensures UpToNul(s) == s
  {
    if s != [] {
      UpToNulIsAll(s[1..]);
    }
  }

  ghost function FirstNul(s: seq<byte>): (n: nat)
    requires NUL in s
    ensures n < |s| && s[n] == NUL && forall i | 0 <= i < n :: s[i] != NUL
  {
    if s[0] == NUL then 0 else 1 + FirstNul(s[1..])
  }

  /** Reads up to and with the next newline, as much as the buffer holds, and ends it with NUL. */
  method ReadLine(text: seq<byte>, at: nat, buf: array<byte>) returns (n: nat)
    requires at < |text| && buf.Length > 1
    modifies buf
    ensures n == ReadLen(text[at..], buf.Length - 1) && 0 < n && at + n <= |text| && NUL in buf[..]
    ensures n < buf.Length && buf[..n] == text[at..at + n] && buf[n] == NUL
    ensures UpToNul(buf[..]) == UpToNul(text[at..at + n])
  {
    n := 0;
    while n < buf.Length - 1 && at + n < |text| && (n == 0 || text[at + n - 1] != NEWLINE)
      invariant n <= buf.Length - 1 && at + n <= |text|
      invariant forall i | 0 <= i < n :: buf[i] == text[at + i]
      invariant forall i | at <= i < at + n - 1 :: text[i] != NEWLINE
    {
      buf[n] := text[at + n];
      n := n + 1;
    }
    buf[n] := NUL;
    assert buf[..][n] == NUL;
    ReadLenIs(text[at..], buf.Length - 1, n);
    UpToNulOfPrefix(buf[..], text[at..at + n]);
  }

  lemma {:induction false} ReadLenIs(s: seq<byte>, room: nat, n: nat)
    requires n <= |s| && n <= room && forall i | 0 <= i < n - 1 :: s[i] != NEWLINE
    requires n == room || n == |s| || (n > 0 && s[n - 1] == NEWLINE)
    ensures ReadLen(s, room) == n
  {
    if n > 0 && s[0] != NEWLINE {
      ReadLenIs(s[1..], room - 1, n - 1);
    }
  }

  lemma {:induction false} UpToNulOfPrefix(s: seq<byte>, line: seq<byte>)
    requires |line| < |s| && line == s[..|line|] && s[|line|] == NUL
    ensures UpToNul(s) == UpToNul(line)
  {
    if line != [] && line[0] != NUL {
      UpToNulOfPrefix(s[1..], line[1..]);
    }
  }
}
