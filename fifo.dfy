/**
 * The coordinator's side of the FIFO (read_line_from_fifo and
 * read_pid_from_pipe in LA4/ludo.c) and the atoi conversion its parsers use.
 * What successive one-byte read() calls return is an input sequence of
 * events; a read past the end of that sequence returns end-of-file.
 */
module Fifo {

  /** The result of one read(fd, &c, 1): a byte, end of file, EINTR, or another error. */
  datatype ReadEvent = Byte(c: char) | EndOfFile | Interrupted | Failed

  const Nul: char := '\0'
  const Newline: char := '\n'

  /**
   * A line read: the return value, the bytes stored in the buffer, whether a
   * NUL was written after them, and how many read() results were consumed.
   */
  datatype LineRead = LineRead(ret: int, data: seq<char>, terminated: bool, used: nat)

  /** The bytes among a run of read() results. */
  function Bytes(events: seq<ReadEvent>): seq<char>
  {
    if events == [] then []
    else Bytes(events[..|events| - 1]) + (if events[|events| - 1].Byte? then [events[|events| - 1].c] else [])
  }

  /**
   * The read loop from event k on, with `data` already stored and room for
   * `limit` bytes: it stops when the buffer is full, on a newline, at end of
   * file or on an error; an interrupted read is retried.
   */
  function Scan(input: seq<ReadEvent>, k: nat, limit: int, data: seq<char>): (r: LineRead)
    requires k <= |input|
    ensures k <= r.used <= |input| && data <= r.data
    decreases |input| - k
  {
    if |data| >= limit then LineRead(|data|, data, true, k)
    else if k == |input| then
      LineRead(if |data| > 0 then |data| else -1, data, false, k)
    else
      match input[k]
      case Byte(c) =>
        if c == Newline then LineRead(|data|, data, true, k + 1)
        else Scan(input, k + 1, limit, data + [c])
      case EndOfFile => LineRead(if |data| > 0 then |data| else -1, data, false, k + 1)
      case Interrupted => Scan(input, k + 1, limit, data)
      case Failed => LineRead(-1, data, false, k + 1)
  }

  /** The line read_line_from_fifo reads into a buffer of maxLen bytes. */
  function ReadLineSpec(input: seq<ReadEvent>, maxLen: int): LineRead
  {
    Scan(input, 0, maxLen - 1, [])
  }

  /** The buffer after a line read: the stored bytes, a NUL if one was written, then the old contents. */
  function BufferAfter(old_: seq<char>, r: LineRead): seq<char>
    requires |r.data| + (if r.terminated then 1 else 0) <= |old_|
  {
    r.data + (if r.terminated then [Nul] else []) + old_[|r.data| + (if r.terminated then 1 else 0)..]
  }

  lemma {:induction false} ScanSpec(input: seq<ReadEvent>, k: nat, limit: int, data: seq<char>)
    requires k <= |input| && |data| <= limit
    requires Bytes(input[..k]) == data
    ensures var r := Scan(input, k, limit, data);
            && k <= r.used <= |input|
            && |r.data| <= limit
            && (r.ret == -1 || r.ret == |r.data|)
            && (r.terminated ==> r.ret == |r.data|)
            && (Newline !in data ==> Newline !in r.data)
            && (Bytes(input[..r.used]) == r.data || Bytes(input[..r.used]) == r.data + [Newline])
    decreases |input| - k
  {
    if |data| < limit && k < |input| {
      assert input[..k + 1][..k] == input[..k];
      match input[k]
      case Byte(c) =>
        if c != Newline {
          ScanSpec(input, k + 1, limit, data + [c]);
        }
      case Interrupted =>
        ScanSpec(input, k + 1, limit, data);
      case _ =>
    }
  }

  /**
   * read_line_from_fifo stores at most maxLen - 1 bytes and never the
   * newline; the stored bytes are exactly the bytes read, less the newline
   * that ended the line; it returns their count, or -1 on an error or on end
   * of file before any byte; and the normal path (newline or full buffer)
   * writes a NUL after them, while the end-of-file path with data does not.
   */
  lemma ReadLineFacts(input: seq<ReadEvent>, maxLen: int)
    requires maxLen >= 1
    ensures var r := ReadLineSpec(input, maxLen);
            && r.used <= |input|
            && |r.data| <= maxLen - 1
            && Newline !in r.data
            && (Bytes(input[..r.used]) == r.data || Bytes(input[..r.used]) == r.data + [Newline])
            && (r.ret == -1 || r.ret == |r.data|)
            && (r.terminated ==> r.ret == |r.data|)
            && (!r.terminated && r.data == [] ==> r.ret == -1)
            && (!r.terminated && r.data != [] ==> r.ret == -1 || r.used == |input| || (0 < r.used && input[r.used - 1] == EndOfFile))
            && ((0 < r.used && input[r.used - 1] == Byte(Newline)) || |r.data| == maxLen - 1
                ==> r.terminated && r.ret == |r.data|)
            && (0 < r.used && input[r.used - 1] == EndOfFile
                ==> !r.terminated && r.ret == (if r.data == [] then -1 else |r.data|))
  {
    assert input[..0] == [];
    ScanSpec(input, 0, maxLen - 1, []);
    ScanEnds(input, 0, maxLen - 1, []);
    ScanPaths(input, 0, maxLen - 1, []);
  }

  /**
   * How each way out of the read loop ends: a newline or a full buffer writes
   * the NUL and returns the count stored; end of file returns the count, or
   * -1 when nothing was stored, and writes no NUL.
   */
  lemma {:induction false} ScanPaths(input: seq<ReadEvent>, k: nat, limit: int, data: seq<char>)
    requires k <= |input| && |data| <= limit
    ensures var r := Scan(input, k, limit, data);
            && ((k < r.used <= |input| && input[r.used - 1] == Byte(Newline)) || |r.data| == limit
                ==> r.terminated && r.ret == |r.data|)
            && (k < r.used <= |input| && input[r.used - 1] == EndOfFile
                ==> !r.terminated && r.ret == (if r.data == [] then -1 else |r.data|))
    decreases |input| - k
  {
    if |data| < limit && k < |input| {
      match input[k]
      case Byte(c) =>
        if c != Newline {
          ScanPaths(input, k + 1, limit, data + [c]);
        }
      case Interrupted =>
        ScanPaths(input, k + 1, limit, data);
      case _ =>
    }
  }

  lemma {:induction false} ScanEnds(input: seq<ReadEvent>, k: nat, limit: int, data: seq<char>)
    requires k <= |input|
    ensures var r := Scan(input, k, limit, data);
            && r.used <= |input|
            && |data| <= |r.data|
            && (!r.terminated ==> r.data == [] ==> r.ret == -1)
            && (!r.terminated && r.data != [] ==> r.ret == -1 || r.used == |input| || (0 < r.used && input[r.used - 1] == EndOfFile))
    decreases |input| - k
  {
    if |data| < limit && k < |input| {
      match input[k]
      case Byte(c) =>
        if c != Newline {
          ScanEnds(input, k + 1, limit, data + [c]);
        }
      case Interrupted =>
        ScanEnds(input, k + 1, limit, data);
      case _ =>
    }
  }

  /** Storing x right after the bytes stored so far. */
  lemma StoreNext(buf: seq<char>, data: seq<char>, before: seq<char>, x: char)
    requires |data| < |before| && buf == data + before[|data|..]
    ensures buf[|data| := x] == data + [x] + before[|data| + 1..]
  {
  }

  /** A read that wrote no NUL leaves the buffer as its stored bytes followed by the old contents. */
  lemma LeftAsIs(before: seq<char>, r: LineRead)
    requires !r.terminated && |r.data| <= |before|
    ensures BufferAfter(before, r) == r.data + before[|r.data|..]
  {
  }

  /** Reads one line, byte by byte, into buffer[0..maxLen). */
  method ReadLine(input: seq<ReadEvent>, buffer: array<char>, maxLen: int) returns (ret: int, used: nat)
    requires 1 <= maxLen <= buffer.Length
    modifies buffer
    ensures var r := ReadLineSpec(input, maxLen);
            && |r.data| + (if r.terminated then 1 else 0) <= buffer.Length
            && ret == r.ret && used == r.used
            && buffer[..] == BufferAfter(old(buffer[..]), r)
  {
    ghost var before := buffer[..];
    ghost var data: seq<char> := [];
    var i := 0;
    var k := 0;
    while i < maxLen - 1
      invariant 0 <= i <= maxLen - 1 && 0 <= k <= |input| && |data| == i
      invariant Scan(input, k, maxLen - 1, data) == ReadLineSpec(input, maxLen)
      invariant buffer[..] == data + before[i..]
      decreases |input| - k
    {
      if k == |input| {
        ret := if i > 0 then i else -1;
        LeftAsIs(before, LineRead(ret, data, false, k));
        return ret, k;
      }
      var ev := input[k];
      k := k + 1;
      match ev
      case Byte(c) =>
        if c == Newline {
          break;
        }
        StoreNext(buffer[..], data, before, c);
        buffer[i] := c;
        data := data + [c];
        i := i + 1;
      case EndOfFile =>
        ret := if i > 0 then i else -1;
        assert ReadLineSpec(input, maxLen) == LineRead(ret, data, false, k);
        LeftAsIs(before, LineRead(ret, data, false, k));
        return ret, k;
      case Interrupted =>
      case Failed =>
        assert ReadLineSpec(input, maxLen) == LineRead(-1, data, false, k);
        LeftAsIs(before, LineRead(-1, data, false, k));
        return -1, k;
    }
    assert ReadLineSpec(input, maxLen) == LineRead(i, data, true, k);
    StoreNext(buffer[..], data, before, Nul);
    buffer[i] := Nul;
    ret := i;
    used := k;
  }

  // ---------------------------------------------------------------------
  // atoi

  predicate IsSpace(c: char)
  {
    c == ' ' || '\t' <= c <= '\r'
  }

  predicate IsDigit(c: char)
  {
    '0' <= c <= '9'
  }

  /** atoi's skip of leading white space: a suffix of s, all of whose dropped prefix is white space. */
  function SkipSpace(s: seq<char>): (t: seq<char>)
    ensures |t| <= |s| && s == s[..|s| - |t|] + t
    ensures forall i :: 0 <= i < |s| - |t| ==> IsSpace(s[i])
    ensures t != [] ==> !IsSpace(t[0])
  {
    if s != [] && IsSpace(s[0]) then
      var t := SkipSpace(s[1..]);
      SpaceBeforeSuffix(s, t);
      t
    else s
  }

  /** A white-space character in front of a suffix preceded by white space only extends both. */
  lemma SpaceBeforeSuffix(s: seq<char>, t: seq<char>)
    requires s != [] && IsSpace(s[0]) && |t| < |s|
    requires s[1..] == s[1..][..|s| - 1 - |t|] + t
    requires forall i :: 0 <= i < |s| - 1 - |t| ==> IsSpace(s[1..][i])
    ensures s == s[..|s| - |t|] + t
    ensures forall i :: 0 <= i < |s| - |t| ==> IsSpace(s[i])
  {
    var r := s[1..];
    assert s == [s[0]] + r && s[..|s| - |t|] == [s[0]] + r[..|r| - |t|];
    forall i | 1 <= i < |s| - |t| ensures IsSpace(s[i]) {
      assert s[i] == r[i - 1];
    }
  }

  /** acc followed by the decimal digits at the front of s. */
  function Digits(s: seq<char>, acc: int): int
  {
    if s != [] && IsDigit(s[0]) then Digits(s[1..], 10 * acc + (s[0] as int - '0' as int)) else acc
  }

  /** An optional sign followed by decimal digits. */
  function Signed(t: seq<char>): int
  {
    if t != [] && t[0] == '-' then -Digits(t[1..], 0)
    else if t != [] && t[0] == '+' then Digits(t[1..], 0)
    else Digits(t, 0)
  }

  /** C's atoi: leading white space, an optional sign, then decimal digits up to the first other character. */
  function Atoi(s: seq<char>): int
  {
    Signed(SkipSpace(s))
  }

  lemma {:induction false} DigitsStopAtNul(s: seq<char>, rest: seq<char>, acc: int)
    ensures Digits(s + [Nul] + rest, acc) == Digits(s, acc)
    decreases |s|
  {
    if s != [] {
      assert (s + [Nul] + rest)[1..] == s[1..] + [Nul] + rest;
      DigitsStopAtNul(s[1..], rest, 10 * acc + (s[0] as int - '0' as int));
    }
  }

  lemma {:induction false} SkipSpaceStopsAtNul(s: seq<char>, rest: seq<char>)
    ensures SkipSpace(s + [Nul] + rest) == SkipSpace(s) + [Nul] + rest
    decreases |s|
  {
    var u := s + [Nul] + rest;
    if s == [] {
      assert u == [Nul] + rest && !IsSpace(Nul);
    } else if IsSpace(s[0]) {
      assert u[0] == s[0] && u[1..] == s[1..] + [Nul] + rest;
      SkipSpaceStopsAtNul(s[1..], rest);
      assert SkipSpace(u) == SkipSpace(u[1..]);
    } else {
      assert u[0] == s[0];
    }
  }

  lemma SignedStopsAtNul(t: seq<char>, rest: seq<char>)
    ensures Signed(t + [Nul] + rest) == Signed(t)
  {
    var u := t + [Nul] + rest;
    if t == [] {
      assert u == [] + [Nul] + rest;
      DigitsStopAtNul(t, rest, 0);
    } else if t[0] == '-' || t[0] == '+' {
      assert u[0] == t[0];
      assert u[1..] == t[1..] + [Nul] + rest;
      DigitsStopAtNul(t[1..], rest, 0);
    } else {
      DigitsStopAtNul(t, rest, 0);
    }
  }

  /** atoi reads no further than a NUL: whatever follows it does not change the value. */
  lemma AtoiStopsAtNul(s: seq<char>, rest: seq<char>)
    ensures Atoi(s + [Nul] + rest) == Atoi(s)
  {
    SkipSpaceStopsAtNul(s, rest);
    SignedStopsAtNul(SkipSpace(s), rest);
  }

  // ---------------------------------------------------------------------
  // PID announcements

  const PidPrefix: seq<char> := "PID:"

  /**
   * What read_pid_from_pipe computes once the line is in the buffer: if the
   * read returned a positive count and the buffer starts with "PID:", atoi
   * of the buffer from index 4; otherwise -1.  It looks at the buffer, not
   * at the bytes the read stored.
   */
  function PidAsWritten(ret: int, buffer: seq<char>): (pid: int)
    ensures pid != -1 ==> ret > 0 && |buffer| >= 4 && buffer[..4] == PidPrefix
  {
    if ret > 0 && |buffer| >= 4 && buffer[..4] == PidPrefix then Atoi(buffer[4..]) else -1
  }

  /**
   * The announced identity: the number after "PID:" when the line read
   * starts with "PID:", and -1 for any other line or a failed read.
   */
  function PidOfLine(r: LineRead): (pid: int)
    ensures pid != -1 ==> r.ret > 0 && |r.data| >= 4 && r.data[..4] == PidPrefix
  {
    if r.ret > 0 && |r.data| >= 4 && r.data[..4] == PidPrefix then Atoi(r.data[4..]) else -1
  }

  /** When the read wrote its NUL, the source's parse of the buffer is the parse of the line. */
  lemma PidAgreesWhenTerminated(old_: seq<char>, r: LineRead)
    requires |r.data| + 1 <= |old_| && r.terminated
    ensures PidAsWritten(r.ret, BufferAfter(old_, r)) == PidOfLine(r)
  {
    var buf := BufferAfter(old_, r);
    var rest := old_[|r.data| + 1..];
    assert buf == r.data + [Nul] + rest;
    if |r.data| >= 4 {
      assert buf[..4] == r.data[..4];
      assert buf[4..] == r.data[4..] + [Nul] + rest;
      AtoiStopsAtNul(r.data[4..], rest);
    } else if |buf| >= 4 {
      assert buf[|r.data|] == Nul;
      assert buf[..4][|r.data|] != PidPrefix[|r.data|];
    }
  }

  /**
   * The two bytes "PI" followed by end of file, read into the uninitialised
   * local buffer whose indeterminate stack contents happen to read "PID:7":
   * the source returns 7, although the line read does not start with "PID:".
   */
  lemma UnterminatedPidReadsStaleBytes()
    ensures var input := [Byte('P'), Byte('I'), EndOfFile];
            var stale := "PID:7" + seq(59, _ => Nul);
            var r := ReadLineSpec(input, 64);
            && r == LineRead(2, "PI", false, 3)
            && PidAsWritten(r.ret, BufferAfter(stale, r)) == 7
            && PidOfLine(r) == -1
  {
    var input := [Byte('P'), Byte('I'), EndOfFile];
    var stale := "PID:7" + seq(59, _ => Nul);
    var r := ReadLineSpec(input, 64);
    assert Scan(input, 0, 63, []) == Scan(input, 1, 63, "P");
    assert Scan(input, 1, 63, "P") == Scan(input, 2, 63, "PI");
    assert r == LineRead(2, "PI", false, 3);
    assert stale[..4] == PidPrefix && stale[4] == '7' && stale[5] == Nul;
    StaleBufferParse(stale, r);
  }

  lemma StaleBufferParse(stale: seq<char>, r: LineRead)
    requires |stale| == 64 && stale[..4] == PidPrefix && stale[4] == '7' && stale[5] == Nul
    requires r == LineRead(2, "PI", false, 3)
    ensures PidAsWritten(r.ret, BufferAfter(stale, r)) == 7
  {
    var buf := BufferAfter(stale, r);
    assert buf == stale;
    var t := stale[4..];
    assert t[0] == '7' && t[1..][0] == Nul;
    assert SkipSpace(t) == t;
    assert Digits(t, 0) == Digits(t[1..], 7);
  }

  /**
   * read_pid_from_pipe, corrected: reads one line into its 64-byte buffer
   * and parses only the bytes that read stored, so a line cut short by end
   * of file is judged by what it says; wherever the read wrote its NUL the
   * result is the one the source computes from the whole buffer.
   */
  method ReadPidFromPipe(input: seq<ReadEvent>, buffer: array<char>) returns (pid: int)
    requires buffer.Length == 64
    modifies buffer
    ensures var r := ReadLineSpec(input, 64);
            && |r.data| + (if r.terminated then 1 else 0) <= 64
            && pid == PidOfLine(r)
            && (r.terminated ==> pid == PidAsWritten(r.ret, BufferAfter(old(buffer[..]), r)))
  {
    ghost var before := buffer[..];
    var ret, _ := ReadLine(input, buffer, 64);
    ghost var r := ReadLineSpec(input, 64);
    assert |r.data| <= 63 && (r.ret == -1 || r.ret == |r.data|) && (r.terminated ==> r.ret == |r.data|) by {
      ReadLineFacts(input, 64);
    }
    if ret >= 4 && buffer[..4] == PidPrefix {
      assert ret == |r.data| && buffer[..ret] == r.data;
      assert buffer[4..ret] == r.data[4..];
      pid := Atoi(buffer[4..ret]);
    } else {
      pid := -1;
      if r.ret > 0 && |r.data| >= 4 {
        assert r.ret == |r.data| && buffer[..4] == r.data[..4];
      }
    }
    if r.terminated {
      PidAgreesWhenTerminated(before, r);
    }
  }
}
