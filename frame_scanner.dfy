/** The frame scanner: getNovAtelMessage, which hunts the serial stream for the
    sync bytes AA 44 12, reads the header length, the rest of the header, the
    body (whose length is the little-endian u16 at header bytes 8-9) and the
    4-byte checksum trailer, and returns the frame when the checksum matches.

    The serial port is a finite byte sequence with a read cursor. A read asks
    for an exact number of bytes; a read that the remaining input cannot
    satisfy ends the scan with a timeout and leaves the cursor at the end.

    The specification of the scan is ScanFrom, which consumes one sync byte per
    step in one of three phases. The C# loop is GetNovAtelMessage below, proved
    to produce what ScanFrom describes. */
module FrameScanner {
  import opened Bytes
  import opened Crc32

  const Sync1: byte := 0xAA
  const Sync2: byte := 0x44
  const Sync3: byte := 0x12

  /** How a call of getNovAtelMessage ends. */
  datatype Outcome =
    | Frame(message: seq<byte>)   // the returned header-and-body buffer
    | Timeout                     // the input ran out before a frame was accepted
    | HeaderCopyFailure           // header.CopyTo into a shorter buffer throws
    | HeaderTooShort              // BitConverter.ToUInt16(header, 8) throws

  /** An outcome together with the input position the port is left at. */
  datatype Scan = Scan(outcome: Outcome, cursor: nat)

  /** What the `header` array is when the next candidate's length is read. As
      written, the array of a checksum-rejected candidate is kept, so its length
      becomes the bound below which the next header length fails to copy. */
  datatype HeaderPolicy = ReuseHeader | FreshHeader

  /** The length of `header` after a candidate with header length L was rejected. */
  function NextHeaderLength(policy: HeaderPolicy, L: nat): nat {
    match policy
    case ReuseHeader => L
    case FreshHeader => 4
  }

  /** Where the hunt for sync bytes stands: nothing matched, AA seen, AA 44 seen. */
  datatype Phase = Hunt | SawSync1 | SawSync2

  /** What reading one candidate, after its three sync bytes, leads to. */
  datatype Candidate =
    | Accepted(message: seq<byte>, next: nat)
    | Rejected(headerLength: nat, next: nat)
    | Failed(result: Scan)

  /** The test `crc32 == CalculateBlockCRC32(message)`: the trailer, read as a
      little-endian u32, has the value of the message's checksum. */
  predicate ChecksumMatches(m: seq<byte>, trailer: seq<byte>)
    requires |trailer| == 4
  {
    U32(trailer) == BlockCrc(m) as int
  }

  /** The trailer a sender appends: the checksum's four low bytes, low first. */
  function SenderTrailer(m: seq<byte>): (t: seq<byte>)
    ensures |t| == 4
  {
    BlockCrcBound(m);
    U32Bytes(BlockCrc(m) as int)
  }

  /** The checksum test accepts exactly the sender's trailer. */
  lemma ChecksumMatchesSenderTrailer(m: seq<byte>, trailer: seq<byte>)
    requires |trailer| == 4
    ensures ChecksumMatches(m, trailer) <==> trailer == SenderTrailer(m)
  {
    BlockCrcBound(m);
    U32RoundTrip(BlockCrc(m) as int);
    U32BytesRoundTrip(trailer);
  }

  /** A frame the receiver accepts, followed by its trailer: the sync bytes, a
      header of at least 10 bytes, a total length of header length plus body
      length, and a trailer that reads back as the block's checksum. */
  predicate ValidFrame(m: seq<byte>, trailer: seq<byte>) {
    && |m| >= 10 && |trailer| == 4
    && m[0] == Sync1 && m[1] == Sync2 && m[2] == Sync3
    && m[3] >= 10
    && |m| == m[3] + U16(m[8], m[9])
    && ChecksumMatches(m, trailer)
  }

  /** A header-and-body buffer whose lengths are consistent, checksum aside. */
  predicate WellFormed(m: seq<byte>) {
    && |m| >= 10
    && m[0] == Sync1 && m[1] == Sync2 && m[2] == Sync3
    && m[3] >= 10
    && |m| == m[3] + U16(m[8], m[9])
  }

  /** The buffer getNovAtelMessage assembles: the sync bytes, then the header
      length byte and everything after it up to the end of the body. */
  function Assembled(s: seq<byte>, at: nat, end: nat): seq<byte>
    requires at + 7 <= end <= |s|
  {
    [Sync1, Sync2, Sync3] + s[at..end]
  }

  /** The reads after a complete header: the body, whose length is the u16 at
      header bytes 8-9, then the 4-byte trailer, then the checksum test. The
      header-length byte is at index `at` and the header ends at headerEnd. */
  function ReadBodyAndTrailer(s: seq<byte>, at: nat, headerEnd: nat): (c: Candidate)
    requires at + 10 <= headerEnd + 3 <= |s| + 3 && headerEnd == at + s[at] - 3
    ensures c.Accepted? ==> headerEnd + 4 <= c.next == at + |c.message| + 1 <= |s|
    ensures c.Rejected? ==> headerEnd + 4 <= c.next <= |s| && c.headerLength == s[at]
    ensures c.Failed? ==> c.result == Scan(Timeout, |s|)
  {
    var B := U16(s[at + 5], s[at + 6]);
    if headerEnd + B + 4 > |s| then Failed(Scan(Timeout, |s|))
    else
      var m := Assembled(s, at, headerEnd + B);
      var next := headerEnd + B + 4;
      if ChecksumMatches(m, s[headerEnd + B..next]) then Accepted(m, next)
      else Rejected(s[at], next)
  }

  /** The reads after AA 44 12, starting with the header-length byte at index
      `at`, while the header array has length `headerLength`: the length byte,
      the copy into an array of that length, the rest of the header, then the
      body and trailer. */
  function ReadCandidate(s: seq<byte>, at: nat, headerLength: nat): (c: Candidate)
    requires headerLength >= 4
    ensures c.Accepted? ==> at + 4 <= c.next <= |s| && c.next == at + |c.message| + 1
    ensures c.Rejected? ==> at < c.next <= |s| && c.headerLength == s[at]
    ensures c.Rejected? ==> c.headerLength >= headerLength && c.headerLength >= 10
    ensures c.Failed? ==> c.result.cursor <= |s| && (at < |s| ==> at < c.result.cursor)
    ensures c.Failed? ==> !c.result.outcome.Frame?
  {
    if at >= |s| then Failed(Scan(Timeout, |s|))
    else if s[at] < headerLength then Failed(Scan(HeaderCopyFailure, at + 1))
    else ReadRestOfHeader(s, at)
  }

  /** The reads after a header-length byte L that the header array could be
      copied into: the remaining L - 4 header bytes, the u16 body length at
      header offset 8, then body and trailer. */
  function ReadRestOfHeader(s: seq<byte>, at: nat): (c: Candidate)
    requires at < |s| && s[at] >= 4
    ensures c.Accepted? ==> at + 4 <= c.next <= |s| && c.next == at + |c.message| + 1
    ensures c.Rejected? ==> at < c.next <= |s| && c.headerLength == s[at] >= 10
    ensures c.Failed? ==> at < c.result.cursor <= |s| && !c.result.outcome.Frame?
  {
    var L := s[at];
    if at + 1 + (L - 4) > |s| then Failed(Scan(Timeout, |s|))
    else if L < 10 then Failed(Scan(HeaderTooShort, at + L - 3))
    else ReadBodyAndTrailer(s, at, at + L - 3)
  }

  /** An accepted candidate is the sync bytes followed by the input from the
      header-length byte up to its trailer, and it is a valid frame for that
      trailer. */
  lemma AcceptedCandidateValid(s: seq<byte>, at: nat, headerLength: nat)
    requires headerLength >= 4
    requires ReadCandidate(s, at, headerLength).Accepted?
    ensures var c := ReadCandidate(s, at, headerLength);
            && c.message[..3] == [Sync1, Sync2, Sync3]
            && c.message[3..] == s[at..c.next - 4]
            && ValidFrame(c.message, s[c.next - 4..c.next])
  {
  }

  /** When the three bytes before `at` are the sync bytes, an accepted
      candidate is exactly the input from the first sync byte up to its
      trailer. */
  lemma AcceptedCandidateIsInput(s: seq<byte>, at: nat, headerLength: nat)
    requires headerLength >= 4 && 3 <= at <= |s|
    requires s[at - 3] == Sync1 && s[at - 2] == Sync2 && s[at - 1] == Sync3
    requires ReadCandidate(s, at, headerLength).Accepted?
    ensures var c := ReadCandidate(s, at, headerLength);
            && c.next - 4 - |c.message| == at - 3
            && c.message == s[at - 3..c.next - 4]
            && ValidFrame(c.message, s[c.next - 4..c.next])
  {
    var c := ReadCandidate(s, at, headerLength);
    AcceptedCandidateValid(s, at, headerLength);
    var m := c.message;
    forall i | 0 <= i < |m|
      ensures m[i] == s[at - 3 + i]
    {
      if i < 3 {
        assert m[i] == m[..3][i];
      } else {
        assert m[i] == m[3..][i - 3];
      }
    }
  }

  /** ReadBodyAndTrailer when the body and the trailer are both there: the
      checksum test alone decides between acceptance and rejection. */
  lemma CompleteBody(s: seq<byte>, at: nat, headerEnd: nat, bodyEnd: nat)
    requires at + 10 <= headerEnd + 3 <= |s| + 3 && headerEnd == at + s[at] - 3
    requires bodyEnd == headerEnd + U16(s[at + 5], s[at + 6]) && bodyEnd + 4 <= |s|
    ensures var m := Assembled(s, at, bodyEnd);
            ReadBodyAndTrailer(s, at, headerEnd) ==
              if ChecksumMatches(m, s[bodyEnd..bodyEnd + 4]) then Accepted(m, bodyEnd + 4)
              else Rejected(s[at], bodyEnd + 4)
  {
  }

  /** The hunt for AA 44 12 after reading byte b, unless b completes the sync
      bytes: a byte AA where 44 or 12 was expected becomes the new first sync
      byte, any other mismatch restarts the hunt. */
  function Advance(phase: Phase, b: byte): (next: Phase)
    ensures next == SawSync1 <==> b == Sync1
    ensures next == SawSync2 <==> phase == SawSync1 && b == Sync2
  {
    match phase
    case Hunt => if b == Sync1 then SawSync1 else Hunt
    case SawSync1 => if b == Sync2 then SawSync2 else if b == Sync1 then SawSync1 else Hunt
    case SawSync2 => if b == Sync1 then SawSync1 else Hunt
  }

  /** The scan from input position pos in the given phase. */
  function ScanFrom(s: seq<byte>, pos: nat, phase: Phase, headerLength: nat, policy: HeaderPolicy): (r: Scan)
    requires headerLength >= 4
    ensures r.cursor <= |s| && (pos <= |s| ==> pos <= r.cursor)
    decreases |s| - pos
  {
    if pos >= |s| then Scan(Timeout, |s|)
    else if phase == SawSync2 && s[pos] == Sync3 then
      match ReadCandidate(s, pos + 1, headerLength)
      case Accepted(m, next) => Scan(Frame(m), next)
      case Rejected(L, next) => ScanFrom(s, next, Hunt, NextHeaderLength(policy, L), policy)
      case Failed(r) => r
    else ScanFrom(s, pos + 1, Advance(phase, s[pos]), headerLength, policy)
  }

  /** getNovAtelMessage as written: the first header array has length 4 and a
      rejected candidate's header array is kept. */
  function ScanAsWritten(s: seq<byte>, pos: nat): Scan {
    ScanFrom(s, pos, Hunt, 4, ReuseHeader)
  }

  /** getNovAtelMessage with a fresh 4-byte header array for every candidate. */
  function ScanCorrected(s: seq<byte>, pos: nat): Scan {
    ScanFrom(s, pos, Hunt, 4, FreshHeader)
  }

  // ---------------------------------------------------------------------------
  // The serial port and the imperative scanner.

  /** The serial port: the bytes the receiver sends and how many were read. */
  class InputPort {
    const data: seq<byte>
    var pos: nat

    predicate Valid()
      reads this
    {
      pos <= |data|
    }

    constructor (input: seq<byte>)
      ensures Valid() && data == input && pos == 0
    {
      data := input;
      pos := 0;
    }

    /** SerialPort.Read(buf, offset, count), read in full. When fewer than count
        bytes remain the read times out: the port is drained and buf is left as
        it was. */
    method Read(buf: array<byte>, offset: nat, count: nat) returns (ok: bool)
      requires Valid() && offset + count <= buf.Length
      modifies this, buf
      ensures Valid()
      ensures ok <==> old(pos) + count <= |data|
      ensures ok ==> pos == old(pos) + count
      ensures ok ==> forall i :: offset <= i < offset + count ==> buf[i] == data[old(pos) + i - offset]
      ensures forall i :: 0 <= i < buf.Length && !(ok && offset <= i < offset + count) ==> buf[i] == old(buf[i])
      ensures !ok ==> pos == |data|
    {
      if pos + count > |data| {
        pos := |data|;
        return false;
      }
      forall i | offset <= i < offset + count {
        buf[i] := data[pos + i - offset];
      }
      pos := pos + count;
      ok := true;
    }
  }

  /** Array.CopyTo(dst, index) for a source no longer than the room after index. */
  method CopyTo(src: array<byte>, dst: array<byte>, index: nat)
    requires src != dst && index + src.Length <= dst.Length
    modifies dst
    ensures forall i :: index <= i < index + src.Length ==> dst[i] == src[i - index]
    ensures forall i :: 0 <= i < dst.Length && !(index <= i < index + src.Length) ==> dst[i] == old(dst[i])
  {
    forall i | index <= i < index + src.Length {
      dst[i] := src[i - index];
    }
  }

  /** The part of getNovAtelMessage's loop body after the third sync byte: read
      the header length, grow `header` to it and read the rest of the header.
      Returns the header array the loop goes on with. */
  method ReadCandidateFrom(port: InputPort, header: array<byte>) returns (c: Candidate, newHeader: array<byte>)
    requires port.Valid() && header.Length >= 4
    requires header[0] == Sync1 && header[1] == Sync2 && header[2] == Sync3
    modifies port, header
    ensures port.Valid()
    ensures c == ReadCandidate(port.data, old(port.pos), header.Length)
    ensures c.Accepted? || c.Rejected? ==> port.pos == c.next
    ensures c.Failed? ==> port.pos == c.result.cursor
    ensures c.Rejected? ==> fresh(newHeader) && newHeader.Length == c.headerLength
    ensures newHeader == header || fresh(newHeader)
    ensures newHeader.Length >= 4
  {
    ghost var s := port.data;
    ghost var at := port.pos;
    newHeader := header;
    var ok := port.Read(header, 3, 1);
    if !ok {
      return Failed(Scan(Timeout, port.pos)), newHeader;
    }
    var headerLength := header[3];
    assert headerLength == s[at];
    if headerLength < header.Length {
      return Failed(Scan(HeaderCopyFailure, port.pos)), newHeader;
    }
    c, newHeader := GrowHeader(port, header, at);
  }

  /** Grow `header` to the header length it holds at index 3, through the C#
      code's temporary buffer, read the rest of the header and go on with the
      body and trailer. */
  method GrowHeader(port: InputPort, header: array<byte>, ghost at: nat) returns (c: Candidate, newHeader: array<byte>)
    requires port.Valid() && at + 1 == port.pos <= |port.data|
    requires 4 <= header.Length <= header[3] && header[3] == port.data[at]
    requires header[0] == Sync1 && header[1] == Sync2 && header[2] == Sync3
    modifies port
    ensures port.Valid() && fresh(newHeader) && newHeader.Length == port.data[at]
    ensures c == ReadRestOfHeader(port.data, at)
    ensures c.Accepted? || c.Rejected? ==> port.pos == c.next
    ensures c.Failed? ==> port.pos == c.result.cursor
  {
    ghost var s := port.data;
    var headerLength := header[3];
    var tmpBuffer := new byte[headerLength];
    CopyTo(header, tmpBuffer, 0);
    newHeader := new byte[headerLength];
    CopyTo(tmpBuffer, newHeader, 0);
    ghost var copied := newHeader[..4];
    assert copied == [Sync1, Sync2, Sync3, s[at]];
    var ok := port.Read(newHeader, 4, headerLength - 4);
    if !ok {
      return Failed(Scan(Timeout, port.pos)), newHeader;
    }
    assert newHeader[..] == [Sync1, Sync2, Sync3] + s[at..port.pos] by {
      forall i | 0 <= i < headerLength
        ensures newHeader[i] == ([Sync1, Sync2, Sync3] + s[at..port.pos])[i]
      {
        if i < 4 {
          assert newHeader[i] == copied[i];
        } else {
          assert newHeader[i] == s[at + 1 + i - 4];
        }
      }
    }
    if headerLength < 10 {
      return Failed(Scan(HeaderTooShort, port.pos)), newHeader;
    }
    c := ReadBodyAndCheck(port, newHeader, at);
  }

  /** The rest of getNovAtelMessage's loop body: read the body into a buffer
      that starts with the header, read the trailer, compare checksums. */
  method ReadBodyAndCheck(port: InputPort, header: array<byte>, ghost at: nat) returns (c: Candidate)
    requires port.Valid() && header.Length >= 10 && at + header.Length - 3 == port.pos
    requires at < |port.data| && port.data[at] == header.Length
    requires header[..] == [Sync1, Sync2, Sync3] + port.data[at..port.pos]
    modifies port
    ensures port.Valid()
    ensures c == ReadBodyAndTrailer(port.data, at, old(port.pos))
    ensures c.Accepted? || c.Rejected? ==> port.pos == c.next
    ensures c.Failed? ==> port.pos == c.result.cursor
  {
    ghost var s := port.data;
    ghost var headerEnd := port.pos;
    var ok, message := ReadBody(port, header, at);
    if !ok {
      return Failed(Scan(Timeout, port.pos));
    }
    ghost var bodyEnd := port.pos;
    var matches;
    ok, matches := ReadTrailer(port, message);
    if !ok {
      return Failed(Scan(Timeout, port.pos));
    }
    CompleteBody(s, at, headerEnd, bodyEnd);
    if matches {
      c := Accepted(message[..], port.pos);
    } else {
      c := Rejected(header.Length, port.pos);
    }
  }

  /** Copy the header into a buffer of header-plus-body length and read the body
      after it. */
  method ReadBody(port: InputPort, header: array<byte>, ghost at: nat) returns (ok: bool, message: array<byte>)
    requires port.Valid() && header.Length >= 10 && at + header.Length - 3 == port.pos
    requires at < |port.data| && port.data[at] == header.Length
    requires header[..] == [Sync1, Sync2, Sync3] + port.data[at..port.pos]
    modifies port
    ensures port.Valid() && fresh(message)
    ensures ok <==> old(port.pos) + U16(port.data[at + 5], port.data[at + 6]) <= |port.data|
    ensures ok ==> port.pos == old(port.pos) + U16(port.data[at + 5], port.data[at + 6])
    ensures ok ==> message[..] == Assembled(port.data, at, port.pos)
    ensures !ok ==> port.pos == |port.data|
  {
    ghost var s := port.data;
    var headerLength := header.Length;
    assert header[8] == s[at + 5] && header[9] == s[at + 6];
    var messageLength := U16(header[8], header[9]);
    message := new byte[headerLength + messageLength];
    CopyTo(header, message, 0);
    ok := port.Read(message, headerLength, messageLength);
    if ok {
      ghost var m := Assembled(s, at, port.pos);
      forall i | 0 <= i < message.Length
        ensures message[i] == m[i]
      {
        if i >= headerLength {
          assert m[i] == s[at + i - 3];
        } else {
          assert header[i] == header[..][i];
        }
      }
      assert message[..] == m;
    }
  }

  /** Read the 4-byte trailer after the body and compare it with the message's
      checksum. */
  method ReadTrailer(port: InputPort, message: array<byte>) returns (ok: bool, matches: bool)
    requires port.Valid()
    modifies port
    ensures port.Valid()
    ensures ok <==> old(port.pos) + 4 <= |port.data|
    ensures ok ==> port.pos == old(port.pos) + 4
    ensures ok ==> matches == ChecksumMatches(message[..], port.data[old(port.pos)..port.pos])
    ensures !ok ==> port.pos == |port.data|
  {
    var crc := new byte[4];
    ok := port.Read(crc, 0, 4);
    matches := false;
    if ok {
      assert crc[..] == port.data[old(port.pos)..port.pos];
      matches := TrailerMatches(message, crc);
    }
  }

  /** The test `crc32 == CalculateBlockCRC32(message)` with `crc32` the trailer
      read by BitConverter.ToUInt32. */
  method TrailerMatches(message: array<byte>, crc: array<byte>) returns (matches: bool)
    requires crc.Length == 4
    ensures matches == ChecksumMatches(message[..], crc[..])
  {
    var crc32 := U32(crc[..]);
    var computed := CalculateBlockCrc32(message);
    matches := crc32 == computed as int;
  }

  /** The phase the loop of getNovAtelMessage is in at the top of an iteration:
      with `readFirst` set it hunts for a first sync byte; otherwise header[0]
      already holds one. */
  function LoopPhase(readFirst: bool): Phase {
    if readFirst then Hunt else SawSync1
  }

  /** getNovAtelMessage over a finite input, with the C# loop's `readFirst` flag
      and `header` array. With ReuseHeader it is the method as written; with
      FreshHeader a checksum-rejected candidate's header array is replaced by a
      new 4-byte one. */
  method GetNovAtelMessage(port: InputPort, policy: HeaderPolicy) returns (r: Outcome)
    requires port.Valid()
    modifies port
    ensures port.Valid()
    ensures Scan(r, port.pos) == ScanFrom(port.data, old(port.pos), Hunt, 4, policy)
    ensures policy == ReuseHeader ==> Scan(r, port.pos) == ScanAsWritten(port.data, old(port.pos))
    ensures policy == FreshHeader ==> Scan(r, port.pos) == ScanCorrected(port.data, old(port.pos))
  {
    ghost var goal := ScanFrom(port.data, port.pos, Hunt, 4, policy);
    var header := new byte[4](_ => 0);
    var readFirst := true;
    while true
      invariant port.Valid()
      invariant fresh(header) && header.Length >= 4
      invariant !readFirst ==> header[0] == Sync1
      invariant ScanFrom(port.data, port.pos, LoopPhase(readFirst), header.Length, policy) == goal
      decreases |port.data| - port.pos, if readFirst then 1 else 0
    {
      if readFirst {
        var ok := port.Read(header, 0, 1);
        if !ok {
          return Timeout;
        }
      }
      if header[0] == Sync1 {
        var done;
        done, r, header, readFirst := AfterFirstSync(port, header, policy);
        if done {
          return r;
        }
      } else {
        readFirst := true;
      }
    }
  }

  /** One pass of getNovAtelMessage's loop once header[0] holds the first sync
      byte: read the second sync byte and go on. When the pass does not end the
      call (`done` unset), the scan from the new position and phase is the scan
      from the old ones. */
  method AfterFirstSync(port: InputPort, header: array<byte>, policy: HeaderPolicy)
    returns (done: bool, r: Outcome, newHeader: array<byte>, readFirst: bool)
    requires port.Valid() && header.Length >= 4 && header[0] == Sync1
    modifies port, header
    ensures port.Valid() && newHeader.Length >= 4
    ensures newHeader == header || fresh(newHeader)
    ensures done ==> Scan(r, port.pos) == ScanFrom(port.data, old(port.pos), SawSync1, header.Length, policy)
    ensures !done ==> old(port.pos) < port.pos
    ensures !done && !readFirst ==> newHeader[0] == Sync1
    ensures !done ==> ScanFrom(port.data, port.pos, LoopPhase(readFirst), newHeader.Length, policy)
                      == ScanFrom(port.data, old(port.pos), SawSync1, header.Length, policy)
  {
    newHeader, readFirst, r := header, true, Timeout;
    var ok := port.Read(header, 1, 1);
    if !ok {
      return true, Timeout, newHeader, readFirst;
    }
    if header[1] == Sync2 {
      done, r, newHeader, readFirst := AfterSecondSync(port, header, policy);
    } else {
      done, readFirst := false, header[1] != Sync1;
    }
  }

  /** With AA 44 matched, a third byte 12 starts a candidate: the scan ends
      with its frame or its failure, or goes on hunting after a rejected one. */
  lemma ScanAtThirdSync(s: seq<byte>, p: nat, headerLength: nat, policy: HeaderPolicy)
    requires headerLength >= 4 && p < |s| && s[p] == Sync3
    ensures var c := ReadCandidate(s, p + 1, headerLength);
            var scan := ScanFrom(s, p, SawSync2, headerLength, policy);
            && (c.Accepted? ==> scan == Scan(Frame(c.message), c.next))
            && (c.Failed? ==> scan == c.result)
            && (c.Rejected? ==> scan == ScanFrom(s, c.next, Hunt, NextHeaderLength(policy, c.headerLength), policy))
  {
  }

  /** With AA 44 matched, any third byte but 12 goes back to hunting, or to
      AA seen when it is AA. */
  lemma ScanAfterOtherThird(s: seq<byte>, p: nat, headerLength: nat, policy: HeaderPolicy)
    requires headerLength >= 4 && p < |s| && s[p] != Sync3
    ensures ScanFrom(s, p, SawSync2, headerLength, policy)
         == ScanFrom(s, p + 1, LoopPhase(s[p] != Sync1), headerLength, policy)
  {
  }

  /** The rest of the pass once header[0..2] holds AA 44: read the third sync
      byte and, when it is 12, read the candidate. */
  method AfterSecondSync(port: InputPort, header: array<byte>, policy: HeaderPolicy)
    returns (done: bool, r: Outcome, newHeader: array<byte>, readFirst: bool)
    requires port.Valid() && header.Length >= 4 && header[0] == Sync1 && header[1] == Sync2
    modifies port, header
    ensures port.Valid() && newHeader.Length >= 4
    ensures newHeader == header || fresh(newHeader)
    ensures done ==> Scan(r, port.pos) == ScanFrom(port.data, old(port.pos), SawSync2, header.Length, policy)
    ensures !done ==> old(port.pos) < port.pos
    ensures !done && !readFirst ==> newHeader[0] == Sync1
    ensures !done ==> ScanFrom(port.data, port.pos, LoopPhase(readFirst), newHeader.Length, policy)
                      == ScanFrom(port.data, old(port.pos), SawSync2, header.Length, policy)
  {
    newHeader, readFirst, r := header, true, Timeout;
    var ok := port.Read(header, 2, 1);
    if !ok {
      return true, Timeout, newHeader, readFirst;
    }
    if header[2] == Sync3 {
      ScanAtThirdSync(port.data, old(port.pos), header.Length, policy);
      var c;
      c, newHeader := ReadCandidateFrom(port, header);
      match c
      case Accepted(message, _) =>
        done, r := true, Frame(message);
      case Failed(result) =>
        done, r := true, result.outcome;
      case Rejected(L, next) =>
        done := false;
        if policy == FreshHeader {
          newHeader := new byte[4](_ => 0);
        }
        assert newHeader.Length == NextHeaderLength(policy, L) && port.pos == next;
    } else {
      ScanAfterOtherThird(port.data, old(port.pos), header.Length, policy);
      done, readFirst := false, header[2] != Sync1;
    }
  }
}
