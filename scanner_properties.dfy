/** What getNovAtelMessage promises, stated over the scan specification ScanFrom:
    every frame it returns is a contiguous piece of the input that passed the
    checksum test, noise is skipped, a first sync byte seen in the wrong place
    re-anchors the hunt, a frame a sender wrote is found, and a rejected
    candidate's bytes are not scanned again. */
module ScannerProperties {
  import opened Bytes
  import opened Crc32
  import opened FrameScanner

  /** The sync bytes the phase claims were just read do precede pos. */
  predicate PhaseHolds(s: seq<byte>, pos: nat, phase: Phase) {
    match phase
    case Hunt => true
    case SawSync1 => 1 <= pos <= |s| && s[pos - 1] == Sync1
    case SawSync2 => 2 <= pos <= |s| && s[pos - 2] == Sync1 && s[pos - 1] == Sync2
  }

  /** How many sync bytes a phase has already matched. */
  function Matched(phase: Phase): nat {
    match phase
    case Hunt => 0
    case SawSync1 => 1
    case SawSync2 => 2
  }

  /** Reading a byte that does not complete the sync bytes keeps the phase
      truthful and matches at most one more sync byte. */
  lemma AdvanceHolds(s: seq<byte>, pos: nat, phase: Phase)
    requires pos < |s| && PhaseHolds(s, pos, phase)
    requires !(phase == SawSync2 && s[pos] == Sync3)
    ensures PhaseHolds(s, pos + 1, Advance(phase, s[pos]))
    ensures Matched(Advance(phase, s[pos])) <= Matched(phase) + 1
  {
  }

  /** When the scan ends with a frame, the frame is the input from its first
      sync byte, at or after `from`, up to its trailer, and it is a valid frame
      for the four bytes that follow it. */
  predicate ReturnsInputFrame(s: seq<byte>, r: Scan, from: int) {
    r.outcome.Frame? ==>
      var m := r.outcome.message;
      var start := r.cursor - 4 - |m|;
      && 0 <= start && from <= start && r.cursor <= |s|
      && m == s[start..r.cursor - 4]
      && ValidFrame(m, s[r.cursor - 4..r.cursor])
  }

  lemma ReturnsInputFrameFrom(s: seq<byte>, r: Scan, from: int, earlier: int)
    requires ReturnsInputFrame(s, r, from) && earlier <= from
    ensures ReturnsInputFrame(s, r, earlier)
  {
  }

  /** The step of ScanFrameIsInput for a byte that does not complete the sync bytes. */
  lemma AdvanceReturnsInputFrame(s: seq<byte>, pos: nat, phase: Phase, headerLength: nat, policy: HeaderPolicy)
    requires headerLength >= 4 && pos < |s| && !(phase == SawSync2 && s[pos] == Sync3)
    requires var after := Advance(phase, s[pos]);
             Matched(after) <= Matched(phase) + 1 &&
             ReturnsInputFrame(s, ScanFrom(s, pos + 1, after, headerLength, policy), pos + 1 - Matched(after))
    ensures ReturnsInputFrame(s, ScanFrom(s, pos, phase, headerLength, policy), pos - Matched(phase))
  {
    var after := Advance(phase, s[pos]);
    assert ScanFrom(s, pos, phase, headerLength, policy) == ScanFrom(s, pos + 1, after, headerLength, policy);
    ReturnsInputFrameFrom(s, ScanFrom(s, pos + 1, after, headerLength, policy), pos + 1 - Matched(after), pos - Matched(phase));
  }

  /** An accepted candidate after AA 44 12, returned as the scan's frame. */
  lemma AcceptedReturnsInputFrame(s: seq<byte>, pos: nat, headerLength: nat)
    requires headerLength >= 4 && PhaseHolds(s, pos, SawSync2) && pos < |s| && s[pos] == Sync3
    requires ReadCandidate(s, pos + 1, headerLength).Accepted?
    ensures var c := ReadCandidate(s, pos + 1, headerLength);
            ReturnsInputFrame(s, Scan(Frame(c.message), c.next), pos - 2)
  {
    AcceptedCandidateIsInput(s, pos + 1, headerLength);
  }

  /** The step of ScanFrameIsInput for the byte 12 after AA 44. */
  lemma CandidateReturnsInputFrame(s: seq<byte>, pos: nat, headerLength: nat, policy: HeaderPolicy)
    requires headerLength >= 4 && PhaseHolds(s, pos, SawSync2) && pos < |s| && s[pos] == Sync3
    requires var c := ReadCandidate(s, pos + 1, headerLength);
             c.Rejected? ==>
               ReturnsInputFrame(s, ScanFrom(s, c.next, Hunt, NextHeaderLength(policy, c.headerLength), policy), c.next)
    ensures ReturnsInputFrame(s, ScanFrom(s, pos, SawSync2, headerLength, policy), pos - 2)
  {
    var r := ScanFrom(s, pos, SawSync2, headerLength, policy);
    match ReadCandidate(s, pos + 1, headerLength)
    case Accepted(m, next) =>
      AcceptedReturnsInputFrame(s, pos, headerLength);
      assert r == Scan(Frame(m), next);
    case Rejected(L, next) =>
      assert r == ScanFrom(s, next, Hunt, NextHeaderLength(policy, L), policy);
      ReturnsInputFrameFrom(s, r, next, pos - 2);
    case Failed(f) =>
      assert r == f;
  }

  /** A returned frame is the input from its first sync byte up to its trailer,
      it starts no earlier than the sync bytes the phase had matched, and it is
      a valid frame for the four bytes that follow it. */
  lemma {:induction false} ScanFrameIsInput(s: seq<byte>, pos: nat, phase: Phase, headerLength: nat, policy: HeaderPolicy)
    requires headerLength >= 4 && pos <= |s| && PhaseHolds(s, pos, phase)
    ensures ReturnsInputFrame(s, ScanFrom(s, pos, phase, headerLength, policy), pos - Matched(phase))
    decreases |s| - pos
  {
    if pos < |s| {
      if phase == SawSync2 && s[pos] == Sync3 {
        var c := ReadCandidate(s, pos + 1, headerLength);
        if c.Rejected? {
          ScanFrameIsInput(s, c.next, Hunt, NextHeaderLength(policy, c.headerLength), policy);
        }
        CandidateReturnsInputFrame(s, pos, headerLength, policy);
      } else {
        AdvanceHolds(s, pos, phase);
        ScanFrameIsInput(s, pos + 1, Advance(phase, s[pos]), headerLength, policy);
        AdvanceReturnsInputFrame(s, pos, phase, headerLength, policy);
      }
    }
  }

  // ---------------------------------------------------------------------------
  // What happens at a candidate the sender laid out in full.

  /** A candidate laid out at `p`: the bytes `c` (sync bytes, header, body)
      followed by a 4-byte trailer `t`. */
  predicate LaidOutAt(s: seq<byte>, p: nat, c: seq<byte>, t: seq<byte>) {
    && |t| == 4 && p + |c| + 4 <= |s|
    && s[p..p + |c|] == c && s[p + |c|..p + |c| + 4] == t
  }

  /** The buffer assembled from a laid-out candidate is the candidate itself. */
  lemma AssembledIsCandidate(s: seq<byte>, p: nat, c: seq<byte>, t: seq<byte>)
    requires LaidOutAt(s, p, c, t) && WellFormed(c)
    ensures Assembled(s, p + 3, p + |c|) == c
  {
    forall i | 3 <= i < |c|
      ensures s[p + i] == c[i]
    {
      assert s[p..p + |c|][i] == c[i];
    }
    assert Assembled(s, p + 3, p + |c|)[3..] == c[3..];
  }

  /** After AA 44 12, a well-formed candidate whose header fits the header
      array is read in full: accepted when its trailer passes the checksum
      test, rejected otherwise, and either way the port is left just after the
      trailer. */
  lemma CandidateAt(s: seq<byte>, p: nat, c: seq<byte>, t: seq<byte>, headerLength: nat)
    requires LaidOutAt(s, p, c, t) && WellFormed(c) && 4 <= headerLength <= c[3]
    ensures ReadCandidate(s, p + 3, headerLength) ==
              if ChecksumMatches(c, t) then Accepted(c, p + |c| + 4)
              else Rejected(c[3], p + |c| + 4)
  {
    var at := p + 3;
    assert s[at] == c[3] && s[at + 5] == c[8] && s[at + 6] == c[9] by {
      assert s[p..p + |c|][3] == c[3];
      assert s[p..p + |c|][8] == c[8];
      assert s[p..p + |c|][9] == c[9];
    }
    CompleteBody(s, at, at + c[3] - 3, p + |c|);
    AssembledIsCandidate(s, p, c, t);
  }

  /** Whatever the phase, reaching the first byte of a laid-out candidate
      re-anchors the hunt on it: the scan accepts the candidate when its
      trailer passes the checksum test, and otherwise resumes after the
      trailer with the header array the rejected candidate left. */
  lemma ScanAtCandidate(s: seq<byte>, p: nat, c: seq<byte>, t: seq<byte>, phase: Phase,
                        headerLength: nat, policy: HeaderPolicy)
    requires LaidOutAt(s, p, c, t) && WellFormed(c) && 4 <= headerLength <= c[3]
    ensures ScanFrom(s, p, phase, headerLength, policy) ==
              if ChecksumMatches(c, t) then Scan(Frame(c), p + |c| + 4)
              else ScanFrom(s, p + |c| + 4, Hunt, NextHeaderLength(policy, c[3]), policy)
  {
    assert s[p] == Sync1 && s[p + 1] == Sync2 && s[p + 2] == Sync3 by {
      assert s[p..p + |c|][0] == c[0];
      assert s[p..p + |c|][1] == c[1];
      assert s[p..p + |c|][2] == c[2];
    }
    assert ScanFrom(s, p, phase, headerLength, policy) == ScanFrom(s, p + 2, SawSync2, headerLength, policy);
    CandidateAt(s, p, c, t, headerLength);
  }

  /** A frame followed by the trailer its sender computed is returned, whatever
      the phase of the hunt when its first byte arrives. */
  lemma SentFrameFound(s: seq<byte>, p: nat, m: seq<byte>, phase: Phase, headerLength: nat, policy: HeaderPolicy)
    requires LaidOutAt(s, p, m, SenderTrailer(m)) && WellFormed(m) && 4 <= headerLength <= m[3]
    ensures ScanFrom(s, p, phase, headerLength, policy) == Scan(Frame(m), p + |m| + 4)
  {
    ChecksumMatchesSenderTrailer(m, SenderTrailer(m));
    ScanAtCandidate(s, p, m, SenderTrailer(m), phase, headerLength, policy);
  }

  // ---------------------------------------------------------------------------
  // Noise.

  /** No AA 44 12 lies wholly inside s[..q], so no candidate starts before q. */
  predicate NoSyncTriple(s: seq<byte>, q: nat)
    requires q <= |s|
  {
    forall i | 0 <= i && i + 2 < q :: !(s[i] == Sync1 && s[i + 1] == Sync2 && s[i + 2] == Sync3)
  }

  /** Bytes without AA 44 12 among them are read one at a time and never start
      a candidate, whatever stray sync bytes they hold: when every phase at `q`
      leads to the same result, so does a truthful phase at `pos`. */
  lemma {:induction false} SkipNoise(s: seq<byte>, pos: nat, q: nat, phase: Phase,
                                     headerLength: nat, policy: HeaderPolicy, target: Scan)
    requires pos <= q <= |s| && NoSyncTriple(s, q) && PhaseHolds(s, pos, phase) && headerLength >= 4
    requires forall ph :: ScanFrom(s, q, ph, headerLength, policy) == target
    ensures ScanFrom(s, pos, phase, headerLength, policy) == target
    decreases q - pos
  {
    if pos < q {
      AdvanceHolds(s, pos, phase);
      SkipNoise(s, pos + 1, q, Advance(phase, s[pos]), headerLength, policy, target);
    }
  }

  /** Noise without AA 44 12 in it, then a frame with the trailer its sender
      computed: the scan returns the frame and leaves the port after its
      trailer, whatever follows. */
  lemma FrameAfterNoise(noise: seq<byte>, m: seq<byte>, rest: seq<byte>, headerLength: nat, policy: HeaderPolicy)
    requires forall i | 0 <= i && i + 2 < |noise| :: !(noise[i] == Sync1 && noise[i + 1] == Sync2 && noise[i + 2] == Sync3)
    requires WellFormed(m) && 4 <= headerLength <= m[3]
    ensures ScanFrom(noise + m + SenderTrailer(m) + rest, 0, Hunt, headerLength, policy)
            == Scan(Frame(m), |noise| + |m| + 4)
  {
    var s := noise + m + SenderTrailer(m) + rest;
    var p := |noise|;
    assert s[p..p + |m|] == m;
    assert s[p + |m|..p + |m| + 4] == SenderTrailer(m);
    forall ph
      ensures ScanFrom(s, p, ph, headerLength, policy) == Scan(Frame(m), p + |m| + 4)
    {
      SentFrameFound(s, p, m, ph, headerLength, policy);
    }
    assert NoSyncTriple(s, p) by {
      forall i | 0 <= i && i + 2 < p
        ensures !(s[i] == Sync1 && s[i + 1] == Sync2 && s[i + 2] == Sync3)
      {
        assert s[i] == noise[i] && s[i + 1] == noise[i + 1] && s[i + 2] == noise[i + 2];
      }
    }
    SkipNoise(s, 0, p, Hunt, headerLength, policy, Scan(Frame(m), p + |m| + 4));
  }

  /** getNovAtelMessage as written returns a sent frame that follows noise
      without AA 44 12 in it. */
  lemma ScanFindsSentFrame(noise: seq<byte>, m: seq<byte>, rest: seq<byte>)
    requires forall i | 0 <= i && i + 2 < |noise| :: !(noise[i] == Sync1 && noise[i + 1] == Sync2 && noise[i + 2] == Sync3)
    requires WellFormed(m)
    ensures ScanAsWritten(noise + m + SenderTrailer(m) + rest, 0) == Scan(Frame(m), |noise| + |m| + 4)
  {
    FrameAfterNoise(noise, m, rest, 4, ReuseHeader);
  }

  /** A first sync byte where the second or third was expected becomes the new
      first sync byte: AA, or AA 44, in front of a sent frame does not hide it. */
  lemma ReanchorOnSync1(m: seq<byte>, rest: seq<byte>)
    requires WellFormed(m)
    ensures ScanAsWritten([Sync1] + m + SenderTrailer(m) + rest, 0) == Scan(Frame(m), 1 + |m| + 4)
    ensures ScanAsWritten([Sync1, Sync2] + m + SenderTrailer(m) + rest, 0) == Scan(Frame(m), 2 + |m| + 4)
  {
    FrameAfterNoise([Sync1], m, rest, 4, ReuseHeader);
    FrameAfterNoise([Sync1, Sync2], m, rest, 4, ReuseHeader);
  }

  /** Stray sync bytes: a lone 12, an AA 12 and an AA 44 00 12 in front of a
      sent frame are skipped. */
  lemma StraySyncBytesSkipped(m: seq<byte>, rest: seq<byte>)
    requires WellFormed(m)
    ensures var noise := [Sync3, Sync1, Sync3, Sync1, Sync2, 0x00, Sync3];
            ScanAsWritten(noise + m + SenderTrailer(m) + rest, 0) == Scan(Frame(m), 7 + |m| + 4)
  {
    ScanFindsSentFrame([Sync3, Sync1, Sync3, Sync1, Sync2, 0x00, Sync3], m, rest);
  }

  // ---------------------------------------------------------------------------
  // Candidates that are not frames.

  /** AA 44 12 followed by a header-length byte L at position p + 3. */
  predicate SyncAndLengthAt(s: seq<byte>, p: nat) {
    p + 4 <= |s| && s[p] == Sync1 && s[p + 1] == Sync2 && s[p + 2] == Sync3
  }

  /** A header length below the header array's length fails to copy, right
      after the length byte is read. */
  lemma ShortLengthFailsCopy(s: seq<byte>, p: nat, phase: Phase, headerLength: nat, policy: HeaderPolicy)
    requires SyncAndLengthAt(s, p) && 4 <= headerLength && s[p + 3] < headerLength
    ensures ScanFrom(s, p, phase, headerLength, policy) == Scan(HeaderCopyFailure, p + 4)
  {
    assert ScanFrom(s, p, phase, headerLength, policy) == ScanFrom(s, p + 2, SawSync2, headerLength, policy);
  }

  /** A header length from the array's length up to 9 is never a frame: once
      the rest of the header is read the body-length read at offset 8 fails,
      and when the header is cut short the call times out. */
  lemma ShortHeaderNeverFrame(s: seq<byte>, p: nat, phase: Phase, headerLength: nat, policy: HeaderPolicy)
    requires SyncAndLengthAt(s, p) && 4 <= headerLength <= s[p + 3] < 10
    ensures ScanFrom(s, p, phase, headerLength, policy) ==
              if p + s[p + 3] <= |s| then Scan(HeaderTooShort, p + s[p + 3]) else Scan(Timeout, |s|)
  {
    assert ScanFrom(s, p, phase, headerLength, policy) == ScanFrom(s, p + 2, SawSync2, headerLength, policy);
  }

  /** A candidate that fails the checksum test is dropped whole: a frame the
      scan returns afterwards starts after the rejected candidate's trailer. */
  lemma RejectedCandidateNotRescanned(s: seq<byte>, p: nat, c: seq<byte>, t: seq<byte>, phase: Phase,
                                      headerLength: nat, policy: HeaderPolicy)
    requires LaidOutAt(s, p, c, t) && WellFormed(c) && 4 <= headerLength <= c[3]
    requires !ChecksumMatches(c, t)
    ensures ReturnsInputFrame(s, ScanFrom(s, p, phase, headerLength, policy), p + |c| + 4)
  {
    ScanAtCandidate(s, p, c, t, phase, headerLength, policy);
    ScanFrameIsInput(s, p + |c| + 4, Hunt, NextHeaderLength(policy, c[3]), policy);
  }

  // ---------------------------------------------------------------------------
  // The header array kept after a rejected candidate.

  /** A trailer that differs from `t` in its first byte. */
  function Corrupted(t: seq<byte>): (u: seq<byte>)
    requires |t| == 4
    ensures |u| == 4 && u != t && u[1..] == t[1..]
  {
    [if t[0] == 0xFF then 0 else t[0] + 1] + t[1..]
  }

  /** A frame whose trailer was corrupted fails the checksum test. */
  lemma CorruptedTrailerRejected(m: seq<byte>)
    ensures !ChecksumMatches(m, Corrupted(SenderTrailer(m)))
  {
    ChecksumMatchesSenderTrailer(m, Corrupted(SenderTrailer(m)));
  }

  /** The input `b t m SenderTrailer(m) rest`: a candidate b with trailer t, then
      the frame m with the trailer its sender computed. */
  function BadThenGood(b: seq<byte>, t: seq<byte>, m: seq<byte>, rest: seq<byte>): seq<byte> {
    b + t + m + SenderTrailer(m) + rest
  }

  lemma BadThenGoodLayout(b: seq<byte>, t: seq<byte>, m: seq<byte>, rest: seq<byte>)
    requires |t| == 4
    ensures var s := BadThenGood(b, t, m, rest);
            LaidOutAt(s, 0, b, t) && LaidOutAt(s, |b| + 4, m, SenderTrailer(m))
  {
    var s := BadThenGood(b, t, m, rest);
    assert s[0..|b|] == b;
    assert s[|b|..|b| + 4] == t;
    assert s[|b| + 4..|b| + 4 + |m|] == m;
    assert s[|b| + 4 + |m|..|b| + 4 + |m| + 4] == SenderTrailer(m);
  }

  /** As written: after a checksum-rejected candidate whose header is longer
      than the next frame's, the valid frame that follows is lost — copying the
      kept header array into the shorter buffer fails. */
  lemma KeptHeaderLosesFrame(b: seq<byte>, t: seq<byte>, m: seq<byte>, rest: seq<byte>)
    requires WellFormed(b) && |t| == 4 && !ChecksumMatches(b, t)
    requires WellFormed(m) && m[3] < b[3]
    ensures ScanAsWritten(BadThenGood(b, t, m, rest), 0) == Scan(HeaderCopyFailure, |b| + 8)
  {
    var s := BadThenGood(b, t, m, rest);
    BadThenGoodLayout(b, t, m, rest);
    ScanAtCandidate(s, 0, b, t, Hunt, 4, ReuseHeader);
    assert s[|b| + 4..|b| + 4 + |m|][3] == m[3];
    ShortLengthFailsCopy(s, |b| + 4, Hunt, b[3], ReuseHeader);
  }

  /** Corrected: with a fresh header array for every candidate, the valid
      frame after a checksum-rejected candidate is returned. */
  lemma FreshHeaderFindsFrame(b: seq<byte>, t: seq<byte>, m: seq<byte>, rest: seq<byte>)
    requires WellFormed(b) && |t| == 4 && !ChecksumMatches(b, t)
    requires WellFormed(m)
    ensures ScanCorrected(BadThenGood(b, t, m, rest), 0) == Scan(Frame(m), |b| + 4 + |m| + 4)
  {
    var s := BadThenGood(b, t, m, rest);
    BadThenGoodLayout(b, t, m, rest);
    ScanAtCandidate(s, 0, b, t, Hunt, 4, FreshHeader);
    SentFrameFound(s, |b| + 4, m, Hunt, 4, FreshHeader);
  }

  /** An 11-byte candidate and a 10-byte frame, both with empty bodies. */
  const LongerCandidate: seq<byte> := [Sync1, Sync2, Sync3, 11, 0, 0, 0, 0, 0, 0, 0]
  const ShorterFrame: seq<byte> := [Sync1, Sync2, Sync3, 10, 0, 0, 0, 0, 0, 0]

  /** A concrete input for the finding: a corrupted 11-byte-header candidate,
      then a sent 10-byte-header frame. As written the call fails; corrected,
      it returns the frame. */
  lemma KeptHeaderExample()
    ensures var s := BadThenGood(LongerCandidate, Corrupted(SenderTrailer(LongerCandidate)), ShorterFrame, []);
            && ScanAsWritten(s, 0) == Scan(HeaderCopyFailure, 19)
            && ScanCorrected(s, 0) == Scan(Frame(ShorterFrame), 29)
  {
    var t := Corrupted(SenderTrailer(LongerCandidate));
    assert WellFormed(LongerCandidate) && WellFormed(ShorterFrame);
    CorruptedTrailerRejected(LongerCandidate);
    KeptHeaderLosesFrame(LongerCandidate, t, ShorterFrame, []);
    FreshHeaderFindsFrame(LongerCandidate, t, ShorterFrame, []);
  }
}
