/** The upload session run by `main` in loader64.c: liveness test, optional fill
    of the CRC region with its re-check, write header, the stream of file chunks,
    boot command and close. `Expected` says what a session sends and how it ends
    for a given ROM and device script; `Upload` is the session itself, built on
    reused byte buffers, and is proved to behave as `Expected` says. */
module Session {
  import opened Bytes
  import opened Planner
  import opened Codec
  import opened Transport

  /** `EXIT_SUCCESS` or `EXIT_FAILURE`. */
  datatype Status = Success | Failure

  /** Everything the link saw, and how the process ended. */
  datatype Outcome = Outcome(log: seq<Event>, status: Status)

  // The chunk stream.

  /** File position after `k` reads of a chunk each from a file of `size` bytes. */
  function ReadEnd(size: nat, k: nat): (p: nat)
    ensures p <= size && p <= k * 0x8000
    ensures p == size || p == k * 0x8000
  {
    Min(k * 0x8000, size)
  }

  /** The chunk buffer after `k` reads: it starts cleared, and each read overwrites
      only as many leading bytes as it delivered. */
  function BufferAfter(data: seq<byte>, k: nat): (b: seq<byte>)
    ensures |b| == 0x8000
  {
    if k == 0 then Zeros(0x8000)
    else Put(BufferAfter(data, k - 1), 0, data[ReadEnd(|data|, k - 1)..ReadEnd(|data|, k)])
  }

  /** The first `k` chunk writes; each sends a whole chunk buffer. */
  function ChunkEvents(data: seq<byte>, k: nat): (es: seq<Event>)
    ensures |es| == k
    ensures forall i :: 0 <= i < k ==> es[i].Sent? && |es[i].bytes| == 0x8000
  {
    if k == 0 then [] else ChunkEvents(data, k - 1) + [Sent(BufferAfter(data, k))]
  }

  /** The `i`-th chunk write sends the buffer as the `i`-th read left it. */
  lemma {:induction false} ChunkEventIsBuffer(data: seq<byte>, k: nat, i: nat)
    requires i < k
    ensures ChunkEvents(data, k)[i] == Sent(BufferAfter(data, i + 1))
  {
    if i < k - 1 {
      ChunkEventIsBuffer(data, k - 1, i);
    }
  }

  /** The bytes the first `k` chunk writes hand to `ftdi_write_data`, one after the other. */
  function Stream(data: seq<byte>, k: nat): (s: seq<byte>)
    ensures |s| == k * 0x8000
  {
    if k == 0 then [] else Stream(data, k - 1) + BufferAfter(data, k)
  }

  lemma ChunkEventsStep(data: seq<byte>, k: nat)
    ensures ChunkEvents(data, k + 1) == ChunkEvents(data, k) + [Sent(BufferAfter(data, k + 1))]
  {
  }

  /** A byte a read delivered is the file's byte at that position. */
  lemma FreshBytes(data: seq<byte>, k: nat, j: nat)
    requires 1 <= k && j < ReadEnd(|data|, k) - ReadEnd(|data|, k - 1)
    ensures (k - 1) * 0x8000 + j < |data|
    ensures BufferAfter(data, k)[j] == data[(k - 1) * 0x8000 + j]
  {
  }

  /** A byte the read did not reach keeps its value from the previous chunk, or 0
      from the initial clear. */
  lemma StaleBytes(data: seq<byte>, k: nat, j: nat)
    requires 1 <= k && ReadEnd(|data|, k) - ReadEnd(|data|, k - 1) <= j < 0x8000
    ensures BufferAfter(data, k)[j] == if k == 1 then 0 else BufferAfter(data, k - 1)[j]
  {
  }

  /** Consecutive read positions: each read advances by at most a chunk, and a read
      that delivers anything starts at the chunk boundary. */
  lemma ReadEndStep(size: nat, k: nat)
    requires 1 <= k
    ensures ReadEnd(size, k - 1) <= ReadEnd(size, k) <= ReadEnd(size, k - 1) + 0x8000
    ensures ReadEnd(size, k - 1) < ReadEnd(size, k) ==> ReadEnd(size, k - 1) == (k - 1) * 0x8000
  {
  }

  /** The stream repeats the file in order, up to where the reads have reached. */
  lemma {:induction false} StreamCarriesFile(data: seq<byte>, k: nat)
    ensures Stream(data, k)[..ReadEnd(|data|, k)] == data[..ReadEnd(|data|, k)]
  {
    if k > 0 {
      var j := k - 1;
      StreamCarriesFile(data, j);
      StreamCarriesNextChunk(data, j);
    }
  }

  /** One more chunk extends the carried prefix of the file by what its read delivered. */
  lemma StreamCarriesNextChunk(data: seq<byte>, j: nat)
    requires Stream(data, j)[..ReadEnd(|data|, j)] == data[..ReadEnd(|data|, j)]
    ensures Stream(data, j + 1)[..ReadEnd(|data|, j + 1)] == data[..ReadEnd(|data|, j + 1)]
  {
    ReadEndStep(|data|, j + 1);
    var p, q := ReadEnd(|data|, j), ReadEnd(|data|, j + 1);
    var prev, b := Stream(data, j), BufferAfter(data, j + 1);
    assert Stream(data, j + 1) == prev + b;
    if q == p {
      PrefixOfAppend(prev, b, q);
    } else {
      PutPrefix(BufferAfter(data, j), data[p..q]);
      ExtendPrefix(prev, b, data, p, q);
    }
  }

  /** Once the padded length has been streamed, the whole file has been sent, in
      order, at the start of the stream. */
  lemma WholeFileSent(data: seq<byte>)
    ensures |data| <= |Stream(data, ChunkCount(PaddedLength(|data|)))|
    ensures Stream(data, ChunkCount(PaddedLength(|data|)))[..|data|] == data
  {
    var n := ChunkCount(PaddedLength(|data|));
    ChunksCoverLength(PaddedLength(|data|));
    assert ReadEnd(|data|, n) == |data|;
    StreamCarriesFile(data, n);
  }

  /** The stream is the chunk writes' bytes laid end to end: the `i`-th write sends
      bytes `i * 0x8000` up to `(i + 1) * 0x8000` of it. */
  lemma {:induction false} StreamIsChunkEvents(data: seq<byte>, k: nat, i: nat)
    requires i < k
    ensures ChunkEvents(data, k)[i].bytes == Stream(data, k)[i * 0x8000..(i + 1) * 0x8000]
  {
    var prev := Stream(data, k - 1);
    assert Stream(data, k) == prev + BufferAfter(data, k);
    if i < k - 1 {
      StreamIsChunkEvents(data, k - 1, i);
      SliceOfAppend(prev, BufferAfter(data, k), i * 0x8000, (i + 1) * 0x8000);
    } else {
      SuffixOfAppend(prev, BufferAfter(data, k));
    }
  }

  // Facts about sequences used above.

  lemma PutPrefix(s: seq<byte>, b: seq<byte>)
    requires |b| <= |s|
    ensures Put(s, 0, b)[..|b|] == b
  {
  }

  lemma PrefixOfAppend<T>(a: seq<T>, b: seq<T>, n: nat)
    requires n <= |a|
    ensures (a + b)[..n] == a[..n]
  {
  }

  lemma SliceOfAppend<T>(a: seq<T>, b: seq<T>, lo: nat, hi: nat)
    requires lo <= hi <= |a|
    ensures (a + b)[lo..hi] == a[lo..hi]
  {
  }

  lemma SuffixOfAppend<T>(a: seq<T>, b: seq<T>)
    ensures (a + b)[|a|..|a| + |b|] == b
  {
  }

  lemma ExtendPrefix<T>(prev: seq<T>, b: seq<T>, d: seq<T>, p: nat, q: nat)
    requires |prev| == p <= q <= |d| && q - p <= |b|
    requires prev[..p] == d[..p] && b[..q - p] == d[p..q]
    ensures (prev + b)[..q] == d[..q]
  {
    assert (prev + b)[..q] == prev + b[..q - p];
    assert d[..q] == d[..p] + d[p..q];
  }

  lemma AppendOne<T>(a: seq<T>, b: seq<T>, x: T)
    ensures a + b + [x] == a + (b + [x])
  {
  }

  lemma AppendJoin<T>(a: seq<T>, b: seq<T>, c: seq<T>)
    ensures a + (b + c) == a + b + c
  {
  }

  lemma AppendAssoc<T>(a: seq<T>, b: seq<T>, c: seq<T>, d: seq<T>)
    ensures a + (b + c + d) == a + b + c + d
  {
  }

  // The reference behaviour.

  /** The first write number from `j` up to `end` that the link rejects; `end` when
      none of them is. */
  function FirstRejected(s: Script, j: nat, end: nat): (r: nat)
    requires j <= end
    ensures j <= r <= end
    ensures forall i :: j <= i < r ==> !Rejected(s, i)
    ensures r < end ==> Rejected(s, r)
    decreases end - j
  {
    if j == end then end
    else if Rejected(s, j) then j
    else FirstRejected(s, j + 1, end)
  }

  /** The first rejection is the one with no rejection before it. */
  lemma {:induction false} FirstRejectedUnique(s: Script, j: nat, end: nat, r: nat)
    requires j <= r <= end
    requires forall i :: j <= i < r ==> !Rejected(s, i)
    requires r < end ==> Rejected(s, r)
    ensures FirstRejected(s, j, end) == r
    decreases r - j
  {
    if j < r {
      FirstRejectedUnique(s, j + 1, end, r);
    }
  }

  /** `o` preceded by the events `head`. */
  function Then(head: seq<Event>, o: Outcome): Outcome
  {
    Outcome(head + o.log, o.status)
  }

  /** Write number of the write header: it follows the test, and the fill command
      and its re-check when those run. */
  function HeaderWrite(data: seq<byte>): (w: nat)
    ensures w == 1 || w == 3
    ensures w == 3 <==> NeedsFill(PaddedLength(|data|))
  {
    if NeedsFill(PaddedLength(|data|)) then 3 else 1
  }

  /** What is sent before the write header: the liveness test, then the fill
      command, the pause and the re-check when the fill is needed. */
  function Preamble(data: seq<byte>): (p: seq<Event>)
    ensures |p| > 0 && p[0] == Sent(TestFrame)
    ensures Sent(FillFrame) in p <==> NeedsFill(PaddedLength(|data|))
  {
    FramesDistinct(0);
    [Sent(TestFrame)] + if NeedsFill(PaddedLength(|data|)) then [Sent(FillFrame), Slept, Sent(FillCheckFrame)] else []
  }

  /** How many writes the events record: each `Sent` is one `ftdi_write_data` call. */
  function Writes(es: seq<Event>): (n: nat)
    ensures n <= |es|
  {
    if es == [] then 0 else Writes(es[..|es| - 1]) + if es[|es| - 1].Sent? then 1 else 0
  }

  /** Write numbers count from 0, so the write header's number is the number of
      writes the preamble makes. */
  lemma HeaderWriteCountsPreamble(data: seq<byte>)
    ensures HeaderWrite(data) == Writes(Preamble(data))
  {
    var t := [Sent(TestFrame)];
    assert Writes(t) == 1 by { assert t[..0] == []; }
    if NeedsFill(PaddedLength(|data|)) {
      var tf, tfs := t + [Sent(FillFrame)], t + [Sent(FillFrame), Slept];
      var p := tfs + [Sent(FillCheckFrame)];
      assert p == Preamble(data);
      assert tf[..1] == t && Writes(tf) == 2;
      assert tfs[..2] == tf && Writes(tfs) == 2;
      assert p[..3] == tfs && Writes(p) == 3;
    }
  }

  /** Whether the liveness test, and the fill re-check when there is one, were
      acknowledged: each reply has at least four bytes, and its byte 3 is `r`. */
  function Acknowledged(data: seq<byte>, s: Script): (b: bool)
    ensures b <==> |Reply(s, 0)| > 3 && Reply(s, 0)[3] == Ack &&
                   (NeedsFill(PaddedLength(|data|)) ==> |Reply(s, 1)| > 3 && Reply(s, 1)[3] == Ack)
  {
    AckByte(Reply(s, 0), FrameSize) == Ack &&
    (NeedsFill(PaddedLength(|data|)) ==> AckByte(Reply(s, 1), ShortFrame) == Ack)
  }

  /** Whether one of the chunk writes is rejected. */
  predicate StreamRejected(data: seq<byte>, s: Script)
  {
    var w, n := HeaderWrite(data) + 1, ChunkCount(PaddedLength(|data|));
    FirstRejected(s, w, w + n) < w + n
  }

  /** How many of `n` chunk writes numbered from `w` are made: up to and including
      the first rejected one, or all of them. */
  function ChunksSent(s: Script, w: nat, n: nat): (m: nat)
    ensures m <= n
    ensures m < n ==> 0 < m && Rejected(s, w + m - 1)
    ensures forall i :: w <= i < w + m - 1 ==> !Rejected(s, i)
  {
    var first := FirstRejected(s, w, w + n);
    if first < w + n then first - w + 1 else n
  }

  /** How many chunk writes the session makes. */
  function ChunksWritten(data: seq<byte>, s: Script): (m: nat)
    ensures 0 < m <= ChunkCount(PaddedLength(|data|)) || (m == 0 && !StreamRejected(data, s))
    ensures !StreamRejected(data, s) ==> m == ChunkCount(PaddedLength(|data|))
  {
    ChunksSent(s, HeaderWrite(data) + 1, ChunkCount(PaddedLength(|data|)))
  }

  /** From the write header on: the chunks until the first rejected one, which ends
      the run with failure; or all of them, the boot command and the close, whose
      result decides the status. */
  function Transfer(data: seq<byte>, s: Script): (r: Outcome)
    ensures Closed in r.log <==> !StreamRejected(data, s)
    ensures Sent(BootFrame) in r.log <==> !StreamRejected(data, s)
    ensures r.status == Failure <==> StreamRejected(data, s) || s.closeResult < 0
  {
    ChunksAreData(data, ChunksWritten(data, s));
    FramesDistinct(PaddedLength(|data|));
    var head := [Sent(WriteFrame(PaddedLength(|data|)))] + ChunkEvents(data, ChunksWritten(data, s));
    if StreamRejected(data, s) then Outcome(head, Failure)
    else Outcome(head + [Sent(BootFrame), Closed], if s.closeResult < 0 then Failure else Success)
  }

  /** What a session with the device described by `s` sends for the ROM `data`,
      and how it ends. */
  function Expected(data: seq<byte>, s: Script): (r: Outcome)
    ensures r.log == [] <==> s.openResult < 0
    ensures r.log <= FullRun(data)
    ensures Closed in r.log <==> r.log == FullRun(data)
    ensures r.status == Success && Closed !in r.log ==> !Acknowledged(data, s)
  {
    PreambleIsCommands(data);
    TransferFollowsFullRun(data, s);
    if s.openResult < 0 then Outcome([], Failure)
    else if AckByte(Reply(s, 0), FrameSize) != Ack then Outcome([Sent(TestFrame)], Success)
    else if !Acknowledged(data, s) then Outcome(Preamble(data), Success)
    else Then(Preamble(data), Transfer(data, s))
  }

  /** Every event of a run that nothing cuts short, in order: the preamble, the write
      header, all chunks, the boot command and the close. */
  function FullRun(data: seq<byte>): seq<Event>
  {
    Preamble(data) + [Sent(WriteFrame(PaddedLength(|data|)))]
      + ChunkEvents(data, ChunkCount(PaddedLength(|data|))) + [Sent(BootFrame), Closed]
  }

  /** Fewer chunk writes are the start of more of them. */
  lemma {:induction false} ChunkEventsPrefix(data: seq<byte>, m: nat, n: nat)
    requires m <= n
    ensures ChunkEvents(data, m) <= ChunkEvents(data, n)
    decreases n
  {
    if m < n {
      ChunkEventsPrefix(data, m, n - 1);
    }
  }

  /** After the preamble the transfer follows the full run, and is all of it when no
      chunk write is rejected. */
  lemma TransferFollowsFullRun(data: seq<byte>, s: Script)
    ensures Preamble(data) <= FullRun(data)
    ensures Preamble(data) + Transfer(data, s).log <= FullRun(data)
    ensures !StreamRejected(data, s) ==> Preamble(data) + Transfer(data, s).log == FullRun(data)
    ensures Closed in FullRun(data)
  {
    var h := Preamble(data) + [Sent(WriteFrame(PaddedLength(|data|)))];
    var all := ChunkEvents(data, ChunkCount(PaddedLength(|data|)));
    var sent := ChunkEvents(data, ChunksWritten(data, s));
    var tail := [Sent(BootFrame), Closed];
    ChunkEventsPrefix(data, ChunksWritten(data, s), ChunkCount(PaddedLength(|data|)));
    PrefixOfLonger(Preamble(data), [], [Sent(WriteFrame(PaddedLength(|data|)))] + all, tail);
    assert FullRun(data) == h + all + tail;
    if StreamRejected(data, s) {
      TransferWhenRejected(Preamble(data), data, s);
      PrefixOfLonger(h, sent, all, tail);
    } else {
      TransferWhenComplete(Preamble(data), data, s);
    }
  }

  lemma PrefixOfLonger<T>(h: seq<T>, a: seq<T>, b: seq<T>, tail: seq<T>)
    requires a <= b
    ensures h + a <= h + b + tail
    ensures tail != [] ==> tail[|tail| - 1] in h + b + tail
  {
    assert (h + b + tail)[..|h| + |a|] == h + a;
    if tail != [] {
      assert (h + b + tail)[|h| + |b| + |tail| - 1] == tail[|tail| - 1];
    }
  }

  // Properties of the reference behaviour.

  /** A device that cannot be opened is sent nothing, and the run fails. */
  lemma OpenFailureSendsNothing(data: seq<byte>, s: Script)
    requires s.openResult < 0
    ensures Expected(data, s) == Outcome([], Failure)
  {
  }

  /** A liveness reply without the acknowledgement ends the run with success status
      after the test frame alone; a reply shorter than four bytes is always such a reply. */
  lemma LivenessNackStops(data: seq<byte>, s: Script)
    requires s.openResult >= 0
    requires AckByte(Reply(s, 0), FrameSize) != Ack || |Reply(s, 0)| < 4
    ensures Expected(data, s) == Outcome([Sent(TestFrame)], Success)
  {
    if |Reply(s, 0)| < 4 {
      ShortReplyIsNoAck(Reply(s, 0), FrameSize);
    }
  }

  /** A fill re-check without the acknowledgement ends the run with success status
      before any write header or data is sent. */
  lemma FillCheckNackStops(data: seq<byte>, s: Script)
    requires s.openResult >= 0 && AckByte(Reply(s, 0), FrameSize) == Ack
    requires NeedsFill(PaddedLength(|data|))
    requires AckByte(Reply(s, 1), ShortFrame) != Ack
    ensures Expected(data, s).status == Success
    ensures Expected(data, s).log == [Sent(TestFrame), Sent(FillFrame), Slept, Sent(FillCheckFrame)]
    ensures Sent(WriteFrame(PaddedLength(|data|))) !in Expected(data, s).log
  {
    ExpectedWhenRefused(data, s);
    FramesDistinct(PaddedLength(|data|));
  }

  /** The fill command is sent exactly when the device passed the liveness test and
      the padded length stops short of the CRC region, that is for ROMs of at most 1 MiB. */
  lemma FillSentIff(data: seq<byte>, s: Script)
    ensures Sent(FillFrame) in Expected(data, s).log
        <==> s.openResult >= 0 && AckByte(Reply(s, 0), FrameSize) == Ack && |data| <= 0x100000
  {
    NeedsFillIff(|data|);
    FramesDistinct(PaddedLength(|data|));
    if s.openResult < 0 {
      OpenFailureSendsNothing(data, s);
    } else if AckByte(Reply(s, 0), FrameSize) != Ack {
      LivenessNackStops(data, s);
    } else if !Acknowledged(data, s) {
      ExpectedWhenRefused(data, s);
    } else {
      ExpectedWhenAcknowledged(data, s);
      FillNotTransferred(data, s);
    }
  }

  /** From the write header on, no fill command is sent. */
  lemma FillNotTransferred(data: seq<byte>, s: Script)
    ensures Sent(FillFrame) !in Transfer(data, s).log
  {
    var w := [Sent(WriteFrame(PaddedLength(|data|)))];
    var chunks := ChunkEvents(data, ChunksWritten(data, s));
    FramesDistinct(PaddedLength(|data|));
    ChunksAreData(data, ChunksWritten(data, s));
    NotInAppend(w, chunks, [Sent(BootFrame), Closed], Sent(FillFrame));
  }

  /** A rejected chunk write ends the run with failure status right after it: no
      further chunk is sent. */
  lemma ChunkRejectionStops(data: seq<byte>, s: Script, k: nat)
    requires s.openResult >= 0 && Acknowledged(data, s)
    requires k < ChunkCount(PaddedLength(|data|))
    requires forall i :: HeaderWrite(data) < i <= HeaderWrite(data) + k ==> !Rejected(s, i)
    requires Rejected(s, HeaderWrite(data) + 1 + k)
    ensures ChunksWritten(data, s) == k + 1
    ensures Expected(data, s).status == Failure
    ensures Expected(data, s).log == Preamble(data) + [Sent(WriteFrame(PaddedLength(|data|)))] + ChunkEvents(data, k + 1)
  {
    StreamOutcome(data, s, k);
    ExpectedWhenAcknowledged(data, s);
    TransferWhenRejected(Preamble(data), data, s);
  }

  /** After a rejected chunk write neither the boot command nor the close is sent. */
  lemma RejectionSkipsBoot(data: seq<byte>, s: Script, k: nat)
    requires s.openResult >= 0 && Acknowledged(data, s)
    requires k < ChunkCount(PaddedLength(|data|))
    requires forall i :: HeaderWrite(data) < i <= HeaderWrite(data) + k ==> !Rejected(s, i)
    requires Rejected(s, HeaderWrite(data) + 1 + k)
    ensures Sent(BootFrame) !in Expected(data, s).log && Closed !in Expected(data, s).log
  {
    StreamOutcome(data, s, k);
    ExpectedWhenAcknowledged(data, s);
    PreambleIsCommands(data);
  }

  /** The preamble holds neither the boot command nor the close. */
  lemma PreambleIsCommands(data: seq<byte>)
    ensures Sent(BootFrame) !in Preamble(data) && Closed !in Preamble(data)
  {
    FramesDistinct(0);
  }

  /** The reference run when the liveness test passed but the fill re-check did not. */
  lemma ExpectedWhenRefused(data: seq<byte>, s: Script)
    requires s.openResult >= 0 && AckByte(Reply(s, 0), FrameSize) == Ack && !Acknowledged(data, s)
    ensures Expected(data, s) == Outcome(Preamble(data), Success)
  {
  }

  /** The reference run when every acknowledgement came: the preamble, then the transfer. */
  lemma ExpectedWhenAcknowledged(data: seq<byte>, s: Script)
    requires s.openResult >= 0 && Acknowledged(data, s)
    ensures Expected(data, s) == Then(Preamble(data), Transfer(data, s))
  {
  }

  /** The transfer after `head` when a chunk write is rejected, as one flat log. */
  lemma TransferWhenRejected(head: seq<Event>, data: seq<byte>, s: Script)
    requires StreamRejected(data, s)
    ensures Then(head, Transfer(data, s))
        == Outcome(head + [Sent(WriteFrame(PaddedLength(|data|)))] + ChunkEvents(data, ChunksWritten(data, s)), Failure)
  {
    AppendJoin(head, [Sent(WriteFrame(PaddedLength(|data|)))], ChunkEvents(data, ChunksWritten(data, s)));
  }

  /** The transfer after `head` when every chunk write is accepted, as one flat log. */
  lemma TransferWhenComplete(head: seq<Event>, data: seq<byte>, s: Script)
    requires !StreamRejected(data, s)
    ensures Then(head, Transfer(data, s))
        == Outcome(head + [Sent(WriteFrame(PaddedLength(|data|)))] + ChunkEvents(data, ChunksWritten(data, s))
                   + [Sent(BootFrame), Closed], if s.closeResult < 0 then Failure else Success)
  {
    AppendAssoc(head, [Sent(WriteFrame(PaddedLength(|data|)))], ChunkEvents(data, ChunksWritten(data, s)), [Sent(BootFrame), Closed]);
  }

  lemma NotInAppend<T>(a: seq<T>, b: seq<T>, c: seq<T>, x: T)
    requires x !in a && x !in b && x !in c
    ensures x !in a + b + c
  {
  }

  /** With every acknowledgement received and no chunk rejected, the run sends, in
      this order: the test, the fill command, pause and re-check when needed, the
      write header, exactly length / 0x8000 full chunks, the boot command, and then
      closes; only a failed close makes the status failure. */
  lemma CompleteRun(data: seq<byte>, s: Script)
    requires s.openResult >= 0 && Acknowledged(data, s)
    requires forall i :: HeaderWrite(data) < i <= HeaderWrite(data) + ChunkCount(PaddedLength(|data|)) ==> !Rejected(s, i)
    ensures Expected(data, s).log
        == Preamble(data) + [Sent(WriteFrame(PaddedLength(|data|)))]
           + ChunkEvents(data, PaddedLength(|data|) / 0x8000) + [Sent(BootFrame), Closed]
    ensures ChunkCount(PaddedLength(|data|)) * 0x8000 == PaddedLength(|data|)
    ensures Expected(data, s).status == if s.closeResult < 0 then Failure else Success
  {
    var length := PaddedLength(|data|);
    StreamOutcome(data, s, ChunkCount(length));
    ChunksCoverLength(length);
    ExpectedWhenAcknowledged(data, s);
    TransferWhenComplete(Preamble(data), data, s);
  }

  /** How the chunk writes end, given the first of them the link rejects: `k` is the
      number accepted before it, or the chunk count when none is rejected. */
  lemma StreamOutcome(data: seq<byte>, s: Script, k: nat)
    requires k <= ChunkCount(PaddedLength(|data|))
    requires forall i :: HeaderWrite(data) < i <= HeaderWrite(data) + k ==> !Rejected(s, i)
    requires k < ChunkCount(PaddedLength(|data|)) ==> Rejected(s, HeaderWrite(data) + 1 + k)
    ensures StreamRejected(data, s) <==> k < ChunkCount(PaddedLength(|data|))
    ensures ChunksWritten(data, s) == if k < ChunkCount(PaddedLength(|data|)) then k + 1 else k
  {
    var w, n := HeaderWrite(data) + 1, ChunkCount(PaddedLength(|data|));
    FirstRejectedUnique(s, w, w + n, w + k);
  }

  /** How the chunk loop ends after `k` accepted writes, by a rejection when `ok` is false. */
  lemma LoopExit(s: Script, w: nat, n: nat, k: nat, ok: bool)
    requires k <= n && (ok ==> k == n) && (!ok ==> k < n && Rejected(s, w + k))
    requires forall i :: w <= i < w + k ==> !Rejected(s, i)
    ensures ok <==> FirstRejected(s, w, w + n) == w + n
    ensures ChunksSent(s, w, n) == if ok then n else k + 1
  {
    FirstRejectedUnique(s, w, w + n, w + k);
  }

  /** The chunk loop's own account of how it ends, with the first write number and
      the chunk count of the session, is the reference one. */
  lemma ChunksMatchTransfer(data: seq<byte>, s: Script)
    ensures var w, n := HeaderWrite(data) + 1, ChunkCount(PaddedLength(|data|));
      && (FirstRejected(s, w, w + n) == w + n <==> !StreamRejected(data, s))
      && ChunksWritten(data, s) == ChunksSent(s, w, n)
  {
  }

  /** Every chunk write carries a full 0x8000-byte buffer, so none of them is a
      command frame or the close. */
  lemma ChunksAreData(data: seq<byte>, k: nat)
    ensures Sent(TestFrame) !in ChunkEvents(data, k) && Sent(FillFrame) !in ChunkEvents(data, k)
    ensures Sent(FillCheckFrame) !in ChunkEvents(data, k)
    ensures forall length: nat :: Sent(WriteFrame(length)) !in ChunkEvents(data, k)
    ensures Sent(BootFrame) !in ChunkEvents(data, k) && Closed !in ChunkEvents(data, k)
  {
    var cs := ChunkEvents(data, k);
    assert |TestFrame| == FrameSize;
    forall i | 0 <= i < k
      ensures cs[i] != Sent(TestFrame) && cs[i] != Sent(FillFrame) && cs[i] != Sent(FillCheckFrame)
      ensures cs[i] != Sent(BootFrame) && cs[i] != Closed
    {
    }
  }

  /** The run fails exactly when the device cannot be opened, or when it acknowledged
      everything and then a chunk write was rejected or the close failed. */
  lemma FailureIff(data: seq<byte>, s: Script)
    ensures Expected(data, s).status == Failure
        <==> s.openResult < 0 ||
             (Acknowledged(data, s) &&
              (StreamRejected(data, s) || s.closeResult < 0))
  {
  }

  /** The write header announces the base address and the padded length in blocks,
      which is the number of chunk bytes sent after it on a complete run. */
  lemma HeaderAnnouncesStream(data: seq<byte>)
    requires |data| <= MaxFileSize
    ensures Decode(WriteFrame(PaddedLength(|data|)))
        == Some(Command(OpWrite, Base, PaddedLength(|data|) / 512))
    ensures (PaddedLength(|data|) / 512) * 512
        == |Stream(data, ChunkCount(PaddedLength(|data|)))|
  {
    PaddedLengthFitsInt(|data|);
    WriteFrameDecodes(PaddedLength(|data|));
    ChunksCoverLength(PaddedLength(|data|));
  }

  // The session itself.

  /** The loop `for (s = 0; s < length; s += 0x8000)`: each pass reads the next chunk
      of the file into the reused buffer and writes the whole buffer; a negative
      write result ends the loop at once. The loop counts chunks `k` = `s / 0x8000`;
      as the length is a multiple of 0x8000, `s < length` holds exactly for `k < n`. */
  method StreamChunks(link: Link, file: RomFile, buffer: array<byte>, length: nat) returns (ok: bool)
    requires buffer.Length == 0x8000 && buffer[..] == Zeros(0x8000)
    requires file.pos == 0 && length % 0x10000 == 0
    modifies link`log, link`writeCount, file`pos, buffer
    ensures ok <==> FirstRejected(link.script, old(link.writeCount), old(link.writeCount) + ChunkCount(length))
                    == old(link.writeCount) + ChunkCount(length)
    ensures link.log == old(link.log) + ChunkEvents(file.data, ChunksSent(link.script, old(link.writeCount), ChunkCount(length)))
    ensures link.writeCount == old(link.writeCount) + ChunksSent(link.script, old(link.writeCount), ChunkCount(length))
  {
    ghost var w := link.writeCount;
    var n := length / 0x8000;
    ok := true;
    var k := 0;
    while k < n
      invariant 0 <= k <= n
      invariant ChunkState(file, buffer, k)
      invariant link.log == old(link.log) + ChunkEvents(file.data, k)
      invariant link.writeCount == w + k
      invariant forall i :: w <= i < w + k ==> !Rejected(link.script, i)
    {
      var ret := SendNextChunk(link, file, buffer, k);
      AppendOne(old(link.log), ChunkEvents(file.data, k), Sent(BufferAfter(file.data, k + 1)));
      ChunkEventsStep(file.data, k);
      if ret < 0 {
        ok := false;
        break;
      }
      k := k + 1;
    }
    LoopExit(link.script, w, n, k, ok);
  }

  /** The file position and the chunk buffer after `k` passes of the chunk loop. */
  ghost predicate ChunkState(file: RomFile, buffer: array<byte>, k: nat)
    reads file, buffer
  {
    file.pos == ReadEnd(|file.data|, k) && buffer[..] == BufferAfter(file.data, k)
  }

  /** One pass of the chunk loop: `fread` of the next chunk into the buffer, then
      `ftdi_write_data` of the whole buffer. */
  method SendNextChunk(link: Link, file: RomFile, buffer: array<byte>, ghost k: nat) returns (ret: int)
    requires buffer.Length == 0x8000
    requires ChunkState(file, buffer, k)
    modifies link`log, link`writeCount, file`pos, buffer
    ensures ChunkState(file, buffer, k + 1)
    ensures link.log == old(link.log) + [Sent(BufferAfter(file.data, k + 1))]
    ensures link.writeCount == old(link.writeCount) + 1
    ensures ret < 0 <==> Rejected(link.script, old(link.writeCount))
  {
    ReadEndStep(|file.data|, k + 1);
    var fret := file.Read(buffer);
    assert buffer[..0x8000] == buffer[..];
    ret := link.Write(buffer, 0x8000);
  }

  /** The liveness test: a cleared `send_buff` tagged `t` is written at full size,
      and the reply is read into a cleared `recv_buff` and checked at byte 3. */
  method LivenessTest(link: Link, sendBuff: array<byte>, recvBuff: array<byte>) returns (ok: bool)
    requires sendBuff.Length == FrameSize && recvBuff.Length == FrameSize && sendBuff != recvBuff
    modifies link`log, link`writeCount, link`readCount, sendBuff, recvBuff
    ensures link.log == old(link.log) + [Sent(TestFrame)]
    ensures link.writeCount == old(link.writeCount) + 1 && link.readCount == old(link.readCount) + 1
    ensures ok <==> AckByte(Reply(link.script, old(link.readCount)), FrameSize) == Ack
  {
    Clear(sendBuff);
    Clear(recvBuff);
    PutHeader(sendBuff, OpTest);
    HeaderOnlyInPlace(OpTest);
    assert sendBuff[..FrameSize] == sendBuff[..] == TestFrame;
    var retS := link.Write(sendBuff, FrameSize);
    var retR := link.Read(recvBuff, FrameSize);
    AckByteInBuffer(Reply(link.script, old(link.readCount)), FrameSize);
    assert recvBuff[3] == recvBuff[..][3];
    ok := recvBuff[3] == Ack;
  }

  /** The fill step: the fill command over the CRC region, the one-second pause,
      then the same buffer re-tagged `t` as a completion check, whose reply is
      read into `recv_buff` and checked at byte 3; both buffers are cleared again
      when the check passes. */
  method FillStep(link: Link, sendBuff: array<byte>, recvBuff: array<byte>) returns (ok: bool)
    requires sendBuff.Length == FrameSize && recvBuff.Length == FrameSize && sendBuff != recvBuff
    requires sendBuff[..] == Zeros(FrameSize) && recvBuff[..] == Zeros(FrameSize)
    modifies link`log, link`writeCount, link`readCount, sendBuff, recvBuff
    ensures link.log == old(link.log) + [Sent(FillFrame), Slept, Sent(FillCheckFrame)]
    ensures link.writeCount == old(link.writeCount) + 2 && link.readCount == old(link.readCount) + 1
    ensures ok <==> AckByte(Reply(link.script, old(link.readCount)), ShortFrame) == Ack
    ensures ok ==> sendBuff[..] == Zeros(FrameSize) && recvBuff[..] == Zeros(FrameSize)
  {
    var fill := Command(OpFill, Base, CrcLen / 512);
    PutHeader(sendBuff, OpFill);
    PutBE32(sendBuff, 4, Base);
    PutBE32(sendBuff, 8, CrcLen / 512);
    BuiltInPlace(fill);
    var retS := link.Write(sendBuff, ShortFrame);
    link.Sleep();
    PutHeader(sendBuff, OpTest);
    RetaggedInPlace(fill, OpTest);
    retS := link.Write(sendBuff, ShortFrame);
    var retR := link.Read(recvBuff, ShortFrame);
    AckByteInBuffer(Reply(link.script, old(link.readCount)), ShortFrame);
    assert recvBuff[3] == recvBuff[..][3];
    ok := recvBuff[3] == Ack;
    if ok {
      Clear(sendBuff);
      Clear(recvBuff);
    }
  }

  /** The write header: both buffers cleared, `send_buff` given the `W` command with
      the base address and `length / 512`, and its first 16 bytes written. */
  method SendWriteHeader(link: Link, sendBuff: array<byte>, recvBuff: array<byte>, length: nat)
    requires sendBuff.Length == FrameSize && recvBuff.Length == FrameSize && sendBuff != recvBuff
    modifies link`log, link`writeCount, sendBuff, recvBuff
    ensures link.log == old(link.log) + [Sent(WriteFrame(length))]
    ensures link.writeCount == old(link.writeCount) + 1
  {
    Clear(sendBuff);
    Clear(recvBuff);
    PutHeader(sendBuff, OpWrite);
    PutBE32(sendBuff, 4, Base);
    PutBE32(sendBuff, 8, length / 512);
    BuiltInPlace(Command(OpWrite, Base, length / 512));
    var retS := link.Write(sendBuff, ShortFrame);
  }

  /** The boot command: both buffers cleared, `send_buff` tagged `s`, and its first
      16 bytes written. */
  method SendBoot(link: Link, sendBuff: array<byte>, recvBuff: array<byte>)
    requires sendBuff.Length == FrameSize && recvBuff.Length == FrameSize && sendBuff != recvBuff
    modifies link`log, link`writeCount, sendBuff, recvBuff
    ensures link.log == old(link.log) + [Sent(BootFrame)]
    ensures link.writeCount == old(link.writeCount) + 1
  {
    Clear(sendBuff);
    Clear(recvBuff);
    PutHeader(sendBuff, OpBoot);
    HeaderOnlyInPlace(OpBoot);
    var retS := link.Write(sendBuff, ShortFrame);
  }

  /** After the last chunk: the boot command, then the close of the device, whose
      result decides the exit status. */
  method BootAndClose(link: Link, sendBuff: array<byte>, recvBuff: array<byte>) returns (status: Status)
    requires sendBuff.Length == FrameSize && recvBuff.Length == FrameSize && sendBuff != recvBuff
    modifies link`log, link`writeCount, sendBuff, recvBuff
    ensures link.log == old(link.log) + [Sent(BootFrame), Closed]
    ensures status == if link.script.closeResult < 0 then Failure else Success
  {
    SendBoot(link, sendBuff, recvBuff);
    var ret := link.Close();
    status := if ret < 0 then Failure else Success;
  }

  /** From the write header on: the header, the chunk loop, then, unless a chunk
      write failed, the boot command and the close of the device. */
  method Transmit(link: Link, file: RomFile, sendBuff: array<byte>, recvBuff: array<byte>,
                  buffer: array<byte>, length: nat) returns (status: Status)
    requires sendBuff.Length == FrameSize && recvBuff.Length == FrameSize && sendBuff != recvBuff
    requires buffer.Length == 0x8000 && buffer[..] == Zeros(0x8000)
    requires buffer != sendBuff && buffer != recvBuff
    requires file.pos == 0 && length == PaddedLength(|file.data|)
    requires link.writeCount == HeaderWrite(file.data)
    modifies link`log, link`writeCount, file`pos, sendBuff, recvBuff, buffer
    ensures Outcome(link.log, status) == Then(old(link.log), Transfer(file.data, link.script))
  {
    ghost var data, script := file.data, link.script;
    SendWriteHeader(link, sendBuff, recvBuff, length);

    var ok := StreamChunks(link, file, buffer, length);
    ChunksMatchTransfer(data, script);
    if !ok {
      TransferWhenRejected(old(link.log), data, script);
      return Failure;
    }

    status := BootAndClose(link, sendBuff, recvBuff);
    TransferWhenComplete(old(link.log), data, script);
  }

  /** `main` from the device open on, with `send_buff` and `recv_buff` shared by
      every command and one chunk buffer reused for every read. */
  method Upload(link: Link, file: RomFile) returns (status: Status)
    requires link.log == [] && link.readCount == 0 && link.writeCount == 0
    requires file.pos == 0 && |file.data| <= MaxFileSize
    modifies link, file
    ensures Outcome(link.log, status) == Expected(file.data, link.script)
  {
    var ret := link.Open();
    if ret < 0 {
      OpenFailureSendsNothing(file.data, link.script);
      return Failure;
    }

    var sendBuff := new byte[FrameSize];
    var recvBuff := new byte[FrameSize];
    var ok := LivenessTest(link, sendBuff, recvBuff);
    if !ok {
      LivenessNackStops(file.data, link.script);
      return Success;
    }
    status := AfterLiveness(link, file, sendBuff, recvBuff);
  }

  /** The rest of `main` once the device answered the liveness test: the buffers
      are cleared, the length padded, the fill step run when needed, then the
      write header, the chunks, the boot command and the close. */
  method AfterLiveness(link: Link, file: RomFile, sendBuff: array<byte>, recvBuff: array<byte>)
    returns (status: Status)
    requires sendBuff.Length == FrameSize && recvBuff.Length == FrameSize && sendBuff != recvBuff
    requires link.script.openResult >= 0 && AckByte(Reply(link.script, 0), FrameSize) == Ack
    requires link.log == [Sent(TestFrame)] && link.writeCount == 1 && link.readCount == 1
    requires file.pos == 0 && |file.data| <= MaxFileSize
    modifies link`log, link`writeCount, link`readCount, file`pos, sendBuff, recvBuff
    ensures Outcome(link.log, status) == Expected(file.data, link.script)
  {
    Clear(sendBuff);
    Clear(recvBuff);
    var length := PadLength(|file.data|);
    var buffer := new byte[0x8000];
    Clear(buffer);

    var ok := FillIfShort(link, sendBuff, recvBuff, length, file.data);
    if !ok {
      ExpectedWhenRefused(file.data, link.script);
      return Success;
    }
    ExpectedWhenAcknowledged(file.data, link.script);
    status := Transmit(link, file, sendBuff, recvBuff, buffer, length);
  }

  /** `if (length < crclen)`: the fill step runs only when the upload stops short of
      the CRC region; either way the preamble has then been sent. */
  method FillIfShort(link: Link, sendBuff: array<byte>, recvBuff: array<byte>, length: nat,
                     ghost data: seq<byte>) returns (ok: bool)
    requires sendBuff.Length == FrameSize && recvBuff.Length == FrameSize && sendBuff != recvBuff
    requires sendBuff[..] == Zeros(FrameSize) && recvBuff[..] == Zeros(FrameSize)
    requires AckByte(Reply(link.script, 0), FrameSize) == Ack
    requires link.log == [Sent(TestFrame)] && link.writeCount == 1 && link.readCount == 1
    requires length == PaddedLength(|data|)
    modifies link`log, link`writeCount, link`readCount, sendBuff, recvBuff
    ensures link.log == Preamble(data) && link.writeCount == HeaderWrite(data)
    ensures ok <==> Acknowledged(data, link.script)
  {
    ok := true;
    if length < CrcLen {
      ok := FillStep(link, sendBuff, recvBuff);
    }
  }

  /** The padding of `main`: the size is rounded up to a multiple of 0x10000 unless
      it already is one. The size is below the limit past which the C `int`
      arithmetic would overflow. */
  method PadLength(fsize: nat) returns (length: nat)
    requires fsize <= MaxFileSize
    ensures length == PaddedLength(fsize) && length < 0x8000_0000
  {
    PaddedLengthFitsInt(fsize);
    length := fsize;
    if (length / 0x10000) * 0x10000 != fsize {
      length := (fsize / 0x10000) * 0x10000 + 0x10000;
    }
  }
}
