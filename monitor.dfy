/** The event loop of `main`: each `read` of the fanotify descriptor fills a
    buffer with event records laid end to end; the loop walks them by their
    `event_len`, and for each record writes its report line to standard
    output; when the record's path cannot be read, the fields up to `file: `
    are already on standard output and the error is logged on standard
    error. The record's descriptor is closed either way. The loop ends when a
    read returns 0. */
module Monitor {
  import opened Common
  import opened FanMask
  import opened Proc

  /** The fields of `struct fanotify_event_metadata` the loop uses. */
  datatype Metadata = Metadata(eventLen: nat, mask: bv64, fd: Int32, pid: Int32)

  /** `sizeof buf` in the loop of `main`. */
  const BufferSize: int := 8192

  /** One `read(fd, buf, sizeof buf)` on the fanotify descriptor: the count it
      returns (-1 on failure), the record header found at each byte offset,
      and the process filesystem as the records of this buffer see it. */
  datatype NotifyRead = NotifyRead(received: int, at: map<nat, Metadata>, procfs: Procfs)

  // ---------------------------------------------------------------------
  // Framing: `for (p = buf; p < buf + received; p += data->event_len)`.
  // ---------------------------------------------------------------------

  /** The walk from offset `p` only meets records with a positive length that
      end inside the received bytes (the kernel's promise; fm.cc does not
      check it). */
  predicate FramedFrom(at: map<nat, Metadata>, received: int, p: nat)
    decreases if p < received then received - p else 0
  {
    p < received ==>
      && p in at && at[p].eventLen > 0 && p + at[p].eventLen <= received
      && FramedFrom(at, received, p + at[p].eventLen)
  }

  predicate Framed(rd: NotifyRead)
  {
    -1 <= rd.received <= BufferSize && FramedFrom(rd.at, rd.received, 0)
  }

  /** The records the walk visits from offset `p`, in order. */
  function FrameFrom(at: map<nat, Metadata>, received: int, p: nat): seq<Metadata>
    requires FramedFrom(at, received, p)
    decreases if p < received then received - p else 0
  {
    if p < received then [at[p]] + FrameFrom(at, received, p + at[p].eventLen) else []
  }

  function Frame(rd: NotifyRead): seq<Metadata>
    requires Framed(rd)
  {
    FrameFrom(rd.at, rd.received, 0)
  }

  /** The bytes the records occupy. */
  function TotalLen(recs: seq<Metadata>): int
  {
    if recs == [] then 0 else recs[0].eventLen + TotalLen(recs[1..])
  }

  lemma TotalLenFirst(recs: seq<Metadata>, k: nat)
    requires 0 < k <= |recs|
    ensures TotalLen(recs[..k]) == recs[0].eventLen + TotalLen(recs[1..][..k - 1])
  {
    assert recs[..k][1..] == recs[1..][..k - 1];
  }

  /** The record at position `k` of `recs` starts `TotalLen(recs[..k])` bytes
      after `p`: the records lie end to end. */
  predicate LaidOut(at: map<nat, Metadata>, recs: seq<Metadata>, p: nat)
  {
    forall k :: 0 <= k < |recs| ==> p + TotalLen(recs[..k]) in at && at[p + TotalLen(recs[..k])] == recs[k]
  }

  lemma FrameStep(at: map<nat, Metadata>, received: int, p: nat)
    requires FramedFrom(at, received, p) && p < received
    ensures p in at && at[p].eventLen > 0 && FramedFrom(at, received, p + at[p].eventLen)
    ensures FrameFrom(at, received, p) == [at[p]] + FrameFrom(at, received, p + at[p].eventLen)
  {
  }

  /** The walk stops exactly at `received`, or at once when nothing was
      received. */
  lemma {:induction false} FrameTotal(at: map<nat, Metadata>, received: int, p: nat)
    requires FramedFrom(at, received, p)
    ensures var recs := FrameFrom(at, received, p);
      (p < received ==> p + TotalLen(recs) == received) && (p >= received ==> recs == [])
    decreases if p < received then received - p else 0
  {
    if p < received {
      FrameStep(at, received, p);
      var q := p + at[p].eventLen;
      FrameTotal(at, received, q);
      var rest := FrameFrom(at, received, q);
      assert ([at[p]] + rest)[1..] == rest;
    }
  }

  /** The walk visits records at the running sums of the lengths before
      them: the `k`-th record visited is the header found `TotalLen` of the
      first `k` records past the start, it lies below `received`, and its
      length is positive. */
  lemma {:induction false} FrameOffsets(at: map<nat, Metadata>, received: int, p: nat)
    requires FramedFrom(at, received, p)
    ensures var recs := FrameFrom(at, received, p);
      forall k :: 0 <= k < |recs| ==>
        && p + TotalLen(recs[..k]) in at && at[p + TotalLen(recs[..k])] == recs[k]
        && p + TotalLen(recs[..k]) < received && recs[k].eventLen > 0
    decreases if p < received then received - p else 0
  {
    if p < received {
      FrameStep(at, received, p);
      var md := at[p];
      var q := p + md.eventLen;
      FrameOffsets(at, received, q);
      var rest := FrameFrom(at, received, q);
      var recs := FrameFrom(at, received, p);
      forall k | 0 <= k < |recs|
        ensures p + TotalLen(recs[..k]) in at && at[p + TotalLen(recs[..k])] == recs[k]
        ensures p + TotalLen(recs[..k]) < received && recs[k].eventLen > 0
      {
        if k > 0 {
          assert k - 1 < |rest|;
        }
        RunningSumStep(at, received, p, recs, rest, k);
      }
    }
  }

  lemma RunningSumStep(at: map<nat, Metadata>, received: int, p: nat, recs: seq<Metadata>, rest: seq<Metadata>, k: nat)
    requires p < received && p in at && at[p].eventLen > 0 && recs == [at[p]] + rest && k < |recs|
    requires k > 0 ==>
      var o := p + at[p].eventLen + TotalLen(rest[..k - 1]);
      o in at && at[o] == rest[k - 1] && o < received && rest[k - 1].eventLen > 0
    ensures p + TotalLen(recs[..k]) in at && at[p + TotalLen(recs[..k])] == recs[k]
    ensures p + TotalLen(recs[..k]) < received && recs[k].eventLen > 0
  {
    if k == 0 {
      assert recs[..0] == [];
    } else {
      TotalLenFirst(recs, k);
      assert recs[1..] == rest;
      assert recs[k] == rest[k - 1];
    }
  }

  /** Records of positive length laid end to end from `p` and filling the
      received bytes are exactly what the walk visits. */
  lemma {:induction false} BackToBackRecords(at: map<nat, Metadata>, recs: seq<Metadata>, p: nat, received: int)
    requires LaidOut(at, recs, p)
    requires forall k :: 0 <= k < |recs| ==> recs[k].eventLen > 0
    requires received == p + TotalLen(recs)
    ensures FramedFrom(at, received, p) && FrameFrom(at, received, p) == recs
    decreases |recs|
  {
    if recs != [] {
      var md := recs[0];
      var rest := recs[1..];
      var q := p + md.eventLen;
      assert recs[..0] == [];
      assert at[p] == md;
      assert LaidOut(at, rest, q) by {
        forall k | 0 <= k < |rest|
          ensures q + TotalLen(rest[..k]) in at && at[q + TotalLen(rest[..k])] == rest[k]
        {
          TotalLenFirst(recs, k + 1);
          assert recs[k + 1] == rest[k];
        }
      }
      BackToBackRecords(at, rest, q, received);
      TotalLenNonNegative(rest);
    }
  }

  lemma {:induction false} TotalLenNonNegative(recs: seq<Metadata>)
    ensures TotalLen(recs) >= 0
  {
    if recs != [] {
      TotalLenNonNegative(recs[1..]);
    }
  }

  /** A failed read (`received == -1`) puts the end of the buffer before its
      start, so no record is visited. */
  lemma FailedReadFramesNothing(rd: NotifyRead)
    requires rd.received <= 0
    ensures Framed(rd) <==> -1 <= rd.received
    ensures Framed(rd) ==> Frame(rd) == []
  {
  }

  // ---------------------------------------------------------------------
  // What one record writes.
  // ---------------------------------------------------------------------

  /** Text written to standard output and to standard error (`std::clog`). */
  datatype Streams = Streams(out: string, err: string)

  const Silent := Streams("", "")

  /** `a` written, then `b`. */
  function Then(a: Streams, b: Streams): Streams
  {
    Streams(a.out + b.out, a.err + b.err)
  }

  /** The report line fields written before `filePath` is called. */
  function ReportPrefix(md: Metadata): string
  {
    "mask: " + FanMaskText(md.mask) + ", fd: " + Decimal(md.fd) + ", pid: " + Decimal(md.pid) + ", file: "
  }

  /** The whole report line for a record. */
  function ReportLine(md: Metadata, path: string, command: string): string
  {
    ReportPrefix(md) + path + ", command: " + command + "\n"
  }

  /** The evidently intended output of one record: the report composed in
      full before it is written. The file's path is the record's descriptor as
      the monitor's own process sees it, the command line that of the process
      that caused the event; if `filePath` throws, only the error on standard
      error. */
  function RecordOutput(fs: Procfs, self: Int32, md: Metadata, strerror: int -> string): Streams
  {
    match FilePath(fs, self, md.fd)
    case Err(e) => Streams("", strerror(e) + "\n")
    case Ok(path) => Streams(ReportLine(md, path, CommandLine(fs, md.pid, strerror)), "")
  }

  /** What the body of the `try` and its `catch` write for one record, in
      fm.cc's order: since C++17 each `<<` operand is evaluated after
      everything to its left has been written, so when `filePath` throws the
      fields before it are already on standard output. */
  function RecordOutputAsWritten(fs: Procfs, self: Int32, md: Metadata, strerror: int -> string): Streams
  {
    match FilePath(fs, self, md.fd)
    case Err(e) => Streams(ReportPrefix(md), strerror(e) + "\n")
    case Ok(path) => Streams(ReportLine(md, path, CommandLine(fs, md.pid, strerror)), "")
  }

  /** Each record writes, in fm.cc's order, the whole report line (mask, fd,
      pid, the link target cut to `PATH_MAX - 1` bytes and the command line)
      on standard output; or, when `readlink` fails, the fields up to
      `file: ` on standard output and the message for its errno on standard
      error. */
  lemma RecordOutputCases(fs: Procfs, self: Int32, md: Metadata, strerror: int -> string)
    ensures var s := RecordOutputAsWritten(fs, self, md, strerror);
      var fields := "mask: " + FanMaskText(md.mask) + ", fd: " + Decimal(md.fd) + ", pid: " + Decimal(md.pid) + ", file: ";
      var command := CommandLine(fs, md.pid, strerror);
      match fs.readlink("/proc/" + Decimal(self) + "/fd/" + Decimal(md.fd))
      case LinkFailed(e) => s.out == fields && s.err == strerror(e) + "\n"
      case Link(target) =>
        && s.err == ""
        && s.out == fields + CString(Truncate(target, PathMax - 1)) + ", command: " + command + "\n"
        && ('\0' !in target ==> s.out == fields + Truncate(target, PathMax - 1) + ", command: " + command + "\n")
  {
    FilePathMeaning(fs, self, md.fd);
    ProcPathsExact(self, md.fd);
    var fields := "mask: " + FanMaskText(md.mask) + ", fd: " + Decimal(md.fd) + ", pid: " + Decimal(md.pid) + ", file: ";
    assert ReportPrefix(md) == fields;
  }

  /** As written, a record whose path cannot be read leaves an unterminated
      `mask: ..., file: ` on standard output, so the next report continues
      that line; the corrected output writes nothing there. */
  lemma AsWrittenLeavesPartialLine(fs: Procfs, self: Int32, md1: Metadata, md2: Metadata, strerror: int -> string)
    requires FilePath(fs, self, md1.fd).Err? && FilePath(fs, self, md2.fd).Ok?
    ensures var s := Then(RecordOutputAsWritten(fs, self, md1, strerror), RecordOutputAsWritten(fs, self, md2, strerror));
      var line2 := RecordOutput(fs, self, md2, strerror).out;
      && s.out == ReportPrefix(md1) + line2
      && ReportPrefix(md1) != "" && ReportPrefix(md1)[|ReportPrefix(md1)| - 1] == ' '
    ensures RecordOutput(fs, self, md1, strerror).out == ""
  {
    var p := ReportPrefix(md1);
    assert p == ("mask: " + FanMaskText(md1.mask) + ", fd: " + Decimal(md1.fd) + ", pid: " + Decimal(md1.pid)) + ", file: ";
  }

  /** The corrected output writes one complete line to exactly one of the
      two streams. */
  lemma RecordOutputEndsLines(fs: Procfs, self: Int32, md: Metadata, strerror: int -> string)
    ensures var s := RecordOutput(fs, self, md, strerror);
      || (s.err == "" && s.out != "" && s.out[|s.out| - 1] == '\n')
      || (s.out == "" && s.err != "" && s.err[|s.err| - 1] == '\n')
  {
  }

  // ---------------------------------------------------------------------
  // A buffer and a run of buffers.
  // ---------------------------------------------------------------------

  /** The writer of one record: `RecordOutputAsWritten` with the process
      filesystem, the monitor's pid and `strerror` of a buffer fixed. */
  function Report(fs: Procfs, self: Int32, strerror: int -> string): Metadata -> Streams
  {
    md => RecordOutputAsWritten(fs, self, md, strerror)
  }

  /** What `emit` writes for each record, in order. */
  function Outputs(emit: Metadata -> Streams, recs: seq<Metadata>): Streams
  {
    if recs == [] then Silent else Then(Outputs(emit, recs[..|recs| - 1]), emit(recs[|recs| - 1]))
  }

  /** The output of a list of records is the output of its parts, one after
      the other: what one record writes (a failure included) changes nothing
      that the records after it write. */
  lemma {:induction false} OutputsAppend(emit: Metadata -> Streams, a: seq<Metadata>, b: seq<Metadata>)
    ensures Outputs(emit, a + b) == Then(Outputs(emit, a), Outputs(emit, b))
  {
    if b == [] {
      assert a + b == a;
    } else {
      var n := |b| - 1;
      assert (a + b)[..|a + b| - 1] == a + b[..n];
      OutputsAppend(emit, a, b[..n]);
    }
  }

  /** A record whose path cannot be read contributes its fields up to
      `file: ` and its error line, and the records after it in the buffer are
      still reported. */
  lemma FailureIsIsolated(fs: Procfs, self: Int32, before: seq<Metadata>, md: Metadata, after: seq<Metadata>, strerror: int -> string)
    requires FilePath(fs, self, md.fd).Err?
    ensures var emit := Report(fs, self, strerror);
      Outputs(emit, before + [md] + after)
        == Then(Then(Outputs(emit, before), Streams(ReportPrefix(md), strerror(FilePath(fs, self, md.fd).errno) + "\n")),
                Outputs(emit, after))
  {
    var emit := Report(fs, self, strerror);
    OutputsAppend(emit, before + [md], after);
    OutputsAppend(emit, before, [md]);
    assert [md][..0] == [];
    assert emit(md) == RecordOutputAsWritten(fs, self, md, strerror);
  }

  /** The descriptors of the records, in order. */
  function Fds(recs: seq<Metadata>): (fds: seq<Int32>)
    ensures |fds| == |recs| && forall k :: 0 <= k < |recs| ==> fds[k] == recs[k].fd
  {
    seq(|recs|, k requires 0 <= k < |recs| => recs[k].fd)
  }

  /** The `close(2)` calls the monitor makes, in order. */
  class CloseLog {
    ghost var closes: seq<Int32>

    constructor ()
      ensures closes == []
    {
      closes := [];
    }
  }

  /** `FDCloser`: owns a record's descriptor and closes it when the record's
      `try` block is left, normally or by a throw. */
  class FdCloser {
    const fd: Int32
    ghost var closed: bool

    constructor (fd: Int32)
      ensures this.fd == fd && !closed
    {
      this.fd := fd;
      closed := false;
    }

    /** `~FDCloser`: `close(fd)`, once. */
    method Close(log: CloseLog)
      requires !closed
      modifies this, log
      ensures closed
      ensures log.closes == old(log.closes) + [fd]
    {
      closed := true;
      log.closes := log.closes + [fd];
    }
  }

  /** The body of the record loop: take ownership of the descriptor, write
      the fields in the order of the `<<` chain, calling `filePath` when its
      turn comes (the error goes to standard error if it throws), and close
      the descriptor on the way out either way. */
  method ProcessRecord(fs: Procfs, self: Int32, md: Metadata, strerror: int -> string, log: CloseLog)
    returns (s: Streams)
    modifies log
    ensures s == RecordOutputAsWritten(fs, self, md, strerror)
    ensures log.closes == old(log.closes) + [md.fd]
  {
    var closer := new FdCloser(md.fd);
    var fields := ReportPrefix(md);
    var path := FilePath(fs, self, md.fd);
    if path.Err? {
      s := Streams(fields, strerror(path.errno) + "\n");
    } else {
      var command := CommandLine(fs, md.pid, strerror);
      ReportLineParts(md, path.value, command);
      s := Streams(fields + (path.value + ", command: " + command + "\n"), "");
    }
    closer.Close(log);
  }

  lemma ReportLineParts(md: Metadata, path: string, command: string)
    ensures ReportLine(md, path, command) == ReportPrefix(md) + (path + ", command: " + command + "\n")
  {
  }

  /** The walk over one buffer: every record the framing visits is reported
      in order, and its descriptor closed once, in the same order. */
  method ProcessBuffer(rd: NotifyRead, self: Int32, strerror: int -> string, log: CloseLog)
    returns (s: Streams)
    requires Framed(rd)
    modifies log
    ensures s == Outputs(Report(rd.procfs, self, strerror), Frame(rd))
    ensures log.closes == old(log.closes) + Fds(Frame(rd))
  {
    ghost var frame := Frame(rd);
    ghost var emit := Report(rd.procfs, self, strerror);
    ghost var base := log.closes;
    FrameTotal(rd.at, rd.received, 0);
    ghost var j := 0;
    s := Silent;
    var p: nat := 0;
    assert frame[..0] == [];
    while p < rd.received
      invariant 0 <= j <= |frame| && p == TotalLen(frame[..j])
      invariant j < |frame| <==> p < rd.received
      invariant s == Outputs(emit, frame[..j])
      invariant log.closes == base + Fds(frame[..j])
      decreases |frame| - j
    {
      WalkStep(rd.at, rd.received, frame, j, emit);
      var md := rd.at[p];
      var r := ProcessRecord(rd.procfs, self, md, strerror, log);
      ReportApplied(rd.procfs, self, strerror, md);
      AppendAssoc(base, Fds(frame[..j]), [md.fd]);
      s := Then(s, r);
      p := p + md.eventLen;
      j := j + 1;
    }
    assert frame[..j] == frame;
  }

  lemma AppendAssoc(a: seq<Int32>, b: seq<Int32>, c: seq<Int32>)
    ensures (a + b) + c == a + (b + c)
  {
  }

  lemma ReportApplied(fs: Procfs, self: Int32, strerror: int -> string, md: Metadata)
    ensures Report(fs, self, strerror)(md) == RecordOutputAsWritten(fs, self, md, strerror)
  {
  }

  /** One turn of the walk: the `j`-th record visited is the header at the
      running sum of the lengths before it, and the walk goes on past it
      exactly when records remain. */
  lemma WalkStep(at: map<nat, Metadata>, received: int, frame: seq<Metadata>, j: nat, emit: Metadata -> Streams)
    requires FramedFrom(at, received, 0) && frame == FrameFrom(at, received, 0) && j < |frame|
    ensures var p := TotalLen(frame[..j]);
      var q := TotalLen(frame[..j + 1]);
      && p in at && at[p] == frame[j] && q == p + frame[j].eventLen
      && (j + 1 < |frame| <==> q < received)
      && Outputs(emit, frame[..j + 1]) == Then(Outputs(emit, frame[..j]), emit(frame[j]))
      && Fds(frame[..j + 1]) == Fds(frame[..j]) + [frame[j].fd]
  {
    FrameOffsets(at, received, 0);
    FrameTotal(at, received, 0);
    PrefixStep(frame, j, emit);
    if j + 1 == |frame| {
      assert frame[..j + 1] == frame;
    } else {
      assert 0 + TotalLen(frame[..j + 1]) < received;
    }
  }

  /** Extending a prefix of the frame by its next record. */
  lemma PrefixStep(frame: seq<Metadata>, j: nat, emit: Metadata -> Streams)
    requires j < |frame|
    ensures TotalLen(frame[..j + 1]) == TotalLen(frame[..j]) + frame[j].eventLen
    ensures Outputs(emit, frame[..j + 1]) == Then(Outputs(emit, frame[..j]), emit(frame[j]))
    ensures Fds(frame[..j + 1]) == Fds(frame[..j]) + [frame[j].fd]
  {
    var md := frame[j];
    assert frame[..j + 1] == frame[..j] + [md];
    TotalLenSnoc(frame[..j], md);
    OutputsSnoc(emit, frame[..j], md);
    FdsSnoc(frame[..j], md);
  }

  lemma {:induction false} TotalLenSnoc(recs: seq<Metadata>, md: Metadata)
    ensures TotalLen(recs + [md]) == TotalLen(recs) + md.eventLen
  {
    if recs != [] {
      assert (recs + [md])[1..] == recs[1..] + [md];
      TotalLenSnoc(recs[1..], md);
    }
  }

  lemma OutputsSnoc(emit: Metadata -> Streams, recs: seq<Metadata>, md: Metadata)
    ensures Outputs(emit, recs + [md]) == Then(Outputs(emit, recs), emit(md))
  {
    assert (recs + [md])[..|recs|] == recs;
  }

  lemma FdsSnoc(recs: seq<Metadata>, md: Metadata)
    ensures Fds(recs + [md]) == Fds(recs) + [md.fd]
  {
  }

  /** Every read up to the first that returns 0 is framed; the reads after it
      are never made. */
  predicate FramedRun(batches: seq<NotifyRead>)
    decreases |batches|
  {
    batches != [] && batches[0].received != 0 ==> Framed(batches[0]) && FramedRun(batches[1..])
  }

  /** The records a run of reads delivers: the frames of the reads before the
      first that returns 0. */
  function RunRecords(batches: seq<NotifyRead>): seq<Metadata>
    requires FramedRun(batches)
  {
    if batches == [] || batches[0].received == 0 then []
    else Frame(batches[0]) + RunRecords(batches[1..])
  }

  /** What a run of reads writes: each buffer's records with the process
      filesystem of their read, the reads before the first that returns 0. */
  function RunOutput(batches: seq<NotifyRead>, self: Int32, strerror: int -> string): Streams
    requires FramedRun(batches)
  {
    if batches == [] || batches[0].received == 0 then Silent
    else Then(Outputs(Report(batches[0].procfs, self, strerror), Frame(batches[0])), RunOutput(batches[1..], self, strerror))
  }

  lemma ThenAssoc(a: Streams, b: Streams, c: Streams)
    ensures Then(Then(a, b), c) == Then(a, Then(b, c))
  {
  }

  lemma FdsAppend(a: seq<Metadata>, b: seq<Metadata>)
    ensures Fds(a + b) == Fds(a) + Fds(b)
  {
  }

  /** A failed read writes nothing and the loop reads again. */
  lemma FailedReadContinues(batches: seq<NotifyRead>, self: Int32, strerror: int -> string)
    requires FramedRun(batches)
    requires batches != [] && batches[0].received == -1
    ensures FramedRun(batches[1..])
    ensures RunOutput(batches, self, strerror) == RunOutput(batches[1..], self, strerror)
    ensures RunRecords(batches) == RunRecords(batches[1..])
  {
    FailedReadFramesNothing(batches[0]);
    assert Frame(batches[0]) == [];
  }

  /** Nothing after the first read that returns 0 is processed. */
  lemma {:induction false} EndOfStreamStops(batches: seq<NotifyRead>, k: nat, self: Int32, strerror: int -> string)
    requires FramedRun(batches)
    requires k < |batches| && batches[k].received == 0
    ensures FramedRun(batches[..k])
    ensures RunOutput(batches, self, strerror) == RunOutput(batches[..k], self, strerror)
    ensures RunRecords(batches) == RunRecords(batches[..k])
  {
    if k == 0 {
      assert batches[..k] == [];
    } else if batches[0].received != 0 {
      assert batches[..k][1..] == batches[1..][..k - 1];
      EndOfStreamStops(batches[1..], k - 1, self, strerror);
      assert batches[..k][0] == batches[0];
    } else {
      assert batches[..k][0] == batches[0];
    }
  }

  /** The loop invariant of `Monitor`: what has been written and closed,
      followed by what the remaining reads `rest` produce, is the whole run. */
  ghost predicate RunSoFar(batches: seq<NotifyRead>, rest: seq<NotifyRead>, self: Int32, strerror: int -> string,
                           s: Streams, closes: seq<Int32>)
    requires FramedRun(batches) && FramedRun(rest)
  {
    && Then(s, RunOutput(rest, self, strerror)) == RunOutput(batches, self, strerror)
    && closes + Fds(RunRecords(rest)) == Fds(RunRecords(batches))
  }

  lemma RunStop(batches: seq<NotifyRead>, rest: seq<NotifyRead>, self: Int32, strerror: int -> string,
                s: Streams, closes: seq<Int32>)
    requires FramedRun(batches) && FramedRun(rest) && rest != [] && rest[0].received == 0
    requires RunSoFar(batches, rest, self, strerror, s, closes)
    ensures s == RunOutput(batches, self, strerror)
    ensures closes == Fds(RunRecords(batches))
  {
  }

  lemma RunAdvance(batches: seq<NotifyRead>, rest: seq<NotifyRead>, self: Int32, strerror: int -> string,
                   s: Streams, closes: seq<Int32>, r: Streams, c: seq<Int32>)
    requires FramedRun(batches) && FramedRun(rest) && rest != [] && rest[0].received != 0
    requires RunSoFar(batches, rest, self, strerror, s, closes)
    requires r == Outputs(Report(rest[0].procfs, self, strerror), Frame(rest[0]))
    requires c == Fds(Frame(rest[0]))
    ensures FramedRun(rest[1..])
    ensures RunSoFar(batches, rest[1..], self, strerror, Then(s, r), closes + c)
  {
    var more := RunRecords(rest[1..]);
    FdsAppend(Frame(rest[0]), more);
    AppendAssoc(closes, c, Fds(more));
    ThenAssoc(s, r, RunOutput(rest[1..], self, strerror));
  }

  /** The `for (;;)` of `main`: read, walk the buffer, and stop at a read
      that returns 0. Every record's descriptor is closed once, in the order
      the records arrived, and no other record descriptor is logged. */
  method Monitor(batches: seq<NotifyRead>, self: Int32, strerror: int -> string, log: CloseLog)
    returns (s: Streams)
    requires FramedRun(batches)
    modifies log
    ensures s == RunOutput(batches, self, strerror)
    ensures log.closes == old(log.closes) + Fds(RunRecords(batches))
  {
    s := Silent;
    ghost var base := log.closes;
    ghost var closes: seq<Int32> := [];
    ghost var rest := batches;
    var i := 0;
    while i < |batches|
      invariant 0 <= i <= |batches| && rest == batches[i..] && FramedRun(rest)
      invariant RunSoFar(batches, rest, self, strerror, s, closes)
      invariant log.closes == base + closes
    {
      var rd := batches[i];
      assert rest[0] == rd;
      if rd.received == 0 {
        RunStop(batches, rest, self, strerror, s, closes);
        return;
      }
      var r := ProcessBuffer(rd, self, strerror, log);
      ghost var c := Fds(Frame(rd));
      RunAdvance(batches, rest, self, strerror, s, closes, r, c);
      AppendAssoc(base, closes, c);
      s := Then(s, r);
      closes := closes + c;
      assert rest[1..] == batches[i + 1..];
      rest := rest[1..];
      i := i + 1;
    }
  }
}
