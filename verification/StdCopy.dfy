/** The stream demultiplexer of util/copyio.go: one growing, sliding buffer between an
    arbitrary reader and two writers. */
module StdCopy {
  import opened Wrappers
  import opened Seqs
  import opened Frames

  const STARTING_BUF_LEN := 32 * 1024 + 8 + 1

  datatype ReadStatus = Ok | Eof | Broken(code: int)

  datatype CopyError =
    | ReadFailed(code: int)
    | WriteFailed(code: int)
    | ShortWrite
    | UnrecognizedHeader(kind: byte)
    | FromDaemon(message: seq<byte>)

  /** An io.Reader: the bytes it still has to hand out, and how it ends afterwards. How
      many bytes each call hands out, whether the end comes with the last bytes or on its
      own, and up to `idle` empty reads are up to the reader. */
  class Source {
    var pending: seq<byte>
    var idle: nat
    /** Whether the end came on its own, after the last bytes. */
    var endedAlone: bool
    const end: ReadStatus

    ghost predicate Valid()
      reads this
    {
      !end.Ok?
    }

    constructor (bytes: seq<byte>, idle: nat, end: ReadStatus)
      requires !end.Ok?
      ensures Valid() && pending == bytes && this.end == end
    {
      this.pending, this.idle, this.end, endedAlone := bytes, idle, end, false;
    }

    method Read(buf: array<byte>, from: nat) returns (n: nat, er: ReadStatus)
      requires Valid() && from < buf.Length
      modifies this`pending, this`idle, this`endedAlone, buf
      ensures from + n <= buf.Length && n <= |old(pending)|
      ensures pending == old(pending)[n..]
      ensures buf[..from] == old(buf[..from])
      ensures buf[from..from + n] == old(pending)[..n]
      ensures !er.Ok? ==> er == end && pending == [] && (endedAlone ==> n == 0)
      ensures er.Ok? ==> |pending| + idle < |old(pending)| + old(idle)
    {
      var room := buf.Length - from;
      if pending == [] {
        if idle > 0 {
          n, er, idle := 0, Ok, idle - 1;
        } else {
          n, er, endedAlone := 0, end, true;
        }
        return;
      }
      n :| 0 <= n <= room && n <= |pending| && (n > 0 || idle > 0);
      forall i | 0 <= i < n {
        buf[from + i] := pending[i];
      }
      if n == 0 {
        idle := idle - 1;
      }
      pending := pending[n..];
      var withLast: bool := *;
      er := if n > 0 && pending == [] && withLast then end else Ok;
      endedAlone := false;
    }
  }

  /** What went wrong at a writer: the errors it returned, in order, and how many of its
      writes were short without an error. */
  datatype Faults = Faults(errors: seq<int>, shorts: nat)

  /** An io.Writer: everything it accepted, and what went wrong. */
  class Sink {
    var got: seq<byte>
    var faults: Faults

    constructor ()
      ensures got == [] && faults == Faults([], 0)
    {
      got, faults := [], Faults([], 0);
    }

    method Write(p: seq<byte>) returns (nw: nat, ew: Option<int>)
      modifies this
      ensures nw <= |p| && got == old(got) + p[..nw]
      ensures faults.errors == if ew.Some? then old(faults.errors) + [ew.value] else old(faults.errors)
      ensures faults.shorts == old(faults.shorts) + if !ew.Some? && nw < |p| then 1 else 0
    {
      nw :| 0 <= nw <= |p|;
      ew := *;
      got := got + p[..nw];
      if ew.Some? {
        faults := faults.(errors := faults.errors + [ew.value]);
      } else if nw < |p| {
        faults := faults.(shorts := faults.shorts + 1);
      }
    }
  }

  /** The faults of one writer grew by what the returned error says: its own error, a short
      write, or nothing. */
  ghost predicate Faulted(err: Option<CopyError>, was: Faults, now: Faults) {
    match err
    case Some(WriteFailed(code)) => now == was.(errors := was.errors + [code])
    case Some(ShortWrite) => now == was.(shorts := was.shorts + 1)
    case _ => now == was
  }

  /** What the returned error says happened at one of the writers, and nothing at the other. */
  ghost predicate Reported(err: Option<CopyError>, dstout: Sink, dsterr: Sink, wasOut: Faults, wasErr: Faults)
    reads dstout, dsterr
  {
    || (Faulted(err, wasOut, dstout.faults) && (dstout == dsterr || dsterr.faults == wasErr))
    || (Faulted(err, wasErr, dsterr.faults) && (dstout == dsterr || dstout.faults == wasOut))
  }

  /** The error a write calls for. */
  function ErrorOfWrite(ew: Option<int>, short: bool): Option<CopyError> {
    if ew.Some? then Some(WriteFailed(ew.value)) else if short then Some(ShortWrite) else None
  }

  /** Which kinds of frame end up in a given sink; one writer may serve as both. */
  ghost function KindsFor(sink: Sink, dstout: Sink, dsterr: Sink): set<byte> {
    (if sink == dstout then {STDIN, STDOUT} else {}) + (if sink == dsterr then {STDERR} else {})
  }

  /** Reads until `need` bytes are buffered or the reader stops. */
  method Fill(src: Source, buf: array<byte>, have: nat, need: nat) returns (nr: nat, er: ReadStatus)
    requires src.Valid() && have <= buf.Length && need <= buf.Length
    modifies src`pending, src`idle, src`endedAlone, buf
    ensures have <= nr <= buf.Length
    ensures buf[..nr] + src.pending == old(buf[..have] + src.pending)
    ensures er.Ok? ==> nr >= need
    ensures !er.Ok? ==> er == src.end && src.pending == [] && (src.endedAlone ==> nr < need)
  {
    nr, er := have, Ok;
    ghost var all := buf[..have] + src.pending;
    while nr < need && er.Ok?
      invariant have <= nr <= buf.Length
      invariant buf[..nr] + src.pending == all
      invariant !er.Ok? ==> er == src.end && src.pending == [] && (src.endedAlone ==> nr < need)
      decreases er.Ok?, |src.pending| + src.idle
    {
      ghost var before, left := buf[..nr], src.pending;
      var nr2;
      nr2, er := src.Read(buf, nr);
      assert buf[..nr + nr2] == buf[..nr] + buf[nr..nr + nr2];
      Moved(before, left, nr2);
      nr := nr + nr2;
    }
  }

  lemma Moved(before: seq<byte>, left: seq<byte>, n: nat)
    requires n <= |left|
    ensures before + left[..n] + left[n..] == before + left
  {
    assert left == left[..n] + left[n..];
  }

  /** `append(buf, make([]byte, extra)...)` with its reallocation. */
  method Grow(buf: array<byte>, extra: nat) returns (bigger: array<byte>)
    ensures fresh(bigger) && bigger.Length == buf.Length + extra
    ensures bigger[..buf.Length] == buf[..]
  {
    bigger := new byte[buf.Length + extra](_ => 0);
    forall i | 0 <= i < buf.Length {
      bigger[i] := buf[i];
    }
  }

  /** `copy(buf, buf[k:])`, byte by byte in place. */
  method ShiftLeft(buf: array<byte>, k: nat)
    requires k <= buf.Length
    modifies buf
    ensures buf[..buf.Length - k] == old(buf[k..])
  {
    ghost var was := buf[..];
    var i := 0;
    while i < buf.Length - k
      invariant 0 <= i <= buf.Length - k
      invariant forall j :: 0 <= j < i ==> buf[j] == was[j + k]
      invariant forall j :: i <= j < buf.Length ==> buf[j] == was[j]
    {
      buf[i] := buf[i + k];
      i := i + 1;
    }
    assert buf[..buf.Length - k] == was[k..];
  }

  /** Slides the buffer over a frame of k bytes. */
  method Drop(buf: array<byte>, nr: nat, k: nat) returns (left: nat)
    requires k <= nr <= buf.Length
    modifies buf
    ensures left == nr - k && buf[..left] == old(buf[..nr])[k..]
  {
    ghost var next := buf[..nr][k..];
    assert next == buf[k..][..nr - k];
    ShiftLeft(buf, k);
    left := nr - k;
    assert buf[..left] == buf[..buf.Length - k][..left];
  }

  /** What a run that no sink failed may return, given the whole stream: no error only for
      a stream that simply ends, and a count of every payload byte unless a header is bad. */
  ghost predicate Returns(data: seq<byte>, end: ReadStatus, written: nat, err: Option<CopyError>) {
    MuxCut(data);
    match Judge(Cut(data).rest)
    case UnknownKind(k) => written == 0 && err == Some(UnrecognizedHeader(k))
    case DaemonError(m) => written == TotalLength(Cut(data).frames) && err == Some(FromDaemon(m))
    case Truncated => end.Eof? && written == TotalLength(Cut(data).frames) && err == None
  }

  datatype Fetch = Ready | EndOfStream | Failed(code: int) | BadKind(kind: byte)

  /** The reading half of one turn of the loop: a full header, then the buffer grown to
      the frame's size, then the full frame. Nothing read before or here is lost. */
  method FetchFrame(src: Source, buf0: array<byte>, have: nat)
    returns (buf: array<byte>, nr: nat, frameSize: nat, fetch: Fetch)
    requires src.Valid() && have <= buf0.Length && PREFIX_LEN <= buf0.Length
    modifies src`pending, src`idle, src`endedAlone, buf0
    ensures (buf == buf0 || fresh(buf)) && buf.Length >= buf0.Length && nr <= buf.Length
    ensures buf[..nr] + src.pending == old(buf0[..have] + src.pending)
    ensures Fetched(fetch, buf[..nr], src.pending, frameSize, src.end)
    ensures fetch.Failed? && src.endedAlone ==> JudgedAs(buf[..nr], Truncated)
  {
    buf, frameSize := buf0, 0;
    var er;
    nr, er := Fill(src, buf, have, PREFIX_LEN);
    ghost var filled := buf[..nr];
    if er.Eof? && nr < PREFIX_LEN {
      NothingPending(filled, src.pending);
      return buf, nr, 0, EndOfStream;
    }
    if er.Broken? {
      return buf, nr, 0, Failed(er.code);
    }
    assert filled[0] == buf[0];
    if buf[0] > SYSTEMERR {
      UnknownFront(filled, src.pending);
      return buf, nr, 0, BadKind(buf[0]);
    }
    frameSize := BigEndian32(buf[4], buf[5], buf[6], buf[7]);
    assert FrameSize(filled) == frameSize;
    if frameSize + PREFIX_LEN > buf.Length {
      buf := Grow(buf, frameSize + PREFIX_LEN - buf.Length + 1);
      assert buf[..nr] == filled;
    }
    nr, er := FillKeeping(src, buf, nr, frameSize + PREFIX_LEN, filled);
    ghost var buffered := buf[..nr];
    assert FrameSize(buffered) == frameSize && buffered[0] <= SYSTEMERR;
    if er.Eof? && nr < frameSize + PREFIX_LEN {
      NothingPending(buffered, src.pending);
      return buf, nr, frameSize, EndOfStream;
    }
    if er.Broken? {
      return buf, nr, frameSize, Failed(er.code);
    }
    fetch := Ready;
  }

  /** What is known about the buffered and the unread bytes after a fetch. */
  ghost predicate Fetched(fetch: Fetch, buffered: seq<byte>, pending: seq<byte>, frameSize: nat, end: ReadStatus) {
    match fetch
    case Ready => Complete(buffered) && buffered[0] <= SYSTEMERR && FrameSize(buffered) == frameSize
    case EndOfStream => end.Eof? && pending == [] && JudgedAs(buffered + pending, Truncated)
    case Failed(code) => end == Broken(code) && pending == []
    case BadKind(kind) => JudgedAs(buffered + pending, UnknownKind(kind))
  }

  lemma NothingPending(buffered: seq<byte>, pending: seq<byte>)
    requires pending == [] && !Complete(buffered) && (|buffered| >= PREFIX_LEN ==> buffered[0] <= SYSTEMERR)
    ensures JudgedAs(buffered + pending, Truncated)
  {
    assert buffered + pending == buffered;
  }

  lemma UnknownFront(buffered: seq<byte>, pending: seq<byte>)
    requires |buffered| >= PREFIX_LEN && buffered[0] > SYSTEMERR
    ensures JudgedAs(buffered + pending, UnknownKind(buffered[0]))
  {
    assert (buffered + pending)[0] == buffered[0];
  }

  /** Fill, which leaves the bytes that were already buffered where they are. */
  method FillKeeping(src: Source, buf: array<byte>, have: nat, need: nat, ghost filled: seq<byte>)
    returns (nr: nat, er: ReadStatus)
    requires src.Valid() && have <= buf.Length && need <= buf.Length && filled == buf[..have]
    modifies src`pending, src`idle, src`endedAlone, buf
    ensures have <= nr <= buf.Length
    ensures buf[..nr] + src.pending == filled + old(src.pending)
    ensures forall i :: 0 <= i < have ==> buf[i] == filled[i]
    ensures er.Ok? ==> nr >= need
    ensures !er.Ok? ==> er == src.end && src.pending == [] && (src.endedAlone ==> nr < need)
  {
    ghost var left := src.pending;
    nr, er := Fill(src, buf, have, need);
    assert forall i :: 0 <= i < have ==> buf[i] == (buf[..nr] + src.pending)[i] == (filled + left)[i];
  }

  /** No deliverable frame is at the front, for the given reason. */
  ghost predicate JudgedAs(left: seq<byte>, verdict: Verdict) {
    !Deliverable(left) && Judge(left) == verdict
  }

  lemma CutDelivered(buffered: seq<byte>, pending: seq<byte>)
    requires Deliverable(buffered)
    ensures Deliverable(buffered + pending)
    ensures FirstFrame(buffered + pending) == FirstFrame(buffered)
    ensures AfterFirst(buffered + pending) == buffered[PREFIX_LEN + FrameSize(buffered)..] + pending
  {
    var s := buffered + pending;
    var n := FrameSize(buffered);
    assert FrameSize(s) == n;
    assert s[1..4] == buffered[1..4];
    assert s[PREFIX_LEN..PREFIX_LEN + n] == buffered[PREFIX_LEN..PREFIX_LEN + n];
  }

  lemma CutDaemonError(buffered: seq<byte>, pending: seq<byte>)
    requires Complete(buffered) && buffered[0] == SYSTEMERR
    ensures JudgedAs(buffered + pending, DaemonError(FirstFrame(buffered).payload))
  {
    var s := buffered + pending;
    var n := FrameSize(buffered);
    assert FrameSize(s) == n;
    assert s[PREFIX_LEN..PREFIX_LEN + n] == buffered[PREFIX_LEN..PREFIX_LEN + n];
  }

  /** The whole stream was `data`; `done` has been delivered; `left` is still to decode. */
  ghost predicate Progress(data: seq<byte>, done: seq<Frame>, left: seq<byte>) {
    && Cut(data).frames == done + Cut(left).frames
    && Cut(data).rest == Cut(left).rest
  }

  /** A sink that started at `was` has received the delivered frames meant for it. */
  ghost predicate Holds(got: seq<byte>, was: seq<byte>, done: seq<Frame>, kinds: set<byte>) {
    got == was + Payloads(done, kinds)
  }

  lemma Deliver(data: seq<byte>, done: seq<Frame>, buffered: seq<byte>, pending: seq<byte>)
    requires Progress(data, done, buffered + pending) && Deliverable(buffered)
    ensures Progress(data, done + [FirstFrame(buffered)], buffered[PREFIX_LEN + FrameSize(buffered)..] + pending)
  {
    CutDelivered(buffered, pending);
    var f := FirstFrame(buffered);
    var next := buffered[PREFIX_LEN + FrameSize(buffered)..] + pending;
    assert done + ([f] + Cut(next).frames) == done + [f] + Cut(next).frames;
  }

  lemma Counted(done: seq<Frame>, f: Frame)
    ensures TotalLength(done + [f]) == TotalLength(done) + |f.payload|
  {
    LengthsAppend(done, [f]);
    PayloadsOne(f, {});
  }

  /** Routes a payload to the writer its kind selects. */
  method Route(dstout: Sink, dsterr: Sink, kind: byte, payload: seq<byte>) returns (nw: nat, ew: Option<int>)
    requires kind <= STDERR
    modifies dstout, dsterr
    ensures nw <= |payload|
    ensures dstout.got == old(dstout.got) + (if kind in KindsFor(dstout, dstout, dsterr) then payload[..nw] else [])
    ensures dsterr.got == old(dsterr.got) + (if kind in KindsFor(dsterr, dstout, dsterr) then payload[..nw] else [])
    ensures Reported(ErrorOfWrite(ew, nw < |payload|), dstout, dsterr, old(dstout.faults), old(dsterr.faults))
  {
    if kind == STDERR {
      nw, ew := dsterr.Write(payload);
    } else {
      nw, ew := dstout.Write(payload);
    }
  }

  /** One sink's step: it held the delivered frames, and now took its share of the next one. */
  lemma HoldsStep(got: seq<byte>, was: seq<byte>, done: seq<Frame>, f: Frame, kinds: set<byte>)
    requires Holds(got, was, done, kinds)
    ensures Holds(got + (if f.kind in kinds then f.payload else []), was, done + [f], kinds)
  {
    PayloadsAppend(done, [f], kinds);
    PayloadsOne(f, kinds);
    Assoc(was, Payloads(done, kinds), if f.kind in kinds then f.payload else []);
  }

  /** Between two frames: nothing of the stream is lost, and both sinks are up to date. */
  ghost predicate Inv(dstout: Sink, dsterr: Sink, wasOut: seq<byte>, wasErr: seq<byte>,
                      data: seq<byte>, done: seq<Frame>, left: seq<byte>)
    reads dstout, dsterr
  {
    && Progress(data, done, left)
    && Holds(dstout.got, wasOut, done, KindsFor(dstout, dstout, dsterr))
    && Holds(dsterr.got, wasErr, done, KindsFor(dsterr, dstout, dsterr))
  }

  lemma NothingDone(dstout: Sink, dsterr: Sink, data: seq<byte>)
    ensures Inv(dstout, dsterr, dstout.got, dsterr.got, data, [], data)
  {
    NothingAppended(dstout.got);
    NothingAppended(dsterr.got);
    NothingPrepended(Cut(data).frames);
  }

  function ErrorFor(verdict: Verdict): Option<CopyError> {
    match verdict
    case Truncated => None
    case UnknownKind(k) => Some(UnrecognizedHeader(k))
    case DaemonError(m) => Some(FromDaemon(m))
  }

  /** The safety part of the contract: a sink only ever extends by a prefix of its share. */
  ghost predicate Sound(got: seq<byte>, was: seq<byte>, data: seq<byte>, kinds: set<byte>) {
    was <= got <= was + Payloads(Cut(data).frames, kinds)
  }

  /** The full contract of a sink: it received all of its share, in order. */
  ghost predicate Received(got: seq<byte>, was: seq<byte>, data: seq<byte>, kinds: set<byte>) {
    got == was + Payloads(Cut(data).frames, kinds)
  }

  lemma HoldsSound(data: seq<byte>, done: seq<Frame>, left: seq<byte>, kinds: set<byte>, was: seq<byte>, part: seq<byte>)
    requires Progress(data, done, left)
    requires part == [] || (Deliverable(left) && FirstFrame(left).kind in kinds && part <= FirstFrame(left).payload)
    ensures Sound(was + Payloads(done, kinds) + part, was, data, kinds)
    ensures part == [] && Cut(left).frames == [] ==> Received(was + Payloads(done, kinds), was, data, kinds)
  {
    var rest := Cut(left).frames;
    PayloadsAppend(done, rest, kinds);
    Assoc(was, Payloads(done, kinds), Payloads(rest, kinds));
    assert was + Payloads(done, kinds) + [] == was + Payloads(done, kinds);
    if part != [] {
      var tail := Cut(AfterFirst(left)).frames;
      PayloadsAppend([FirstFrame(left)], tail, kinds);
      PayloadsOne(FirstFrame(left), kinds);
      assert part <= Payloads(Cut(left).frames, kinds);
    }
  }

  /** `buf[headerLen:frameSize+headerLen]`. */
  method FramePayload(buf: array<byte>, nr: nat, frameSize: nat) returns (payload: seq<byte>)
    requires nr <= buf.Length && Complete(buf[..nr]) && FrameSize(buf[..nr]) == frameSize
    ensures payload == FirstFrame(buf[..nr]).payload && |payload| == frameSize
  {
    payload := buf[PREFIX_LEN..frameSize + PREFIX_LEN];
    ghost var all := buf[..];
    SliceOfPrefix(all, nr, PREFIX_LEN, frameSize + PREFIX_LEN);
    assert payload == all[PREFIX_LEN..frameSize + PREFIX_LEN] && buf[..nr] == all[..nr];
  }

  lemma SliceOfPrefix<T>(s: seq<T>, n: nat, i: nat, j: nat)
    requires i <= j <= n <= |s|
    ensures s[..n][i..j] == s[i..j]
  {
  }

  /** The writing half of one turn of the loop: the frame's payload goes to its sink and,
      if that worked, the buffer slides over the frame. */
  method DeliverFrame(dstout: Sink, dsterr: Sink, buf: array<byte>, nr: nat, frameSize: nat,
                      ghost wasOut: seq<byte>, ghost wasErr: seq<byte>,
                      ghost data: seq<byte>, ghost done: seq<Frame>, ghost pending: seq<byte>)
    returns (nw: nat, ew: Option<int>, left: nat)
    requires nr <= buf.Length && Deliverable(buf[..nr]) && FrameSize(buf[..nr]) == frameSize
    requires Inv(dstout, dsterr, wasOut, wasErr, data, done, buf[..nr] + pending)
    modifies dstout, dsterr, buf
    ensures Reported(ErrorOfWrite(ew, nw != frameSize), dstout, dsterr, old(dstout.faults), old(dsterr.faults))
    ensures Sound(dstout.got, wasOut, data, KindsFor(dstout, dstout, dsterr))
    ensures Sound(dsterr.got, wasErr, data, KindsFor(dsterr, dstout, dsterr))
    ensures left <= nr
    ensures ew.None? && nw == frameSize ==>
              && left < nr && |old(FirstFrame(buf[..nr]).payload)| == nw
              && Inv(dstout, dsterr, wasOut, wasErr, data, done + [old(FirstFrame(buf[..nr]))], buf[..left] + pending)
  {
    ghost var buffered := buf[..nr];
    var payload := FramePayload(buf, nr, frameSize);
    nw, ew := WriteFrame(dstout, dsterr, buf[0], payload, buffered, wasOut, wasErr, data, done, pending);
    left := nr;
    if ew.Some? || nw != frameSize {
      return;
    }
    left := Drop(buf, nr, frameSize + PREFIX_LEN);
  }

  /** The write of one frame's payload, as far as the sinks and the decoding are concerned. */
  method WriteFrame(dstout: Sink, dsterr: Sink, kind: byte, payload: seq<byte>, ghost buffered: seq<byte>,
                    ghost wasOut: seq<byte>, ghost wasErr: seq<byte>,
                    ghost data: seq<byte>, ghost done: seq<Frame>, ghost pending: seq<byte>)
    returns (nw: nat, ew: Option<int>)
    requires Deliverable(buffered) && kind == buffered[0] && payload == FirstFrame(buffered).payload
    requires Inv(dstout, dsterr, wasOut, wasErr, data, done, buffered + pending)
    modifies dstout, dsterr
    ensures nw <= |payload|
    ensures Reported(ErrorOfWrite(ew, nw < |payload|), dstout, dsterr, old(dstout.faults), old(dsterr.faults))
    ensures Sound(dstout.got, wasOut, data, KindsFor(dstout, dstout, dsterr))
    ensures Sound(dsterr.got, wasErr, data, KindsFor(dsterr, dstout, dsterr))
    ensures ew.None? && nw == |payload| ==>
              Inv(dstout, dsterr, wasOut, wasErr, data, done + [FirstFrame(buffered)],
                  buffered[PREFIX_LEN + FrameSize(buffered)..] + pending)
  {
    ghost var f := FirstFrame(buffered);
    ghost var kindsOut, kindsErr := KindsFor(dstout, dstout, dsterr), KindsFor(dsterr, dstout, dsterr);
    HoldsStep(dstout.got, wasOut, done, f, kindsOut);
    HoldsStep(dsterr.got, wasErr, done, f, kindsErr);
    CutDelivered(buffered, pending);
    Deliver(data, done, buffered, pending);
    nw, ew := Route(dstout, dsterr, kind, payload);
    HoldsSound(data, done, buffered + pending, kindsOut, wasOut, if kind in kindsOut then payload[..nw] else []);
    HoldsSound(data, done, buffered + pending, kindsErr, wasErr, if kind in kindsErr then payload[..nw] else []);
    assert nw == |payload| ==> payload[..nw] == payload;
  }

  /** How one turn of the loop ends. */
  datatype Turn = Continue | Stop(written: nat, err: Option<CopyError>)

  predicate IsWriteError(err: Option<CopyError>) {
    err.Some? && (err.value.WriteFailed? || err.value.ShortWrite?)
  }

  /** The return that a reader's end or failure causes. */
  predicate EndsReading(err: Option<CopyError>) {
    err.None? || err.value.ReadFailed?
  }

  /** What StdCopy promises when it returns, given what the sinks held and the whole stream. */
  ghost predicate Promise(dstout: Sink, dsterr: Sink, wasOut: seq<byte>, wasErr: seq<byte>,
                          data: seq<byte>, end: ReadStatus, alone: bool, written: nat, err: Option<CopyError>)
    reads dstout, dsterr
  {
    // In every run, even a failing one, the sinks hold a prefix of what was multiplexed.
    && Sound(dstout.got, wasOut, data, KindsFor(dstout, dstout, dsterr))
    && Sound(dsterr.got, wasErr, data, KindsFor(dsterr, dstout, dsterr))
    // After a write error nothing counts as written.
    && (IsWriteError(err) ==> written == 0)
    // A read error is passed on, and only a reader that ends in one causes it; if it did not
    // come together with the last bytes, every whole frame has been received and only a
    // truncated one is left.
    && (err.Some? && err.value.ReadFailed? ==>
          && written == 0 && end == Broken(err.value.code)
          && (alone ==>
                && JudgedAs(Cut(data).rest, Truncated)
                && Received(dstout.got, wasOut, data, KindsFor(dstout, dstout, dsterr))
                && Received(dsterr.got, wasErr, data, KindsFor(dsterr, dstout, dsterr))))
    // Any other return is the decoder's: same payloads, same count, same error.
    && (err.None? || err.value.UnrecognizedHeader? || err.value.FromDaemon? ==>
          && Returns(data, end, written, err)
          && Received(dstout.got, wasOut, data, KindsFor(dstout, dstout, dsterr))
          && Received(dsterr.got, wasErr, data, KindsFor(dsterr, dstout, dsterr)))
  }

  /** A return where nothing deliverable is left: everything was received. */
  lemma StopsWith(dstout: Sink, dsterr: Sink, wasOut: seq<byte>, wasErr: seq<byte>, data: seq<byte>, end: ReadStatus,
                  alone: bool, done: seq<Frame>, left: seq<byte>, verdict: Verdict)
    requires Inv(dstout, dsterr, wasOut, wasErr, data, done, left)
    requires JudgedAs(left, verdict) && (verdict.Truncated? ==> end.Eof?)
    ensures Promise(dstout, dsterr, wasOut, wasErr, data, end, alone,
                    if verdict.UnknownKind? then 0 else TotalLength(done), ErrorFor(verdict))
  {
    HoldsSound(data, done, left, KindsFor(dstout, dstout, dsterr), wasOut, []);
    HoldsSound(data, done, left, KindsFor(dsterr, dstout, dsterr), wasErr, []);
    assert Cut(data) == Cutting(done, left);
  }

  /** A return because the reader failed. */
  lemma StopsUnread(dstout: Sink, dsterr: Sink, wasOut: seq<byte>, wasErr: seq<byte>, data: seq<byte>, end: ReadStatus,
                    alone: bool, done: seq<Frame>, left: seq<byte>)
    requires Inv(dstout, dsterr, wasOut, wasErr, data, done, left) && end.Broken? && (alone ==> JudgedAs(left, Truncated))
    ensures Promise(dstout, dsterr, wasOut, wasErr, data, end, alone, 0, Some(ReadFailed(end.code)))
  {
    HoldsSound(data, done, left, KindsFor(dstout, dstout, dsterr), wasOut, []);
    HoldsSound(data, done, left, KindsFor(dsterr, dstout, dsterr), wasErr, []);
  }

  /** One turn of the loop of StdCopy. */
  method CopyFrame(dstout: Sink, dsterr: Sink, src: Source, buf0: array<byte>, have: nat, written0: nat,
                   ghost wasOut: seq<byte>, ghost wasErr: seq<byte>, ghost data: seq<byte>, ghost done0: seq<Frame>)
    returns (buf: array<byte>, nr: nat, written: nat, turn: Turn, ghost done: seq<Frame>)
    requires src.Valid() && have <= buf0.Length && PREFIX_LEN <= buf0.Length && written0 == TotalLength(done0)
    requires Inv(dstout, dsterr, wasOut, wasErr, data, done0, buf0[..have] + src.pending)
    modifies dstout, dsterr, src`pending, src`idle, src`endedAlone, buf0
    ensures (buf == buf0 || fresh(buf)) && nr <= buf.Length && buf0.Length <= buf.Length
    ensures Reported(if turn.Stop? then turn.err else None, dstout, dsterr, old(dstout.faults), old(dsterr.faults))
    ensures turn.Stop? ==> Promise(dstout, dsterr, wasOut, wasErr, data, src.end, src.endedAlone, turn.written, turn.err)
    ensures turn.Stop? && EndsReading(turn.err) ==> src.pending == []
    ensures turn.Continue? ==>
              && written == TotalLength(done) && nr + |src.pending| < have + old(|src.pending|)
              && Inv(dstout, dsterr, wasOut, wasErr, data, done, buf[..nr] + src.pending)
  {
    written, done := written0, done0;
    var frameSize, fetch;
    buf, nr, frameSize, fetch := FetchFrame(src, buf0, have);
    ghost var buffered := buf[..nr];
    ghost var left := buffered + src.pending;
    assert |left| == have + old(|src.pending|);
    assert fetch.Failed? ==> left == buffered;
    assert nr >= PREFIX_LEN ==> buffered[0] == buf[0];
    if fetch.EndOfStream? {
      StopsWith(dstout, dsterr, wasOut, wasErr, data, src.end, src.endedAlone, done, left, Truncated);
      turn := Stop(written, None);
      return;
    } else if fetch.Failed? {
      StopsUnread(dstout, dsterr, wasOut, wasErr, data, src.end, src.endedAlone, done, left);
      turn := Stop(0, Some(ReadFailed(fetch.code)));
      return;
    } else if fetch.BadKind? {
      StopsWith(dstout, dsterr, wasOut, wasErr, data, src.end, src.endedAlone, done, left, UnknownKind(fetch.kind));
      turn := Stop(0, Some(UnrecognizedHeader(fetch.kind)));
      return;
    }
    nr, written, turn, done := HandleFrame(dstout, dsterr, src, buf, nr, frameSize, written, wasOut, wasErr, data, done);
  }

  /** The second half of the turn, with a whole frame at the front of the buffer. */
  method HandleFrame(dstout: Sink, dsterr: Sink, src: Source, buf: array<byte>, have: nat, frameSize: nat, written0: nat,
                     ghost wasOut: seq<byte>, ghost wasErr: seq<byte>, ghost data: seq<byte>, ghost done0: seq<Frame>)
    returns (nr: nat, written: nat, turn: Turn, ghost done: seq<Frame>)
    requires have <= buf.Length && Complete(buf[..have]) && buf[0] <= SYSTEMERR && FrameSize(buf[..have]) == frameSize
    requires Inv(dstout, dsterr, wasOut, wasErr, data, done0, buf[..have] + src.pending) && written0 == TotalLength(done0)
    modifies dstout, dsterr, buf
    ensures nr <= have
    ensures Reported(if turn.Stop? then turn.err else None, dstout, dsterr, old(dstout.faults), old(dsterr.faults))
    ensures turn.Stop? ==> Promise(dstout, dsterr, wasOut, wasErr, data, src.end, src.endedAlone, turn.written, turn.err)
                           && !EndsReading(turn.err)
    ensures turn.Continue? ==>
              && written == TotalLength(done) && nr < have
              && Inv(dstout, dsterr, wasOut, wasErr, data, done, buf[..nr] + src.pending)
  {
    nr, written, done := have, written0, done0;
    ghost var buffered := buf[..have];
    assert buffered[0] == buf[0];
    if buf[0] == SYSTEMERR {
      CutDaemonError(buffered, src.pending);
      var message := FramePayload(buf, have, frameSize);
      StopsWith(dstout, dsterr, wasOut, wasErr, data, src.end, src.endedAlone, done, buffered + src.pending, DaemonError(message));
      turn := Stop(written, Some(FromDaemon(message)));
      return;
    }
    var nw, ew;
    nw, ew, nr := DeliverFrame(dstout, dsterr, buf, have, frameSize, wasOut, wasErr, data, done, src.pending);
    if ew.Some? {
      turn := Stop(0, Some(WriteFailed(ew.value)));
      return;
    }
    if nw != frameSize {
      turn := Stop(0, Some(ShortWrite));
      return;
    }
    turn := Continue;
    Counted(done, FirstFrame(buffered));
    written := written + nw;
    done := done + [FirstFrame(buffered)];
  }

  /** StdCopy refines the reference decoder for every way the reader splits the stream. */
  method StdCopy(dstout: Sink, dsterr: Sink, src: Source) returns (written: nat, err: Option<CopyError>)
    requires src.Valid()
    modifies dstout, dsterr, src`pending, src`idle, src`endedAlone
    ensures Promise(dstout, dsterr, old(dstout.got), old(dsterr.got), old(src.pending), src.end, src.endedAlone, written, err)
    // A writer's error is returned exactly when it returned that error, a short write exactly
    // when a writer wrote short without an error, and both only at the last write.
    ensures Reported(err, dstout, dsterr, old(dstout.faults), old(dsterr.faults))
    ensures forall code :: err == Some(WriteFailed(code)) <==>
                           || dstout.faults.errors == old(dstout.faults.errors) + [code]
                           || dsterr.faults.errors == old(dsterr.faults.errors) + [code]
    ensures err == Some(ShortWrite) <==>
            dstout.faults.shorts > old(dstout.faults.shorts) || dsterr.faults.shorts > old(dsterr.faults.shorts)
    // It only gives up on the reader when there is nothing left to read.
    ensures EndsReading(err) ==> src.pending == []
  {
    ghost var faultsOut, faultsErr := dstout.faults, dsterr.faults;
    written, err := CopyFrames(dstout, dsterr, src, dstout.got, dsterr.got, src.pending);
    ReportedExactly(err, dstout, dsterr, faultsOut, faultsErr);
  }

  /** The loop of StdCopy, with its buffer. */
  method CopyFrames(dstout: Sink, dsterr: Sink, src: Source, ghost wasOut: seq<byte>, ghost wasErr: seq<byte>,
                    ghost data: seq<byte>)
    returns (written: nat, err: Option<CopyError>)
    requires src.Valid() && wasOut == dstout.got && wasErr == dsterr.got && data == src.pending
    modifies dstout, dsterr, src`pending, src`idle, src`endedAlone
    ensures Promise(dstout, dsterr, wasOut, wasErr, data, src.end, src.endedAlone, written, err)
    ensures Reported(err, dstout, dsterr, old(dstout.faults), old(dsterr.faults))
    ensures EndsReading(err) ==> src.pending == []
  {
    var buf := new byte[STARTING_BUF_LEN](_ => 0);
    var nr: nat := 0;
    written := 0;
    ghost var done: seq<Frame> := [];
    assert buf[..nr] == [];
    NothingPrepended(data);
    NothingDone(dstout, dsterr, data);
    while true
      invariant fresh(buf) && buf.Length >= STARTING_BUF_LEN && nr <= buf.Length
      invariant Inv(dstout, dsterr, wasOut, wasErr, data, done, buf[..nr] + src.pending)
      invariant dstout.faults == old(dstout.faults) && dsterr.faults == old(dsterr.faults)
      invariant written == TotalLength(done)
      decreases nr + |src.pending|
    {
      var turn;
      buf, nr, written, turn, done := CopyFrame(dstout, dsterr, src, buf, nr, written, wasOut, wasErr, data, done);
      if turn.Stop? {
        return turn.written, turn.err;
      }
    }
  }

  /** The faults of the writers leave no choice of the returned error. */
  lemma ReportedExactly(err: Option<CopyError>, dstout: Sink, dsterr: Sink, wasOut: Faults, wasErr: Faults)
    requires Reported(err, dstout, dsterr, wasOut, wasErr) && (dstout == dsterr ==> wasOut == wasErr)
    ensures forall code :: err == Some(WriteFailed(code)) <==>
                           dstout.faults.errors == wasOut.errors + [code] || dsterr.faults.errors == wasErr.errors + [code]
    ensures err == Some(ShortWrite) <==> dstout.faults.shorts > wasOut.shorts || dsterr.faults.shorts > wasErr.shorts
    ensures IsWriteError(err) <==> dstout.faults != wasOut || dsterr.faults != wasErr
  {
    forall code
      ensures err == Some(WriteFailed(code)) <==>
              dstout.faults.errors == wasOut.errors + [code] || dsterr.faults.errors == wasErr.errors + [code]
    {
      Longer(wasOut.errors, code);
      Longer(wasErr.errors, code);
    }
    if IsWriteError(err) && err.value.WriteFailed? {
      Longer(wasOut.errors, err.value.code);
      Longer(wasErr.errors, err.value.code);
    }
  }

  lemma Longer(errors: seq<int>, code: int)
    ensures errors + [code] != errors
    ensures forall other :: errors + [code] == errors + [other] ==> code == other
  {
    assert |errors + [code]| > |errors|;
    forall other | errors + [code] == errors + [other] ensures code == other {
      assert (errors + [code])[|errors|] == (errors + [other])[|errors|];
    }
  }

  /** Round trip: from a stream of valid frames, cut off anywhere inside a further one, and
      however the reader splits it, each sink receives, in order, exactly the payloads of the
      frames meant for it, and the count is that of every payload byte, unless a sink fails. */
  method RoundTrip(dstout: Sink, dsterr: Sink, src: Source, ghost fs: seq<Frame>, ghost last: Frame, ghost k: nat)
    returns (written: nat, err: Option<CopyError>)
    requires src.Valid() && src.end.Eof? && ValidFrames(fs) && ValidFrame(last) && k < |Encode(last)|
    requires src.pending == Mux(fs) + Encode(last)[..k]
    modifies dstout, dsterr, src`pending, src`idle, src`endedAlone
    ensures dstout.faults == old(dstout.faults) && dsterr.faults == old(dsterr.faults) ==>
              && err == None && src.pending == []
              && (dstout != dsterr ==>
                    && dstout.got == old(dstout.got) + Payloads(fs, {0, 1})
                    && dsterr.got == old(dsterr.got) + Payloads(fs, {2}))
              && (dstout == dsterr ==> dstout.got == old(dstout.got) + Payloads(fs, {0, 1, 2}))
              && written == |Payloads(fs, {0, 1})| + |Payloads(fs, {2})|
  {
    CutOff(fs, last, k);
    assert {STDIN, STDOUT} + {STDERR} == {0, 1, 2} && {STDIN, STDOUT} + {} == {0, 1} && {} + {STDERR} == {2};
    written, err := StdCopy(dstout, dsterr, src);
  }

  /** A stream whose frames are followed by a complete error frame returns its message and
      the count so far. */
  lemma ErrorFrameReturned(fs: seq<Frame>, header: seq<byte>, message: seq<byte>, rest: seq<byte>, end: ReadStatus,
                           written: nat, err: Option<CopyError>)
    requires ValidFrames(fs) && |header| == 8 && header[0] == 3
    requires |message| == header[4] as int * 0x1000000 + header[5] as int * 0x10000 + header[6] as int * 0x100 + header[7] as int
    ensures Returns(Mux(fs) + (header + message + rest), end, written, err) <==>
            err == Some(FromDaemon(message)) && written == |Payloads(fs, {0, 1})| + |Payloads(fs, {2})|
  {
    var tail := header + message + rest;
    assert tail[0] == header[0] && FrameSize(tail) == |message|;
    assert tail[8..8 + |message|] == message;
    CutMux(fs, tail);
    PayloadsSplit(fs);
  }

  /** One whose frames are followed by a header of an unknown kind returns that kind and
      counts nothing. */
  lemma UnknownKindReturned(fs: seq<Frame>, header: seq<byte>, rest: seq<byte>, end: ReadStatus,
                            written: nat, err: Option<CopyError>)
    requires ValidFrames(fs) && |header| == 8 && header[0] > 3
    ensures Returns(Mux(fs) + (header + rest), end, written, err) <==>
            err == Some(UnrecognizedHeader(header[0])) && written == 0
  {
    CutMux(fs, header + rest);
  }

  lemma CutOff(fs: seq<Frame>, last: Frame, k: nat)
    requires ValidFrames(fs) && ValidFrame(last) && k < |Encode(last)|
    ensures Cut(Mux(fs) + Encode(last)[..k]).frames == fs
    ensures forall written: nat, err :: Returns(Mux(fs) + Encode(last)[..k], Eof, written, err) <==>
                                        err == None && written == |Payloads(fs, {STDIN, STDOUT})| + |Payloads(fs, {STDERR})|
  {
    var tail := Encode(last)[..k];
    TruncatedFrame(last, k);
    CutMux(fs, tail);
    PayloadsSplit(fs);
  }

  lemma TruncatedFrame(f: Frame, k: nat)
    requires ValidFrame(f) && k < |Encode(f)|
    ensures JudgedAs(Encode(f)[..k], Truncated)
  {
    var tail := Encode(f)[..k];
    if k >= PREFIX_LEN {
      EncodeThenFirst(f, []);
      assert Encode(f) + [] == Encode(f);
      assert FrameSize(tail) == FrameSize(Encode(f)) == |f.payload|;
    }
  }
}
