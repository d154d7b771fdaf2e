/** The wire format of the multiplexed log stream: an eight-byte header (kind, three
    bytes nobody reads, big-endian payload length) followed by the payload. */
module Frames {

  type byte = b: int | 0 <= b < 0x100

  const STDIN: byte := 0
  const STDOUT: byte := 1
  const STDERR: byte := 2
  const SYSTEMERR: byte := 3

  const PREFIX_LEN := 8

  datatype Frame = Frame(kind: byte, pad: seq<byte>, payload: seq<byte>)

  /** A frame a StdWriter can produce: its kind goes to one of the two sinks. */
  predicate ValidFrame(f: Frame) {
    f.kind <= STDERR && |f.pad| == 3 && |f.payload| < 0x1_0000_0000
  }

  predicate ValidFrames(fs: seq<Frame>) {
    forall i :: 0 <= i < |fs| ==> ValidFrame(fs[i])
  }

  function BigEndian32(b0: byte, b1: byte, b2: byte, b3: byte): nat {
    ((b0 * 0x100 + b1) * 0x100 + b2) * 0x100 + b3
  }

  function Uint32Bytes(n: nat): (bs: seq<byte>)
    requires n < 0x1_0000_0000
    ensures |bs| == 4
    ensures BigEndian32(bs[0], bs[1], bs[2], bs[3]) == n
  {
    var upper24 := n / 0x100;
    var upper16 := upper24 / 0x100;
    [upper16 / 0x100, upper16 % 0x100, upper24 % 0x100, n % 0x100]
  }

  lemma BigEndian32Injective(b0: byte, b1: byte, b2: byte, b3: byte)
    ensures BigEndian32(b0, b1, b2, b3) < 0x1_0000_0000
    ensures Uint32Bytes(BigEndian32(b0, b1, b2, b3)) == [b0, b1, b2, b3]
  {
    var upper16 := b0 * 0x100 + b1;
    var upper24 := upper16 * 0x100 + b2;
    var n := upper24 * 0x100 + b3;
    assert n / 0x100 == upper24 && n % 0x100 == b3;
    assert upper24 / 0x100 == upper16 && upper24 % 0x100 == b2;
    assert upper16 / 0x100 == b0 && upper16 % 0x100 == b1;
  }

  /** What the writer side puts on the wire. */
  function Encode(f: Frame): (s: seq<byte>)
    requires ValidFrame(f)
    ensures |s| == PREFIX_LEN + |f.payload|
  {
    [f.kind] + f.pad + Uint32Bytes(|f.payload|) + f.payload
  }

  /** The layout on the wire: the kind, three bytes, the length with its highest byte first,
      then the payload. */
  lemma WireFormat(f: Frame)
    requires ValidFrame(f)
    ensures |Encode(f)| == 8 + |f.payload| && Encode(f)[0] == f.kind && Encode(f)[1..4] == f.pad && Encode(f)[8..] == f.payload
    ensures var s := Encode(f);
            s[4] as int * 0x1000000 + s[5] as int * 0x10000 + s[6] as int * 0x100 + s[7] as int == |f.payload|
  {
    var s, size := Encode(f), Uint32Bytes(|f.payload|);
    assert s[4] == size[0] && s[5] == size[1] && s[6] == size[2] && s[7] == size[3];
  }

  function Mux(fs: seq<Frame>): seq<byte>
    requires ValidFrames(fs)
  {
    if fs == [] then [] else Encode(fs[0]) + Mux(fs[1..])
  }

  function FrameSize(s: seq<byte>): nat
    requires |s| >= PREFIX_LEN
  {
    BigEndian32(s[4], s[5], s[6], s[7])
  }

  /** A whole frame is at the front of the stream. */
  predicate Complete(s: seq<byte>) {
    |s| >= PREFIX_LEN && |s| >= PREFIX_LEN + FrameSize(s)
  }

  /** A whole deliverable frame is at the front of the stream. */
  predicate Deliverable(s: seq<byte>) {
    Complete(s) && s[0] <= STDERR
  }

  function FirstFrame(s: seq<byte>): Frame
    requires Complete(s)
  {
    Frame(s[0], s[1..4], s[PREFIX_LEN..PREFIX_LEN + FrameSize(s)])
  }

  function AfterFirst(s: seq<byte>): seq<byte>
    requires Complete(s)
  {
    s[PREFIX_LEN + FrameSize(s)..]
  }

  /** The deliverable frames at the front of a stream, and the bytes they leave behind. */
  datatype Cutting = Cutting(frames: seq<Frame>, rest: seq<byte>)

  /** The reference decoder. */
  function Cut(s: seq<byte>): Cutting {
    if !Deliverable(s) then Cutting([], s)
    else
      var tail := Cut(AfterFirst(s));
      Cutting([FirstFrame(s)] + tail.frames, tail.rest)
  }

  /** Why decoding stops at a remainder that holds no deliverable frame. */
  datatype Verdict = Truncated | UnknownKind(kind: byte) | DaemonError(message: seq<byte>)

  function Judge(rest: seq<byte>): Verdict
    requires !Deliverable(rest)
  {
    if |rest| < PREFIX_LEN then Truncated
    else if rest[0] > SYSTEMERR then UnknownKind(rest[0])
    else if !Complete(rest) then Truncated
    else DaemonError(FirstFrame(rest).payload)
  }

  /** The payload bytes of the frames of the given kinds, in order. */
  function Payloads(fs: seq<Frame>, kinds: set<byte>): seq<byte> {
    if fs == [] then []
    else if fs[0].kind in kinds then fs[0].payload + Payloads(fs[1..], kinds)
    else Payloads(fs[1..], kinds)
  }

  function TotalLength(fs: seq<Frame>): nat {
    if fs == [] then 0 else |fs[0].payload| + TotalLength(fs[1..])
  }

  // ----- Mux and Cut are inverse to each other

  lemma EncodeThenFirst(f: Frame, rest: seq<byte>)
    requires ValidFrame(f)
    ensures Deliverable(Encode(f) + rest)
    ensures FirstFrame(Encode(f) + rest) == f && AfterFirst(Encode(f) + rest) == rest
  {
    var s := Encode(f) + rest;
    var size := Uint32Bytes(|f.payload|);
    assert s[4] == size[0] && s[5] == size[1] && s[6] == size[2] && s[7] == size[3];
    assert s[1..4] == f.pad;
  }

  lemma FirstThenEncode(s: seq<byte>)
    requires Deliverable(s)
    ensures ValidFrame(FirstFrame(s)) && Encode(FirstFrame(s)) + AfterFirst(s) == s
  {
    BigEndian32Injective(s[4], s[5], s[6], s[7]);
    var n := PREFIX_LEN + FrameSize(s);
    Header(s);
    Slices(s, PREFIX_LEN, n);
    assert Encode(FirstFrame(s)) == s[..PREFIX_LEN] + s[PREFIX_LEN..n];
  }

  lemma Header(s: seq<byte>)
    requires |s| >= PREFIX_LEN
    ensures [s[0]] + s[1..4] + [s[4], s[5], s[6], s[7]] == s[..PREFIX_LEN]
  {
  }

  lemma Slices<T>(s: seq<T>, i: nat, j: nat)
    requires i <= j <= |s|
    ensures s[..i] + s[i..j] == s[..j] && s[..j] + s[j..] == s
  {
  }

  /** Decoding a multiplexed stream gives back its frames, whatever undeliverable
      bytes come after them. */
  lemma {:induction false} CutMux(fs: seq<Frame>, rest: seq<byte>)
    requires ValidFrames(fs) && !Deliverable(rest)
    ensures Cut(Mux(fs) + rest) == Cutting(fs, rest)
  {
    if fs == [] {
      assert Mux(fs) + rest == rest;
    } else {
      CutMux(fs[1..], rest);
      var tail := Mux(fs[1..]) + rest;
      EncodeThenFirst(fs[0], tail);
      var s := Encode(fs[0]) + tail;
      assert Mux(fs) + rest == s;
      assert Cut(s).frames == [fs[0]] + fs[1..] == fs;
    }
  }

  lemma MuxCons(f: Frame, fs: seq<Frame>, rest: seq<byte>)
    requires ValidFrame(f) && ValidFrames(fs)
    ensures ValidFrames([f] + fs)
    ensures Mux([f] + fs) + rest == Encode(f) + (Mux(fs) + rest)
  {
    assert ([f] + fs)[1..] == fs;
  }

  /** Multiplexing what was decoded gives back the stream: no byte is lost, moved or
      invented, and decoding only stops where no deliverable frame is left. */
  lemma {:induction false} MuxCut(s: seq<byte>)
    ensures ValidFrames(Cut(s).frames) && !Deliverable(Cut(s).rest)
    ensures Mux(Cut(s).frames) + Cut(s).rest == s
    decreases |s|
  {
    if !Deliverable(s) {
      assert [] + s == s;
    } else {
      FirstThenEncode(s);
      MuxCut(AfterFirst(s));
      var tail := Cut(AfterFirst(s));
      MuxCons(FirstFrame(s), tail.frames, tail.rest);
    }
  }

  /** Cutting(fs, rest) is the decoding of s exactly when fs is a list of valid frames
      and rest an undeliverable remainder that together make up s. */
  lemma CutCharacterised(s: seq<byte>, fs: seq<Frame>, rest: seq<byte>)
    ensures Cut(s) == Cutting(fs, rest) <==>
            ValidFrames(fs) && !Deliverable(rest) && Mux(fs) + rest == s
  {
    MuxCut(s);
    if ValidFrames(fs) && !Deliverable(rest) && Mux(fs) + rest == s {
      CutMux(fs, rest);
    }
  }

  // ----- Facts the stream copier needs while it delivers one frame at a time

  lemma {:induction false} PayloadsAppend(fs: seq<Frame>, gs: seq<Frame>, kinds: set<byte>)
    ensures Payloads(fs + gs, kinds) == Payloads(fs, kinds) + Payloads(gs, kinds)
  {
    if fs == [] {
      assert fs + gs == gs;
    } else {
      PayloadsAppend(fs[1..], gs, kinds);
      ConsAppend(fs, gs);
      var rest, more := Payloads(fs[1..], kinds), Payloads(gs, kinds);
      assert fs[0].payload + (rest + more) == fs[0].payload + rest + more;
    }
  }

  lemma {:induction false} LengthsAppend(fs: seq<Frame>, gs: seq<Frame>)
    ensures TotalLength(fs + gs) == TotalLength(fs) + TotalLength(gs)
  {
    if fs == [] {
      assert fs + gs == gs;
    } else {
      LengthsAppend(fs[1..], gs);
      ConsAppend(fs, gs);
    }
  }

  lemma ConsAppend(fs: seq<Frame>, gs: seq<Frame>)
    requires fs != []
    ensures (fs + gs)[0] == fs[0] && (fs + gs)[1..] == fs[1..] + gs
  {
  }

  lemma PayloadsOne(f: Frame, kinds: set<byte>)
    ensures Payloads([f], kinds) == if f.kind in kinds then f.payload else []
    ensures TotalLength([f]) == |f.payload|
  {
    assert [f][1..] == [];
  }

  /** Every payload byte of a valid list goes to exactly one of the two sinks. */
  lemma {:induction false} PayloadsSplit(fs: seq<Frame>)
    requires ValidFrames(fs)
    ensures |Payloads(fs, {STDIN, STDOUT})| + |Payloads(fs, {STDERR})| == TotalLength(fs)
    ensures |Payloads(fs, {STDIN, STDOUT, STDERR})| == TotalLength(fs)
  {
    if fs != [] {
      PayloadsSplit(fs[1..]);
      var k := fs[0].kind;
      assert ValidFrame(fs[0]);
      assert k in {STDIN, STDOUT} <==> k !in {STDERR};
    }
  }
}
