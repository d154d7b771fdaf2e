/** The line-buffering log writer of event/manager.go. Messages are strings; what a logger
    sends is recorded as the list of messages with the step they are labelled with. */
module LogWriter {
  import opened Seqs

  const BUILD_PROGRESS := "build-progress"

  datatype Sent = Sent(message: string, step: string)

  predicate EndsLine(b: string) {
    b != "" && b[|b| - 1] == '\n'
  }

  /** The message is a progress line: it starts with "Progress ". */
  predicate IsProgress(message: string) {
    "Progress " <= message
  }

  lemma ProgressLines(message: string)
    ensures IsProgress(message) <==> |message| >= 9 && message[..9] == "Progress "
  {
  }

  /** Marshalling a message into the writer's format; the identity when no format is set. */
  type Format = string -> string

  ghost predicate IsIdentity(f: Format) {
    forall m :: f(m) == m
  }

  class LoggerWriter {
    const step: string
    var fmt: Format
    var tmp: string
    var lastMessage: string
    /** What the logger behind this writer has sent. */
    var sent: seq<Sent>
    /** Everything written so far, the whole lines it was assembled into, those lines as
        they were formatted, and whether no format was ever set. */
    ghost var written: string
    ghost var raw: seq<string>
    ghost var lines: seq<string>
    ghost var plain: bool

    constructor (step: string)
      ensures Valid() && this.step == step && plain && sent == [] && written == ""
    {
      this.step, fmt, tmp, lastMessage, sent := step, m => m, "", "", [];
      written, raw, lines, plain := "", [], [], true;
    }

    /** No byte is lost, moved or invented: the lines, each of them whole, and what is pending
        make up what was written; and what is sent is a function of the lines alone. */
    ghost predicate Valid()
      reads this
    {
      && Conserves(written, raw, tmp)
      && |lines| == |raw| && (plain ==> lines == raw && IsIdentity(fmt))
      && sent == Emitted(step, lines)
      && lastMessage == Last(lines)
    }

    method SetFormat(f: Format)
      requires Valid()
      modifies this`fmt, this`plain
      ensures Valid() && fmt == f
    {
      fmt, plain := f, false;
    }

    method Write(b: string) returns (n: nat)
      requires Valid()
      modifies this
      ensures Valid() && fmt == old(fmt) && plain == old(plain) && n == |b| && written == old(written) + b
      ensures !EndsLine(b) ==> tmp == old(tmp) + b && lines == old(lines)
      ensures EndsLine(b) ==> tmp == "" && lines == old(lines) + [fmt(old(tmp) + b)]
    {
      if |b| > 0 {
        if !EndsLine(b) {
          ConservesPart(written, raw, tmp, b);
          written := written + b;
          tmp := tmp + b;
          return |b|;
        }
        EndLine(b);
        return |b|;
      }
      NothingAppended(written);
      NothingAppended(tmp);
      return |b|;
    }

    /** The rest of Write, for bytes that end a line. */
    method EndLine(b: string)
      requires Valid() && EndsLine(b)
      modifies this
      ensures Valid() && fmt == old(fmt) && plain == old(plain) && written == old(written) + b
      ensures tmp == "" && lines == old(lines) + [fmt(old(tmp) + b)]
    {
      ghost var line := tmp + b;
      ConservesLine(written, raw, tmp, b, line);
      var message := Assemble(b);
      written, raw := written + b, raw + [line];
      message := fmt(message);
      assert plain ==> message == line;
      Send(message);
    }

    /** What is pending and the end of its line, as one message. */
    method Assemble(b: string) returns (message: string)
      modifies this`tmp
      ensures message == old(tmp) + b && tmp == ""
    {
      if |tmp| > 0 {
        message := tmp + b;
        tmp := "";
      } else {
        assert tmp == "" && "" + b == b;
        message := b;
      }
    }

    /** The second half of Write, for one whole, formatted message. */
    method Send(message: string)
      requires sent == Emitted(step, lines) && lastMessage == Last(lines)
      modifies this`sent, this`lastMessage, this`lines
      ensures sent == Emitted(step, lines) && lastMessage == Last(lines)
      ensures lines == old(lines) + [message]
    {
      EmittedSnoc(step, lines, message);
      lines := lines + [message];
      if step == BUILD_PROGRESS {
        if IsProgress(message) && IsProgress(lastMessage) {
          lastMessage := message;
          return;
        }
        // The label, not the message, is the last progress line.
        if !IsProgress(message) && IsProgress(lastMessage) {
          sent := sent + [Sent(message, lastMessage)];
        }
      }
      sent := sent + [Sent(message, step)];
      lastMessage := message;
    }

    /** Conservation over every run: without a format and for a step other than
        build-progress, the messages sent and what is pending are what was written. */
    lemma Conserved()
      requires Valid() && plain && step != BUILD_PROGRESS
      ensures Concat(Messages(sent)) + tmp == written
      ensures forall i :: 0 <= i < |sent| ==>
                            var m := sent[i].message; m != "" && m[|m| - 1] == '\n' && sent[i].step == step
    {
      PlainStepsSendEveryLine(step, lines);
      assert forall i :: 0 <= i < |sent| ==> Messages(sent)[i] == sent[i].message;
    }
  }

  function Last(lines: seq<string>): string {
    if lines == [] then "" else lines[|lines| - 1]
  }

  /** What one more line makes the writer send. */
  function Step(step: string, last: string, message: string): seq<Sent> {
    if step != BUILD_PROGRESS then [Sent(message, step)]
    else if IsProgress(message) && IsProgress(last) then []
    else if IsProgress(last) then [Sent(message, last), Sent(message, step)]
    else [Sent(message, step)]
  }

  function Emitted(step: string, lines: seq<string>): seq<Sent> {
    if lines == [] then []
    else
      var front := lines[..|lines| - 1];
      Emitted(step, front) + Step(step, Last(front), Last(lines))
  }

  lemma EmittedSnoc(step: string, lines: seq<string>, message: string)
    ensures Emitted(step, lines + [message]) == Emitted(step, lines) + Step(step, Last(lines), message)
    ensures Last(lines + [message]) == message
  {
    assert (lines + [message])[..|lines|] == lines;
  }

  // ----- Conservation

  /** The whole lines and the pending part make up what was written. */
  ghost predicate Conserves(written: string, raw: seq<string>, tmp: string) {
    written == Concat(raw) + tmp && forall i :: 0 <= i < |raw| ==> EndsLine(raw[i])
  }

  lemma ConservesPart(written: string, raw: seq<string>, tmp: string, b: string)
    requires Conserves(written, raw, tmp)
    ensures Conserves(written + b, raw, tmp + b)
  {
    Assoc(Concat(raw), tmp, b);
  }

  lemma ConservesLine(written: string, raw: seq<string>, tmp: string, b: string, line: string)
    requires Conserves(written, raw, tmp) && EndsLine(b) && line == tmp + b
    ensures Conserves(written + b, raw + [line], "")
  {
    Assoc(Concat(raw), tmp, b);
    EndsLineAppended(tmp, b);
    ConcatSnoc(raw, line);
    NothingAppended(Concat(raw + [line]));
    LinesEnd(raw, line);
  }

  lemma LinesEnd(raw: seq<string>, line: string)
    requires EndsLine(line) && forall i :: 0 <= i < |raw| ==> EndsLine(raw[i])
    ensures forall i :: 0 <= i < |raw + [line]| ==> EndsLine((raw + [line])[i])
  {
  }

  lemma EndsLineAppended(tmp: string, b: string)
    requires EndsLine(b)
    ensures EndsLine(tmp + b)
  {
    assert (tmp + b)[|tmp + b| - 1] == b[|b| - 1];
  }

  function Concat(parts: seq<string>): string {
    if parts == [] then "" else Concat(parts[..|parts| - 1]) + parts[|parts| - 1]
  }

  function Messages(sent: seq<Sent>): seq<string> {
    seq(|sent|, i requires 0 <= i < |sent| => sent[i].message)
  }

  lemma ConcatSnoc(parts: seq<string>, p: string)
    ensures Concat(parts + [p]) == Concat(parts) + p
  {
    assert (parts + [p])[..|parts|] == parts;
  }

  /** A writer for any other step than build-progress sends each line once, in order. */
  lemma {:induction false} PlainStepsSendEveryLine(step: string, lines: seq<string>)
    requires step != "build-progress"
    ensures Messages(Emitted(step, lines)) == lines
    ensures forall i :: 0 <= i < |Emitted(step, lines)| ==> Emitted(step, lines)[i].step == step
  {
    if lines != [] {
      var front := lines[..|lines| - 1];
      PlainStepsSendEveryLine(step, front);
      assert Messages(Emitted(step, lines)) == Messages(Emitted(step, front)) + [Last(lines)];
    }
  }

  // ----- Progress lines

  /** A build-progress writer never sends two progress lines in a row. */
  lemma {:induction false} NoTwoProgressLines(lines: seq<string>, i: nat)
    requires i + 1 < |Emitted(BUILD_PROGRESS, lines)|
    ensures var sent := Emitted(BUILD_PROGRESS, lines);
            !(IsProgress(sent[i].message) && IsProgress(sent[i + 1].message))
  {
    var front := lines[..|lines| - 1];
    var earlier := Emitted(BUILD_PROGRESS, front);
    LastSentIsLastLine(front);
    if i + 1 < |earlier| {
      NoTwoProgressLines(front, i);
    }
  }

  /** The last message sent is a progress line exactly when the last line was one. */
  lemma {:induction false} LastSentIsLastLine(lines: seq<string>)
    ensures var sent := Emitted(BUILD_PROGRESS, lines);
            && (sent == [] <==> lines == [])
            && (sent != [] ==> (IsProgress(sent[|sent| - 1].message) <==> IsProgress(Last(lines))))
  {
    if lines != [] {
      LastSentIsLastLine(lines[..|lines| - 1]);
    }
  }

  /** Line i comes right after a progress line. */
  predicate AfterProgress(lines: seq<string>, i: nat)
    requires i < |lines|
  {
    i > 0 && IsProgress(lines[i - 1])
  }

  /** How often a build-progress writer sends line i: not at all if it is progress after
      progress, twice if it is the first other line after progress, once otherwise. */
  function Times(lines: seq<string>, i: nat): nat
    requires i < |lines|
  {
    if !AfterProgress(lines, i) then 1 else if IsProgress(lines[i]) then 0 else 2
  }

  /** For each message that was sent, the line it is. */
  function Origins(lines: seq<string>): seq<nat> {
    if lines == [] then []
    else
      var i := |lines| - 1;
      Repeat(Origins(lines[..i]), i, Times(lines, i))
  }

  /** One position, up to twice, after others. */
  function Repeat(origins: seq<nat>, i: nat, times: nat): seq<nat> {
    if times == 0 then origins else if times == 1 then origins + [i] else origins + [i, i]
  }

  /** Positions below n, in order. */
  ghost predicate InOrder(origins: seq<nat>, n: nat) {
    && (forall k :: 0 <= k < |origins| ==> origins[k] < n)
    && (forall k, l :: 0 <= k < l < |origins| ==> origins[k] <= origins[l])
  }

  /** Each message sent is its line; its label is the step, except for the first of two
      sendings, which is labelled with the progress line before. */
  ghost predicate Places(sent: seq<Sent>, lines: seq<string>, origins: seq<nat>)
    requires InOrder(origins, |lines|)
  {
    |origins| == |sent| && forall k :: 0 <= k < |sent| ==> sent[k] == Sent(lines[origins[k]], Label(lines, origins, k))
  }

  /** Each line's position occurs as often as the line is sent. */
  ghost predicate Repeats(origins: seq<nat>, lines: seq<string>) {
    forall i: nat :: i < |lines| ==> multiset(origins)[i] == Times(lines, i)
  }

  function Label(lines: seq<string>, origins: seq<nat>, k: nat): string
    requires k < |origins| && origins[k] < |lines|
  {
    if k + 1 < |origins| && origins[k + 1] == origins[k] > 0 then lines[origins[k] - 1] else BUILD_PROGRESS
  }

  /** Exactly which lines a build-progress writer sends, how often and how labelled. */
  lemma SentExactly(lines: seq<string>)
    ensures InOrder(Origins(lines), |lines|)
    ensures Places(Emitted(BUILD_PROGRESS, lines), lines, Origins(lines))
    ensures Repeats(Origins(lines), lines)
  {
    var sent, origins := SentSoFar(lines);
  }

  lemma {:induction false} SentSoFar(lines: seq<string>) returns (sent: seq<Sent>, origins: seq<nat>)
    ensures sent == Emitted(BUILD_PROGRESS, lines) && origins == Origins(lines)
    ensures InOrder(origins, |lines|) && Places(sent, lines, origins) && Repeats(origins, lines)
  {
    if lines == [] {
      sent, origins := [], [];
    } else {
      var front, line := lines[..|lines| - 1], Last(lines);
      FrontAndLast(lines);
      sent, origins := SentSoFar(front);
      sent, origins := SentStep(sent, origins, front, line, lines);
    }
  }

  lemma SentStep(sent: seq<Sent>, origins: seq<nat>, front: seq<string>, line: string, lines: seq<string>)
    returns (sent': seq<Sent>, origins': seq<nat>)
    requires lines == front + [line]
    requires sent == Emitted(BUILD_PROGRESS, front) && origins == Origins(front)
    requires InOrder(origins, |front|) && Places(sent, front, origins) && Repeats(origins, front)
    ensures sent' == Emitted(BUILD_PROGRESS, lines) && origins' == Origins(lines)
    ensures InOrder(origins', |lines|) && Places(sent', lines, origins') && Repeats(origins', lines)
  {
    sent' := sent + Step(BUILD_PROGRESS, Last(front), line);
    origins' := Repeat(origins, |front|, Times(lines, |front|));
    EmittedSnoc(BUILD_PROGRESS, front, line);
    OriginsSnoc(front, line);
    TimesSnoc(front, origins, line);
    PlacesSnoc(sent, front, origins, line);
  }

  lemma OriginsSnoc(front: seq<string>, line: string)
    ensures Origins(front + [line]) == Repeat(Origins(front), |front|, Times(front + [line], |front|))
  {
    assert (front + [line])[..|front|] == front;
  }

  lemma TimesSnoc(front: seq<string>, origins: seq<nat>, line: string)
    requires InOrder(origins, |front|)
    requires Repeats(origins, front)
    ensures Repeats(Repeat(origins, |front|, Times(front + [line], |front|)), front + [line])
  {
    var lines, n := front + [line], |front|;
    forall i: nat | i <= n ensures multiset(Repeat(origins, n, Times(lines, n)))[i] == Times(lines, i) {
      MultisetRepeat(origins, n, Times(lines, n), i);
      if i < n {
        assert Times(lines, i) == Times(front, i);
      }
    }
  }

  lemma MultisetRepeat(origins: seq<nat>, n: nat, times: nat, i: nat)
    requires InOrder(origins, n) && times <= 2 && i <= n
    ensures multiset(Repeat(origins, n, times))[i] == if i == n then times else multiset(origins)[i]
  {
    assert n !in origins;
    assert n !in multiset(origins);
  }

  lemma PlacesSnoc(sent: seq<Sent>, front: seq<string>, origins: seq<nat>, line: string)
    requires InOrder(origins, |front|) && Places(sent, front, origins)
    ensures var all := Repeat(origins, |front|, Times(front + [line], |front|));
            && InOrder(all, |front| + 1)
            && Places(sent + Step(BUILD_PROGRESS, Last(front), line), front + [line], all)
  {
    var n := |front|;
    var times := Times(front + [line], n);
    var all := Repeat(origins, n, times);
    assert times == |Step(BUILD_PROGRESS, Last(front), line)|;
    forall k: nat | k < |origins| ensures Label(front + [line], all, k) == Label(front, origins, k) {
    }
  }

  /** Of a run of progress lines exactly the first is sent; so the last one, which the
      writer means to send, goes out exactly when the run has length one. */
  lemma FirstOfRunOnly(lines: seq<string>, from: nat, to: nat, i: nat)
    requires from <= i < to <= |lines| && !AfterProgress(lines, from)
    requires forall k :: from <= k < to ==> IsProgress(lines[k])
    ensures i in Origins(lines) <==> i == from
  {
    SentExactly(lines);
    var origins := Origins(lines);
    assert i in origins <==> i in multiset(origins);
    assert i > from ==> IsProgress(lines[i - 1]);
  }

  /** A run of two: its last line only shows up as a label, and the line after it twice. */
  lemma LastProgressUnsent(one: string, two: string, done: string)
    requires IsProgress(one) && IsProgress(two) && !IsProgress(done)
    ensures Emitted(BUILD_PROGRESS, [one, two, done]) ==
            [Sent(one, BUILD_PROGRESS), Sent(done, two), Sent(done, BUILD_PROGRESS)]
  {
    EmittedNext([], one, [one]);
    EmittedNext([one], two, [one, two]);
    EmittedNext([one, two], done, [one, two, done]);
    assert Emitted(BUILD_PROGRESS, []) == [];
  }

  lemma EmittedNext(front: seq<string>, line: string, lines: seq<string>)
    requires lines == front + [line]
    ensures Emitted(BUILD_PROGRESS, lines) ==
            Emitted(BUILD_PROGRESS, front) + Step(BUILD_PROGRESS, Last(front), line)
    ensures Last(lines) == line
  {
    EmittedSnoc(BUILD_PROGRESS, front, line);
  }

  // ----- When a build-progress writer is faithful

  function CountKind(messages: seq<string>, progress: bool): nat {
    if messages == [] then 0
    else CountKind(messages[..|messages| - 1], progress) + if IsProgress(Last(messages)) == progress then 1 else 0
  }

  /** The lines after a progress line that are progress lines too (or are not). */
  function CountAfter(lines: seq<string>, progress: bool): nat {
    if lines == [] then 0
    else
      var n := |lines| - 1;
      CountAfter(lines[..n], progress)
      + if AfterProgress(lines, n) && IsProgress(lines[n]) == progress then 1 else 0
  }

  lemma CountKindSnoc(messages: seq<string>, m: string, progress: bool)
    ensures CountKind(messages + [m], progress) ==
            CountKind(messages, progress) + if IsProgress(m) == progress then 1 else 0
  {
    assert (messages + [m])[..|messages|] == messages;
  }

  lemma MessagesStep(sent: seq<Sent>, last: string, line: string)
    ensures Messages(sent + Step(BUILD_PROGRESS, last, line)) ==
            if !IsProgress(last) then Messages(sent) + [line]
            else if IsProgress(line) then Messages(sent)
            else Messages(sent) + [line] + [line]
  {
  }

  /** Progress lines after progress are missing, and other lines after progress too many. */
  lemma {:induction false} KindCounts(lines: seq<string>)
    ensures var messages := Messages(Emitted(BUILD_PROGRESS, lines));
            && CountKind(messages, true) == CountKind(lines, true) - CountAfter(lines, true)
            && CountKind(messages, false) == CountKind(lines, false) + CountAfter(lines, false)
  {
    if lines != [] {
      var front, line := lines[..|lines| - 1], Last(lines);
      KindCounts(front);
      CountKindStep(Emitted(BUILD_PROGRESS, front), Last(front), line, true);
      CountKindStep(Emitted(BUILD_PROGRESS, front), Last(front), line, false);
    }
  }

  lemma CountKindStep(sent: seq<Sent>, last: string, line: string, progress: bool)
    ensures CountKind(Messages(sent + Step(BUILD_PROGRESS, last, line)), progress) ==
            CountKind(Messages(sent), progress) +
            if IsProgress(line) != progress then 0 else if !IsProgress(last) then 1 else if progress then 0 else 2
  {
    MessagesStep(sent, last, line);
    CountKindSnoc(Messages(sent), line, progress);
    CountKindSnoc(Messages(sent) + [line], line, progress);
  }

  lemma {:induction false} NoneAfter(lines: seq<string>, i: nat)
    requires CountAfter(lines, true) == CountAfter(lines, false) == 0 && i < |lines|
    ensures !AfterProgress(lines, i)
  {
    var n := |lines| - 1;
    if i < n {
      NoneAfter(lines[..n], i);
    }
  }

  lemma {:induction false} FaithfulWithoutRuns(lines: seq<string>)
    requires OnlyLastIsProgress(lines)
    ensures Messages(Emitted(BUILD_PROGRESS, lines)) == lines
  {
    if lines != [] {
      var front := lines[..|lines| - 1];
      FaithfulWithoutRuns(front);
      MessagesStep(Emitted(BUILD_PROGRESS, front), Last(front), Last(lines));
      assert lines == front + [Last(lines)];
    }
  }

  /** A build-progress writer sends every line once, in order, exactly when no line but the
      last is a progress line. */
  lemma FaithfulExactly(lines: seq<string>)
    ensures Messages(Emitted("build-progress", lines)) == lines <==> OnlyLastIsProgress(lines)
  {
    if Messages(Emitted(BUILD_PROGRESS, lines)) == lines {
      FaithfulHasNoRuns(lines);
    }
    if OnlyLastIsProgress(lines) {
      FaithfulWithoutRuns(lines);
    }
  }

  ghost predicate OnlyLastIsProgress(lines: seq<string>) {
    forall i :: 0 <= i < |lines| - 1 ==> !IsProgress(lines[i])
  }

  lemma FaithfulHasNoRuns(lines: seq<string>)
    requires Messages(Emitted(BUILD_PROGRESS, lines)) == lines
    ensures OnlyLastIsProgress(lines)
  {
    KindCounts(lines);
    assert CountAfter(lines, true) == 0 && CountAfter(lines, false) == 0;
    forall i | 0 <= i < |lines| - 1 ensures !IsProgress(lines[i]) {
      NoneAfter(lines, i + 1);
    }
  }
}
