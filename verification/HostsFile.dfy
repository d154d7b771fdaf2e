/** The hosts-file editor (util/hosts.go): merging an entry, adding a section, removing it. */
module HostsFile {
  import opened Wrappers
  import opened HostsLines

  const START_OF_SECTION := "# Generate by Kato. DO NOT EDIT"
  const END_OF_SECTION := "# End of Section"

  // ----- Positions

  /** Line i is the first entry for the address. */
  ghost predicate IsPosition(lines: seq<HostsLine>, ip: string, p: int) {
    && -1 <= p < |lines|
    && (p >= 0 ==> Matches(lines[p], ip))
    && forall i :: 0 <= i < (if p == -1 then |lines| else p) ==> !Matches(lines[i], ip)
  }

  predicate Matches(line: HostsLine, ip: string) {
    !IsComment(line.raw) && line.raw != "" && line.ip == ip
  }

  /** The first line from i on with the given text; |lines| if there is none. */
  function FirstRaw(lines: seq<HostsLine>, raw: string, i: nat): (p: nat)
    requires i <= |lines|
    ensures i <= p <= |lines|
    ensures forall k :: i <= k < p ==> lines[k].raw != raw
    ensures p < |lines| ==> lines[p].raw == raw
    decreases |lines| - i
  {
    if i == |lines| || lines[i].raw == raw then i else FirstRaw(lines, raw, i + 1)
  }

  /** What a hosts line's hosts become when more are added. */
  function Merge(hosts: seq<string>, more: seq<string>): seq<string> {
    if more == [] then hosts
    else
      var front, last := Merge(hosts, more[..|more| - 1]), more[|more| - 1];
      if last in front then front else front + [last]
  }

  function ParseAll(raws: seq<string>, validIP: string -> bool): seq<HostsLine> {
    seq(|raws|, i requires 0 <= i < |raws| => NewHostsLine(raws[i], validIP))
  }

  /** What removing the section between two markers leaves; an error if it does not end. */
  function Without(lines: seq<HostsLine>, first: string, last: string): Option<seq<HostsLine>> {
    var start := FirstRaw(lines, first, 0);
    if start == |lines| then Some(lines)
    else
      var end := FirstRaw(lines, last, start + 1);
      if end == |lines| then None else Some(lines[..start] + lines[end + 1..])
  }

  function CleanupOf(lines: seq<HostsLine>): Option<seq<HostsLine>> {
    Without(lines, START_OF_SECTION, END_OF_SECTION)
  }

  /** Every line is its text, parsed. */
  ghost predicate Parsed(lines: seq<HostsLine>, validIP: string -> bool) {
    forall i :: 0 <= i < |lines| ==> IsParsed(lines[i], validIP)
  }

  predicate IsParsed(line: HostsLine, validIP: string -> bool) {
    line == NewHostsLine(line.raw, validIP)
  }

  class Hosts {
    var lines: seq<HostsLine>
    const validIP: string -> bool

    constructor (raws: seq<string>, validIP: string -> bool)
      ensures Valid() && lines == ParseAll(raws, validIP) && this.validIP == validIP
    {
      this.lines, this.validIP := ParseAll(raws, validIP), validIP;
    }

    ghost predicate Valid()
      reads this
    {
      Parsed(lines, validIP)
    }

    method GetIPPosition(ip: string) returns (p: int)
      ensures IsPosition(lines, ip, p)
    {
      for i := 0 to |lines|
        invariant forall k :: 0 <= k < i ==> !Matches(lines[k], ip)
      {
        var line := lines[i];
        if !IsComment(line.raw) && line.raw != "" {
          if line.ip == ip {
            return i;
          }
        }
      }
      return -1;
    }

    method Add(ip: string, hosts: seq<string>)
      requires Valid()
      modifies this
      ensures Valid()
      ensures exists p :: IsPosition(old(lines), ip, p) && lines == Added(old(lines), p, ip, hosts, validIP)
    {
      var position := GetIPPosition(ip);
      ghost var before := lines;
      if position == -1 {
        var raw := BuildRawLine(ip, hosts);
        lines := lines + [NewHostsLine(raw, validIP)];
      } else {
        var newHosts := lines[position].hosts;
        for i := 0 to |hosts|
          invariant newHosts == Merge(lines[position].hosts, hosts[..i])
        {
          assert hosts[..i + 1][..i] == hosts[..i];
          if hosts[i] in newHosts {
            continue;
          }
          newHosts := newHosts + [hosts[i]];
        }
        assert hosts[..|hosts|] == hosts;
        var raw := BuildRawLine(ip, newHosts);
        lines := lines[position := NewHostsLine(raw, validIP)];
      }
      assert IsPosition(before, ip, position) && lines == Added(before, position, ip, hosts, validIP);
    }

    method AddLines(raws: seq<string>)
      requires Valid()
      modifies this
      ensures Valid() && lines == old(lines) + ParseAll(raws, validIP)
    {
      for i := 0 to |raws|
        invariant lines == old(lines) + ParseAll(raws[..i], validIP)
      {
        assert ParseAll(raws[..i + 1], validIP) == ParseAll(raws[..i], validIP) + [NewHostsLine(raws[i], validIP)];
        lines := lines + [NewHostsLine(raws[i], validIP)];
      }
      assert raws[..|raws|] == raws;
    }

    /** The position of the first line with the given text from `from` on, relative to it. */
    method PositionFrom(raw: string, from: nat) returns (p: int)
      requires from <= |lines|
      ensures var f := FirstRaw(lines, raw, from); p == if f == |lines| then -1 else f - from
    {
      for i := from to |lines|
        invariant FirstRaw(lines, raw, from) == FirstRaw(lines, raw, i)
      {
        if lines[i].raw == raw {
          return i - from;
        }
      }
      return -1;
    }

    method Cleanup() returns (ok: bool)
      requires Valid()
      modifies this
      ensures Valid() && ok == CleanupOf(old(lines)).Some?
      ensures lines == if ok then CleanupOf(old(lines)).value else old(lines)
    {
      ok := Remove(START_OF_SECTION, END_OF_SECTION);
    }

    /** Cleanup, for any two markers. */
    method Remove(first: string, last: string) returns (ok: bool)
      requires Valid()
      modifies this
      ensures Valid() && ok == Without(old(lines), first, last).Some?
      ensures lines == if ok then Without(old(lines), first, last).value else old(lines)
    {
      var start := PositionFrom(first, 0);
      if start == -1 {
        return true;
      }
      var end := PositionFrom(last, start + 1);
      if end == -1 {
        return false;
      }
      end := end + start + 1;
      Removed(lines, first, last, start, end, validIP);
      // Cleanup's own case for a section that ends the file cannot arise: `end` is the index
      // of a line, and nothing follows it then.
      lines := lines[..start] + lines[end + 1..];
      return true;
    }
  }

  lemma Removed(lines: seq<HostsLine>, first: string, last: string, start: nat, end: nat, validIP: string -> bool)
    requires Parsed(lines, validIP)
    requires start == FirstRaw(lines, first, 0) < |lines| && end == FirstRaw(lines, last, start + 1) < |lines|
    ensures Without(lines, first, last) == Some(lines[..start] + lines[end + 1..])
    ensures Parsed(lines[..start] + lines[end + 1..], validIP)
  {
    PartsParsed(lines, validIP, start, end + 1);
  }

  lemma PartsParsed(lines: seq<HostsLine>, validIP: string -> bool, i: nat, j: nat)
    requires Parsed(lines, validIP) && i <= j <= |lines|
    ensures Parsed(lines[..i] + lines[j..], validIP)
  {
    var parts := lines[..i] + lines[j..];
    forall k | 0 <= k < |parts| ensures IsParsed(parts[k], validIP) {
      assert IsParsed(if k < i then lines[k] else lines[k - i + j], validIP);
    }
  }

  // ----- Adding an entry

  function Added(lines: seq<HostsLine>, p: int, ip: string, hosts: seq<string>, validIP: string -> bool): seq<HostsLine>
    requires -1 <= p < |lines|
  {
    if p == -1 then lines + [NewHostsLine(Join(ip, hosts), validIP)]
    else lines[p := NewHostsLine(Join(ip, Merge(lines[p].hosts, hosts)), validIP)]
  }

  lemma {:induction false} MergeFacts(hosts: seq<string>, more: seq<string>)
    ensures hosts <= Merge(hosts, more)
    ensures forall h :: h in Merge(hosts, more) <==> h in hosts || h in more
    ensures forall i, j :: |hosts| <= i < |Merge(hosts, more)| && 0 <= j < i ==>
                             Merge(hosts, more)[j] != Merge(hosts, more)[i]
    ensures Tokens(hosts) && Tokens(more) ==> Tokens(Merge(hosts, more))
  {
    if more != [] {
      var n := |more| - 1;
      MergeFacts(hosts, more[..n]);
      assert more == more[..n] + [more[n]];
    }
  }

  /** New hosts are added one after the other, each at the end unless it is there already. */
  lemma {:induction false} MergeInOrder(hosts: seq<string>, a: seq<string>, b: seq<string>, host: string)
    ensures Merge(hosts, a + b) == Merge(Merge(hosts, a), b)
    ensures Merge(hosts, [host]) == if host in hosts then hosts else hosts + [host]
  {
    assert [host][..0] == [] && Merge(hosts, []) == hosts;
    if b == [] {
      assert a + b == a;
    } else {
      MergeInOrder(hosts, a, b[..|b| - 1], host);
      assert (a + b)[..|a + b| - 1] == a + b[..|b| - 1];
    }
  }

  /** Hosts that are all there already change nothing. */
  lemma {:induction false} MergeAbsorbs(hosts: seq<string>, more: seq<string>)
    requires forall h :: h in more ==> h in hosts
    ensures Merge(hosts, more) == hosts
  {
    if more != [] {
      MergeAbsorbs(hosts, more[..|more| - 1]);
      assert more[|more| - 1] in more;
    }
  }

  /** After Add the address has a line with exactly the old hosts followed by the new ones
      that were not there yet, at the old line's place (or the end), and no other line
      changes. */
  lemma AddedLine(lines: seq<HostsLine>, p: int, ip: string, hosts: seq<string>, validIP: string -> bool)
    requires Parsed(lines, validIP) && IsPosition(lines, ip, p) && Address(ip) && Tokens(hosts)
    ensures var after := Added(lines, p, ip, hosts, validIP);
            var at := if p == -1 then |lines| else p;
            && Parsed(after, validIP) && IsPosition(after, ip, at)
            && after[at].hosts == (if p == -1 then hosts else Merge(lines[p].hosts, hosts))
            && |after| == (if p == -1 then |lines| + 1 else |lines|)
            && forall i :: 0 <= i < |lines| && i != p ==> after[i] == lines[i]
  {
    var now := if p == -1 then hosts else Merge(lines[p].hosts, hosts);
    if p >= 0 {
      CommentIsFirstField(lines[p].raw);
      MergeFacts(lines[p].hosts, hosts);
    }
    assert Tokens(now);
    JoinedMatches(ip, now, validIP);
  }

  lemma JoinedMatches(ip: string, hosts: seq<string>, validIP: string -> bool)
    requires Address(ip) && Tokens(hosts)
    ensures var line := NewHostsLine(Join(ip, hosts), validIP);
            IsParsed(line, validIP) && Matches(line, ip) && line.hosts == hosts
  {
    RoundTripExactly(ip, hosts, validIP);
    FieldsOfJoin(ip, hosts);
    FieldsOfToken(ip);
    CommentIsFirstField(Join(ip, hosts));
    assert Fields(Join(ip, hosts))[0] == ip;
    assert Join(ip, hosts) != "";
  }

  /** Adding the same entry again changes nothing. */
  lemma AddIsIdempotent(lines: seq<HostsLine>, p: int, ip: string, hosts: seq<string>, validIP: string -> bool)
    requires Parsed(lines, validIP) && IsPosition(lines, ip, p) && Address(ip) && Tokens(hosts)
    ensures var after := Added(lines, p, ip, hosts, validIP);
            var at := if p == -1 then |lines| else p;
            IsPosition(after, ip, at) && Added(after, at, ip, hosts, validIP) == after
  {
    AddedLine(lines, p, ip, hosts, validIP);
    var after := Added(lines, p, ip, hosts, validIP);
    var at := if p == -1 then |lines| else p;
    if p >= 0 {
      MergeFacts(lines[p].hosts, hosts);
    }
    MergeAbsorbs(after[at].hosts, hosts);
  }

  // ----- Sections

  /** What Cleanup leaves: everything if there is no start marker; the lines around the first
      section if that ends; and it fails if the first section does not end. */
  lemma CleanupExactly(lines: seq<HostsLine>)
    ensures NoneRaw(lines, START_OF_SECTION) ==> CleanupOf(lines) == Some(lines)
    ensures forall start: nat, end: nat :: FirstSection(lines, start, end, START_OF_SECTION, END_OF_SECTION) ==>
                                             CleanupOf(lines) == Some(lines[..start] + lines[end + 1..])
    ensures CleanupOf(lines) == None <==>
            && !NoneRaw(lines, START_OF_SECTION)
            && forall start: nat, end: nat :: !FirstSection(lines, start, end, START_OF_SECTION, END_OF_SECTION)
  {
    RemoveExactly(lines, START_OF_SECTION, END_OF_SECTION);
  }

  lemma RemoveExactly(lines: seq<HostsLine>, first: string, last: string)
    ensures NoneRaw(lines, first) ==> Without(lines, first, last) == Some(lines)
    ensures forall start: nat, end: nat :: FirstSection(lines, start, end, first, last) ==>
                                             Without(lines, first, last) == Some(lines[..start] + lines[end + 1..])
    ensures Without(lines, first, last) == None <==>
            !NoneRaw(lines, first) && forall start: nat, end: nat :: !FirstSection(lines, start, end, first, last)
  {
    forall start: nat, end: nat | FirstSection(lines, start, end, first, last)
      ensures Without(lines, first, last) == Some(lines[..start] + lines[end + 1..])
    {
      FirstRawAt(lines, first, 0, start);
      FirstRawAt(lines, last, start + 1, end);
    }
    var start := FirstRaw(lines, first, 0);
    if start < |lines| {
      assert !NoneRaw(lines, first);
      var end := FirstRaw(lines, last, start + 1);
      if end < |lines| {
        assert FirstSection(lines, start, end, first, last);
      }
    }
  }

  function Section(body: seq<string>): seq<string> {
    [START_OF_SECTION] + body + [END_OF_SECTION]
  }

  lemma FirstRawAt(lines: seq<HostsLine>, raw: string, i: nat, p: nat)
    requires i <= p <= |lines|
    requires forall k :: i <= k < p ==> lines[k].raw != raw
    requires p < |lines| ==> lines[p].raw == raw
    ensures FirstRaw(lines, raw, i) == p
  {
  }

  /** Lines that start with one marker and end with another. */
  ghost predicate Marked(section: seq<HostsLine>, first: string, last: string) {
    |section| >= 2 && section[0].raw == first && section[|section| - 1].raw == last
  }

  /** The end marker occurs before the end of the section. */
  ghost predicate EndsEarly(section: seq<HostsLine>, last: string) {
    exists i :: 1 <= i < |section| - 1 && section[i].raw == last
  }

  lemma RemoveAdded(lines: seq<HostsLine>, section: seq<HostsLine>, first: string, last: string)
    requires Marked(section, first, last) && forall i :: 0 <= i < |lines| ==> lines[i].raw != first
    ensures Without(lines + section, first, last) == Some(lines) <==> !EndsEarly(section, last)
  {
    FirstRawAt(lines + section, first, 0, |lines|);
    if EndsEarly(section, last) {
      EarlyEnd(lines, section, first, last);
    } else {
      LateEnd(lines, section, last);
    }
  }

  lemma EarlyEnd(lines: seq<HostsLine>, section: seq<HostsLine>, first: string, last: string)
    requires EndsEarly(section, last) && FirstRaw(lines + section, first, 0) == |lines|
    ensures Without(lines + section, first, last) != Some(lines)
  {
    var all, n := lines + section, |lines|;
    var i :| 1 <= i < |section| - 1 && section[i].raw == last;
    assert all[n + i].raw == last;
    assert |all[..n] + all[FirstRaw(all, last, n + 1) + 1..]| > n;
  }

  lemma LateEnd(lines: seq<HostsLine>, section: seq<HostsLine>, last: string)
    requires |section| >= 2 && section[|section| - 1].raw == last && !EndsEarly(section, last)
    ensures var all, n := lines + section, |lines|;
            var e := FirstRaw(all, last, n + 1);
            e < |all| && all[..n] + all[e + 1..] == lines
  {
    var all, n := lines + section, |lines|;
    forall k | n + 1 <= k < |all| - 1 ensures all[k].raw != last {
      assert all[k] == section[k - n];
    }
    FirstRawAt(all, last, n + 1, |all| - 1);
  }

  lemma SectionIsMarked(body: seq<string>, validIP: string -> bool)
    ensures var section := ParseAll(Section(body), validIP);
            Marked(section, START_OF_SECTION, END_OF_SECTION)
            && (EndsEarly(section, END_OF_SECTION) <==> END_OF_SECTION in body)
  {
    var raws := Section(body);
    var section := ParseAll(raws, validIP);
    RawsOf(raws, validIP);
    InsideSection(section, START_OF_SECTION, body, END_OF_SECTION);
  }

  lemma RawsOf(raws: seq<string>, validIP: string -> bool)
    ensures forall i :: 0 <= i < |raws| ==> ParseAll(raws, validIP)[i].raw == raws[i]
  {
  }

  lemma InsideSection(section: seq<HostsLine>, first: string, body: seq<string>, last: string)
    requires |section| == |body| + 2
    requires forall i :: 0 <= i < |section| ==> section[i].raw == ([first] + body + [last])[i]
    ensures Marked(section, first, last) && (EndsEarly(section, last) <==> last in body)
  {
    if last in body {
      var i :| 0 <= i < |body| && body[i] == last;
      assert section[i + 1].raw == last;
    }
    if EndsEarly(section, last) {
      var i :| 1 <= i < |section| - 1 && section[i].raw == last;
      assert body[i - 1] == last;
    }
  }

  /** Removing a section right after adding it restores the file exactly when its body does
      not contain the end marker, provided there was no start marker before. */
  lemma CleanupUndoesAddLines(lines: seq<HostsLine>, body: seq<string>, validIP: string -> bool)
    requires forall i :: 0 <= i < |lines| ==> lines[i].raw != START_OF_SECTION
    ensures CleanupOf(lines + ParseAll(Section(body), validIP)) == Some(lines) <==> END_OF_SECTION !in body
  {
    SectionIsMarked(body, validIP);
    RemoveAdded(lines, ParseAll(Section(body), validIP), START_OF_SECTION, END_OF_SECTION);
  }

  /** The first section of the lines is complete and lies between these two lines. */
  ghost predicate FirstSection(lines: seq<HostsLine>, start: nat, end: nat, first: string, last: string) {
    && start < end < |lines| && lines[start].raw == first && lines[end].raw == last
    && (forall i :: 0 <= i < start ==> lines[i].raw != first)
    && (forall i :: start < i < end ==> lines[i].raw != last)
  }

  /** A complete section that was already there is the one that goes: whatever was added
      after it stays, the new section included. So the file is restored exactly when what
      stays from there on is what was there, as when the section is added twice. */
  lemma OldSectionGoesFirst(lines: seq<HostsLine>, start: nat, end: nat, body: seq<string>, validIP: string -> bool)
    requires FirstSection(lines, start, end, START_OF_SECTION, END_OF_SECTION)
    ensures CleanupOf(lines + ParseAll(Section(body), validIP)) ==
            Some(lines[..start] + lines[end + 1..] + ParseAll(Section(body), validIP))
    ensures CleanupOf(lines + ParseAll(Section(body), validIP)) == Some(lines) <==>
            lines[start..] == lines[end + 1..] + ParseAll(Section(body), validIP)
  {
    var section := ParseAll(Section(body), validIP);
    FirstSectionGoes(lines, section, start, end, START_OF_SECTION, END_OF_SECTION);
    SameTail(lines, start, lines[end + 1..], section);
  }

  lemma FirstSectionGoes(lines: seq<HostsLine>, more: seq<HostsLine>, start: nat, end: nat, first: string, last: string)
    requires FirstSection(lines, start, end, first, last)
    ensures Without(lines + more, first, last) == Some(lines[..start] + lines[end + 1..] + more)
  {
    var all := lines + more;
    FirstRawAt(all, first, 0, start);
    FirstRawAt(all, last, start + 1, end);
    assert all[..start] == lines[..start];
    assert all[end + 1..] == lines[end + 1..] + more;
    assert lines[..start] + (lines[end + 1..] + more) == lines[..start] + lines[end + 1..] + more;
  }

  lemma SameTail<T>(s: seq<T>, i: nat, a: seq<T>, b: seq<T>)
    requires i <= |s|
    ensures s[..i] + a + b == s <==> s[i..] == a + b
  {
    assert s[..i] + a + b == s[..i] + (a + b);
    assert s == s[..i] + s[i..];
    assert (s[..i] + (a + b))[i..] == a + b;
  }

  /** Removing a section right after adding it restores any file exactly when there is no
      start marker before and no end marker in the body, or a complete section is there whose
      removal, with the new one added, gives the same lines. */
  lemma CleanupUndoesExactly(lines: seq<HostsLine>, body: seq<string>, validIP: string -> bool)
    ensures var section := ParseAll(Section(body), validIP);
            CleanupOf(lines + section) == Some(lines) <==>
            || (NoneRaw(lines, START_OF_SECTION) && END_OF_SECTION !in body)
            || (exists start: nat, end: nat :: Replaces(lines, start, end, section, START_OF_SECTION, END_OF_SECTION))
  {
    SectionIsMarked(body, validIP);
    RemoveUndoesExactly(lines, ParseAll(Section(body), validIP), START_OF_SECTION, END_OF_SECTION);
  }

  lemma RemoveUndoesExactly(lines: seq<HostsLine>, section: seq<HostsLine>, first: string, last: string)
    requires Marked(section, first, last) && first != last
    ensures Without(lines + section, first, last) == Some(lines) <==>
            || (NoneRaw(lines, first) && !EndsEarly(section, last))
            || (exists start: nat, end: nat :: Replaces(lines, start, end, section, first, last))
  {
    if start: nat, end: nat :| FirstSection(lines, start, end, first, last) {
      OldSectionExactly(lines, section, start, end, first, last);
      OnlyReplaces(lines, start, end, section, first, last);
    } else if NoneRaw(lines, first) {
      RemoveAdded(lines, section, first, last);
    } else {
      var start := FirstRaw(lines, first, 0);
      NeverEnds(lines, start, first, last);
      StaleStart(lines, start, section, first, last);
    }
  }

  lemma OldSectionExactly(lines: seq<HostsLine>, section: seq<HostsLine>, start: nat, end: nat, first: string, last: string)
    requires FirstSection(lines, start, end, first, last)
    ensures !NoneRaw(lines, first)
    ensures Without(lines + section, first, last) == Some(lines) <==> Replaces(lines, start, end, section, first, last)
  {
    FirstSectionGoes(lines, section, start, end, first, last);
    SameTail(lines, start, lines[end + 1..], section);
  }

  /** Without a complete section, no end marker follows the first start marker. */
  lemma NeverEnds(lines: seq<HostsLine>, start: nat, first: string, last: string)
    requires start == FirstRaw(lines, first, 0) < |lines|
    requires forall i: nat, j: nat :: !FirstSection(lines, i, j, first, last)
    ensures forall i :: start < i < |lines| ==> lines[i].raw != last
  {
    var end := FirstRaw(lines, last, start + 1);
    assert !FirstSection(lines, start, end, first, last);
  }

  ghost predicate NoneRaw(lines: seq<HostsLine>, raw: string) {
    forall i :: 0 <= i < |lines| ==> lines[i].raw != raw
  }

  /** The first section is complete, and dropping it for the new one gives the same lines. */
  ghost predicate Replaces(lines: seq<HostsLine>, start: nat, end: nat, section: seq<HostsLine>,
                           first: string, last: string) {
    FirstSection(lines, start, end, first, last) && lines[start..] == lines[end + 1..] + section
  }

  lemma OnlyReplaces(lines: seq<HostsLine>, start: nat, end: nat, section: seq<HostsLine>, first: string, last: string)
    requires FirstSection(lines, start, end, first, last)
    ensures (exists i: nat, j: nat :: Replaces(lines, i, j, section, first, last)) <==>
            Replaces(lines, start, end, section, first, last)
  {
    if i: nat, j: nat :| Replaces(lines, i, j, section, first, last) {
      OneFirstSection(lines, start, end, i, j, first, last);
    }
  }

  lemma OneFirstSection(lines: seq<HostsLine>, start: nat, end: nat, i: nat, j: nat, first: string, last: string)
    requires FirstSection(lines, start, end, first, last) && FirstSection(lines, i, j, first, last)
    ensures i == start && j == end
  {
  }

  /** For instance, a section that ends the file may be added again and removed. */
  lemma SameSectionRestores(lines: seq<HostsLine>, body: seq<string>, validIP: string -> bool)
    requires NoneRaw(lines, START_OF_SECTION) && END_OF_SECTION !in body
    ensures var section := ParseAll(Section(body), validIP);
            CleanupOf(lines + section + section) == Some(lines + section)
  {
    SectionIsMarked(body, validIP);
    var section := ParseAll(Section(body), validIP);
    SameAgain(lines, section, lines + section, START_OF_SECTION, END_OF_SECTION);
  }

  lemma SameAgain(lines: seq<HostsLine>, section: seq<HostsLine>, all: seq<HostsLine>, first: string, last: string)
    requires all == lines + section
    requires NoneRaw(lines, first) && Marked(section, first, last) && !EndsEarly(section, last)
    ensures Without(all + section, first, last) == Some(all)
  {
    var end := EndsWithSection(lines, section, all, first, last);
    OldSectionExactly(all, section, |lines|, end, first, last);
  }

  lemma EndOf<T>(a: seq<T>, b: seq<T>)
    ensures (a + b)[|a|..] == b && (a + b)[|a + b|..] + b == b
  {
  }

  lemma EndsWithSection(lines: seq<HostsLine>, section: seq<HostsLine>, all: seq<HostsLine>, first: string, last: string)
    returns (end: nat)
    requires all == lines + section
    requires NoneRaw(lines, first) && Marked(section, first, last) && !EndsEarly(section, last)
    ensures Replaces(all, |lines|, end, section, first, last)
  {
    var n := |lines|;
    end := |all| - 1;
    EndOf(lines, section);
    forall i | n < i < |all| - 1 ensures all[i].raw != last {
      assert all[i] == section[i - n];
    }
  }

  /** A start marker that was already there without an end takes the lines after it with it:
      then the file is never restored. */
  lemma StaleStartLosesLines(lines: seq<HostsLine>, start: nat, body: seq<string>, validIP: string -> bool)
    requires start < |lines| && lines[start].raw == START_OF_SECTION
    requires forall i :: start < i < |lines| ==> lines[i].raw != END_OF_SECTION
    requires forall i :: 0 <= i < start ==> lines[i].raw != START_OF_SECTION
    ensures CleanupOf(lines + ParseAll(Section(body), validIP)) != Some(lines)
  {
    SectionIsMarked(body, validIP);
    StaleStart(lines, start, ParseAll(Section(body), validIP), START_OF_SECTION, END_OF_SECTION);
  }

  lemma StaleStart(lines: seq<HostsLine>, start: nat, section: seq<HostsLine>, first: string, last: string)
    requires start < |lines| && lines[start].raw == first && first != last && Marked(section, first, last)
    requires forall i :: start < i < |lines| ==> lines[i].raw != last
    requires forall i :: 0 <= i < start ==> lines[i].raw != first
    ensures Without(lines + section, first, last) != Some(lines)
  {
    var all, n := lines + section, |lines|;
    FirstRawAt(all, first, 0, start);
    assert all[|all| - 1].raw == last;
    var e := FirstRaw(all, last, start + 1);
    assert e >= n;
    var r := all[..start] + all[e + 1..];
    if |r| == n {
      assert r[n - 1] == all[|all| - 1];
      assert lines[n - 1].raw != last;
    }
  }
}
