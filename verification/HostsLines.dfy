/** One line of a hosts file, parsed and printed (util/hosts.go). */
module HostsLines {

  // ----- unicode.IsSpace, strings.Fields, strings.TrimSpace

  predicate IsSpace(c: char) {
    var n := c as int;
    || 9 <= n <= 13 || n == 32 || n == 0x85 || n == 0xA0
    || n == 0x1680 || 0x2000 <= n <= 0x200a || n == 0x2028 || n == 0x2029
    || n == 0x202f || n == 0x205f || n == 0x3000
  }

  lemma AsciiSpaces(c: char)
    requires c as int < 128
    ensures IsSpace(c) <==> c == ' ' || c == '\t' || c == '\n' || c == '\r' || c as int == 11 || c as int == 12
  {
  }

  /** The length of the longest prefix without white space. */
  function WordEnd(s: string): (w: nat)
    ensures w <= |s|
    ensures forall i :: 0 <= i < w ==> !IsSpace(s[i])
    ensures w < |s| ==> IsSpace(s[w])
  {
    if s == "" || IsSpace(s[0]) then 0 else 1 + WordEnd(s[1..])
  }

  function Fields(s: string): seq<string>
    decreases |s|
  {
    if s == "" then []
    else if IsSpace(s[0]) then Fields(s[1..])
    else [s[..WordEnd(s)]] + Fields(s[WordEnd(s)..])
  }

  function TrimLeft(s: string): string {
    if s != "" && IsSpace(s[0]) then TrimLeft(s[1..]) else s
  }

  function TrimRight(s: string): string {
    if s != "" && IsSpace(s[|s| - 1]) then TrimRight(s[..|s| - 1]) else s
  }

  function TrimSpace(s: string): string {
    TrimRight(TrimLeft(s))
  }

  /** What a field can be. */
  predicate Token(t: string) {
    t != "" && forall i :: 0 <= i < |t| ==> !IsSpace(t[i])
  }

  predicate Tokens(ts: seq<string>) {
    forall i :: 0 <= i < |ts| ==> Token(ts[i])
  }

  lemma {:induction false} FieldsAreTokens(s: string)
    ensures Tokens(Fields(s))
    decreases |s|
  {
    if s == "" {
    } else if IsSpace(s[0]) {
      FieldsAreTokens(s[1..]);
    } else {
      FieldsAreTokens(s[WordEnd(s)..]);
    }
  }

  lemma WordEndUnique(s: string, w: nat)
    requires w <= |s| && forall i :: 0 <= i < w ==> !IsSpace(s[i])
    requires w < |s| ==> IsSpace(s[w])
    ensures WordEnd(s) == w
  {
  }

  /** Fields on both sides of a blank are found independently. */
  lemma {:induction false} FieldsConcat(a: string, b: string)
    ensures Fields(a + " " + b) == Fields(a) + Fields(b)
    decreases |a|
  {
    if a == "" || IsSpace(a[0]) {
      FirstBlank(a, b, a + " " + b);
      if a != "" {
        FieldsConcat(a[1..], b);
      }
    } else {
      var w := WordEnd(a);
      FieldsConcat(a[w..], b);
      FirstWord(a, b, w);
      assert [a[..w]] + Fields(a[w..]) + Fields(b) == [a[..w]] + (Fields(a[w..]) + Fields(b));
    }
  }

  lemma FirstBlank(a: string, b: string, s: string)
    requires s == a + " " + b && (a == "" || IsSpace(a[0]))
    ensures Fields(s) == if a == "" then Fields(b) else Fields(a[1..] + " " + b)
    ensures Fields(a) == if a == "" then [] else Fields(a[1..])
  {
    assert s[1..] == if a == "" then b else a[1..] + " " + b;
    assert IsSpace(s[0]);
  }

  lemma FirstWord(a: string, b: string, w: nat)
    requires a != "" && !IsSpace(a[0]) && w == WordEnd(a)
    ensures 0 < w
    ensures Fields(a) == [a[..w]] + Fields(a[w..])
    ensures Fields(a + " " + b) == [a[..w]] + Fields(a[w..] + " " + b)
  {
    var s := a + " " + b;
    assert s[|a|] == ' ';
    WordEndUnique(s, w);
    assert s[w..] == a[w..] + " " + b && s[..w] == a[..w];
    FieldsOfWord(a, w);
    FieldsOfWord(s, w);
  }

  lemma FieldsOfWord(s: string, w: nat)
    requires s != "" && !IsSpace(s[0]) && w == WordEnd(s)
    ensures Fields(s) == [s[..w]] + Fields(s[w..])
  {
  }

  lemma FieldsOfToken(t: string)
    requires Token(t)
    ensures Fields(t) == [t]
  {
    WordEndUnique(t, |t|);
    assert t[..|t|] == t && t[|t|..] == "";
  }

  // ----- Lines

  datatype HostsLine = HostsLine(ip: string, hosts: seq<string>, raw: string, bad: bool)

  predicate IsComment(raw: string) {
    "#" <= TrimSpace(raw)
  }

  /** NewHostsLine; validIP is net.ParseIP succeeding. */
  function NewHostsLine(raw: string, validIP: string -> bool): HostsLine {
    var fields := Fields(raw);
    if |fields| == 0 || IsComment(raw) then HostsLine("", [], raw, false)
    else HostsLine(fields[0], fields[1..], raw, !validIP(fields[0]))
  }

  /** What buildRawLine prints. */
  function Join(ip: string, hosts: seq<string>): string {
    if hosts == [] then ip
    else Join(ip, hosts[..|hosts| - 1]) + " " + hosts[|hosts| - 1]
  }

  method BuildRawLine(ip: string, hosts: seq<string>) returns (output: string)
    ensures output == Join(ip, hosts)
  {
    output := ip;
    for i := 0 to |hosts|
      invariant output == Join(ip, hosts[..i])
    {
      assert hosts[..i + 1][..i] == hosts[..i];
      output := output + " " + hosts[i];
    }
    assert hosts[..|hosts|] == hosts;
  }

  /** A line is a comment exactly when its first field starts with the comment character. */
  lemma {:induction false} CommentIsFirstField(raw: string)
    ensures IsComment(raw) <==> Fields(raw) != [] && "#" <= Fields(raw)[0]
    ensures Tokens(Fields(raw))
    decreases |raw|
  {
    FieldsAreTokens(raw);
    if raw == "" {
    } else if IsSpace(raw[0]) {
      CommentIsFirstField(raw[1..]);
    } else {
      TrimRightKeepsFirst(raw);
    }
  }

  lemma {:induction false} TrimRightKeepsFirst(s: string)
    requires s != "" && !IsSpace(s[0])
    ensures TrimRight(s) != "" && TrimRight(s)[0] == s[0]
  {
    if IsSpace(s[|s| - 1]) {
      assert |s| > 1;
      TrimRightKeepsFirst(s[..|s| - 1]);
    }
  }

  lemma {:induction false} FieldsOfJoin(ip: string, hosts: seq<string>)
    requires Tokens(hosts)
    ensures Fields(Join(ip, hosts)) == Fields(ip) + hosts
  {
    if hosts != [] {
      var n := |hosts| - 1;
      FieldsOfJoin(ip, hosts[..n]);
      FieldsConcat(Join(ip, hosts[..n]), hosts[n]);
      FieldsOfToken(hosts[n]);
      assert hosts == hosts[..n] + [hosts[n]];
    }
  }

  /** An address that a line can be about. */
  predicate Address(ip: string) {
    Token(ip) && ip[0] != '#'
  }

  /** Parsing a printed line gives back the address and the hosts exactly when the address is
      a token that does not start a comment and the hosts are tokens (or there is nothing). */
  lemma RoundTripExactly(ip: string, hosts: seq<string>, validIP: string -> bool)
    ensures var line := NewHostsLine(Join(ip, hosts), validIP);
            (line.ip == ip && line.hosts == hosts) <==>
            (Address(ip) && Tokens(hosts)) || (ip == "" && hosts == [])
  {
    var raw := Join(ip, hosts);
    CommentIsFirstField(raw);
    if Address(ip) && Tokens(hosts) {
      FieldsOfJoin(ip, hosts);
      FieldsOfToken(ip);
      assert Fields(raw) == [ip] + hosts;
    }
    var line := NewHostsLine(raw, validIP);
    if line.ip == ip && line.hosts == hosts && Fields(raw) != [] && !IsComment(raw) {
      assert ip == Fields(raw)[0] && hosts == Fields(raw)[1..];
    }
  }

  /** What an entry's line is parsed to, its text and the verdict on its address included. */
  lemma EntryParses(ip: string, hosts: seq<string>, validIP: string -> bool)
    requires Address(ip) && Tokens(hosts)
    ensures var raw := Join(ip, hosts); NewHostsLine(raw, validIP) == HostsLine(ip, hosts, raw, !validIP(ip))
  {
    RoundTripExactly(ip, hosts, validIP);
    FieldsOfJoin(ip, hosts);
    FieldsOfToken(ip);
    CommentIsFirstField(Join(ip, hosts));
    assert Fields(Join(ip, hosts))[0] == ip;
  }

  /** A blank line, and one whose first field starts with the comment character, keeps its
      text only. */
  lemma OtherLinesParse(raw: string, validIP: string -> bool)
    requires Fields(raw) == [] || "#" <= Fields(raw)[0]
    ensures NewHostsLine(raw, validIP) == HostsLine("", [], raw, false)
  {
    CommentIsFirstField(raw);
  }

  /** A printed line is the address and the hosts, with single blanks between them. */
  lemma JoinNext(ip: string, hosts: seq<string>, host: string)
    ensures Join(ip, []) == ip && Join(ip, hosts + [host]) == Join(ip, hosts) + " " + host
  {
    assert (hosts + [host])[..|hosts|] == hosts;
  }

  /** Printing a parsed line and parsing it again gives the same address and hosts. */
  lemma PrintedLineParses(raw: string, validIP: string -> bool)
    ensures var line := NewHostsLine(raw, validIP);
            var again := NewHostsLine(Join(line.ip, line.hosts), validIP);
            again.ip == line.ip && again.hosts == line.hosts && again.bad == line.bad
  {
    var line := NewHostsLine(raw, validIP);
    CommentIsFirstField(raw);
    RoundTripExactly(line.ip, line.hosts, validIP);
    if Fields(raw) != [] && !IsComment(raw) {
      assert Address(line.ip) && Tokens(line.hosts);
      FieldsOfJoin(line.ip, line.hosts);
      FieldsOfToken(line.ip);
      CommentIsFirstField(Join(line.ip, line.hosts));
    }
  }
}
