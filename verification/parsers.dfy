/** The two output parsers: `parseUnixOutput` for `lsof -iTCP -sTCP:LISTEN -n -P` text and
    `parseWindowsOutput` for `netstat -ano | findstr LISTENING` text. Both trim the output,
    split it into lines, turn each well-formed line into an entry, drop entries whose raw
    `${pid}-${port}` key was already met, build records, and sort them stably by port. */
module Parsers {
  import opened Wrappers
  import opened Seqs
  import opened JsText
  import opened Records
  import opened PortOrder
  import opened Dedup

  /** Which tool printed the text. */
  datatype Dialect = Lsof | Netstat

  /** `output.trim().split('\n')`. */
  function Lines(output: string): (lines: seq<string>)
    ensures |lines| >= 1
    ensures forall i :: 0 <= i < |lines| ==> '\n' !in lines[i]
    ensures JoinWith(lines, '\n') == Trim(output)
  {
    SplitOn(Trim(output), '\n')
  }

  /** One lsof line: split on white-space runs without trimming, at least 9 fields, command in
      field 0, PID in field 1, and field 8 (the NAME column) ending in `:<digits>`. */
  function LsofLine(line: string): (r: Option<Entry>)
    ensures r.None? <==> |SplitWs(line)| < 9 || TrailingPort(SplitWs(line)[8]).None?
    ensures r.Some? ==> var parts := SplitWs(line);
      r.value == Entry(parts[0], parts[1], TrailingPort(parts[8]).value, parts[8])
  {
    var parts := SplitWs(line);
    if |parts| < 9 then None
    else
      match TrailingPort(parts[8])
      case None => None
      case Some(port) => Some(Entry(parts[0], parts[1], port, parts[8]))
  }

  /** One netstat line: trimmed first, at least 5 fields, local address in field 1 ending in
      `:<digits>`, PID in field 4; netstat gives no process name, so it is "unknown". */
  function NetstatLine(line: string): (r: Option<Entry>)
    ensures r.None? <==> |SplitWs(Trim(line))| < 5 || TrailingPort(SplitWs(Trim(line))[1]).None?
    ensures r.Some? ==> var parts := SplitWs(Trim(line));
      r.value == Entry("unknown", parts[4], TrailingPort(parts[1]).value, parts[1])
  {
    var parts := SplitWs(Trim(line));
    if |parts| < 5 then None
    else
      match TrailingPort(parts[1])
      case None => None
      case Some(port) => Some(Entry("unknown", parts[4], port, parts[1]))
  }

  function ParseLine(d: Dialect, line: string): (r: Option<Entry>)
    ensures r.Some? ==> ValidEntry(r.value)
    ensures r.Some? && d == Netstat ==> r.value.command == "unknown"
  {
    match d
    case Lsof => LsofLine(line)
    case Netstat => NetstatLine(line)
  }

  /** Whether the parser turns a line into an entry. */
  function Accepts(d: Dialect): string -> bool {
    (line: string) => ParseLine(d, line).Some?
  }

  /** The entries of the accepted lines, in line order, before deduplication: one per accepted
      line. */
  function Candidates(d: Dialect, lines: seq<string>): (es: seq<Entry>)
    ensures forall e :: e in es ==> ValidEntry(e)
    ensures d == Netstat ==> forall e :: e in es ==> e.command == "unknown"
    ensures |es| == Count(lines, Accepts(d))
  {
    if lines == [] then [] else Accepted(d, lines[0]) + Candidates(d, lines[1..])
  }

  /** The entry one line contributes: none, or the one it parses to. */
  function Accepted(d: Dialect, line: string): (es: seq<Entry>)
    ensures |es| <= 1
    ensures es == [] <==> ParseLine(d, line).None?
    ensures forall i :: 0 <= i < |es| ==> ValidEntry(es[i])
    ensures d == Netstat ==> forall i :: 0 <= i < |es| ==> es[i].command == "unknown"
  {
    match ParseLine(d, line) case Some(e) => [e] case None => []
  }

  /** The lines each parser reads: lsof's first line is its header and is dropped
      (`lines.slice(1)`); netstat output has no header. */
  function Body(d: Dialect, lines: seq<string>): seq<string> {
    match d
    case Lsof => if lines == [] then [] else lines[1..]
    case Netstat => lines
  }

  /** The entries kept by the `seen`-set loop, in discovery order: of the entries of the
      accepted lines, the first one with each key. */
  function Discovered(d: Dialect, lines: seq<string>): (es: seq<Entry>)
    ensures IsSubseq(es, Candidates(d, Body(d, lines)))
    ensures KeysOf(es) == KeysOf(Candidates(d, Body(d, lines)))
    ensures forall e :: e in es ==> FirstWithKey(Candidates(d, Body(d, lines)), Key(e)) == Some(e)
    ensures InFirstOrder(es, Candidates(d, Body(d, lines)))
    ensures DistinctKeys(es)
    ensures forall i :: 0 <= i < |es| ==> ValidEntry(es[i])
    ensures d == Netstat ==> forall i :: 0 <= i < |es| ==> es[i].command == "unknown"
  {
    KeptEntriesHold(d, Candidates(d, Body(d, lines)));
    FirstOccurrences(Candidates(d, Body(d, lines)))
  }

  /** What holds of every candidate holds of every kept entry. */
  lemma KeptEntriesHold(d: Dialect, cands: seq<Entry>)
    requires forall i :: 0 <= i < |cands| ==> ValidEntry(cands[i])
    requires d == Netstat ==> forall i :: 0 <= i < |cands| ==> cands[i].command == "unknown"
    ensures var r := FirstOccurrences(cands);
      && (forall i :: 0 <= i < |r| ==> ValidEntry(r[i]))
      && (d == Netstat ==> forall i :: 0 <= i < |r| ==> r[i].command == "unknown")
  {
    var r := FirstOccurrences(cands);
    forall i | 0 <= i < |r|
      ensures ValidEntry(r[i]) && (d == Netstat ==> r[i].command == "unknown")
    {
      assert r[i] in cands;
      var j :| 0 <= j < |cands| && cands[j] == r[i];
    }
  }

  /** The records pushed for entries, in order. */
  function ToRecords(es: seq<Entry>): (rs: seq<PortRecord>)
    requires forall i :: 0 <= i < |es| ==> ValidEntry(es[i])
    ensures |rs| == |es|
    ensures forall i :: 0 <= i < |es| ==> rs[i] == ToRecord(es[i])
  {
    seq(|es|, i requires 0 <= i < |es| => ToRecord(es[i]))
  }

  /** Both parsers applied to lines: the discovered records sorted stably by port. */
  function ParseLines(d: Dialect, lines: seq<string>): (r: seq<PortRecord>)
    ensures SortedByPort(r)
    ensures multiset(r) == multiset(ToRecords(Discovered(d, lines)))
  {
    SortByPort(ToRecords(Discovered(d, lines)))
  }

  /** Records on one port keep the order in which their lines were read. */
  lemma ParseLinesStable(d: Dialect, lines: seq<string>)
    ensures SamePortOrder(ParseLines(d, lines), ToRecords(Discovered(d, lines)))
  {
    SortByPortStable(ToRecords(Discovered(d, lines)));
  }

  /** `parseUnixOutput(output)`. */
  function ParseUnixOutput(output: string): (r: seq<PortRecord>)
    ensures SortedByPort(r)
    ensures multiset(r) == multiset(ToRecords(Discovered(Lsof, Lines(output))))
    ensures DistinctKeys(Discovered(Lsof, Lines(output)))
  {
    ParseLines(Lsof, Lines(output))
  }

  /** `parseWindowsOutput(output)`. */
  function ParseWindowsOutput(output: string): (r: seq<PortRecord>)
    ensures SortedByPort(r)
    ensures multiset(r) == multiset(ToRecords(Discovered(Netstat, Lines(output))))
    ensures DistinctKeys(Discovered(Netstat, Lines(output)))
    ensures forall x :: x in r ==> x.process == "unknown"
  {
    NetstatProcessUnknown(Lines(output));
    ParseLines(Netstat, Lines(output))
  }

  /** netstat records never carry a process name. */
  lemma NetstatProcessUnknown(lines: seq<string>)
    ensures forall x :: x in ParseLines(Netstat, lines) ==> x.process == "unknown"
  {
    var es := Discovered(Netstat, lines);
    var rs := ToRecords(es);
    forall x | x in ParseLines(Netstat, lines) ensures x.process == "unknown" {
      assert x in multiset(rs);
      var i :| 0 <= i < |rs| && rs[i] == x;
      assert es[i].command == "unknown";
    }
  }

  lemma AcceptedHolds(d: Dialect, line: string)
    requires ParseLine(d, line).Some?
    ensures Accepted(d, line) == [ParseLine(d, line).value]
  {
  }

  /** One step of the line loop. */
  lemma CandidatesCons(d: Dialect, lines: seq<string>)
    requires lines != []
    ensures Candidates(d, lines) == Accepted(d, lines[0]) + Candidates(d, lines[1..])
  {
  }

  lemma {:induction false} CandidatesAppend(d: Dialect, a: seq<string>, b: seq<string>)
    ensures Candidates(d, a + b) == Candidates(d, a) + Candidates(d, b)
    decreases |a|
  {
    if a == [] {
      assert a + b == b;
    } else {
      var ab, h := a + b, Accepted(d, a[0]);
      ConsOfAppend(a, b);
      CandidatesCons(d, ab);
      CandidatesCons(d, a);
      CandidatesAppend(d, a[1..], b);
      Associate(h, Candidates(d, a[1..]), Candidates(d, b));
    }
  }

  /** A line the parser skips leaves the result unchanged: removing it from anywhere after
      the lsof header gives the same records. */
  lemma SkippedLineIgnored(d: Dialect, pre: seq<string>, line: string, post: seq<string>)
    requires ParseLine(d, line).None?
    requires d == Lsof ==> pre != []
    ensures ParseLines(d, pre + [line] + post) == ParseLines(d, pre + post)
  {
    var bodyPre := if d == Lsof then pre[1..] else pre;
    assert Body(d, pre + [line] + post) == bodyPre + [line] + post;
    assert Body(d, pre + post) == bodyPre + post;
    CandidatesAppend(d, bodyPre + [line], post);
    CandidatesAppend(d, bodyPre, [line]);
    CandidatesAppend(d, bodyPre, post);
    assert Candidates(d, [line]) == [];
    assert Candidates(d, bodyPre) + [] == Candidates(d, bodyPre);
  }

  lemma LsofBody(header: string, rest: seq<string>)
    ensures Body(Lsof, [header] + rest) == rest
  {
    assert ([header] + rest)[1..] == rest;
  }

  /** lsof's first line never matters, whatever it holds. */
  lemma LsofHeaderIgnored(header: string, other: string, rest: seq<string>)
    ensures ParseLines(Lsof, [header] + rest) == ParseLines(Lsof, [other] + rest)
  {
    assert Body(Lsof, [header] + rest) == rest == Body(Lsof, [other] + rest);
  }

  /** An lsof line made of columns separated by runs of white space of any length yields those
      columns: field 0 as the command, field 1 as the PID, field 8 as the address and its
      trailing digits as the port. The first column may be empty, which is how a line that
      starts with white space reads. */
  lemma LsofLineOfColumns(cols: seq<string>, runs: seq<string>, port: string)
    requires |cols| >= 9 && |runs| == |cols| - 1
    requires FieldShape(cols) && SpaceRuns(runs)
    requires TrailingPort(cols[8]) == Some(port)
    ensures LsofLine(Interleave(cols, runs)) == Some(Entry(cols[0], cols[1], port, cols[8]))
  {
    SplitWsOfRuns(cols, runs);
  }

  /** lsof lines are not trimmed: white space before the first column becomes an empty field 0,
      so every column moves one place right and the command reads as empty. */
  lemma LsofLeadingRun(w: string, cols: seq<string>, runs: seq<string>, port: string)
    requires w != [] && AllSpace(w)
    requires |cols| >= 8 && |runs| == |cols| - 1
    requires FieldShape(cols) && cols[0] != [] && SpaceRuns(runs)
    requires TrailingPort(cols[7]) == Some(port)
    ensures LsofLine(w + Interleave(cols, runs)) == Some(Entry("", cols[0], port, cols[7]))
  {
    FieldShapeLeadingEmpty(cols, w, runs);
    InterleaveCons([], w, cols, runs);
    assert [] + w == w;
    LsofLineOfColumns([[]] + cols, [w] + runs, port);
  }

  /** A netstat line made of columns separated by runs of white space of any length, with any
      white space before and after, yields its address (field 1), the trailing digits of that
      address as the port, and its PID (field 4). */
  lemma NetstatLineOfColumns(lead: string, cols: seq<string>, runs: seq<string>, trail: string, port: string)
    requires AllSpace(lead) && AllSpace(trail)
    requires |cols| >= 5 && |runs| == |cols| - 1
    requires FieldShape(cols) && cols[0] != [] && cols[|cols| - 1] != [] && SpaceRuns(runs)
    requires TrailingPort(cols[1]) == Some(port)
    ensures NetstatLine(lead + Interleave(cols, runs) + trail) == Some(Entry("unknown", cols[4], port, cols[1]))
  {
    PaddedColumnsTrimmed(lead, cols, runs, trail);
    SplitWsOfRuns(cols, runs);
  }

  /** Trimming padded columns leaves the columns and the runs between them. */
  lemma PaddedColumnsTrimmed(lead: string, cols: seq<string>, runs: seq<string>, trail: string)
    requires AllSpace(lead) && AllSpace(trail)
    requires |cols| >= 1 && |runs| == |cols| - 1
    requires NoSpace(cols[0]) && NoSpace(cols[|cols| - 1]) && cols[0] != [] && cols[|cols| - 1] != []
    ensures Trim(lead + Interleave(cols, runs) + trail) == Interleave(cols, runs)
  {
    var x, first, last := Interleave(cols, runs), cols[0], cols[|cols| - 1];
    InterleaveEnds(cols, runs);
    assert x[0] == x[..|first|][0] == first[0];
    assert x[|x| - 1] == x[|x| - |last|..][|last| - 1] == last[|last| - 1];
    TrimPadded(lead, x, trail);
  }

  lemma CandidateOfLine(d: Dialect, lines: seq<string>, i: int)
    requires 0 <= i < |lines| && ParseLine(d, lines[i]).Some?
    ensures ParseLine(d, lines[i]).value in Candidates(d, lines)
  {
    CandidatesAround(d, lines, i);
    AcceptedHolds(d, lines[i]);
    InMiddle(ParseLine(d, lines[i]).value, Candidates(d, lines[..i]), Candidates(d, lines[i + 1..]));
  }

  /** Conversely, every candidate is the entry of some line. */
  lemma {:induction false} CandidateFromLine(d: Dialect, lines: seq<string>, e: Entry) returns (i: int)
    requires e in Candidates(d, lines)
    ensures 0 <= i < |lines| && ParseLine(d, lines[i]) == Some(e)
    decreases |lines|
  {
    CandidatesCons(d, lines);
    if e in Accepted(d, lines[0]) {
      i := 0;
    } else {
      var j := CandidateFromLine(d, lines[1..], e);
      i := j + 1;
    }
  }

  /** The entries of the lines before line `i`, then line `i`'s, then those of the lines after. */
  lemma CandidatesAround(d: Dialect, lines: seq<string>, i: int)
    requires 0 <= i < |lines|
    ensures Candidates(d, lines)
         == Candidates(d, lines[..i]) + Accepted(d, lines[i]) + Candidates(d, lines[i + 1..])
  {
    SplitAround(lines, i);
    CandidatesAppend(d, lines[..i] + [lines[i]], lines[i + 1..]);
    CandidatesAppend(d, lines[..i], [lines[i]]);
    CandidatesOfOne(d, lines[i]);
  }

  lemma CandidatesOfOne(d: Dialect, line: string)
    ensures Candidates(d, [line]) == Accepted(d, line)
  {
    CandidatesCons(d, [line]);
    assert [line][1..] == [];
    AppendEmpty(Accepted(d, line));
  }

  /** Two lines contribute their accepted entries in order. */
  lemma CandidatesOfPair(d: Dialect, l1: string, l2: string)
    ensures Candidates(d, [l1, l2]) == Accepted(d, l1) + Accepted(d, l2)
  {
    assert [l1, l2] == [l1] + [l2];
    CandidatesAppend(d, [l1], [l2]);
    CandidatesOfOne(d, l1);
    CandidatesOfOne(d, l2);
  }

  /** Every accepted line is represented: its key is among the discovered keys, and the record
      built from the first entry with that key is in the result. */
  lemma AcceptedLineKept(d: Dialect, lines: seq<string>, i: int)
    requires 0 <= i < |Body(d, lines)| && ParseLine(d, Body(d, lines)[i]).Some?
    ensures var e := ParseLine(d, Body(d, lines)[i]).value;
      && Key(e) in KeysOf(Discovered(d, lines))
      && var first := FirstWithKey(Candidates(d, Body(d, lines)), Key(e)).value;
         ToRecord(first) in ParseLines(d, lines)
  {
    var body := Body(d, lines);
    var cands := Candidates(d, body);
    var k := Key(ParseLine(d, body[i]).value);
    assert k in KeysOf(cands) by {
      CandidateOfLine(d, body, i);
    }
    FirstIsKept(cands, k);
    DiscoveredIsKept(d, lines, FirstWithKey(cands, k).value);
  }

  /** Every discovered entry becomes a record of the result. */
  lemma DiscoveredIsKept(d: Dialect, lines: seq<string>, f: Entry)
    requires f in Discovered(d, lines)
    ensures ValidEntry(f) && ToRecord(f) in ParseLines(d, lines)
  {
    var disc := Discovered(d, lines);
    var j :| 0 <= j < |disc| && disc[j] == f;
    var rs := ToRecords(disc);
    assert rs[j] == ToRecord(f);
    assert ToRecord(f) in multiset(rs);
  }

  /** Output text is read line by line: for lines joined by newlines, with no white space at
      either end of the text, the parsers see exactly those lines. */
  lemma OutputOfLines(d: Dialect, lines: seq<string>)
    requires |lines| >= 1
    requires forall i :: 0 <= i < |lines| ==> '\n' !in lines[i]
    requires var text := JoinWith(lines, '\n');
      text == [] || (!IsSpace(text[0]) && !IsSpace(text[|text| - 1]))
    ensures Lines(JoinWith(lines, '\n')) == lines
    ensures d == Lsof ==> ParseUnixOutput(JoinWith(lines, '\n')) == ParseLines(Lsof, lines)
    ensures d == Netstat ==> ParseWindowsOutput(JoinWith(lines, '\n')) == ParseLines(Netstat, lines)
  {
    var text := JoinWith(lines, '\n');
    LinesOfJoin(lines);
    assert ParseUnixOutput(text) == ParseLines(Lsof, Lines(text));
    assert ParseWindowsOutput(text) == ParseLines(Netstat, Lines(text));
  }

  lemma LinesOfJoin(lines: seq<string>)
    requires |lines| >= 1
    requires forall i :: 0 <= i < |lines| ==> '\n' !in lines[i]
    requires var text := JoinWith(lines, '\n');
      text == [] || (!IsSpace(text[0]) && !IsSpace(text[|text| - 1]))
    ensures Lines(JoinWith(lines, '\n')) == lines
  {
    TrimUnchanged(JoinWith(lines, '\n'));
    SplitOnJoin(lines, '\n');
  }

  /** An lsof line for `pid`, running `command`, listening on `*:<port>`, with columns padded
      as lsof pads them. */
  function ListenLine(command: string, pid: string, port: string): string {
    Interleave(ListenColumns(command, pid, port), ListenRuns)
  }

  function ListenColumns(command: string, pid: string, port: string): seq<string> {
    [command, pid, "user", "23u", "IPv4", "0x1a2b", "0t0", "TCP", "*:" + port, "(LISTEN)"]
  }

  const ListenRuns: seq<string> := ["   ", " ", "   ", "  ", " ", "      ", "  ", " ", " "]

  lemma ListenLineParses(command: string, pid: string, port: string)
    requires command != [] && NoSpace(command) && pid != [] && NoSpace(pid)
    requires port != [] && AllDigits(port)
    ensures LsofLine(ListenLine(command, pid, port)) == Some(Entry(command, pid, port, "*:" + port))
  {
    TrailingPortOf("*", port);
    assert "*" + ":" + port == "*:" + port;
    ListenColumnsShape(command, pid, port);
    ListenRunsAreSpace(ListenRuns);
    LsofLineOfColumns(ListenColumns(command, pid, port), ListenRuns, port);
  }

  lemma ListenColumnsShape(command: string, pid: string, port: string)
    requires command != [] && NoSpace(command) && pid != [] && NoSpace(pid) && AllDigits(port)
    ensures FieldShape(ListenColumns(command, pid, port))
  {
    var cols := ListenColumns(command, pid, port);
    assert NoSpace("*:" + port);
    FixedColumnsShape(cols[2..8], cols[9]);
    assert forall i :: 2 <= i < 8 ==> cols[i] == cols[2..8][i - 2];
  }

  lemma FixedColumnsShape(middle: seq<string>, last: string)
    requires middle == ["user", "23u", "IPv4", "0x1a2b", "0t0", "TCP"] && last == "(LISTEN)"
    ensures forall i :: 0 <= i < |middle| ==> middle[i] != [] && NoSpace(middle[i])
    ensures last != [] && NoSpace(last)
  {
  }

  lemma ListenRunsAreSpace(runs: seq<string>)
    requires runs == ["   ", " ", "   ", "  ", " ", "      ", "  ", " ", " "]
    ensures SpaceRuns(runs)
  {
  }

  lemma ListenLinesDiscovered(header: string, command: string, pid: string, p: string, q: string)
    requires command != [] && NoSpace(command) && pid != [] && NoSpace(pid)
    requires p != [] && AllDigits(p) && q != [] && AllDigits(q) && p != q
    ensures Discovered(Lsof, [header, ListenLine(command, pid, p), ListenLine(command, pid, q)])
         == [Entry(command, pid, p, "*:" + p), Entry(command, pid, q, "*:" + q)]
  {
    var e1, e2 := Entry(command, pid, p, "*:" + p), Entry(command, pid, q, "*:" + q);
    ListenCandidates(command, pid, p, q);
    KeyInjective(e1, e2);
    DiscoveredOfPair(header, ListenLine(command, pid, p), ListenLine(command, pid, q), e1, e2);
  }

  /** Two lsof lines after the header that give entries with different keys are both kept. */
  lemma DiscoveredOfPair(header: string, l1: string, l2: string, e1: Entry, e2: Entry)
    requires Candidates(Lsof, [l1, l2]) == [e1, e2] && Key(e1) != Key(e2)
    ensures Discovered(Lsof, [header, l1, l2]) == [e1, e2]
  {
    LsofBody(header, [l1, l2]);
    assert [header, l1, l2] == [header] + [l1, l2];
    DistinctPair(e1, e2);
    FirstOccurrencesOfDistinct([e1, e2]);
  }

  lemma ListenCandidates(command: string, pid: string, p: string, q: string)
    requires command != [] && NoSpace(command) && pid != [] && NoSpace(pid)
    requires p != [] && AllDigits(p) && q != [] && AllDigits(q)
    ensures Candidates(Lsof, [ListenLine(command, pid, p), ListenLine(command, pid, q)])
         == [Entry(command, pid, p, "*:" + p), Entry(command, pid, q, "*:" + q)]
  {
    ListenLineParses(command, pid, p);
    ListenLineParses(command, pid, q);
    CandidatesOfParsedPair(Lsof, ListenLine(command, pid, p), ListenLine(command, pid, q),
      Entry(command, pid, p, "*:" + p), Entry(command, pid, q, "*:" + q));
  }

  lemma {:induction false} CandidatesOfParsedPair(d: Dialect, l1: string, l2: string, e1: Entry, e2: Entry)
    requires ParseLine(d, l1) == Some(e1) && ParseLine(d, l2) == Some(e2)
    ensures Candidates(d, [l1, l2]) == [e1, e2]
  {
    CandidatesOfPair(d, l1, l2);
    AcceptedHolds(d, l1);
    AcceptedHolds(d, l2);
    assert [e1] + [e2] == [e1, e2];
  }

  /** Two discovered entries for one PID whose port texts denote one number become two records
      with equal parsed (pid, port). */
  lemma EqualPidPortRecords(lines: seq<string>, e1: Entry, e2: Entry)
    requires Discovered(Lsof, lines) == [e1, e2]
    requires e1.rawPid == e2.rawPid && DigitsValue(e1.rawPort, 10) == DigitsValue(e2.rawPort, 10)
    ensures var r := ParseLines(Lsof, lines);
      && |r| == 2
      && r[0].port == r[1].port
      && r[0].pid == r[1].pid
  {
    SamePidPortPair(Discovered(Lsof, lines));
  }

  lemma SamePidPortPair(es: seq<Entry>)
    requires |es| == 2 && ValidEntry(es[0]) && ValidEntry(es[1])
    requires es[0].rawPid == es[1].rawPid && DigitsValue(es[0].rawPort, 10) == DigitsValue(es[1].rawPort, 10)
    ensures var r := SortByPort(ToRecords(es));
      && |r| == 2
      && r[0].port == r[1].port
      && r[0].pid == r[1].pid
  {
    var rs := ToRecords(es);
    assert rs[0].port == rs[1].port && rs[0].pid == rs[1].pid;
    SortEqualPair(rs);
  }

  /** The key is raw text, so an lsof listing that spells one port two ways for one PID (such as
      "80" and "080") yields two records with equal parsed (pid, port): deduplication compares
      text, not numbers. */
  lemma RawKeyAllowsRepeatedPidPort(header: string, command: string, pid: string, p: string, q: string)
    requires command != [] && NoSpace(command) && pid != [] && NoSpace(pid)
    requires p != [] && AllDigits(p) && q != [] && AllDigits(q)
    requires p != q && DigitsValue(p, 10) == DigitsValue(q, 10)
    ensures var r := ParseLines(Lsof, [header, ListenLine(command, pid, p), ListenLine(command, pid, q)]);
      && |r| == 2
      && r[0].port == r[1].port
      && r[0].pid == r[1].pid
  {
    ListenLinesDiscovered(header, command, pid, p, q);
    EqualPidPortRecords([header, ListenLine(command, pid, p), ListenLine(command, pid, q)],
      Entry(command, pid, p, "*:" + p), Entry(command, pid, q, "*:" + q));
  }
}
