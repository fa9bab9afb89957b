/** The read-only queries over the active listening sockets: `getPortInfo`, `getPortRange` and
    `cleanZombies`. Each takes the records `getActivePorts()` returned as the parameter `active`. */
module Queries {
  import opened Wrappers
  import opened Seqs
  import opened JsText
  import opened Records
  import opened PortOrder
  import opened Parsers

  // ---------------------------------------------------------------------------------------
  // getPortInfo

  /** The selector `p => p.port === parseInt(port)`, with `parseInt(port)` already computed;
      NaN equals no number. */
  function PortEquals(n: Option<int>): PortRecord -> bool {
    (x: PortRecord) => n == Some(x.port)
  }

  /** `getPortInfo(port)`: the active records on the port `parseInt(port)`, in their order in
      `active`. An argument that does not parse selects nothing. */
  function GetPortInfo(portArg: string, active: seq<PortRecord>): (r: seq<PortRecord>)
    ensures IsSubseq(r, active)
    ensures forall x :: x in r <==> x in active && ParseInt(portArg) == Some(x.port)
    ensures ParseInt(portArg).None? ==> r == []
    ensures forall i :: 0 <= i < |r| ==> ParseInt(portArg) == Some(r[i].port)
  {
    match ParseInt(portArg)
    case None => []
    case Some(n) =>
      FilterIsSubseq(active, PortIs(n));
      WithPort(active, n)
  }

  /** `getPortInfo` is the filter with the selector of the source, NaN included. */
  lemma {:induction false} GetPortInfoIsFilter(portArg: string, active: seq<PortRecord>)
    ensures GetPortInfo(portArg, active) == Filter(active, PortEquals(ParseInt(portArg)))
  {
    var n := ParseInt(portArg);
    match n
    case None =>
      NoneSelectsNothing(active);
    case Some(m) =>
      SameSelectorSameFilter(active, PortIs(m), PortEquals(n));
  }

  lemma {:induction false} NoneSelectsNothing(s: seq<PortRecord>)
    ensures Filter(s, PortEquals(None)) == []
    decreases |s|
  {
    if s != [] {
      NoneSelectsNothing(s[1..]);
    }
  }

  lemma {:induction false} SameSelectorSameFilter(s: seq<PortRecord>, f: PortRecord -> bool, g: PortRecord -> bool)
    requires forall x :: f(x) == g(x)
    ensures Filter(s, f) == Filter(s, g)
    decreases |s|
  {
    if s != [] {
      SameSelectorSameFilter(s[1..], f, g);
    }
  }

  /** On parsed output, the records `getPortInfo` returns come in discovery order: the stable
      sort by port never reorders records that share a port. */
  lemma GetPortInfoOfParsed(d: Dialect, lines: seq<string>, portArg: string, n: int)
    requires ParseInt(portArg) == Some(n)
    ensures GetPortInfo(portArg, ParseLines(d, lines)) == WithPort(ToRecords(Discovered(d, lines)), n)
  {
    ParseLinesStable(d, lines);
    assert WithPort(ParseLines(d, lines), n) == WithPort(ToRecords(Discovered(d, lines)), n);
  }

  /** The port argument is read by `parseInt`, leniently: trailing text after the digits is
      ignored and a `0x` prefix reads hexadecimal, so "80abc" and "0x50" select what "80"
      selects; an argument with no digits where they are expected selects nothing. */
  lemma PortArgumentSpellings(active: seq<PortRecord>)
    ensures GetPortInfo("80abc", active) == GetPortInfo("80", active)
    ensures GetPortInfo("0x50", active) == GetPortInfo("80", active)
    ensures GetPortInfo("abc", active) == [] && GetPortInfo("", active) == []
    ensures GetPortInfo("0x", active) == []
  {
    ParseIntDecimalExamples("80");
    ParseIntDecimalExamples("80abc");
    ParseIntHexExample();
    ParseIntNaNExamples();
    ParseIntBareHexPrefix();
  }

  // ---------------------------------------------------------------------------------------
  // getPortRange

  const NotNumbers := "Invalid port range: ports must be numbers"
  const Reversed := "Invalid port range: start port must be less than end port"
  const OutOfBounds := "Invalid port range: ports must be between 1 and 65535"

  /** The validation `getPortRange` performs before it looks at any socket, in its order:
      both numbers, then their order, then the bounds. Equal ends are accepted. */
  function CheckRange(startArg: string, endArg: string): (r: Result<(int, int)>)
    ensures ParseInt(startArg).None? || ParseInt(endArg).None? ==> r == Err(NotNumbers)
    ensures ParseInt(startArg).Some? && ParseInt(endArg).Some? ==>
      var start, end := ParseInt(startArg).value, ParseInt(endArg).value;
      && (start > end ==> r == Err(Reversed))
      && (start <= end && (start < 1 || end > 65535) ==> r == Err(OutOfBounds))
      && (1 <= start <= end <= 65535 ==> r == Ok((start, end)))
    ensures r.Ok? ==> 1 <= r.value.0 <= r.value.1 <= 65535
  {
    var start, end := ParseInt(startArg), ParseInt(endArg);
    if start.None? || end.None? then Err(NotNumbers)
    else if start.value > end.value then Err(Reversed)
    else if start.value < 1 || end.value > 65535 then Err(OutOfBounds)
    else Ok((start.value, end.value))
  }

  /** The selector `p => p.port >= start && p.port <= end`. */
  function PortBetween(lo: int, hi: int): PortRecord -> bool {
    (x: PortRecord) => lo <= x.port <= hi
  }

  /** `getPortRange(startPort, endPort)` as written: `used` is the number of records whose port
      lies in the range, so a port with several listening records counts several times. */
  function GetPortRange(startArg: string, endArg: string, active: seq<PortRecord>): (r: Result<PortRange>)
    ensures r.Err? <==> CheckRange(startArg, endArg).Err?
    ensures r.Err? ==> r.message == CheckRange(startArg, endArg).message
    ensures r.Ok? ==>
      && (r.value.start, r.value.end) == CheckRange(startArg, endArg).value
      && r.value.total == r.value.end - r.value.start + 1
      && r.value.used == |r.value.ports|
      && r.value.used == Count(active, PortBetween(r.value.start, r.value.end))
      && r.value.used + r.value.free == r.value.total
      && IsSubseq(r.value.ports, active)
      && (forall x :: x in r.value.ports <==> x in active && r.value.start <= x.port <= r.value.end)
  {
    match CheckRange(startArg, endArg)
    case Err(m) => Err(m)
    case Ok((start, end)) =>
      var ports := Filter(active, PortBetween(start, end));
      FilterIsSubseq(active, PortBetween(start, end));
      Ok(PortRange(start, end, end - start + 1, |ports|, (end - start + 1) - |ports|, ports))
  }

  /** A negative start is read as a number, so it fails the bounds check rather than the
      number check: " -12" to "80" is out of bounds. */
  lemma NegativeStartOutOfBounds(startArg: string, active: seq<PortRecord>)
    requires startArg == " -12"
    ensures GetPortRange(startArg, "80", active) == Err(OutOfBounds)
  {
    ParseIntSignedExample(startArg);
    ParseIntDecimalExamples("80");
  }

  /** The ports a sequence of records occupies. */
  function PortsOf(s: seq<PortRecord>): (ps: set<int>)
    ensures |ps| <= |s|
    ensures forall i :: 0 <= i < |s| ==> s[i].port in ps
  {
    if s == [] then {} else {s[0].port} + PortsOf(s[1..])
  }

  /** Records whose ports all lie in [lo, hi] occupy ports of [lo, hi] only. */
  lemma {:induction false} PortsWithin(s: seq<PortRecord>, lo: int, hi: int)
    requires forall i :: 0 <= i < |s| ==> lo <= s[i].port <= hi
    ensures PortsOf(s) <= Interval(lo, hi)
    decreases |s|
  {
    if s != [] {
      var tail := s[1..];
      assert forall i :: 0 <= i < |tail| ==> tail[i] == s[i + 1];
      PortsWithin(tail, lo, hi);
    }
  }

  /** No two records of `s` share a port. */
  predicate DistinctPorts(s: seq<PortRecord>) {
    forall i, j :: 0 <= i < j < |s| ==> s[i].port != s[j].port
  }

  lemma {:induction false} PortsOfDistinct(s: seq<PortRecord>)
    requires DistinctPorts(s)
    ensures |PortsOf(s)| == |s|
    decreases |s|
  {
    if s != [] {
      var tail := s[1..];
      assert forall i :: 0 <= i < |tail| ==> tail[i] == s[i + 1];
      PortsOfDistinct(tail);
      PortUnoccupied(tail, s[0].port);
    }
  }

  /** A port no record of `s` is on is not among its ports. */
  lemma {:induction false} PortUnoccupied(s: seq<PortRecord>, p: int)
    requires forall i :: 0 <= i < |s| ==> s[i].port != p
    ensures p !in PortsOf(s)
    decreases |s|
  {
    if s != [] {
      var tail := s[1..];
      assert forall i :: 0 <= i < |tail| ==> tail[i] == s[i + 1];
      PortUnoccupied(tail, p);
    }
  }

  /** The integers from `lo` to `hi`. */
  function Interval(lo: int, hi: int): (r: set<int>)
    ensures forall p :: p in r <==> lo <= p <= hi
    ensures |r| == if lo <= hi then hi - lo + 1 else 0
    decreases hi - lo
  {
    if lo > hi then {} else {lo} + Interval(lo + 1, hi)
  }

  /** A summary with `used` recounted as the number of distinct ports among `ports`, and `free`
      as the ports of the range left over. */
  function Recount(w: PortRange): (r: PortRange)
    requires w.start <= w.end && w.total == w.end - w.start + 1
    requires forall i :: 0 <= i < |w.ports| ==> w.start <= w.ports[i].port <= w.end
    ensures r.start == w.start && r.end == w.end && r.total == w.total && r.ports == w.ports
    ensures r.used == |PortsOf(w.ports)| && r.used <= |w.ports|
    ensures 0 <= r.used <= r.total && 0 <= r.free <= r.total && r.used + r.free == r.total
  {
    var used := PortsOf(w.ports);
    PortsWithin(w.ports, w.start, w.end);
    assert Interval(w.start, w.end) == used + (Interval(w.start, w.end) - used);
    PortRange(w.start, w.end, w.total, |used|, w.total - |used|, w.ports)
  }

  /** `getPortRange` with `used` counting distinct ports: every record in the range still comes
      back in `ports`, and `free` is the number of ports in the range nobody listens on. */
  function GetPortRangeDistinct(startArg: string, endArg: string, active: seq<PortRecord>): (r: Result<PortRange>)
    ensures r.Err? <==> GetPortRange(startArg, endArg, active).Err?
    ensures r.Err? ==> r == GetPortRange(startArg, endArg, active)
    ensures r.Ok? ==>
      var w := GetPortRange(startArg, endArg, active).value;
      && r.value.start == w.start && r.value.end == w.end && r.value.total == w.total
      && r.value.ports == w.ports
      && r.value.used == |PortsOf(w.ports)|
      && 0 <= r.value.used <= r.value.total
      && 0 <= r.value.free <= r.value.total
      && r.value.used + r.value.free == r.value.total
      && r.value.used <= w.used
  {
    match GetPortRange(startArg, endArg, active)
    case Err(m) => Err(m)
    case Ok(w) =>
      assert forall i :: 0 <= i < |w.ports| ==> w.start <= w.ports[i].port <= w.end by {
        assert forall i :: 0 <= i < |w.ports| ==> w.ports[i] in w.ports;
      }
      Ok(Recount(w))
  }

  /** When no port in the range has more than one record, the two summaries agree. */
  lemma GetPortRangeDistinctAgrees(startArg: string, endArg: string, active: seq<PortRecord>)
    requires GetPortRange(startArg, endArg, active).Ok?
    requires DistinctPorts(GetPortRange(startArg, endArg, active).value.ports)
    ensures GetPortRangeDistinct(startArg, endArg, active) == GetPortRange(startArg, endArg, active)
  {
    var w := GetPortRange(startArg, endArg, active).value;
    PortsOfDistinct(w.ports);
    assert GetPortRangeDistinct(startArg, endArg, active).value == w;
  }

  /** A port held by two records, such as an nginx master and worker listening on port 80,
      makes `getPortRange` over that one port report a negative number of free ports. */
  lemma NegativeFree(arg: string, a: PortRecord, b: PortRecord)
    requires ParseInt(arg).Some? && 1 <= ParseInt(arg).value <= 65535
    requires a.port == ParseInt(arg).value && b.port == a.port
    ensures var n := ParseInt(arg).value;
      GetPortRange(arg, arg, [a, b]) == Ok(PortRange(n, n, 1, 2, -1, [a, b]))
    ensures GetPortRangeDistinct(arg, arg, [a, b]).value.free == 0
  {
    var n := ParseInt(arg).value;
    assert CheckRange(arg, arg) == Ok((n, n));
    FilterKeepsPair(a, b, PortBetween(n, n));
    PortsOfPair(a, b);
  }

  lemma PortsOfPair(a: PortRecord, b: PortRecord)
    requires a.port == b.port
    ensures PortsOf([a, b]) == {a.port}
  {
    assert [a, b][1..] == [b];
    assert [b][1..] == [];
  }

  /** The case above on port 80. */
  lemma NegativeFreeOnPort80(a: PortRecord, b: PortRecord)
    requires a.port == 80 && b.port == 80
    ensures GetPortRange("80", "80", [a, b]).Ok?
    ensures GetPortRange("80", "80", [a, b]).value.free == -1
  {
    ParseIntDecimalExamples("80");
    NegativeFree("80", a, b);
  }

  // ---------------------------------------------------------------------------------------
  // cleanZombies

  /** The names `cleanZombies` looks for, in its order. */
  const ZombieNames: seq<string> := ["node", "python", "python3", "ruby", "java", "deno"]

  /** `names.some(name => s.includes(name))`. */
  predicate MatchesAny(s: string, names: seq<string>)
    decreases |names|
  {
    names != [] && (Contains(s, names[0]) || MatchesAny(s, names[1..]))
  }

  /** The record's process name, lower-cased, contains a watched name. */
  predicate IsZombie(x: PortRecord) {
    MatchesAny(ToLower(x.process), ZombieNames)
  }

  /** `cleanZombies()`: the active records whose process looks like a development server, in
      their order in `active`. Nothing is killed. */
  function CleanZombies(active: seq<PortRecord>): (r: seq<PortRecord>)
    ensures IsSubseq(r, active)
    ensures forall x :: x in r <==> x in active && IsZombie(x)
    ensures |r| == Count(active, IsZombie)
  {
    FilterIsSubseq(active, IsZombie);
    Filter(active, IsZombie)
  }

  /** `some` holds exactly when one of the names occurs. */
  lemma {:induction false} MatchesAnyExists(s: string, names: seq<string>)
    ensures MatchesAny(s, names) <==> exists i :: 0 <= i < |names| && Contains(s, names[i])
    decreases |names|
  {
    if names != [] {
      MatchesAnyExists(s, names[1..]);
      assert forall i :: 0 < i < |names| ==> names[i] == names[1..][i - 1];
      if exists i :: 0 < i < |names| && Contains(s, names[i]) {
        var i :| 0 < i < |names| && Contains(s, names[i]);
        assert Contains(s, names[1..][i - 1]);
      }
    }
  }

  /** Anything that contains "python3" contains "python". */
  lemma Python3ContainsPython(s: string)
    requires Contains(s, "python3")
    ensures Contains(s, "python")
  {
    ContainsAt(s, "python3");
    ContainsAt(s, "python");
    var i :| OccursAt(s, "python3", i);
    assert s[i..i + 6] == s[i..i + 7][..6];
    assert "python3"[..6] == "python";
    assert OccursAt(s, "python", i);
  }

  /** "python3" in the list changes nothing: the list without it selects the same records. */
  lemma Python3Redundant(s: string)
    ensures MatchesAny(s, ZombieNames) <==> MatchesAny(s, ["node", "python", "ruby", "java", "deno"])
  {
    MatchesAnyExists(s, ZombieNames);
    MatchesAnyExists(s, ["node", "python", "ruby", "java", "deno"]);
    if Contains(s, "python3") {
      Python3ContainsPython(s);
    }
  }

  /** Matching ignores case and looks inside longer names. */
  lemma ZombieNameExamples(x: PortRecord)
    ensures x.process == "Node" ==> IsZombie(x)
    ensures x.process == "nodejs-worker" ==> IsZombie(x)
    ensures x.process == "PYTHON3.EXE" ==> IsZombie(x)
    ensures x.process == "nginx" ==> !IsZombie(x)
  {
    if x.process == "Node" {
      CapitalNodeMatches(x.process);
    } else if x.process == "nodejs-worker" {
      NodeWorkerMatches(x.process);
    } else if x.process == "PYTHON3.EXE" {
      CapitalPythonMatches(x.process);
    } else if x.process == "nginx" {
      NginxMatchesNothing(x.process);
    }
  }

  /** A text that starts with a watched name is matched. */
  lemma StartsWithWatched(s: string, i: int)
    requires 0 <= i < |ZombieNames| && StartsWith(s, ZombieNames[i])
    ensures MatchesAny(s, ZombieNames)
  {
    assert Contains(s, ZombieNames[i]);
    MatchesAnyExists(s, ZombieNames);
  }

  lemma CapitalNodeMatches(s: string)
    requires s == "Node"
    ensures MatchesAny(ToLower(s), ZombieNames)
  {
    var t := ToLower(s);
    assert t == "node";
    StartsWithWatched(t, 0);
  }

  lemma NodeWorkerMatches(s: string)
    requires s == "nodejs-worker"
    ensures MatchesAny(ToLower(s), ZombieNames)
  {
    var t := ToLower(s);
    assert t[..4] == "node";
    StartsWithWatched(t, 0);
  }

  lemma CapitalPythonMatches(s: string)
    requires s == "PYTHON3.EXE"
    ensures MatchesAny(ToLower(s), ZombieNames)
  {
    var t := ToLower(s);
    assert t[..6] == "python";
    StartsWithWatched(t, 1);
  }

  lemma NginxMatchesNothing(s: string)
    requires s == "nginx"
    ensures !MatchesAny(ToLower(s), ZombieNames)
  {
    var t := ToLower(s);
    assert t == "nginx";
    NoWatchedLetters(t);
  }

  /** No watched name occurs in "unknown", the process name of every netstat record. */
  lemma UnknownIsNoZombie(x: PortRecord)
    requires x.process == "unknown"
    ensures !IsZombie(x)
  {
    UnknownIsLowerCase();
    UnknownMatchesNoName();
  }

  lemma UnknownIsLowerCase()
    ensures ToLower("unknown") == "unknown"
  {
  }

  lemma UnknownMatchesNoName()
    ensures !MatchesAny("unknown", ZombieNames)
  {
    NoWatchedLetters("unknown");
  }

  /** Every watched name has a 'd', a 'p', an 'r' or a 'j'; a text without any of them matches
      none. */
  lemma NoWatchedLetters(s: string)
    requires 'd' !in s && 'p' !in s && 'r' !in s && 'j' !in s
    ensures !MatchesAny(s, ZombieNames)
  {
    MissingCharNotContained(s, "node", 'd');
    MissingCharNotContained(s, "python", 'p');
    MissingCharNotContained(s, "python3", 'p');
    MissingCharNotContained(s, "ruby", 'r');
    MissingCharNotContained(s, "java", 'j');
    MissingCharNotContained(s, "deno", 'd');
    MatchesAnyExists(s, ZombieNames);
  }

  /** Records that all carry the process name "unknown" contain no zombie. */
  lemma NoZombiesAmongUnknown(rs: seq<PortRecord>)
    requires forall x :: x in rs ==> x.process == "unknown"
    ensures CleanZombies(rs) == []
  {
    forall x | x in rs
      ensures !IsZombie(x)
    {
      UnknownIsNoZombie(x);
    }
  }

  /** On Windows `cleanZombies` never finds anything: netstat output carries no process names. */
  lemma WindowsHasNoZombies(output: string)
    ensures CleanZombies(ParseWindowsOutput(output)) == []
  {
    NoZombiesAmongUnknown(ParseWindowsOutput(output));
  }
}
