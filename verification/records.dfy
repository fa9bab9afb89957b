/** The records the port parsers produce and the kill and range operations return. */
module Records {
  import opened Wrappers
  import opened JsText

  /** One listening socket: the object `{ port, pid, process, address }` the parsers push.
      `pid` is `None` when `parseInt` of the PID column gives NaN. */
  datatype PortRecord = PortRecord(port: int, pid: Option<int>, process: string, address: string)

  /** A line the parser accepted, still holding the raw text of its columns. */
  datatype Entry = Entry(command: string, rawPid: string, rawPort: string, address: string)

  /** The outcome of one kill attempt: the record's fields plus `success` and, on failure, `error`. */
  datatype KillResult = KillResult(record: PortRecord, success: bool, error: Option<string>)

  /** The summary `getPortRange` returns for the closed interval [start, end]. */
  datatype PortRange = PortRange(start: int, end: int, total: int, used: int, free: int, ports: seq<PortRecord>)

  /** The deduplication key `${pid}-${port}`, built from the raw column text. */
  function Key(e: Entry): string {
    e.rawPid + "-" + e.rawPort
  }

  /** The length of the longest run of decimal digits that ends `s`. */
  function DigitSuffixLength(s: string): (n: nat)
    ensures n <= |s| && AllDigits(s[|s| - n..])
    ensures n < |s| ==> !IsDigit(s[|s| - n - 1])
  {
    if s == [] || !IsDigit(s[|s| - 1]) then 0
    else
      var n := DigitSuffixLength(s[..|s| - 1]) + 1;
      assert s[|s| - n..] == s[..|s| - 1][|s| - n..] + [s[|s| - 1]];
      n
  }

  /** `address.match(/:(\d+)$/)`: the digits that follow a colon and run to the end of the
      address. It is `None` exactly when no colon is followed by a non-empty all-digit rest. */
  function TrailingPort(address: string): (r: Option<string>)
    ensures r.Some? ==> && r.value != [] && AllDigits(r.value) && |r.value| < |address|
                        && address[|address| - |r.value| - 1] == ':'
                        && address[|address| - |r.value|..] == r.value
    ensures r.None? ==> forall k :: 0 <= k < |address| - 1 && address[k] == ':' ==> !AllDigits(address[k + 1..])
  {
    var n := DigitSuffixLength(address);
    if 0 < n < |address| && address[|address| - n - 1] == ':' then Some(address[|address| - n..])
    else
      None
  }

  /** An address of the form `<host>:<digits>` yields exactly those digits. */
  lemma TrailingPortOf(host: string, digits: string)
    requires digits != [] && AllDigits(digits)
    ensures TrailingPort(host + ":" + digits) == Some(digits)
  {
    var a := host + ":" + digits;
    var k := |host|;
    assert a[k] == ':';
    assert a[k + 1..] == digits;
    var r := TrailingPort(a);
    assert |r.value| == |digits|;
  }

  /** The entry's port column is the trailing port of its address, as the parsers guarantee. */
  predicate ValidEntry(e: Entry) {
    TrailingPort(e.address) == Some(e.rawPort)
  }

  /** The record pushed for an accepted line: `parseInt` of the port and PID columns. */
  function ToRecord(e: Entry): (r: PortRecord)
    requires ValidEntry(e)
    ensures r.port == DigitsValue(e.rawPort, 10) && r.pid == ParseInt(e.rawPid)
    ensures r.process == e.command && r.address == e.address
  {
    ParseIntLeadingDecimal(e.rawPort, []);
    assert e.rawPort + [] == e.rawPort;
    PortRecord(ParseInt(e.rawPort).value, ParseInt(e.rawPid), e.command, e.address)
  }

  /** Since a port is all digits, the key `${pid}-${port}` identifies the raw (pid, port) pair:
      the last hyphen of the key separates the two. */
  lemma KeyInjective(a: Entry, b: Entry)
    requires AllDigits(a.rawPort) && AllDigits(b.rawPort)
    ensures Key(a) == Key(b) <==> a.rawPid == b.rawPid && a.rawPort == b.rawPort
  {
    if Key(a) == Key(b) {
      var s := Key(a);
      assert s[|s| - |a.rawPort| - 1] == '-' && s[|s| - |b.rawPort| - 1] == '-';
      assert forall i :: |s| - |a.rawPort| <= i < |s| ==> IsDigit(s[i]) by {
        assert s[|s| - |a.rawPort|..] == a.rawPort;
      }
      assert forall i :: |s| - |b.rawPort| <= i < |s| ==> IsDigit(s[i]) by {
        assert s[|s| - |b.rawPort|..] == b.rawPort;
      }
      assert |a.rawPort| == |b.rawPort|;
      assert a.rawPort == s[|s| - |a.rawPort|..] == b.rawPort;
      assert a.rawPid == s[..|a.rawPid|] == b.rawPid;
    }
  }
}
