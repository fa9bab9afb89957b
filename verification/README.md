# portguard core in Dafny

portguard lists the TCP sockets that are listening on a machine, shows which process holds each
port, and can kill those processes. Its core is `lib/portguard.js`:

- two parsers turn the text of `lsof -iTCP -sTCP:LISTEN -n -P` (Unix) or
  `netstat -ano | findstr LISTENING` (Windows) into port records;
- three queries read those records: `getPortInfo` for one port, `getPortRange` for a range,
  `cleanZombies` for development servers;
- `killProcess` runs `kill` or `taskkill` and rewords its errors, and `killPort` kills every
  process on a port.

This project models that core as pure Dafny functions over immutable data. It proves what each
operation returns, in terms of the text it reads and the records it is given.

Modules, one file each:

- `Wrappers` (`wrappers.dfy`): `Option`, `Result`, and `Outcome` (pass or fail with a message).
- `Seqs` (`seqs.dfy`): `Filter`, `Count`, subsequences, `Map`, and small sequence facts.
- `JsText` (`jstext.dfy`): the JavaScript string primitives the core calls.
  - `trim`, `split('\n')` and `join`, `split(/\s+/)`.
  - `includes` and `toLowerCase`.
  - `parseInt` with no radix, and `String(n)` of an integral number.
- `Records` (`records.dfy`): the record types.
  - `PortRecord` is `{port, pid, process, address}`; `KillResult` and `PortRange` are the other results.
  - `Entry` is an accepted line that still holds its raw columns.
  - `Key` builds the `${pid}-${port}` key, and `TrailingPort` models the regular expression `/:(\d+)$/`.
- `PortOrder` (`portorder.dfy`): the stable sort `ports.sort((a, b) => a.port - b.port)`.
- `Dedup` (`dedup.dfy`): the `seen`-set loop that keeps the first entry for each key.
- `Parsers` (`parsers.dfy`): `parseUnixOutput` and `parseWindowsOutput`.
- `Queries` (`queries.dfy`): `getPortInfo`, `getPortRange` and `cleanZombies`.
- `Kill` (`kill.dfy`): `killProcess` and `killPort`.

What the model takes as parameters:

- The records that `getActivePorts()` would return are the parameter `active`.
- `process.platform` is the parameter `platform`, either `Windows` or `Unix`.
- Running a shell command is the parameter `exec`. It maps the command text to `None` when the
  command succeeds, and to `Some(message)` when the promise rejects with an error carrying that message.
- A function that throws returns `Err(message)` (a `Result`) or `Fail(message)` (an `Outcome`).

## Model

| member | source | states |
|---|---|---|
| Parsers.Lines | lib/portguard.js:71 | There is always at least one line, no line holds a newline, and the lines joined back with newlines give the trimmed output. |
| Parsers.LsofLine | lib/portguard.js:76-87 | An lsof line is rejected exactly when it has fewer than 9 white-space-separated fields, or when field 8 has no `:<digits>` at its end. An accepted line gives command = field 0, pid = field 1, address = field 8, and port = the trailing digits of the address. |
| Parsers.NetstatLine | lib/portguard.js:113-123 | A netstat line is trimmed first. It is rejected exactly when it has fewer than 5 fields or field 1 has no trailing `:<digits>`. An accepted line gives address = field 1, pid = field 4, process "unknown", and port = the trailing digits. |
| Parsers.ParseUnixOutput | lib/portguard.js:70-102 | The result is sorted by port, and it is a permutation of the records built from the entries the seen-set loop kept. Those entries have pairwise distinct `${pid}-${port}` keys. |
| Parsers.ParseWindowsOutput | lib/portguard.js:107-138 | The same guarantees as for lsof output, and every record has the process name "unknown". |
| Parsers.ParseLines | lib/portguard.js:75-101 | For both line formats, the result is sorted by port and is a permutation of the records of the discovered entries. |
| Parsers.ParseLinesStable | lib/portguard.js:101 | Within each port, the records keep the order in which their lines were read. |
| Parsers.NetstatProcessUnknown | lib/portguard.js:131 | Every record parsed from netstat output has the process name "unknown". |
| Parsers.SkippedLineIgnored | lib/portguard.js:77-85 | Inserting a line the parser rejects anywhere after the lsof header leaves the result unchanged. |
| Parsers.LsofHeaderIgnored | lib/portguard.js:71 | The first line of lsof output never affects the result, whatever it holds. |
| Parsers.Candidates | lib/portguard.js:75-87 | The line loop yields one entry per accepted line, so the number of entries is the number of lines the parser accepts. Every entry is well formed, and netstat entries have the process name "unknown". |
| Parsers.CandidateOfLine | lib/portguard.js:75-87 | The entry of every accepted line is among the entries the loop yields. |
| Parsers.CandidateFromLine | lib/portguard.js:75-87 | Conversely, every entry the loop yields is the entry of one of the lines. |
| Parsers.Discovered | lib/portguard.js:75-98 | The kept entries are a subsequence of the entries of the accepted lines, with exactly their keys, each key once. Each kept entry is the first entry with its key, and the kept entries come in the order in which their keys first occur. |
| Parsers.AcceptedLineKept | lib/portguard.js:88-98 | Every accepted line is represented in the result: its key is among the kept keys, and the record of the first entry with that key is in the result. |
| Parsers.LsofLineOfColumns | lib/portguard.js:76-87 | Columns separated by runs of white space of any length parse back to those columns: command = column 0, pid = column 1, address = column 8, and the address's trailing port. |
| Parsers.LsofLeadingRun | lib/portguard.js:76-81 | An lsof line is not trimmed, so white space before the first column makes field 0 empty. The command then reads as "", the pid as the first column, and the address as the eighth column. |
| Parsers.NetstatLineOfColumns | lib/portguard.js:113-123 | A netstat line of columns separated by runs of white space, with any padding before and after, gives address = column 1, pid = column 4, and the address's trailing port. |
| Parsers.OutputOfLines | lib/portguard.js:71 | For output built by joining lines with newlines, and with no white space at either end, the parsers read exactly those lines. |
| Parsers.CandidatesAppend | lib/portguard.js:75 | The line loop is compositional: the entries of `a + b` are the entries of `a` followed by those of `b`. |
| Parsers.ListenLinesDiscovered | lib/portguard.js:88-98 | Two lsof lines for one PID on two different port texts are both kept, in line order. |
| Parsers.RawKeyAllowsRepeatedPidPort | lib/portguard.js:87-94 | Two lsof lines with the same PID whose port texts differ but have the same value (such as "80" and "080") give two records with equal parsed pid and port. |
| Dedup.Collect | lib/portguard.js:88-98 | From a given `seen` set, the loop keeps a subsequence of the entries with pairwise distinct keys. The kept keys are exactly the keys not yet seen, each kept entry is the first entry with its key, and the kept entries come in the order in which their keys first occur. |
| Dedup.FirstOccurrences | lib/portguard.js:73-98 | Starting from an empty set, every key of the input is kept exactly once, through its first entry, in the order in which the keys first occur. |
| Dedup.FirstOccurrencesUnique | lib/portguard.js:73-98 | Any sequence that keeps the first entry of every key, in first-occurrence order, is the loop's result. |
| Dedup.FirstIndex | lib/portguard.js:90 | The position of the first entry with a key: it has the key, no earlier entry does, and it is the length exactly when no entry has the key. |
| Dedup.FirstOccurrencesOfDistinct | lib/portguard.js:88-98 | When the keys are already distinct, the loop keeps every entry. |
| Dedup.FirstWithKey | lib/portguard.js:90 | The result is absent exactly when no entry has the key. Otherwise it is an entry with that key, at a position before which no entry has the key. |
| Records.TrailingPort | lib/portguard.js:84-85 | The match `/:(\d+)$/` gives non-empty digits that end the address right after a colon. It fails only when no colon is followed by an all-digit rest. |
| Records.TrailingPortOf | lib/portguard.js:84 | An address `<host>:<digits>` yields exactly those digits. |
| Records.KeyInjective | lib/portguard.js:88 | Two keys `${pid}-${port}` with all-digit ports are equal exactly when the raw pids and raw ports are equal. |
| Records.ToRecord | lib/portguard.js:92-97 | The port is the value of the port digits, the pid is `parseInt` of the PID column, and process and address are copied. |
| PortOrder.SortByPort | lib/portguard.js:101 | The sort returns a permutation of its input, ordered by ascending port. |
| PortOrder.SortByPortStable | lib/portguard.js:101 | The sort is stable: records on one port stay in their input order. |
| PortOrder.SortedSamePortOrderUnique | lib/portguard.js:101 | Two port-sorted sequences that order every port alike are equal, so any stable sort by port returns the same result as this one. |
| PortOrder.SortByPortOfSorted | lib/portguard.js:101 | An input already sorted by port comes back unchanged. |
| Queries.GetPortInfo | lib/portguard.js:143-146 | The result is a subsequence of `active` holding exactly the records whose port equals `parseInt(port)`. An argument that parses to NaN selects nothing. |
| Queries.GetPortInfoIsFilter | lib/portguard.js:145 | `getPortInfo` is `filter` with the source's selector, with NaN equal to no number. |
| Queries.PortArgumentSpellings | lib/portguard.js:143-146 | `parseInt` reads the port argument leniently: "80abc" and "0x50" select what "80" selects, and "abc", "" and "0x" select nothing. |
| Queries.GetPortInfoOfParsed | lib/portguard.js:145 | On parsed output, the records of one port come back in the order their lines were discovered. |
| Queries.CheckRange | lib/portguard.js:152-165 | The checks run in the source's order: "must be numbers" for NaN, then "start port must be less than end port" when start > end, then "between 1 and 65535". Otherwise `1 <= start <= end <= 65535`. |
| Queries.GetPortRange | lib/portguard.js:151-178 | The call fails exactly when the checks fail, with the same message. Otherwise total = end - start + 1, and used is the number of records of `active` whose port lies in [start, end]. used + free = total, and `ports` is the subsequence of `active` whose ports lie in [start, end]. |
| Queries.NegativeStartOutOfBounds | lib/portguard.js:152-163 | A start of " -12" parses as -12, so `getPortRange(" -12", "80")` fails the bounds check, not the number check. |
| Queries.NegativeFree | lib/portguard.js:173-175 | Two records on one port, with a range of just that port, give used 2 and free -1. The distinct-port summary gives free 0. |
| Queries.NegativeFreeOnPort80 | lib/portguard.js:173-175 | `getPortRange("80", "80")` over two records on port 80 reports free == -1. |
| Queries.GetPortRangeDistinct | lib/portguard.js:170-177 | The corrected summary: same errors, bounds, total and ports. used is the number of distinct occupied ports, with 0 <= used, free <= total and used + free == total. |
| Queries.Recount | lib/portguard.js:174-175 | Counting distinct ports never exceeds the record count, and it keeps free within [0, total]. |
| Queries.GetPortRangeDistinctAgrees | lib/portguard.js:174-175 | When no port in the range holds two records, the corrected summary equals the one as written. |
| Seqs.Filter | lib/portguard.js:145 | `filter` returns as many elements as satisfy the selector. Every element it returns satisfies the selector and comes from the input, and every input element that satisfies the selector is returned. |
| Queries.PortsWithin | lib/portguard.js:168 | Records whose ports lie in [lo, hi] occupy ports of that interval only. |
| Queries.CleanZombies | lib/portguard.js:228-237 | The result is the subsequence of `active` whose lower-cased process name contains a watched name. Its length is the count of such records. |
| Queries.MatchesAnyExists | lib/portguard.js:233 | `some(name => s.includes(name))` holds exactly when one of the names occurs in `s`. |
| Queries.Python3Redundant | lib/portguard.js:230 | Removing "python3" from the watch list selects the same processes, because "python" already matches them. |
| Queries.ZombieNameExamples | lib/portguard.js:230-234 | "Node", "nodejs-worker" and "PYTHON3.EXE" are matched; "nginx" is not. |
| Queries.WindowsHasNoZombies | lib/portguard.js:228-237 | On parsed netstat output, `cleanZombies` finds nothing, because every process name is "unknown". |
| Kill.KillCommand | lib/portguard.js:185-189 | Split on white space, the kill command is the program, then the force flag only when forcing, then the pid (after "/PID" on Windows). The empty flag position adds no argument. |
| Kill.KillCommandWords | lib/portguard.js:185-189 | The last word of the kill command reads back as the pid. |
| Kill.NumberTextWord | lib/portguard.js:186-188 | The interpolated pid is a single word, and `parseInt` reads it back as the pid, with NaN included. |
| Kill.KillErrorMessage | lib/portguard.js:192-198 | A "No such process" or "not found" message becomes `Process <pid> not found`. Otherwise a "permission" or "denied" message becomes the sudo hint. Any other message passes through unchanged. |
| Kill.KillErrorMessageIdempotent | lib/portguard.js:192-198 | Rewording a message that was already reworded changes nothing. |
| Kill.KillProcess | lib/portguard.js:183-200 | The call succeeds exactly when the command succeeds. When the command fails, the call fails with the reworded message of the command's error. |
| Kill.Attempt | lib/portguard.js:214-219 | One loop step reports the record, success exactly when the kill succeeds, and otherwise the reworded error. |
| Kill.KillEach | lib/portguard.js:212-220 | The loop gives one result per process, in order, each reporting its own attempt. |
| Kill.KillPort | lib/portguard.js:205-223 | The call fails with `No process found on port <port>` exactly when `getPortInfo` finds nothing. Otherwise it returns one result per record found, in order, each on the requested port. |
| JsText.Trim | lib/portguard.js:113 | The trimmed text neither starts nor ends with white space. |
| JsText.TrimIsInfix | lib/portguard.js:71 | The trimmed text is what lies between a leading and a trailing run of white space. |
| JsText.SplitWs | lib/portguard.js:76 | `split(/\s+/)` gives at least one field, and no field holds white space. Only the first and last fields can be empty. It gives one field exactly when the text has no white space. JsText.SplitWsOfRuns and JsText.SplitWsRebuilds state which fields it gives. |
| JsText.SplitWsRun | lib/portguard.js:76 | A field followed by a run of white space of any length is split off as one field, ahead of the fields of the rest. |
| JsText.SplitWsOfRuns | lib/portguard.js:76 | Fields separated by non-empty runs of white space split back into exactly those fields, whatever the runs. |
| JsText.SplitWsRebuilds | lib/portguard.js:76 | Every text is its fields with non-empty runs of white space put back between them, so the split drops nothing but white space and keeps the fields in order. |
| JsText.TrimPadded | lib/portguard.js:113 | `trim` removes exactly the white space around text that neither starts nor ends with white space. |
| JsText.SplitOn | lib/portguard.js:108 | `split('\n')` gives at least one piece, no piece holds a newline, and the pieces joined with newlines give back the text. |
| JsText.SplitOnJoin | lib/portguard.js:108 | Splitting on newlines undoes joining with newlines, for lines without a newline. |
| JsText.ParseInt | lib/portguard.js:152-153 | `parseInt` is NaN exactly when no digit follows the white space, sign and hexadecimal prefix. Without a minus sign, the value is non-negative. |
| JsText.ParseIntLeadingDecimal | lib/portguard.js:93 | A decimal numeral followed by a non-digit is read in full ("80abc" gives 80), except "0" followed by "x". |
| JsText.ParseIntOfIntToString | lib/portguard.js:186-188 | `parseInt(String(n)) == n` for every integer n. |
| JsText.ToLower | lib/portguard.js:233 | Lower-casing keeps the length and maps each character on its own. |
| JsText.ContainsAt | lib/portguard.js:192-195 | `includes` holds exactly when the needle occurs at some position. |

## Left out

- `getActivePorts`, `getPortsUnix` and `getPortsWindows` (lib/portguard.js:13-65) run `lsof` or
  `netstat` and try three `lsof` paths. That is process execution; the queries take its result as
  the parameter `active`, and the parsers take the text it would read.
- The display functions after line 238 of lib/portguard.js, the command-line front end
  bin/portguard.js, and test/test.js are not part of this model.
- Asynchrony: `await`, promises and `try`/`catch` become plain results. A thrown error is an `Err`
  or a `Fail` carrying its message.
- Kill.KillProcess: the effect of the kill command on the operating system is not modelled. `exec`
  is a pure function of the command text, so two calls with the same command give the same answer.
- Kill.KillCommand: the shell's word splitting is modelled as `split(/\s+/)`; quoting,
  globbing and `$` expansion cannot occur in these commands, which hold only fixed words and a number.
- JsText.ParseInt: JavaScript numbers are doubles. Precision loss above 2^53, the exponent form
  `String` uses from 1e21, and `Infinity` are not modelled; values are unbounded integers.
- JsText.ToLower: only A to Z are lowered. No non-ASCII character lowers to one of the letters of the
  watched names, so which records `cleanZombies` selects is unaffected.
- JsText.SplitWs: the `\s` class is modelled as ECMA-262's WhiteSpace and LineTerminator code points
  listed in `IsSpace`.
- Kill.KillPort: the error message uses the port argument as given, so a number argument is assumed
  to be passed as its decimal text.

Behaviour of the code that a reader might not expect, which the model follows:

- Deduplication compares the raw text of the PID and port columns, not their numbers. Two lines
  spelling one port as "80" and "080" for one PID both produce records
  (`Parsers.RawKeyAllowsRepeatedPidPort`).
- The parsers do not check that a port lies in 1..65535. Any digit run after the last colon is
  accepted.
- `getPortRange` accepts `start == end` although its message says the start must be less than the
  end: the guard is `start > end`.

## Findings

| source | as written | input that shows it | evidently intended | confidence | as-written member | corrected member |
|---|---|---|---|---|---|---|
| lib/portguard.js:174-175 | `used` is the number of records in the range, so a port held by several processes is counted once per process, and `free = total - used` can be negative. | `getPortRange("80", "80")` with two records on port 80 (an nginx master and a worker) gives total 1, used 2, free -1. | `used` counts distinct occupied ports and `free` the ports nobody listens on, so 0 <= free <= total. | not executed | Queries.NegativeFree | Queries.GetPortRangeDistinct |
