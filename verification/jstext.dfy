/** The JavaScript string primitives the port parsers and the kill logic rely on, with the
    behaviour ECMA-262 gives them: `trim`, `split('\n')`, `split(/\s+/)`, `includes`,
    `toLowerCase`, `parseInt` with no radix, and the decimal text of an integral number. */
module JsText {
  import opened Wrappers
  import Seqs

  /** The characters `String.prototype.trim` removes and the regular-expression class `\s`
      matches: ECMA-262's WhiteSpace (tab, vertical tab, form feed, space, no-break space,
      byte-order mark and the other Unicode space separators) and LineTerminator (LF, CR,
      line separator, paragraph separator). */
  predicate IsSpace(c: char) {
    || c == '\t' || c == '\n' || c == '\U{000B}' || c == '\U{000C}' || c == '\r'
    || c == ' ' || c == '\U{00A0}' || c == '\U{1680}' || ('\U{2000}' <= c <= '\U{200A}')
    || c == '\U{2028}' || c == '\U{2029}' || c == '\U{202F}' || c == '\U{205F}'
    || c == '\U{3000}' || c == '\U{FEFF}'
  }

  /** The class `\d`: ASCII decimal digits only. */
  predicate IsDigit(c: char) {
    '0' <= c <= '9'
  }

  predicate AllSpace(s: string) {
    forall i :: 0 <= i < |s| ==> IsSpace(s[i])
  }

  predicate NoSpace(s: string) {
    forall i :: 0 <= i < |s| ==> !IsSpace(s[i])
  }

  predicate AllDigits(s: string) {
    forall i :: 0 <= i < |s| ==> IsDigit(s[i])
  }

  // ---------------------------------------------------------------------------------------
  // trim

  function TrimStart(s: string): (r: string)
    ensures |r| <= |s| && r == s[|s| - |r|..]
    ensures AllSpace(s[..|s| - |r|])
    ensures r == [] || !IsSpace(r[0])
  {
    if s != [] && IsSpace(s[0]) then
      var r := TrimStart(s[1..]);
      SpaceBefore(s, r);
      r
    else s
  }

  lemma SpaceBefore(s: string, r: string)
    requires s != [] && IsSpace(s[0])
    requires |r| <= |s| - 1 && r == s[1..][|s| - 1 - |r|..] && AllSpace(s[1..][..|s| - 1 - |r|])
    ensures r == s[|s| - |r|..] && AllSpace(s[..|s| - |r|])
  {
    assert s[..|s| - |r|] == [s[0]] + s[1..][..|s| - 1 - |r|];
  }

  function TrimEnd(s: string): (r: string)
    ensures |r| <= |s| && r == s[..|r|]
    ensures AllSpace(s[|r|..])
    ensures r == [] || !IsSpace(r[|r| - 1])
  {
    if s != [] && IsSpace(s[|s| - 1]) then
      var r := TrimEnd(s[..|s| - 1]);
      SpaceAfter(s, r);
      r
    else s
  }

  lemma SpaceAfter(s: string, r: string)
    requires s != [] && IsSpace(s[|s| - 1])
    requires |r| <= |s| - 1 && r == s[..|s| - 1][..|r|] && AllSpace(s[..|s| - 1][|r|..])
    ensures r == s[..|r|] && AllSpace(s[|r|..])
  {
    assert s[|r|..] == s[..|s| - 1][|r|..] + [s[|s| - 1]];
  }

  /** `s.trim()`: white space removed from both ends. */
  function Trim(s: string): (r: string)
    ensures r == [] || (!IsSpace(r[0]) && !IsSpace(r[|r| - 1]))
  {
    var t := TrimStart(s);
    var r := TrimEnd(t);
    assert r == [] || r[0] == t[0];
    r
  }

  /** What `trim` keeps is what lies between a leading and a trailing run of white space. */
  lemma TrimIsInfix(s: string) returns (lead: string, trail: string)
    ensures s == lead + Trim(s) + trail
    ensures AllSpace(lead) && AllSpace(trail)
  {
    var t := TrimStart(s);
    var r := TrimEnd(t);
    assert Trim(s) == r;
    lead, trail := InfixParts(s, t, r);
  }

  lemma InfixParts(s: string, t: string, r: string) returns (lead: string, trail: string)
    requires |t| <= |s| && t == s[|s| - |t|..] && AllSpace(s[..|s| - |t|])
    requires |r| <= |t| && r == t[..|r|] && AllSpace(t[|r|..])
    ensures s == lead + r + trail
    ensures AllSpace(lead) && AllSpace(trail)
  {
    lead, trail := s[..|s| - |t|], t[|r|..];
    assert t == r + trail;
    assert s == lead + t;
  }

  /** Text that neither starts nor ends with white space is its own trim. */
  lemma TrimUnchanged(s: string)
    requires s == [] || (!IsSpace(s[0]) && !IsSpace(s[|s| - 1]))
    ensures Trim(s) == s
  {
  }

  /** A run of white space before text that starts with none is what `trim` skips. */
  lemma {:induction false} TrimStartSkips(w: string, x: string)
    requires AllSpace(w)
    requires x == [] || !IsSpace(x[0])
    ensures TrimStart(w + x) == TrimStart(x)
    ensures Unsigned(w + x) == Unsigned(x) && (Negative(w + x) <==> Negative(x))
    decreases |w|
  {
    if w != [] {
      assert (w + x)[1..] == w[1..] + x;
      TrimStartSkips(w[1..], x);
    } else {
      assert w + x == x;
    }
  }

  /** A run of white space after text that ends with none is what `trim` cuts off. */
  lemma {:induction false} TrimEndSkips(x: string, w: string)
    requires AllSpace(w)
    requires x == [] || !IsSpace(x[|x| - 1])
    ensures TrimEnd(x + w) == x
    decreases |w|
  {
    if w == [] {
      assert x + w == x;
    } else {
      assert (x + w)[..|x + w| - 1] == x + w[..|w| - 1];
      TrimEndSkips(x, w[..|w| - 1]);
    }
  }

  /** `trim` removes exactly the padding around text that neither starts nor ends with white
      space. */
  lemma TrimPadded(lead: string, x: string, trail: string)
    requires AllSpace(lead) && AllSpace(trail)
    requires x != [] && !IsSpace(x[0]) && !IsSpace(x[|x| - 1])
    ensures Trim(lead + x + trail) == x
  {
    assert lead + x + trail == lead + (x + trail);
    TrimStartSkips(lead, x + trail);
    TrimEndSkips(x, trail);
  }

  // ---------------------------------------------------------------------------------------
  // split('\n') and its inverse, join('\n')

  /** `parts.join(sep)`. */
  function JoinWith(parts: seq<string>, sep: char): string
    requires |parts| >= 1
  {
    if |parts| == 1 then parts[0] else parts[0] + [sep] + JoinWith(parts[1..], sep)
  }

  /** `s.split(sep)` for a one-character separator: the pieces between separators, always at
      least one, none containing the separator, and joining them back gives `s`. */
  function SplitOn(s: string, sep: char): (parts: seq<string>)
    ensures |parts| >= 1
    ensures forall i :: 0 <= i < |parts| ==> sep !in parts[i]
    ensures JoinWith(parts, sep) == s
  {
    if s == [] then [[]]
    else
      var rest := SplitOn(s[1..], sep);
      if s[0] == sep then
        assert ([[]] + rest)[1..] == rest;
        [[]] + rest
      else
        var parts := [[s[0]] + rest[0]] + rest[1..];
        assert |parts| > 1 ==> parts[1..] == rest[1..];
        parts
  }

  lemma {:induction false} SplitOnNoSeparator(p: string, sep: char)
    requires sep !in p
    ensures SplitOn(p, sep) == [p]
    decreases |p|
  {
    if p != [] {
      SplitOnNoSeparator(p[1..], sep);
      assert [p[0]] + p[1..] == p;
    }
  }

  lemma {:induction false} SplitOnPrefix(p: string, sep: char, t: string)
    requires sep !in p
    ensures SplitOn(p + [sep] + t, sep) == [p] + SplitOn(t, sep)
    decreases |p|
  {
    if p == [] {
      assert (p + [sep] + t)[1..] == t;
    } else {
      assert (p + [sep] + t)[1..] == p[1..] + [sep] + t;
      SplitOnPrefix(p[1..], sep, t);
      assert [p[0]] + p[1..] == p;
    }
  }

  /** Splitting a join recovers the pieces, when no piece contains the separator. */
  lemma {:induction false} SplitOnJoin(parts: seq<string>, sep: char)
    requires |parts| >= 1
    requires forall i :: 0 <= i < |parts| ==> sep !in parts[i]
    ensures SplitOn(JoinWith(parts, sep), sep) == parts
    decreases |parts|
  {
    if |parts| == 1 {
      SplitOnNoSeparator(parts[0], sep);
    } else {
      SplitOnJoin(parts[1..], sep);
      SplitOnPrefix(parts[0], sep, JoinWith(parts[1..], sep));
      assert [parts[0]] + parts[1..] == parts;
    }
  }

  // ---------------------------------------------------------------------------------------
  // split(/\s+/)

  /** `s.split(/\s+/)`: the text between maximal runs of white space. A leading run yields an
      empty first field and a trailing run an empty last field; every field in between is
      non-empty, and no field contains white space. */
  function SplitWs(s: string): (fields: seq<string>)
    ensures |fields| >= 1
    ensures forall i :: 0 <= i < |fields| ==> NoSpace(fields[i])
    ensures forall i :: 0 < i < |fields| - 1 ==> fields[i] != []
    ensures fields[0] == [] <==> (s == [] || IsSpace(s[0]))
    ensures |fields| == 1 <==> NoSpace(s)
  {
    if s == [] then [[]]
    else
      var rest := SplitWs(s[1..]);
      if IsSpace(s[0]) then
        if s[1..] != [] && IsSpace(s[1]) then rest
        else
          assert ([[]] + rest)[1..] == rest;
          [[]] + rest
      else
        var fields := [[s[0]] + rest[0]] + rest[1..];
        assert forall i :: 0 < i < |fields| ==> fields[i] == rest[i];
        fields
  }

  lemma {:induction false} SplitWsNoSpace(f: string)
    requires NoSpace(f)
    ensures SplitWs(f) == [f]
    decreases |f|
  {
    if f != [] {
      SplitWsNoSpace(f[1..]);
      assert [f[0]] + f[1..] == f;
    }
  }

  /** A leading run of white space yields one empty field and is otherwise skipped. */
  lemma {:induction false} SplitWsLeadingRun(w: string, t: string)
    requires w != [] && AllSpace(w)
    requires t == [] || !IsSpace(t[0])
    ensures SplitWs(w + t) == [[]] + SplitWs(t)
    decreases |w|
  {
    assert (w + t)[1..] == w[1..] + t;
    if |w| > 1 {
      SplitWsLeadingRun(w[1..], t);
    }
  }

  /** A field followed by a run of white space of any length is split off as one field. */
  lemma {:induction false} SplitWsRun(p: string, w: string, t: string)
    requires NoSpace(p)
    requires w != [] && AllSpace(w)
    requires t == [] || !IsSpace(t[0])
    ensures SplitWs(p + w + t) == [p] + SplitWs(t)
    decreases |p|
  {
    if p == [] {
      assert p + w + t == w + t;
      SplitWsLeadingRun(w, t);
    } else {
      assert (p + w + t)[1..] == p[1..] + w + t;
      SplitWsRun(p[1..], w, t);
      assert ([p[1..]] + SplitWs(t))[1..] == SplitWs(t);
      assert [p[0]] + p[1..] == p;
    }
  }

  /** Fields with the white-space runs between them put back:
      `fields[0] + runs[0] + fields[1] + … + fields[|fields| - 1]`. */
  function Interleave(fields: seq<string>, runs: seq<string>): string
    requires |fields| == |runs| + 1
    decreases |runs|
  {
    if runs == [] then fields[0] else fields[0] + runs[0] + Interleave(fields[1..], runs[1..])
  }

  /** Separators `split(/\s+/)` consumes: non-empty runs of white space. */
  predicate SpaceRuns(runs: seq<string>) {
    forall i :: 0 <= i < |runs| ==> runs[i] != [] && AllSpace(runs[i])
  }

  /** What `split(/\s+/)` can return: no field holds white space, and only the first and the
      last field may be empty. */
  predicate FieldShape(fields: seq<string>) {
    && |fields| >= 1
    && (forall i :: 0 <= i < |fields| ==> NoSpace(fields[i]))
    && (forall i :: 0 < i < |fields| - 1 ==> fields[i] != [])
  }

  /** One more field in front, with a run between it and the rest. */
  lemma InterleaveCons(f: string, w: string, fields: seq<string>, runs: seq<string>)
    requires |fields| == |runs| + 1
    ensures Interleave([f] + fields, [w] + runs) == f + w + Interleave(fields, runs)
  {
    assert ([f] + fields)[1..] == fields && ([w] + runs)[1..] == runs;
  }

  /** Text that starts with white space splits into an empty field and the fields after it. */
  lemma FieldShapeLeadingEmpty(fields: seq<string>, w: string, runs: seq<string>)
    requires FieldShape(fields) && fields[0] != [] && SpaceRuns(runs)
    requires w != [] && AllSpace(w)
    ensures FieldShape([[]] + fields) && SpaceRuns([w] + runs)
  {
    var fs, rs := [[]] + fields, [w] + runs;
    assert forall i :: 1 <= i < |fs| ==> fs[i] == fields[i - 1];
    assert forall i :: 1 <= i < |rs| ==> rs[i] == runs[i - 1];
  }

  /** Interleaved text starts with the first field and ends with the last. */
  lemma {:induction false} InterleaveEnds(fields: seq<string>, runs: seq<string>)
    requires |fields| == |runs| + 1
    ensures |Interleave(fields, runs)| >= |fields[0]|
    ensures Interleave(fields, runs)[..|fields[0]|] == fields[0]
    ensures |Interleave(fields, runs)| >= |fields[|runs|]|
    ensures Interleave(fields, runs)[|Interleave(fields, runs)| - |fields[|runs|]|..] == fields[|runs|]
    decreases |runs|
  {
    if runs != [] {
      InterleaveEnds(fields[1..], runs[1..]);
      assert fields[1..][|runs| - 1] == fields[|runs|];
    }
  }

  /** Splitting interleaved text gives back its fields, whatever the runs between them. */
  lemma {:induction false} SplitWsOfRuns(fields: seq<string>, runs: seq<string>)
    requires |fields| == |runs| + 1 && FieldShape(fields) && SpaceRuns(runs)
    ensures SplitWs(Interleave(fields, runs)) == fields
    decreases |runs|
  {
    if runs == [] {
      SplitWsNoSpace(fields[0]);
    } else {
      var tail, rs := fields[1..], runs[1..];
      assert forall i :: 0 <= i < |tail| ==> tail[i] == fields[i + 1];
      assert forall i :: 0 <= i < |rs| ==> rs[i] == runs[i + 1];
      SplitWsOfRuns(tail, rs);
      var t := Interleave(tail, rs);
      if tail[0] != [] {
        InterleaveEnds(tail, rs);
        assert t[0] == t[..|tail[0]|][0];
      } else {
        assert |fields| == 2;
      }
      SplitWsRun(fields[0], runs[0], t);
      Seqs.ConsTail(fields);
    }
  }

  /** Conversely, every text is its fields with runs of white space put back between them:
      the split drops nothing but white space and keeps the fields in order. */
  lemma {:induction false} SplitWsRebuilds(s: string) returns (runs: seq<string>)
    ensures |runs| + 1 == |SplitWs(s)| && SpaceRuns(runs)
    ensures Interleave(SplitWs(s), runs) == s
    decreases |s|
  {
    if s == [] {
      runs := [];
    } else {
      var r := SplitWsRebuilds(s[1..]);
      if !IsSpace(s[0]) {
        runs := RebuildField(s, r);
      } else if s[1..] != [] && IsSpace(s[1]) {
        runs := RebuildInnerSpace(s, r);
      } else {
        runs := RebuildLastSpace(s, r);
      }
    }
  }

  /** The first character is not white space: it joins the first field. */
  lemma {:induction false} RebuildField(s: string, r: seq<string>) returns (runs: seq<string>)
    requires s != [] && !IsSpace(s[0])
    requires |r| + 1 == |SplitWs(s[1..])| && SpaceRuns(r) && Interleave(SplitWs(s[1..]), r) == s[1..]
    ensures |runs| + 1 == |SplitWs(s)| && SpaceRuns(runs) && Interleave(SplitWs(s), runs) == s
  {
    var rest := SplitWs(s[1..]);
    runs := r;
    assert SplitWs(s) == [[s[0]] + rest[0]] + rest[1..];
    InterleaveGrowField(rest, r, s[0]);
    Seqs.ConsTail(s);
  }

  /** White space followed by more white space: it joins the first run. */
  lemma {:induction false} RebuildInnerSpace(s: string, r: seq<string>) returns (runs: seq<string>)
    requires |s| >= 2 && IsSpace(s[0]) && IsSpace(s[1])
    requires |r| + 1 == |SplitWs(s[1..])| && SpaceRuns(r) && Interleave(SplitWs(s[1..]), r) == s[1..]
    ensures |runs| + 1 == |SplitWs(s)| && SpaceRuns(runs) && Interleave(SplitWs(s), runs) == s
  {
    var rest := SplitWs(s[1..]);
    assert SplitWs(s) == rest;
    assert !NoSpace(s[1..]);
    runs := [[s[0]] + r[0]] + r[1..];
    Seqs.ConsTail(rest);
    Seqs.ConsTail(r);
    InterleaveGrowRun(r[0], rest[1..], r[1..], s[0]);
    SpaceRunGrows(s[0], r);
    Seqs.ConsTail(s);
  }

  /** White space followed by a field or by nothing: a run of its own after an empty field. */
  lemma {:induction false} RebuildLastSpace(s: string, r: seq<string>) returns (runs: seq<string>)
    requires s != [] && IsSpace(s[0]) && (s[1..] == [] || !IsSpace(s[1]))
    requires |r| + 1 == |SplitWs(s[1..])| && SpaceRuns(r) && Interleave(SplitWs(s[1..]), r) == s[1..]
    ensures |runs| + 1 == |SplitWs(s)| && SpaceRuns(runs) && Interleave(SplitWs(s), runs) == s
  {
    var rest := SplitWs(s[1..]);
    assert SplitWs(s) == [[]] + rest;
    runs := [[s[0]]] + r;
    InterleaveCons([], [s[0]], rest, r);
    SpaceRunsCons([s[0]], r);
    Seqs.ConsTail(s);
  }

  /** A character in front of the first field. */
  lemma {:induction false} InterleaveGrowField(fields: seq<string>, runs: seq<string>, c: char)
    requires |fields| == |runs| + 1
    ensures Interleave([[c] + fields[0]] + fields[1..], runs) == [c] + Interleave(fields, runs)
  {
    var fs := [[c] + fields[0]] + fields[1..];
    assert fs[1..] == fields[1..];
  }

  /** A character in front of the first run, after an empty first field. */
  lemma {:induction false} InterleaveGrowRun(w: string, fields: seq<string>, runs: seq<string>, c: char)
    requires |fields| == |runs| + 1
    ensures Interleave([[]] + fields, [[c] + w] + runs) == [c] + Interleave([[]] + fields, [w] + runs)
  {
    var x := Interleave(fields, runs);
    assert Interleave([[]] + fields, [[c] + w] + runs) == ([c] + w) + x by {
      InterleaveCons([], [c] + w, fields, runs);
      assert [] + ([c] + w) == [c] + w;
    }
    assert Interleave([[]] + fields, [w] + runs) == w + x by {
      InterleaveCons([], w, fields, runs);
      assert [] + w == w;
    }
    assert ([c] + w) + x == [c] + (w + x);
  }

  lemma SpaceRunGrows(c: char, runs: seq<string>)
    requires runs != [] && SpaceRuns(runs) && IsSpace(c)
    ensures SpaceRuns([[c] + runs[0]] + runs[1..])
  {
    var rs := [[c] + runs[0]] + runs[1..];
    assert AllSpace(rs[0]);
    assert forall i :: 1 <= i < |rs| ==> rs[i] == runs[i];
  }

  lemma SpaceRunsCons(w: string, runs: seq<string>)
    requires w != [] && AllSpace(w) && SpaceRuns(runs)
    ensures SpaceRuns([w] + runs)
  {
    assert forall i :: 1 <= i < |[w] + runs| ==> ([w] + runs)[i] == runs[i - 1];
  }

  // ---------------------------------------------------------------------------------------
  // includes and toLowerCase

  predicate StartsWith(s: string, prefix: string) {
    |prefix| <= |s| && s[..|prefix|] == prefix
  }

  /** `s.includes(sub)`. */
  predicate Contains(s: string, sub: string)
    decreases |s|
  {
    StartsWith(s, sub) || (s != [] && Contains(s[1..], sub))
  }

  /** `sub` occurs in `s` starting at position `i`. */
  predicate OccursAt(s: string, sub: string, i: int) {
    0 <= i <= |s| - |sub| && s[i..i + |sub|] == sub
  }

  /** `includes` holds exactly when `sub` occurs at some position of `s`. */
  lemma {:induction false} ContainsAt(s: string, sub: string)
    ensures Contains(s, sub) <==> exists i :: OccursAt(s, sub, i)
    decreases |s|
  {
    if s != [] {
      ContainsAt(s[1..], sub);
      if exists i :: OccursAt(s, sub, i) {
        var i :| OccursAt(s, sub, i);
        if i > 0 {
          assert s[1..][i - 1..i - 1 + |sub|] == sub;
          assert OccursAt(s[1..], sub, i - 1);
        }
      }
      if Contains(s[1..], sub) {
        var i :| OccursAt(s[1..], sub, i);
        assert s[i + 1..i + 1 + |sub|] == sub;
        assert OccursAt(s, sub, i + 1);
      }
      if StartsWith(s, sub) {
        assert OccursAt(s, sub, 0);
      }
    } else {
      if exists i :: OccursAt(s, sub, i) {
        var i :| OccursAt(s, sub, i);
        assert i == 0;
      }
      if StartsWith(s, sub) {
        assert OccursAt(s, sub, 0);
      }
    }
  }

  /** A text lacking some character of `sub` does not contain `sub`. */
  lemma MissingCharNotContained(s: string, sub: string, c: char)
    requires c in sub && c !in s
    ensures !Contains(s, sub)
  {
    ContainsAt(s, sub);
    forall i | 0 <= i <= |s| - |sub|
      ensures !OccursAt(s, sub, i)
    {
      assert c !in s[i..i + |sub|];
    }
  }

  lemma ContainsMiddle(a: string, b: string, c: string)
    ensures Contains(a + b + c, b)
  {
    ContainsAt(a + b + c, b);
    assert (a + b + c)[|a|..|a| + |b|] == b;
    assert OccursAt(a + b + c, b, |a|);
  }

  function LowerChar(c: char): char {
    if 'A' <= c <= 'Z' then (c as int + 32) as char else c
  }

  /** `s.toLowerCase()` restricted to the ASCII letters A to Z. */
  function ToLower(s: string): (r: string)
    ensures |r| == |s|
    ensures forall i :: 0 <= i < |s| ==> r[i] == LowerChar(s[i])
  {
    seq(|s|, i requires 0 <= i < |s| => LowerChar(s[i]))
  }

  // ---------------------------------------------------------------------------------------
  // parseInt and the text of an integral number

  predicate IsRadixDigit(c: char, radix: nat) {
    IsDigit(c) || (radix == 16 && ('a' <= c <= 'f' || 'A' <= c <= 'F'))
  }

  predicate AllRadixDigits(d: string, radix: nat) {
    forall i :: 0 <= i < |d| ==> IsRadixDigit(d[i], radix)
  }

  function DigitValue(c: char): nat {
    if IsDigit(c) then c as nat - '0' as nat
    else if 'a' <= c <= 'f' then c as nat - 'a' as nat + 10
    else if 'A' <= c <= 'F' then c as nat - 'A' as nat + 10
    else 0
  }

  /** The number a digit string denotes, most significant digit first. */
  function DigitsValue(d: string, radix: nat): nat {
    if d == [] then 0 else DigitsValue(d[..|d| - 1], radix) * radix + DigitValue(d[|d| - 1])
  }

  /** The longest prefix of `s` made of digits of the radix. */
  function LeadingDigits(s: string, radix: nat): (d: string)
    ensures |d| <= |s| && d == s[..|d|]
    ensures AllRadixDigits(d, radix)
    ensures |d| < |s| ==> !IsRadixDigit(s[|d|], radix)
  {
    if s == [] || !IsRadixDigit(s[0], radix) then [] else [s[0]] + LeadingDigits(s[1..], radix)
  }

  lemma {:induction false} LeadingDigitsOfDigits(d: string, rest: string, radix: nat)
    requires AllRadixDigits(d, radix)
    requires rest == [] || !IsRadixDigit(rest[0], radix)
    ensures LeadingDigits(d + rest, radix) == d
    decreases |d|
  {
    if d == [] {
      assert d + rest == rest;
    } else {
      assert (d + rest)[1..] == d[1..] + rest;
      LeadingDigitsOfDigits(d[1..], rest, radix);
      assert [d[0]] + d[1..] == d;
    }
  }

  /** What `parseInt` reads after leading white space and at most one sign. */
  function Unsigned(s: string): string {
    var t := TrimStart(s);
    if t != [] && (t[0] == '+' || t[0] == '-') then t[1..] else t
  }

  predicate Negative(s: string) {
    var t := TrimStart(s);
    t != [] && t[0] == '-'
  }

  predicate HexPrefixed(u: string) {
    |u| >= 2 && u[0] == '0' && (u[1] == 'x' || u[1] == 'X')
  }

  /** What `parseInt` reads once white space and sign are skipped: after a `0x` or `0X` prefix
      the longest run of hexadecimal digits, otherwise the longest run of decimal digits;
      `None` when that run is empty. */
  function ReadMagnitude(u: string): (v: Option<nat>)
    ensures v.None? <==> LeadingDigits(if HexPrefixed(u) then u[2..] else u, if HexPrefixed(u) then 16 else 10) == []
  {
    var hex := HexPrefixed(u);
    var radix := if hex then 16 else 10;
    var d := LeadingDigits(if hex then u[2..] else u, radix);
    if d == [] then None else Some(DigitsValue(d, radix))
  }

  /** `parseInt(s)` with no radix argument (ECMA-262 section 19.2.5): skip leading white space,
      read an optional sign, then the magnitude; `None` is NaN. */
  function ParseInt(s: string): (r: Option<int>)
    ensures r.Some? && !Negative(s) ==> r.value >= 0
    ensures r.None? <==> ReadMagnitude(Unsigned(s)).None?
  {
    match ReadMagnitude(Unsigned(s))
    case None => None
    case Some(v) =>
      var w: int := v;
      Some(if Negative(s) then -w else w)
  }

  function DigitChar(n: nat): (c: char)
    requires n < 10
    ensures IsDigit(c) && DigitValue(c) == n
  {
    ('0' as int + n) as char
  }

  /** The decimal numeral of a natural number, without leading zeros. */
  function NatToDecimal(n: nat): (d: string)
    ensures d != [] && AllDigits(d)
    ensures DigitsValue(d, 10) == n
    ensures d[0] == '0' ==> n == 0 && |d| == 1
  {
    if n < 10 then [DigitChar(n)]
    else
      var d := NatToDecimal(n / 10) + [DigitChar(n % 10)];
      assert d[..|d| - 1] == NatToDecimal(n / 10);
      d
  }

  /** `String(n)` for an integral number `n` (the exponent form used from 1e21 up is not modelled). */
  function IntToString(n: int): string {
    if n < 0 then "-" + NatToDecimal(-n) else NatToDecimal(n)
  }

  /** `String(x)` for a number that may be NaN. */
  function NumberText(x: Option<int>): string {
    match x
    case None => "NaN"
    case Some(n) => IntToString(n)
  }

  /** A decimal numeral followed by anything that does not continue it is read in full, unless
      it is "0" followed by "x", which is a hexadecimal prefix. */
  lemma ReadDecimal(d: string, rest: string)
    requires d != [] && AllDigits(d)
    requires rest == [] || !IsDigit(rest[0])
    requires !(d == "0" && rest != [] && (rest[0] == 'x' || rest[0] == 'X'))
    ensures ReadMagnitude(d + rest) == Some(DigitsValue(d, 10))
  {
    var s := d + rest;
    assert !HexPrefixed(s) by {
      if |d| >= 2 {
        assert s[1] == d[1];
      }
    }
    LeadingDigitsOfDigits(d, rest, 10);
  }

  /** Text that starts with neither white space nor a sign is read as it stands. */
  lemma UnsignedPlain(s: string)
    requires s != [] && !IsSpace(s[0]) && s[0] != '+' && s[0] != '-'
    ensures Unsigned(s) == s && !Negative(s)
  {
    assert TrimStart(s) == s;
  }

  /** `parseInt` of a decimal numeral followed by anything that does not continue the numeral
      reads the numeral's value: "80abc" gives 80. The one exception is "0" followed by "x",
      which `parseInt` takes as a hexadecimal prefix. */
  lemma ParseIntLeadingDecimal(d: string, rest: string)
    requires d != [] && AllDigits(d)
    requires rest == [] || !IsDigit(rest[0])
    requires !(d == "0" && rest != [] && (rest[0] == 'x' || rest[0] == 'X'))
    ensures ParseInt(d + rest) == Some(DigitsValue(d, 10))
  {
    assert (d + rest)[0] == d[0];
    UnsignedPlain(d + rest);
    ReadDecimal(d, rest);
  }

  /** Once sign and white space are skipped, a decimal numeral without leading zeros is read in full. */
  lemma ParseIntOfNumeral(s: string, d: string)
    requires Unsigned(s) == d
    requires d != [] && AllDigits(d)
    ensures ParseInt(s) == Some(if Negative(s) then -(DigitsValue(d, 10) as int) else DigitsValue(d, 10))
  {
    assert ReadMagnitude(Unsigned(s)) == Some(DigitsValue(d, 10)) by {
      assert d + [] == d;
      ReadDecimal(d, []);
    }
  }

  /** A numeral with an optional minus sign in front: the sign is skipped and remembered. */
  lemma SignedNumeral(s: string, d: string, neg: bool)
    requires d != [] && AllDigits(d)
    requires s == (if neg then "-" else "") + d
    ensures Unsigned(s) == d && (Negative(s) <==> neg)
  {
    assert !IsSpace(s[0]) by {
      assert s[0] == '-' || IsDigit(s[0]);
    }
    assert TrimStart(s) == s;
    if neg {
      assert s[1..] == d;
    }
  }

  /** `parseInt` reads back the text of every integral number: `parseInt(String(n)) == n`. */
  lemma ParseIntOfIntToString(n: int)
    ensures ParseInt(IntToString(n)) == Some(n)
  {
    var m: nat := if n < 0 then -n else n;
    var d := NatToDecimal(m);
    SignedNumeral(IntToString(n), d, n < 0);
    ParseIntOfNumeral(IntToString(n), d);
  }

  /** The values of the two-digit numerals used in the examples below. */
  lemma NumeralValues()
    ensures DigitsValue("80", 10) == 80
    ensures DigitsValue("12", 10) == 12
    ensures DigitsValue("50", 16) == 80
  {
    assert "80"[..1] == "8" && "12"[..1] == "1" && "50"[..1] == "5";
  }

  /** `parseInt` stops at the first character that is not a digit: "80" and "80abc" both
      give 80. */
  lemma ParseIntDecimalExamples(s: string)
    requires s == "80" || s == "80abc"
    ensures ParseInt(s) == Some(80)
  {
    var rest := if s == "80" then "" else "abc";
    assert s == "80" + rest;
    ParseIntLeadingDecimal("80", rest);
    NumeralValues();
  }

  /** Text with no digit where `parseInt` expects one is NaN. */
  lemma ParseIntNaNExamples()
    ensures ParseInt("abc") == None
    ensures ParseInt("") == None
  {
    UnsignedPlain("abc");
    assert !HexPrefixed("abc");
    assert LeadingDigits("abc", 10) == [];
    assert Unsigned("") == "";
  }

  /** A bare hexadecimal prefix is NaN: "0x" gives NaN. */
  lemma ParseIntBareHexPrefix()
    ensures ParseInt("0x") == None
  {
    UnsignedPlain("0x");
    assert HexPrefixed("0x");
    assert "0x"[2..] == [];
  }

  /** Leading white space and a minus sign are read: " -12" gives -12. */
  lemma ParseIntSignedExample(s: string)
    requires s == " -12"
    ensures ParseInt(s) == Some(-12)
  {
    assert s == " " + ("-" + "12");
    ParseIntOfSpacedNumeral(" ", "-" + "12", "12", true);
    NumeralValues();
  }

  /** White space before a signed numeral is skipped. */
  lemma ParseIntOfSpacedNumeral(w: string, x: string, d: string, neg: bool)
    requires AllSpace(w)
    requires d != [] && AllDigits(d)
    requires x == (if neg then "-" else "") + d
    ensures ParseInt(w + x) == Some(if neg then -(DigitsValue(d, 10) as int) else DigitsValue(d, 10))
  {
    SignedNumeral(x, d, neg);
    TrimStartSkips(w, x);
    ParseIntOfNumeral(w + x, d);
  }

  /** A `0x` prefix switches to hexadecimal: "0x50" gives 80. */
  lemma ParseIntHexExample()
    ensures ParseInt("0x50") == Some(80)
  {
    UnsignedPlain("0x50");
    assert HexPrefixed("0x50");
    assert "0x50"[2..] == "50";
    assert "50" + [] == "50";
    LeadingDigitsOfDigits("50", [], 16);
    NumeralValues();
  }
}
