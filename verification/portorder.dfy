/** Ordering of port records: the stable ascending sort `ports.sort((a, b) => a.port - b.port)`
    both parsers end with. */
module PortOrder {
  import opened Seqs
  import opened Records

  predicate SortedByPort(s: seq<PortRecord>) {
    forall i, j :: 0 <= i < j < |s| ==> s[i].port <= s[j].port
  }

  /** The selector `p => p.port === port`. */
  function PortIs(port: int): PortRecord -> bool {
    (x: PortRecord) => x.port == port
  }

  /** The records on one port, in their order in `s`. */
  function WithPort(s: seq<PortRecord>, port: int): (r: seq<PortRecord>)
    ensures forall y :: y in r <==> y in s && y.port == port
  {
    Filter(s, PortIs(port))
  }

  lemma WithPortCons(x: PortRecord, s: seq<PortRecord>, port: int)
    ensures WithPort([x] + s, port) == (if x.port == port then [x] else []) + WithPort(s, port)
  {
    assert ([x] + s)[1..] == s;
  }

  /** `a` and `b` hold the same records on every port, in the same relative order: what a
      stable sort by port preserves. */
  ghost predicate SamePortOrder(a: seq<PortRecord>, b: seq<PortRecord>) {
    forall port :: WithPort(a, port) == WithPort(b, port)
  }

  /** Insert `x` before the first record whose port is not smaller. */
  function InsertByPort(x: PortRecord, s: seq<PortRecord>): (r: seq<PortRecord>)
    ensures |r| == |s| + 1 && multiset(r) == multiset(s) + multiset{x}
  {
    if s == [] || x.port <= s[0].port then [x] + s
    else
      assert s == [s[0]] + s[1..];
      [s[0]] + InsertByPort(x, s[1..])
  }

  /** Inserting keeps a sorted sequence sorted. */
  lemma {:induction false} InsertByPortSorted(x: PortRecord, s: seq<PortRecord>)
    requires SortedByPort(s)
    ensures SortedByPort(InsertByPort(x, s))
    decreases |s|
  {
    if s == [] || x.port <= s[0].port {
      SortedCons(x, s);
    } else {
      var rest := InsertByPort(x, s[1..]);
      InsertByPortSorted(x, s[1..]);
      forall i | 0 <= i < |rest| ensures s[0].port <= rest[i].port {
        assert rest[i] in multiset(rest);
      }
      SortedCons(s[0], rest);
    }
  }

  /** A record no later than any record of a sorted sequence can go in front of it. */
  lemma SortedCons(h: PortRecord, rest: seq<PortRecord>)
    requires SortedByPort(rest)
    requires forall i :: 0 <= i < |rest| ==> h.port <= rest[i].port
    ensures SortedByPort([h] + rest)
  {
    var s := [h] + rest;
    forall i, j | 0 <= i < j < |s| ensures s[i].port <= s[j].port {
      assert s[j] == rest[j - 1];
      if i > 0 {
        assert s[i] == rest[i - 1];
      }
    }
  }

  /** `x` lands before every record of its own port, so each port's order is extended at the front. */
  lemma {:induction false} InsertByPortWithPort(x: PortRecord, s: seq<PortRecord>, port: int)
    ensures WithPort(InsertByPort(x, s), port) == (if x.port == port then [x] else []) + WithPort(s, port)
    decreases |s|
  {
    if s == [] || x.port <= s[0].port {
      WithPortCons(x, s, port);
    } else {
      var rest := InsertByPort(x, s[1..]);
      var h0 := if s[0].port == port then [s[0]] else [];
      var hx := if x.port == port then [x] else [];
      assert InsertByPort(x, s) == [s[0]] + rest;
      InsertByPortWithPort(x, s[1..], port);
      WithPortCons(s[0], rest, port);
      assert s == [s[0]] + s[1..];
      WithPortCons(s[0], s[1..], port);
      SwapFront(h0, hx, WithPort(s[1..], port));
    }
  }

  lemma SwapFront<T>(a: seq<T>, b: seq<T>, w: seq<T>)
    requires a == [] || b == []
    ensures a + (b + w) == b + (a + w)
  {
    if a == [] {
      assert a + (b + w) == b + w;
      assert a + w == w;
    } else {
      assert b + w == w;
      assert b + (a + w) == a + w;
    }
  }

  /** The stable sort by port: sorted, a permutation, and the same order within each port. */
  function SortByPort(s: seq<PortRecord>): (r: seq<PortRecord>)
    ensures SortedByPort(r)
    ensures |r| == |s| && multiset(r) == multiset(s)
  {
    if s == [] then []
    else
      var r := InsertByPort(s[0], SortByPort(s[1..]));
      InsertByPortSorted(s[0], SortByPort(s[1..]));
      ConsTail(s);
      r
  }

  /** The sort is stable: every port keeps its records in their input order. */
  lemma {:induction false} SortByPortStable(s: seq<PortRecord>)
    ensures SamePortOrder(SortByPort(s), s)
    decreases |s|
  {
    if s != [] {
      SortByPortStable(s[1..]);
      InsertKeepsPortOrder(s[0], SortByPort(s[1..]), s[1..]);
      assert s == [s[0]] + s[1..];
    }
  }

  /** Inserting `x` into a sequence ordered like `rest` orders it like `[x] + rest`. */
  lemma InsertKeepsPortOrder(x: PortRecord, sorted: seq<PortRecord>, rest: seq<PortRecord>)
    requires SamePortOrder(sorted, rest)
    ensures SamePortOrder(InsertByPort(x, sorted), [x] + rest)
  {
    forall port ensures WithPort(InsertByPort(x, sorted), port) == WithPort([x] + rest, port) {
      InsertByPortWithPort(x, sorted, port);
      WithPortCons(x, rest, port);
    }
  }

  /** The first record of a non-empty sequence heads the order of its port. */
  lemma WithPortHead(s: seq<PortRecord>)
    requires s != []
    ensures WithPort(s, s[0].port) != [] && WithPort(s, s[0].port)[0] == s[0]
  {
    WithPortCons(s[0], s[1..], s[0].port);
    assert s == [s[0]] + s[1..];
  }

  lemma SortedHeadIsLeast(s: seq<PortRecord>, y: PortRecord)
    requires SortedByPort(s) && y in s
    ensures s[0].port <= y.port
  {
  }

  /** A sequence sorted by port is fixed by its per-port orders: two sorted sequences with the
      same records in the same order on every port are equal. So any stable sort by port,
      including JavaScript's `Array.prototype.sort`, returns what `SortByPort` returns. */
  lemma {:induction false} SortedSamePortOrderUnique(a: seq<PortRecord>, b: seq<PortRecord>)
    requires SortedByPort(a) && SortedByPort(b)
    requires SamePortOrder(a, b)
    ensures a == b
    decreases |a|
  {
    if a == [] || b == [] {
      if a != [] {
        WithPortHead(a);
      }
      if b != [] {
        WithPortHead(b);
      }
    } else {
      SortedSameHead(a, b);
      DropCommonHead(a, b);
      SortedSamePortOrderUnique(a[1..], b[1..]);
      assert a == [a[0]] + a[1..] && b == [b[0]] + b[1..];
    }
  }

  /** Two sorted sequences ordered alike on every port start with the same record. */
  lemma SortedSameHead(a: seq<PortRecord>, b: seq<PortRecord>)
    requires a != [] && b != []
    requires SortedByPort(a) && SortedByPort(b)
    requires SamePortOrder(a, b)
    ensures a[0] == b[0]
  {
    WithPortHead(a);
    WithPortHead(b);
    var y := WithPort(b, a[0].port)[0];
    var z := WithPort(a, b[0].port)[0];
    SortedHeadIsLeast(b, y);
    SortedHeadIsLeast(a, z);
    assert a[0].port == b[0].port;
  }

  /** Removing a common first record keeps two sequences ordered alike on every port. */
  lemma DropCommonHead(a: seq<PortRecord>, b: seq<PortRecord>)
    requires a != [] && b != [] && a[0] == b[0]
    requires SamePortOrder(a, b)
    ensures SamePortOrder(a[1..], b[1..])
  {
    forall port ensures WithPort(a[1..], port) == WithPort(b[1..], port) {
      assert a == [a[0]] + a[1..] && b == [b[0]] + b[1..];
      WithPortCons(a[0], a[1..], port);
      WithPortCons(b[0], b[1..], port);
      var h := if a[0].port == port then [a[0]] else [];
      CancelFront(h, WithPort(a[1..], port), WithPort(b[1..], port));
    }
  }

  lemma CancelFront<T>(h: seq<T>, x: seq<T>, y: seq<T>)
    requires h + x == h + y
    ensures x == y
  {
    assert x == (h + x)[|h|..];
    assert y == (h + y)[|h|..];
  }

  /** Two records on one port stay as they are. */
  lemma SortEqualPair(s: seq<PortRecord>)
    requires |s| == 2 && s[0].port == s[1].port
    ensures SortByPort(s) == s
  {
    assert SortedByPort(s);
    SortByPortOfSorted(s);
  }

  /** The stable sort leaves an already-sorted sequence unchanged. */
  lemma SortByPortOfSorted(s: seq<PortRecord>)
    requires SortedByPort(s)
    ensures SortByPort(s) == s
  {
    SortByPortStable(s);
    SortedSamePortOrderUnique(SortByPort(s), s);
  }
}
