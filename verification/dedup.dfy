/** The `seen`-set loop both parsers run over accepted lines: keep an entry when its key
    `${pid}-${port}` has not been met before, then remember the key. */
module Dedup {
  import opened Wrappers
  import opened Seqs
  import opened Records

  function KeysOf(es: seq<Entry>): set<string> {
    set e | e in es :: Key(e)
  }

  predicate DistinctKeys(es: seq<Entry>) {
    forall i, j :: 0 <= i < j < |es| ==> Key(es[i]) != Key(es[j])
  }

  lemma DistinctPair(a: Entry, b: Entry)
    requires Key(a) != Key(b)
    ensures DistinctKeys([a, b])
  {
  }

  /** The first entry of `es` with key `k`, if any. */
  function FirstWithKey(es: seq<Entry>, k: string): (r: Option<Entry>)
    ensures r.Some? ==> r.value in es && Key(r.value) == k
    ensures r.Some? ==> exists i :: 0 <= i < |es| && es[i] == r.value && forall j :: 0 <= j < i ==> Key(es[j]) != k
    ensures r.None? <==> k !in KeysOf(es)
  {
    if es == [] then None
    else if Key(es[0]) == k then Some(es[0])
    else
      assert KeysOf(es) == {Key(es[0])} + KeysOf(es[1..]) by {
        assert es == [es[0]] + es[1..];
      }
      FirstWithKey(es[1..], k)
  }

  /** The index of the first entry of `es` with key `k`, or `|es|` when no entry has it. */
  function FirstIndex(es: seq<Entry>, k: string): (i: nat)
    ensures i <= |es|
    ensures i < |es| <==> k in KeysOf(es)
    ensures i < |es| ==> Key(es[i]) == k
    ensures forall j :: 0 <= j < i ==> Key(es[j]) != k
  {
    if es == [] then 0
    else if Key(es[0]) == k then 0
    else
      assert KeysOf(es) == {Key(es[0])} + KeysOf(es[1..]) by {
        assert es == [es[0]] + es[1..];
      }
      1 + FirstIndex(es[1..], k)
  }

  /** Past an entry with another key, the first index of `k` moves up by one. */
  lemma FirstIndexTail(es: seq<Entry>, k: string)
    requires es != [] && Key(es[0]) != k
    ensures FirstIndex(es, k) == 1 + FirstIndex(es[1..], k)
  {
  }

  /** The kept entries come in the order of their keys' first occurrences. */
  predicate InFirstOrder(r: seq<Entry>, es: seq<Entry>) {
    forall i, j :: 0 <= i < j < |r| ==> FirstIndex(es, Key(r[i])) < FirstIndex(es, Key(r[j]))
  }

  /** The loop from a given `seen` set: it keeps, in order, the first entry of every key not
      yet seen, and nothing else. */
  function Collect(es: seq<Entry>, seen: set<string>): (r: seq<Entry>)
    ensures IsSubseq(r, es)
    ensures forall e :: e in r ==> e in es
    ensures DistinctKeys(r)
    ensures KeysOf(r) == KeysOf(es) - seen
    ensures forall e :: e in r ==> FirstWithKey(es, Key(e)) == Some(e)
    ensures InFirstOrder(r, es)
    decreases |es|
  {
    if es == [] then []
    else
      assert es == [es[0]] + es[1..];
      assert KeysOf(es) == {Key(es[0])} + KeysOf(es[1..]);
      if Key(es[0]) in seen then
        var r := Collect(es[1..], seen);
        SubseqOfTail(r, es);
        OrderPastHead(r, es);
        r
      else
        var rest := Collect(es[1..], seen + {Key(es[0])});
        var r := [es[0]] + rest;
        assert r[1..] == rest;
        assert KeysOf(r) == {Key(es[0])} + KeysOf(rest);
        OrderWithHead(rest, es);
        r
  }

  /** Entries of `r` whose keys are not the head's keep their first-occurrence order when the
      head of `es` is put back. */
  lemma ShiftedPastHead(r: seq<Entry>, es: seq<Entry>)
    requires es != [] && Key(es[0]) !in KeysOf(r)
    ensures forall i :: 0 <= i < |r| ==> FirstIndex(es, Key(r[i])) == 1 + FirstIndex(es[1..], Key(r[i]))
  {
    forall i | 0 <= i < |r|
      ensures FirstIndex(es, Key(r[i])) == 1 + FirstIndex(es[1..], Key(r[i]))
    {
      assert Key(r[i]) in KeysOf(r);
      FirstIndexTail(es, Key(r[i]));
    }
  }

  /** Putting back a head whose key `r` lacks keeps `r` in first-occurrence order. */
  lemma OrderPastHead(r: seq<Entry>, es: seq<Entry>)
    requires es != [] && Key(es[0]) !in KeysOf(r)
    requires InFirstOrder(r, es[1..])
    ensures InFirstOrder(r, es)
  {
    ShiftedPastHead(r, es);
  }

  /** Keeping the head in front of such an `r` keeps first-occurrence order too. */
  lemma OrderWithHead(r: seq<Entry>, es: seq<Entry>)
    requires es != [] && Key(es[0]) !in KeysOf(r)
    requires InFirstOrder(r, es[1..])
    ensures InFirstOrder([es[0]] + r, es)
  {
    ShiftedPastHead(r, es);
    var t := [es[0]] + r;
    forall i, j | 0 <= i < j < |t|
      ensures FirstIndex(es, Key(t[i])) < FirstIndex(es, Key(t[j]))
    {
      assert t[j] == r[j - 1];
      if i > 0 {
        assert t[i] == r[i - 1];
      }
    }
  }

  /** The loop as the parsers run it, from an empty `seen` set. */
  function FirstOccurrences(es: seq<Entry>): (r: seq<Entry>)
    ensures IsSubseq(r, es)
    ensures forall e :: e in r ==> e in es
    ensures DistinctKeys(r)
    ensures KeysOf(r) == KeysOf(es)
    ensures forall e :: e in r ==> FirstWithKey(es, Key(e)) == Some(e)
    ensures InFirstOrder(r, es)
  {
    Collect(es, {})
  }

  /** The loop's result is the only sequence that keeps, in first-occurrence order, the first
      entry of every key of `es`. */
  lemma FirstOccurrencesUnique(es: seq<Entry>, r: seq<Entry>)
    requires KeysOf(r) == KeysOf(es)
    requires forall e :: e in r ==> FirstWithKey(es, Key(e)) == Some(e)
    requires InFirstOrder(r, es)
    ensures r == FirstOccurrences(es)
  {
    SameFirstOrder(r, FirstOccurrences(es), es);
  }

  /** Two sequences of first entries over the same keys, both in first-occurrence order, are
      equal. */
  lemma {:induction false} SameFirstOrder(r: seq<Entry>, t: seq<Entry>, es: seq<Entry>)
    requires KeysOf(r) == KeysOf(t)
    requires forall e :: e in r ==> FirstWithKey(es, Key(e)) == Some(e)
    requires forall e :: e in t ==> FirstWithKey(es, Key(e)) == Some(e)
    requires InFirstOrder(r, es) && InFirstOrder(t, es)
    ensures r == t
    decreases |r| + |t|
  {
    NoKeysEmpty(r);
    NoKeysEmpty(t);
    if r != [] && t != [] {
      assert r[0] in r && t[0] in t;
      SameLeast(r, t, es);
      OrderedTail(r, es);
      OrderedTail(t, es);
      forall e | e in r[1..] ensures FirstWithKey(es, Key(e)) == Some(e) {
        assert e in r;
      }
      forall e | e in t[1..] ensures FirstWithKey(es, Key(e)) == Some(e) {
        assert e in t;
      }
      SameFirstOrder(r[1..], t[1..], es);
      ConsTail(r);
      ConsTail(t);
    }
  }

  lemma NoKeysEmpty(r: seq<Entry>)
    ensures KeysOf(r) == {} <==> r == []
  {
    if r != [] {
      assert Key(r[0]) in KeysOf(r);
    }
  }

  /** Over the same keys of `es`, both sequences start with the key that occurs first. */
  lemma SameLeast(r: seq<Entry>, t: seq<Entry>, es: seq<Entry>)
    requires r != [] && t != [] && KeysOf(r) == KeysOf(t)
    requires Key(r[0]) in KeysOf(es) && Key(t[0]) in KeysOf(es)
    requires InFirstOrder(r, es) && InFirstOrder(t, es)
    ensures Key(r[0]) == Key(t[0])
  {
    assert Key(r[0]) in KeysOf(r) && Key(t[0]) in KeysOf(t);
    HeadIsLeast(r, es, Key(t[0]));
    HeadIsLeast(t, es, Key(r[0]));
  }

  /** In first-occurrence order no key of `r` occurs in `es` before the head's. */
  lemma HeadIsLeast(r: seq<Entry>, es: seq<Entry>, k: string)
    requires r != [] && InFirstOrder(r, es) && k in KeysOf(r)
    ensures FirstIndex(es, Key(r[0])) <= FirstIndex(es, k)
  {
    var m :| 0 <= m < |r| && Key(r[m]) == k;
    if m > 0 {
      assert FirstIndex(es, Key(r[0])) < FirstIndex(es, Key(r[m]));
    }
  }

  /** In first-occurrence order the head's key does not come back. */
  lemma OrderedTail(r: seq<Entry>, es: seq<Entry>)
    requires r != [] && InFirstOrder(r, es)
    ensures KeysOf(r[1..]) == KeysOf(r) - {Key(r[0])}
    ensures InFirstOrder(r[1..], es)
  {
    var tail := r[1..];
    assert forall i :: 0 <= i < |tail| ==> tail[i] == r[i + 1];
    assert r == [r[0]] + tail;
    assert KeysOf(r) == {Key(r[0])} + KeysOf(tail);
    forall m | 0 <= m < |tail| ensures Key(tail[m]) != Key(r[0]) {
      assert FirstIndex(es, Key(r[0])) < FirstIndex(es, Key(r[m + 1]));
    }
  }

  /** The entry the loop keeps for a key is the first entry with that key. */
  lemma FirstIsKept(es: seq<Entry>, k: string)
    requires k in KeysOf(es)
    ensures FirstWithKey(es, k).Some? && FirstWithKey(es, k).value in FirstOccurrences(es)
  {
    var r := FirstOccurrences(es);
    assert k in KeysOf(r);
    var f :| f in r && Key(f) == k;
    assert FirstWithKey(es, k) == Some(f);
  }

  lemma {:induction false} CollectDistinct(es: seq<Entry>, seen: set<string>)
    requires DistinctKeys(es)
    requires forall i :: 0 <= i < |es| ==> Key(es[i]) !in seen
    ensures Collect(es, seen) == es
    decreases |es|
  {
    if es != [] {
      var tail, seen' := es[1..], seen + {Key(es[0])};
      TailKeysUnseen(es, seen);
      CollectKeeps(es, seen);
      CollectDistinct(tail, seen');
      ConsTail(es);
    }
  }

  /** One step of the loop on an entry whose key is new. */
  lemma CollectKeeps(es: seq<Entry>, seen: set<string>)
    requires es != [] && Key(es[0]) !in seen
    ensures Collect(es, seen) == [es[0]] + Collect(es[1..], seen + {Key(es[0])})
  {
  }

  /** After the first entry of a sequence with distinct keys, the rest still has distinct keys,
      none of them seen, not even the first entry's. */
  lemma TailKeysUnseen(es: seq<Entry>, seen: set<string>)
    requires es != [] && DistinctKeys(es)
    requires forall i :: 0 <= i < |es| ==> Key(es[i]) !in seen
    ensures DistinctKeys(es[1..])
    ensures forall i :: 0 <= i < |es[1..]| ==> Key(es[1..][i]) !in seen + {Key(es[0])}
  {
    var tail := es[1..];
    assert forall i :: 0 <= i < |tail| ==> tail[i] == es[i + 1];
  }

  /** Entries whose keys are already distinct pass the loop unchanged. */
  lemma FirstOccurrencesOfDistinct(es: seq<Entry>)
    requires DistinctKeys(es)
    ensures FirstOccurrences(es) == es
  {
    CollectDistinct(es, {});
  }
}
