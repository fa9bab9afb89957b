/** Order-preserving filtering over sequences, the model of `Array.prototype.filter`. */
module Seqs {

  /** `t` can be obtained from `s` by deleting elements, keeping the order of the rest. */
  predicate IsSubseq<T(==)>(t: seq<T>, s: seq<T>)
    decreases |s|
  {
    if t == [] then true
    else if s == [] then false
    else if t[0] == s[0] then IsSubseq(t[1..], s[1..])
    else IsSubseq(t, s[1..])
  }

  /** The number of positions of `s` whose element satisfies `keep`. */
  function Count<T>(s: seq<T>, keep: T -> bool): (n: nat)
    ensures n <= |s|
  {
    if s == [] then 0 else (if keep(s[0]) then 1 else 0) + Count(s[1..], keep)
  }

  /** The elements of `s` that satisfy `keep`, in their original order. */
  function Filter<T>(s: seq<T>, keep: T -> bool): (r: seq<T>)
    ensures |r| == Count(s, keep)
    ensures forall i :: 0 <= i < |r| ==> keep(r[i])
    ensures forall x :: x in s && keep(x) ==> x in r
    ensures forall x :: x in r ==> x in s
  {
    if s == [] then []
    else if keep(s[0]) then [s[0]] + Filter(s[1..], keep)
    else Filter(s[1..], keep)
  }

  lemma {:induction false} SubseqOfTail<T>(t: seq<T>, s: seq<T>)
    requires s != [] && IsSubseq(t, s[1..])
    ensures IsSubseq(t, s)
    decreases |s|, |t|
  {
    if t != [] && t[0] == s[0] {
      SubseqDropHead(t, s[1..]);
    }
  }

  lemma {:induction false} SubseqDropHead<T>(t: seq<T>, s: seq<T>)
    requires t != [] && IsSubseq(t, s)
    ensures IsSubseq(t[1..], s)
    decreases |s|, |t|
  {
    if t[0] == s[0] {
      SubseqOfTail(t[1..], s);
    } else {
      SubseqDropHead(t, s[1..]);
      SubseqOfTail(t[1..], s);
    }
  }

  /** Every filtered result is an order-preserving sublist of its input. */
  lemma {:induction false} FilterIsSubseq<T>(s: seq<T>, keep: T -> bool)
    ensures IsSubseq(Filter(s, keep), s)
    decreases |s|
  {
    if s != [] {
      FilterIsSubseq(s[1..], keep);
      if !keep(s[0]) {
        SubseqOfTail(Filter(s, keep), s);
      }
    }
  }

  /** A sublist whose elements all satisfy `keep` has at most as many elements as `s` has satisfying positions. */
  lemma {:induction false} SubseqCountBound<T>(t: seq<T>, s: seq<T>, keep: T -> bool)
    requires IsSubseq(t, s)
    requires forall i :: 0 <= i < |t| ==> keep(t[i])
    ensures |t| <= Count(s, keep)
    decreases |s|
  {
    if t != [] {
      if t[0] == s[0] {
        SubseqCountBound(t[1..], s[1..], keep);
      } else {
        SubseqCountBound(t, s[1..], keep);
      }
    }
  }

  /** Filter is the only order-preserving sublist that keeps exactly the satisfying elements:
      any sublist of satisfying elements as long as the number of satisfying positions equals it. */
  lemma {:induction false} FilterUnique<T>(t: seq<T>, s: seq<T>, keep: T -> bool)
    requires IsSubseq(t, s)
    requires forall i :: 0 <= i < |t| ==> keep(t[i])
    requires |t| == Count(s, keep)
    ensures t == Filter(s, keep)
    decreases |s|
  {
    if s == [] {
    } else if keep(s[0]) {
      if t != [] && t[0] == s[0] {
        FilterUnique(t[1..], s[1..], keep);
      } else {
        SubseqCountBound(t, s[1..], keep);
      }
    } else {
      if t != [] {
        assert keep(t[0]) && t[0] != s[0];
      }
      FilterUnique(t, s[1..], keep);
    }
  }

  /** `xs.map(f)`. */
  function Map<A, B>(f: A -> B, xs: seq<A>): (r: seq<B>)
    ensures |r| == |xs|
    ensures forall i :: 0 <= i < |xs| ==> r[i] == f(xs[i])
  {
    seq(|xs|, i requires 0 <= i < |xs| => f(xs[i]))
  }

  /** Mapping one more element appends its image. */
  lemma MapSnoc<A, B>(f: A -> B, xs: seq<A>, x: A)
    ensures Map(f, xs + [x]) == Map(f, xs) + [f(x)]
  {
  }

  lemma TakeOneMore<T>(s: seq<T>, i: int)
    requires 0 <= i < |s|
    ensures s[..i + 1] == s[..i] + [s[i]]
  {
  }

  lemma TakeAll<T>(s: seq<T>)
    ensures s[..|s|] == s
  {
  }

  /** Three parts joined by a separator, the middle one possibly empty, regrouped from the right. */
  lemma SeparatedSlot<T>(p: seq<T>, mid: seq<T>, rest: seq<T>, sep: T)
    ensures mid == [] ==> p + [sep] + mid + [sep] + rest == p + [sep, sep] + rest
    ensures mid != [] ==> p + [sep] + mid + [sep] + rest == p + [sep] + (mid + [sep] + rest)
  {
  }

  /** The last element of a concatenation with a non-empty right part is the right part's last. */
  lemma LastOfAppend<T>(a: seq<T>, b: seq<T>)
    requires b != []
    ensures (a + b)[|a + b| - 1] == b[|b| - 1]
  {
  }

  lemma ConsTail<T>(s: seq<T>)
    requires s != []
    ensures [s[0]] + s[1..] == s
  {
  }

  lemma Associate<T>(x: seq<T>, y: seq<T>, z: seq<T>)
    ensures x + (y + z) == (x + y) + z
  {
  }

  /** The head and tail of a concatenation whose left part is not empty. */
  lemma ConsOfAppend<T>(a: seq<T>, b: seq<T>)
    requires a != []
    ensures (a + b)[0] == a[0] && (a + b)[1..] == a[1..] + b
  {
  }

  lemma FilterKeepsPair<T>(a: T, b: T, keep: T -> bool)
    requires keep(a) && keep(b)
    ensures Filter([a, b], keep) == [a, b]
  {
    assert [a, b][1..] == [b];
    assert [b][1..] == [];
  }

  lemma InMiddle<T>(x: T, a: seq<T>, b: seq<T>)
    ensures x in a + [x] + b
  {
    assert (a + [x] + b)[|a|] == x;
  }

  /** A sequence is what comes before position `i`, the element there, and what follows. */
  lemma SplitAround<T>(s: seq<T>, i: int)
    requires 0 <= i < |s|
    ensures s == s[..i] + [s[i]] + s[i + 1..]
  {
  }

  lemma AppendEmpty<T>(s: seq<T>)
    ensures s + [] == s
  {
  }
}
