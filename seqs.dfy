/** Generic facts about sequences used by the table operations: selection by a
    boolean mask (order kept), subsequences, distinctness, de-duplication and a
    descending sort on an integer key. */
module Seqs {

  /** `a` is obtained from `b` by deleting elements, keeping the order of the rest. */
  predicate IsSubseq<T(==)>(a: seq<T>, b: seq<T>)
    decreases |b|
  {
    if a == [] then true
    else if b == [] then false
    else (a[0] == b[0] && IsSubseq(a[1..], b[1..])) || IsSubseq(a, b[1..])
  }

  lemma {:induction false} SubseqMultiset<T>(a: seq<T>, b: seq<T>)
    requires IsSubseq(a, b)
    ensures multiset(a) <= multiset(b)
    decreases |b|
  {
    if a != [] {
      assert b == [b[0]] + b[1..];
      if a[0] == b[0] && IsSubseq(a[1..], b[1..]) {
        SubseqMultiset(a[1..], b[1..]);
        assert a == [a[0]] + a[1..];
      } else {
        SubseqMultiset(a, b[1..]);
      }
    }
  }

  /** The elements of `s` on which the mask `p` holds, in their original order
      (pandas boolean indexing `df[mask]`). */
  function Filter<T(!new)>(s: seq<T>, p: T -> bool): (r: seq<T>)
    ensures |r| <= |s|
    ensures forall x :: x in r <==> x in s && p(x)
    ensures forall x :: multiset(r)[x] == if p(x) then multiset(s)[x] else 0
  {
    if s == [] then []
    else
      assert s == [s[0]] + s[1..];
      if p(s[0]) then [s[0]] + Filter(s[1..], p) else Filter(s[1..], p)
  }

  lemma {:induction false} FilterIsSubseq<T(!new)>(s: seq<T>, p: T -> bool)
    ensures IsSubseq(Filter(s, p), s)
  {
    if s != [] {
      FilterIsSubseq(s[1..], p);
      if p(s[0]) {
        assert ([s[0]] + Filter(s[1..], p))[1..] == Filter(s[1..], p);
      }
    }
  }

  /** The mask selection is the ONLY subsequence of `s` that keeps every copy of
      every element satisfying `p` and nothing else. */
  lemma {:induction false} FilterUnique<T(!new)>(s: seq<T>, p: T -> bool, a: seq<T>)
    requires IsSubseq(a, s)
    requires forall x :: multiset(a)[x] == if p(x) then multiset(s)[x] else 0
    ensures a == Filter(s, p)
    decreases |s|
  {
    if s == [] {
      assert a == [];
    } else if a == [] {
    } else {
      var x, rest := s[0], s[1..];
      assert s == [x] + rest;
      if p(x) {
        assert a[0] == x && IsSubseq(a[1..], rest) by {
          if !(a[0] == x && IsSubseq(a[1..], rest)) {
            SubseqMultiset(a, rest);
          }
        }
        assert a == [a[0]] + a[1..];
        forall y ensures multiset(a[1..])[y] == if p(y) then multiset(rest)[y] else 0 {
          assert multiset(a)[y] == multiset(a[1..])[y] + (if y == x then 1 else 0);
        }
        FilterUnique(rest, p, a[1..]);
      } else {
        assert a[0] in multiset(a);
        assert a[0] != x;
        forall y ensures multiset(a)[y] == if p(y) then multiset(rest)[y] else 0 {
        }
        FilterUnique(rest, p, a);
      }
    }
  }

  /** Two masks that agree on every element select the same rows. */
  lemma {:induction false} FilterCongruent<T(!new)>(s: seq<T>, p: T -> bool, q: T -> bool)
    requires forall k :: 0 <= k < |s| ==> p(s[k]) == q(s[k])
    ensures Filter(s, p) == Filter(s, q)
  {
    if s != [] {
      FilterCongruent(s[1..], p, q);
    }
  }

  /** A mask that holds everywhere keeps the sequence as it is. */
  lemma {:induction false} FilterAll<T(!new)>(s: seq<T>, p: T -> bool)
    requires forall k :: 0 <= k < |s| ==> p(s[k])
    ensures Filter(s, p) == s
  {
    if s != [] {
      FilterAll(s[1..], p);
      assert s == [s[0]] + s[1..];
    }
  }

  /** A mask and its negation split a sequence into two parts that together hold
      every element. */
  lemma {:induction false} PartitionMultiset<T(!new)>(s: seq<T>, p: T -> bool, q: T -> bool)
    requires forall x :: q(x) == !p(x)
    ensures multiset(Filter(s, p)) + multiset(Filter(s, q)) == multiset(s)
  {
    var fp, fq := Filter(s, p), Filter(s, q);
    forall y ensures (multiset(fp) + multiset(fq))[y] == multiset(s)[y] {
      assert q(y) == !p(y);
    }
  }

  /** Taking out the element at `k` takes one copy of it out of the multiset. */
  lemma {:induction false} RemoveMultiset<T>(s: seq<T>, k: nat)
    requires k < |s|
    ensures multiset(s) == multiset(s[..k] + s[k + 1..]) + multiset{s[k]}
  {
    assert s == s[..k] + [s[k]] + s[k + 1..];
  }

  /** Two rearrangements of each other, each without one copy of the same element,
      are still rearrangements of each other. */
  lemma {:induction false} PermTail<T>(a: seq<T>, b: seq<T>, k: nat)
    requires multiset(a) == multiset(b) && a != [] && k < |b| && b[k] == a[0]
    ensures multiset(a[1..]) == multiset(b[..k] + b[k + 1..])
  {
    RemoveMultiset(b, k);
    assert a == [a[0]] + a[1..];
    var rest := b[..k] + b[k + 1..];
    forall x ensures multiset(a[1..])[x] == multiset(rest)[x] {
      assert (multiset(a[1..]) + multiset{a[0]})[x] == (multiset(rest) + multiset{a[0]})[x];
    }
  }

  /** What a prefix leaves of a sequence's multiset is the multiset of the rest. */
  lemma {:induction false} PrefixRest<T>(s: seq<T>, k: nat)
    requires k <= |s|
    ensures multiset(s) - multiset(s[..k]) == multiset(s[k..])
  {
    assert s == s[..k] + s[k..];
  }

  predicate Distinct<T(==)>(s: seq<T>) {
    forall i, j :: 0 <= i < j < |s| ==> s[i] != s[j]
  }

  lemma {:induction false} DistinctCount<T>(s: seq<T>, x: T)
    requires Distinct(s)
    ensures multiset(s)[x] <= 1
  {
    if s != [] {
      assert s == [s[0]] + s[1..];
      assert Distinct(s[1..]);
      DistinctCount(s[1..], x);
      if x == s[0] {
        assert x !in s[1..];
      }
    }
  }

  lemma {:induction false} TwoCopies<T>(s: seq<T>, i: nat, j: nat)
    requires i < j < |s| && s[i] == s[j]
    ensures multiset(s)[s[i]] >= 2
  {
    assert s == s[..j] + s[j..];
    assert s[i] in s[..j];
    assert s[j] == s[j..][0];
  }

  /** Rearranging a sequence without repetitions leaves it without repetitions. */
  lemma {:induction false} DistinctPerm<T>(a: seq<T>, b: seq<T>)
    requires Distinct(a) && multiset(a) == multiset(b)
    ensures Distinct(b)
  {
    forall i, j | 0 <= i < j < |b| ensures b[i] != b[j] {
      if b[i] == b[j] {
        TwoCopies(b, i, j);
        DistinctCount(a, b[i]);
        assert false;
      }
    }
  }

  /** The distinct elements of `s`, in order of first appearance. */
  function Dedup<T(==,!new)>(s: seq<T>): (d: seq<T>)
    ensures Distinct(d)
    ensures forall x :: x in d <==> x in s
  {
    if s == [] then []
    else
      var d := Dedup(s[..|s| - 1]);
      var last := s[|s| - 1];
      assert s == s[..|s| - 1] + [last];
      if last in d then d else d + [last]
  }

  predicate SortedDesc<T>(s: seq<T>, key: T -> int) {
    forall i, j :: 0 <= i < j < |s| ==> key(s[i]) >= key(s[j])
  }

  /** Insert `x` into a sequence already in non-increasing key order. */
  function Insert<T>(x: T, s: seq<T>, key: T -> int): (r: seq<T>)
    requires SortedDesc(s, key)
    ensures multiset(r) == multiset(s) + multiset{x}
    ensures SortedDesc(r, key)
  {
    if s == [] then [x]
    else if key(x) >= key(s[0]) then [x] + s
    else
      var t := Insert(x, s[1..], key);
      ConsSorted(s, x, t, key);
      [s[0]] + t
  }

  /** Putting the head of `s` back in front of `x` inserted into the tail keeps
      the order and the elements. */
  lemma {:induction false} ConsSorted<T>(s: seq<T>, x: T, t: seq<T>, key: T -> int)
    requires s != [] && SortedDesc(s, key) && key(x) < key(s[0])
    requires multiset(t) == multiset(s[1..]) + multiset{x} && SortedDesc(t, key)
    ensures multiset([s[0]] + t) == multiset(s) + multiset{x}
    ensures SortedDesc([s[0]] + t, key)
  {
    assert s == [s[0]] + s[1..];
    forall y | y in t ensures key(y) <= key(s[0]) {
      assert y in multiset(t);
      if y != x {
        assert y in s[1..];
      }
    }
    var r := [s[0]] + t;
    forall i, j | 0 <= i < j < |r| ensures key(r[i]) >= key(r[j]) {
      if i > 0 {
        assert r[i] == t[i - 1] && r[j] == t[j - 1];
      } else {
        assert r[j] == t[j - 1] && r[j] in t;
      }
    }
  }

  /** The elements of `s` rearranged in non-increasing key order. */
  function SortDesc<T>(s: seq<T>, key: T -> int): (r: seq<T>)
    ensures multiset(r) == multiset(s)
    ensures |r| == |s|
    ensures SortedDesc(r, key)
  {
    if s == [] then []
    else
      assert s == [s[0]] + s[1..];
      var r := Insert(s[0], SortDesc(s[1..], key), key);
      assert |r| == |multiset(r)| == |multiset(s)| == |s|;
      r
  }
}
