/** Sequence operations the stores are built from: `Array.filter`,
    `Array.findIndex`/`find`, and the first-occurrence de-duplication that
    `Array.from(new Set(xs))` performs. */
module Seqs {
  import opened Types

  /** `s.filter(p)`: the elements satisfying `p`, in their original order. */
  function Filter<T>(p: T -> bool, s: seq<T>): (r: seq<T>)
    ensures |r| <= |s|
    ensures forall i :: 0 <= i < |r| ==> r[i] in s && p(r[i])
    ensures forall i :: 0 <= i < |s| && p(s[i]) ==> s[i] in r
  {
    if |s| == 0 then []
    else if p(s[0]) then [s[0]] + Filter(p, s[1..])
    else Filter(p, s[1..])
  }

  /** `idx` lists, in increasing order, exactly the positions of `s` whose
      elements satisfy `p`, and `r` is `s` read at those positions. */
  ghost predicate Picks<T>(idx: seq<nat>, r: seq<T>, s: seq<T>, p: T -> bool) {
    && |idx| == |r|
    && (forall k :: 0 <= k < |idx| ==> idx[k] < |s| && s[idx[k]] == r[k])
    && (forall k, l :: 0 <= k < l < |idx| ==> idx[k] < idx[l])
    && (forall i :: 0 <= i < |s| ==> (p(s[i]) <==> i in idx))
  }

  /** `r` is the order-preserving subsequence of `s` made of the elements
      that satisfy `p`. */
  ghost predicate Selects<T>(r: seq<T>, s: seq<T>, p: T -> bool) {
    exists idx: seq<nat> :: Picks(idx, r, s, p)
  }

  /** Shifting the positions of a pick from `s[1..]` by one picks the same
      elements from `s`, position 0 excluded. */
  lemma PicksShift<T>(idx: seq<nat>, r: seq<T>, s: seq<T>, p: T -> bool) returns (sh: seq<nat>)
    requires |s| > 0 && Picks(idx, r, s[1..], p)
    ensures |sh| == |idx| && 0 !in sh
    ensures forall k :: 0 <= k < |sh| ==> sh[k] == idx[k] + 1
    ensures forall k, l :: 0 <= k < l < |sh| ==> sh[k] < sh[l]
    ensures forall i :: 0 < i < |s| ==> (p(s[i]) <==> i in sh)
  {
    sh := seq(|idx|, k requires 0 <= k < |idx| => idx[k] + 1);
    forall i | 0 < i < |s| ensures p(s[i]) <==> i in sh {
      assert s[i] == s[1..][i - 1];
      if p(s[i]) {
        var k :| 0 <= k < |idx| && idx[k] == i - 1;
        assert sh[k] == i;
      }
      if i in sh {
        var k :| 0 <= k < |sh| && sh[k] == i;
        assert idx[k] == i - 1;
      }
    }
  }

  /** Positions above 0 in increasing order stay increasing behind 0. */
  lemma ZeroThenIncreasing(sh: seq<nat>)
    requires forall k :: 0 <= k < |sh| ==> sh[k] > 0
    requires forall k, l :: 0 <= k < l < |sh| ==> sh[k] < sh[l]
    ensures forall k, l :: 0 <= k < l < |[0] + sh| ==> ([0] + sh)[k] < ([0] + sh)[l]
  {
    forall k, l | 0 <= k < l < |[0] + sh| ensures ([0] + sh)[k] < ([0] + sh)[l] {
      assert ([0] + sh)[l] == sh[l - 1];
      if k > 0 {
        assert ([0] + sh)[k] == sh[k - 1];
      }
    }
  }

  /** A passing head extends a pick of the tail at position 0. */
  lemma PicksPass<T>(idx: seq<nat>, rest: seq<T>, s: seq<T>, p: T -> bool) returns (all: seq<nat>)
    requires |s| > 0 && p(s[0]) && Picks(idx, rest, s[1..], p)
    ensures Picks(all, [s[0]] + rest, s, p)
  {
    var sh := PicksShift(idx, rest, s, p);
    all := [0] + sh;
    var r := [s[0]] + rest;
    forall k | 0 <= k < |all| ensures all[k] < |s| && s[all[k]] == r[k] {
      if k > 0 {
        assert all[k] == idx[k - 1] + 1;
        assert s[all[k]] == s[1..][idx[k - 1]];
      }
    }
    ZeroThenIncreasing(sh);
    assert all[0] == 0;
    forall i | 0 < i < |s| ensures p(s[i]) <==> i in all {
      assert i in sh <==> i in all;
    }
  }

  /** A failing head leaves a pick of the tail in place, shifted by one. */
  lemma PicksFail<T>(idx: seq<nat>, rest: seq<T>, s: seq<T>, p: T -> bool) returns (sh: seq<nat>)
    requires |s| > 0 && !p(s[0]) && Picks(idx, rest, s[1..], p)
    ensures Picks(sh, rest, s, p)
  {
    sh := PicksShift(idx, rest, s, p);
    forall k | 0 <= k < |sh| ensures sh[k] < |s| && s[sh[k]] == rest[k] {
      assert s[sh[k]] == s[1..][idx[k]];
    }
  }

  /** `Filter` keeps the passing elements in their original order: it reads
      `s` at exactly the passing positions, in increasing order. */
  lemma {:induction false} FilterSelects<T>(p: T -> bool, s: seq<T>)
    ensures Selects(Filter(p, s), s, p)
  {
    if |s| == 0 {
      assert Picks([], Filter(p, s), s, p);
    } else {
      FilterSelects(p, s[1..]);
      var rest := Filter(p, s[1..]);
      var idx :| Picks(idx, rest, s[1..], p);
      if p(s[0]) {
        var all := PicksPass(idx, rest, s, p);
        assert Filter(p, s) == [s[0]] + rest;
      } else {
        var sh := PicksFail(idx, rest, s, p);
      }
    }
  }

  lemma {:induction false} FilterConcat<T>(p: T -> bool, a: seq<T>, b: seq<T>)
    ensures Filter(p, a + b) == Filter(p, a) + Filter(p, b)
  {
    if |a| == 0 {
      assert a + b == b;
    } else {
      assert (a + b)[1..] == a[1..] + b;
      FilterConcat(p, a[1..], b);
    }
  }

  /** Filtering twice is filtering once by the conjunction `pq`. */
  lemma {:induction false} FilterCompose<T>(p: T -> bool, q: T -> bool, pq: T -> bool, s: seq<T>)
    requires forall x :: pq(x) == (p(x) && q(x))
    ensures Filter(q, Filter(p, s)) == Filter(pq, s)
  {
    if |s| > 0 {
      FilterCompose(p, q, pq, s[1..]);
      if p(s[0]) {
        assert Filter(p, s)[1..] == Filter(p, s[1..]);
      }
    }
  }

  /** Filters by pointwise-equal predicates agree. */
  lemma {:induction false} FilterExt<T>(p: T -> bool, q: T -> bool, s: seq<T>)
    requires forall x :: p(x) == q(x)
    ensures Filter(p, s) == Filter(q, s)
  {
    if |s| > 0 {
      FilterExt(p, q, s[1..]);
    }
  }

  /** Filtering keeps everything exactly when every element passes. */
  lemma {:induction false} FilterKeepsAll<T>(p: T -> bool, s: seq<T>)
    ensures (forall i :: 0 <= i < |s| ==> p(s[i])) <==> Filter(p, s) == s
  {
    if |s| > 0 {
      FilterKeepsAll(p, s[1..]);
      if !p(s[0]) {
        assert |Filter(p, s)| <= |s[1..]| < |s|;
      } else if Filter(p, s) == s {
        assert Filter(p, s[1..]) == Filter(p, s)[1..];
      }
    }
  }

  /** Filtering keeps nothing when no element passes. */
  lemma {:induction false} FilterKeepsNone<T>(p: T -> bool, s: seq<T>)
    requires forall i :: 0 <= i < |s| ==> !p(s[i])
    ensures Filter(p, s) == []
  {
    if |s| > 0 {
      FilterKeepsNone(p, s[1..]);
    }
  }

  /** The elements passing `p` and those passing its negation `notP`
      together account for the whole sequence. */
  lemma {:induction false} FilterPartition<T>(p: T -> bool, notP: T -> bool, s: seq<T>)
    requires forall x :: notP(x) == !p(x)
    ensures |Filter(p, s)| + |Filter(notP, s)| == |s|
  {
    if |s| > 0 {
      FilterPartition(p, notP, s[1..]);
    }
  }

  /** Occurrences of `x` in `s`. */
  function Count<T(==)>(x: T, s: seq<T>): (n: nat)
    ensures n <= |s|
    ensures n == 0 <==> x !in s
  {
    if |s| == 0 then 0
    else (if s[0] == x then 1 else 0) + Count(x, s[1..])
  }

  ghost predicate NoDup<T>(s: seq<T>) {
    forall i, j :: 0 <= i < j < |s| ==> s[i] != s[j]
  }

  /** `s.findIndex(p)` when it is not -1: the first index satisfying `p`. */
  function FindIndex<T>(p: T -> bool, s: seq<T>): (r: Option<nat>)
    ensures r.Some? ==> r.value < |s| && p(s[r.value])
    ensures r.Some? ==> forall j :: 0 <= j < r.value ==> !p(s[j])
    ensures r.None? <==> forall j :: 0 <= j < |s| ==> !p(s[j])
  {
    if |s| == 0 then None
    else if p(s[0]) then Some(0)
    else match FindIndex(p, s[1..])
      case None => None
      case Some(k) => Some(k + 1)
  }

  /** `s.find(p)`: the first element satisfying `p`, if any. */
  function Find<T>(p: T -> bool, s: seq<T>): (r: Option<T>)
    ensures r.Some? ==> r.value in s && p(r.value)
    ensures r.None? <==> forall j :: 0 <= j < |s| ==> !p(s[j])
    ensures r.Some? ==> exists k :: 0 <= k < |s| && s[k] == r.value && forall j :: 0 <= j < k ==> !p(s[j])
  {
    match FindIndex(p, s)
    case None => None
    case Some(k) => Some(s[k])
  }

  /** Insertion into a JavaScript `Set` that already holds `acc` (in
      insertion order): elements already present are skipped. */
  function DedupInto<T(==)>(s: seq<T>, acc: seq<T>): (r: seq<T>)
    ensures NoDup(acc) ==> NoDup(r)
    ensures forall i :: 0 <= i < |r| ==> r[i] in acc || r[i] in s
    ensures forall i :: 0 <= i < |s| ==> s[i] in r
    ensures |acc| <= |r| && r[..|acc|] == acc
  {
    if |s| == 0 then acc
    else if s[0] in acc then DedupInto(s[1..], acc)
    else
      var r := DedupInto(s[1..], acc + [s[0]]);
      assert r[..|acc|] == r[..|acc + [s[0]]|][..|acc|];
      assert r[|acc|] == (acc + [s[0]])[|acc|] == s[0];
      r
  }

  /** `s.indexOf(x)`, with `|s|` in place of -1: the position of the first
      occurrence of `x`. */
  function IndexOf<T(==)>(s: seq<T>, x: T): (k: nat)
    ensures k <= |s|
    ensures k < |s| <==> x in s
    ensures k < |s| ==> s[k] == x
    ensures forall j :: 0 <= j < k ==> s[j] != x
  {
    if |s| == 0 then 0
    else if s[0] == x then 0
    else IndexOf(s[1..], x) + 1
  }

  /** The elements `DedupInto` adds behind `acc` are new to `acc`. */
  lemma {:induction false} DedupIntoNew<T>(s: seq<T>, acc: seq<T>)
    ensures forall k :: |acc| <= k < |DedupInto(s, acc)| ==> DedupInto(s, acc)[k] !in acc
  {
    if |s| > 0 {
      if s[0] in acc {
        DedupIntoNew(s[1..], acc);
      } else {
        DedupIntoNew(s[1..], acc + [s[0]]);
      }
    }
  }

  /** Positions of elements other than the head, seen from the tail. */
  lemma IndexOfTail<T>(s: seq<T>, x: T)
    requires |s| > 0 && x != s[0]
    ensures IndexOf(s, x) == IndexOf(s[1..], x) + 1
  {
  }

  /** Elements in first-occurrence order in the tail, none of them the
      head, keep that order in the whole sequence. */
  lemma OrderFromTail<T>(s: seq<T>, r: seq<T>, lo: nat)
    requires |s| > 0
    requires forall k :: lo <= k < |r| ==> r[k] != s[0]
    requires forall i, j :: lo <= i < j < |r| ==> IndexOf(s[1..], r[i]) < IndexOf(s[1..], r[j])
    ensures forall i, j :: lo <= i < j < |r| ==> IndexOf(s, r[i]) < IndexOf(s, r[j])
  {
    forall i, j | lo <= i < j < |r| ensures IndexOf(s, r[i]) < IndexOf(s, r[j]) {
      IndexOfTail(s, r[i]);
      IndexOfTail(s, r[j]);
    }
  }

  /** The head first, then elements other than the head: the head's first
      occurrence, at 0, comes before all of theirs. */
  lemma HeadFirst<T>(s: seq<T>, r: seq<T>, at: nat)
    requires |s| > 0 && at < |r| && r[at] == s[0]
    requires forall k :: at < k < |r| ==> r[k] != s[0]
    requires forall i, j :: at < i < j < |r| ==> IndexOf(s, r[i]) < IndexOf(s, r[j])
    ensures forall i, j :: at <= i < j < |r| ==> IndexOf(s, r[i]) < IndexOf(s, r[j])
  {
    forall j | at < j < |r| ensures IndexOf(s, r[at]) < IndexOf(s, r[j]) {
      IndexOfTail(s, r[j]);
    }
  }

  /** The elements `DedupInto` adds behind `acc` come in the order of their
      first occurrences in `s`. */
  lemma {:induction false} DedupIntoOrder<T>(s: seq<T>, acc: seq<T>)
    ensures forall i, j :: |acc| <= i < j < |DedupInto(s, acc)| ==>
      IndexOf(s, DedupInto(s, acc)[i]) < IndexOf(s, DedupInto(s, acc)[j])
  {
    if |s| > 0 {
      var r := DedupInto(s, acc);
      if s[0] in acc {
        assert r == DedupInto(s[1..], acc);
        DedupIntoOrder(s[1..], acc);
        DedupIntoNew(s[1..], acc);
        OrderFromTail(s, r, |acc|);
      } else {
        var acc1 := acc + [s[0]];
        assert r == DedupInto(s[1..], acc1);
        assert r[|acc|] == r[..|acc1|][|acc|] == s[0];
        DedupIntoOrder(s[1..], acc1);
        DedupIntoNew(s[1..], acc1);
        OrderFromTail(s, r, |acc1|);
        HeadFirst(s, r, |acc|);
      }
    }
  }

  /** `Array.from(new Set(s))`: each element once, at the place of its
      first occurrence. */
  function Dedup<T(==)>(s: seq<T>): (r: seq<T>)
    ensures NoDup(r)
    ensures forall i :: 0 <= i < |r| ==> r[i] in s
    ensures forall i :: 0 <= i < |s| ==> s[i] in r
    ensures forall i, j :: 0 <= i < j < |r| ==> IndexOf(s, r[i]) < IndexOf(s, r[j])
  {
    var none: seq<T> := [];
    DedupIntoOrder(s, none);
    DedupInto(s, none)
  }

  /** Inserting elements that are all present already changes nothing. */
  lemma {:induction false} DedupIntoPresent<T>(s: seq<T>, acc: seq<T>)
    requires forall x :: x in s ==> x in acc
    ensures DedupInto(s, acc) == acc
  {
    if |s| > 0 {
      DedupIntoPresent(s[1..], acc);
    }
  }

  /** Inserting duplicate-free fresh elements appends them in order. */
  lemma {:induction false} DedupIntoFresh<T>(s: seq<T>, acc: seq<T>)
    requires NoDup(acc + s)
    ensures DedupInto(s, acc) == acc + s
  {
    if |s| > 0 {
      assert s[0] == (acc + s)[|acc|];
      assert s[0] !in acc by {
        forall i | 0 <= i < |acc| ensures acc[i] != s[0] {
          assert acc[i] == (acc + s)[i];
        }
      }
      assert acc + [s[0]] + s[1..] == acc + s;
      DedupIntoFresh(s[1..], acc + [s[0]]);
    }
  }

  /** Inserting `a` then `b` is inserting `a + b`. */
  lemma {:induction false} DedupIntoConcat<T>(a: seq<T>, b: seq<T>, acc: seq<T>)
    ensures DedupInto(a + b, acc) == DedupInto(b, DedupInto(a, acc))
  {
    if |a| == 0 {
      assert a + b == b;
    } else {
      assert (a + b)[0] == a[0];
      assert (a + b)[1..] == a[1..] + b;
      if a[0] in acc {
        DedupIntoConcat(a[1..], b, acc);
      } else {
        DedupIntoConcat(a[1..], b, acc + [a[0]]);
      }
    }
  }
}
