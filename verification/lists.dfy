/** List shaping shared by the explorers, the environment picker and the
    quick picks: filtering, the stable "matching first" reorder, duplicate
    removal keeping first occurrences (`Array.from(new Set(xs))`), and the
    default string sort. */
module Lists {

  /** `xs.filter(p)`. */
  function Filter<T>(xs: seq<T>, p: T -> bool): (r: seq<T>)
    ensures |r| <= |xs|
    ensures forall x :: x in r ==> x in xs && p(x)
    ensures forall x :: x in xs && p(x) ==> x in r
    ensures multiset(r) <= multiset(xs)
  {
    if |xs| == 0 then []
    else
      var rest := Filter(xs[1..], p);
      assert xs == [xs[0]] + xs[1..];
      if p(xs[0]) then [xs[0]] + rest else rest
  }

  lemma {:induction false} FilterAppend<T>(a: seq<T>, b: seq<T>, p: T -> bool)
    ensures Filter(a + b, p) == Filter(a, p) + Filter(b, p)
  {
    if |a| == 0 {
      assert a + b == b;
    } else {
      assert (a + b)[1..] == a[1..] + b;
      FilterAppend(a[1..], b, p);
    }
  }

  /** Filtering keeps a sequence whose elements all pass. */
  lemma {:induction false} FilterKeepsAll<T>(xs: seq<T>, p: T -> bool)
    ensures (forall i :: 0 <= i < |xs| ==> p(xs[i])) ==> Filter(xs, p) == xs
  {
    if |xs| > 0 {
      FilterKeepsAll(xs[1..], p);
    }
  }

  lemma {:induction false} FilterIdempotent<T>(xs: seq<T>, p: T -> bool)
    ensures Filter(Filter(xs, p), p) == Filter(xs, p)
  {
    if |xs| > 0 {
      FilterIdempotent(xs[1..], p);
    }
  }

  /** Filtering by a predicate that no kept element satisfies gives nothing. */
  lemma {:induction false} FilterDisjoint<T>(xs: seq<T>, p: T -> bool, q: T -> bool)
    requires forall x :: p(x) ==> !q(x)
    ensures Filter(Filter(xs, p), q) == []
  {
    if |xs| > 0 {
      FilterDisjoint(xs[1..], p, q);
    }
  }

  /** The complement of a filter predicate. */
  function Not<T>(p: T -> bool): T -> bool {
    x => !p(x)
  }

  /** The two halves of a filter make up the whole multiset. */
  lemma {:induction false} FilterSplitMultiset<T>(xs: seq<T>, p: T -> bool)
    ensures multiset(Filter(xs, p)) + multiset(Filter(xs, Not(p))) == multiset(xs)
  {
    if |xs| > 0 {
      var x, rest := xs[0], xs[1..];
      FilterSplitMultiset(rest, p);
      assert xs == [x] + rest;
      var a, b := Filter(rest, p), Filter(rest, Not(p));
      if p(x) {
        assert Filter(xs, p) == [x] + a && Filter(xs, Not(p)) == b;
      } else {
        assert Filter(xs, p) == a && Filter(xs, Not(p)) == [x] + b;
      }
    }
  }

  /** The reorder the explorers and quick picks use: the elements satisfying
      `p` first, then the others, each group in its original order. This is
      also what a stable sort with the comparator
      `(a, b) => p(a) == p(b) ? 0 : p(a) ? -1 : 1` produces. */
  function StablePartition<T>(xs: seq<T>, p: T -> bool): seq<T> {
    Filter(xs, p) + Filter(xs, Not(p))
  }

  /** The partition is a permutation, keeps every element satisfying `p`
      before every other, and keeps the order inside each group: together the
      facts that define a stable sort by "satisfies `p` first". */
  lemma PartitionMembers<T>(xs: seq<T>, p: T -> bool)
    ensures forall x :: x in StablePartition(xs, p) <==> x in xs
  {
    StablePartitionIsStableSort(xs, p);
    assert forall x :: x in StablePartition(xs, p) <==> x in multiset(StablePartition(xs, p));
  }

  lemma StablePartitionIsStableSort<T>(xs: seq<T>, p: T -> bool)
    ensures multiset(StablePartition(xs, p)) == multiset(xs)
    ensures forall i, j :: 0 <= i < j < |StablePartition(xs, p)| ==>
              (p(StablePartition(xs, p)[j]) ==> p(StablePartition(xs, p)[i]))
    ensures Filter(StablePartition(xs, p), p) == Filter(xs, p)
    ensures Filter(StablePartition(xs, p), Not(p)) == Filter(xs, Not(p))
  {
    var a := Filter(xs, p);
    var b := Filter(xs, Not(p));
    FilterSplitMultiset(xs, p);
    forall k | 0 <= k < |a + b|
      ensures p((a + b)[k]) <==> k < |a|
    {
      if k < |a| {
        assert (a + b)[k] == a[k] && a[k] in a;
      } else {
        assert (a + b)[k] == b[k - |a|] && b[k - |a|] in b;
      }
    }
    FilterAppend(a, b, p);
    FilterIdempotent(xs, p);
    FilterDisjoint(xs, Not(p), p);
    FilterAppend(a, b, Not(p));
    FilterDisjoint(xs, p, Not(p));
    FilterIdempotent(xs, Not(p));
  }

  /** `Array.from(new Set(xs))`: the distinct elements in order of their
      first occurrence. */
  function Dedupe<T(==)>(xs: seq<T>): (r: seq<T>)
    ensures forall i :: 0 <= i < |r| ==> r[i] in xs
    ensures forall i :: 0 <= i < |xs| ==> xs[i] in r
    ensures |r| <= |xs|
    ensures Distinct(r)
  {
    if |xs| == 0 then []
    else
      var r := Dedupe(xs[..|xs| - 1]);
      assert xs == xs[..|xs| - 1] + [xs[|xs| - 1]];
      if xs[|xs| - 1] in r then r else r + [xs[|xs| - 1]]
  }

  predicate Distinct<T(==)>(xs: seq<T>) {
    forall i, j :: 0 <= i < j < |xs| ==> xs[i] != xs[j]
  }

  /** Index of the first occurrence of `x` in `xs`. */
  function FirstIndex<T(==)>(xs: seq<T>, x: T): (k: nat)
    requires x in xs
    ensures k < |xs| && xs[k] == x
    ensures forall j :: 0 <= j < k ==> xs[j] != x
  {
    if xs[0] == x then 0 else 1 + FirstIndex(xs[1..], x)
  }

  lemma FirstIndexPrefix<T>(xs: seq<T>, n: nat, x: T)
    requires n <= |xs| && x in xs[..n]
    ensures FirstIndex(xs, x) == FirstIndex(xs[..n], x)
  {
    var k := FirstIndex(xs[..n], x);
    assert xs[k] == x;
    var m := FirstIndex(xs, x);
    assert m <= k;
    assert xs[..n][m] == x;
  }

  /** Duplicate removal keeps each element once, ordered by where it first
      occurs in the input: the defining property of `new Set` iteration. */
  lemma {:induction false} DedupeFirstOccurrence<T>(xs: seq<T>)
    ensures forall i, j :: 0 <= i < j < |Dedupe(xs)| ==>
              FirstIndex(xs, Dedupe(xs)[i]) < FirstIndex(xs, Dedupe(xs)[j])
  {
    if |xs| > 0 {
      var n := |xs| - 1;
      DedupeFirstOccurrence(xs[..n]);
      DedupeSnoc(xs[..n], xs[n]);
      assert xs[..n] + [xs[n]] == xs;
    }
  }

  /** One step of `DedupeFirstOccurrence`: appending an element. */
  lemma DedupeSnoc<T>(init: seq<T>, last: T)
    requires forall i, j :: 0 <= i < j < |Dedupe(init)| ==>
               FirstIndex(init, Dedupe(init)[i]) < FirstIndex(init, Dedupe(init)[j])
    ensures forall i, j :: 0 <= i < j < |Dedupe(init + [last])| ==>
              FirstIndex(init + [last], Dedupe(init + [last])[i]) <
              FirstIndex(init + [last], Dedupe(init + [last])[j])
  {
    var xs := init + [last];
    var n := |init|;
    assert xs[..n] == init;
    var r := Dedupe(init);
    assert Dedupe(xs) == if last in r then r else r + [last];
    forall i | 0 <= i < |r|
      ensures r[i] in init && FirstIndex(xs, r[i]) == FirstIndex(init, r[i])
    {
      FirstIndexPrefix(xs, n, r[i]);
    }
    if last !in r {
      assert last !in init;
      FirstIndexLast(init, last);
    }
  }

  /** Appending an element adds it unless it was already there. */
  lemma DedupeSnocStep<T>(init: seq<T>, last: T)
    ensures Dedupe(init + [last]) == if last in init then Dedupe(init) else Dedupe(init) + [last]
  {
    var xs := init + [last];
    assert xs[..|xs| - 1] == init;
    assert last in init ==> last in Dedupe(init) by {
      if last in init {
        var k :| 0 <= k < |init| && init[k] == last;
      }
    }
  }

  lemma FirstIndexLast<T>(init: seq<T>, last: T)
    requires last !in init
    ensures FirstIndex(init + [last], last) == |init|
  {
    assert forall j :: 0 <= j < |init| ==> (init + [last])[j] == init[j] && init[j] in init;
  }

  /** Removing duplicates after a "matching first" reorder keeps every
      matching element ahead of every non-matching one. */
  lemma DedupeKeepsPartition<T>(xs: seq<T>, p: T -> bool)
    ensures forall i, j :: 0 <= i < j < |Dedupe(StablePartition(xs, p))| ==>
              (p(Dedupe(StablePartition(xs, p))[j]) ==> p(Dedupe(StablePartition(xs, p))[i]))
  {
    var s := StablePartition(xs, p);
    var r := Dedupe(s);
    StablePartitionIsStableSort(xs, p);
    DedupeFirstOccurrence(s);
    forall i, j | 0 <= i < j < |r| && p(r[j])
      ensures p(r[i])
    {
      assert r[i] in r && r[j] in r;
      var fi := FirstIndex(s, r[i]);
      var fj := FirstIndex(s, r[j]);
      assert fi < fj;
      assert s[fj] == r[j];
    }
  }

  /** Code-point order on strings: the default `Array.prototype.sort` order. */
  predicate StrLe(a: string, b: string) {
    |a| == 0 || (|b| > 0 && (a[0] < b[0] || (a[0] == b[0] && StrLe(a[1..], b[1..]))))
  }

  lemma {:induction false} StrLeTotal(a: string, b: string)
    ensures StrLe(a, b) || StrLe(b, a)
  {
    if |a| > 0 && |b| > 0 && a[0] == b[0] {
      StrLeTotal(a[1..], b[1..]);
    }
  }

  lemma {:induction false} StrLeTrans(a: string, b: string, c: string)
    requires StrLe(a, b) && StrLe(b, c)
    ensures StrLe(a, c)
  {
    if |a| > 0 && a[0] == b[0] && b[0] == c[0] {
      StrLeTrans(a[1..], b[1..], c[1..]);
    }
  }

  predicate Sorted(xs: seq<string>) {
    forall i, j :: 0 <= i < j < |xs| ==> StrLe(xs[i], xs[j])
  }

  function Insert(x: string, xs: seq<string>): (r: seq<string>)
    requires Sorted(xs)
    ensures Sorted(r)
    ensures multiset(r) == multiset(xs) + multiset{x}
    ensures forall j :: 0 <= j < |r| ==> r[j] == x || r[j] in xs
  {
    if |xs| == 0 then [x]
    else if StrLe(x, xs[0]) then
      forall j | 0 < j < |xs| ensures StrLe(x, xs[j]) { StrLeTrans(x, xs[0], xs[j]); }
      SortedCons(x, xs);
      [x] + xs
    else
      StrLeTotal(x, xs[0]);
      var rest := Insert(x, xs[1..]);
      assert xs == [xs[0]] + xs[1..];
      forall j | 0 <= j < |rest| ensures StrLe(xs[0], rest[j]) {
        if rest[j] != x {
          var k :| 0 <= k < |xs[1..]| && xs[1..][k] == rest[j];
          assert xs[k + 1] == rest[j];
        }
      }
      SortedCons(xs[0], rest);
      [xs[0]] + rest
  }

  /** A sorted list stays sorted under a head no greater than its elements. */
  lemma SortedCons(h: string, t: seq<string>)
    requires Sorted(t) && forall j :: 0 <= j < |t| ==> StrLe(h, t[j])
    ensures Sorted([h] + t)
  {
    var r := [h] + t;
    forall i, j | 0 <= i < j < |r|
      ensures StrLe(r[i], r[j])
    {
      assert r[j] == t[j - 1];
      if i > 0 { assert r[i] == t[i - 1]; }
    }
  }

  /** `xs.sort()` on strings: ordered, and a permutation of the input. */
  function Sort(xs: seq<string>): (r: seq<string>)
    ensures Sorted(r)
    ensures multiset(r) == multiset(xs)
  {
    if |xs| == 0 then []
    else
      assert xs == [xs[0]] + xs[1..];
      Insert(xs[0], Sort(xs[1..]))
  }
}
