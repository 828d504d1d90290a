/** The array operations the stores use (`find`, `filter`), as functions on sequences. */
module Seqs {
  import opened Common

  /** `r` is obtained from `s` by deleting some elements and keeping the rest in order. */
  ghost predicate Subsequence<T>(r: seq<T>, s: seq<T>)
    decreases |s|
  {
    if r == [] then true
    else if s == [] then false
    else if r[0] == s[0] then Subsequence(r[1..], s[1..])
    else Subsequence(r, s[1..])
  }

  /** No element occurs twice. */
  ghost predicate Distinct<T>(s: seq<T>)
  {
    forall i, j :: 0 <= i < j < |s| ==> s[i] != s[j]
  }

  /** `Array.prototype.find`: the first element satisfying `p`, if any. */
  function Find<T>(s: seq<T>, p: T -> bool): (r: Option<T>)
    ensures r.None? <==> forall i :: 0 <= i < |s| ==> !p(s[i])
    ensures r.Some? ==> exists i :: 0 <= i < |s| && s[i] == r.value && p(s[i]) && forall j :: 0 <= j < i ==> !p(s[j])
  {
    if s == [] then None
    else if p(s[0]) then Some(s[0])
    else
      var r := Find(s[1..], p);
      assert r.Some? ==> exists i :: 1 <= i < |s| && s[i] == r.value && p(s[i]) && forall j :: 0 <= j < i ==> !p(s[j]) by {
        if r.Some? {
          var i :| 0 <= i < |s[1..]| && s[1..][i] == r.value && p(s[1..][i]) && forall j :: 0 <= j < i ==> !p(s[1..][j]);
          assert forall j :: 1 <= j < i + 1 ==> !p(s[j]) by {
            forall j | 1 <= j < i + 1 ensures !p(s[j]) { assert s[j] == s[1..][j - 1]; }
          }
        }
      }
      r
  }

  /** `Array.prototype.filter`: the elements satisfying `p`, in their original order. */
  function Filter<T(!new)>(s: seq<T>, p: T -> bool): (r: seq<T>)
    ensures |r| <= |s|
    ensures forall i :: 0 <= i < |r| ==> p(r[i])
  {
    if s == [] then []
    else if p(s[0]) then [s[0]] + Filter(s[1..], p)
    else Filter(s[1..], p)
  }

  /** `filter` keeps exactly the elements that satisfy `p`, in order, and changes nothing when all do. */
  lemma {:induction false} FilterSpec<T(!new)>(s: seq<T>, p: T -> bool)
    ensures forall x :: x in Filter(s, p) <==> x in s && p(x)
    ensures (forall i :: 0 <= i < |s| ==> p(s[i])) ==> Filter(s, p) == s
    ensures Subsequence(Filter(s, p), s)
  {
    if s != [] {
      FilterSpec(s[1..], p);
      assert forall x :: x in s <==> x == s[0] || x in s[1..];
      if p(s[0]) {
        var r := Filter(s, p);
        assert r[0] == s[0] && r[1..] == Filter(s[1..], p);
      }
    }
  }

  /** `filter` keeps every passing element as often as it occurs, and no failing one. */
  lemma {:induction false} FilterMultiset<T(!new)>(s: seq<T>, p: T -> bool)
    ensures forall x :: multiset(Filter(s, p))[x] == if p(x) then multiset(s)[x] else 0
  {
    if s != [] {
      FilterMultiset(s[1..], p);
      assert s == [s[0]] + s[1..];
      assert multiset(s) == multiset{s[0]} + multiset(s[1..]);
      if p(s[0]) {
        assert multiset(Filter(s, p)) == multiset{s[0]} + multiset(Filter(s[1..], p));
      }
    }
  }

  /** The number of elements satisfying `p`. */
  function Count<T(!new)>(s: seq<T>, p: T -> bool): (n: nat)
    ensures n <= |s|
    ensures n == 0 <==> forall i :: 0 <= i < |s| ==> !p(s[i])
  {
    if s == [] then 0
    else (if p(s[0]) then 1 else 0) + Count(s[1..], p)
  }

  lemma ConcatAssoc<T>(a: seq<T>, b: seq<T>, c: seq<T>)
    ensures (a + b) + c == a + (b + c)
  {
  }

  lemma {:induction false} FilterConcat<T(!new)>(a: seq<T>, b: seq<T>, p: T -> bool)
    ensures Filter(a + b, p) == Filter(a, p) + Filter(b, p)
  {
    if a == [] {
      assert a + b == b;
    } else {
      assert (a + b)[0] == a[0];
      assert (a + b)[1..] == a[1..] + b;
      FilterConcat(a[1..], b, p);
      if p(a[0]) {
        ConcatAssoc([a[0]], Filter(a[1..], p), Filter(b, p));
      }
    }
  }

  lemma {:induction false} CountConcat<T(!new)>(a: seq<T>, b: seq<T>, p: T -> bool)
    ensures Count(a + b, p) == Count(a, p) + Count(b, p)
  {
    if a == [] {
      assert a + b == b;
    } else {
      assert (a + b)[0] == a[0];
      assert (a + b)[1..] == a[1..] + b;
      CountConcat(a[1..], b, p);
    }
  }

  /** Counting up to the last element, then that element. */
  lemma CountSnoc<T(!new)>(s: seq<T>, p: T -> bool)
    requires s != []
    ensures Count(s, p) == Count(s[..|s| - 1], p) + (if p(s[|s| - 1]) then 1 else 0)
  {
    var last := s[|s| - 1];
    assert s == s[..|s| - 1] + [last];
    CountConcat(s[..|s| - 1], [last], p);
    assert [last][1..] == [];
    assert Count([last], p) == (if p(last) then 1 else 0) + Count([last][1..], p);
  }

  /** Filtering away the one element that fails `p` removes exactly that position. */
  lemma {:induction false} FilterDropsOne<T(!new)>(s: seq<T>, p: T -> bool, i: int)
    requires 0 <= i < |s| && !p(s[i])
    requires forall j :: 0 <= j < |s| && j != i ==> p(s[j])
    ensures Filter(s, p) == s[..i] + s[i + 1..]
  {
    var tail := s[1..];
    if i == 0 {
      assert forall j :: 0 <= j < |tail| ==> p(tail[j]) by {
        forall j | 0 <= j < |tail| ensures p(tail[j]) { assert tail[j] == s[j + 1]; }
      }
      FilterSpec(tail, p);
      assert s[..0] + s[1..] == tail;
    } else {
      assert forall j :: 0 <= j < |tail| && j != i - 1 ==> p(tail[j]) by {
        forall j | 0 <= j < |tail| && j != i - 1 ensures p(tail[j]) { assert tail[j] == s[j + 1]; }
      }
      FilterDropsOne(tail, p, i - 1);
      assert s[..i] == [s[0]] + tail[..i - 1];
      assert s[i + 1..] == tail[i..];
      ConcatAssoc([s[0]], tail[..i - 1], tail[i..]);
    }
  }

  /** No two elements share a key under `f`. */
  ghost predicate DistinctBy<T, K>(s: seq<T>, f: T -> K)
  {
    forall i, j {:trigger f(s[i]), f(s[j])} :: 0 <= i < j < |s| ==> f(s[i]) != f(s[j])
  }

  /** `find` on a concatenation looks in the second part only when the first has no match. */
  lemma {:induction false} FindConcat<T>(a: seq<T>, b: seq<T>, p: T -> bool)
    ensures Find(a + b, p) == if Find(a, p).Some? then Find(a, p) else Find(b, p)
  {
    if a == [] {
      assert a + b == b;
    } else {
      assert (a + b)[0] == a[0];
      assert (a + b)[1..] == a[1..] + b;
      FindConcat(a[1..], b, p);
    }
  }

  /** When exactly one position satisfies `p`, `find` returns the element there. */
  lemma FindUnique<T>(s: seq<T>, p: T -> bool, i: int)
    requires 0 <= i < |s| && p(s[i])
    requires forall j :: 0 <= j < |s| && j != i ==> !p(s[j])
    ensures Find(s, p) == Some(s[i])
  {
  }

  /** `find` gives the same answer on two sequences that agree wherever `p` holds. */
  lemma {:induction false} FindPointwise<T>(a: seq<T>, b: seq<T>, p: T -> bool)
    requires |a| == |b|
    requires forall i :: 0 <= i < |a| ==> (p(a[i]) <==> p(b[i]))
    requires forall i :: 0 <= i < |a| && p(a[i]) ==> a[i] == b[i]
    ensures Find(a, p) == Find(b, p)
  {
    if a != [] && !p(a[0]) {
      assert forall i :: 0 <= i < |a[1..]| ==> a[1..][i] == a[i + 1] && b[1..][i] == b[i + 1];
      FindPointwise(a[1..], b[1..], p);
    }
  }

  /** Filtering keeps keys distinct. */
  lemma {:induction false} FilterDistinctBy<T(!new), K>(s: seq<T>, p: T -> bool, f: T -> K)
    requires DistinctBy(s, f)
    ensures DistinctBy(Filter(s, p), f)
  {
    if s != [] {
      var tail := s[1..];
      DistinctByTail(s, f);
      FilterDistinctBy(tail, p, f);
      if p(s[0]) {
        var ft := Filter(tail, p);
        assert Filter(s, p) == [s[0]] + ft;
        forall i | 0 <= i < |ft| ensures f(ft[i]) != f(s[0]) {
          FilterSpec(tail, p);
          assert ft[i] in tail;
        }
        DistinctByCons(s[0], ft, f);
      }
    }
  }

  /** Putting in front an element whose key is new keeps keys distinct. */
  lemma DistinctByCons<T, K>(x: T, s: seq<T>, f: T -> K)
    requires DistinctBy(s, f)
    requires forall i :: 0 <= i < |s| ==> f(s[i]) != f(x)
    ensures DistinctBy([x] + s, f)
  {
    var r := [x] + s;
    forall i, j | 0 <= i < j < |r| ensures f(r[i]) != f(r[j]) {
      assert r[j] == s[j - 1];
      if i > 0 { assert r[i] == s[i - 1]; }
    }
  }

  /** Two positions of a sequence with distinct keys have different keys. */
  lemma DistinctByAt<T, K>(s: seq<T>, f: T -> K, i: int, j: int)
    requires DistinctBy(s, f) && 0 <= i < j < |s|
    ensures f(s[i]) != f(s[j])
  {
  }

  /** Keys are distinct in a sequence whose keys agree position by position with one whose keys are. */
  lemma DistinctBySameKeys<T, K>(a: seq<T>, b: seq<T>, f: T -> K)
    requires DistinctBy(a, f) && |a| == |b|
    requires forall j :: 0 <= j < |a| ==> f(a[j]) == f(b[j])
    ensures DistinctBy(b, f)
  {
    forall i, j | 0 <= i < j < |b| ensures f(b[i]) != f(b[j]) {
      DistinctByAt(a, f, i, j);
    }
  }

  /** Appending an element whose key is new keeps keys distinct. */
  lemma DistinctByAppend<T, K>(s: seq<T>, x: T, f: T -> K)
    requires DistinctBy(s, f)
    requires forall i :: 0 <= i < |s| ==> f(s[i]) != f(x)
    ensures DistinctBy(s + [x], f)
  {
    var r := s + [x];
    forall i, j | 0 <= i < j < |r| ensures f(r[i]) != f(r[j]) {
      if j == |s| { assert r[i] == s[i]; } else { assert r[i] == s[i] && r[j] == s[j]; }
    }
  }

  /** The tail of a sequence with distinct keys has distinct keys, none equal to the head's. */
  lemma DistinctByTail<T, K>(s: seq<T>, f: T -> K)
    requires DistinctBy(s, f) && s != []
    ensures DistinctBy(s[1..], f)
    ensures forall i :: 0 <= i < |s[1..]| ==> f(s[1..][i]) != f(s[0])
  {
    var tail := s[1..];
    forall i, j | 0 <= i < j < |tail| ensures f(tail[i]) != f(tail[j]) {
      assert tail[i] == s[i + 1] && tail[j] == s[j + 1];
    }
    forall i | 0 <= i < |tail| ensures f(tail[i]) != f(s[0]) {
      assert tail[i] == s[i + 1];
    }
  }

}
