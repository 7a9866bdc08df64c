/** Facts about finite sequences used throughout the model: element sets, distinctness, filtering. */
module Seqs {

  /** The set of elements of a sequence. */
  function Elems<T>(s: seq<T>): set<T> {
    set x | x in s
  }

  /** No element occurs twice. */
  predicate Distinct<T(==)>(s: seq<T>) {
    forall i, j :: 0 <= i < j < |s| ==> s[i] != s[j]
  }

  /** Index of the first occurrence of `x` in `s`. */
  function FirstIndex<T(==)>(s: seq<T>, x: T): (r: nat)
    requires x in s
    ensures r < |s| && s[r] == x
    ensures forall k :: 0 <= k < r ==> s[k] != x
  {
    if s[0] == x then 0 else 1 + FirstIndex(s[1..], x)
  }

  /** Concatenation is associative. */
  lemma AppendAssoc<T>(a: seq<T>, b: seq<T>, c: seq<T>)
    ensures a + b + c == a + (b + c)
  {
  }

  /** A sequence without repetitions has as many elements as its element set. */
  lemma {:induction false} DistinctCard<T>(s: seq<T>)
    requires Distinct(s)
    ensures |Elems(s)| == |s|
  {
    if s != [] {
      DistinctCard(s[1..]);
      assert Elems(s) == Elems(s[1..]) + {s[0]};
      assert forall k :: 0 <= k < |s[1..]| ==> s[1..][k] != s[0];
      assert s[0] !in Elems(s[1..]);
    }
  }

  /** A sequence longer than the set it draws from repeats an element. */
  lemma PigeonHole<T>(s: seq<T>, pool: set<T>) returns (i: nat, j: nat)
    requires Elems(s) <= pool
    requires |s| > |pool|
    ensures i < j < |s| && s[i] == s[j]
  {
    if Distinct(s) {
      DistinctCard(s);
      SubsetCard(Elems(s), pool);
      assert false;
    }
    i, j :| 0 <= i < j < |s| && s[i] == s[j];
  }

  /** A subset is no larger than its superset. */
  lemma SubsetCard<T>(a: set<T>, b: set<T>)
    requires a <= b
    ensures |a| <= |b|
  {
    assert b == a + (b - a);
  }

  /** A distinct sequence whose elements are exactly those of another distinct sequence has its length. */
  lemma SameElemsSameLength<T>(s: seq<T>, t: seq<T>)
    requires Distinct(s) && Distinct(t)
    requires Elems(s) == Elems(t)
    ensures |s| == |t|
  {
    DistinctCard(s);
    DistinctCard(t);
  }

  /** The elements of `s` satisfying `keep`, in order. */
  function Filter<T>(s: seq<T>, keep: T -> bool): (r: seq<T>)
    ensures |r| <= |s|
    ensures forall i :: 0 <= i < |r| ==> r[i] in s && keep(r[i])
    ensures forall i :: 0 <= i < |s| && keep(s[i]) ==> s[i] in r
  {
    if s == [] then []
    else (if keep(s[0]) then [s[0]] else []) + Filter(s[1..], keep)
  }

  /** Filtering out every element leaves nothing. */
  lemma {:induction false} FilterNone<T>(s: seq<T>, keep: T -> bool)
    requires forall i :: 0 <= i < |s| ==> !keep(s[i])
    ensures Filter(s, keep) == []
  {
    if s != [] {
      FilterNone(s[1..], keep);
    }
  }

  /** Filtering keeps a sequence free of repetitions. */
  lemma {:induction false} FilterDistinct<T>(s: seq<T>, keep: T -> bool)
    requires Distinct(s)
    ensures Distinct(Filter(s, keep))
  {
    if s != [] {
      FilterDistinct(s[1..], keep);
      assert forall k :: 0 <= k < |s[1..]| ==> s[1..][k] != s[0];
    }
  }

  /** Putting a new element in front keeps a sequence free of repetitions. */
  lemma DistinctCons<T>(x: T, s: seq<T>)
    requires Distinct(s) && x !in s
    ensures Distinct([x] + s)
  {
    assert forall k :: 0 < k < |[x] + s| ==> ([x] + s)[k] == s[k - 1];
  }

  /** When a sequence shares an element with a set, some position holds one. */
  lemma OverlapWitness<T>(p: seq<T>, s: set<T>) returns (k: nat)
    requires |Elems(p) * s| > 0
    ensures k < |p| && p[k] in s
  {
    if forall i :: 0 <= i < |p| ==> p[i] !in s {
      assert false;
    }
    k :| 0 <= k < |p| && p[k] in s;
  }

  /** The parts of a repetition-free join repeat nothing and share nothing. */
  lemma DistinctSplit<T>(a: seq<T>, b: seq<T>)
    requires Distinct(a + b)
    ensures Distinct(a) && Distinct(b)
    ensures forall x :: x in b ==> x !in a
  {
    var c := a + b;
    forall i, j | 0 <= i < j < |a| ensures a[i] != a[j] {
      assert a[i] == c[i] && a[j] == c[j];
    }
    forall i, j | 0 <= i < j < |b| ensures b[i] != b[j] {
      assert b[i] == c[|a| + i] && b[j] == c[|a| + j];
    }
    forall x | x in b ensures x !in a {
      var j :| 0 <= j < |b| && b[j] == x;
      assert c[|a| + j] == x;
      forall i | 0 <= i < |a| ensures a[i] != x {
        assert c[i] == a[i];
      }
    }
  }

  /** Joining two repetition-free sequences with no common element repeats nothing. */
  lemma DistinctAppend<T>(a: seq<T>, b: seq<T>)
    requires Distinct(a) && Distinct(b)
    requires forall x :: x in a ==> x !in b
    ensures Distinct(a + b)
  {
    var c := a + b;
    forall i, j | 0 <= i < j < |c| ensures c[i] != c[j] {
      if j < |a| {
        assert c[i] == a[i] && c[j] == a[j];
      } else if i >= |a| {
        assert c[i] == b[i - |a|] && c[j] == b[j - |a|];
      } else {
        assert c[i] == a[i] && c[j] == b[j - |a|];
        assert a[i] in a;
      }
    }
  }

  /** A subset as large as its superset is the whole superset. */
  lemma SubsetSameCard<T>(a: set<T>, b: set<T>)
    requires a <= b
    requires |a| == |b|
    ensures a == b
  {
    assert b == a + (b - a);
    assert |b - a| == 0;
  }

  /** How many elements of `p` lie outside `s`. */
  function CountOutside<T>(p: seq<T>, s: set<T>): (n: nat)
    ensures n <= |p|
  {
    if p == [] then 0 else (if p[0] in s then 0 else 1) + CountOutside(p[1..], s)
  }

  /** Nothing of `p` lies outside `s` exactly when all of `p` is in `s`. */
  lemma {:induction false} CountOutsideZero<T>(p: seq<T>, s: set<T>)
    ensures CountOutside(p, s) == 0 <==> Elems(p) <= s
  {
    if p != [] {
      CountOutsideZero(p[1..], s);
      assert Elems(p) == {p[0]} + Elems(p[1..]);
    }
  }

  /** Moving one element into `s` lowers the count by one if `p` holds it outside `s`. */
  lemma {:induction false} CountOutsideAdd<T>(p: seq<T>, s: set<T>, u: T)
    requires Distinct(p)
    ensures CountOutside(p, s + {u}) == CountOutside(p, s) - (if u in p && u !in s then 1 else 0)
  {
    if p != [] {
      assert forall k :: 0 <= k < |p[1..]| ==> p[1..][k] != p[0];
      CountOutsideAdd(p[1..], s, u);
    }
  }

  /** Filtering with two tests that agree on every element gives the same result. */
  lemma {:induction false} FilterSame<T>(s: seq<T>, f: T -> bool, h: T -> bool)
    requires forall x :: x in s ==> f(x) == h(x)
    ensures Filter(s, f) == Filter(s, h)
  {
    if s != [] {
      FilterSame(s[1..], f, h);
    }
  }
  /** Elements of `s` listed in the order of their positions. */
  predicate InOrder<T(==)>(s: seq<T>, r: seq<T>)
    requires forall k :: 0 <= k < |r| ==> r[k] in s
  {
    forall i, j :: 0 <= i < j < |r| ==> FirstIndex(s, r[i]) < FirstIndex(s, r[j])
  }

  /** A list in order of position in the tail of `s`, not holding its head, stays in order of position in `s`. */
  lemma InOrderTail<T>(s: seq<T>, r: seq<T>)
    requires s != [] && forall k :: 0 <= k < |r| ==> r[k] in s[1..] && r[k] != s[0]
    requires InOrder(s[1..], r)
    ensures InOrder(s, r)
  {
    assert forall k :: 0 <= k < |r| ==> FirstIndex(s, r[k]) == 1 + FirstIndex(s[1..], r[k]);
  }

  /** The head of `s` followed by a list in order of position in `s` is in order of position in `s`. */
  lemma InOrderCons<T>(s: seq<T>, r: seq<T>)
    requires s != [] && forall k :: 0 <= k < |r| ==> r[k] in s && r[k] != s[0]
    requires InOrder(s, r)
    ensures InOrder(s, [s[0]] + r)
  {
    var c := [s[0]] + r;
    forall i, j | 0 <= i < j < |c| ensures FirstIndex(s, c[i]) < FirstIndex(s, c[j]) {
      assert c[j] == r[j - 1];
      if i > 0 {
        assert c[i] == r[i - 1];
      }
    }
  }

  /** Filtering a repetition-free sequence keeps the order of what it keeps. */
  lemma {:induction false} FilterInOrder<T>(s: seq<T>, keep: T -> bool)
    requires Distinct(s)
    ensures InOrder(s, Filter(s, keep))
  {
    if s != [] {
      var t := s[1..];
      assert forall k :: 0 <= k < |t| ==> t[k] != s[0];
      FilterInOrder(t, keep);
      var rt := Filter(t, keep);
      InOrderTail(s, rt);
      if keep(s[0]) {
        assert Filter(s, keep) == [s[0]] + rt;
        InOrderCons(s, rt);
      } else {
        assert Filter(s, keep) == rt;
      }
    }
  }
}
