/** Sequence operations the notebook gets from pandas and Python built-ins:
    row filtering (`df.loc[mask]`), `Series.unique()` and list concatenation. */
module Sequences {

  /** No value occurs twice. */
  ghost predicate NoDuplicates<T>(s: seq<T>) {
    forall i, j :: 0 <= i < j < |s| ==> s[i] != s[j]
  }

  /** `a` is obtained from `b` by deleting elements, keeping the order of the rest. */
  ghost predicate IsSubsequence<T>(a: seq<T>, b: seq<T>)
    decreases |b|
  {
    if a == [] then true
    else if b == [] then false
    else if a[0] == b[0] then IsSubsequence(a[1..], b[1..])
    else IsSubsequence(a, b[1..])
  }

  /** Boolean-mask selection: the elements of `s` satisfying `p`, in their order.
      The number of copies of every value is kept or dropped as a whole. */
  function Where<T>(s: seq<T>, p: T -> bool): (r: seq<T>)
    ensures |r| <= |s|
  {
    if s == [] then []
    else (if p(s[0]) then [s[0]] else []) + Where(s[1..], p)
  }

  /** An element is selected exactly when it occurs in `s` and satisfies `p`. */
  lemma {:induction false} WhereMembers<T(!new)>(s: seq<T>, p: T -> bool)
    ensures forall x :: x in Where(s, p) <==> x in s && p(x)
  {
    if s != [] {
      WhereMembers(s[1..], p);
      assert s == [s[0]] + s[1..];
    }
  }

  /** Every value satisfying `p` keeps all of its copies; every other value loses all of them. */
  lemma {:induction false} WhereCounts<T(!new)>(s: seq<T>, p: T -> bool)
    ensures forall x :: multiset(Where(s, p))[x] == if p(x) then multiset(s)[x] else 0
  {
    if s != [] {
      WhereCounts(s[1..], p);
      assert s == [s[0]] + s[1..];
      assert multiset(s) == multiset([s[0]]) + multiset(s[1..]);
    }
  }

  /** Selection preserves relative order. */
  lemma {:induction false} WhereIsSubsequence<T(!new)>(s: seq<T>, p: T -> bool)
    ensures IsSubsequence(Where(s, p), s)
  {
    if s != [] {
      WhereIsSubsequence(s[1..], p);
      var rest := Where(s[1..], p);
      if !p(s[0]) && rest != [] {
        WhereMembers(s[1..], p);
        assert rest[0] in rest;
        assert Where(s, p) == rest;
      }
    }
  }

  /** Filtering twice is filtering once by the conjunction. */
  lemma {:induction false} WhereWhere<T>(s: seq<T>, p: T -> bool, q: T -> bool, pq: T -> bool)
    requires forall x :: pq(x) == (p(x) && q(x))
    ensures Where(Where(s, p), q) == Where(s, pq)
  {
    if s != [] {
      WhereWhere(s[1..], p, q, pq);
      var head := if p(s[0]) then [s[0]] else [];
      assert Where(s, p) == head + Where(s[1..], p);
      WhereAppend(head, Where(s[1..], p), q);
    }
  }

  /** Selection distributes over concatenation. */
  lemma {:induction false} WhereAppend<T>(a: seq<T>, b: seq<T>, p: T -> bool)
    ensures Where(a + b, p) == Where(a, p) + Where(b, p)
  {
    if a == [] {
      assert a + b == b;
    } else {
      var head := if p(a[0]) then [a[0]] else [];
      assert (a + b)[0] == a[0] && (a + b)[1..] == a[1..] + b;
      assert Where(a + b, p) == head + Where(a[1..] + b, p);
      WhereAppend(a[1..], b, p);
      assert Where(a, p) == head + Where(a[1..], p);
    }
  }

  /** Selection keeps everything when every element qualifies. */
  lemma {:induction false} WhereAll<T>(s: seq<T>, p: T -> bool)
    requires forall i :: 0 <= i < |s| ==> p(s[i])
    ensures Where(s, p) == s
  {
    if s != [] {
      WhereAll(s[1..], p);
    }
  }

  /** Selection keeps nothing when no element qualifies. */
  lemma {:induction false} WhereNone<T>(s: seq<T>, p: T -> bool)
    requires forall i :: 0 <= i < |s| ==> !p(s[i])
    ensures Where(s, p) == []
  {
    if s != [] {
      WhereNone(s[1..], p);
    }
  }

  /** The distinct values of `s` in order of first appearance, as `Series.unique()`
      returns them and as a Python dict orders its keys. */
  function Distinct<T(==)>(s: seq<T>): (r: seq<T>)
    ensures |r| <= |s|
  {
    if s == [] then []
    else
      var d := Distinct(s[..|s| - 1]);
      if s[|s| - 1] in d then d else d + [s[|s| - 1]]
  }

  /** The distinct values are the values of `s`, each once. */
  lemma {:induction false} DistinctMembers<T(!new)>(s: seq<T>)
    ensures forall x :: x in Distinct(s) <==> x in s
    ensures NoDuplicates(Distinct(s))
  {
    if s != [] {
      var init := s[..|s| - 1];
      DistinctMembers(init);
      assert s == init + [s[|s| - 1]];
    }
  }

  /** One more element extends the distinct values only if it is new. */
  lemma DistinctSnoc<T(!new)>(s: seq<T>, x: T)
    ensures Distinct(s + [x]) == if x in s then Distinct(s) else Distinct(s) + [x]
  {
    assert (s + [x])[..|s + [x]| - 1] == s;
    DistinctMembers(s);
  }

  /** A sequence without repeated values is its own list of distinct values. */
  lemma {:induction false} DistinctOfUnique<T(!new)>(s: seq<T>)
    requires NoDuplicates(s)
    ensures Distinct(s) == s
  {
    if s != [] {
      var init := s[..|s| - 1];
      assert NoDuplicates(init) by {
        forall i, j | 0 <= i < j < |init| ensures init[i] != init[j] {
          assert init[i] == s[i] && init[j] == s[j];
        }
      }
      DistinctOfUnique(init);
      assert s[|s| - 1] !in init by {
        forall i | 0 <= i < |init| ensures init[i] != s[|s| - 1] {
          assert init[i] == s[i];
        }
      }
    }
  }

  /** The k-th distinct value first appears at some index m, and the distinct
      values seen before m are exactly the first k: the order is order of first appearance. */
  lemma {:induction false} DistinctFirstSeen<T(!new)>(s: seq<T>, k: nat)
    requires k < |Distinct(s)|
    ensures exists m :: 0 <= m < |s| && s[m] == Distinct(s)[k] && Distinct(s[..m]) == Distinct(s)[..k]
  {
    var n := |s|;
    var init := s[..n - 1];
    var d := Distinct(init);
    if k < |d| {
      DistinctFirstSeen(init, k);
      var m :| 0 <= m < |init| && init[m] == d[k] && Distinct(init[..m]) == d[..k];
      assert init[..m] == s[..m];
      assert Distinct(s)[..k] == d[..k];
      assert s[m] == Distinct(s)[k];
    } else {
      assert Distinct(s) == d + [s[n - 1]];
      assert Distinct(s)[..k] == d;
      assert s[..n - 1] == init;
    }
  }
}
