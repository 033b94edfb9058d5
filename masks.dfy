/**
 * Boolean-mask row selection, the one table operation the dashboard is built on:
 * `df[mask]` keeps the rows whose mask entry is true, in their order, and
 * `df[col].apply(f)` maps a function over a column.
 */
module Masks {

  /** `t[mask]`: the elements of `t` whose mask entry is true, in order. */
  function Select<T>(t: seq<T>, mask: seq<bool>): (s: seq<T>)
    requires |mask| == |t|
    ensures |s| <= |t|
    ensures forall x :: x in s ==> x in t
  {
    if t == [] then []
    else (if mask[0] then [t[0]] else []) + Select(t[1..], mask[1..])
  }

  /** The mask obtained by evaluating a row test on every row, as `df['col'] == v` does. */
  function MaskOf<T>(t: seq<T>, p: T -> bool): (mask: seq<bool>)
    ensures |mask| == |t|
    ensures forall i :: 0 <= i < |t| ==> mask[i] == p(t[i])
  {
    seq(|t|, i requires 0 <= i < |t| => p(t[i]))
  }

  /** `t[p(t)]`: selection by the mask of a row test. */
  function Where<T>(t: seq<T>, p: T -> bool): (s: seq<T>)
    ensures |s| <= |t|
    ensures forall x :: x in s ==> x in t
  {
    Select(t, MaskOf(t, p))
  }

  /** `t.apply(f)`: `f` applied to every element, in order. */
  function Apply<T, U>(t: seq<T>, f: T -> U): seq<U>
  {
    seq(|t|, i requires 0 <= i < |t| => f(t[i]))
  }

  /** `s` is what some boolean mask selects from `t`: nothing added, nothing repeated, order kept. */
  ghost predicate IsSubsequence<T>(s: seq<T>, t: seq<T>)
  {
    exists mask: seq<bool> :: |mask| == |t| && Select(t, mask) == s
  }

  lemma WhereCons<T>(t: seq<T>, p: T -> bool)
    requires t != []
    ensures Where(t, p) == (if p(t[0]) then [t[0]] else []) + Where(t[1..], p)
  {
    assert MaskOf(t, p)[1..] == MaskOf(t[1..], p);
  }

  /** An element is selected exactly when it occurs in the input and passes the test. */
  lemma {:induction false} WhereMembership<T>(t: seq<T>, p: T -> bool, x: T)
    ensures x in Where(t, p) <==> x in t && p(x)
  {
    if t != [] {
      WhereCons(t, p);
      WhereMembership(t[1..], p, x);
      assert t == [t[0]] + t[1..];
    }
  }

  lemma {:induction false} WhereConcat<T>(a: seq<T>, b: seq<T>, p: T -> bool)
    ensures Where(a + b, p) == Where(a, p) + Where(b, p)
  {
    if a == [] {
      assert a + b == b;
    } else {
      WhereCons(a + b, p);
      WhereCons(a, p);
      assert (a + b)[1..] == a[1..] + b;
      WhereConcat(a[1..], b, p);
    }
  }

  /** Two tests that agree on every element select the same elements. */
  lemma {:induction false} WhereCongruent<T>(t: seq<T>, p: T -> bool, q: T -> bool)
    requires forall x :: x in t ==> p(x) == q(x)
    ensures Where(t, p) == Where(t, q)
  {
    if t != [] {
      WhereCons(t, p);
      WhereCons(t, q);
      assert t[0] in t;
      assert forall x :: x in t[1..] ==> x in t;
      WhereCongruent(t[1..], p, q);
    }
  }

  /** Selecting by `p` and then by `q` is selecting once by their conjunction `pq`. */
  lemma {:induction false} WhereWhere<T>(t: seq<T>, p: T -> bool, q: T -> bool, pq: T -> bool)
    requires forall x :: x in t ==> pq(x) == (p(x) && q(x))
    ensures Where(Where(t, p), q) == Where(t, pq)
  {
    if t != [] {
      WhereCons(t, p);
      WhereCons(t, pq);
      assert t[0] in t;
      assert forall x :: x in t[1..] ==> x in t;
      WhereWhere(t[1..], p, q, pq);
      var head := if p(t[0]) then [t[0]] else [];
      WhereConcat(head, Where(t[1..], p), q);
      if p(t[0]) {
        WhereCons(head, q);
        assert head[1..] == [];
      }
    }
  }

  /** A test every element passes selects everything. */
  lemma {:induction false} WhereAll<T>(t: seq<T>, p: T -> bool)
    requires forall x :: x in t ==> p(x)
    ensures Where(t, p) == t
  {
    if t != [] {
      WhereCons(t, p);
      assert t[0] in t;
      assert forall x :: x in t[1..] ==> x in t;
      WhereAll(t[1..], p);
      assert t == [t[0]] + t[1..];
    }
  }

  /** A test no element passes selects nothing. */
  lemma {:induction false} WhereNone<T>(t: seq<T>, p: T -> bool)
    requires forall x :: x in t ==> !p(x)
    ensures Where(t, p) == []
  {
    if t != [] {
      WhereCons(t, p);
      assert t[0] in t;
      assert forall x :: x in t[1..] ==> x in t;
      WhereNone(t[1..], p);
    }
  }

  /** A selection is a subsequence of its input and repeats no element more often than the input does. */
  lemma {:induction false} WhereIsSubsequence<T>(t: seq<T>, p: T -> bool)
    ensures IsSubsequence(Where(t, p), t)
    ensures multiset(Where(t, p)) <= multiset(t)
  {
    var mask := MaskOf(t, p);
    assert |mask| == |t| && Select(t, mask) == Where(t, p);
    if t != [] {
      WhereCons(t, p);
      WhereIsSubsequence(t[1..], p);
      assert t == [t[0]] + t[1..];
    }
  }

  /** The positions of a selection from `t`, built from the positions `rest` selected from `t[1..]`. */
  function Shift(head: bool, rest: seq<int>): (idx: seq<int>)
    ensures |idx| == (if head then 1 else 0) + |rest|
    ensures head ==> idx[0] == 0
    ensures head ==> forall k :: 1 <= k < |idx| ==> idx[k] == rest[k - 1] + 1
    ensures !head ==> forall k :: 0 <= k < |idx| ==> idx[k] == rest[k] + 1
  {
    (if head then [0] else []) + seq(|rest|, k requires 0 <= k < |rest| => rest[k] + 1)
  }

  lemma ShiftIncreasing(head: bool, rest: seq<int>)
    requires forall k :: 0 <= k < |rest| ==> 0 <= rest[k]
    requires forall k, l :: 0 <= k < l < |rest| ==> rest[k] < rest[l]
    ensures forall k, l :: 0 <= k < l < |Shift(head, rest)| ==> Shift(head, rest)[k] < Shift(head, rest)[l]
  {
    var idx := Shift(head, rest);
    if head {
      forall k, l | 0 <= k < l < |idx|
        ensures idx[k] < idx[l]
      {
        if k > 0 {
          assert rest[k - 1] < rest[l - 1];
        }
      }
    } else {
      forall k, l | 0 <= k < l < |idx|
        ensures idx[k] < idx[l]
      {
        assert rest[k] < rest[l];
      }
    }
  }

  lemma ShiftCovers(head: bool, rest: seq<int>, i: int)
    requires if i == 0 then head else 0 < i && i - 1 in rest
    ensures i in Shift(head, rest)
  {
    var idx := Shift(head, rest);
    if i != 0 {
      var k :| 0 <= k < |rest| && rest[k] == i - 1;
      if head {
        assert idx[k + 1] == i;
      } else {
        assert idx[k] == i;
      }
    }
  }

  /**
   * Selection keeps the input's order and drops nothing it should keep: the `k`-th selected
   * element sits at position `idx[k]` of the input, those positions strictly increase, and they
   * are exactly the positions where the mask is true.
   */
  lemma {:induction false} SelectKeepsOrder<T>(t: seq<T>, mask: seq<bool>) returns (idx: seq<int>)
    requires |mask| == |t|
    ensures |idx| == |Select(t, mask)|
    ensures forall k :: 0 <= k < |idx| ==> 0 <= idx[k] < |t| && mask[idx[k]] && Select(t, mask)[k] == t[idx[k]]
    ensures forall k, l :: 0 <= k < l < |idx| ==> idx[k] < idx[l]
    ensures forall i :: 0 <= i < |t| && mask[i] ==> i in idx
  {
    if t == [] {
      return [];
    }
    var s := Select(t, mask);
    var tail := Select(t[1..], mask[1..]);
    var rest := SelectKeepsOrder(t[1..], mask[1..]);
    var head := if mask[0] then 1 else 0;
    assert s == (if mask[0] then [t[0]] else []) + tail;
    idx := Shift(mask[0], rest);
    forall k | 0 <= k < |idx|
      ensures 0 <= idx[k] < |t| && mask[idx[k]] && s[k] == t[idx[k]]
    {
      if k >= head {
        assert s[k] == tail[k - head];
      }
    }
    ShiftIncreasing(mask[0], rest);
    forall i | 0 <= i < |t| && mask[i]
      ensures i in idx
    {
      if i != 0 {
        assert mask[1..][i - 1];
      }
      ShiftCovers(mask[0], rest, i);
    }
  }

  /** The row-test form of `SelectKeepsOrder`: the positions kept are exactly those passing the test. */
  lemma WhereKeepsOrder<T>(t: seq<T>, p: T -> bool) returns (idx: seq<int>)
    ensures |idx| == |Where(t, p)|
    ensures forall k :: 0 <= k < |idx| ==> 0 <= idx[k] < |t| && p(t[idx[k]]) && Where(t, p)[k] == t[idx[k]]
    ensures forall k, l :: 0 <= k < l < |idx| ==> idx[k] < idx[l]
    ensures forall i :: 0 <= i < |t| && p(t[i]) ==> i in idx
  {
    idx := SelectKeepsOrder(t, MaskOf(t, p));
  }

  /** When every element passes exactly one of `q` and `r` whenever it passes `p`, the `p`-selection splits into the two. */
  lemma {:induction false} WhereSplit<T>(t: seq<T>, p: T -> bool, q: T -> bool, r: T -> bool)
    requires forall x :: x in t ==> (p(x) == (q(x) || r(x))) && !(q(x) && r(x))
    ensures multiset(Where(t, p)) == multiset(Where(t, q)) + multiset(Where(t, r))
    ensures |Where(t, p)| == |Where(t, q)| + |Where(t, r)|
  {
    if t != [] {
      WhereCons(t, p);
      WhereCons(t, q);
      WhereCons(t, r);
      var x := t[0];
      assert x in t;
      assert forall y :: y in t[1..] ==> y in t;
      WhereSplit(t[1..], p, q, r);
      var hp := if p(x) then [x] else [];
      var hq := if q(x) then [x] else [];
      var hr := if r(x) then [x] else [];
      assert multiset(hp) == multiset(hq) + multiset(hr);
      assert multiset(Where(t, p)) == multiset(hp) + multiset(Where(t[1..], p));
      assert multiset(Where(t, q)) == multiset(hq) + multiset(Where(t[1..], q));
      assert multiset(Where(t, r)) == multiset(hr) + multiset(Where(t[1..], r));
    }
  }

  /** Selecting after mapping is mapping after selecting by the composed test. */
  lemma {:induction false} WhereApply<T, U>(t: seq<T>, f: T -> U, p: U -> bool, pf: T -> bool)
    requires forall x :: x in t ==> pf(x) == p(f(x))
    ensures Where(Apply(t, f), p) == Apply(Where(t, pf), f)
  {
    if t != [] {
      var u := Apply(t, f);
      WhereCons(u, p);
      WhereCons(t, pf);
      assert u[1..] == Apply(t[1..], f);
      assert t[0] in t;
      assert forall x :: x in t[1..] ==> x in t;
      WhereApply(t[1..], f, p, pf);
      var rest := Where(t[1..], pf);
      var head := if pf(t[0]) then [t[0]] else [];
      assert Apply(head + rest, f) == Apply(head, f) + Apply(rest, f);
    }
  }
}
