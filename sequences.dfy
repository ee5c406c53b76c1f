/** Sequence helpers shared by the table steps: duplicate-freedom and an
    order-preserving filter (pandas' boolean row selection and Python's
    filtering list comprehension are both instances of it). */
module Sequences {

  predicate NoDuplicates<T(==)>(s: seq<T>) {
    forall i, j :: 0 <= i < j < |s| ==> s[i] != s[j]
  }

  /** The elements of `s` that satisfy `keep`, in their original order. */
  function Filter<T(!new)>(s: seq<T>, keep: T -> bool): (r: seq<T>)
    ensures |r| <= |s|
  {
    if s == [] then []
    else (if keep(s[0]) then [s[0]] else []) + Filter(s[1..], keep)
  }

  /** An element is kept exactly when it occurs in `s` and passes `keep`. */
  lemma {:induction false} FilterMembers<T(!new)>(s: seq<T>, keep: T -> bool)
    ensures forall x :: x in Filter(s, keep) <==> x in s && keep(x)
  {
    if s != [] {
      FilterMembers(s[1..], keep);
      assert s == [s[0]] + s[1..];
    }
  }

  /** Every index of `idx` shifted by one. */
  function Shifted(idx: seq<nat>): (r: seq<nat>)
    ensures |r| == |idx|
    ensures forall k :: 0 <= k < |idx| ==> r[k] == idx[k] + 1
  {
    seq(|idx|, k requires 0 <= k < |idx| => idx[k] + 1)
  }

  /** The positions of `s` whose elements satisfy `keep`, in ascending order:
      an independent description of what `Filter` keeps. */
  ghost function KeptPositions<T(!new)>(s: seq<T>, keep: T -> bool): seq<nat>
  {
    if s == [] then []
    else (if keep(s[0]) then [0] else []) + Shifted(KeptPositions(s[1..], keep))
  }

  ghost predicate StrictlyIncreasing(idx: seq<nat>) {
    forall k, l :: 0 <= k < l < |idx| ==> idx[k] < idx[l]
  }

  /** The k-th element `Filter` keeps is the element at the k-th kept position. */
  lemma {:induction false} FilterAtKeptPositions<T(!new)>(s: seq<T>, keep: T -> bool)
    ensures var idx := KeptPositions(s, keep);
      && |idx| == |Filter(s, keep)|
      && (forall k :: 0 <= k < |idx| ==> idx[k] < |s| && Filter(s, keep)[k] == s[idx[k]])
  {
    if s != [] {
      var tail := s[1..];
      FilterAtKeptPositions(tail, keep);
      var t := KeptPositions(tail, keep);
      var head: seq<nat> := if keep(s[0]) then [0] else [];
      var idx := KeptPositions(s, keep);
      assert idx == head + Shifted(t);
      var f := Filter(s, keep);
      assert f == (if keep(s[0]) then [s[0]] else []) + Filter(tail, keep);
      forall k | 0 <= k < |idx|
        ensures idx[k] < |s| && f[k] == s[idx[k]]
      {
        if k >= |head| {
          var m := k - |head|;
          assert idx[k] == t[m] + 1;
          assert f[k] == Filter(tail, keep)[m];
        }
      }
    }
  }

  /** The kept positions ascend and stay inside `s`. */
  lemma {:induction false} KeptPositionsAscend<T(!new)>(s: seq<T>, keep: T -> bool)
    ensures StrictlyIncreasing(KeptPositions(s, keep))
    ensures forall k :: 0 <= k < |KeptPositions(s, keep)| ==> KeptPositions(s, keep)[k] < |s|
  {
    if s != [] {
      var tail := s[1..];
      KeptPositionsAscend(tail, keep);
      var t := KeptPositions(tail, keep);
      var head: seq<nat> := if keep(s[0]) then [0] else [];
      assert KeptPositions(s, keep) == head + Shifted(t);
    }
  }

  /** A position is kept exactly when its element satisfies `keep`. */
  lemma {:induction false} KeptPositionsExact<T(!new)>(s: seq<T>, keep: T -> bool)
    ensures forall i :: 0 <= i < |s| ==> (i in KeptPositions(s, keep) <==> keep(s[i]))
  {
    if s != [] {
      var tail := s[1..];
      KeptPositionsExact(tail, keep);
      var t := KeptPositions(tail, keep);
      var head: seq<nat> := if keep(s[0]) then [0] else [];
      var idx := KeptPositions(s, keep);
      assert idx == head + Shifted(t);
      forall i | 0 <= i < |s|
        ensures i in idx <==> keep(s[i])
      {
        if i == 0 {
          assert forall m :: 0 <= m < |t| ==> Shifted(t)[m] > 0;
        } else {
          assert s[i] == tail[i - 1];
          if i - 1 in t {
            var m :| 0 <= m < |t| && t[m] == i - 1;
            assert Shifted(t)[m] == i;
          }
          if i in Shifted(t) {
            var m :| 0 <= m < |t| && Shifted(t)[m] == i;
            assert t[m] == i - 1;
          }
        }
      }
    }
  }

  /** `Filter` keeps exactly the positions that satisfy `keep`, and keeps them
      in ascending order: the result is the input with the rejected elements
      removed and nothing reordered. */
  lemma FilterKeepsOrder<T(!new)>(s: seq<T>, keep: T -> bool)
    ensures var idx := KeptPositions(s, keep);
      && |idx| == |Filter(s, keep)|
      && StrictlyIncreasing(idx)
      && (forall k :: 0 <= k < |idx| ==> idx[k] < |s| && Filter(s, keep)[k] == s[idx[k]])
      && (forall i :: 0 <= i < |s| ==> (i in idx <==> keep(s[i])))
  {
    FilterAtKeptPositions(s, keep);
    KeptPositionsAscend(s, keep);
    KeptPositionsExact(s, keep);
  }

  /** Filtering a sequence whose elements all pass returns it unchanged; in
      particular filtering twice is the same as filtering once. */
  lemma {:induction false} FilterKeepsAllPassing<T(!new)>(s: seq<T>, keep: T -> bool)
    requires forall x :: x in s ==> keep(x)
    ensures Filter(s, keep) == s
  {
    if s != [] {
      FilterKeepsAllPassing(s[1..], keep);
      assert [s[0]] + s[1..] == s;
    }
  }

  /** Filtering never introduces duplicates. */
  lemma {:induction false} FilterNoDuplicates<T(!new)>(s: seq<T>, keep: T -> bool)
    requires NoDuplicates(s)
    ensures NoDuplicates(Filter(s, keep))
  {
    if s != [] {
      var tail := s[1..];
      assert NoDuplicates(tail) by {
        forall i, j | 0 <= i < j < |tail| ensures tail[i] != tail[j] {
          assert tail[i] == s[i + 1] && tail[j] == s[j + 1];
        }
      }
      FilterNoDuplicates(tail, keep);
      FilterMembers(tail, keep);
      assert s[0] !in tail by {
        forall j | 0 <= j < |tail| ensures tail[j] != s[0] { assert tail[j] == s[j + 1]; }
      }
      assert s[0] !in Filter(tail, keep);
    }
  }
}
