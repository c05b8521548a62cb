/** Removal of a set of positions from an ordered list, as Swift's
    `remove(atOffsets:)` does it: every offset refers to the list before removal. */
module Offsets {

  /** `s` without the elements at the positions in `offsets`. Offsets at or beyond
      `|s|` select nothing; the callers in the app require every offset in range. */
  function RemoveAt<T>(s: seq<T>, offsets: set<nat>): (r: seq<T>)
    ensures |r| <= |s|
    ensures offsets == {} ==> r == s
  {
    if s == [] then []
    else
      var n := |s| - 1;
      assert s == s[..n] + [s[n]];
      RemoveAt(s[..n], offsets) + (if n in offsets then [] else [s[n]])
  }

  /** Reference definition of what survives: the positions below `n` that are not
      in `offsets`, in ascending order (see `KeptExactly`). */
  function Kept(n: nat, offsets: set<nat>): (r: seq<nat>)
    ensures forall k :: 0 <= k < |r| ==> r[k] < n
  {
    if n == 0 then [] else Kept(n - 1, offsets) + (if n - 1 in offsets then [] else [n - 1])
  }

  /** `Kept(n, offsets)` lists every position below `n` outside `offsets`, no other
      position, and each once, ascending. */
  lemma {:induction false} KeptExactly(n: nat, offsets: set<nat>)
    ensures forall k :: 0 <= k < |Kept(n, offsets)| ==> Kept(n, offsets)[k] !in offsets
    ensures forall i :: 0 <= i < n && i !in offsets ==> i in Kept(n, offsets)
    ensures forall j, k :: 0 <= j < k < |Kept(n, offsets)| ==> Kept(n, offsets)[j] < Kept(n, offsets)[k]
  {
    if n > 0 {
      KeptExactly(n - 1, offsets);
    }
  }

  /** The result of `RemoveAt` is `s` read at the kept positions, in their order:
      exactly the offset positions are gone and the survivors keep their relative order. */
  lemma {:induction false} RemoveAtSelects<T>(s: seq<T>, offsets: set<nat>)
    ensures |RemoveAt(s, offsets)| == |Kept(|s|, offsets)|
    ensures forall k :: 0 <= k < |Kept(|s|, offsets)| ==>
              RemoveAt(s, offsets)[k] == s[Kept(|s|, offsets)[k]]
  {
    if s != [] {
      var n := |s| - 1;
      var prefix := s[..n];
      RemoveAtSelects(prefix, offsets);
      KeptExactly(n, offsets);
      var r, kept := RemoveAt(s, offsets), Kept(|s|, offsets);
      assert r == RemoveAt(prefix, offsets) + (if n in offsets then [] else [s[n]]);
      assert kept == Kept(n, offsets) + (if n in offsets then [] else [n]);
      forall k | 0 <= k < |kept| ensures r[k] == s[kept[k]] {
        if k < |Kept(n, offsets)| {
          assert r[k] == prefix[kept[k]];
        }
      }
    }
  }

  /** An offset at or beyond the end of the list removes nothing. */
  lemma {:induction false} KeptIgnoresBeyond(n: nat, offsets: set<nat>, x: nat)
    requires n <= x
    ensures Kept(n, offsets) == Kept(n, offsets - {x})
  {
    if n > 0 {
      KeptIgnoresBeyond(n - 1, offsets, x);
      assert (n - 1 in offsets) == (n - 1 in offsets - {x});
    }
  }

  lemma {:induction false} RemoveAtIgnoresBeyond<T>(s: seq<T>, offsets: set<nat>, x: nat)
    requires |s| <= x
    ensures RemoveAt(s, offsets) == RemoveAt(s, offsets - {x})
  {
    if s != [] {
      RemoveAtIgnoresBeyond(s[..|s| - 1], offsets, x);
    }
  }

  /** With every offset in range, exactly `|offsets|` positions are removed. */
  lemma {:induction false} KeptLength(n: nat, offsets: set<nat>)
    requires forall o :: o in offsets ==> o < n
    ensures |Kept(n, offsets)| == n - |offsets|
  {
    if n > 0 {
      if n - 1 in offsets {
        var rest := offsets - {n - 1};
        assert Kept(n, offsets) == Kept(n - 1, offsets);
        KeptIgnoresBeyond(n - 1, offsets, n - 1);
        KeptLength(n - 1, rest);
        assert |rest| == |offsets| - 1;
      } else {
        assert Kept(n, offsets) == Kept(n - 1, offsets) + [n - 1];
        KeptLength(n - 1, offsets);
      }
    }
  }

  /** The new length is the old length minus the number of distinct offsets. */
  lemma RemoveAtLength<T>(s: seq<T>, offsets: set<nat>)
    requires forall o :: o in offsets ==> o < |s|
    ensures |RemoveAt(s, offsets)| == |s| - |offsets|
  {
    RemoveAtSelects(s, offsets);
    KeptLength(|s|, offsets);
  }

  /** Removal keeps a key that is distinct across `s` distinct across the result,
      and every survivor comes from `s`. */
  lemma RemoveAtKeepsDistinct<T>(s: seq<T>, offsets: set<nat>, key: T -> nat)
    requires forall i, j :: 0 <= i < j < |s| ==> key(s[i]) != key(s[j])
    ensures forall i, j :: 0 <= i < j < |RemoveAt(s, offsets)| ==>
              key(RemoveAt(s, offsets)[i]) != key(RemoveAt(s, offsets)[j])
    ensures forall x :: x in RemoveAt(s, offsets) ==> x in s
  {
    RemoveAtSelects(s, offsets);
    KeptExactly(|s|, offsets);
    var r, kept := RemoveAt(s, offsets), Kept(|s|, offsets);
    forall i, j | 0 <= i < j < |r| ensures key(r[i]) != key(r[j]) {
      assert r[i] == s[kept[i]] && r[j] == s[kept[j]];
    }
    forall x | x in r ensures x in s {
      var k :| 0 <= k < |r| && r[k] == x;
      assert x == s[kept[k]];
    }
  }
}
