/** The debt section of the list shows only `debts.filter { $0.amount > 0 }`, and its
    swipe-to-delete hands the offsets of those displayed rows to `deleteDebt`. */
module DebtDisplay {
  import opened Records
  import opened Offsets

  /** The debts the list shows, in list order. */
  function Displayed(ds: seq<Debt>): (r: seq<Debt>)
    ensures |r| <= |ds|
  {
    if ds == [] then []
    else
      var n := |ds| - 1;
      Displayed(ds[..n]) + (if IsPositive(ds[n].amount) then [ds[n]] else [])
  }

  /** The debts the list does not show (amount zero, negative, minus infinity or NaN),
      in list order. */
  function Hidden(ds: seq<Debt>): (r: seq<Debt>)
    ensures |r| <= |ds|
  {
    if ds == [] then []
    else
      var n := |ds| - 1;
      Hidden(ds[..n]) + (if IsPositive(ds[n].amount) then [] else [ds[n]])
  }

  /** For each displayed row, its position in the whole list. */
  function DisplayedPositions(ds: seq<Debt>): (r: seq<nat>)
    ensures |r| == |Displayed(ds)|
    ensures forall k :: 0 <= k < |r| ==> r[k] < |ds| && Displayed(ds)[k] == ds[r[k]]
  {
    if ds == [] then []
    else
      var n := |ds| - 1;
      var r := DisplayedPositions(ds[..n]) + (if IsPositive(ds[n].amount) then [n] else []);
      assert forall k :: 0 <= k < |DisplayedPositions(ds[..n])| ==> ds[..n][r[k]] == ds[r[k]];
      r
  }

  /** Each shown row is a positive debt. */
  lemma {:induction false} DisplayedArePositive(ds: seq<Debt>)
    ensures forall k :: 0 <= k < |DisplayedPositions(ds)| ==> IsPositive(ds[DisplayedPositions(ds)[k]].amount)
  {
    if ds != [] {
      var n := |ds| - 1;
      var prefix := ds[..n];
      DisplayedArePositive(prefix);
      var p, p' := DisplayedPositions(ds), DisplayedPositions(prefix);
      assert p == p' + (if IsPositive(ds[n].amount) then [n] else []);
      forall k | 0 <= k < |p| ensures IsPositive(ds[p[k]].amount) {
        if k < |p'| {
          assert ds[p[k]] == prefix[p'[k]];
        }
      }
    }
  }

  /** Shown rows keep the order of the list. */
  lemma {:induction false} DisplayedInOrder(ds: seq<Debt>)
    ensures forall j, k :: 0 <= j < k < |DisplayedPositions(ds)| ==> DisplayedPositions(ds)[j] < DisplayedPositions(ds)[k]
  {
    if ds != [] {
      var n := |ds| - 1;
      DisplayedInOrder(ds[..n]);
      var p' := DisplayedPositions(ds[..n]);
      assert DisplayedPositions(ds) == p' + (if IsPositive(ds[n].amount) then [n] else []);
    }
  }

  /** Every positive debt is shown. */
  lemma {:induction false} PositiveAreDisplayed(ds: seq<Debt>)
    ensures forall i :: 0 <= i < |ds| && IsPositive(ds[i].amount) ==> i in DisplayedPositions(ds)
  {
    if ds != [] {
      var n := |ds| - 1;
      var prefix := ds[..n];
      PositiveAreDisplayed(prefix);
      var p, p' := DisplayedPositions(ds), DisplayedPositions(prefix);
      assert p == p' + (if IsPositive(ds[n].amount) then [n] else []);
      forall i | 0 <= i < |ds| && IsPositive(ds[i].amount) ensures i in p {
        if i < n {
          assert prefix[i] == ds[i];
          var k :| 0 <= k < |p'| && p'[k] == i;
          assert p[k] == i;
        } else {
          assert p[|p| - 1] == n;
        }
      }
    }
  }

  /** No hidden debt has a positive amount. */
  lemma {:induction false} HiddenAreNotPositive(ds: seq<Debt>)
    ensures forall d :: d in Hidden(ds) ==> !IsPositive(d.amount)
  {
    if ds != [] {
      var n := |ds| - 1;
      HiddenAreNotPositive(ds[..n]);
      assert Hidden(ds) == Hidden(ds[..n]) + (if IsPositive(ds[n].amount) then [] else [ds[n]]);
    }
  }

  /** Every debt with a non-positive amount is hidden. */
  lemma {:induction false} NotPositiveAreHidden(ds: seq<Debt>)
    ensures forall i :: 0 <= i < |ds| && !IsPositive(ds[i].amount) ==> ds[i] in Hidden(ds)
  {
    if ds != [] {
      var n := |ds| - 1;
      var prefix := ds[..n];
      NotPositiveAreHidden(prefix);
      assert Hidden(ds) == Hidden(prefix) + (if IsPositive(ds[n].amount) then [] else [ds[n]]);
      forall i | 0 <= i < |ds| && !IsPositive(ds[i].amount) ensures ds[i] in Hidden(ds) {
        if i < n {
          assert prefix[i] == ds[i];
        }
      }
    }
  }

  /** The filter splits the list: every debt is either shown or hidden, and none is
      lost or duplicated. */
  lemma {:induction false} DisplayedAndHiddenSplit(ds: seq<Debt>)
    ensures multiset(Displayed(ds)) + multiset(Hidden(ds)) == multiset(ds)
  {
    if ds != [] {
      var n := |ds| - 1;
      var prefix := ds[..n];
      DisplayedAndHiddenSplit(prefix);
      assert ds == prefix + [ds[n]];
      assert multiset(ds) == multiset(prefix) + multiset{ds[n]};
    }
  }

  /** The positions in the whole list of the displayed rows at `viewOffsets`. */
  function ToDebtOffsets(ds: seq<Debt>, viewOffsets: set<nat>): (r: set<nat>)
    ensures forall o :: o in r ==> o < |ds|
  {
    var positions := DisplayedPositions(ds);
    set v | v in viewOffsets && v < |positions| :: positions[v]
  }

  lemma {:induction false} DisplayedAppend(a: seq<Debt>, b: seq<Debt>)
    ensures Displayed(a + b) == Displayed(a) + Displayed(b)
  {
    if b == [] {
      assert a + b == a;
    } else {
      var n := |b| - 1;
      var ab := a + b;
      assert ab[..|ab| - 1] == a + b[..n];
      assert ab[|ab| - 1] == b[n];
      DisplayedAppend(a, b[..n]);
    }
  }

  lemma {:induction false} HiddenAppend(a: seq<Debt>, b: seq<Debt>)
    ensures Hidden(a + b) == Hidden(a) + Hidden(b)
  {
    if b == [] {
      assert a + b == a;
    } else {
      var n := |b| - 1;
      var ab := a + b;
      assert ab[..|ab| - 1] == a + b[..n];
      assert ab[|ab| - 1] == b[n];
      HiddenAppend(a, b[..n]);
    }
  }

  lemma HiddenSingle(d: Debt)
    ensures Hidden([d]) == if IsPositive(d.amount) then [] else [d]
  {
    assert [d][..0] == [];
  }

  /** Displayed of a one-element list. */
  lemma DisplayedSingle(d: Debt)
    ensures Displayed([d]) == if IsPositive(d.amount) then [d] else []
  {
    assert [d][..0] == [];
  }

  /** How the translated offsets of a list relate to those of the list without its last debt. */
  lemma {:induction false} ToDebtOffsetsStep(ds: seq<Debt>, viewOffsets: set<nat>)
    requires ds != []
    ensures var n := |ds| - 1;
            var m := ToDebtOffsets(ds, viewOffsets);
            && m - {n} == ToDebtOffsets(ds[..n], viewOffsets)
            && (n in m <==> IsPositive(ds[n].amount) && |Displayed(ds[..n])| in viewOffsets)
  {
    var n := |ds| - 1;
    var prefix := ds[..n];
    var m, m' := ToDebtOffsets(ds, viewOffsets), ToDebtOffsets(prefix, viewOffsets);
    var p, p' := DisplayedPositions(ds), DisplayedPositions(prefix);
    assert p == p' + (if IsPositive(ds[n].amount) then [n] else []);
    forall o | o in m - {n} ensures o in m' {
      var v :| v in viewOffsets && v < |p| && p[v] == o;
      assert v < |p'|;
    }
    forall o | o in m' ensures o in m - {n} {
      var v :| v in viewOffsets && v < |p'| && p'[v] == o;
      assert p[v] == o;
    }
    if IsPositive(ds[n].amount) && |p'| in viewOffsets {
      assert p[|p'|] == n;
    }
    if n in m {
      var v :| v in viewOffsets && v < |p| && p[v] == n;
      assert v == |p'|;
    }
  }

  /** Deleting through the translated offsets removes exactly the swiped rows from the
      display: the rows the user sees afterwards are the old rows minus the swiped ones. */
  lemma {:induction false} DeleteThroughView(ds: seq<Debt>, viewOffsets: set<nat>)
    ensures Displayed(RemoveAt(ds, ToDebtOffsets(ds, viewOffsets))) == RemoveAt(Displayed(ds), viewOffsets)
  {
    if ds != [] {
      var n := |ds| - 1;
      var prefix, last := ds[..n], ds[n];
      var shown := Displayed(prefix);
      var m, m' := ToDebtOffsets(ds, viewOffsets), ToDebtOffsets(prefix, viewOffsets);
      ToDebtOffsetsStep(ds, viewOffsets);
      var tail := if n in m then [] else [last];
      assert RemoveAt(ds, m) == RemoveAt(prefix, m) + tail;
      RemoveAtIgnoresBeyond(prefix, m, n);
      DisplayedAppend(RemoveAt(prefix, m'), tail);
      DeleteThroughView(prefix, viewOffsets);
      DisplayedSingle(last);
      assert Displayed(RemoveAt(ds, m)) == RemoveAt(shown, viewOffsets) + Displayed(tail);
      DisplayedRemoveStep(ds, viewOffsets);
    }
  }

  /** Removing view offsets from the display of a list, in terms of the display of the
      list without its last debt. */
  lemma DisplayedRemoveStep(ds: seq<Debt>, viewOffsets: set<nat>)
    requires ds != []
    ensures var n := |ds| - 1;
            var shown := Displayed(ds[..n]);
            RemoveAt(Displayed(ds), viewOffsets) ==
              RemoveAt(shown, viewOffsets) +
              (if IsPositive(ds[n].amount) && |shown| !in viewOffsets then [ds[n]] else [])
  {
    var n := |ds| - 1;
    var shown := Displayed(ds[..n]);
    if IsPositive(ds[n].amount) {
      var all := shown + [ds[n]];
      assert Displayed(ds) == all;
      assert all[..|all| - 1] == shown;
    } else {
      assert Displayed(ds) == shown;
    }
  }

  /** Deleting through the translated offsets never touches a hidden debt: every
      non-positive debt survives, in order. */
  lemma {:induction false} DeleteKeepsHidden(ds: seq<Debt>, viewOffsets: set<nat>)
    ensures Hidden(RemoveAt(ds, ToDebtOffsets(ds, viewOffsets))) == Hidden(ds)
  {
    if ds != [] {
      var n := |ds| - 1;
      var prefix, last := ds[..n], ds[n];
      var m, m' := ToDebtOffsets(ds, viewOffsets), ToDebtOffsets(prefix, viewOffsets);
      ToDebtOffsetsStep(ds, viewOffsets);
      var tail := if n in m then [] else [last];
      assert RemoveAt(ds, m) == RemoveAt(prefix, m) + tail;
      RemoveAtIgnoresBeyond(prefix, m, n);
      HiddenAppend(RemoveAt(prefix, m'), tail);
      DeleteKeepsHidden(prefix, viewOffsets);
      HiddenSingle(last);
      assert Hidden(RemoveAt(ds, m)) == Hidden(prefix) + Hidden(tail);
      assert Hidden(ds) == Hidden(prefix) + (if IsPositive(last.amount) then [] else [last]);
      if IsPositive(last.amount) {
        assert Hidden(tail) == [];
        assert Hidden(prefix) + [] == Hidden(prefix);
      } else {
        assert tail == [last];
      }
    }
  }

  /** As written, the offsets of displayed rows are applied to the whole list. With a
      non-positive debt ahead of a positive one, swiping the only displayed row deletes
      the hidden debt and the swiped row stays on screen. */
  lemma MisdirectedDelete()
    ensures var ds := [Debt(0, "Bob", Finite(-5.0)), Debt(1, "Alice", Finite(10.0))];
            && Displayed(ds) == [ds[1]]
            && RemoveAt(Displayed(ds), {0}) == []
            && RemoveAt(ds, {0}) == [ds[1]]
            && Displayed(RemoveAt(ds, {0})) == [ds[1]]
            && Hidden(ds) == [ds[0]] && Hidden(RemoveAt(ds, {0})) == []
  {
    var ds := [Debt(0, "Bob", Finite(-5.0)), Debt(1, "Alice", Finite(10.0))];
    assert ds[..1] == [ds[0]] && [ds[0]][..0] == [];
    assert Displayed(ds) == [ds[1]];
    assert [ds[1]][..0] == [];
    assert RemoveAt(ds, {0}) == [ds[1]];
    assert Hidden(ds) == [ds[0]];
    assert Hidden([ds[1]]) == Hidden([]) + [];
  }
}
