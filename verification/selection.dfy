/**
 Boolean-mask row selection over a table, in the two forms the split uses:
 keeping each selected row's index label (`SelectIndexed`), and dropping the
 labels so that the result is renumbered from zero (`Filter`).

 `IsSelection` is the independent specification of a selection: every entry
 is the unaltered input row found at its label and accepted by the mask, the
 labels increase strictly (input order is kept, nothing is repeated), and
 every accepted input position is present. `SelectionIsUnique` shows that
 this determines the selection completely.
 */
module Selection {
  import opened FaoTable

  /** The rows of `t` that `keep` accepts, in table order, renumbered from zero. */
  function Filter(t: Table, keep: Row -> bool): (r: Table)
    ensures |r| <= |t|
    ensures forall k :: 0 <= k < |r| ==> keep(r[k]) && r[k] in t
    decreases |t|
  {
    if |t| == 0 then []
    else
      var n := |t| - 1;
      Filter(t[..n], keep) + (if keep(t[n]) then [t[n]] else [])
  }

  /** The rows of `t` that `keep` accepts, in table order, each paired with
      its position in `t` as index label. */
  function SelectIndexed(t: Table, keep: Row -> bool): (f: Frame)
    ensures |f| <= |t|
    ensures forall k :: 0 <= k < |f| ==> f[k].0 < |t| && t[f[k].0] == f[k].1 && keep(f[k].1)
    decreases |t|
  {
    if |t| == 0 then []
    else
      var n := |t| - 1;
      SelectIndexed(t[..n], keep) + (if keep(t[n]) then [(n, t[n])] else [])
  }

  /** The rows of a frame with its index labels dropped: row k of the result
      carries the new index k. */
  function ResetIndex(f: Frame): Table {
    seq(|f|, k requires 0 <= k < |f| => f[k].1)
  }

  /** The index labels of a frame, in frame order. */
  function Labels(f: Frame): (ls: seq<nat>)
    ensures |ls| == |f|
    ensures forall j :: j in ls <==> exists k :: 0 <= k < |f| && f[k].0 == j
  {
    if |f| == 0 then [] else Labels(f[..|f| - 1]) + [f[|f| - 1].0]
  }

  /** `f` is exactly the mask selection of `t` by `keep`, index labels kept. */
  ghost predicate IsSelection(f: Frame, t: Table, keep: Row -> bool) {
    && (forall k :: 0 <= k < |f| ==> f[k].0 < |t| && t[f[k].0] == f[k].1 && keep(f[k].1))
    && (forall k, l :: 0 <= k < l < |f| ==> f[k].0 < f[l].0)
    && (forall j :: 0 <= j < |t| && keep(t[j]) ==> exists k :: 0 <= k < |f| && f[k].0 == j)
  }

  /** `out` is exactly the mask selection of `t` by `keep`, renumbered from zero. */
  ghost predicate SelectsInOrder(out: Table, t: Table, keep: Row -> bool) {
    exists f :: IsSelection(f, t, keep) && ResetIndex(f) == out
  }

  /** `out` is `f` with its labels dropped, where every label of `f` is an
      input position holding the very row `out` has there, and the labels
      strictly increase. */
  ghost predicate RenumberedFrom(out: Table, f: Frame, t: Table) {
    && |out| == |f|
    && (forall k :: 0 <= k < |f| ==> f[k].0 < |t| && out[k] == t[f[k].0])
    && (forall k, l :: 0 <= k < l < |f| ==> f[k].0 < f[l].0)
  }

  /** The labelled mask selection meets the selection specification. */
  lemma {:induction false} SelectIndexedIsSelection(t: Table, keep: Row -> bool)
    ensures IsSelection(SelectIndexed(t, keep), t, keep)
    decreases |t|
  {
    if |t| > 0 {
      var n := |t| - 1;
      var init := t[..n];
      SelectIndexedIsSelection(init, keep);
      var f0 := SelectIndexed(init, keep);
      var f := SelectIndexed(t, keep);
      assert f[..|f0|] == f0;
      forall j | 0 <= j < |t| && keep(t[j])
        ensures exists k :: 0 <= k < |f| && f[k].0 == j
      {
        if j < n {
          assert init[j] == t[j];
          var k :| 0 <= k < |f0| && f0[k].0 == j;
          assert f[k] == f0[k];
        } else {
          assert f[|f| - 1] == (n, t[n]);
        }
      }
    }
  }

  /** A selection from an empty table is empty. */
  lemma SelectionOfEmpty(f: Frame, t: Table, keep: Row -> bool)
    requires IsSelection(f, t, keep)
    requires |t| == 0
    ensures f == []
  {
    assert |f| > 0 ==> f[0].0 < |t|;
  }

  /** When the last input row is accepted, it is the last entry of any
      selection, and the entries before it select from the other rows. */
  lemma {:induction false} SelectionKeepsLast(f: Frame, t: Table, keep: Row -> bool)
    requires IsSelection(f, t, keep)
    requires |t| > 0 && keep(t[|t| - 1])
    ensures |f| > 0 && f[|f| - 1] == (|t| - 1, t[|t| - 1])
    ensures IsSelection(f[..|f| - 1], t[..|t| - 1], keep)
  {
  }

  /** When the last input row is rejected, no selection mentions it. */
  lemma {:induction false} SelectionSkipsLast(f: Frame, t: Table, keep: Row -> bool)
    requires IsSelection(f, t, keep)
    requires |t| > 0 && !keep(t[|t| - 1])
    ensures IsSelection(f, t[..|t| - 1], keep)
  {
  }

  /** The selection specification has exactly one solution. */
  lemma {:induction false} SelectionIsUnique(f: Frame, t: Table, keep: Row -> bool)
    requires IsSelection(f, t, keep)
    ensures f == SelectIndexed(t, keep)
    decreases |t|
  {
    if |t| == 0 {
      SelectionOfEmpty(f, t, keep);
    } else {
      var n := |t| - 1;
      if keep(t[n]) {
        SelectionKeepsLast(f, t, keep);
        SelectionIsUnique(f[..|f| - 1], t[..n], keep);
        assert f == f[..|f| - 1] + [(n, t[n])];
      } else {
        SelectionSkipsLast(f, t, keep);
        SelectionIsUnique(f, t[..n], keep);
      }
    }
  }

  lemma {:induction false} ResetIndexAppend(a: Frame, b: Frame)
    ensures ResetIndex(a + b) == ResetIndex(a) + ResetIndex(b)
  {
  }

  /** Resetting the index of the labelled selection gives the renumbered one. */
  lemma {:induction false} ResetIndexOfSelection(t: Table, keep: Row -> bool)
    ensures ResetIndex(SelectIndexed(t, keep)) == Filter(t, keep)
    decreases |t|
  {
    if |t| > 0 {
      var n := |t| - 1;
      ResetIndexOfSelection(t[..n], keep);
      var tail: Frame := if keep(t[n]) then [(n, t[n])] else [];
      ResetIndexAppend(SelectIndexed(t[..n], keep), tail);
    }
  }

  /** The renumbered selection meets its specification... */
  lemma FilterSelectsInOrder(t: Table, keep: Row -> bool)
    ensures SelectsInOrder(Filter(t, keep), t, keep)
  {
    SelectIndexedIsSelection(t, keep);
    ResetIndexOfSelection(t, keep);
  }

  /** ...and is the only table that does. */
  lemma SelectsInOrderIsFilter(out: Table, t: Table, keep: Row -> bool)
    requires SelectsInOrder(out, t, keep)
    ensures out == Filter(t, keep)
  {
    var f :| IsSelection(f, t, keep) && ResetIndex(f) == out;
    SelectionIsUnique(f, t, keep);
    ResetIndexOfSelection(t, keep);
  }

  /** Row k of the renumbered selection is the input row at the k-th label
      of the labelled selection, and those labels strictly increase. */
  lemma {:induction false} FilterRenumbersSelection(t: Table, keep: Row -> bool)
    ensures RenumberedFrom(Filter(t, keep), SelectIndexed(t, keep), t)
  {
    SelectIndexedIsSelection(t, keep);
    ResetIndexOfSelection(t, keep);
  }

  /** Membership in the renumbered selection: an input row that passes the mask. */
  lemma {:induction false} FilterMembers(t: Table, keep: Row -> bool)
    ensures forall x :: x in Filter(t, keep) <==> x in t && keep(x)
    decreases |t|
  {
    if |t| > 0 {
      var n := |t| - 1;
      FilterMembers(t[..n], keep);
      assert t == t[..n] + [t[n]];
    }
  }

  /** Two exclusive masks and the rows neither accepts account for every input row. */
  lemma {:induction false} FilterPartitionLength(t: Table, p: Row -> bool, q: Row -> bool, rest: Row -> bool)
    requires forall x :: !(p(x) && q(x))
    requires forall x :: rest(x) <==> !p(x) && !q(x)
    ensures |Filter(t, p)| + |Filter(t, q)| + |Filter(t, rest)| == |t|
    decreases |t|
  {
    if |t| > 0 {
      FilterPartitionLength(t[..|t| - 1], p, q, rest);
    }
  }
}
