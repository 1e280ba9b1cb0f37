/**
 The earlier revision of `split_fao_data` kept in the notebook autosave
 (scripts/.ipynb_checkpoints/helpers-checkpoint.py): the same three mask
 selections, returned without resetting the index. Each kept row therefore
 still carries its position in the input as index label.
 */
module FaoSplitCheckpoint {
  import opened FaoTable
  import opened Selection
  import FaoSplit

  /** The three outputs with their original index labels. */
  datatype IndexedSplit = IndexedSplit(countries: Frame, regions: Frame, continents: Frame)

  /** Splits `t` into countries, aggregate regions and continents, keeping
      each row's input position. */
  function SplitFaoKeepIndex(t: Table): (s: IndexedSplit)
    ensures IsSelection(s.countries, t, IsCountry)
    ensures IsSelection(s.regions, t, IsRegion)
    ensures IsSelection(s.continents, t, IsContinent)
  {
    SelectIndexedIsSelection(t, IsCountry);
    SelectIndexedIsSelection(t, IsRegion);
    SelectIndexedIsSelection(t, IsContinent);
    IndexedSplit(SelectIndexed(t, IsCountry), SelectIndexed(t, IsRegion), SelectIndexed(t, IsContinent))
  }

  /** In each of the three outputs, positions are strictly increasing and
      below `|t|`, and the row at a returned position is the input row at
      that position. */
  lemma LabelsArePositions(t: Table, f: Frame)
    requires
      var s := SplitFaoKeepIndex(t);
      f == s.countries || f == s.regions || f == s.continents
    ensures forall k :: 0 <= k < |f| ==> f[k].0 < |t| && t[f[k].0] == f[k].1
    ensures forall k, l :: 0 <= k < l < |f| ==> f[k].0 < f[l].0
  {
  }

  /** Countries and regions share no position, and a boundary-code position
      is in neither. */
  lemma PositionsDisjoint(t: Table, j: nat)
    requires j < |t|
    ensures forall k :: 0 <= k < |SplitFaoKeepIndex(t).countries| ==>
      SplitFaoKeepIndex(t).countries[k].0 !in Labels(SplitFaoKeepIndex(t).regions)
    ensures OnBoundary(t[j]) ==>
      j !in Labels(SplitFaoKeepIndex(t).countries) && j !in Labels(SplitFaoKeepIndex(t).regions)
  {
  }

  /** Positions need not be contiguous: a region between two countries
      leaves a gap in the countries' labels. */
  lemma GapExample()
    ensures
      var a := Row(4, "Albania", map[]);
      var w := Row(5100, "Europe", map[]);
      var b := Row(7, "Austria", map[]);
      SplitFaoKeepIndex([a, w, b]).countries == [(0, a), (2, b)]
  {
    var a := Row(4, "Albania", map[]);
    var w := Row(5100, "Europe", map[]);
    var b := Row(7, "Austria", map[]);
    var t1, t2, t := [a], [a, w], [a, w, b];
    assert t1[..0] == [] && t2[..1] == t1 && t[..2] == t2;
    assert SelectIndexed(t1, IsCountry) == [(0, a)];
    assert SelectIndexed(t2, IsCountry) == [(0, a)];
    assert SelectIndexed(t, IsCountry) == [(0, a), (2, b)];
  }

  /** Dropping the labels from this revision's outputs gives exactly the
      three tables of the renumbering revision. */
  lemma ResetIndexGivesSplit(t: Table)
    ensures
      var s := SplitFaoKeepIndex(t);
      FaoSplit.SplitFao(t) == FaoSplit.Split(ResetIndex(s.countries), ResetIndex(s.regions), ResetIndex(s.continents))
  {
    ResetIndexOfSelection(t, IsCountry);
    ResetIndexOfSelection(t, IsRegion);
    ResetIndexOfSelection(t, IsContinent);
  }
}
