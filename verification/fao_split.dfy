/**
 The split of an FAO table by geography, as `split_fao_data` does it in
 scripts/helpers.py: three independent mask selections over the same input
 (codes below 500, codes above 500, the six continent names), each followed
 by resetting the index and discarding the old one.

 A renumbered output is a `Table`: the index of a row is its position, so
 each output's index runs 0..len-1 by construction, and the old labels are gone.
 */
module FaoSplit {
  import opened FaoTable
  import opened Selection

  /** The three outputs, in the order the source returns them. The source
      names the second one `area`; here it is `regions`, since `area` is
      already the name column of a row. */
  datatype Split = Split(countries: Table, regions: Table, continents: Table)

  /** Splits `t` into countries, aggregate regions and continents. */
  function SplitFao(t: Table): (s: Split)
    ensures forall x :: x in s.countries <==> x in t && IsCountry(x)
    ensures forall x :: x in s.regions <==> x in t && IsRegion(x)
    ensures forall x :: x in s.continents <==> x in t && IsContinent(x)
    ensures SelectsInOrder(s.countries, t, IsCountry)
    ensures SelectsInOrder(s.regions, t, IsRegion)
    ensures SelectsInOrder(s.continents, t, IsContinent)
  {
    FilterMembers(t, IsCountry);
    FilterMembers(t, IsRegion);
    FilterMembers(t, IsContinent);
    FilterSelectsInOrder(t, IsCountry);
    FilterSelectsInOrder(t, IsRegion);
    FilterSelectsInOrder(t, IsContinent);
    Split(Filter(t, IsCountry), Filter(t, IsRegion), Filter(t, IsContinent))
  }

  /** Each output is the only table that selects its rows from `t` in order:
      any table meeting the same specification equals it. */
  lemma SplitIsDetermined(t: Table, countries: Table, regions: Table, continents: Table)
    requires SelectsInOrder(countries, t, IsCountry)
    requires SelectsInOrder(regions, t, IsRegion)
    requires SelectsInOrder(continents, t, IsContinent)
    ensures SplitFao(t) == Split(countries, regions, continents)
  {
    SelectsInOrderIsFilter(countries, t, IsCountry);
    SelectsInOrderIsFilter(regions, t, IsRegion);
    SelectsInOrderIsFilter(continents, t, IsContinent);
  }

  /** Row k of each output is the unaltered input row at the k-th position
      its mask selects, and those positions strictly increase, so rows keep
      their input order even when the input repeats a row. */
  lemma SplitKeepsRowsAndOrder(t: Table)
    ensures RenumberedFrom(SplitFao(t).countries, SelectIndexed(t, IsCountry), t)
    ensures RenumberedFrom(SplitFao(t).regions, SelectIndexed(t, IsRegion), t)
    ensures RenumberedFrom(SplitFao(t).continents, SelectIndexed(t, IsContinent), t)
  {
    FilterRenumbersSelection(t, IsCountry);
    FilterRenumbersSelection(t, IsRegion);
    FilterRenumbersSelection(t, IsContinent);
  }

  /** No row is both a country and a region. */
  lemma CountriesRegionsDisjoint(t: Table)
    ensures forall x :: x in SplitFao(t).countries ==> x !in SplitFao(t).regions
  {
  }

  /** A row on the boundary code 500 that is not continent-named appears in
      no output. */
  lemma BoundaryRowDropped(t: Table, x: Row)
    requires x in t && Unclaimed(x)
    ensures x !in SplitFao(t).countries
    ensures x !in SplitFao(t).regions
    ensures x !in SplitFao(t).continents
  {
  }

  /** The continent test ignores the code: a continent-named row also lands
      in the numeric bucket its code picks. */
  lemma ContinentAlsoByCode(t: Table, x: Row)
    requires x in t && IsContinent(x)
    ensures x in SplitFao(t).continents
    ensures x.areaCode < RegionCodeBoundary ==> x in SplitFao(t).countries
    ensures x.areaCode > RegionCodeBoundary ==> x in SplitFao(t).regions
    ensures x.areaCode == RegionCodeBoundary ==> x !in SplitFao(t).countries && x !in SplitFao(t).regions
  {
  }

  /** Countries and regions together miss exactly the boundary-code rows:
      row counts are conserved only once those are added back. */
  lemma {:induction false} SplitCounts(t: Table)
    ensures |SplitFao(t).countries| + |SplitFao(t).regions| + |Filter(t, OnBoundary)| == |t|
    ensures |SplitFao(t).countries| + |SplitFao(t).regions| <= |t|
    ensures |SplitFao(t).continents| <= |t|
  {
    FilterPartitionLength(t, IsCountry, IsRegion, OnBoundary);
  }

  /** Codes 100, 501 and 999, the last one continent-named: each output holds
      what the manual filter gives. */
  lemma PartitionExample()
    ensures
      var kenya := Row(100, "Kenya", map[]);
      var world := Row(501, "World", map[]);
      var asia := Row(999, "Asia", map[]);
      SplitFao([kenya, world, asia]) == Split([kenya], [world, asia], [asia])
  {
    var kenya := Row(100, "Kenya", map[]);
    var world := Row(501, "World", map[]);
    var asia := Row(999, "Asia", map[]);
    var t1, t2, t := [kenya], [kenya, world], [kenya, world, asia];
    assert t1[..0] == [] && t2[..1] == t1 && t[..2] == t2;
    assert !IsContinent(kenya) && !IsContinent(world) && IsContinent(asia);
    assert Filter(t1, IsCountry) == [kenya] && Filter(t2, IsCountry) == [kenya];
    assert Filter(t, IsCountry) == [kenya];
    assert Filter(t1, IsRegion) == [] && Filter(t2, IsRegion) == [world];
    assert Filter(t, IsRegion) == [world, asia];
    assert Filter(t1, IsContinent) == [] && Filter(t2, IsContinent) == [];
    assert Filter(t, IsContinent) == [asia];
  }
}
