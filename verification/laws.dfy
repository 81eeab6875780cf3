/** Properties of the conversion functions that relate several calls, or a
    call to an independent description of its result. */
module ConversionLaws {
  import opened Results
  import opened Distinct
  import opened GeoJson
  import opened Geojson2H3

  // ---------------------------------------------------------------------
  // Deduplicating merge

  /** A cell is in the merge exactly when it is in one of the merged lists. */
  lemma FlattenMembers<C>(arrays: seq<seq<C>>, x: C)
    ensures x in Flatten(arrays) <==> exists i :: 0 <= i < |arrays| && x in arrays[i]
  {
    ConcatMembers(arrays, x);
    assert x in Flatten(arrays) <==> x in Elems(Flatten(arrays));
    assert x in Concat(arrays) <==> x in Elems(Concat(arrays));
  }

  /** The merge is the only list that holds each cell of the input lists once,
      in order of first appearance. */
  lemma FlattenUnique<C>(arrays: seq<seq<C>>, r: seq<C>)
    requires Elems(r) == Elems(Concat(arrays))
    requires NoDuplicates(r)
    requires FirstOccurrenceOrder(r, Concat(arrays))
    ensures r == Flatten(arrays)
  {
    var none: set<C> := {};
    forall x ensures x in r <==> x in Concat(arrays) && x !in none {
      assert x in r <==> x in Elems(r);
      assert x in Concat(arrays) <==> x in Elems(Concat(arrays));
    }
    DedupFromUnique(r, Concat(arrays), none);
  }

  /** Merging one list that already has no repeats gives it back. */
  lemma FlattenOfDistinct<C>(s: seq<C>)
    requires NoDuplicates(s)
    ensures Flatten([s]) == s
  {
    assert Concat([s]) == s;
    forall i, j | 0 <= i < j < |s| && s[i] in s && s[j] in s
      ensures IndexOf(s, s[i]) < IndexOf(s, s[j])
    {
      IndexOfDistinct(s, i);
      IndexOfDistinct(s, j);
    }
    FlattenUnique([s], s);
  }

  lemma IndexOfDistinct<C>(s: seq<C>, i: nat)
    requires NoDuplicates(s)
    requires i < |s|
    ensures IndexOf(s, s[i]) == i
  {
  }

  /** Merging already-merged groups equals merging all their lists at once,
      so a collection nested in a collection behaves as if its members were
      listed directly. */
  lemma FlattenOfFlattens<C>(groups: seq<seq<seq<C>>>, merged: seq<seq<C>>)
    requires |merged| == |groups|
    requires forall i :: 0 <= i < |groups| ==> merged[i] == Flatten(groups[i])
    ensures Flatten(merged) == Flatten(Concat(groups))
  {
    DedupOfMergedGroups(groups, merged);
  }

  // ---------------------------------------------------------------------
  // Forward direction

  /** A Feature with a Polygon converts like the same Feature with a
      MultiPolygon holding only that polygon. */
  lemma PolygonIsMultiPolygonOfOne<C, V>(h3: Primitives<C>, obj: Object<C, V>, res: int, ensureOutput: bool)
    requires obj.kind.Feature? && obj.geometry.Some? && obj.geometry.value.Polygon?
    ensures FeatureToH3Set(h3, obj, res, ensureOutput)
         == FeatureToH3Set(h3, obj.(geometry := Some(MultiPolygon([obj.geometry.value.rings]))), res, ensureOutput)
  {
  }

  /** When every polygon of a Feature converts, the Feature converts to the
      merge of the polygons' cells, in polygon order, with or without the
      non-empty-output option. */
  lemma FeatureIsMergedPolygons<C, V>(h3: Primitives<C>, obj: Object<C, V>, res: int, ensureOutput: bool, lists: seq<seq<C>>)
    requires obj.kind.Feature? && HasPolygons(obj.geometry)
    requires |lists| == |AsPolygons(obj.geometry.value)|
    requires forall i :: 0 <= i < |lists| ==>
               PolygonToH3Set(h3, AsPolygons(obj.geometry.value)[i], res, ensureOutput) == Success(lists[i])
    ensures FeatureToH3Set(h3, obj, res, ensureOutput) == Success(Flatten(lists))
  {
    var ps := AsPolygons(obj.geometry.value);
    var results := PolyfillEach(h3, ps, res, ensureOutput);
    assert CollectAll(results).value == lists;
  }

  /** Without the non-empty-output option, a Feature converts to the merge of
      the polyfills of its polygons. */
  lemma FeatureIsMergedPolyfill<C, V>(h3: Primitives<C>, obj: Object<C, V>, res: int, lists: seq<seq<C>>)
    requires obj.kind.Feature? && HasPolygons(obj.geometry)
    requires |lists| == |AsPolygons(obj.geometry.value)|
    requires forall i :: 0 <= i < |lists| ==> lists[i] == h3.polyfill(AsPolygons(obj.geometry.value)[i], res)
    ensures FeatureToH3Set(h3, obj, res, false) == Success(Flatten(lists))
  {
    FeatureIsMergedPolygons(h3, obj, res, false, lists);
  }

  /** With the non-empty-output option, a polygon whose polyfill is empty
      contributes exactly the cell holding its centroid, every other polygon
      contributes its polyfill, and the result is non-empty as soon as the
      Feature has one polygon. A polygon without rings and with an empty
      polyfill makes the conversion fail instead, because the centroid of a
      missing outer ring cannot be read. */
  lemma EnsureOutputFallback<C, V>(h3: Primitives<C>, obj: Object<C, V>, res: int, x: C)
    requires obj.kind.Feature? && HasPolygons(obj.geometry)
    ensures var ps := AsPolygons(obj.geometry.value);
            var r := FeatureToH3Set(h3, obj, res, true);
            && (r.Success? <==> forall i :: 0 <= i < |ps| ==> |ps[i]| > 0 || |h3.polyfill(ps[i], res)| > 0)
            && (r.Failure? ==> r.error == NoOuterRing)
            && (r.Success? ==>
                  (x in r.value <==>
                    exists i :: 0 <= i < |ps| &&
                      if |h3.polyfill(ps[i], res)| > 0 then x in h3.polyfill(ps[i], res)
                      else x == h3.geoToH3(h3.centroid(ps[i]).lng, h3.centroid(ps[i]).lat, res)))
            && (r.Success? && |ps| > 0 ==> |r.value| > 0)
  {
    var ps := AsPolygons(obj.geometry.value);
    var r := FeatureToH3Set(h3, obj, res, true);
    if r.Success? {
      var results := PolyfillEach(h3, ps, res, true);
      var lists := CollectAll(results).value;
      assert r.value == Flatten(lists);
      FlattenMembers(lists, x);
      forall i | 0 <= i < |ps|
        ensures lists[i] == (if |h3.polyfill(ps[i], res)| > 0 then h3.polyfill(ps[i], res)
                             else [h3.geoToH3(h3.centroid(ps[i]).lng, h3.centroid(ps[i]).lat, res)])
      {
        assert !FallbackReadsMissingRing(h3, ps[i], res, true);
      }
      if |ps| > 0 {
        var y := lists[0][0];
        FlattenMembers(lists, y);
      }
    }
  }

  /** A collection whose members all convert successfully converts to the
      merge of the members' cells, in member order; the non-empty-output
      option is not passed on to the members. */
  lemma CollectionIsMergedMembers<C, V>(h3: Primitives<C>, fc: Object<C, V>, res: int, ensureOutput: bool, lists: seq<seq<C>>)
    requires fc.kind.FeatureCollection? && fc.features.Members?
    requires |lists| == |fc.features.items|
    requires forall i :: 0 <= i < |lists| ==> FeatureToH3Set(h3, fc.features.items[i], res, false) == Success(lists[i])
    ensures FeatureToH3Set(h3, fc, res, ensureOutput) == Success(Flatten(lists))
  {
    var fs := fc.features.items;
    var results := seq(|fs|, i requires 0 <= i < |fs| => FeatureToH3Set(h3, fs[i], res, false));
    assert CollectAll(results).value == lists;
  }

  /** A collection with a failing member fails with the error of the first
      failing member, whatever the option. */
  lemma CollectionFailsAtFirstBadMember<C, V>(h3: Primitives<C>, fc: Object<C, V>, res: int, ensureOutput: bool, k: nat)
    requires fc.kind.FeatureCollection? && fc.features.Members?
    requires k < |fc.features.items|
    requires FeatureToH3Set(h3, fc.features.items[k], res, false).Failure?
    requires forall i :: 0 <= i < k ==> FeatureToH3Set(h3, fc.features.items[i], res, false).Success?
    ensures FeatureToH3Set(h3, fc, res, ensureOutput) == FeatureToH3Set(h3, fc.features.items[k], res, false)
  {
    var fs := fc.features.items;
    var results := seq(|fs|, i requires 0 <= i < |fs| => FeatureToH3Set(h3, fs[i], res, false));
    var r := CollectAll(results);
    assert results[k].Failure?;
    assert r.Failure?;
    var j :| 0 <= j < |results| && results[j] == Failure(r.error) && forall i :: 0 <= i < j ==> results[i].Success?;
    assert !(j < k) && !(k < j);
  }

  /** A collection of collections converts like one collection holding all
      their members: the merge of merges is the merge of all member lists. */
  lemma NestedCollectionsFlatten<C, V>(h3: Primitives<C>, outer: Object<C, V>, res: int, groups: seq<seq<seq<C>>>)
    requires outer.kind.FeatureCollection? && outer.features.Members?
    requires |groups| == |outer.features.items|
    requires forall i :: 0 <= i < |groups| ==>
               var inner := outer.features.items[i];
               && inner.kind.FeatureCollection? && inner.features.Members?
               && |groups[i]| == |inner.features.items|
               && forall j :: 0 <= j < |groups[i]| ==>
                    FeatureToH3Set(h3, inner.features.items[j], res, false) == Success(groups[i][j])
    ensures FeatureToH3Set(h3, outer, res, false) == Success(Flatten(Concat(groups)))
  {
    var merged := seq(|groups|, i requires 0 <= i < |groups| => Flatten(groups[i]));
    forall i | 0 <= i < |groups|
      ensures FeatureToH3Set(h3, outer.features.items[i], res, false) == Success(merged[i])
    {
      CollectionIsMergedMembers(h3, outer.features.items[i], res, false, groups[i]);
    }
    CollectionIsMergedMembers(h3, outer, res, false, merged);
    FlattenOfFlattens(groups, merged);
  }

  // ---------------------------------------------------------------------
  // Reverse direction

  /** The outline Feature is a MultiPolygon exactly when the cells have more
      than one outline; reading its geometry back as a polygon list, as the
      forward direction does, gives the outlines unchanged, unless there
      are none, in which case the geometry is a Polygon without rings. */
  lemma OutlineCollapse<C, V>(h3: Primitives<C>, hexagons: seq<C>, properties: Option<Properties<V>>)
    ensures var ps := h3.setToMultiPolygon(hexagons);
            var g := H3SetToFeature(h3, hexagons, properties).geometry.value;
            && (g.MultiPolygon? <==> |ps| > 1)
            && (|ps| > 0 ==> AsPolygons(g) == ps)
            && (|ps| == 0 ==> g == Polygon([]))
  {
  }

  /** Converting the outline Feature of a cell set back to cells converts
      each outline polygon and merges the results. With no outline the
      geometry is a Polygon without rings: it converts to its (deduplicated)
      polyfill, except that with the non-empty-output option and an empty
      polyfill the centroid fallback fails. */
  lemma OutlineBackToCells<C, V>(h3: Primitives<C>, hexagons: seq<C>, properties: Option<Properties<V>>, res: int, ensureOutput: bool)
    ensures var ps := h3.setToMultiPolygon(hexagons);
            var r := FeatureToH3Set(h3, H3SetToFeature(h3, hexagons, properties), res, ensureOutput);
            && (|ps| > 0 ==> r == PolygonsToH3Set(h3, ps, res, ensureOutput))
            && (|ps| == 0 && ensureOutput && |h3.polyfill([], res)| == 0 ==> r == Failure(NoOuterRing))
            && (|ps| == 0 && (!ensureOutput || |h3.polyfill([], res)| > 0) ==> r == Success(Dedup(h3.polyfill([], res))))
  {
  }

  /** Converting a one-cell Feature back to cells gives the cell's polygon
      result without repeats; a one-ring polygon never fails. */
  lemma CellFeatureBackToCells<C, V>(h3: Primitives<C>, cell: C, properties: Option<Properties<V>>, res: int, ensureOutput: bool)
    ensures PolygonToH3Set(h3, [h3.boundary(cell)], res, ensureOutput).Success?
    ensures FeatureToH3Set(h3, H3ToFeature(h3, cell, properties), res, ensureOutput)
         == Success(Dedup(PolygonToH3Set(h3, [h3.boundary(cell)], res, ensureOutput).value))
  {
  }

  /** Polygon `i` of the per-cell MultiPolygon is the geometry of the
      one-cell Feature of cell `i`: the adapter neither merges nor drops
      repeated cells. */
  lemma PerCellPolygonsMatchCellFeatures<C, V>(h3: Primitives<C>, hexagons: seq<C>, properties: Option<Properties<V>>, i: nat)
    requires i < |hexagons|
    ensures var f := H3SetToMultiPolygonFeature(h3, hexagons, properties);
            f.geometry.value.polygons[i] == H3ToFeature(h3, hexagons[i], properties).geometry.value.rings
  {
  }

  /** Without the non-empty-output option, the per-cell MultiPolygon Feature
      and the per-cell FeatureCollection of the same cells convert back to
      the same cells. */
  lemma PerCellAdaptersAgree<C, V>(h3: Primitives<C>, hexagons: seq<C>, properties: Option<Properties<V>>,
                                   getProperties: Option<C -> Option<Properties<V>>>, res: int)
    ensures FeatureToH3Set(h3, H3SetToMultiPolygonFeature(h3, hexagons, properties), res, false)
         == FeatureToH3Set(h3, H3SetToFeatureCollection(h3, hexagons, getProperties), res, false)
  {
    var mp := H3SetToMultiPolygonFeature(h3, hexagons, properties);
    var lists := seq(|hexagons|, i requires 0 <= i < |hexagons| => h3.polyfill([h3.boundary(hexagons[i])], res));
    FeatureIsMergedPolyfill(h3, mp, res, lists);
    var groups := seq(|hexagons|, i requires 0 <= i < |hexagons| => [lists[i]]);
    var merged := seq(|hexagons|, i requires 0 <= i < |hexagons| => Flatten(groups[i]));
    PerCellMembersConvert(h3, hexagons, getProperties, res, lists, groups, merged);
    CollectionIsMergedMembers(h3, H3SetToFeatureCollection(h3, hexagons, getProperties), res, false, merged);
    FlattenOfFlattens(groups, merged);
    ConcatOfSingletons(groups, lists);
  }

  /** Member `i` of the per-cell collection converts to the merge of the
      single list `lists[i]`. */
  lemma PerCellMembersConvert<C, V>(h3: Primitives<C>, hexagons: seq<C>, getProperties: Option<C -> Option<Properties<V>>>,
                                    res: int, lists: seq<seq<C>>, groups: seq<seq<seq<C>>>, merged: seq<seq<C>>)
    requires |lists| == |groups| == |merged| == |hexagons|
    requires forall i :: 0 <= i < |hexagons| ==> lists[i] == h3.polyfill([h3.boundary(hexagons[i])], res)
    requires forall i :: 0 <= i < |hexagons| ==> groups[i] == [lists[i]] && merged[i] == Flatten(groups[i])
    ensures forall i :: 0 <= i < |hexagons| ==>
              FeatureToH3Set(h3, H3SetToFeatureCollection(h3, hexagons, getProperties).features.items[i], res, false)
                == Success(merged[i])
  {
  }

  lemma {:induction false} ConcatOfSingletons<T>(groups: seq<seq<T>>, items: seq<T>)
    requires |groups| == |items|
    requires forall i :: 0 <= i < |groups| ==> groups[i] == [items[i]]
    ensures Concat(groups) == items
  {
    if |groups| > 0 {
      ConcatOfSingletons(groups[1..], items[1..]);
      assert items == [items[0]] + items[1..];
    }
  }

  /** Each Feature of the per-cell collection carries its cell as id, and the
      lookup's properties for that cell, or `{}` when there is no lookup or
      it returns nothing. */
  lemma CollectionFeatureProperties<C, V>(h3: Primitives<C>, hexagons: seq<C>, getProperties: Option<C -> Option<Properties<V>>>, i: nat)
    requires i < |hexagons|
    ensures var f := H3SetToFeatureCollection(h3, hexagons, getProperties).features.items[i];
            && f.id == Some(hexagons[i])
            && f.geometry == Some(Polygon([h3.boundary(hexagons[i])]))
            && (getProperties.None? ==> f.properties == Some(map[]))
            && (getProperties.Some? && getProperties.value(hexagons[i]).None? ==> f.properties == Some(map[]))
            && (getProperties.Some? && getProperties.value(hexagons[i]).Some? ==> f.properties == getProperties.value(hexagons[i]))
  {
  }
}
