/**
 The visibility computation of the home page (src/app/page.tsx, the effect at
 lines 41-50): keep the catalog entries whose elevation reaches the threshold,
 annotate each with its elevation, and sort them by descending elevation.

 JavaScript's `Array.prototype.sort` is stable, so the sort is the stable
 sort of module StableSort with the key `elevation!`: records of equal
 elevation keep their relative order.
 */
module Visibility {
  import opened SatelliteData
  import opened Geospatial
  import opened StableSort

  /** The elevation of a catalog entry's slot, as seen by the observer. */
  function SlotElevation(t: Trig, observer: GeoCoordinate, sat: Satellite): real {
    Elevation(t, observer, sat.slotLongitude)
  }

  /** The `.filter` step: entries whose elevation is at least `minElevation`, in catalog order. */
  function KeepAbove(t: Trig, catalog: seq<Satellite>, observer: GeoCoordinate, minElevation: real): (kept: seq<Satellite>)
    ensures |kept| <= |catalog|
    ensures forall i :: 0 <= i < |kept| ==> SlotElevation(t, observer, kept[i]) >= minElevation
  {
    if catalog == [] then []
    else
      (if SlotElevation(t, observer, catalog[0]) >= minElevation then [catalog[0]] else [])
      + KeepAbove(t, catalog[1..], observer, minElevation)
  }

  /** An entry survives the filter exactly when it is in the catalog and reaches the threshold. */
  lemma {:induction false} KeepAboveMembership(t: Trig, catalog: seq<Satellite>, observer: GeoCoordinate, minElevation: real, s: Satellite)
    ensures s in KeepAbove(t, catalog, observer, minElevation)
        <==> s in catalog && SlotElevation(t, observer, s) >= minElevation
  {
    if catalog != [] {
      KeepAboveMembership(t, catalog[1..], observer, minElevation, s);
      assert catalog == [catalog[0]] + catalog[1..];
    }
  }

  /** `{ ...sat, elevation }`: the record with only its elevation set. */
  function Annotate(t: Trig, observer: GeoCoordinate, sat: Satellite): Satellite {
    sat.(elevation := Some(SlotElevation(t, observer, sat)))
  }

  /** The `.map` step. */
  function AnnotateAll(t: Trig, observer: GeoCoordinate, catalog: seq<Satellite>): (annotated: seq<Satellite>)
    ensures |annotated| == |catalog|
    ensures forall i :: 0 <= i < |catalog| ==> annotated[i] == Annotate(t, observer, catalog[i])
  {
    if catalog == [] then []
    else [Annotate(t, observer, catalog[0])] + AnnotateAll(t, observer, catalog[1..])
  }

  lemma AnnotateAllAppend(t: Trig, observer: GeoCoordinate, a: seq<Satellite>, b: seq<Satellite>)
    ensures AnnotateAll(t, observer, a + b) == AnnotateAll(t, observer, a) + AnnotateAll(t, observer, b)
  {
    var left, right := AnnotateAll(t, observer, a + b), AnnotateAll(t, observer, a) + AnnotateAll(t, observer, b);
    forall i | 0 <= i < |left|
      ensures left[i] == right[i]
    {
      if i < |a| {
        assert (a + b)[i] == a[i];
      } else {
        assert (a + b)[i] == b[i - |a|];
      }
    }
  }

  /**
   The sort key `elevation!`. Every record reaching the sort has been
   annotated, so the fallback of the `None` case is never used.
   */
  function ElevationKey(s: Satellite): real {
    if s.elevation.Some? then s.elevation.value else BelowHorizon
  }

  /** The first entry's contribution to KeptWithKey. */
  lemma FrontWithKey(t: Trig, observer: GeoCoordinate, head: Satellite, minElevation: real, e: real)
    ensures WithKey(AnnotateAll(t, observer, if SlotElevation(t, observer, head) >= minElevation then [head] else []), ElevationKey, e)
         == if minElevation <= e then WithKey([Annotate(t, observer, head)], ElevationKey, e) else []
  {
    WithKeySingleton(Annotate(t, observer, head), ElevationKey, e);
    if SlotElevation(t, observer, head) >= minElevation {
      assert AnnotateAll(t, observer, [head]) == [Annotate(t, observer, head)];
    } else {
      assert AnnotateAll(t, observer, []) == [];
    }
  }

  /** Annotating after the threshold filter keeps, for each elevation at or above it, all the records of that elevation. */
  lemma {:induction false} KeptWithKey(t: Trig, catalog: seq<Satellite>, observer: GeoCoordinate, minElevation: real, e: real)
    ensures WithKey(AnnotateAll(t, observer, KeepAbove(t, catalog, observer, minElevation)), ElevationKey, e)
         == if minElevation <= e then WithKey(AnnotateAll(t, observer, catalog), ElevationKey, e) else []
  {
    if catalog != [] {
      var head, rest := catalog[0], catalog[1..];
      var front := if SlotElevation(t, observer, head) >= minElevation then [head] else [];
      var keptRest := KeepAbove(t, rest, observer, minElevation);
      assert KeepAbove(t, catalog, observer, minElevation) == front + keptRest;
      AnnotateAllAppend(t, observer, front, keptRest);
      WithKeyAppend(AnnotateAll(t, observer, front), AnnotateAll(t, observer, keptRest), ElevationKey, e);
      KeptWithKey(t, rest, observer, minElevation, e);
      FrontWithKey(t, observer, head, minElevation, e);
      assert AnnotateAll(t, observer, catalog) == [Annotate(t, observer, head)] + AnnotateAll(t, observer, rest);
      WithKeyAppend([Annotate(t, observer, head)], AnnotateAll(t, observer, rest), ElevationKey, e);
    }
  }

  /** Every record the filter and the annotation produce carries an elevation at or above the threshold. */
  lemma AnnotatedReachThreshold(t: Trig, catalog: seq<Satellite>, observer: GeoCoordinate, minElevation: real)
    ensures forall i :: 0 <= i < |AnnotateAll(t, observer, KeepAbove(t, catalog, observer, minElevation))| ==>
      var x := AnnotateAll(t, observer, KeepAbove(t, catalog, observer, minElevation))[i];
      x.elevation.Some? && minElevation <= x.elevation.value
  {
  }

  /** On annotated records, descending by ElevationKey is descending by elevation. */
  lemma KeyOrderIsElevationOrder(s: seq<Satellite>)
    requires forall i :: 0 <= i < |s| ==> s[i].elevation.Some?
    requires SortedDescendingBy(s, ElevationKey)
    ensures forall i, j :: 0 <= i < j < |s| ==> s[j].elevation.value <= s[i].elevation.value
  {
    forall i, j | 0 <= i < j < |s|
      ensures s[j].elevation.value <= s[i].elevation.value
    {
      assert ElevationKey(s[j]) <= ElevationKey(s[i]);
    }
  }

  /**
   The satellites visible from `observer` at or above `minElevation`: the
   catalog entries that pass the threshold, each annotated with its elevation,
   sorted by descending elevation.
   */
  function Visible(t: Trig, catalog: seq<Satellite>, observer: GeoCoordinate, minElevation: real): (visible: seq<Satellite>)
    ensures |visible| <= |catalog|
    ensures forall i :: 0 <= i < |visible| ==> visible[i].elevation.Some? && minElevation <= visible[i].elevation.value
    ensures forall i, j :: 0 <= i < j < |visible| ==> visible[j].elevation.value <= visible[i].elevation.value
    ensures multiset(visible) == multiset(AnnotateAll(t, observer, KeepAbove(t, catalog, observer, minElevation)))
  {
    var annotated := AnnotateAll(t, observer, KeepAbove(t, catalog, observer, minElevation));
    var visible := SortDescendingBy(annotated, ElevationKey);
    assert |visible| == |annotated| by {
      assert |visible| == |multiset(visible)| == |multiset(annotated)| == |annotated|;
    }
    var reaches := (x: Satellite) => x.elevation.Some? && minElevation <= x.elevation.value;
    AnnotatedReachThreshold(t, catalog, observer, minElevation);
    SortKeepsEvery(annotated, ElevationKey, reaches);
    SortIsSorted(annotated, ElevationKey);
    KeyOrderIsElevationOrder(visible);
    visible
  }

  /** An annotated record after the filter is the annotated copy of a catalog entry that reaches the threshold. */
  lemma AnnotatedFromCatalog(t: Trig, catalog: seq<Satellite>, observer: GeoCoordinate, minElevation: real, j: int)
    requires 0 <= j < |KeepAbove(t, catalog, observer, minElevation)|
    ensures exists k :: 0 <= k < |catalog| && SlotElevation(t, observer, catalog[k]) >= minElevation
                        && AnnotateAll(t, observer, KeepAbove(t, catalog, observer, minElevation))[j] == Annotate(t, observer, catalog[k])
  {
    var kept := KeepAbove(t, catalog, observer, minElevation);
    KeepAboveMembership(t, catalog, observer, minElevation, kept[j]);
    var k :| 0 <= k < |catalog| && catalog[k] == kept[j];
    assert AnnotateAll(t, observer, kept)[j] == Annotate(t, observer, catalog[k]);
  }

  /** The annotated copy of a catalog entry that reaches the threshold is among the annotated records after the filter. */
  lemma CatalogToAnnotated(t: Trig, catalog: seq<Satellite>, observer: GeoCoordinate, minElevation: real, k: int)
    requires 0 <= k < |catalog| && SlotElevation(t, observer, catalog[k]) >= minElevation
    ensures Annotate(t, observer, catalog[k]) in AnnotateAll(t, observer, KeepAbove(t, catalog, observer, minElevation))
  {
    var kept := KeepAbove(t, catalog, observer, minElevation);
    KeepAboveMembership(t, catalog, observer, minElevation, catalog[k]);
    var j :| 0 <= j < |kept| && kept[j] == catalog[k];
    assert AnnotateAll(t, observer, kept)[j] == Annotate(t, observer, catalog[k]);
  }

  /**
   A record is returned exactly when it is the annotated copy of a catalog
   entry whose elevation reaches the threshold.
   */
  lemma VisibleMembership(t: Trig, catalog: seq<Satellite>, observer: GeoCoordinate, minElevation: real, r: Satellite)
    ensures r in Visible(t, catalog, observer, minElevation) <==>
      exists k :: 0 <= k < |catalog| && SlotElevation(t, observer, catalog[k]) >= minElevation
                  && r == Annotate(t, observer, catalog[k])
  {
    var annotated := AnnotateAll(t, observer, KeepAbove(t, catalog, observer, minElevation));
    assert r in Visible(t, catalog, observer, minElevation) <==> r in annotated by {
      assert r in Visible(t, catalog, observer, minElevation) <==> r in multiset(annotated);
    }
    if r in annotated {
      var j :| 0 <= j < |annotated| && annotated[j] == r;
      AnnotatedFromCatalog(t, catalog, observer, minElevation, j);
    }
    if exists k :: 0 <= k < |catalog| && SlotElevation(t, observer, catalog[k]) >= minElevation
                   && r == Annotate(t, observer, catalog[k]) {
      var k :| 0 <= k < |catalog| && SlotElevation(t, observer, catalog[k]) >= minElevation
               && r == Annotate(t, observer, catalog[k]);
      CatalogToAnnotated(t, catalog, observer, minElevation, k);
    }
  }

  /**
   Ties keep catalog order: the returned records of any elevation at or
   above the threshold are the annotated catalog entries of that elevation,
   in catalog order, and there are none below it.
   */
  lemma VisibleTiesInCatalogOrder(t: Trig, catalog: seq<Satellite>, observer: GeoCoordinate, minElevation: real, e: real)
    ensures WithKey(Visible(t, catalog, observer, minElevation), ElevationKey, e)
         == if minElevation <= e then WithKey(AnnotateAll(t, observer, catalog), ElevationKey, e) else []
  {
    var annotated := AnnotateAll(t, observer, KeepAbove(t, catalog, observer, minElevation));
    SortIsStable(annotated, ElevationKey, e);
    KeptWithKey(t, catalog, observer, minElevation, e);
  }

  /** An empty catalog gives an empty result. */
  lemma VisibleOfEmpty(t: Trig, observer: GeoCoordinate, minElevation: real)
    ensures Visible(t, [], observer, minElevation) == []
  {
  }

  /** With a threshold above -90, no below-horizon satellite (the -90 sentinel) is returned. */
  lemma VisibleExcludesBelowHorizon(t: Trig, catalog: seq<Satellite>, observer: GeoCoordinate, minElevation: real)
    requires BelowHorizon < minElevation
    ensures forall i :: 0 <= i < |Visible(t, catalog, observer, minElevation)| ==>
      Visible(t, catalog, observer, minElevation)[i].elevation != Some(BelowHorizon)
  {
  }

  /** No elevation exceeds 90, so a threshold above 90 leaves nothing visible. */
  lemma VisibleAboveZenithIsEmpty(t: Trig, catalog: seq<Satellite>, observer: GeoCoordinate, minElevation: real)
    requires 90.0 < minElevation
    ensures Visible(t, catalog, observer, minElevation) == []
  {
  }

  /** A record occurring at two positions occurs at least twice in the multiset. */
  lemma RepeatedElementCount(s: seq<Satellite>, i: int, j: int)
    requires 0 <= i < j < |s| && s[i] == s[j]
    ensures multiset(s)[s[i]] >= 2
  {
    assert s == s[..j] + [s[j]] + s[j + 1..];
    assert s[i] in s[..j];
  }

  /** With distinct NORAD numbers no record occurs twice. */
  lemma {:induction false} DistinctIdsCountOnce(s: seq<Satellite>, x: Satellite)
    requires DistinctIds(s)
    ensures multiset(s)[x] <= 1
  {
    if s != [] {
      assert s == [s[0]] + s[1..];
      DistinctIdsCountOnce(s[1..], x);
    }
  }

  lemma {:induction false} KeepAboveKeepsIdsDistinct(t: Trig, catalog: seq<Satellite>, observer: GeoCoordinate, minElevation: real)
    requires DistinctIds(catalog)
    ensures DistinctIds(KeepAbove(t, catalog, observer, minElevation))
  {
    if catalog != [] {
      var rest := KeepAbove(t, catalog[1..], observer, minElevation);
      KeepAboveKeepsIdsDistinct(t, catalog[1..], observer, minElevation);
      if SlotElevation(t, observer, catalog[0]) >= minElevation {
        var kept := [catalog[0]] + rest;
        forall i, j | 0 <= i < j < |kept|
          ensures kept[i].noradId != kept[j].noradId
        {
          if i == 0 {
            KeepAboveMembership(t, catalog[1..], observer, minElevation, kept[j]);
            var k :| 0 <= k < |catalog[1..]| && catalog[1..][k] == kept[j];
            assert catalog[k + 1] == kept[j];
          } else {
            assert kept[i] == rest[i - 1] && kept[j] == rest[j - 1];
          }
        }
      }
    }
  }

  /**
   When the catalog's NORAD numbers are distinct, so are those of the
   result: no satellite is returned twice.
   */
  lemma VisibleKeepsIdsDistinct(t: Trig, catalog: seq<Satellite>, observer: GeoCoordinate, minElevation: real)
    requires DistinctIds(catalog)
    ensures DistinctIds(Visible(t, catalog, observer, minElevation))
  {
    var kept := KeepAbove(t, catalog, observer, minElevation);
    var annotated := AnnotateAll(t, observer, kept);
    var visible := Visible(t, catalog, observer, minElevation);
    KeepAboveKeepsIdsDistinct(t, catalog, observer, minElevation);
    assert DistinctIds(annotated);
    forall i, j | 0 <= i < j < |visible|
      ensures visible[i].noradId != visible[j].noradId
    {
      if visible[i].noradId == visible[j].noradId {
        assert visible[i] in multiset(annotated) && visible[j] in multiset(annotated);
        var p :| 0 <= p < |annotated| && annotated[p] == visible[i];
        var q :| 0 <= q < |annotated| && annotated[q] == visible[j];
        if p == q {
          RepeatedElementCount(visible, i, j);
          DistinctIdsCountOnce(annotated, visible[i]);
          assert false;
        } else {
          assert false;
        }
      }
    }
  }

  /** Over the fixed catalog at most 20 satellites are visible, each with a distinct NORAD number. */
  lemma VisibleFromCatalog(t: Trig, observer: GeoCoordinate, minElevation: real)
    ensures |Visible(t, Satellites, observer, minElevation)| <= 20
    ensures DistinctIds(Visible(t, Satellites, observer, minElevation))
  {
    CatalogSize();
    CatalogIdsDistinct();
    VisibleKeepsIdsDistinct(t, Satellites, observer, minElevation);
  }
}
