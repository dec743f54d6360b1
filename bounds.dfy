/**
 * The bounding box `load_track_data` computes over the coordinate pool:
 * min and max of the latitudes and longitudes and the midpoint centre,
 * or no box at all when there is no point.
 */
module TrackBounds {
  import opened Wrappers
  import opened TrackModel

  datatype Bounds = Bounds(
    minLat: real, maxLat: real,
    minLon: real, maxLon: real,
    centerLat: real, centerLon: real)

  /** Python's `min`: scan left to right, replacing the best so far by a strictly smaller item. */
  function Min(xs: seq<real>): (m: real)
    requires |xs| > 0
    ensures m in xs
    ensures forall k :: 0 <= k < |xs| ==> m <= xs[k]
    decreases |xs|
  {
    if |xs| == 1 then xs[0]
    else
      var best := Min(xs[..|xs| - 1]);
      assert forall k :: 0 <= k < |xs| - 1 ==> xs[..|xs| - 1][k] == xs[k];
      if xs[|xs| - 1] < best then xs[|xs| - 1] else best
  }

  /** Python's `max`: scan left to right, replacing the best so far by a strictly larger item. */
  function Max(xs: seq<real>): (m: real)
    requires |xs| > 0
    ensures m in xs
    ensures forall k :: 0 <= k < |xs| ==> xs[k] <= m
    decreases |xs|
  {
    if |xs| == 1 then xs[0]
    else
      var best := Max(xs[..|xs| - 1]);
      assert forall k :: 0 <= k < |xs| - 1 ==> xs[..|xs| - 1][k] == xs[k];
      if xs[|xs| - 1] > best then xs[|xs| - 1] else best
  }

  /** Every coordinate lies inside the box. */
  ghost predicate Encloses(b: Bounds, coords: seq<Coord>) {
    forall c :: c in coords ==>
      b.minLat <= c.lat <= b.maxLat && b.minLon <= c.lon <= b.maxLon
  }

  /** Each of the four edges of the box is touched by some coordinate. */
  ghost predicate EdgesAttained(b: Bounds, coords: seq<Coord>) {
    && (exists c :: c in coords && c.lat == b.minLat)
    && (exists c :: c in coords && c.lat == b.maxLat)
    && (exists c :: c in coords && c.lon == b.minLon)
    && (exists c :: c in coords && c.lon == b.maxLon)
  }

  /** The centre lies inside the box, equally far from opposite edges. */
  ghost predicate Centred(b: Bounds) {
    && b.minLat <= b.centerLat <= b.maxLat
    && b.centerLat - b.minLat == b.maxLat - b.centerLat
    && b.minLon <= b.centerLon <= b.maxLon
    && b.centerLon - b.minLon == b.maxLon - b.centerLon
  }

  /** The tightest box around the coordinates, with its midpoint. */
  ghost predicate IsTightBox(b: Bounds, coords: seq<Coord>) {
    Encloses(b, coords) && EdgesAttained(b, coords) && Centred(b)
  }

  /** The `bounds` value: absent without points, otherwise the tight box. */
  function ComputeBounds(coords: seq<Coord>): (b: Option<Bounds>)
    ensures b.None? <==> coords == []
    ensures b.Some? ==> IsTightBox(b.value, coords)
  {
    if |coords| > 0 then
      var lats := seq(|coords|, k requires 0 <= k < |coords| => coords[k].lat);
      var lons := seq(|coords|, k requires 0 <= k < |coords| => coords[k].lon);
      var b := Bounds(
        Min(lats), Max(lats),
        Min(lons), Max(lons),
        (Min(lats) + Max(lats)) / 2.0,
        (Min(lons) + Max(lons)) / 2.0);
      TightFromExtremes(b, coords, lats, lons);
      Some(b)
    else
      None
  }

  lemma TightFromExtremes(b: Bounds, coords: seq<Coord>, lats: seq<real>, lons: seq<real>)
    requires |coords| > 0 && |lats| == |coords| && |lons| == |coords|
    requires forall k :: 0 <= k < |coords| ==> lats[k] == coords[k].lat && lons[k] == coords[k].lon
    requires b.minLat == Min(lats) && b.maxLat == Max(lats)
    requires b.minLon == Min(lons) && b.maxLon == Max(lons)
    requires b.centerLat == (b.minLat + b.maxLat) / 2.0
    requires b.centerLon == (b.minLon + b.maxLon) / 2.0
    ensures IsTightBox(b, coords)
  {
  }

  /** The tight box of a set of coordinates is unique. */
  lemma TightBoxUnique(b1: Bounds, b2: Bounds, coords: seq<Coord>)
    requires IsTightBox(b1, coords) && IsTightBox(b2, coords)
    ensures b1 == b2
  {
  }

  /** The bounds depend only on which coordinates occur, not on their order or repetition. */
  lemma BoundsDependOnlyOnCoordSet(a: seq<Coord>, b: seq<Coord>)
    requires forall c :: c in a <==> c in b
    ensures ComputeBounds(a) == ComputeBounds(b)
  {
    if a != [] {
      assert a[0] in b;
      var ba, bb := ComputeBounds(a).value, ComputeBounds(b).value;
      assert IsTightBox(ba, b);
      TightBoxUnique(ba, bb, b);
    }
  }

  /** Reordering the coordinate pool leaves the bounds unchanged. */
  lemma BoundsIgnoreCoordOrder(a: seq<Coord>, b: seq<Coord>)
    requires multiset(a) == multiset(b)
    ensures ComputeBounds(a) == ComputeBounds(b)
  {
    forall c ensures c in a <==> c in b {
      assert c in a <==> c in multiset(a);
      assert c in b <==> c in multiset(b);
    }
    BoundsDependOnlyOnCoordSet(a, b);
  }

  /** Reordering the tracks leaves the bounds unchanged. */
  lemma BoundsIgnoreTrackOrder(ts1: seq<Track>, ts2: seq<Track>)
    requires multiset(ts1) == multiset(ts2)
    ensures ComputeBounds(AllCoords(ts1)) == ComputeBounds(AllCoords(ts2))
  {
    forall c ensures c in AllCoords(ts1) <==> c in AllCoords(ts2) {
      AllCoordsMembership(ts1, c);
      AllCoordsMembership(ts2, c);
      forall t | t in ts1 ensures t in ts2 {
        assert t in multiset(ts1);
      }
      forall t | t in ts2 ensures t in ts1 {
        assert t in multiset(ts2);
      }
    }
    BoundsDependOnlyOnCoordSet(AllCoords(ts1), AllCoords(ts2));
  }

  /** Reordering the points inside each track leaves the bounds unchanged. */
  lemma BoundsIgnorePointOrder(ts1: seq<Track>, ts2: seq<Track>)
    requires |ts1| == |ts2|
    requires forall i :: 0 <= i < |ts1| ==> multiset(ts1[i].points) == multiset(ts2[i].points)
    ensures ComputeBounds(AllCoords(ts1)) == ComputeBounds(AllCoords(ts2))
  {
    forall c ensures c in AllCoords(ts1) <==> c in AllCoords(ts2) {
      AllCoordsMembership(ts1, c);
      AllCoordsMembership(ts2, c);
      if OnSomeTrack(ts1, c) {
        var t, p :| t in ts1 && p in t.points && CoordOf(p) == c;
        var i :| 0 <= i < |ts1| && ts1[i] == t;
        assert p in multiset(ts2[i].points);
        assert ts2[i] in ts2;
      }
      if OnSomeTrack(ts2, c) {
        var t, p :| t in ts2 && p in t.points && CoordOf(p) == c;
        var i :| 0 <= i < |ts2| && ts2[i] == t;
        assert p in multiset(ts1[i].points);
        assert ts1[i] in ts1;
      }
    }
    BoundsDependOnlyOnCoordSet(AllCoords(ts1), AllCoords(ts2));
  }
}
