/**
 * The values `load_track_data` reads and builds: raw JSON records, the
 * normalised points and tracks it returns, and the coordinate pool it
 * aggregates over.
 */
module TrackModel {
  import opened Wrappers

  /**
   * One element of a track file's JSON array. A field is `None` when its key
   * is missing; for `lat` and `lon` it is also `None` when the value cannot be
   * converted by `float(...)`. `utc`, `sog` and `cog` are passed through
   * unconverted, so their values are limited here to a string and reals.
   */
  datatype Record = Record(
    lat: Option<real>,
    lon: Option<real>,
    utc: Option<string>,
    sog: Option<real>,
    cog: Option<real>)

  /** A normalised point, as placed in a track's `points` list. */
  datatype Point = Point(lat: real, lon: real, utc: string, sog: real, cog: real)

  /** One `{name, points}` entry of `all_tracks`. */
  datatype Track = Track(name: string, points: seq<Point>)

  /** One `[lat, lon]` entry of `all_coords`. */
  datatype Coord = Coord(lat: real, lon: real)

  /**
   * A directory entry with its parsed content. `content` is `None` when
   * `json.load` rejects the file, or when iterating its top-level value or
   * indexing one of the iterated items would raise; a value that iterates to
   * nothing (an empty list, object or string) is `Some([])`.
   */
  datatype DirEntry = DirEntry(name: string, content: Option<seq<Record>>)

  datatype CoordField = Lat | Lon

  /** Why a load aborts. */
  datatype LoadError =
    | MalformedContent(file: string)
    | MissingCoordinate(file: string, index: nat, field: CoordField)

  /** Default of the `utc` key. */
  const DefaultUtc: string := ""
  /** Default of the `sog` and `cog` keys. */
  const DefaultSpeedOrCourse: real := 0.0

  /** A record from which a point can be built: both coordinates are present. */
  predicate HasPosition(r: Record) {
    r.lat.Some? && r.lon.Some?
  }

  /**
   * The defaulting rules: `p` is the point normalised from `r` when it carries
   * the record's coordinates, and the record's `utc`, `sog` and `cog` or their
   * defaults where the record lacks them.
   */
  ghost predicate IsPointOf(p: Point, r: Record) {
    && r.lat == Some(p.lat)
    && r.lon == Some(p.lon)
    && (if r.utc.Some? then p.utc == r.utc.value else p.utc == DefaultUtc)
    && (if r.sog.Some? then p.sog == r.sog.value else p.sog == DefaultSpeedOrCourse)
    && (if r.cog.Some? then p.cog == r.cog.value else p.cog == DefaultSpeedOrCourse)
  }

  /** The JSON object a point is served as: every key present. */
  function AsRecord(p: Point): Record {
    Record(Some(p.lat), Some(p.lon), Some(p.utc), Some(p.sog), Some(p.cog))
  }

  /**
   * Serving a point and loading it again gives the same point back, and the
   * record of a point is one it could have been normalised from.
   */
  lemma ReloadServedPoint(p: Point, q: Point)
    ensures HasPosition(AsRecord(p)) && IsPointOf(p, AsRecord(p))
    ensures IsPointOf(q, AsRecord(p)) <==> q == p
  {
  }

  /** Normalisation is a function: a record has at most one point. */
  lemma PointOfIsUnique(p: Point, q: Point, r: Record)
    requires IsPointOf(p, r) && IsPointOf(q, r)
    ensures p == q
  {
  }

  /** A record has a point exactly when it has both coordinates. */
  lemma PointExistsIffPosition(r: Record)
    ensures HasPosition(r) <==> exists p :: IsPointOf(p, r)
  {
    if HasPosition(r) {
      var p := Point(r.lat.value, r.lon.value, r.utc.GetOr(DefaultUtc),
                     r.sog.GetOr(DefaultSpeedOrCourse), r.cog.GetOr(DefaultSpeedOrCourse));
      assert IsPointOf(p, r);
    }
  }

  function CoordOf(p: Point): Coord {
    Coord(p.lat, p.lon)
  }

  /** The `(lat, lon)` pairs of a point list, in order. */
  function Coords(points: seq<Point>): (cs: seq<Coord>)
    decreases |points|
  {
    if points == [] then []
    else Coords(points[..|points| - 1]) + [CoordOf(points[|points| - 1])]
  }

  /** The coordinate pool: every track's `(lat, lon)` pairs, track after track. */
  function AllCoords(tracks: seq<Track>): (cs: seq<Coord>)
    decreases |tracks|
  {
    if tracks == [] then []
    else AllCoords(tracks[..|tracks| - 1]) + Coords(tracks[|tracks| - 1].points)
  }

  /** Number of points over all tracks. */
  function TotalPoints(tracks: seq<Track>): nat
    decreases |tracks|
  {
    if tracks == [] then 0
    else TotalPoints(tracks[..|tracks| - 1]) + |tracks[|tracks| - 1].points|
  }

  /** `Coords` keeps length and order: the k-th pair is the k-th point's position. */
  lemma {:induction false} CoordsAt(points: seq<Point>)
    ensures |Coords(points)| == |points|
    ensures forall k :: 0 <= k < |points| ==> Coords(points)[k] == CoordOf(points[k])
    decreases |points|
  {
    if points != [] {
      CoordsAt(points[..|points| - 1]);
    }
  }

  /** Appending a point appends its position. */
  lemma CoordsSnoc(points: seq<Point>, p: Point)
    ensures Coords(points + [p]) == Coords(points) + [CoordOf(p)]
  {
  }

  /** Appending a track appends its positions. */
  lemma AllCoordsSnoc(tracks: seq<Track>, t: Track)
    ensures AllCoords(tracks + [t]) == AllCoords(tracks) + Coords(t.points)
  {
  }

  /** The pool holds exactly one pair per point: its length is the sum of the track lengths. */
  lemma {:induction false} AllCoordsLength(tracks: seq<Track>)
    ensures |AllCoords(tracks)| == TotalPoints(tracks)
    decreases |tracks|
  {
    if tracks != [] {
      AllCoordsLength(tracks[..|tracks| - 1]);
      CoordsAt(tracks[|tracks| - 1].points);
    }
  }

  /** The pool is empty exactly when every track is empty. */
  lemma {:induction false} AllCoordsEmpty(tracks: seq<Track>)
    ensures AllCoords(tracks) == [] <==> forall i :: 0 <= i < |tracks| ==> tracks[i].points == []
    decreases |tracks|
  {
    if tracks != [] {
      var init, last := tracks[..|tracks| - 1], tracks[|tracks| - 1];
      AllCoordsEmpty(init);
      CoordsAt(last.points);
      assert forall i :: 0 <= i < |init| ==> init[i] == tracks[i];
    }
  }

  /** A point's position lies on some track. */
  ghost predicate OnSomeTrack(tracks: seq<Track>, c: Coord) {
    exists t, p :: t in tracks && p in t.points && CoordOf(p) == c
  }

  /** The pool holds the positions of the points of the tracks, and nothing else. */
  lemma {:induction false} AllCoordsMembership(tracks: seq<Track>, c: Coord)
    ensures c in AllCoords(tracks) <==> OnSomeTrack(tracks, c)
    decreases |tracks|
  {
    if tracks != [] {
      var init, last := tracks[..|tracks| - 1], tracks[|tracks| - 1];
      AllCoordsMembership(init, c);
      CoordsAt(last.points);
      assert tracks == init + [last];
      if c in Coords(last.points) {
        var k :| 0 <= k < |last.points| && Coords(last.points)[k] == c;
        assert last in tracks && last.points[k] in last.points;
      }
      if OnSomeTrack(tracks, c) {
        var t, p :| t in tracks && p in t.points && CoordOf(p) == c;
        if t != last {
          assert t in init;
        } else {
          var k :| 0 <= k < |last.points| && last.points[k] == p;
          assert Coords(last.points)[k] == c;
        }
      }
    }
  }
}
