/**
 * `load_track_data`: open the selected files in order, normalise every
 * record into a point, build one track per file, pool every coordinate and
 * compute the bounds over the pool.
 */
module Loader {
  import opened Wrappers
  import opened TrackModel
  import opened Selection
  import opened TrackBounds

  /** The pair `(all_tracks, bounds)` that a successful load returns. */
  datatype Loaded = Loaded(tracks: seq<Track>, bounds: Option<Bounds>)

  /** A file that loads without error: a list whose every record has both coordinates. */
  predicate Loadable(f: DirEntry) {
    f.content.Some? && forall j :: 0 <= j < |f.content.value| ==> HasPosition(f.content.value[j])
  }

  /** `t` is the track built from `f`: its name, and one normalised point per record, in order. */
  ghost predicate IsTrackOf(t: Track, f: DirEntry) {
    && t.name == f.name
    && f.content.Some?
    && |t.points| == |f.content.value|
    && forall j :: 0 <= j < |t.points| ==> IsPointOf(t.points[j], f.content.value[j])
  }

  /**
   * `e` reports the first thing in `f` that aborts the load: unreadable
   * content, or the first record without a latitude, or, when that record
   * has one, without a longitude (the latitude is read first).
   */
  ghost predicate IsFirstDefect(f: DirEntry, e: LoadError) {
    match e
    case MalformedContent(name) => name == f.name && f.content.None?
    case MissingCoordinate(name, j, field) =>
      && name == f.name
      && f.content.Some?
      && j < |f.content.value|
      && (forall k :: 0 <= k < j ==> HasPosition(f.content.value[k]))
      && (if field == Lat then f.content.value[j].lat.None?
          else f.content.value[j].lat.Some? && f.content.value[j].lon.None?)
  }

  /** Every selected file loads. */
  predicate AllLoadable(files: seq<DirEntry>) {
    forall i :: 0 <= i < |files| ==> Loadable(files[i])
  }

  /**
   * The body of the outer loop of `load_track_data` for one file: read its
   * records, then the inner loop over them, building the track's points and
   * appending each position to the coordinate pool.
   */
  method LoadTrack(file: DirEntry, pool: seq<Coord>) returns (outcome: Result<Track, LoadError>, newPool: seq<Coord>)
    ensures outcome.Success? <==> Loadable(file)
    ensures outcome.Success? ==>
      IsTrackOf(outcome.value, file) && newPool == pool + Coords(outcome.value.points)
    ensures outcome.Failure? ==> IsFirstDefect(file, outcome.error)
  {
    newPool := pool;
    if file.content.None? {
      outcome := Failure(MalformedContent(file.name));
      return;
    }
    var data := file.content.value;
    var track: seq<Point> := [];
    var j := 0;
    while j < |data|
      invariant 0 <= j <= |data|
      invariant forall k :: 0 <= k < j ==> HasPosition(data[k])
      invariant |track| == j
      invariant forall k :: 0 <= k < j ==> IsPointOf(track[k], data[k])
      invariant newPool == pool + Coords(track)
    {
      var point := data[j];
      if point.lat.None? {
        outcome := Failure(MissingCoordinate(file.name, j, Lat));
        return;
      }
      if point.lon.None? {
        outcome := Failure(MissingCoordinate(file.name, j, Lon));
        return;
      }
      var lat := point.lat.value;
      var lon := point.lon.value;
      var p := Point(lat, lon,
                     point.utc.GetOr(DefaultUtc),
                     point.sog.GetOr(DefaultSpeedOrCourse),
                     point.cog.GetOr(DefaultSpeedOrCourse));
      assert IsPointOf(p, data[j]);
      CoordsSnoc(track, p);
      ghost var before := track;
      track := track + [p];
      assert forall k :: 0 <= k < j ==> track[k] == before[k];
      newPool := newPool + [Coord(lat, lon)];
      j := j + 1;
    }
    outcome := Success(Track(file.name, track));
  }

  /**
   * `loaded` is what loading `files` returns: one track per file, in file
   * order, and the bounds of the pool of all their points.
   */
  ghost predicate IsLoadOf(loaded: Loaded, files: seq<DirEntry>) {
    && |loaded.tracks| == |files|
    && (forall i :: 0 <= i < |files| ==> IsTrackOf(loaded.tracks[i], files[i]))
    && loaded.bounds == ComputeBounds(AllCoords(loaded.tracks))
  }

  /** `e` reports the first defect of the first file of `files` that does not load. */
  ghost predicate IsFirstFailure(e: LoadError, files: seq<DirEntry>) {
    exists i :: 0 <= i < |files|
      && (forall k :: 0 <= k < i ==> Loadable(files[k]))
      && IsFirstDefect(files[i], e)
  }

  /** `load_track_data` from the directory listing: select the track files, then load them. */
  method LoadTrackData(dir: seq<DirEntry>) returns (result: Result<Loaded, LoadError>)
    ensures result.Success? <==> AllLoadable(SelectTrackFiles(dir))
    ensures result.Success? ==> IsLoadOf(result.value, SelectTrackFiles(dir))
    ensures result.Failure? ==> IsFirstFailure(result.error, SelectTrackFiles(dir))
  {
    var trackFiles := SelectTrackFiles(dir);
    result := LoadFiles(trackFiles);
  }

  /** The loop of `load_track_data` over the selected files, then the bounds over the pool. */
  method LoadFiles(trackFiles: seq<DirEntry>) returns (result: Result<Loaded, LoadError>)
    ensures result.Success? <==> AllLoadable(trackFiles)
    ensures result.Success? ==> IsLoadOf(result.value, trackFiles)
    ensures result.Failure? ==> IsFirstFailure(result.error, trackFiles)
  {
    var allTracks: seq<Track> := [];
    var allCoords: seq<Coord> := [];
    var i := 0;
    while i < |trackFiles|
      invariant 0 <= i <= |trackFiles|
      invariant AllLoadable(trackFiles[..i])
      invariant |allTracks| == i
      invariant forall k :: 0 <= k < i ==> IsTrackOf(allTracks[k], trackFiles[k])
      invariant allCoords == AllCoords(allTracks)
    {
      var outcome;
      outcome, allCoords := LoadTrack(trackFiles[i], allCoords);
      if outcome.Failure? {
        result := Failure(outcome.error);
        FirstDefectIsDefect(trackFiles[i], result.error);
        assert forall k :: 0 <= k < i ==> trackFiles[..i][k] == trackFiles[k];
        assert IsFirstDefect(trackFiles[i], result.error);
        return;
      }
      assert trackFiles[..i + 1] == trackFiles[..i] + [trackFiles[i]];
      var track := outcome.value;
      AllCoordsSnoc(allTracks, track);
      ghost var built := allTracks;
      allTracks := allTracks + [track];
      assert forall k :: 0 <= k < i ==> allTracks[k] == built[k];
      i := i + 1;
    }
    assert trackFiles[..i] == trackFiles;
    var bounds := ComputeBounds(allCoords);
    result := Success(Loaded(allTracks, bounds));
  }

  /** A reported defect is a real one: the file it names does not load. */
  lemma FirstDefectIsDefect(f: DirEntry, e: LoadError)
    requires IsFirstDefect(f, e)
    ensures !Loadable(f)
  {
  }

  /** Every file that does not load has exactly one first defect. */
  lemma {:induction false} FirstDefectExists(f: DirEntry)
    requires !Loadable(f)
    ensures exists e :: IsFirstDefect(f, e)
  {
    if f.content.None? {
      assert IsFirstDefect(f, MalformedContent(f.name));
    } else {
      var recs := f.content.value;
      var j := FirstWithoutPosition(recs);
      var field := if recs[j].lat.None? then Lat else Lon;
      assert IsFirstDefect(f, MissingCoordinate(f.name, j, field));
    }
  }

  /** Index of the first record lacking a coordinate. */
  function FirstWithoutPosition(recs: seq<Record>): (j: nat)
    requires exists k :: 0 <= k < |recs| && !HasPosition(recs[k])
    ensures j < |recs| && !HasPosition(recs[j])
    ensures forall k :: 0 <= k < j ==> HasPosition(recs[k])
  {
    if !HasPosition(recs[0]) then 0
    else
      var k :| 0 <= k < |recs| && !HasPosition(recs[k]);
      assert recs[1..][k - 1] == recs[k];
      1 + FirstWithoutPosition(recs[1..])
  }

  lemma FirstDefectUnique(f: DirEntry, e1: LoadError, e2: LoadError)
    requires IsFirstDefect(f, e1) && IsFirstDefect(f, e2)
    ensures e1 == e2
  {
  }

  /** Every point of every track lies inside the bounds of the pool. */
  lemma BoundsEncloseEveryPoint(tracks: seq<Track>, i: nat, j: nat)
    requires i < |tracks| && j < |tracks[i].points|
    ensures ComputeBounds(AllCoords(tracks)).Some?
    ensures var b, p := ComputeBounds(AllCoords(tracks)).value, tracks[i].points[j];
      b.minLat <= p.lat <= b.maxLat && b.minLon <= p.lon <= b.maxLon
  {
    var p := tracks[i].points[j];
    assert tracks[i] in tracks && p in tracks[i].points;
    AllCoordsMembership(tracks, CoordOf(p));
  }

  /** The bounds are absent exactly when no track has a point. */
  lemma BoundsAbsentIffNoPoints(tracks: seq<Track>)
    ensures ComputeBounds(AllCoords(tracks)).None? <==> forall i :: 0 <= i < |tracks| ==> tracks[i].points == []
  {
    AllCoordsEmpty(tracks);
  }
}
