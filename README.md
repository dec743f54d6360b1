# Vessel track loading — a Dafny model of `load_track_data`

The application serves a map of sailing tracks. Its only logic is
`load_track_data` in `app.py`. That function:

- picks the track files named `export *.json` and opens them in sorted name order;
- turns every JSON record of a file into a point carrying `lat`, `lon`, `utc`, `sog` and `cog`;
- builds one `{name, points}` track per file;
- pools every `(lat, lon)` pair and computes a bounding box with a midpoint centre, or no box when there is no point at all.

This project models that function in Dafny and proves what it promises.

Modules, one per concern:

- `wrappers.dfy` (`Wrappers`): `Option` with `GetOr` (Python's `dict.get` with a default), and `Result` for a load that aborts.
- `track_model.dfy` (`TrackModel`): the data.
  - `Record` is a raw JSON record whose fields may be absent. `Point`, `Track`, `Coord` and `DirEntry` (a file name with its parsed content) complete the data.
  - The defaulting rules are the relation `IsPointOf`.
  - The coordinate pool is `AllCoords`: the tracks' `(lat, lon)` pairs, track after track.
- `selection.dfy` (`Selection`): `sorted(glob.glob("export *.json"))`.
  - `IsTrackFileName` is the glob pattern as a string test.
  - `NameLe` is Python's string order.
  - `SelectTrackFiles` filters the listing, then sorts it by insertion.
- `bounds.dfy` (`TrackBounds`): the bounds.
  - `Min` and `Max` are Python's left-to-right `min`/`max`.
  - `ComputeBounds` is proved to give the unique tight box (`IsTightBox`), or `None` for an empty pool.
  - The bounds are proved not to depend on the order of tracks or points.
- `loader.dfy` (`Loader`): the imperative part.
  - `LoadTrack` is one pass of the outer loop: it checks the file's content, runs the inner loop over the records, and appends each point and each pool entry.
  - `LoadFiles` is the outer loop over the selected files, followed by the bounds.
  - `LoadTrackData` composes the selection with `LoadFiles`.
  - Both loops are proved against the specification predicates `IsLoadOf` (success) and `IsFirstFailure` (the first defect in load order).

Inputs the program gets from the operating system become parameters.
The directory listing, with each file's parsed JSON content, is a
`seq<DirEntry>`. A `DirEntry`'s `content` is `None` when `json.load` rejects
the file, or when iterating its top-level value or indexing one of the
iterated items would raise. A value that iterates to nothing (an empty list,
object or string) is `Some([])`. A record's `lat`/`lon` is
`None` when the key is missing or `float(...)` cannot convert the value.

## Model

| member | source | states |
|---|---|---|
| `TrackModel.PointExistsIffPosition` | app.py:19-27 | a record can be normalised into a point exactly when it carries both `lat` and `lon` |
| `TrackModel.PointOfIsUnique` | app.py:21-27 | the defaulting rules determine the point: a record has at most one normalised point |
| `TrackModel.ReloadServedPoint` | app.py:21-27 | a point written back as a record with every key present normalises to itself and to nothing else |
| `TrackModel.CoordsAt` | app.py:28 | a track's pool entries are its points' `(lat, lon)` pairs, one per point, in order |
| `TrackModel.AllCoordsLength` | app.py:28 | the pool's length is the sum of the track lengths |
| `TrackModel.AllCoordsEmpty` | app.py:35 | the pool is empty exactly when every track is empty |
| `TrackModel.AllCoordsMembership` | app.py:28 | a pair is in the pool exactly when it is the position of a point on some track |
| `Selection.TrackFileNameIsGlobMatch` | app.py:10 | the string test accepts exactly the names `"export " + middle + ".json"` that the glob pattern matches |
| `Selection.NameLeReflexive` | app.py:10 | the string order used by `sorted` is reflexive |
| `Selection.NameLeTotal` | app.py:10 | any two names are comparable in that order |
| `Selection.NameLeTransitive` | app.py:10 | that order is transitive |
| `Selection.NameLeAntisymmetric` | app.py:10 | two names each ordered before the other are equal |
| `Selection.MatchingEntries` | app.py:10 | an entry is kept exactly when it is in the listing and its name matches the pattern; nothing is invented |
| `Selection.Insert` | app.py:10 | inserting into a sorted list keeps it sorted and adds exactly the one entry |
| `Selection.SortByName` | app.py:10 | `sorted` yields an ascending permutation of its input |
| `Selection.SelectTrackFiles` | app.py:10 | the opened files are sorted by name, are a permutation of the matching entries, and are exactly the listing's entries whose names match |
| `Selection.SelectionIsDetermined` | app.py:10 | with distinct directory names, the selection is the only sorted arrangement of the matching entries |
| `TrackBounds.Min` | app.py:39-41 | `min` returns an element of the list that is at most every element |
| `TrackBounds.Max` | app.py:39-42 | `max` returns an element of the list that is at least every element |
| `TrackBounds.ComputeBounds` | app.py:34-47 | the bounds are `None` exactly when the pool is empty; otherwise every pair lies in the box, each of the four edges is touched by some pair, and each centre lies in its range equally far from both edges |
| `TrackBounds.TightBoxUnique` | app.py:36-44 | at most one box encloses the pool, touches all four edges and is centred, so the bounds are fully determined by the pool |
| `TrackBounds.BoundsDependOnlyOnCoordSet` | app.py:36-44 | two pools holding the same pairs have the same bounds |
| `TrackBounds.BoundsIgnoreCoordOrder` | app.py:36-44 | reordering the pool leaves the bounds unchanged |
| `TrackBounds.BoundsIgnoreTrackOrder` | app.py:14-44 | processing the tracks in another order gives the same bounds |
| `TrackBounds.BoundsIgnorePointOrder` | app.py:18-44 | reordering the points inside tracks gives the same bounds |
| `Loader.LoadTrack` | app.py:15-28 | one file loads exactly when its content is a list of records that all have coordinates. On success the track has the file's name and one normalised point per record, in order, and the pool grows by exactly those points' positions. On failure the error is the file's first defect |
| `Loader.LoadFiles` | app.py:11-49 | the load succeeds exactly when every selected file loads. On success there is one track per file in file order, and the bounds are those of the pool of all tracks. On failure the error is the first defect of the first failing file, since every earlier file loads |
| `Loader.LoadTrackData` | app.py:8-49 | the same, for the files that `sorted(glob("export *.json"))` selects from the listing |
| `Loader.FirstDefectIsDefect` | app.py:16-20 | a reported defect is real: the file it names does not load |
| `Loader.FirstDefectExists` | app.py:16-20 | every file that does not load has a first defect to report |
| `Loader.FirstDefectUnique` | app.py:16-20 | a file has only one first defect, so the reported error is determined |
| `Loader.FirstWithoutPosition` | app.py:18-20 | the first record without both coordinates, with all earlier records complete |
| `Loader.BoundsEncloseEveryPoint` | app.py:36-42 | when any track has a point, the bounds exist and every point of every track lies inside them |
| `Loader.BoundsAbsentIffNoPoints` | app.py:35-47 | the bounds are `None` exactly when no track has a point |

## Left out

- The Flask application is not modelled: `index`, `get_tracks`, `render_template`, `jsonify` and `app.run` (app.py:1-6, 51-66). They only wrap the load for HTTP.
- File system and parsing are parameters: `glob.glob`, `open` and `json.load` are replaced by the `seq<DirEntry>` listing. A name that matches the pattern but cannot be opened is not modelled. Neither is case-insensitive glob matching on Windows.
- Which error is reported when a file's list holds a non-object is only approximated. Python raises at that element. Such content is `None` in the model, which reports `MalformedContent` for the whole file. A top-level JSON object or string is iterated by Python: an empty one yields an empty track (`Some([])` here), and a non-empty one raises (`None` here).
- Error values carry the file name and record index so that "the first defect" can be stated. Python's `KeyError`/`ValueError` carries only the key or the offending text.
- `float(...)` conversion is not modelled: coordinates are `real`, and `None` stands for a missing or unconvertible value.
- Floating point is not modelled: coordinates are exact reals. Rounding in `(min + max) / 2` and NaN handling in `min`/`max` are out of scope.
- The defaults for `sog` and `cog` are the integer `0` in Python and `0.0` here. The value is the same; only the JSON spelling differs.
- `utc` may in Python be any JSON value. Here it is a string or absent.
- `sog` and `cog` are passed through unconverted in Python, so any JSON value, `null` or a string included, reaches the point unchanged. Here each is a real or absent, and only an absent key takes the default `0`.
- GPX parsing, bearing and distance estimation, and wind/rpm value ranges are not part of this model: `app.py` does not contain them.
- Per-file error isolation, where one bad file would not abort the others, is not modelled. The code aborts the whole load on the first bad record, and the model follows the code.
