# LogMyGsm waypoint store and map sources, in Dafny

This project models the waypoint store of the LogMyGsm Android map logger and
the table of map tile sources it draws from, and proves what these promise.

**The waypoint store (`Landmarks`).** The store is an ordered list of
user-placed markers. Each marker is a projected `Merc28` coordinate (two Java
`int`s) plus an `alive` flag. The store supports these operations:

- `add` appends a live marker.
- `delete` tombstones the live marker nearest a position, measured as the
  Manhattan distance of the coordinate differences shifted right by the zoom
  shift. On a tie the first such marker wins.
- `delete_visible` tombstones every live marker strictly inside a screen
  rectangle.
- `delete_all` empties the list.
- `draw` yields the pixel centre of each live marker.
- `save_state_to_file` writes the live count, then an X line and a Y line per
  live marker.
- `restore_state_from_file` reads the file back. The store is left empty by a
  missing file, by any I/O error, by a count line that is missing or not an
  int, or by a missing or non-int line among the 2·count coordinate lines
  after it. Later lines are never read.

There are two copies of the store:

- `LogMyGsm.Landmarks` (`logmygsm_landmarks.dfy`) is the current one.
- `HelloAndroid.Landmarks` (`helloandroid_landmarks.dfy`) is the older
  prototype. It has the same codec, `add`, `delete_all` and `draw`. Its
  `delete` is a stub that deletes nothing, and it has no `delete_visible`.

Both are classes with a `points: seq<Landmark>` field. Every method's
`ensures` ties the new state or the result to a specification function. These
functions live in three modules:

- `Waypoints` (`waypoints.dfy`) holds the marker data types, live positions
  and counts, the nearest-marker scan, tombstoning, the viewport test and the
  projection.
- `MarkerFile` (`marker_file.dfy`) holds the file format as lines, in both
  directions.
- `JavaInt` (`java_int.dfy`) and `Decimal` (`decimal.dfy`) hold Java `int`
  arithmetic (wrap-around `+`/`-`, `>>` with its distance masked to five bits,
  `Math.abs`), `String.format("%d")` and `Integer.parseInt`.

**Map sources.** `MapSources` (`map_source.dfy`) holds the fixed table of six
tile sources, `lookup` by menu code and the tile path of a source.

Main results:

- `delete` tombstones exactly the lowest-index live marker at the minimum
  distance, and returns false, changing nothing, exactly when no marker is
  alive.
- `delete_visible` tombstones exactly the live markers strictly inside the
  view, and its result says whether there was one.
- Tombstones never come back to life.
- Saving then restoring gives back the live markers' positions in order, all
  live, whatever lines follow the last pair.
- Restore is all or nothing.
- `lookup` returns the first entry with the code, and `None` exactly for codes
  outside 100 to 105.
- Tile paths are injective in segment, zoom, x and y.

## Model

| member | source | states |
|---|---|---|
| JavaInt.Wrap | src/uk/org/rc0/logmygsm/Landmarks.java:150-152 | Java `int` `+`/`-`: the exact value when it fits 32 bits, and otherwise a value congruent to it modulo 2^32 |
| JavaInt.Abs | src/uk/org/rc0/logmygsm/Landmarks.java:152 | `Math.abs`: non-negative and equal to `a` or `-a`, except that `Integer.MIN_VALUE` maps to itself |
| JavaInt.Shr | src/uk/org/rc0/logmygsm/Landmarks.java:150-151 | `a >> s` keeps the sign of `a` and never moves away from zero |
| JavaInt.ShrFloor | src/uk/org/rc0/logmygsm/Landmarks.java:150-151 | `a >> s` is the floor of `a / 2^(s & 31)`, so negative differences round toward minus infinity |
| Decimal.DigitsShape | src/uk/org/rc0/logmygsm/Landmarks.java:94 | the printed digits of a number are a non-empty digit string with no leading zero |
| Decimal.ValueOfDefined | src/uk/org/rc0/logmygsm/Landmarks.java:115 | the digit scan succeeds exactly on strings made only of digits |
| Decimal.DigitsValue | src/uk/org/rc0/logmygsm/Landmarks.java:94 | scanning the digits printed for `n` gives back `n` |
| Decimal.FormatIntChars | src/uk/org/rc0/logmygsm/Landmarks.java:94-98 | `"%d"` prints at least one character, all digits except a leading `-`, which appears exactly for negatives |
| Decimal.ParseFormat | src/uk/org/rc0/logmygsm/Landmarks.java:94-98 | `parseInt` of what `"%d"` prints is the same int, for every int |
| Decimal.FormatInjective | src/uk/org/rc0/logmygsm/Landmarks.java:97-98 | distinct ints print differently |
| Decimal.ParseRejects | src/uk/org/rc0/logmygsm/Landmarks.java:115-127 | the empty string, a lone sign and any string with a non-digit after the optional sign do not parse |
| Waypoints.LiveCountPositive | src/uk/org/rc0/logmygsm/Landmarks.java:74-83 | the live count is positive exactly when some marker is alive |
| Waypoints.ScanFindsFirstMinimiser | src/uk/org/rc0/logmygsm/Landmarks.java:148-159 | the scan that replaces its candidate only on a strictly smaller distance finds a marker exactly when one is alive, and it finds the lowest-index live minimiser |
| Waypoints.FirstMinimiserUnique | src/uk/org/rc0/logmygsm/Landmarks.java:153-157 | there is only one lowest-index minimiser, and it is the one the scan picks |
| Waypoints.NearestIsFirstMinimiser | src/uk/org/rc0/logmygsm/Landmarks.java:145-165 | `delete`'s victim is -1 exactly when nothing is alive; otherwise it is a live marker, no live marker is closer, and every live marker before it is strictly farther |
| Waypoints.TieGoesToFirst | src/uk/org/rc0/logmygsm/Landmarks.java:153-157 | of any two live markers at equal distance, the later one is never the one `delete` picks |
| Waypoints.KillVisible | src/uk/org/rc0/logmygsm/Landmarks.java:168-185 | `delete_visible` keeps the list length |
| Waypoints.ViewEdgeIsOutside | src/uk/org/rc0/logmygsm/Landmarks.java:169-178 | the view test is strict: between 28-bit coordinates, a marker that `draw` places on the border of the view is not in view, so `delete_visible` keeps it alive |
| Waypoints.Projected | src/uk/org/rc0/logmygsm/Landmarks.java:195-208 | one drawn point per position given |
| Waypoints.NoRevivalChain | src/uk/org/rc0/logmygsm/Landmarks.java:136-189 | a tombstoned marker stays dead, at the same place, across any sequence of operations that each keep tombstones |
| Waypoints.CountDrops | src/uk/org/rc0/logmygsm/Landmarks.java:163-180 | tombstoning never raises the live count, and lowers it exactly when some live marker was tombstoned |
| Waypoints.KillCount | src/uk/org/rc0/logmygsm/Landmarks.java:163 | tombstoning one live marker lowers the live count by exactly one |
| Waypoints.KillVisibleCount | src/uk/org/rc0/logmygsm/Landmarks.java:168-185 | `delete_visible` revives nothing, and lowers the live count exactly when some live marker is in view |
| Waypoints.OffsetExact | src/uk/org/rc0/logmygsm/Landmarks.java:150-151 | between 28-bit coordinates the shifted difference does not overflow: it is the floor of the exact difference over 2^shift |
| Waypoints.DistExact | src/uk/org/rc0/logmygsm/Landmarks.java:150-152 | between 28-bit coordinates `delete`'s distance is the exact Manhattan distance of the shifted differences |
| Waypoints.InViewIffDrawnInside | src/uk/org/rc0/logmygsm/Landmarks.java:169-178 | between 28-bit coordinates, a marker passes `delete_visible`'s test exactly when `draw` places it strictly inside the `2*(w>>1)` by `2*(h>>1)` view |
| MarkerFile.EncodeShape | src/uk/org/rc0/logmygsm/Landmarks.java:85-100 | the save has `1 + 2 * count_alive` lines: the live count, then the X and Y of each live marker in index order |
| MarkerFile.ParsePairsMeaning | src/uk/org/rc0/logmygsm/Landmarks.java:116-121 | reading `k` pairs succeeds exactly when lines 1 to `2k` are all ints, and then gives `k` live markers, each from its own two lines |
| MarkerFile.ParsePairsFailureSticks | src/uk/org/rc0/logmygsm/Landmarks.java:116-127 | once a pair fails to parse, the whole read fails |
| MarkerFile.NoCountFails | src/uk/org/rc0/logmygsm/Landmarks.java:114-115 | a missing or non-int count line voids the restore |
| MarkerFile.PairFails | src/uk/org/rc0/logmygsm/Landmarks.java:116-127 | a missing or non-int X or Y line of a declared pair voids the restore |
| MarkerFile.AllPairsRead | src/uk/org/rc0/logmygsm/Landmarks.java:116-122 | once the declared pairs are read, they are the restore |
| MarkerFile.ReadMarkers | src/uk/org/rc0/logmygsm/Landmarks.java:112-128 | the reading loop gives exactly the whole-file parse: `None` on the first bad line, and otherwise the declared number of live markers, which fits an int |
| MarkerFile.DecodeAllOrNothing | src/uk/org/rc0/logmygsm/Landmarks.java:107-132 | a corrupt file restores to an empty store; any other file restores to exactly the declared number of live markers, each at its two lines' coordinates, and later lines are ignored |
| MarkerFile.DecodeNoFile | src/uk/org/rc0/logmygsm/Landmarks.java:107-110 | a missing or unreadable file restores to an empty store |
| MarkerFile.TokenOfFormat | src/uk/org/rc0/logmygsm/Landmarks.java:94-98 | a line holding a printed int reads back as that int |
| MarkerFile.ParseLaidOut | src/uk/org/rc0/logmygsm/Landmarks.java:114-122 | lines laid out as a count and coordinate pairs read back as those positions, all live |
| MarkerFile.EncodeLaidOut | src/uk/org/rc0/logmygsm/Landmarks.java:93-100 | a save, followed by any lines, is laid out as the live positions |
| MarkerFile.RoundTrip | src/uk/org/rc0/logmygsm/Landmarks.java:94-99 | restoring a save, whatever follows it, gives back the live markers' positions in order, all live |
| MarkerFile.EmptySave | src/uk/org/rc0/logmygsm/Landmarks.java:94 | a store with no live marker saves as the single line `0`, which restores to an empty store |
| MarkerFile.CorruptExample | src/uk/org/rc0/logmygsm/Landmarks.java:118-127 | a file `3`, `abc`, `5` restores to an empty store |
| LogMyGsm.Landmarks.constructor | src/uk/org/rc0/logmygsm/Landmarks.java:64-66 | a new store holds what its file restores to |
| LogMyGsm.Landmarks.CountAlive | src/uk/org/rc0/logmygsm/Landmarks.java:74-83 | the number of live markers |
| LogMyGsm.Landmarks.SaveStateToFile | src/uk/org/rc0/logmygsm/Landmarks.java:85-104 | the lines written are the encoding of the store |
| LogMyGsm.Landmarks.RestoreStateFromFile | src/uk/org/rc0/logmygsm/Landmarks.java:106-134 | the store becomes the decoding of the file, all or nothing, and stays within the `ArrayList` size bound |
| LogMyGsm.Landmarks.Add | src/uk/org/rc0/logmygsm/Landmarks.java:136-138 | exactly one live marker at `pos` is appended; earlier markers are unchanged |
| LogMyGsm.Landmarks.Delete | src/uk/org/rc0/logmygsm/Landmarks.java:142-166 | returns true exactly when some marker was alive; then it tombstones the lowest-index nearest live marker and nothing else, and the live count drops by one; otherwise nothing changes |
| LogMyGsm.Landmarks.DeleteVisible | src/uk/org/rc0/logmygsm/Landmarks.java:168-185 | tombstones exactly the live markers strictly inside the view, keeps every other marker, and returns whether any was in view |
| LogMyGsm.Landmarks.DeleteAll | src/uk/org/rc0/logmygsm/Landmarks.java:187-189 | the store is empty |
| LogMyGsm.Landmarks.Draw | src/uk/org/rc0/logmygsm/Landmarks.java:195-208 | one point per live marker, in order, at `((w>>1) + dx, (h>>1) + dy)`; the store is not changed |
| HelloAndroid.Landmarks.constructor | src/uk/org/rc0/helloandroid/Landmarks.java:37-38 | a new store holds what its file restores to |
| HelloAndroid.Landmarks.CountAlive | src/uk/org/rc0/helloandroid/Landmarks.java:47-56 | the number of live markers |
| HelloAndroid.Landmarks.SaveStateToFile | src/uk/org/rc0/helloandroid/Landmarks.java:58-77 | the lines written are the encoding of the store |
| HelloAndroid.Landmarks.RestoreStateFromFile | src/uk/org/rc0/helloandroid/Landmarks.java:79-107 | the store becomes the decoding of the file, all or nothing |
| HelloAndroid.Landmarks.Add | src/uk/org/rc0/helloandroid/Landmarks.java:109-111 | exactly one live marker at `pos` is appended; earlier markers are unchanged |
| HelloAndroid.Landmarks.Delete | src/uk/org/rc0/helloandroid/Landmarks.java:115-117 | always false, and the store is not changed |
| HelloAndroid.Landmarks.DeleteAll | src/uk/org/rc0/helloandroid/Landmarks.java:119-121 | the store is empty |
| HelloAndroid.Landmarks.Draw | src/uk/org/rc0/helloandroid/Landmarks.java:127-140 | one point per live marker, in order, at `((w>>1) + dx, (h>>1) + dy)`; the store is not changed |
| MapSources.AccessorsReturnArguments | src/uk/org/rc0/logmygsm/MapSource.java:34-51 | the accessors return the constructor's arguments |
| MapSources.LookupIn | src/uk/org/rc0/logmygsm/MapSource.java:72-79 | `None` exactly when no entry has the code; otherwise an entry with the code, and no earlier entry has it |
| MapSources.TableDistinct | src/uk/org/rc0/logmygsm/MapSource.java:56-70 | no two table entries share a code or a path segment |
| MapSources.LookupFindsEntry | src/uk/org/rc0/logmygsm/MapSource.java:63-77 | each entry's code looks up that entry |
| MapSources.LookupMenuCodes | src/uk/org/rc0/logmygsm/MapSource.java:56-77 | each of the six code constants selects its own source |
| MapSources.LookupUnknown | src/uk/org/rc0/logmygsm/MapSource.java:56-78 | `lookup` gives null exactly for codes outside 100 to 105 |
| MapSources.FormatNoSlash | src/uk/org/rc0/logmygsm/MapSource.java:39-40 | a printed int holds no `/` |
| MapSources.TilePathParts | src/uk/org/rc0/logmygsm/MapSource.java:32-41 | the tile path is `/sdcard/Maverick/tiles/`, the segment, then `zoom/x/y.png.tile` |
| MapSources.TilePathInjective | src/uk/org/rc0/logmygsm/MapSource.java:38-41 | for segments with no `/`, equal tile paths mean the same segment, zoom, x and y |
| MapSources.TableSegmentsHaveNoSlash | src/uk/org/rc0/logmygsm/MapSource.java:63-70 | no table segment holds a `/`, so the table's tile paths are distinct across sources and tiles |

## Left out

- File system plumbing is not modelled. This covers `File`, `mkdirs`, the
  fixed `/sdcard/LogMyGsm/prefs/markers.txt` path, and opening, writing and
  closing the streams.
- `SaveStateToFile` returns the lines it would write. A failed write, whose
  `IOException` the source swallows, is not modelled, and neither is what a
  half-written file would then hold.
- The file a restore reads is a parameter of type `StoredFile`. `Unreadable`
  stands for an `IOException` at any point while reading. The store ends empty
  in that case just as for a bad line, so the position of the failure is not
  modelled.
- `RestoreStateFromFile` collects the markers through `MarkerFile.ReadMarkers`
  into a local sequence and assigns it once. The source appends to `points`
  as it goes and replaces the list on failure. The final state is the same;
  the intermediate states cannot be observed, because the store is used from
  one thread.
- The reading loop is written once, in `MarkerFile.ReadMarkers`, and both
  stores call it. The source repeats it in each file.
- `Canvas` and `Paint` are not modelled, and neither are the marker radius,
  colour and stroke. `Draw` returns the pixel centres it would draw.
- The `Merc28` class is not part of this model beyond its two `int` fields
  `X` and `Y`. Its geodesy is floating point.
- The activities (`MainActivity`, `HelloAndroid`) and their UI are not part of
  this model.
- `Decimal.ParseInt`: accepts only the ASCII digits `0` to `9`.
  `Integer.parseInt` also accepts other Unicode decimal digits. Files the
  store writes hold only ASCII digits.
- `Decimal.FormatInt`: always prints ASCII digits. `String.format("%d")`
  follows the default locale, whose digits may differ.
- `LogMyGsm.Landmarks.Add`: requires fewer than `Integer.MAX_VALUE` markers.
  An `ArrayList` cannot grow past that, and the source would fail with an
  error there. The same holds for `HelloAndroid.Landmarks.Add`.
- `MapSources.Lookup` is a function over the static table. The source
  declares `lookup` as an instance method but calls it through the class.
- The comment above `delete` speaks of no point being "close enough". The
  code has no distance threshold: it returns false only when no marker is
  alive, and the model follows the code.
- The viewport half-sizes are `width >> 1` and `height >> 1`, as in the code,
  rather than a division by two. The two differ only for negative odd sizes.
- A negative count on the first line reads no pairs and restores an empty
  store without failing, as the source's `for` loop does.
