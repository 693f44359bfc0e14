# kmlhelper track geometry in Dafny

kmlhelper is a browser tool that edits KML files. This project models the
part of `kml.js` that does the track geometry, with its DOM and UI glue
removed, and proves what the code promises about it. That part has three
pieces:

- **`LatLong`**, a point value. It reads a point from a KML `coordinates`
  token (`"long,lat[,alt]"`) or from a `gx:coord` token (`"long lat alt"`),
  writes a point back as `long,lat,alt`, and compares two points exactly on
  latitude and longitude.
- **`LineString`**, a track: an ordered list of points plus the white space
  its coordinate text was written with. It parses and writes coordinate
  text. It measures length, splits every N miles, finds the nearest point,
  finds shared points and the index of a point. It edits itself in place:
  push, concat, reverse and cut.
- **The endpoint stitcher** inside `Helpers.combineStrings`. It joins N
  tracks into one. It pairs up the end points of different tracks and sorts
  the pairs by distance. It links the tracks along the first N-1 pairs. It
  finds the two tracks left with fewer than two links, walks the chain from
  one of them, turns each track to face the way of the walk, and
  concatenates the points.

Files:

- `wrappers.dfy`: `Option` and `Result`.
- `text.dfy` (`Text`): the JavaScript string operations the code relies
  on. These are ECMAScript white space, `trim`, `split` on one character,
  `split(/\s+/)`, the `/^\s+/` match and `join`.
- `latlong.dfy` (`LatLongs`): the point value and its two text formats.
- `polyline.dfy` (`Polyline`): reference definitions of the track
  operations on a sequence of points, and their properties.
- `line_string.dfy` (`LineStrings`): the `LineString` class. Its
  `coords`/`margin` fields are updated in place by its methods, and every
  loop is proved to compute its `Polyline` definition.
- `stitching.dfy` (`Stitching`): the stitcher as reference definitions,
  one per stage, with what each stage promises.
- `stitcher.dfy` (`Stitcher`): the stitcher's loops as methods, each proved
  to compute its stage's definition. `Combine` runs the whole stitch.
- `dropped.dfy` (`DroppedTracks`): four concrete tracks that the stitcher
  joins into one while silently dropping two of them (see "Findings").

Foreign behaviour is passed in as a parameter:

- `parseFloat` is `NumberParser`, a partial function from text to a
  number, where `None` stands for NaN.
- Number-to-text conversion is `NumberFormatter`.
- The haversine distance is `Metric`.

Where a property needs facts about these, the lemma states them as a
requirement. `LatLongs.Numeral` says, for one number, that its text is
non-empty, free of white space and commas, and reads back as that number;
`LatLongs.NumeralPossible` shows that some parser and formatter meet it for
any number. `Symmetric`
says that the distance does not depend on the order of its two points.

The stitcher's failures are values of `StitchError`. The source behaves as
follows in those cases:

- With no line string, it shows an alert (`NoTracks`).
- A track without points throws a `TypeError` when a distance is taken
  (`EmptyTrack`). So does reaching a track without links (`NoLink`), and so
  does reading a link the first walk never set (`DanglingLink`).
- Either walk can loop for ever (`WalkDoesNotStop`, `ChainDoesNotStop`).
- Its `tassert` only stops in a debugger. The model ends with an error
  where that assertion fails: `NoLogicalEnds(count)` at kml.js:881 and
  `Misoriented` at kml.js:919. The assertion at kml.js:864 is proved to
  always hold (`Stitching.SortedPairs`).

The source does not stop a track at two links. When a track gets a third
link, it is no longer a candidate, so `indexOf` returns -1, and
`splice(-1, 1)` removes the last candidate instead. The model does the
same (`Stitching.ThirdLink`). `Stitching.UnlinkedLoose` and
`Stitching.LinkLoose` prove the linking loop's invariant: while no track has
more than two links, the candidates are exactly the tracks with fewer than
two.

Where the two disagree, the model follows the code rather than the
written description:

- `LatLong.parse` ignores any third field, so a parsed point always has
  altitude 0.
- `concat` keeps both copies of a shared joint point. Stitching two
  tracks that meet at a point therefore repeats that point.

## Model

| member | source | states |
|---|---|---|
| LatLongs.Parse | kml.js:114-131 | A point is read exactly when the token is non-empty, contains a comma, and its first two comma-separated fields parse as numbers. Field 0 becomes the longitude, field 1 the latitude, and the altitude is always 0. |
| LatLongs.ParseFormatFields | kml.js:114-135 | A written point is read exactly when its longitude's and latitude's texts parse, and then holds the numbers they parse to, with altitude 0. |
| LatLongs.ParseFormatNaN | kml.js:114-135 | A written point whose longitude or latitude text does not parse as a number is not read at all. |
| LatLongs.ParseGXCoordFields | kml.js:96-112 | Three words joined by spaces, with white space around them, are read exactly when the first two parse: the first is the longitude, the second the latitude, and an altitude that does not parse becomes 0. |
| LatLongs.ParseFormat | kml.js:114-135 | When the longitude and latitude are numerals and the altitude's text has no comma, reading back a written point gives the same latitude and longitude with altitude 0. The result `isEqual`s the original. |
| LatLongs.ParseGXCoordFormat | kml.js:96-112 | When all three numbers are numerals, a `gx:coord` written as "long lat alt", with any white space around it, reads back as the same point, altitude included. |
| Text.LeadingSpace | kml.js:259-262 | The `/^\s+/` match is the longest all-white-space prefix. The next character, if any, is not white space. |
| Text.Trim | kml.js:100 | `trim` returns the middle of the text, with no white space at either end and only white space around it. |
| Text.Split | kml.js:118 | `split` on one character gives at least one field and no field contains the separator. There is exactly one field when the separator does not occur. |
| Text.JoinSplit | kml.js:118 | Joining the fields of a split gives back the text. |
| Text.SplitJoin | kml.js:133-135 | Splitting a join of separator-free fields gives back the fields. |
| Text.SplitRuns | kml.js:264 | `split(/\s+/)` gives pieces without white space. Only the first and last piece can be empty, and the first is non-empty when the text starts with a non-space. |
| Text.SplitRunsInterleave | kml.js:264 | `split(/\s+/)` loses nothing but the white-space runs it cuts at: the text is its pieces with one non-empty white-space run between each two. |
| Text.SplitRunsFramed | kml.js:438-453 | Written coordinate text splits on white-space runs back into its words. When the margin is non-empty, there is an empty piece at each end. The leading white space is the margin. |
| Polyline.ReversedTwice | kml.js:336-338 | Reversing twice restores the points. |
| Polyline.ReversedEnds | kml.js:336-338 | Reversal swaps the first and the last point. |
| Polyline.FirstMatch | kml.js:425-436 | -1 exactly when no point `isEqual`s the given one. Otherwise the index of the first point that does. |
| Polyline.LegsAppend | kml.js:342-358 | The uncorrected length of two joined tracks is the two lengths plus the leg between them. |
| Polyline.LegsReversed | kml.js:342-358 | With a symmetric distance, a reversed track has the same length. |
| Polyline.ParsePointsWords | kml.js:266-278 | The token loop succeeds exactly when every non-empty token parses. Its points are those tokens' points, in order. |
| Polyline.ParseCoordinatesWords | kml.js:254-286 | A track exactly when the text is non-empty and every white-space-separated word is a valid point, otherwise nothing and never a partial track. The points are the words' points in order, and the margin is the leading white space. |
| Polyline.ParseXmlText | kml.js:254-286 | When every number of a non-empty track is a numeral and the margin is white space, parsing the written text gives back the margin and the points, with altitude 0. |
| Polyline.ParseXmlTextFails | kml.js:254-286 | The written text of a track does not parse at all, with no partial track, when one point's longitude or latitude is written as text that does not parse. |
| Polyline.XmlTextWords | kml.js:438-453 | When the numbers' texts hold no white space or comma, the written text of a non-empty track is non-empty, its leading white space is exactly the margin, and its white-space-separated words are the points' texts in order. |
| Polyline.SplitAtMileageShape | kml.js:293-320 | No segments when there are no points. Otherwise every segment is non-empty, the first starts at the first point, and each later segment starts where the one before ended. The last ends at the final point, and the segments without their shared first points rebuild the track. |
| Polyline.SplitAtMileagePaced | kml.js:293-320 | Each segment but the last closes at the first point where the running distance, restarted at 0 with each segment and measured against the mileage turned into kilometres, exceeds the limit. Up to its last point no segment exceeds it. |
| Polyline.SegmentsPaced | kml.js:306-317 | The same pacing for the loop started at any point, with an open segment whose running distance has stayed within the limit. |
| Polyline.SegmentsFromShape | kml.js:306-317 | The same shape for the loop started at any point with any open segment. |
| Polyline.SplitAt | kml.js:400-415 | No result exactly when the resolved index is -1. Otherwise the tail is the suffix of the track from the resolved index, clamped to the length as `splice` clamps it, and the kept half is the track before it, followed by the cut point exactly when `inclusive` is set. |
| Polyline.SplitAtRejoins | kml.js:400-415 | Without `inclusive`, the kept half followed by the tail is the track again. |
| Polyline.SplitAtPoint | kml.js:400-415 | Splitting at a point cuts before its first occurrence, so the tail starts with it. With `inclusive`, the kept half ends with the point. |
| Polyline.NearestCut | kml.js:402-403 | A nearest-point result of the same track cuts exactly at its index. This holds at index 0 too, where the falsy index falls back to `indexOf`. |
| Polyline.SharedUpToSpec | kml.js:360-372 | An entry is listed exactly when it is an index of this track whose point some point of the other track equals. |
| Polyline.SharedUpToOrdered | kml.js:360-372 | The listed indices strictly increase, in the order the loop visits them. |
| LineStrings.LineString.constructor | kml.js:249-252 | The new track holds the given points and margin. |
| LineStrings.LineString.ParseCoordinates | kml.js:254-286 | `null` exactly when the parse has no result. Otherwise a new track with the parsed points and margin. |
| LineStrings.LineString.SplitAtMileage | kml.js:293-320 | New margin-less tracks whose points are the segments of `Polyline.SplitAtMileage`, in order. |
| LineStrings.LineString.Push | kml.js:325-327 | Appends the point. The margin is unchanged. |
| LineStrings.LineString.Concat | kml.js:332-334 | Appends all of the other track's points with no deduplication, so the lengths add up. This holds when the other track is this one. |
| LineStrings.LineString.Reverse | kml.js:336-338 | The points in reverse order. The start and end points trade places. |
| LineStrings.LineString.Distance | kml.js:342-358 | The sum of the legs, which is 0 for fewer than two points. It is multiplied once by 1.01329122253, and then by 0.621371 when miles are asked for. |
| LineStrings.LineString.Intersections | kml.js:360-372 | Exactly the entries `Polyline.SharedUpToSpec` characterises, in increasing index order. |
| LineStrings.LineString.NearestPointTo | kml.js:384-398 | The initial value for no points. Otherwise a point at minimal distance, the earliest such, with its index and distance. |
| LineStrings.LineString.Split | kml.js:400-415 | When the index resolves to -1: no result and the track unchanged. Otherwise a new margin-less track with the tail, and this track keeps the kept half of `Polyline.SplitAt`. |
| LineStrings.LineString.StartPoint | kml.js:417-419 | The first point, or nothing for an empty track. |
| LineStrings.LineString.EndPoint | kml.js:421-423 | The last point, or nothing for an empty track. |
| LineStrings.LineString.IndexOf | kml.js:425-436 | The index `Polyline.FirstMatch` characterises. |
| LineStrings.LineString.ToXMLString | kml.js:438-453 | The margin, the points' texts joined by single spaces, and the margin again. |
| Stitching.Ends | kml.js:819-822 | 2N endpoints: the start and end point of track t at positions 2t and 2t+1. |
| Stitching.PairsSpec | kml.js:826-837 | Every pair joins endpoints of two different tracks and carries their distance. Every two endpoints of different tracks, the earlier first, form a pair. |
| Stitching.PairsEnough | kml.js:826-837 | There are at least 2N-2 pairs, enough for the N-1 links. |
| Stitching.SortSpec | kml.js:839-847 | The sort orders by ascending distance and is a permutation. It is stable: pairs at equal distance keep their order. |
| Stitching.LowestFirst | kml.js:839-847 | In a sorted list with nothing closer than a distance, the pairs at that distance come first. |
| Stitching.SortedPairs | kml.js:860-864 | The sorted pairs hold at least N-1 entries, each joining two different tracks, so the assertion at line 864 always holds. |
| Stitching.IndexIn | kml.js:869 | `indexOf`: -1 exactly when absent, otherwise the first index of the value. |
| Stitching.Spliced | kml.js:869 | `splice(k, 1)` removes one element, or none from an empty array, and adds none. |
| Stitching.Attach | kml.js:867-870 | Records the endpoint as the track's latest link. |
| Stitching.LinkedNear | kml.js:860-876 | After the linking loop, each track's `__near` holds the far endpoints of exactly the pairs that touch it, in pair order. |
| Stitching.LinkFirstPrefix | kml.js:860-876 | The links after the first m pairs depend only on those m pairs. |
| Stitching.LinkMutual | kml.js:866-875 | One linking pass records the pair on both of its tracks, so it keeps every link mutual: the track a link leads to has a link back. |
| Stitching.OppositesBack | kml.js:866-874 | A pair that links a track to an endpoint also links that endpoint's track back to the track. |
| Stitching.OppositesMutual | kml.js:860-876 | Links that are, for every track, the far ends of the pairs touching it are mutual. |
| Stitching.BestLinksMutual | kml.js:839-876 | Every link the stitcher makes is mutual: the track it leads to has a link back. |
| Stitching.UnlinkedLoose | kml.js:808 | Before any link, the candidates are all tracks, and these are exactly the tracks with fewer than two links. |
| Stitching.LinkLoose | kml.js:860-876 | One linking pass keeps the candidates equal to the tracks with fewer than two links, in track order, as long as neither track of the pair gets a third link. |
| Stitching.ThirdLink | kml.js:867-875 | A third link removes the last candidate, whichever track it is. |
| Stitching.WalkSetsLinks | kml.js:890-902 | The first walk sets every `__next` and `__prev` to one of that track's own links. |
| Stitching.WalkBack | kml.js:888-900 | At a track with at most two links, one of them back to where the walk came from, the first walk sets `__prev` to that link back and `__next` to the other link. It stops there when the track has one link, and otherwise goes on to the other link's track, which, when the links are mutual, has a link back. |
| Stitching.OrientSpec | kml.js:918-932 | Each track is used whole, as it is or reversed. The head is reversed exactly when its end point is not at its link, then ends at the link, and fails exactly when neither end is there. Any other track is reversed exactly when its start point is not at its link. |
| Stitching.ChainPieces | kml.js:909-936 | A finished second walk visits the tracks `ChainOrder` lists, at most N of them, each reached along the `__next` of the one before and the last without one. Its result concatenates, in that order, each visited track as `Orient` turns it. |
| Stitching.StitchPieces | kml.js:817-936 | A stitched track is the concatenation, in walk order, of the tracks the second walk visits from the first candidate for a logical end, each as `Orient` turns it, and there are at most N of them. |
| Stitching.StitchWholeAgrees | kml.js:877-936 | `StitchWhole` is `Stitch` whenever `Stitch` fails or its walk visits every track. Otherwise it fails with `TracksLeftOut`, naming how many tracks the walk left out. |
| Stitching.StitchWholePieces | kml.js:817-936 | A track `StitchWhole` stitches uses each of the N tracks exactly once, in walk order, each as `Orient` turns it. |
| Stitching.ChainDistinct | kml.js:909-936 | A second walk that ends visits no track twice. |
| Stitching.DistinctCovers | kml.js:909-936 | N distinct tracks, each below N, are all the tracks. |
| Stitching.TwoPairs | kml.js:826-837 | For two tracks, the pairs are the four combinations of their ends, in loop order. |
| Stitching.SortedFirst | kml.js:839-847 | After sorting, the first pair is one of the pairs and none is closer. |
| Stitching.ClosestFirst | kml.js:826-847 | For two tracks, the first sorted pair joins an end of the first track to an end of the second at minimal distance. |
| Stitching.TwoLinks | kml.js:860-876 | Two tracks are linked along their closest pair and both remain candidates. |
| Stitching.TwoWalk | kml.js:883-902 | The first walk over two linked tracks goes from the first to the second and stops. |
| Stitching.TwoChain | kml.js:909-936 | The second walk over two tracks gives the first track, turned to end at its link, followed by the second, turned to start at its link. |
| Stitching.StitchTwo | kml.js:817-936 | Two non-empty tracks always stitch into both tracks, each as it is or reversed, meeting at the closest pair of their ends. |
| Stitching.BestLinksFirst | kml.js:839-876 | The sorted pairs hold at least N-1 entries, all naming real tracks, and the links are those of the first N-1 of them. |
| Stitching.StitchStages | kml.js:877-936 | The stitch fails with `NoLogicalEnds` unless exactly two candidates remain. Otherwise it fails where the first walk from the first candidate fails, and else is the second walk from that candidate. |
| Stitcher.CollectEnds | kml.js:819-822 | The loop computes `Stitching.Ends`. |
| Stitcher.PairUp | kml.js:826-837 | The nested loops compute `Stitching.Pairs`. |
| Stitcher.PairRow | kml.js:828-836 | One pass of the inner loop appends the pairs of one endpoint with every later endpoint of another track. |
| Stitcher.SortedPairsOf | kml.js:819-847 | Collecting, pairing and sorting give the pairs of `Stitching.Pairs` in `Stitching.SortByDistance` order. |
| Stitcher.LinkBest | kml.js:860-876 | The linking loop computes `__near` and the candidates of `Stitching.LinkFirst` over the first N-1 pairs. |
| Stitcher.BestLinksOf | kml.js:819-876 | The steps up to the linking loop compute `Stitching.BestLinks`. |
| Stitcher.WalkLinks | kml.js:883-902 | The first walk's loop computes `Stitching.Walk`, including its errors. |
| Stitcher.Turn | kml.js:918-932 | Turning one track succeeds exactly when `Stitching.Orient` does, as a new margin-less track with those points, and otherwise fails with the same error. |
| Stitcher.ChainStep | kml.js:909-936 | One step of the second walk: a failed turn ends it with that error, a track without `__next` ends it with the points so far, and otherwise the walk continues from the next track. |
| Stitcher.Assemble | kml.js:909-936 | The second walk's loop returns a new margin-less track with the points of `Stitching.Chain`, or the same error. On success it also returns how many tracks it visited, the length of `Stitching.ChainOrder`. |
| Stitcher.Combine | kml.js:817-936 | The whole stitch succeeds exactly when `Stitching.StitchWhole` does. It returns a new margin-less track with those points, or the same error, including `TracksLeftOut` when the walk visits fewer than N tracks. |
| DroppedTracks.StitchDropsTracks | kml.js:858-902 | For four concrete tracks, two of them sharing an end and two equal, `Stitch` returns only the first two tracks' points. None of the points of the other two appears, and `StitchWhole` fails with `TracksLeftOut(2)`. |

## Left out

- I/O and the browser: `Context` (textarea reads, XML parsing and serialising), `alert`, `console.log`, and the placemark lookup, cloning and renaming around the stitcher (kml.js:775-816, 938-951). The stitcher takes the tracks' points directly, so a `coordinates` text that fails to parse (which throws at kml.js:795) is not part of this model.
- The haversine formula (kml.js:149-164): its value is floating-point trigonometry and is a `Metric` parameter. No property depends on it beyond `Symmetric` where stated.
- Floating point in general: numbers are exact reals. NaN is `None` from the number parser. The initial `nearestPointTo` distance, `Infinity`, is `NoNearest`.
- LatLongs.Parse and LatLongs.ParseGXCoord: `parseFloat` returns `Infinity` for texts such as "Infinity" or "1e999", and `parse` and `parseGXCoord` (kml.js:106, 124) accept it, since it is not NaN. A `NumberParser` yields only finite reals, so such points are not modelled; for them the model reads nothing or some finite number, as the parser passed in decides.
- Non-string arguments to `parse`, `parseGXCoord` and `parseCoordinates`: in the model they are always strings.
- `LineSegment` and `Point` (kml.js:169-246): floating-point slope and intersection relying on NaN and Infinity.
- `Helpers.split` (kml.js:640-691) is dead code, and `Helpers.showOnMap` (kml.js:954-987) draws on Google Maps. Neither is part of this model.
- `Math.random` ids and `lineStringMap` (kml.js:795-805): they play no part in the result.
- `LineString.prototype.coordinates` (kml.js:288) is the `coords` field itself.
- The stitcher's in-place reversal of its input tracks: the tracks are values, and a copy of each track is reversed instead. The source throws the input objects away afterwards, so the combined track is the same.
- Stitcher.WalkLinks: the source loops for ever when the first walk returns to a state it was in. The model stops after N*(N+1) iterations, the number of distinct (track, previous track) states, with `WalkDoesNotStop`.
- Stitcher.Assemble: the source loops for ever when the second walk returns to a track. The model stops after N iterations with `ChainDoesNotStop`.
- Stitcher.Combine: where a source `tassert` fails, the source carries on and the model stops with an error (`NoLogicalEnds`, `Misoriented`). Where the second walk ends before it has visited every track, the source returns the tracks it visited and `Combine` fails with `TracksLeftOut` (see "Findings"); `Stitching.Stitch` keeps the source's behaviour.
- Stitching.SortByDistance is a stable insertion sort. `Array.prototype.sort` has been stable since ECMAScript 2019, but the comparator is the only order the source fixes.
- Stitching.StitchPieces does not state that the walk visits every track: the source's walk can end early and drop tracks even when no track has a third link (see "Findings"). `Stitching.StitchWhole` is the version that visits every track.
- Stitching.WalkBack states the pointers one step of the first walk sets. When a track has three or more links, a later step of the walk can come back to it and overwrite them; `Stitching.WalkSetsLinks` still holds then.

## Findings

| source | as written | input that shows it | evidently intended | confidence | as-written member | corrected member |
|---|---|---|---|---|---|---|
| kml.js:858-936 | The second walk ends at the first track without a `__next`, and any track it has not reached is silently left out of the combined track. Two equal tracks link to each other twice, use up their two links each, and never become logical ends. | `DroppedTracks.Tracks` under `DroppedTracks.Apart`: two equal tracks, and two tracks sharing an end. The result holds only the last two. | Every track is used exactly once, or the stitch fails. | not executed | DroppedTracks.StitchDropsTracks | Stitching.StitchWholePieces |
