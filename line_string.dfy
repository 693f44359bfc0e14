/** The `LineString` track of kml.js: an ordered sequence of points and the
    white space its coordinate text was written with, edited in place. Each
    method is proved against the reference definitions of `Polyline`. */
module LineStrings {
  import opened Wrappers
  import opened Text
  import opened LatLongs
  import opened Polyline

  class LineString {
    /** `_coordinates`: the points in order. */
    var coords: seq<LatLong>
    /** `_margin`: the leading white space of the coordinate text, or "". */
    var margin: string

    /** `new LineString(coordinates, margin)` (kml.js:249-252); a missing
        argument is passed here as [] or "". */
    constructor (coordinates: seq<LatLong>, margin: string)
      ensures this.coords == coordinates && this.margin == margin
    {
      this.coords := coordinates;
      this.margin := margin;
    }

    /** `LineString.parseCoordinates` (kml.js:254-286). */
    static method ParseCoordinates(text: string, num: NumberParser) returns (r: LineString?)
      ensures r == null <==> Polyline.ParseCoordinates(text, num).None?
      ensures r != null ==>
        && fresh(r)
        && r.coords == Polyline.ParseCoordinates(text, num).value.points
        && r.margin == Polyline.ParseCoordinates(text, num).value.margin
    {
      if text == "" {
        return null;
      }
      var whitespace := LeadingSpace(text);
      var b := SplitRuns(text);
      var coordinates: Option<seq<LatLong>> := Some([]);
      assert b[0..] == b;
      assert Then([], ParsePoints(b, num)) == ParsePoints(b, num) by {
        if ParsePoints(b, num).Some? {
          assert [] + ParsePoints(b, num).value == ParsePoints(b, num).value;
        }
      }
      var i := 0;
      while i < |b|
        invariant 0 <= i <= |b|
        invariant coordinates.Some?
        invariant ParsePoints(b, num) == Then(coordinates.value, ParsePoints(b[i..], num))
      {
        assert b[i..][1..] == b[i + 1..];
        if b[i] != "" {
          var latLong := Parse(b[i], num);
          if latLong.Some? {
            coordinates := Some(coordinates.value + [latLong.value]);
            ThenAppend(coordinates.value[..|coordinates.value| - 1], latLong.value, ParsePoints(b[i + 1..], num));
            assert coordinates.value[..|coordinates.value| - 1] + [latLong.value] == coordinates.value;
          } else {
            coordinates := None;
            break;
          }
        }
        i := i + 1;
      }
      if coordinates.Some? {
        assert b[i..] == [];
        assert coordinates.value + [] == coordinates.value;
        r := new LineString(coordinates.value, whitespace);
      } else {
        r := null;
      }
    }

    /** `splitAtMileage` (kml.js:293-320): new margin-less tracks, each
        closed once the distance run up since the last one exceeds `mileage`. */
    method SplitAtMileage(dist: Metric, mileage: real, inMiles: bool) returns (strings: seq<LineString>)
      ensures |strings| == |Polyline.SplitAtMileage(coords, dist, mileage, inMiles)|
      ensures forall k :: 0 <= k < |strings| ==>
        && fresh(strings[k])
        && strings[k].coords == Polyline.SplitAtMileage(coords, dist, mileage, inMiles)[k]
        && strings[k].margin == ""
    {
      strings := [];
      var c := coords;
      if c == [] {
        return;
      }
      var limit := mileage;
      if inMiles {
        limit := limit / MilesPerKilometre;
      }
      var last := c[0];
      var ls := new LineString([], "");
      var accum := 0.0;
      ghost var done: seq<seq<LatLong>> := [];
      var i := 0;
      while i < |c|
        invariant 0 <= i <= |c|
        invariant fresh(ls) && ls.margin == ""
        invariant |done| == |strings|
        invariant forall k :: 0 <= k < |strings| ==>
          fresh(strings[k]) && strings[k] != ls && strings[k].coords == done[k] && strings[k].margin == ""
        invariant done + SegmentsFrom(c, dist, limit, i, ls.coords, accum, last)
               == Polyline.SplitAtMileage(c, dist, mileage, inMiles)
      {
        ghost var cur := ls.coords + [c[i]];
        var d := dist(c[i], last);
        SegmentsStep(c, dist, limit, i, ls.coords, accum, last, done);
        ls.Push(c[i]);
        accum := accum + d;
        last := c[i];
        if accum > limit || i == |c| - 1 {
          strings := strings + [ls];
          done := done + [cur];
          ls := new LineString([], "");
          ls.Push(c[i]);
          assert ls.coords == [c[i]];
          accum := 0.0;
        }
        i := i + 1;
      }
    }

    /** `push` (kml.js:325-327): appends one point. */
    method Push(p: LatLong)
      modifies this
      ensures coords == old(coords) + [p] && margin == old(margin)
    {
      coords := coords + [p];
    }

    /** `concat` (kml.js:332-334): appends the other track's points, shared
        points included, so a joint appears twice. `other` may be this track. */
    method Concat(other: LineString)
      modifies this
      ensures coords == old(coords) + old(other.coords) && margin == old(margin)
      ensures |coords| == old(|coords|) + old(|other.coords|)
    {
      coords := coords + other.coords;
    }

    /** `reverse` (kml.js:336-338): the points in the opposite order, so the
        start and the end point trade places. */
    method Reverse()
      modifies this
      ensures coords == Reversed(old(coords)) && margin == old(margin)
      ensures StartPoint() == old(EndPoint()) && EndPoint() == old(StartPoint())
    {
      if coords != [] {
        ReversedEnds(coords);
      }
      coords := Reversed(coords);
    }

    /** `distance` (kml.js:342-358): the sum of the legs, corrected once by
        `EarthCorrection`, in miles when asked. */
    method Distance(dist: Metric, miles: bool) returns (accum: real)
      ensures accum == Legs(coords, dist) * EarthCorrection * (if miles then MilesPerKilometre else 1.0)
    {
      accum := 0.0;
      var i := 0;
      while i < |coords| - 1
        invariant 0 <= i <= (if coords == [] then 0 else |coords| - 1)
        invariant coords != [] ==> accum == Legs(coords[..i + 1], dist)
        invariant coords == [] ==> accum == 0.0
      {
        assert coords[..i + 2][..i + 1] == coords[..i + 1];
        accum := accum + dist(coords[i], coords[i + 1]);
        i := i + 1;
      }
      if coords != [] {
        assert coords[..i + 1] == coords;
      }
      accum := accum * EarthCorrection;
      if miles {
        accum := accum * MilesPerKilometre;
      }
    }

    /** `intersections` (kml.js:360-372). */
    method Intersections(other: LineString) returns (result: seq<Shared>)
      ensures result == SharedUpTo(coords, other.coords, |coords|)
    {
      result := [];
      var i := 0;
      while i < |coords|
        invariant 0 <= i <= |coords|
        invariant result == SharedUpTo(coords, other.coords, i)
      {
        var index := other.IndexOf(coords[i]);
        if -1 != index {
          result := result + [Shared(i, coords[i])];
        }
        i := i + 1;
      }
    }

    /** `nearestPointTo` (kml.js:384-398): a running minimum replaced only by
        a strictly smaller distance. */
    method NearestPointTo(q: LatLong, dist: Metric) returns (min: Nearest)
      ensures IsNearest(coords, q, dist, min)
    {
      min := NoNearest;
      var i := 0;
      while i < |coords|
        invariant 0 <= i <= |coords|
        invariant IsNearest(coords[..i], q, dist, min)
      {
        var d := dist(q, coords[i]);
        if min.NoNearest? || d < min.distance {
          min := NearestAt(i, coords[i], d);
        }
        i := i + 1;
      }
      assert coords[..i] == coords;
    }

    /** `split` (kml.js:400-415): cuts the tail off into a new margin-less
        track; with `inclusive` the cut point is also appended here. When
        the point is not found nothing changes and nothing is returned. */
    method Split(w: Where, inclusive: bool) returns (result: LineString?)
      modifies this
      ensures SplitAt(old(coords), w, inclusive).None? ==>
        result == null && coords == old(coords)
      ensures SplitAt(old(coords), w, inclusive).Some? ==>
        && result != null && fresh(result)
        && result.coords == SplitAt(old(coords), w, inclusive).value.tail
        && result.margin == ""
        && coords == SplitAt(old(coords), w, inclusive).value.kept
      ensures margin == old(margin)
    {
      var index: int;
      match w {
        case AtPoint(p) =>
          index := IndexOf(p);
        case AtNearest(NoNearest) =>
          index := -1;
        case AtNearest(NearestAt(i, p, _)) =>
          if i != 0 {
            index := i;
          } else {
            index := IndexOf(p);
          }
      }
      result := null;
      if -1 != index {
        var cut := if index <= |coords| then index else |coords|;
        result := new LineString(coords[cut..], "");
        coords := coords[..cut];
        if inclusive {
          Push(CutPoint(w));
        }
      }
    }

    /** `getStartPoint` (kml.js:417-419); `undefined` on an empty track. */
    function StartPoint(): (r: Option<LatLong>)
      reads this
      ensures r.Some? <==> coords != []
      ensures r.Some? ==> r.value == coords[0]
    {
      if coords == [] then None else Some(coords[0])
    }

    /** `getEndPoint` (kml.js:421-423); `undefined` on an empty track. */
    function EndPoint(): (r: Option<LatLong>)
      reads this
      ensures r.Some? <==> coords != []
      ensures r.Some? ==> r.value == coords[|coords| - 1]
    {
      if coords == [] then None else Some(Last(coords))
    }

    /** `indexOf` (kml.js:425-436): the first point equal to `p`, or -1. */
    method IndexOf(p: LatLong) returns (result: int)
      ensures result == FirstMatch(coords, p)
    {
      result := -1;
      var i := 0;
      while i < |coords|
        invariant 0 <= i <= |coords|
        invariant forall j :: 0 <= j < i ==> !IsEqual(coords[j], p)
      {
        if IsEqual(coords[i], p) {
          result := i;
          break;
        }
        i := i + 1;
      }
    }

    /** `toXMLString` (kml.js:438-453). */
    method ToXMLString(fmt: NumberFormatter) returns (result: string)
      ensures result == XmlText(coords, margin, fmt)
    {
      result := margin;
      var i := 0;
      while i < |coords|
        invariant 0 <= i <= |coords|
        invariant result == margin + Join(Formats(coords[..i], fmt), ' ')
      {
        FormatsSnoc(coords, i, fmt);
        if i != 0 {
          result := result + " ";
        }
        result := result + Format(coords[i], fmt);
        i := i + 1;
      }
      assert coords[..i] == coords;
      result := result + margin;
    }
  }

  /** The points parsed so far in front of what the rest parses to. */
  function Then(done: seq<LatLong>, rest: Option<seq<LatLong>>): Option<seq<LatLong>> {
    match rest
    case None => None
    case Some(ps) => Some(done + ps)
  }

  lemma ThenAppend(done: seq<LatLong>, p: LatLong, rest: Option<seq<LatLong>>)
    ensures Then(done, Then([p], rest)) == Then(done + [p], rest)
  {
    if rest.Some? {
      assert done + ([p] + rest.value) == done + [p] + rest.value;
    }
  }
}
