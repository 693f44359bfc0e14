/** The geometry of a track as a value: an ordered sequence of points. These
    are the reference definitions the `LineString` methods are proved against,
    with the properties the track operations promise. */
module Polyline {
  import opened Wrappers
  import opened Text
  import opened LatLongs

  /** The empirical factor `distance` multiplies a track's length by, to agree
      with Google Earth (kml.js:351). */
  const EarthCorrection: real := 1.01329122253

  /** Kilometres to miles (kml.js:303, 354). */
  const MilesPerKilometre: real := 0.621371

  function Last<T>(s: seq<T>): T
    requires |s| > 0
  {
    s[|s| - 1]
  }

  // ---------------------------------------------------------------- reverse

  /** The points in the opposite order (`Array.prototype.reverse`). */
  function Reversed(s: seq<LatLong>): (r: seq<LatLong>)
    ensures |r| == |s|
  {
    if s == [] then [] else [Last(s)] + Reversed(s[..|s| - 1])
  }

  lemma {:induction false} ReversedAt(s: seq<LatLong>, k: nat)
    requires k < |s|
    ensures Reversed(s)[k] == s[|s| - 1 - k]
    decreases |s|
  {
    if k > 0 {
      ReversedAt(s[..|s| - 1], k - 1);
    }
  }

  /** Reversing twice restores the original order. */
  lemma ReversedTwice(s: seq<LatLong>)
    ensures Reversed(Reversed(s)) == s
  {
    forall k | 0 <= k < |s| ensures Reversed(Reversed(s))[k] == s[k] {
      ReversedAt(Reversed(s), k);
      ReversedAt(s, |s| - 1 - k);
    }
  }

  /** Reversal swaps the first and the last point. */
  lemma ReversedEnds(s: seq<LatLong>)
    requires s != []
    ensures Reversed(s)[0] == Last(s) && Last(Reversed(s)) == s[0]
  {
    ReversedAt(s, |s| - 1);
  }

  // ---------------------------------------------------------------- indexOf

  /** The first index whose point `IsEqual`s `p`, or -1 (kml.js:425-436). */
  function FirstMatch(s: seq<LatLong>, p: LatLong): (r: int)
    ensures -1 <= r < |s|
    ensures r == -1 <==> forall j :: 0 <= j < |s| ==> !IsEqual(s[j], p)
    ensures r >= 0 ==> IsEqual(s[r], p) && forall j :: 0 <= j < r ==> !IsEqual(s[j], p)
  {
    if s == [] then -1
    else if IsEqual(s[0], p) then 0
    else
      var r := FirstMatch(s[1..], p);
      assert forall j :: 1 <= j < |s| ==> s[j] == s[1..][j - 1];
      if r == -1 then -1 else r + 1
  }

  // ---------------------------------------------------------------- distance

  /** The sum of the distances between consecutive points, uncorrected. */
  function Legs(s: seq<LatLong>, dist: Metric): real
  {
    if |s| < 2 then 0.0 else Legs(s[..|s| - 1], dist) + dist(s[|s| - 2], s[|s| - 1])
  }

  ghost predicate Symmetric(dist: Metric) {
    forall p, q :: dist(p, q) == dist(q, p)
  }

  /** The length of two joined tracks is their lengths plus the leg that joins them. */
  lemma {:induction false} LegsAppend(a: seq<LatLong>, b: seq<LatLong>, dist: Metric)
    requires |a| > 0 && |b| > 0
    ensures Legs(a + b, dist) == Legs(a, dist) + dist(Last(a), b[0]) + Legs(b, dist)
    decreases |b|
  {
    var s := a + b;
    if |b| == 1 {
      assert s[..|s| - 1] == a;
    } else {
      assert s[..|s| - 1] == a + b[..|b| - 1];
      LegsAppend(a, b[..|b| - 1], dist);
    }
  }

  /** With a symmetric distance, a reversed track is exactly as long. */
  lemma {:induction false} LegsReversed(s: seq<LatLong>, dist: Metric)
    requires Symmetric(dist)
    ensures Legs(Reversed(s), dist) == Legs(s, dist)
    decreases |s|
  {
    if |s| >= 2 {
      var init := s[..|s| - 1];
      LegsReversed(init, dist);
      ReversedAt(init, 0);
      LegsAppend([Last(s)], Reversed(init), dist);
      assert dist(Last(s), Last(init)) == dist(Last(init), Last(s));
    }
  }

  // ---------------------------------------------------------------- parseCoordinates

  /** A track as a value: its points and the white space it was written with. */
  datatype Track = Track(points: seq<LatLong>, margin: string)

  /** The tokens that are not empty, in order. */
  function Words(tokens: seq<string>): (ws: seq<string>)
    ensures |ws| <= |tokens|
    ensures forall k :: 0 <= k < |ws| ==> ws[k] != "" && ws[k] in tokens
  {
    if tokens == [] then []
    else if tokens[0] == "" then Words(tokens[1..])
    else [tokens[0]] + Words(tokens[1..])
  }

  /** The parse loop of kml.js:266-278: every non-empty token through
      `LatLong.parse`, stopping with no result at the first that fails. */
  function ParsePoints(tokens: seq<string>, num: NumberParser): Option<seq<LatLong>>
  {
    if tokens == [] then Some([])
    else if tokens[0] == "" then ParsePoints(tokens[1..], num)
    else match Parse(tokens[0], num)
      case None => None
      case Some(p) =>
        match ParsePoints(tokens[1..], num)
        case None => None
        case Some(ps) => Some([p] + ps)
  }

  /** Every one of `words` is a valid point. */
  ghost predicate AllParse(words: seq<string>, num: NumberParser) {
    forall k :: 0 <= k < |words| ==> Parse(words[k], num).Some?
  }

  /** `ps` are the points of `words`, one each, in order. */
  ghost predicate ParsedAs(words: seq<string>, num: NumberParser, ps: seq<LatLong>) {
    |ps| == |words| && forall k :: 0 <= k < |ps| ==> Some(ps[k]) == Parse(words[k], num)
  }

  lemma AllParseCons(w: string, rest: seq<string>, num: NumberParser)
    ensures AllParse([w] + rest, num) <==> Parse(w, num).Some? && AllParse(rest, num)
  {
    var ws := [w] + rest;
    assert ws[0] == w;
    assert forall k :: 1 <= k < |ws| ==> ws[k] == rest[k - 1];
    if Parse(w, num).Some? && AllParse(rest, num) {
      forall k | 0 <= k < |ws| ensures Parse(ws[k], num).Some? {
        if k > 0 { assert ws[k] == rest[k - 1]; }
      }
    }
    if AllParse(ws, num) {
      forall k | 0 <= k < |rest| ensures Parse(rest[k], num).Some? {
        assert ws[k + 1] == rest[k];
      }
    }
  }

  lemma ParsedCons(w: string, rest: seq<string>, num: NumberParser, p: LatLong, ps: seq<LatLong>)
    requires Parse(w, num) == Some(p) && ParsedAs(rest, num, ps)
    ensures ParsedAs([w] + rest, num, [p] + ps)
  {
    var ws, qs := [w] + rest, [p] + ps;
    forall k | 0 <= k < |qs| ensures Some(qs[k]) == Parse(ws[k], num) {
      if k > 0 { assert qs[k] == ps[k - 1] && ws[k] == rest[k - 1]; }
    }
  }

  /** The tokens parse exactly when every non-empty one does, and then the
      points are the parsed words in order. */
  lemma {:induction false} ParsePointsWords(tokens: seq<string>, num: NumberParser)
    ensures ParsePoints(tokens, num).Some? <==> AllParse(Words(tokens), num)
    ensures ParsePoints(tokens, num).Some? ==> ParsedAs(Words(tokens), num, ParsePoints(tokens, num).value)
    decreases |tokens|
  {
    if tokens != [] {
      var rest := Words(tokens[1..]);
      ParsePointsWords(tokens[1..], num);
      if tokens[0] == "" {
        assert Words(tokens) == rest;
        assert ParsePoints(tokens, num) == ParsePoints(tokens[1..], num);
      } else {
        assert Words(tokens) == [tokens[0]] + rest;
        AllParseCons(tokens[0], rest, num);
        if Parse(tokens[0], num).Some? && ParsePoints(tokens[1..], num).Some? {
          ParsedCons(tokens[0], rest, num, Parse(tokens[0], num).value, ParsePoints(tokens[1..], num).value);
        }
      }
    }
  }

  /** `LineString.parseCoordinates` (kml.js:254-286) on a string: nothing for
      the empty string; otherwise the tokens between runs of white space,
      parsed, with the leading white space kept as the margin. */
  function ParseCoordinates(text: string, num: NumberParser): (r: Option<Track>)
    ensures r.Some? ==> r.value.margin == LeadingSpace(text) && AllSpace(r.value.margin)
  {
    if text == "" then None
    else match ParsePoints(SplitRuns(text), num)
      case None => None
      case Some(ps) => Some(Track(ps, LeadingSpace(text)))
  }

  /** What `parseCoordinates` promises: a track exactly when the text is not
      empty and every white-space separated token is a valid point, its points
      those tokens in order, its margin the leading white space (possibly "");
      otherwise no track at all, never a partial one. */
  lemma ParseCoordinatesWords(text: string, num: NumberParser)
    ensures var words := Words(SplitRuns(text));
      && (ParseCoordinates(text, num).Some? <==>
            text != "" && forall k :: 0 <= k < |words| ==> Parse(words[k], num).Some?)
      && (ParseCoordinates(text, num).Some? ==>
            var t := ParseCoordinates(text, num).value;
            && |t.points| == |words|
            && (forall k :: 0 <= k < |words| ==> Some(t.points[k]) == Parse(words[k], num))
            && t.margin == LeadingSpace(text))
  {
    ParsePointsWords(SplitRuns(text), num);
    if text == "" {
      assert ParseCoordinates(text, num) == None;
    } else {
      assert ParseCoordinates(text, num).Some? <==> ParsePoints(SplitRuns(text), num).Some?;
    }
  }

  // ---------------------------------------------------------------- toXMLString

  function Formats(s: seq<LatLong>, fmt: NumberFormatter): (ws: seq<string>)
    ensures |ws| == |s|
    ensures forall k :: 0 <= k < |s| ==> ws[k] == Format(s[k], fmt)
  {
    seq(|s|, k requires 0 <= k < |s| => Format(s[k], fmt))
  }

  /** One more point's text: joined on after a single space, or alone for
      the first point. */
  lemma FormatsSnoc(s: seq<LatLong>, i: nat, fmt: NumberFormatter)
    requires i < |s|
    ensures Join(Formats(s[..i + 1], fmt), ' ')
         == if i == 0 then Format(s[i], fmt) else Join(Formats(s[..i], fmt), ' ') + " " + Format(s[i], fmt)
  {
    assert Formats(s[..i + 1], fmt) == Formats(s[..i], fmt) + [Format(s[i], fmt)];
    JoinSnoc(Formats(s[..i], fmt), Format(s[i], fmt), ' ');
  }

  /** `LineString.prototype.toXMLString` (kml.js:438-453): the margin, the
      points' "long,lat,alt" texts joined by single spaces, the margin again. */
  function XmlText(s: seq<LatLong>, margin: string, fmt: NumberFormatter): string {
    margin + Join(Formats(s, fmt), ' ') + margin
  }

  /** The points with their altitude dropped to 0, as they read back. */
  function Grounded(s: seq<LatLong>): (r: seq<LatLong>)
    ensures |r| == |s|
    ensures forall k :: 0 <= k < |s| ==> r[k] == LatLong(s[k].lat, s[k].long, 0.0) && IsEqual(r[k], s[k])
  {
    seq(|s|, k requires 0 <= k < |s| => LatLong(s[k].lat, s[k].long, 0.0))
  }

  lemma {:induction false} WordsAppend(a: seq<string>, b: seq<string>)
    ensures Words(a + b) == Words(a) + Words(b)
    decreases |a|
  {
    if a == [] {
      assert a + b == b;
    } else {
      assert (a + b)[1..] == a[1..] + b;
      WordsAppend(a[1..], b);
    }
  }

  lemma {:induction false} WordsOfWords(ws: seq<string>)
    requires forall k :: 0 <= k < |ws| ==> ws[k] != ""
    ensures Words(ws) == ws
    decreases |ws|
  {
    if ws != [] {
      WordsOfWords(ws[1..]);
      assert [ws[0]] + ws[1..] == ws;
    }
  }

  lemma WordsFramed(ws: seq<string>)
    requires forall k :: 0 <= k < |ws| ==> ws[k] != ""
    ensures Words([""] + ws + [""]) == ws
  {
    WordsOfWords(ws);
    WordsAppend([""] + ws, [""]);
    WordsAppend([""], ws);
    assert Words([""]) == [];
    assert ws + [] == ws && [] + ws == ws;
  }

  /** Every point of the track is written and read back faithfully. */
  ghost predicate AllNumerals(s: seq<LatLong>, num: NumberParser, fmt: NumberFormatter) {
    forall k :: 0 <= k < |s| ==> PointNumerals(s[k], num, fmt)
  }

  /** Every number of every point is written without white space or comma,
      as any numeral is. */
  ghost predicate PlainTexts(s: seq<LatLong>, fmt: NumberFormatter) {
    forall k :: 0 <= k < |s| ==>
      && NoSpace(fmt(s[k].long)) && ',' !in fmt(s[k].long)
      && NoSpace(fmt(s[k].lat)) && ',' !in fmt(s[k].lat)
      && NoSpace(fmt(s[k].alt)) && ',' !in fmt(s[k].alt)
  }

  /** The formatted points are words: not empty and free of white space. */
  lemma FormatsAreWords(s: seq<LatLong>, fmt: NumberFormatter)
    requires PlainTexts(s, fmt)
    ensures forall k :: 0 <= k < |s| ==> Formats(s, fmt)[k] != "" && NoSpace(Formats(s, fmt)[k])
  {
    var words := Formats(s, fmt);
    forall k | 0 <= k < |words| ensures words[k] != "" && NoSpace(words[k]) {
      var p := s[k];
      var a, b, c := fmt(p.long), fmt(p.lat), fmt(p.alt);
      assert NoSpace(a) && NoSpace(b) && NoSpace(c);
      assert words[k] == a + [','] + b + [','] + c;
      assert !IsSpace(',');
    }
  }

  /** The non-empty tokens of a track's text are its formatted points, its
      leading white space is the margin, and it is not empty. */
  lemma XmlTextWords(s: seq<LatLong>, margin: string, fmt: NumberFormatter)
    requires PlainTexts(s, fmt) && AllSpace(margin) && |s| >= 1
    ensures Words(SplitRuns(XmlText(s, margin, fmt))) == Formats(s, fmt)
    ensures LeadingSpace(XmlText(s, margin, fmt)) == margin
    ensures XmlText(s, margin, fmt) != ""
  {
    var words := Formats(s, fmt);
    FormatsAreWords(s, fmt);
    SplitRunsFramed(words, margin);
    WordsOfWords(words);
    WordsFramed(words);
    assert |XmlText(s, margin, fmt)| >= |words[0]|;
  }

  /** Reading back the text of a non-empty track whose margin is white space
      gives the same margin and the same points, up to their altitude. */
  lemma ParseXmlText(s: seq<LatLong>, margin: string, num: NumberParser, fmt: NumberFormatter)
    requires AllNumerals(s, num, fmt)
    requires AllSpace(margin)
    requires |s| >= 1
    ensures ParseCoordinates(XmlText(s, margin, fmt), num) == Some(Track(Grounded(s), margin))
  {
    var words := Formats(s, fmt);
    var tokens := SplitRuns(XmlText(s, margin, fmt));
    XmlTextWords(s, margin, fmt);
    ParsePointsWords(tokens, num);
    forall k | 0 <= k < |words| ensures Parse(words[k], num) == Some(Grounded(s)[k]) {
      ParseFormat(s[k], num, fmt);
    }
    var ps := ParsePoints(tokens, num).value;
    assert ps == Grounded(s);
  }

  /** Reading back the text of a track fails, and yields no partial track,
      as soon as one point's longitude or latitude is written as text that
      does not read back as a number. */
  lemma ParseXmlTextFails(s: seq<LatLong>, margin: string, num: NumberParser, fmt: NumberFormatter, k: nat)
    requires PlainTexts(s, fmt) && AllSpace(margin) && k < |s|
    requires num(fmt(s[k].long)).None? || num(fmt(s[k].lat)).None?
    ensures ParseCoordinates(XmlText(s, margin, fmt), num).None?
  {
    var text := XmlText(s, margin, fmt);
    XmlTextWords(s, margin, fmt);
    ParseCoordinatesWords(text, num);
    ParseFormatNaN(s[k], num, fmt);
    assert Words(SplitRuns(text))[k] == Format(s[k], fmt);
  }

  // ---------------------------------------------------------------- splitAtMileage

  /** The limit `splitAtMileage` compares its running distance against:
      miles become kilometres first (kml.js:302-304). */
  function MileageLimit(mileage: real, inMiles: bool): real {
    if inMiles then mileage / MilesPerKilometre else mileage
  }

  /** The loop of kml.js:306-317 from point `i` on, with the open segment
      `cur`, the running distance `accum` and the previous point `last`. A
      segment closes, with the point that closed it, once the running
      distance exceeds the limit or at the final point; the next one starts
      from that same point. */
  function SegmentsFrom(s: seq<LatLong>, dist: Metric, limit: real, i: nat,
                        cur: seq<LatLong>, accum: real, last: LatLong): seq<seq<LatLong>>
    requires i <= |s|
    decreases |s| - i
  {
    if i == |s| then []
    else
      var cur' := cur + [s[i]];
      var accum' := accum + dist(s[i], last);
      if accum' > limit || i == |s| - 1 then
        [cur'] + SegmentsFrom(s, dist, limit, i + 1, [s[i]], 0.0, s[i])
      else
        SegmentsFrom(s, dist, limit, i + 1, cur', accum', s[i])
  }

  /** One step of the loop behind the segments `done` already closed:
      either the open segment closes with point `i` and a new one starts from
      it, or point `i` joins the open segment. */
  lemma SegmentsStep(s: seq<LatLong>, dist: Metric, limit: real, i: nat,
                     cur: seq<LatLong>, accum: real, last: LatLong, done: seq<seq<LatLong>>)
    requires i < |s|
    ensures var accum' := accum + dist(s[i], last);
      done + SegmentsFrom(s, dist, limit, i, cur, accum, last)
      == if accum' > limit || i == |s| - 1
         then (done + [cur + [s[i]]]) + SegmentsFrom(s, dist, limit, i + 1, [s[i]], 0.0, s[i])
         else done + SegmentsFrom(s, dist, limit, i + 1, cur + [s[i]], accum', s[i])
  {
    var accum' := accum + dist(s[i], last);
    if accum' > limit || i == |s| - 1 {
      var next := SegmentsFrom(s, dist, limit, i + 1, [s[i]], 0.0, s[i]);
      assert done + ([cur + [s[i]]] + next) == (done + [cur + [s[i]]]) + next;
    }
  }

  /** `LineString.prototype.splitAtMileage` (kml.js:293-320) on the points. */
  function SplitAtMileage(s: seq<LatLong>, dist: Metric, mileage: real, inMiles: bool): seq<seq<LatLong>> {
    if s == [] then [] else SegmentsFrom(s, dist, MileageLimit(mileage, inMiles), 0, [], 0.0, s[0])
  }

  /** Every segment but the first without its first point (the one it shares
      with the segment before), all concatenated. */
  function DropHeads(segs: seq<seq<LatLong>>): seq<LatLong> {
    if segs == [] then []
    else (if segs[0] == [] then [] else segs[0][1..]) + DropHeads(segs[1..])
  }

  /** `r` are segments whose first one extends `cur`, each later one starts
      at the point the one before ended with, the last ends at the last of
      `rest`, and which rebuild `cur + rest` without their shared points. */
  ghost predicate Chained(r: seq<seq<LatLong>>, cur: seq<LatLong>, rest: seq<LatLong>) {
    && |r| >= 1 && rest != []
    && (forall k :: 0 <= k < |r| ==> r[k] != [])
    && |r[0]| > |cur| && r[0][..|cur|] == cur
    && (forall k :: 1 <= k < |r| ==> |r[k]| >= 2 && r[k][0] == Last(r[k - 1]))
    && Last(Last(r)) == Last(rest)
    && r[0] + DropHeads(r[1..]) == cur + rest
  }

  /** The last point closes the open segment. */
  lemma ChainedLast(cur: seq<LatLong>, p: LatLong)
    ensures Chained([cur + [p]], cur, [p])
  {
    assert (cur + [p])[..|cur|] == cur;
    assert DropHeads([]) == [];
  }

  /** A point joins the open segment. */
  lemma ChainedJoin(r: seq<seq<LatLong>>, cur: seq<LatLong>, p: LatLong, rest: seq<LatLong>)
    requires Chained(r, cur + [p], rest)
    ensures Chained(r, cur, [p] + rest)
  {
    assert r[0][..|cur|] == r[0][..|cur + [p]|][..|cur|];
    assert (cur + [p]) + rest == cur + ([p] + rest);
  }

  /** A point closes the open segment and starts the next one. */
  lemma ChainedClose(r: seq<seq<LatLong>>, cur: seq<LatLong>, p: LatLong, rest: seq<LatLong>)
    requires Chained(r, [p], rest)
    ensures Chained([cur + [p]] + r, cur, [p] + rest)
  {
    var r' := [cur + [p]] + r;
    assert r'[1..] == r;
    assert forall k :: 1 <= k < |r'| ==> r'[k] == r[k - 1];
    assert (cur + [p])[..|cur|] == cur;
    assert DropHeads(r) == r[0][1..] + DropHeads(r[1..]);
    assert r[0] == [p] + r[0][1..];
    var x := r[0][1..] + DropHeads(r[1..]);
    assert [p] + x == [p] + rest;
    assert x == ([p] + x)[1..] && rest == ([p] + rest)[1..];
  }

  lemma {:induction false} SegmentsFromShape(s: seq<LatLong>, dist: Metric, limit: real, i: nat,
                                             cur: seq<LatLong>, accum: real, last: LatLong)
    requires i < |s|
    ensures Chained(SegmentsFrom(s, dist, limit, i, cur, accum, last), cur, s[i..])
    decreases |s| - i
  {
    var cur' := cur + [s[i]];
    var accum' := accum + dist(s[i], last);
    assert s[i..] == [s[i]] + s[i + 1..];
    if i == |s| - 1 {
      ChainedLast(cur, s[i]);
    } else if accum' > limit {
      SegmentsFromShape(s, dist, limit, i + 1, [s[i]], 0.0, s[i]);
      ChainedClose(SegmentsFrom(s, dist, limit, i + 1, [s[i]], 0.0, s[i]), cur, s[i], s[i + 1..]);
    } else {
      SegmentsFromShape(s, dist, limit, i + 1, cur', accum', s[i]);
      ChainedJoin(SegmentsFrom(s, dist, limit, i + 1, cur', accum', s[i]), cur, s[i], s[i + 1..]);
    }
  }

  /** What `splitAtMileage` promises: no segments for no points; otherwise
      non-empty segments, the first starting at the first point, each later
      one starting at the point the one before ended with, the last ending
      at the final point, and the segments without their shared first points
      rebuilding the track exactly. */
  lemma SplitAtMileageShape(s: seq<LatLong>, dist: Metric, mileage: real, inMiles: bool)
    ensures var r := SplitAtMileage(s, dist, mileage, inMiles);
      && (s == [] <==> r == [])
      && (s != [] ==>
            && (forall k :: 0 <= k < |r| ==> r[k] != [])
            && r[0][0] == s[0]
            && (forall k :: 1 <= k < |r| ==> r[k][0] == Last(r[k - 1]))
            && Last(Last(r)) == Last(s)
            && r[0] + DropHeads(r[1..]) == s)
  {
    if s != [] {
      SegmentsFromShape(s, dist, MileageLimit(mileage, inMiles), 0, [], 0.0, s[0]);
      assert [] + s[0..] == s;
    }
  }

  /** The distance the loop of kml.js:306-317 has run within a segment up
      to its point `j`, beyond the value it opened with: each point adds its
      distance from the point before, measured as `point.distance(last)`. */
  function Run(seg: seq<LatLong>, dist: Metric, j: nat): real
    requires j < |seg|
  {
    if j == 0 then 0.0 else Run(seg, dist, j - 1) + dist(seg[j], seg[j - 1])
  }

  /** One segment cut by the running distance, which opens with `o`: it
      stays within `limit` at every point from point `lo` up to the last,
      and, when the segment was `closed` by the distance rather than by the
      end of the track, exceeds `limit` at the last point. */
  ghost predicate SegmentPaced(seg: seq<LatLong>, dist: Metric, limit: real, o: real, lo: nat, closed: bool) {
    && seg != []
    && (forall j :: lo <= j < |seg| - 1 ==> o + Run(seg, dist, j) <= limit)
    && (closed ==> o + Run(seg, dist, |seg| - 1) > limit)
  }

  /** Segments cut by the running distance: the first opens with `o` and is
      watched from its point `lo`; every later one opens with 0 and is
      watched from its second point, its first being where the one before
      closed. Every segment but the final one was closed by the distance. */
  ghost predicate Paced(r: seq<seq<LatLong>>, dist: Metric, limit: real, o: real, lo: nat) {
    forall k :: 0 <= k < |r| ==>
      SegmentPaced(r[k], dist, limit, if k == 0 then o else 0.0, if k == 0 then lo else 1, k < |r| - 1)
  }

  lemma {:induction false} RunPrefix(a: seq<LatLong>, b: seq<LatLong>, dist: Metric, j: nat)
    requires j < |a|
    ensures Run(a + b, dist, j) == Run(a, dist, j)
  {
    if j > 0 {
      RunPrefix(a, b, dist, j - 1);
      assert (a + b)[j] == a[j] && (a + b)[j - 1] == a[j - 1];
    }
  }

  /** A closed segment in front of segments paced from a fresh start. */
  lemma PacedCons(seg: seq<LatLong>, rest: seq<seq<LatLong>>, dist: Metric, limit: real, o: real, lo: nat)
    requires SegmentPaced(seg, dist, limit, o, lo, rest != []) && Paced(rest, dist, limit, 0.0, 1)
    ensures Paced([seg] + rest, dist, limit, o, lo)
  {
    var r := [seg] + rest;
    forall k | 0 <= k < |r|
      ensures SegmentPaced(r[k], dist, limit, if k == 0 then o else 0.0, if k == 0 then lo else 1, k < |r| - 1)
    {
      if k > 0 {
        assert r[k] == rest[k - 1];
      }
    }
  }

  /** The loop from point `i` on, with an open segment `cur` whose running
      distance, opened with `o`, is `accum` and has stayed within the limit
      from point `lo` on, yields paced segments. */
  lemma {:induction false} SegmentsPaced(s: seq<LatLong>, dist: Metric, limit: real, i: nat,
                                         cur: seq<LatLong>, accum: real, o: real, lo: nat)
    requires i < |s| && cur != [] && lo <= |cur|
    requires accum == o + Run(cur, dist, |cur| - 1)
    requires forall j :: lo <= j < |cur| ==> o + Run(cur, dist, j) <= limit
    ensures Paced(SegmentsFrom(s, dist, limit, i, cur, accum, Last(cur)), dist, limit, o, lo)
    decreases |s| - i
  {
    var cur' := cur + [s[i]];
    var accum' := accum + dist(s[i], Last(cur));
    RunPrefix(cur, [s[i]], dist, |cur| - 1);
    forall j | 0 <= j < |cur| ensures Run(cur', dist, j) == Run(cur, dist, j) {
      RunPrefix(cur, [s[i]], dist, j);
    }
    assert accum' == o + Run(cur', dist, |cur'| - 1);
    if accum' > limit || i == |s| - 1 {
      var rest := SegmentsFrom(s, dist, limit, i + 1, [s[i]], 0.0, s[i]);
      if i + 1 < |s| {
        SegmentsPaced(s, dist, limit, i + 1, [s[i]], 0.0, 0.0, 1);
      }
      PacedCons(cur', rest, dist, limit, o, lo);
    } else {
      SegmentsPaced(s, dist, limit, i + 1, cur', accum', o, lo);
    }
  }

  /** What `splitAtMileage` promises of where it cuts: each segment closes
      at the first point at which the loop's running distance exceeds the
      limit, miles turned into kilometres first, and the final segment never
      exceeds it before its last point. The running distance starts at 0
      with every segment, and the first one also counts the first point's
      distance from itself. */
  lemma SplitAtMileagePaced(s: seq<LatLong>, dist: Metric, mileage: real, inMiles: bool)
    requires s != []
    ensures Paced(SplitAtMileage(s, dist, mileage, inMiles), dist, MileageLimit(mileage, inMiles), dist(s[0], s[0]), 0)
  {
    var limit := MileageLimit(mileage, inMiles);
    var o := dist(s[0], s[0]);
    var accum' := 0.0 + dist(s[0], s[0]);
    assert [] + [s[0]] == [s[0]] && Last([s[0]]) == s[0];
    assert SplitAtMileage(s, dist, mileage, inMiles) == SegmentsFrom(s, dist, limit, 0, [], 0.0, s[0]);
    if accum' > limit || 0 == |s| - 1 {
      var rest := SegmentsFrom(s, dist, limit, 1, [s[0]], 0.0, s[0]);
      if 1 < |s| {
        SegmentsPaced(s, dist, limit, 1, [s[0]], 0.0, 0.0, 1);
      }
      PacedCons([] + [s[0]], rest, dist, limit, o, 0);
    } else {
      SegmentsPaced(s, dist, limit, 1, [s[0]], accum', o, 0);
      assert SegmentsFrom(s, dist, limit, 0, [], 0.0, s[0]) == SegmentsFrom(s, dist, limit, 1, [s[0]], accum', s[0]);
    }
  }

  // ---------------------------------------------------------------- nearestPointTo

  /** The result of `nearestPointTo`: its initial value (index -1, no point,
      infinite distance), or an index with its point and distance. */
  datatype Nearest = NoNearest | NearestAt(index: nat, point: LatLong, distance: real)

  /** `r` is what `nearestPointTo(q)` returns on `s` (kml.js:384-398): for no
      points, the initial value; otherwise a point at minimal distance from
      `q`, the earliest such, since only a strictly smaller distance replaces it. */
  ghost predicate IsNearest(s: seq<LatLong>, q: LatLong, dist: Metric, r: Nearest) {
    if s == [] then r == NoNearest
    else
      && r.NearestAt?
      && r.index < |s|
      && r.point == s[r.index]
      && r.distance == dist(q, s[r.index])
      && (forall j :: 0 <= j < |s| ==> r.distance <= dist(q, s[j]))
      && (forall j :: 0 <= j < r.index ==> dist(q, s[j]) > r.distance)
  }

  // ---------------------------------------------------------------- split

  /** What `split` is given: a point, or a `nearestPointTo` result. */
  datatype Where = AtPoint(point: LatLong) | AtNearest(near: Nearest)

  /** `where.index || this.indexOf(where)` (kml.js:402): an index of 0 is falsy
      and falls back to looking the point up; -1 is truthy and is kept. */
  function CutIndex(s: seq<LatLong>, w: Where): (k: int)
    ensures k >= -1
  {
    match w
    case AtPoint(p) => FirstMatch(s, p)
    case AtNearest(NoNearest) => -1
    case AtNearest(NearestAt(i, p, _)) => if i != 0 then i else FirstMatch(s, p)
  }

  /** `where.latLong || where` (kml.js:403), for a `where` that resolves. */
  function CutPoint(w: Where): LatLong
    requires w.AtPoint? || w.near.NearestAt?
  {
    if w.AtPoint? then w.point else w.near.point
  }

  /** The two halves `split` leaves: the points kept, and the tail handed out. */
  datatype Halves = Halves(kept: seq<LatLong>, tail: seq<LatLong>)

  /** `LineString.prototype.split` (kml.js:400-415) on the points: `splice`
      cuts the tail off at the resolved index (clamped to the length, as
      `splice` does), and `inclusive` appends the cut point to the kept half. */
  function SplitAt(s: seq<LatLong>, w: Where, inclusive: bool): (r: Option<Halves>)
    ensures r.None? <==> CutIndex(s, w) == -1
    ensures r.Some? ==>
      && |r.value.tail| <= |s|
      && r.value.tail == s[|s| - |r.value.tail|..]
      && |r.value.kept| == |s| - |r.value.tail| + (if inclusive then 1 else 0)
      && r.value.kept[..|s| - |r.value.tail|] == s[..|s| - |r.value.tail|]
    ensures r.Some? ==> |s| - |r.value.tail| == if CutIndex(s, w) <= |s| then CutIndex(s, w) else |s|
    ensures r.Some? && inclusive ==> Last(r.value.kept) == CutPoint(w)
  {
    var k := CutIndex(s, w);
    if k == -1 then None
    else
      var cut := if k <= |s| then k else |s|;
      Some(Halves(s[..cut] + (if inclusive then [CutPoint(w)] else []), s[cut..]))
  }

  /** Without `inclusive`, the kept half and the tail make up the track again. */
  lemma SplitAtRejoins(s: seq<LatLong>, w: Where)
    requires CutIndex(s, w) != -1
    ensures SplitAt(s, w, false).Some?
    ensures SplitAt(s, w, false).value.kept + SplitAt(s, w, false).value.tail == s
  {
    var h := SplitAt(s, w, false).value;
    assert h.kept == s[..|s| - |h.tail|];
  }

  /** Splitting at a point cuts before its first occurrence; with `inclusive`
      both halves hold the point: the kept half ends with it, the tail starts
      with a point equal to it. */
  lemma SplitAtPoint(s: seq<LatLong>, p: LatLong, inclusive: bool)
    requires FirstMatch(s, p) != -1
    ensures var h := SplitAt(s, AtPoint(p), inclusive).value;
      && |h.tail| >= 1 && IsEqual(h.tail[0], p)
      && (forall j :: 0 <= j < |s| - |h.tail| ==> !IsEqual(s[j], p))
      && (inclusive ==> Last(h.kept) == p)
  {
  }

  /** A `nearestPointTo` result of the same track cuts exactly at its index,
      even at index 0, where `where.index` is falsy and the point is looked up. */
  lemma NearestCut(s: seq<LatLong>, q: LatLong, dist: Metric, n: Nearest, inclusive: bool)
    requires s != [] && IsNearest(s, q, dist, n)
    ensures CutIndex(s, AtNearest(n)) == n.index
    ensures var h := SplitAt(s, AtNearest(n), inclusive).value;
      && h.tail == s[n.index..]
      && h.kept == s[..n.index] + (if inclusive then [s[n.index]] else [])
  {
  }

  // ---------------------------------------------------------------- intersections

  /** An entry of `intersections`: an index of this track and its point. */
  datatype Shared = Shared(index: nat, point: LatLong)

  /** The entries of `intersections` (kml.js:360-372) for the first `i`
      points of `a`: each point that `other.indexOf` finds in `b`, with its
      index, in `a`'s order. */
  function SharedUpTo(a: seq<LatLong>, b: seq<LatLong>, i: nat): seq<Shared>
    requires i <= |a|
  {
    if i == 0 then []
    else SharedUpTo(a, b, i - 1) + (if FirstMatch(b, a[i - 1]) != -1 then [Shared(i - 1, a[i - 1])] else [])
  }

  /** An entry is listed exactly when its point is the point of `a` at its
      index and some point of `b` equals it. */
  lemma {:induction false} SharedUpToSpec(a: seq<LatLong>, b: seq<LatLong>, i: nat)
    requires i <= |a|
    ensures forall x :: x in SharedUpTo(a, b, i) <==>
      x.index < i && x.point == a[x.index] && exists j :: 0 <= j < |b| && IsEqual(b[j], a[x.index])
  {
    if i > 0 {
      SharedUpToSpec(a, b, i - 1);
      var before := SharedUpTo(a, b, i - 1);
      var tail := if FirstMatch(b, a[i - 1]) != -1 then [Shared(i - 1, a[i - 1])] else [];
      assert SharedUpTo(a, b, i) == before + tail;
      forall x ensures x in SharedUpTo(a, b, i) <==>
        x.index < i && x.point == a[x.index] && exists j :: 0 <= j < |b| && IsEqual(b[j], a[x.index])
      {
        assert x in SharedUpTo(a, b, i) <==> x in before || x in tail;
      }
    }
  }

  /** The entries' indices strictly increase. */
  lemma {:induction false} SharedUpToOrdered(a: seq<LatLong>, b: seq<LatLong>, i: nat)
    requires i <= |a|
    ensures forall x :: x in SharedUpTo(a, b, i) ==> x.index < i
    ensures forall m, n :: 0 <= m < n < |SharedUpTo(a, b, i)| ==>
      SharedUpTo(a, b, i)[m].index < SharedUpTo(a, b, i)[n].index
  {
    if i > 0 {
      SharedUpToOrdered(a, b, i - 1);
      var before := SharedUpTo(a, b, i - 1);
      var r := SharedUpTo(a, b, i);
      if FirstMatch(b, a[i - 1]) != -1 {
        assert r == before + [Shared(i - 1, a[i - 1])];
        forall m, n | 0 <= m < n < |r| ensures r[m].index < r[n].index {
          assert r[m] == before[m] && r[m] in before;
          if n < |before| {
            assert r[n] == before[n];
          }
        }
      } else {
        assert r == before + [];
      }
    }
  }
}
