/** The `LatLong` point value of kml.js: reading it from the two coordinate
    token formats of KML, writing it back, and exact horizontal equality. */
module LatLongs {
  import opened Wrappers
  import opened Text

  /** Latitude and longitude in degrees, altitude in metres (0 when absent). */
  datatype LatLong = LatLong(lat: real, long: real, alt: real)

  /** JavaScript's `parseFloat` on one field; `None` stands for NaN. */
  type NumberParser = string -> Option<real>

  /** JavaScript's conversion of a number to its decimal text. */
  type NumberFormatter = real -> string

  /** The haversine great-circle distance in kilometres. Its value is
      floating-point trigonometry and stays abstract: every operation that
      measures takes it as a parameter. */
  type Metric = (LatLong, LatLong) -> real

  /** What JavaScript's number text and `parseFloat` promise each other for
      the number `x`: its text is non-empty, holds no white space and no
      comma, and reads back as `x`. Every finite double is such a number. */
  ghost predicate Numeral(x: real, num: NumberParser, fmt: NumberFormatter) {
    fmt(x) != "" && NoSpace(fmt(x)) && ',' !in fmt(x) && num(fmt(x)) == Some(x)
  }

  /** The three numbers of a point are each written and read back faithfully. */
  ghost predicate PointNumerals(p: LatLong, num: NumberParser, fmt: NumberFormatter) {
    Numeral(p.long, num, fmt) && Numeral(p.lat, num, fmt) && Numeral(p.alt, num, fmt)
  }

  /** `parseFloat(fields[k])`; a missing field is `undefined`, which reads as NaN. */
  function FieldNumber(fields: seq<string>, k: nat, num: NumberParser): Option<real> {
    if k < |fields| then num(fields[k]) else None
  }

  /** `LatLong.parse` (kml.js:114-131): a "long,lat[,...]" token. Any third
      field is ignored, so the altitude is always 0. */
  function Parse(data: string, num: NumberParser): (r: Option<LatLong>)
    ensures r.Some? <==>
      && data != ""
      && ',' in data
      && num(Split(data, ',')[0]).Some?
      && num(Split(data, ',')[1]).Some?
    ensures r.Some? ==>
      && r.value.long == num(Split(data, ',')[0]).value
      && r.value.lat == num(Split(data, ',')[1]).value
      && r.value.alt == 0.0
  {
    if data == "" then None
    else
      var b := Split(data, ',');
      if |b| >= 2 then
        var lat := num(b[1]);
        var long := num(b[0]);
        if lat.Some? && long.Some? then Some(LatLong(lat.value, long.value, 0.0)) else None
      else None
  }

  /** `LatLong.parseGXCoord` (kml.js:96-112): a "long lat alt" token, split on
      single spaces after trimming. An altitude that is missing, NaN or 0 becomes 0. */
  function ParseGXCoord(data: string, num: NumberParser): Option<LatLong> {
    if data == "" then None
    else
      var b := Split(Trim(data), ' ');
      var lat := FieldNumber(b, 1, num);
      var long := FieldNumber(b, 0, num);
      if lat.Some? && long.Some? then
        Some(LatLong(lat.value, long.value, FieldNumber(b, 2, num).GetOr(0.0)))
      else None
  }

  /** `LatLong.prototype.toString` (kml.js:133-135): "long,lat,alt". */
  function Format(p: LatLong, fmt: NumberFormatter): string {
    fmt(p.long) + "," + fmt(p.lat) + "," + fmt(p.alt)
  }

  /** `LatLong.prototype.isEqual` (kml.js:141-146): exact equality of latitude
      and longitude; the altitude is not compared. */
  predicate IsEqual(p: LatLong, q: LatLong) {
    p.lat == q.lat && p.long == q.long
  }

  lemma JoinThree(a: string, b: string, c: string, sep: char)
    ensures Join([a, b, c], sep) == a + [sep] + b + [sep] + c
  {
    assert [a, b, c][1..] == [b, c];
    assert [b, c][1..] == [c];
    assert Join([b, c], sep) == b + [sep] + c;
    assert Join([a, b, c], sep) == a + [sep] + (b + [sep] + c);
  }

  /** Reading a written point: the fields are the three numbers' texts, so
      the point is read exactly when the longitude's and the latitude's texts
      parse, and then holds what they parse to, with altitude 0. */
  lemma ParseFormatFields(p: LatLong, num: NumberParser, fmt: NumberFormatter)
    requires ',' !in fmt(p.long) && ',' !in fmt(p.lat) && ',' !in fmt(p.alt)
    ensures var long, lat := num(fmt(p.long)), num(fmt(p.lat));
      Parse(Format(p, fmt), num)
      == if long.Some? && lat.Some? then Some(LatLong(lat.value, long.value, 0.0)) else None
  {
    var a, b, c := fmt(p.long), fmt(p.lat), fmt(p.alt);
    JoinThree(a, b, c, ',');
    SplitJoin([a, b, c], ',');
  }

  /** Reading back a written point gives the same latitude and longitude and
      altitude 0: the round trip keeps the point up to `IsEqual` and loses
      the altitude. */
  lemma ParseFormat(p: LatLong, num: NumberParser, fmt: NumberFormatter)
    requires Numeral(p.long, num, fmt) && Numeral(p.lat, num, fmt) && ',' !in fmt(p.alt)
    ensures Parse(Format(p, fmt), num) == Some(LatLong(p.lat, p.long, 0.0))
    ensures IsEqual(Parse(Format(p, fmt), num).value, p)
  {
    ParseFormatFields(p, num, fmt);
  }

  /** A number whose text does not read back as a number makes the written
      point unreadable. */
  lemma ParseFormatNaN(p: LatLong, num: NumberParser, fmt: NumberFormatter)
    requires ',' !in fmt(p.long) && ',' !in fmt(p.lat) && ',' !in fmt(p.alt)
    requires num(fmt(p.long)).None? || num(fmt(p.lat)).None?
    ensures Parse(Format(p, fmt), num).None?
  {
    ParseFormatFields(p, num, fmt);
  }

  /** Every number can be written and read back by some parser and
      formatter, so `Numeral` constrains the two without ruling them out. */
  lemma NumeralPossible(x: real)
    ensures exists num: NumberParser, fmt: NumberFormatter :: Numeral(x, num, fmt)
  {
    var fmt: NumberFormatter := y => "1";
    var num: NumberParser := t => if t == "1" then Some(x) else None;
    assert !IsSpace('1');
    assert Numeral(x, num, fmt);
  }

  lemma {:induction false} TrimEndAppend(body: string, tail: string)
    requires body == [] || !IsSpace(body[|body| - 1])
    requires AllSpace(tail)
    ensures TrimEnd(body + tail) == body
    decreases |tail|
  {
    if tail == [] {
      assert body + tail == body;
    } else {
      var s := body + tail;
      assert s[..|s| - 1] == body + tail[..|tail| - 1];
      TrimEndAppend(body, tail[..|tail| - 1]);
    }
  }

  /** Trimming text framed by white space gives back a body that starts and
      ends with a non-space. */
  lemma TrimFramed(body: string, margin: string)
    requires body != [] && !IsSpace(body[0]) && !IsSpace(body[|body| - 1])
    requires AllSpace(margin)
    ensures Trim(margin + body + margin) == body
  {
    var s := margin + body + margin;
    assert s == margin + (body + margin);
    LeadingSpaceAppend(margin, body + margin);
    assert s[|margin|..] == body + margin;
    TrimEndAppend(body, margin);
  }

  /** A gx:coord written as "long lat alt" from three words, with any white
      space around it: the fields are the three words, so the point is read
      exactly when the first two parse, and an altitude that does not parse
      becomes 0. */
  lemma ParseGXCoordFields(a: string, b: string, c: string, margin: string, num: NumberParser)
    requires a != "" && b != "" && c != "" && NoSpace(a) && NoSpace(b) && NoSpace(c)
    requires AllSpace(margin)
    ensures ParseGXCoord(margin + Join([a, b, c], ' ') + margin, num)
      == if num(a).Some? && num(b).Some? then Some(LatLong(num(b).value, num(a).value, num(c).GetOr(0.0))) else None
  {
    assert IsSpace(' ');
    var body := Join([a, b, c], ' ');
    JoinThree(a, b, c, ' ');
    assert body[0] == a[0];
    assert body[|body| - 1] == c[|c| - 1];
    TrimFramed(body, margin);
    SplitJoin([a, b, c], ' ');
    var fields := Split(Trim(margin + body + margin), ' ');
    assert fields == [a, b, c];
    assert FieldNumber(fields, 0, num) == num(a);
    assert FieldNumber(fields, 1, num) == num(b);
    assert FieldNumber(fields, 2, num) == num(c);
  }

  /** A gx:coord written as "long lat alt", with any white space around it,
      reads back as the same point, altitude included. */
  lemma ParseGXCoordFormat(p: LatLong, margin: string, num: NumberParser, fmt: NumberFormatter)
    requires PointNumerals(p, num, fmt)
    requires AllSpace(margin)
    ensures ParseGXCoord(margin + Join([fmt(p.long), fmt(p.lat), fmt(p.alt)], ' ') + margin, num) == Some(p)
  {
    ParseGXCoordFields(fmt(p.long), fmt(p.lat), fmt(p.alt), margin, num);
  }
}
