/**
 * What hw1/hw1.c prints for a whole trkpt element written the usual way:
 * one line "lat,lon,ele,time" with every ',' in ele and time escaped.
 */
module GpxRecord {
  import opened GpxScanner
  import opened GpxProperties

  /** Between tags and fields: nothing half read, no quote open. */
  predicate Rest(s: Scanner, m: Mode, f: int, e: bool) {
    Valid(s) && s.mode == m && s.flag == f && s.count == 0 && s.quote == NoQuote && s.ended == e
  }

  /** Waiting for the next trkpt. */
  predicate Idle(s: Scanner) {
    Rest(s, PlainText, 0, false)
  }

  /** Scanning a then b, given what each does. */
  lemma ScanThen(s: Scanner, a: string, b: string, s1: Scanner, o1: string, s2: Scanner, o2: string)
    requires Valid(s) && Valid(s1) && Scan(s, a) == (s1, o1) && Scan(s1, b) == (s2, o2)
    ensures Scan(s, a + b) == (s2, o1 + o2)
  {
    ScanConcat(s, a, b);
  }

  /** Scanning a, which prints nothing, then b. */
  lemma QuietThen(s: Scanner, a: string, b: string, s1: Scanner, s2: Scanner, o2: string)
    requires Valid(s) && Valid(s1) && Scan(s, a) == (s1, "") && Scan(s1, b) == (s2, o2)
    ensures Scan(s, a + b) == (s2, o2)
  {
    ScanConcat(s, a, b);
    assert "" + o2 == o2;
  }

  /** Scanning a, then b, which prints nothing. */
  lemma ThenQuiet(s: Scanner, a: string, b: string, s1: Scanner, o1: string, s2: Scanner)
    requires Valid(s) && Valid(s1) && Scan(s, a) == (s1, o1) && Scan(s1, b) == (s2, "")
    ensures Scan(s, a + b) == (s2, o1)
  {
    ScanConcat(s, a, b);
    assert o1 + "" == o1;
  }

  /** Scanning one character is one step. */
  lemma ScanOne(s: Scanner, c: char)
    requires Valid(s)
    ensures Scan(s, [c]) == Step(s, c)
  {
    ScanCons(s, [c]);
    assert [c][1..] == [];
    var t := Step(s, c);
    assert Scan(t.0, []) == (t.0, "");
    assert t.1 + "" == t.1;
  }

  /** Text without '<' leaves the scanner in plain text untouched. */
  lemma {:induction false} PlainTextSkips(s: Scanner, w: string)
    requires Valid(s) && s.mode == PlainText && '<' !in w
    ensures Scan(s, w) == (s, "")
    decreases |w|
  {
    if w != [] {
      assert Step(s, w[0]) == (s, "");
      ScanCons(s, w);
      PlainTextSkips(s, w[1..]);
      assert "" + "" == "";
    } else {
      assert Scan(s, w) == (s, "");
    }
  }

  /** A character that neither ends a tag name nor is upper case. */
  predicate NameChar(c: char) {
    !IsSpace(c) && c != '>' && !('A' <= c <= 'Z')
  }

  lemma NameCharsTail(w: string)
    requires w != [] && forall i | 0 <= i < |w| :: NameChar(w[i])
    ensures forall i | 0 <= i < |w[1..]| :: NameChar(w[1..][i])
  {
    forall i | 0 <= i < |w[1..]| ensures NameChar(w[1..][i]) {
      assert w[1..][i] == w[i + 1];
    }
  }

  /** A character of a tag name that neither ends it nor fills the buffer is stored. */
  lemma NameStep(s: Scanner, c: char)
    requires Valid(s) && (s.mode == TrackPoint || s.mode == Elevation || s.mode == Time)
    requires s.count < (if s.mode == Elevation then 4 else 5)
    requires NameChar(c)
    ensures Step(s, c) == (s.(count := s.count + 1, buf := s.buf[s.count := c]), "")
  {
  }

  /** Scanning a tag name whose first character is stored: that step, then the rest. */
  lemma ScanNameChar(s: Scanner, w: string)
    requires Valid(s) && (s.mode == TrackPoint || s.mode == Elevation || s.mode == Time)
    requires w != [] && s.count < (if s.mode == Elevation then 4 else 5)
    requires NameChar(w[0])
    ensures var s1 := s.(count := s.count + 1, buf := s.buf[s.count := w[0]]);
            Valid(s1) && Scan(s, w) == Scan(s1, w[1..])
  {
    NameStep(s, w[0]);
    ScanCons(s, w);
    var s1 := s.(count := s.count + 1, buf := s.buf[s.count := w[0]]);
    assert "" + Scan(s1, w[1..]).1 == Scan(s1, w[1..]).1;
  }

  /** The buffer b with w written over it from position n. */
  function Store(b: seq<char>, n: int, w: string): seq<char>
    requires 0 <= n && n + |w| <= |b|
  {
    b[..n] + w + b[n + |w|..]
  }

  /** Store keeps the buffer's length and what lies before n, and puts w at n. */
  lemma Stored(b: seq<char>, n: int, w: string)
    requires 0 <= n && n + |w| <= |b|
    ensures var r := Store(b, n, w);
            |r| == |b| && r[..n] == b[..n] && r[n..n + |w|] == w
  {
    var r := Store(b, n, w);
    assert r[..n] == b[..n];
    assert r[n..n + |w|] == w;
  }

  /** Writing w[0] at n and then the rest of w after it writes w at n. */
  lemma StoreFirst(b: seq<char>, n: int, w: string)
    requires 0 <= n && n + |w| <= |b| && w != []
    ensures Store(b[n := w[0]], n + 1, w[1..]) == Store(b, n, w)
  {
    assert b[n := w[0]][..n + 1] == b[..n] + [w[0]];
    assert b[n := w[0]][n + 1 + |w[1..]|..] == b[n + |w|..];
    assert [w[0]] + w[1..] == w;
  }

  /** Scanning a tag name that neither ends nor fills the buffer writes it into the buffer. */
  lemma {:induction false} TagStored(s: Scanner, w: string)
    requires Valid(s) && (s.mode == TrackPoint || s.mode == Elevation || s.mode == Time)
    requires s.count + |w| <= (if s.mode == Elevation then 4 else 5)
    requires forall i | 0 <= i < |w| :: NameChar(w[i])
    ensures Scan(s, w) == (s.(count := s.count + |w|, buf := Store(s.buf, s.count, w)), "")
    decreases |w|
  {
    if w != [] {
      var s1 := s.(count := s.count + 1, buf := s.buf[s.count := w[0]]);
      ScanNameChar(s, w);
      NameCharsTail(w);
      TagStored(s1, w[1..]);
      StoreFirst(s.buf, s.count, w);
    } else {
      assert Store(s.buf, s.count, w) == s.buf;
    }
  }

  /**
   * Characters of a tag name that neither end it nor fill the name buffer
   * are stored after those already read.
   */
  lemma TagName(s: Scanner, w: string)
    requires Valid(s) && (s.mode == TrackPoint || s.mode == Elevation || s.mode == Time)
    requires s.count + |w| <= (if s.mode == Elevation then 4 else 5)
    requires forall i | 0 <= i < |w| :: NameChar(w[i])
    ensures var r := Scan(s, w);
            && r.1 == "" && r.0 == s.(count := s.count + |w|, buf := r.0.buf)
            && r.0.buf[..s.count] == s.buf[..s.count] && r.0.buf[s.count..s.count + |w|] == w
  {
    TagStored(s, w);
    Stored(s.buf, s.count, w);
  }

  /**
   * When a tag name ends the scanner goes back to plain text or on to the
   * attributes of a trkpt or the content of ele or time; no quote is open,
   * count is back to 0, the flag
   * moves on only for a trkpt, and ended_start_tag is set only by the '>'
   * of a recognised ele or time tag.
   */
  lemma TagEnds(s: Scanner, c: char)
    requires Valid(s) && (s.mode == TrackPoint || s.mode == Elevation || s.mode == Time) && s.quote == NoQuote
    requires Step(s, c).0.mode != s.mode
    ensures var r := Step(s, c).0;
            && r.mode == (if r.mode == PlainText then PlainText else if s.mode == TrackPoint then Attribute else Print)
            && r.quote == NoQuote && r.count == 0
            && r.flag == (if r.mode == Attribute then s.flag + 1 else s.flag)
            && r.ended == (s.ended || (r.mode == Print && c == '>'))
  {
    match s.mode
    case TrackPoint => assert Step(s, c) == TrackPointStep(s, c);
    case Elevation => assert Step(s, c) == ElevationStep(s, c);
    case Time => assert Step(s, c) == TimeStep(s, c);
  }

  lemma SplitOpen()
    ensures "<trkpt " == "<" + "trkpt" + " "
  {
  }

  /** The sixth character of a name read while looking for trkpt always ends it. */
  lemma NameFull(s: Scanner, c: char)
    requires Valid(s) && s.mode == TrackPoint && s.count == 5
    ensures Step(s, c).0.mode != TrackPoint
  {
    assert Step(s, c) == TrackPointStep(s, c);
  }

  /** "<trkpt " in plain text starts reading the attributes of a trkpt. */
  lemma OpenTrackPoint(s: Scanner)
    requires Idle(s)
    ensures Scan(s, "<trkpt ").1 == "" && Rest(Scan(s, "<trkpt ").0, Attribute, 1, false)
  {
    SplitOpen();
    var s1 := s.(mode := TrackPoint);
    assert Step(s, '<') == (s1, "");
    ScanOne(s, '<');
    TagName(s1, "trkpt");
    var s2 := Scan(s1, "trkpt").0;
    assert s2.buf[..5] == "trkpt";
    TrackPointMatch(s2, ' ');
    TagEnds(s2, ' ');
    var s3 := Step(s2, ' ').0;
    ScanOne(s2, ' ');
    QuietThen(s, "<", "trkpt", s1, s2, "");
    QuietThen(s, "<" + "trkpt", " ", s2, s3, "");
  }

  /** The name of the attribute the flag waits for, with '=', moves to reading its value. */
  lemma AttributeNamed(s: Scanner, w: string)
    requires Rest(s, Attribute, s.flag, false) && w == if s.flag == 1 then "lat=" else "lon="
    ensures Scan(s, w).1 == "" && Rest(Scan(s, w).0, Print, s.flag, false)
  {
    AttributeName(s, w[0], w[1], w[2], w[3]);
    assert [w[0], w[1], w[2], w[3]] == w;
  }

  /** A space between attributes changes nothing that matters. */
  lemma AttributeSpace(s: Scanner)
    requires Rest(s, Attribute, s.flag, false)
    ensures Scan(s, " ").1 == "" && Rest(Scan(s, " ").0, Attribute, s.flag, false)
  {
    AttributeMatch(s, ' ');
    assert Step(s, ' ') == AttributeStep(s, ' ');
    ScanOne(s, ' ');
  }

  /** A double-quoted lat or lon value prints as it is, followed by ','. */
  lemma QuotedValue(s: Scanner, v: string)
    requires Rest(s, Print, s.flag, false) && (s.flag == 1 || s.flag == 2) && '"' !in v
    ensures var r := Scan(s, "\"" + v + "\"");
            r.1 == v + "," && Rest(r.0, if s.flag == 1 then Attribute else PlainText, s.flag + 1, false)
  {
    var s1 := s.(quote := '"');
    assert Step(s, '"') == (s1, "");
    ScanOne(s, '"');
    QuotedCopy(s1, v);
    QuoteCloses(s1, '"');
    var s2 := Step(s1, '"').0;
    ScanOne(s1, '"');
    ScanThen(s, "\"", v, s1, "", s1, v);
    assert "" + v == v;
    ScanThen(s, "\"" + v, "\"", s1, v, s2, ",");
  }

  /** "<ele>" with flag 3, or "<time>" with flag 4, starts copying the content. */
  lemma OpenElement(s: Scanner, tag: string)
    requires Rest(s, PlainText, s.flag, false) && (s.flag == 3 || s.flag == 4)
    requires tag == if s.flag == 3 then "ele" else "time"
    ensures Scan(s, "<" + tag + ">").1 == "" && Rest(Scan(s, "<" + tag + ">").0, Print, s.flag, true)
  {
    var s1 := s.(mode := if s.flag == 3 then Elevation else Time);
    assert Step(s, '<') == (s1, "");
    ScanOne(s, '<');
    TagName(s1, tag);
    var s2 := Scan(s1, tag).0;
    assert s2.buf[..|tag|] == tag;
    if s.flag == 3 {
      ElevationMatch(s2, '>');
    } else {
      TimeMatch(s2, '>');
    }
    TagEnds(s2, '>');
    var s3 := Step(s2, '>').0;
    ScanOne(s2, '>');
    QuietThen(s, "<", tag, s1, s2, "");
    QuietThen(s, "<" + tag, ">", s2, s3, "");
  }

  /** A value in double quotes. */
  function Quoted(v: string): string {
    "\"" + v + "\""
  }

  /** An ele or time element. */
  function ElementText(tag: string, v: string): string {
    "<" + tag + ">" + v + "</" + tag + ">"
  }

  /** A trkpt start tag with its lat and lon attributes. */
  function StartTagText(lat: string, lon: string): string {
    "<trkpt " + ("lat=" + Quoted(lat)) + (" " + "lon=" + Quoted(lon)) + ">"
  }

  /** A trkpt element as GPX files usually write it. */
  function Record(lat: string, lon: string, ele: string, time: string): string {
    StartTagText(lat, lon) + ElementText("ele", ele) + ElementText("time", time) + "</trkpt>"
  }

  /** The line printed for one trkpt. */
  function Line(lat: string, lon: string, ele: string, time: string): string {
    (lat + ",") + (lon + ",") + (EscapeAll(ele) + ",") + (EscapeAll(time) + "\n")
  }

  /** "lat=" and its quoted value, from just after "<trkpt ". */
  lemma LatAttribute(s: Scanner, lat: string)
    requires Rest(s, Attribute, 1, false) && '"' !in lat
    ensures Scan(s, "lat=" + Quoted(lat)).1 == lat + "," && Rest(Scan(s, "lat=" + Quoted(lat)).0, Attribute, 2, false)
  {
    AttributeNamed(s, "lat=");
    var s1 := Scan(s, "lat=").0;
    QuotedValue(s1, lat);
    QuietThen(s, "lat=", Quoted(lat), s1, Scan(s1, Quoted(lat)).0, lat + ",");
  }

  /** " lon=" and its quoted value, after the lat value. */
  lemma LonAttribute(s: Scanner, lon: string)
    requires Rest(s, Attribute, 2, false) && '"' !in lon
    ensures Scan(s, " " + "lon=" + Quoted(lon)).1 == lon + ","
    ensures Rest(Scan(s, " " + "lon=" + Quoted(lon)).0, PlainText, 3, false)
  {
    AttributeSpace(s);
    var s1 := Scan(s, " ").0;
    AttributeNamed(s1, "lon=");
    var s2 := Scan(s1, "lon=").0;
    QuotedValue(s2, lon);
    QuietThen(s, " ", "lon=", s1, s2, "");
    QuietThen(s, " " + "lon=", Quoted(lon), s2, Scan(s2, Quoted(lon)).0, lon + ",");
  }

  /** A trkpt start tag prints "lat,lon," and leaves the scanner waiting for ele. */
  lemma StartTag(s: Scanner, lat: string, lon: string)
    requires Idle(s) && '"' !in lat && '"' !in lon
    ensures Scan(s, StartTagText(lat, lon)).1 == (lat + ",") + (lon + ",")
    ensures Rest(Scan(s, StartTagText(lat, lon)).0, PlainText, 3, false)
  {
    OpenTrackPoint(s);
    var s1 := Scan(s, "<trkpt ").0;
    LatAttribute(s1, lat);
    var s2 := Scan(s1, "lat=" + Quoted(lat)).0;
    LonAttribute(s2, lon);
    var s3 := Scan(s2, " " + "lon=" + Quoted(lon)).0;
    PlainTextSkips(s3, ">");
    var a := "<trkpt ";
    var b := "lat=" + Quoted(lat);
    var c := " " + "lon=" + Quoted(lon);
    QuietThen(s, a, b, s1, s2, lat + ",");
    ScanThen(s, a + b, c, s2, lat + ",", s3, lon + ",");
    ThenQuiet(s, a + b + c, ">", s3, (lat + ",") + (lon + ","), s3);
  }

  lemma SplitClose(x: string, tag: string)
    ensures x + "</" + tag + ">" == (x + "<") + ("/" + tag + ">")
  {
    assert "</" == "<" + "/";
  }

  /**
   * An ele element with flag 3, or a time element with flag 4: the content
   * escaped, then ',' after ele or a newline after time.
   */
  lemma Element(s: Scanner, tag: string, v: string)
    requires Rest(s, PlainText, s.flag, false) && (s.flag == 3 || s.flag == 4)
    requires tag == if s.flag == 3 then "ele" else "time"
    requires '<' !in v && '>' !in v
    ensures var r := Scan(s, ElementText(tag, v));
            && r.1 == EscapeAll(v) + (if s.flag == 3 then "," else "\n")
            && Rest(r.0, PlainText, (s.flag + 1) % 5, false)
  {
    var out := if s.flag == 3 then "," else "\n";
    OpenElement(s, tag);
    var s3 := Scan(s, "<" + tag + ">").0;
    ContentCopy(s3, v);
    var s4 := Step(s3, '<').0;
    ScanOne(s3, '<');
    PlainTextSkips(s4, "/" + tag + ">");
    var x := "<" + tag + ">" + v;
    QuietThen(s, "<" + tag + ">", v, s3, s3, EscapeAll(v));
    ScanThen(s, x, "<", s3, EscapeAll(v), s4, out);
    ThenQuiet(s, x + "<", "/" + tag + ">", s4, EscapeAll(v) + out, s4);
    SplitClose(x, tag);
  }

  lemma SplitEnd()
    ensures "</trkpt>" == "<" + "/trkp" + "t" + ">"
  {
  }

  /** The name of the trkpt end tag is not a trkpt start. */
  lemma CloseName(s: Scanner)
    requires Idle(s)
    ensures Scan(s, "<" + "/trkp" + "t").1 == "" && Idle(Scan(s, "<" + "/trkp" + "t").0)
  {
    var s1 := s.(mode := TrackPoint);
    assert Step(s, '<') == (s1, "");
    ScanOne(s, '<');
    TagName(s1, "/trkp");
    var s2 := Scan(s1, "/trkp").0;
    TrackPointMatch(s2, 't');
    NameFull(s2, 't');
    TagEnds(s2, 't');
    ScanOne(s2, 't');
    QuietThen(s, "<", "/trkp", s1, s2, "");
    QuietThen(s, "<" + "/trkp", "t", s2, Step(s2, 't').0, "");
  }

  /** "</trkpt>" while waiting for a trkpt changes nothing that matters. */
  lemma CloseTrackPoint(s: Scanner)
    requires Idle(s)
    ensures Scan(s, "</trkpt>").1 == "" && Idle(Scan(s, "</trkpt>").0)
  {
    SplitEnd();
    CloseName(s);
    var s3 := Scan(s, "<" + "/trkp" + "t").0;
    PlainTextSkips(s3, ">");
    QuietThen(s, "<" + "/trkp" + "t", ">", s3, s3, "");
  }

  /**
   * From waiting for a trkpt, its start tag and its ele and time elements
   * print the line and leave the scanner waiting for the end tag.
   */
  lemma RecordFields(s: Scanner, lat: string, lon: string, ele: string, time: string)
    requires Idle(s) && '"' !in lat && '"' !in lon
    requires '<' !in ele && '>' !in ele && '<' !in time && '>' !in time
    ensures var w := StartTagText(lat, lon) + ElementText("ele", ele) + ElementText("time", time);
            Scan(s, w).1 == Line(lat, lon, ele, time) && Idle(Scan(s, w).0)
  {
    var a := StartTagText(lat, lon);
    var b := ElementText("ele", ele);
    var c := ElementText("time", time);
    StartTag(s, lat, lon);
    var s1 := Scan(s, a).0;
    Element(s1, "ele", ele);
    var s2 := Scan(s1, b).0;
    Element(s2, "time", time);
    var s3 := Scan(s2, c).0;
    var o1 := (lat + ",") + (lon + ",");
    var o2 := EscapeAll(ele) + ",";
    var o3 := EscapeAll(time) + "\n";
    ScanThen(s, a, b, s1, o1, s2, o2);
    ScanThen(s, a + b, c, s2, o1 + o2, s3, o3);
  }

  /**
   * From waiting for a trkpt, a whole trkpt element prints its line
   * "lat,lon,ele,time" and leaves the scanner waiting for the next one.
   */
  lemma RecordLine(s: Scanner, lat: string, lon: string, ele: string, time: string)
    requires Idle(s) && '"' !in lat && '"' !in lon
    requires '<' !in ele && '>' !in ele && '<' !in time && '>' !in time
    ensures Scan(s, Record(lat, lon, ele, time)).1 == Line(lat, lon, ele, time)
    ensures Idle(Scan(s, Record(lat, lon, ele, time)).0)
  {
    var w := StartTagText(lat, lon) + ElementText("ele", ele) + ElementText("time", time);
    RecordFields(s, lat, lon, ele, time);
    var s3 := Scan(s, w).0;
    CloseTrackPoint(s3);
    ThenQuiet(s, w, "</trkpt>", s3, Line(lat, lon, ele, time), Scan(s3, "</trkpt>").0);
  }

  /** The four fields hw1 prints for a trkpt. */
  datatype Point = Point(lat: string, lon: string, ele: string, time: string)

  /** Fields a well-formed GPX file can carry without confusing the scanner. */
  predicate Plain(p: Point) {
    '"' !in p.lat && '"' !in p.lon && '<' !in p.ele && '>' !in p.ele && '<' !in p.time && '>' !in p.time
  }

  /** A sequence of trkpt elements, one after the other. */
  function Records(ps: seq<Point>): string {
    if ps == [] then "" else Records(ps[..|ps| - 1]) + PointRecord(ps[|ps| - 1])
  }

  function PointRecord(p: Point): string {
    Record(p.lat, p.lon, p.ele, p.time)
  }

  /** What hw1 prints for them: one line per trkpt. */
  function Lines(ps: seq<Point>): string {
    if ps == [] then "" else Lines(ps[..|ps| - 1]) + PointLine(ps[|ps| - 1])
  }

  function PointLine(p: Point): string {
    Line(p.lat, p.lon, p.ele, p.time)
  }

  /** From waiting for a trkpt, any number of trkpt elements print one line each, in order. */
  lemma {:induction false} RecordLines(s: Scanner, ps: seq<Point>)
    requires Idle(s) && forall i | 0 <= i < |ps| :: Plain(ps[i])
    ensures Scan(s, Records(ps)).1 == Lines(ps) && Idle(Scan(s, Records(ps)).0)
    decreases |ps|
  {
    if ps == [] {
      assert Scan(s, []) == (s, "");
    } else {
      var init, p := ps[..|ps| - 1], ps[|ps| - 1];
      RecordLines(s, init);
      var s1 := Scan(s, Records(init)).0;
      assert Plain(p);
      RecordLine(s1, p.lat, p.lon, p.ele, p.time);
      ScanThen(s, Records(init), PointRecord(p), s1, Lines(init),
               Scan(s1, PointRecord(p)).0, PointLine(p));
    }
  }
}
