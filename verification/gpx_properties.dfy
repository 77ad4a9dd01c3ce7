/**
 * What the scanner of hw1/hw1.c guarantees, step by step and for whole
 * trkpt records.
 */
module GpxProperties {
  import opened GpxScanner

  /** In plain text only '<' does anything: it starts the tag name the current flag is waiting for. */
  lemma PlainTextWaits(s: Scanner, c: char)
    requires Valid(s) && s.mode == PlainText
    ensures Step(s, c).1 == ""
    ensures Step(s, c).0 != s <==> c == '<' && (s.flag == 0 || s.flag == 3 || s.flag == 4)
    ensures c == '<' && s.flag == 0 ==> Step(s, c).0 == s.(mode := TrackPoint)
    ensures c == '<' && s.flag == 3 ==> Step(s, c).0 == s.(mode := Elevation)
    ensures c == '<' && s.flag == 4 ==> Step(s, c).0 == s.(mode := Time)
  {
  }

  /**
   * flag_trkpt only ever moves one place round 0 -> 1 -> 2 -> 3 -> 4 -> 0:
   * on the trkpt name, on the closing quotes of lat and lon, and on the '<'
   * that ends the ele and time contents.
   */
  lemma FlagMoves(s: Scanner, c: char)
    requires Valid(s)
    ensures var r := Step(s, c).0;
            r.flag != s.flag ==>
              && r.flag == (s.flag + 1) % 5
              && (s.flag == 0 ==> s.mode == TrackPoint && r.mode == Attribute)
              && (s.flag == 1 ==> s.mode == Print && c == s.quote && r.mode == Attribute)
              && (s.flag == 2 ==> s.mode == Print && c == s.quote && r.mode == PlainText)
              && (s.flag >= 3 ==> s.mode == Print && s.ended && c == '<' && r.mode == PlainText)
  {
  }

  /** Only the PRINT state writes anything. */
  lemma OnlyPrintWrites(s: Scanner, c: char)
    requires Valid(s) && s.mode != Print
    ensures Step(s, c).1 == ""
  {
  }

  /** strcmp against a literal without NULs: the literal's characters, then a NUL. */
  lemma {:induction false} CStrIs(b: seq<char>, w: string)
    requires |w| < |b| && '\0' !in w
    ensures CStr(b) == w <==> b[..|w|] == w && b[|w|] == '\0'
    decreases |w|
  {
    if w != [] {
      CStrIs(b[1..], w[1..]);
      assert w == [w[0]] + w[1..];
      if b[0] != '\0' {
        assert CStr(b) == [b[0]] + CStr(b[1..]);
        assert b[..|w|] == [b[0]] + b[1..][..|w| - 1];
      } else {
        assert w[0] != '\0';
      }
    }
  }

  /**
   * A trkpt is recognised exactly when the five characters read since '<'
   * were "trkpt" (lowered) and the sixth is a space; whatever earlier tags
   * left in tempString does not matter.
   */
  lemma TrackPointMatch(s: Scanner, c: char)
    requires Valid(s) && s.mode == TrackPoint
    ensures Step(s, c).0.mode == Attribute <==> s.count == 5 && s.buf[..5] == "trkpt" && c == ' '
  {
    assert Step(s, c) == TrackPointStep(s, c);
    if IsSpace(c) || c == '>' || s.count == 5 {
      NameFound(s.buf, s.count, c, 6, "trkpt", ' ', ' ');
    }
  }

  /**
   * An ele start tag is recognised exactly when the three characters read
   * since '<' were "ele" and the fourth is a space or '>'.
   */
  lemma ElevationMatch(s: Scanner, c: char)
    requires Valid(s) && Named(s) && s.mode == Elevation
    ensures Step(s, c).0.mode == Print <==> s.count == 3 && s.buf[..3] == "ele" && (c == ' ' || c == '>')
  {
    assert Step(s, c) == ElevationStep(s, c);
    if s.count == 4 {
      NameOverrun(s.buf, 4, "ele", ' ', '>');
    } else if IsSpace(c) || c == '>' || s.count == 3 {
      NameFound(s.buf, s.count, c, 4, "ele", ' ', '>');
    }
  }

  /**
   * A time start tag is recognised exactly when the four characters read
   * since '<' were "time" and the fifth is a space or '>'.
   */
  lemma TimeMatch(s: Scanner, c: char)
    requires Valid(s) && Named(s) && s.mode == Time
    ensures Step(s, c).0.mode == Print <==> s.count == 4 && s.buf[..4] == "time" && (c == ' ' || c == '>')
  {
    assert Step(s, c) == TimeStep(s, c);
    if s.count == 5 {
      NameOverrun(s.buf, 5, "time", ' ', '>');
    } else if IsSpace(c) || c == '>' || s.count == 4 {
      NameFound(s.buf, s.count, c, 5, "time", ' ', '>');
    }
  }

  /**
   * Outside quotes, the attribute name looked for (lat, then lon) is
   * recognised exactly when its three characters were read and a space or
   * '=' follows.
   */
  lemma AttributeMatch(s: Scanner, c: char)
    requires Valid(s) && s.mode == Attribute
    ensures Step(s, c).0.mode == Print <==>
              && s.quote == NoQuote && s.count == 3 && (c == ' ' || c == '=')
              && ((s.flag == 1 && s.buf[..3] == "lat") || (s.flag == 2 && s.buf[..3] == "lon"))
  {
    var w := if s.flag == 1 then "lat" else "lon";
    AttributeEnds(s, c, w);
    if !IsQuote(c) && s.quote == NoQuote && !(!IsSpace(c) && s.count == 0) {
      if IsSpace(c) || c == '=' || s.count == 3 {
        NameFound(s.buf, s.count, c, s.count + 1, w, ' ', '=');
      }
    }
  }

  /** When an attribute step reaches PRINT: the name ended outside quotes and compared equal to `w`. */
  lemma AttributeEnds(s: Scanner, c: char, w: string)
    requires Valid(s) && s.mode == Attribute && w == if s.flag == 1 then "lat" else "lon"
    ensures var t := s.buf[s.count := Lower(c)][s.count + 1 := '\0'];
            Step(s, c).0.mode == Print <==>
              && !IsQuote(c) && s.quote == NoQuote && !(!IsSpace(c) && s.count == 0)
              && (s.count == 3 || IsSpace(c) || c == '=')
              && (CStr(t) == w + [' '] || CStr(t) == w + ['='])
  {
    assert Step(s, c) == AttributeStep(s, c);
    assert w + [' '] == if s.flag == 1 then "lat " else "lon ";
    assert w + ['='] == if s.flag == 1 then "lat=" else "lon=";
  }

  /**
   * The strcmp after a tag name: the name buffer with character c stored at
   * n and a NUL at `len`, compared with `w` followed by one of two endings.
   * It matches only when exactly the characters of `w` came before c.
   */
  lemma NameFound(b: seq<char>, n: int, c: char, len: int, w: string, e1: char, e2: char)
    requires |b| == 7 && 0 <= n < len <= |w| + 1 < 7
    requires forall i | 0 <= i < |w| :: 'a' <= w[i] <= 'z'
    requires e1 in " >=" && e2 in " >="
    requires n + 1 == len || IsSpace(c) || c == '>' || c == '='
    ensures CStr(b[n := Lower(c)][len := '\0']) == w + [e1] || CStr(b[n := Lower(c)][len := '\0']) == w + [e2] <==>
              n == |w| && b[..n] == w && (c == e1 || c == e2)
  {
    var t := b[n := Lower(c)][len := '\0'];
    CStrIs(t, w + [e1]);
    CStrIs(t, w + [e2]);
    if n == |w| {
      assert t[..len] == b[..n] + [Lower(c)];
      assert Lower(c) == e1 <==> c == e1;
      assert Lower(c) == e2 <==> c == e2;
      if t[..len] == w + [e1] || t[..len] == w + [e2] {
        assert t[..len][..n] == b[..n];
        assert (w + [e1])[..n] == w && (w + [e2])[..n] == w;
      }
    } else if n + 1 == len {
      assert t[..|w| + 1][len] == '\0';
    } else {
      assert t[..|w| + 1][n] == Lower(c) == c;
    }
  }

  /** A tag name that ran on past its length: the last stored character was not an ending. */
  lemma NameOverrun(b: seq<char>, len: int, w: string, e1: char, e2: char)
    requires |b| == 7 && |w| + 1 == len < 7 && NameSoFar(b, len)
    requires forall i | 0 <= i < |w| :: 'a' <= w[i] <= 'z'
    requires e1 in " >" && e2 in " >"
    ensures CStr(b[len := '\0']) != w + [e1] && CStr(b[len := '\0']) != w + [e2]
  {
    var t := b[len := '\0'];
    CStrIs(t, w + [e1]);
    CStrIs(t, w + [e2]);
    assert t[..len][|w|] == b[|w|];
  }

  /**
   * Tag names after '<' are read without regard to case: characters with
   * the same lower-case form take the scanner to the same place.  So are
   * attribute names after their first character.
   */
  lemma NamesIgnoreCase(s: Scanner, c: char, d: char)
    requires Valid(s) && Lower(c) == Lower(d)
    requires s.mode == TrackPoint || s.mode == Elevation || s.mode == Time || (s.mode == Attribute && s.count > 0)
    ensures Step(s, c) == Step(s, d)
  {
    if !('A' <= c <= 'Z') && !('A' <= d <= 'Z') {
      assert c == d;
    } else if 'A' <= c <= 'Z' && !('A' <= d <= 'Z') {
      assert 'a' <= d <= 'z';
    } else if !('A' <= c <= 'Z') && 'A' <= d <= 'Z' {
      assert 'a' <= c <= 'z';
    }
  }

  /**
   * The first character of an attribute name is stored without tolower,
   * so "LAT=" is not taken for lat while "lAT=" is.
   */
  lemma FirstLetterKeepsCase(s: Scanner)
    requires Valid(s) && s.mode == Attribute && s.flag == 1 && s.count == 0 && s.quote == NoQuote
    ensures Scan(s, "lAT=").0.mode == Print
    ensures Scan(s, "LAT=").0.mode == Attribute
  {
    AttributeName(s, 'l', 'A', 'T', '=');
    AttributeName(s, 'L', 'A', 'T', '=');
  }

  /** Reading a four-character attribute name from an empty name buffer. */
  lemma AttributeName(s: Scanner, c0: char, c1: char, c2: char, c3: char)
    requires Valid(s) && s.mode == Attribute && s.count == 0 && s.quote == NoQuote
    requires !IsSpace(c0) && !IsQuote(c0)
    requires !IsSpace(c1) && !IsQuote(c1) && c1 != '=' && !IsSpace(c2) && !IsQuote(c2) && c2 != '='
    requires c3 == ' ' || c3 == '='
    ensures var r := Scan(s, [c0, c1, c2, c3]);
            && r.1 == ""
            && r.0 == s.(mode := r.0.mode, buf := r.0.buf)
            && (r.0.mode == Print <==>
                  (s.flag == 1 && [c0, Lower(c1), Lower(c2)] == "lat") ||
                  (s.flag == 2 && [c0, Lower(c1), Lower(c2)] == "lon"))
            && (r.0.mode != Print ==> r.0.mode == Attribute)
  {
    var w := [c0, c1, c2, c3];
    var s1 := Step(s, c0).0;
    assert s1 == s.(count := 1, buf := s.buf[0 := c0]);
    var s2 := Step(s1, c1).0;
    assert s2 == s1.(count := 2, buf := s1.buf[1 := Lower(c1)]);
    var s3 := Step(s2, c2).0;
    assert s3 == s2.(count := 3, buf := s2.buf[2 := Lower(c2)]);
    assert s3.buf[..3] == [c0, Lower(c1), Lower(c2)];
    AttributeMatch(s3, c3);
    ScanCons(s, w);
    assert w[1..] == [c1, c2, c3];
    ScanCons(s1, [c1, c2, c3]);
    assert [c1, c2, c3][1..] == [c2, c3];
    ScanCons(s2, [c2, c3]);
    assert [c2, c3][1..] == [c3];
    ScanCons(s3, [c3]);
    assert Scan(Step(s3, c3).0, []) == (Step(s3, c3).0, "");
  }

  /** Inside a quoted lat or lon value every character but the opening quote is copied as it is. */
  lemma QuotedCopy(s: Scanner, v: string)
    requires Valid(s) && s.mode == Print && (s.flag == 1 || s.flag == 2) && s.quote == '"'
    requires '"' !in v
    ensures Scan(s, v) == (s, v)
    decreases |v|
  {
    if v != [] {
      ScanCons(s, v);
      assert Step(s, v[0]) == (s, [v[0]]);
      QuotedCopy(s, v[1..]);
      assert v == [v[0]] + v[1..];
    } else {
      assert Scan(s, v) == (s, "");
    }
  }

  /** The printed form of ele or time content: every ',' as "&comma;". */
  function EscapeAll(v: string): string {
    if v == [] then "" else Escape(v[0]) + EscapeAll(v[1..])
  }

  /** After '>' of an ele or time start tag, content up to '<' is copied with commas escaped. */
  lemma ContentCopy(s: Scanner, v: string)
    requires Valid(s) && s.mode == Print && (s.flag == 3 || s.flag == 4) && s.ended
    requires '<' !in v && '>' !in v
    ensures Scan(s, v) == (s, EscapeAll(v))
    decreases |v|
  {
    if v != [] {
      ScanCons(s, v);
      assert Step(s, v[0]) == (s, Escape(v[0]));
      ContentCopy(s, v[1..]);
    } else {
      assert Scan(s, v) == (s, "");
    }
  }

  /** The closing quote of a value ends it with ","; the ',' replacement on line 184 never fires. */
  lemma QuoteCloses(s: Scanner, c: char)
    requires Valid(s) && s.mode == Print && (s.flag == 1 || s.flag == 2) && IsQuote(c)
    ensures Step(s, c).1 != "&comma;"
    ensures s.quote == c ==>
              Step(s, c) == (s.(quote := NoQuote, mode := if s.flag == 1 then Attribute else PlainText,
                                flag := s.flag + 1), ",")
  {
  }
}
