/**
 * The character-level scanner in main of hw1/hw1.c, which copies the lat
 * and lon attributes and the ele and time contents of each trkpt element
 * to its output as one comma-separated line.  It is an ad hoc scanner, not
 * an XML parser.  Reading stdin and writing stdout become the input string
 * and the output string; the 7-character tempString buffer is modelled
 * byte for byte, including what earlier tags leave in it.
 */
module GpxScanner {
  import Seqs

  /** state_type of hw1/hw1.c. */
  datatype Mode = PlainText | TrackPoint | Attribute | Elevation | Time | Print

  /**
   * The scanner's variables: state, count, quote (NUL for 0), flag_trkpt,
   * ended_start_tag and tempString.
   */
  datatype Scanner = Scanner(mode: Mode, count: int, quote: char, flag: int, ended: bool, buf: seq<char>)

  const NoQuote: char := '\0'

  /** isspace in the C locale. */
  predicate IsSpace(c: char) {
    c == ' ' || '\t' <= c <= '\r'
  }

  predicate IsQuote(c: char) {
    c == '\'' || c == '"'
  }

  /** tolower in the C locale. */
  function Lower(c: char): (r: char)
    ensures ('A' <= c <= 'Z') ==> 'a' <= r <= 'z'
    ensures !('A' <= c <= 'Z') ==> r == c
  {
    if 'A' <= c <= 'Z' then (c as int + 32) as char else c
  }

  /** The string strcmp sees in a buffer: everything before the first NUL. */
  function CStr(b: seq<char>): string {
    Seqs.UpTo(b, '\0')
  }

  /** The scanner at the start: plain text, nothing counted, tempString uninitialised. */
  function Start(buf: seq<char>): (s: Scanner)
    requires |buf| == 7
    ensures Valid(s) && s.mode == PlainText && s.flag == 0
  {
    Scanner(PlainText, 0, NoQuote, 0, false, buf)
  }

  /** The bounds the scanner keeps: which flag goes with which state, and how far count goes. */
  predicate Valid(s: Scanner) {
    && |s.buf| == 7 && 0 <= s.flag <= 4
    && (s.quote == NoQuote || IsQuote(s.quote))
    && (s.quote != NoQuote ==> (s.mode == Attribute || s.mode == Print) && (s.flag == 1 || s.flag == 2))
    && match s.mode
       case PlainText => s.count == 0
       case TrackPoint => s.flag == 0 && 0 <= s.count <= 5
       case Attribute => (s.flag == 1 || s.flag == 2) && 0 <= s.count <= 3
       case Elevation => s.flag == 3 && 0 <= s.count <= 4
       case Time => s.flag == 4 && 0 <= s.count <= 5
       case Print => 1 <= s.flag <= 4 && s.count == 0
  }

  /** The characters of a tag name read so far: none of them ended the name. */
  predicate NameSoFar(b: seq<char>, n: int)
    requires 0 <= n <= |b|
  {
    forall i | 0 <= i < n :: !IsSpace(b[i]) && b[i] != '>'
  }

  /** While a tag name is being read, no character of it so far has ended it. */
  predicate Named(s: Scanner)
    requires Valid(s)
  {
    (s.mode == TrackPoint || s.mode == Elevation || s.mode == Time) ==> NameSoFar(s.buf, s.count)
  }

  /** The buffers emptied after a tag name: strcpy(tempString, "") clears only the first byte. */
  function Cleared(b: seq<char>): seq<char>
    requires |b| == 7
  {
    b[0 := '\0']
  }

  /** What a character of ele or time content prints: ',' is written as "&comma;". */
  function Escape(c: char): string {
    if c == ',' then "&comma;" else [c]
  }

  function PlainTextStep(s: Scanner, c: char): (r: (Scanner, string))
    requires Valid(s) && s.mode == PlainText
  {
    if c == '<' then
      if s.flag == 0 then (s.(mode := TrackPoint), "")
      else if s.flag == 3 then (s.(mode := Elevation), "")
      else if s.flag == 4 then (s.(mode := Time), "")
      else (s, "")
    else (s, "")
  }

  /** Reading the name after '<' while looking for a trkpt: six characters, or fewer up to a space or '>'. */
  function TrackPointStep(s: Scanner, c: char): (r: (Scanner, string))
    requires Valid(s) && s.mode == TrackPoint
  {
    var b := s.buf[s.count := Lower(c)];
    var n := s.count + 1;
    if IsSpace(c) || c == '>' || n >= 6 then
      var t := b[6 := '\0'];
      var found := CStr(t) == "trkpt ";
      (s.(mode := if found then Attribute else PlainText, flag := if found then s.flag + 1 else s.flag,
          count := 0, buf := Cleared(t)), "")
    else (s.(count := n, buf := b), "")
  }

  /**
   * Reading attribute names inside a trkpt start tag: quotes toggle `quote`;
   * outside quotes the first non-space character is stored as it is and the
   * rest lowered, and a name ends after four characters, a space or '='.
   * The store condition has the shape of the C test, which always holds.
   */
  function AttributeStep(s: Scanner, c: char): (r: (Scanner, string))
    requires Valid(s) && s.mode == Attribute
  {
    if IsQuote(c) then
      if s.quote == NoQuote then (s.(quote := c), "")
      else if s.quote == c then (s.(quote := NoQuote), "")
      else (s, "")
    else if s.quote == NoQuote && !IsSpace(c) && s.count == 0 then
      (s.(buf := s.buf[0 := c], count := 1), "")
    else
      var store := s.quote == NoQuote && ((0 < s.count <= 3) || !IsSpace(c) || c != '=');
      var b := if store then s.buf[s.count := Lower(c)] else s.buf;
      var n := if store then s.count + 1 else s.count;
      if s.quote == NoQuote && (n > 3 || IsSpace(c) || c == '=') then
        var t := b[n := '\0'];
        var name := CStr(t);
        var hit := (s.flag == 1 && (name == "lat " || name == "lat=")) ||
                   (s.flag == 2 && (name == "lon " || name == "lon="));
        (s.(mode := if hit then Print else Attribute, count := 0, buf := Cleared(t)), "")
      else (s.(count := n, buf := b), "")
  }

  /** Reading the name after '<' while looking for ele: four characters, ended by a space or '>'. */
  function ElevationStep(s: Scanner, c: char): (r: (Scanner, string))
    requires Valid(s) && s.mode == Elevation
  {
    var b := if s.count < 4 then s.buf[s.count := Lower(c)] else s.buf;
    var n := if s.count < 4 then s.count + 1 else s.count;
    if n > 4 || IsSpace(c) || c == '>' then
      var t := b[4 := '\0'];
      if CStr(t) == "ele " || CStr(t) == "ele>" then
        (s.(mode := Print, ended := if c == '>' then true else s.ended, count := 0, buf := Cleared(t)), "")
      else (s.(mode := PlainText, count := 0, buf := Cleared(t)), "")
    else (s.(count := n, buf := b), "")
  }

  /** Reading the name after '<' while looking for time: five characters, ended by a space or '>'. */
  function TimeStep(s: Scanner, c: char): (r: (Scanner, string))
    requires Valid(s) && s.mode == Time
  {
    var b := if s.count < 5 then s.buf[s.count := Lower(c)] else s.buf;
    var n := if s.count < 5 then s.count + 1 else s.count;
    if n > 5 || IsSpace(c) || c == '>' then
      var t := b[5 := '\0'];
      if CStr(t) == "time " || CStr(t) == "time>" then
        (s.(mode := Print, ended := if c == '>' then true else s.ended, count := 0, buf := Cleared(t)), "")
      else (s.(mode := PlainText, count := 0, buf := Cleared(t)), "")
    else (s.(count := n, buf := b), "")
  }

  /**
   * The ele/time case of PRINT, which the lat/lon case also falls into
   * outside quotes: wait for '>', then copy up to '<', which closes the
   * field with "," after ele and a newline after time.
   */
  function ContentStep(s: Scanner, c: char): (r: (Scanner, string))
    requires Valid(s) && s.mode == Print
  {
    if c == '>' then (s.(ended := true), "")
    else if s.ended then
      if c != '<' then (s, Escape(c))
      else if s.flag == 3 then (s.(ended := false, mode := PlainText, flag := 4), ",")
      else if s.flag == 4 then (s.(ended := false, mode := PlainText, flag := 0), "\n")
      else (s.(ended := false), "")
    else (s, "")
  }

  /**
   * PRINT: for lat and lon, a quote opens the value, the matching quote
   * closes it with ",", and characters in between are copied; the ','
   * replacement in the other-quote branch can never apply, as c is a quote.
   */
  function PrintStep(s: Scanner, c: char): (r: (Scanner, string))
    requires Valid(s) && s.mode == Print
  {
    if s.flag == 1 || s.flag == 2 then
      if IsQuote(c) then
        if s.quote == NoQuote then (s.(quote := c), "")
        else if s.quote != c then (s, if c == ',' then "&comma;" else [c])
        else (s.(quote := NoQuote, mode := if s.flag == 1 then Attribute else PlainText, flag := s.flag + 1), ",")
      else if s.quote != NoQuote then (s, [c])
      else ContentStep(s, c)
    else ContentStep(s, c)
  }

  /** One pass of the while loop: the new scanner and what it prints for character c. */
  function Step(s: Scanner, c: char): (r: (Scanner, string))
    requires Valid(s)
    ensures Valid(r.0)
  {
    StepValid(s, c);
    match s.mode
    case PlainText => PlainTextStep(s, c)
    case TrackPoint => TrackPointStep(s, c)
    case Attribute => AttributeStep(s, c)
    case Elevation => ElevationStep(s, c)
    case Time => TimeStep(s, c)
    case Print => PrintStep(s, c)
  }

  /** Each kind of step keeps the bounds of Valid. */
  lemma StepValid(s: Scanner, c: char)
    requires Valid(s)
    ensures s.mode == PlainText ==> Valid(PlainTextStep(s, c).0)
    ensures s.mode == TrackPoint ==> Valid(TrackPointStep(s, c).0)
    ensures s.mode == Attribute ==> Valid(AttributeStep(s, c).0)
    ensures s.mode == Elevation ==> Valid(ElevationStep(s, c).0)
    ensures s.mode == Time ==> Valid(TimeStep(s, c).0)
    ensures s.mode == Print ==> Valid(PrintStep(s, c).0)
  {
    match s.mode
    case PlainText =>
    case TrackPoint =>
    case Attribute => AttributeValid(s, c);
    case Elevation =>
    case Time =>
    case Print => PrintValid(s, c);
  }

  lemma AttributeValid(s: Scanner, c: char)
    requires Valid(s) && s.mode == Attribute
    ensures Valid(AttributeStep(s, c).0)
  {
  }

  lemma PrintValid(s: Scanner, c: char)
    requires Valid(s) && s.mode == Print
    ensures Valid(PrintStep(s, c).0)
  {
  }

  /** The whole loop over an input: the final scanner and everything printed. */
  function Scan(s: Scanner, input: string): (r: (Scanner, string))
    requires Valid(s)
    ensures Valid(r.0)
    decreases |input|
  {
    if input == [] then (s, "")
    else
      var first := Step(s, input[0]);
      var rest := Scan(first.0, input[1..]);
      (rest.0, first.1 + rest.1)
  }

  /** One character, then the rest. */
  lemma ScanCons(s: Scanner, w: string)
    requires Valid(s) && w != []
    ensures Scan(s, w) == (Scan(Step(s, w[0]).0, w[1..]).0, Step(s, w[0]).1 + Scan(Step(s, w[0]).0, w[1..]).1)
  {
  }

  /** Scanning two pieces of input one after the other is scanning their concatenation. */
  lemma {:induction false} ScanConcat(s: Scanner, a: string, b: string)
    requires Valid(s)
    ensures Scan(s, a + b) == (Scan(Scan(s, a).0, b).0, Scan(s, a).1 + Scan(Scan(s, a).0, b).1)
    decreases |a|
  {
    if a != [] {
      var t := Step(s, a[0]).0;
      var o := Step(s, a[0]).1;
      assert (a + b)[0] == a[0] && (a + b)[1..] == a[1..] + b;
      ScanCons(s, a);
      ScanCons(s, a + b);
      ScanConcat(t, a[1..], b);
      ConcatAssoc(o, Scan(t, a[1..]).1, Scan(Scan(t, a[1..]).0, b).1);
    } else {
      assert a + b == b;
      assert Scan(s, a) == (s, "");
      assert "" + Scan(s, b).1 == Scan(s, b).1;
    }
  }

  lemma ConcatAssoc(x: string, y: string, z: string)
    ensures x + (y + z) == (x + y) + z
  {
  }

  /** Every step keeps the characters of a partly read tag name free of spaces and '>'. */
  lemma StepNamed(s: Scanner, c: char)
    requires Valid(s) && Named(s)
    ensures Named(Step(s, c).0)
  {
    var r := Step(s, c).0;
    if r.mode == TrackPoint || r.mode == Elevation || r.mode == Time {
      if s.mode == r.mode && r.count > 0 && r.count > s.count {
        assert r.buf[..s.count] == s.buf[..s.count];
        assert r.buf[s.count] == Lower(c);
      }
    }
  }
}
