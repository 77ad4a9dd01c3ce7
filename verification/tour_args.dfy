/**
 * How main in hw2/hw2.c reads its command line: argv[1] is the location
 * file, the first later argument that does not start with '-' and does not
 * follow "-insert" starts the city names, and the arguments in between are
 * heuristics.  Opening and reading the file, which come between the city
 * count check and the heuristic check, are left out.
 */
module TourArgs {
  import opened Wrappers

  /** The heuristics enum of hw2/hw2.c. */
  datatype Heuristic = Given | Nearest | Farthest

  /** What main goes on to do with its arguments. */
  datatype Command =
    | MissingFilename
    | TooFewCities
    | InvalidHeuristic
    | Run(heuristics: seq<Heuristic>, cities: seq<string>)

  /** argv[i][0] == '-'; an empty argument has '\0' there. */
  predicate Hyphen(a: string) {
    |a| > 0 && a[0] == '-'
  }

  /** Position j holds a city name by main's rule. */
  predicate CityAt(argv: seq<string>, j: int) {
    2 <= j < |argv| && !Hyphen(argv[j]) && argv[j - 1] != "-insert"
  }

  /**
   * The search for startOfCity, from position i on: the first position
   * holding a city name, or 2 when there is none.
   */
  function StartOfCity(argv: seq<string>, i: int): (s: int)
    requires 2 <= i
    ensures (exists j | i <= j < |argv| :: CityAt(argv, j)) ==>
              i <= s < |argv| && CityAt(argv, s) && forall j | i <= j < s :: !CityAt(argv, j)
    ensures (forall j | i <= j < |argv| :: !CityAt(argv, j)) ==> s == 2
    decreases |argv| - i
  {
    if i >= |argv| then 2
    else if CityAt(argv, i) then i
    else StartOfCity(argv, i + 1)
  }

  /** The arguments of one heuristic. */
  function Tokens(h: Heuristic): seq<string> {
    match h
    case Given => ["-given"]
    case Nearest => ["-insert", "nearest"]
    case Farthest => ["-insert", "farthest"]
  }

  /** The arguments that spell out a list of heuristics. */
  function Render(hs: seq<Heuristic>): seq<string> {
    if hs == [] then [] else Tokens(hs[0]) + Render(hs[1..])
  }

  /**
   * The loop over argv[i .. end-1] that turns arguments into heuristics:
   * None for anything but "-given", "-insert nearest" or "-insert
   * farthest".  The argument read after "-insert" lies before `end`, since
   * the argument before the first city is never "-insert".
   */
  function ParseHeuristics(argv: seq<string>, i: int, end: int): (r: Option<seq<Heuristic>>)
    requires 2 <= i && end <= |argv| && (i < end ==> argv[end - 1] != "-insert")
    decreases end - i
  {
    if i >= end then Some([])
    else if argv[i] == "-given" then Prepend(Given, ParseHeuristics(argv, i + 1, end))
    else if argv[i] == "-insert" then
      if argv[i + 1] == "nearest" then Prepend(Nearest, ParseHeuristics(argv, i + 2, end))
      else if argv[i + 1] == "farthest" then Prepend(Farthest, ParseHeuristics(argv, i + 2, end))
      else None
    else None
  }

  function Prepend(h: Heuristic, r: Option<seq<Heuristic>>): Option<seq<Heuristic>> {
    match r
    case None => None
    case Some(hs) => Some([h] + hs)
  }

  /**
   * main's argument checks in order: no file name, fewer than two cities,
   * an invalid heuristic; otherwise the heuristics and the city names.
   */
  function Arguments(argv: seq<string>): (c: Command)
    ensures c.Run? ==> 2 <= |c.cities| <= |argv| && c.cities == argv[|argv| - |c.cities|..]
    ensures c == MissingFilename <==> |argv| <= 1
  {
    if |argv| <= 1 then MissingFilename
    else
      var start := StartOfCity(argv, 2);
      if |argv| - start < 2 then TooFewCities
      else match ParseHeuristics(argv, 2, start)
        case None => InvalidHeuristic
        case Some(hs) => Run(hs, argv[start..])
  }

  lemma {:induction false} RenderAt(hs: seq<Heuristic>, argv: seq<string>, i: int, j: int)
    requires 2 <= i <= j < i + |Render(hs)| && i + |Render(hs)| <= |argv|
    requires argv[i..i + |Render(hs)|] == Render(hs)
    ensures !CityAt(argv, j)
    decreases |hs|
  {
    var t := Tokens(hs[0]);
    var n := i + |Render(hs)|;
    assert Render(hs) == t + Render(hs[1..]);
    assert argv[i..n][..|t|] == t;
    if j < i + |t| {
      assert argv[j] == argv[i..n][j - i] == t[j - i];
      if j > i {
        assert argv[j - 1] == argv[i..n][0] == t[0] == "-insert";
      } else {
        assert Hyphen(t[0]);
      }
    } else {
      assert argv[i + |t|..i + |Render(hs)|] == Render(hs[1..]);
      RenderAt(hs[1..], argv, i + |t|, j);
    }
  }

  lemma {:induction false} RenderLast(hs: seq<Heuristic>)
    requires hs != []
    ensures Render(hs)[|Render(hs)| - 1] != "-insert"
    decreases |hs|
  {
    assert Render(hs) == Tokens(hs[0]) + Render(hs[1..]);
    if |hs| > 1 {
      RenderLast(hs[1..]);
    }
  }

  /** Arguments spelling out `hs` parse back to `hs`. */
  lemma {:induction false} ParseRender(hs: seq<Heuristic>, argv: seq<string>, i: int, end: int)
    requires 2 <= i && end == i + |Render(hs)| <= |argv| && argv[i..end] == Render(hs)
    requires i < end ==> argv[end - 1] != "-insert"
    ensures ParseHeuristics(argv, i, end) == Some(hs)
    decreases |hs|
  {
    if hs != [] {
      var t := Tokens(hs[0]);
      assert Render(hs) == t + Render(hs[1..]);
      assert argv[i..end][0] == t[0];
      assert argv[i + |t|..end] == Render(hs[1..]);
      ParseRender(hs[1..], argv, i + |t|, end);
      assert hs == [hs[0]] + hs[1..];
      match hs[0]
      case Given =>
      case Nearest =>
        assert argv[i..end][1] == t[1];
      case Farthest =>
        assert argv[i..end][1] == t[1];
    }
  }

  /** Whatever parses came from the arguments spelling it out. */
  lemma {:induction false} RenderParse(argv: seq<string>, i: int, end: int, hs: seq<Heuristic>)
    requires 2 <= i <= end <= |argv| && (i < end ==> argv[end - 1] != "-insert")
    requires ParseHeuristics(argv, i, end) == Some(hs)
    ensures argv[i..end] == Render(hs)
    decreases end - i
  {
    if i < end {
      var next := if argv[i] == "-given" then i + 1 else i + 2;
      var rest := ParseHeuristics(argv, next, end);
      assert rest.Some? && hs == [hs[0]] + rest.value;
      if argv[i] == "-given" {
        assert hs[0] == Given && argv[i..next] == [argv[i]];
      } else {
        assert argv[i..next] == [argv[i], argv[i + 1]];
        assert hs[0] == if argv[i + 1] == "nearest" then Nearest else Farthest;
      }
      RenderParse(argv, next, end, rest.value);
      assert argv[i..end] == argv[i..next] + argv[next..end];
      assert hs[1..] == rest.value;
      assert Render(hs) == Tokens(hs[0]) + Render(hs[1..]);
    }
  }

  /**
   * A command line made of a file name, heuristics and at least two cities,
   * the first not starting with '-', runs those heuristics on those cities.
   * A file name of "-insert" with no heuristics would make the first city
   * read as its modifier, so it is excluded.
   */
  lemma ArgumentsRun(prog: string, file: string, hs: seq<Heuristic>, cities: seq<string>)
    requires |cities| >= 2 && !Hyphen(cities[0])
    requires hs == [] ==> file != "-insert"
    ensures Arguments([prog, file] + Render(hs) + cities) == Run(hs, cities)
  {
    var argv := [prog, file] + Render(hs) + cities;
    var start := 2 + |Render(hs)|;
    assert argv[2..start] == Render(hs);
    forall j | 2 <= j < start ensures !CityAt(argv, j) {
      RenderAt(hs, argv, 2, j);
    }
    if hs != [] {
      RenderLast(hs);
      assert argv[start - 1] == Render(hs)[|Render(hs)| - 1];
    }
    assert argv[start] == cities[0];
    assert CityAt(argv, start);
    assert StartOfCity(argv, 2) == start;
    ParseRender(hs, argv, 2, start);
    assert argv[start..] == cities;
  }

  /** A run always comes from a file name, the spelled-out heuristics and the cities. */
  lemma RunArguments(argv: seq<string>, hs: seq<Heuristic>, cities: seq<string>)
    requires Arguments(argv) == Run(hs, cities)
    ensures |argv| >= 4 && |cities| >= 2 && argv == argv[..2] + Render(hs) + cities
  {
    var start := StartOfCity(argv, 2);
    RenderParse(argv, 2, start, hs);
    assert argv == argv[..2] + argv[2..start] + argv[start..];
  }
}
