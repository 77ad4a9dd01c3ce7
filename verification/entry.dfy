/**
 * entry_read of hw4/entry.c: one line of a Blotto entry file, an ID followed
 * by comma-separated unit counts.  The stream is the sequence of characters
 * still to be read (None for a NULL stream).  A declarative reading of the
 * line (EntrySpec) is stated first; the character-by-character scanner
 * (EntryRead) is proved to agree with it.
 */
module Entry {
  import opened Wrappers
  import Seqs

  /** The result struct: each pointer may be NULL. */
  datatype Entry = Entry(id: Option<string>, distribution: Option<seq<int>>)

  /** The error result: both fields NULL. */
  const Error: Entry := Entry(None, None)

  /** isspace in the C locale. */
  predicate IsSpace(c: char) {
    c == ' ' || c == '\t' || c == '\n' || c == '\U{B}' || c == '\U{C}' || c == '\r'
  }

  /** isdigit. */
  predicate IsDigit(c: char) {
    '0' <= c <= '9'
  }

  function Min(a: nat, b: nat): nat {
    if a <= b then a else b
  }

  /** The characters entry_read consumes as the line: up to the first '\n' or '\r'. */
  function LineOf(s: string): (r: string)
    ensures r <= s
    ensures forall c | c in r :: c != '\n' && c != '\r'
    ensures |r| < |s| ==> s[|r|] == '\n' || s[|r|] == '\r'
  {
    if |s| == 0 || s[0] == '\n' || s[0] == '\r' then [] else [s[0]] + LineOf(s[1..])
  }

  /** The prefix of `s` before its first ',' (all of `s` if there is none). */
  function IdField(s: string): (r: string)
    ensures r <= s && ',' !in r
    ensures |r| < |s| ==> s[|r|] == ','
  {
    Seqs.UpTo(s, ',')
  }

  /** The comma-separated fields of `s`; there is always at least one. */
  function Fields(s: string): (r: seq<string>)
    ensures |r| >= 1
  {
    if |s| == 0 then [""] else AddChar(Fields(s[..|s| - 1]), s[|s| - 1])
  }

  /** One more character: a comma opens a new field, anything else extends the last. */
  function AddChar(f: seq<string>, c: char): (r: seq<string>)
    requires |f| >= 1
    ensures |r| >= 1
  {
    if c == ',' then f + [""] else f[..|f| - 1] + [f[|f| - 1] + [c]]
  }

  /** Adding a character only touches the last part of a concatenation of fields. */
  lemma AddCharConcat(a: seq<string>, b: seq<string>, c: char)
    requires |b| >= 1
    ensures AddChar(a + b, c) == a + AddChar(b, c)
  {
    if c != ',' {
      assert (a + b)[..|a + b| - 1] == a + b[..|b| - 1];
    }
  }

  /** Joins fields with commas. */
  function Join(fs: seq<string>): string
    requires |fs| >= 1
  {
    if |fs| == 1 then fs[0] else Join(fs[..|fs| - 1]) + "," + fs[|fs| - 1]
  }

  /** Splitting at commas and joining with commas gives the string back. */
  lemma {:induction false} JoinFields(s: string)
    ensures Join(Fields(s)) == s
  {
    if |s| > 0 {
      var init := s[..|s| - 1];
      JoinFields(init);
      var f := Fields(init);
      var c := s[|s| - 1];
      assert s == init + [c];
      if c != ',' {
        if |f| > 1 {
          assert (f[..|f| - 1] + [f[|f| - 1] + [c]])[..|f| - 1] == f[..|f| - 1];
        }
      } else {
        assert (f + [""])[..|f|] == f;
      }
    }
  }

  /** The value of a string of decimal digits. */
  function Decimal(d: string): nat {
    if |d| == 0 then 0
    else
      var c := d[|d| - 1];
      Decimal(d[..|d| - 1]) * 10 + (if IsDigit(c) then (c as int) - ('0' as int) else 0)
  }

  /** INT_MAX: curr_int is a C int, and a field past it overflows. */
  const IntMax: nat := 0x7FFF_FFFF

  /** 10^n. */
  function Pow10(n: nat): (r: nat)
    ensures r >= 1
  {
    if n == 0 then 1 else 10 * Pow10(n - 1)
  }

  /** A field of k digits is worth less than 10^k. */
  lemma {:induction false} DecimalBelow(d: string)
    requires forall i | 0 <= i < |d| :: IsDigit(d[i])
    ensures Decimal(d) < Pow10(|d|)
    decreases |d|
  {
    if |d| > 0 {
      DecimalBelow(d[..|d| - 1]);
    }
  }

  /**
   * The unbounded value agrees with the C int accumulator exactly on fields
   * of at most nine digits: those never pass INT_MAX, while ten nines do.
   */
  lemma DecimalFitsInt(d: string)
    requires forall i | 0 <= i < |d| :: IsDigit(d[i])
    ensures |d| <= 9 ==> Decimal(d) <= IntMax
    ensures Decimal(seq(10, _ => '9')) > IntMax
  {
    DecimalBelow(d);
    if |d| <= 9 {
      Pow10Mono(|d|, 9);
    }
    Nines(10);
  }

  /** k nines are worth 10^k - 1. */
  lemma {:induction false} Nines(k: nat)
    ensures Decimal(seq(k, _ => '9')) == Pow10(k) - 1
  {
    if k > 0 {
      assert seq(k, _ => '9')[..k - 1] == seq(k - 1, _ => '9');
      Nines(k - 1);
    }
  }

  lemma {:induction false} Pow10Mono(a: nat, b: nat)
    requires a <= b
    ensures Pow10(a) <= Pow10(b)
    decreases b
  {
    if a < b {
      Pow10Mono(a, b - 1);
    }
  }

  /** The unit counts a well-formed distribution part denotes; missing fields are 0. */
  function Distribution(fields: seq<string>, battlefields: nat): (r: seq<int>)
    ensures |r| == battlefields
  {
    seq(battlefields, i => if 0 <= i < |fields| then Decimal(fields[i]) else 0)
  }

  /**
   * What entry_read returns, read off the whole line: an ID without
   * whitespace (kept up to `maxId` characters), then, after the first comma,
   * fields made only of digits, none empty except possibly the last, at
   * most `battlefields` of them.  A non-empty ID needs exactly
   * `battlefields` fields; an empty ID with at most one field marks the end
   * of input.
   */
  function EntrySpec(stream: Option<string>, maxId: nat, battlefields: nat): Entry
    requires battlefields >= 1
  {
    if stream.None? then Error else LineSpec(LineOf(stream.value), maxId, battlefields)
  }

  /** EntrySpec for the characters of one line. */
  function LineSpec(line: string, maxId: nat, battlefields: nat): Entry
    requires battlefields >= 1
  {
    var idField := IdField(line);
    var id := idField[..Min(|idField|, maxId)];
    if exists c | c in idField :: IsSpace(c) then Error
    else if |idField| == |line| then
      if |id| == 0 then Entry(Some(""), None)
      else if battlefields != 1 then Error
      else Entry(Some(id), Some(Distribution([], battlefields)))
    else DistributionSpec(id, line[|idField| + 1..], battlefields)
  }

  /** EntrySpec for the part of the line after the first comma, given the ID. */
  function DistributionSpec(id: string, rest: string, battlefields: nat): Entry
    requires battlefields >= 1
  {
    var fields := Fields(rest);
    if exists c | c in rest :: c != ',' && !IsDigit(c) then Error
    else if exists i | 0 <= i < |fields| - 1 :: fields[i] == "" then Error
    else if |fields| > battlefields then Error
    else if |id| == 0 && |fields| > 1 then Error
    else if |id| > 0 && |fields| != battlefields then Error
    else if |id| == 0 then Entry(Some(""), None)
    else Entry(Some(id), Some(Distribution(fields, battlefields)))
  }

  datatype Phase = InId | InDistribution

  /** The scanner's variables: the parse state, the ID so far, and the distribution being read. */
  datatype Scanner = Scanner(phase: Phase, id: string, currBf: int, currInt: int, started: bool, dist: seq<int>)

  /** The scanner before the first character. */
  function Start(battlefields: nat): Scanner {
    Scanner(InId, "", 0, 0, false, seq(battlefields, _ => 0))
  }

  /** One pass of the switch in the read loop; None when entry_read gives up on the line. */
  function Step(sc: Scanner, ch: char, maxId: nat, battlefields: nat): Option<Scanner> {
    match sc.phase
    case InId =>
      if ch == ',' then Some(sc.(phase := InDistribution))
      else if IsSpace(ch) then None
      else if |sc.id| < maxId then Some(sc.(id := sc.id + [ch]))
      else Some(sc)
    case InDistribution =>
      if ch == ',' then
        if !sc.started || sc.currBf + 1 >= battlefields then None
        else Some(sc.(currBf := sc.currBf + 1, currInt := 0, started := false))
      else if !IsDigit(ch) then None
      else
        var v := sc.currInt * 10 + ((ch as int) - ('0' as int));
        Some(sc.(started := true, currInt := v,
                 dist := if 0 <= sc.currBf < |sc.dist| then sc.dist[sc.currBf := v] else sc.dist))
  }

  /** The checks after the loop: field count against the ID, and the end-of-input marker. */
  function Finish(sc: Scanner, battlefields: nat): Entry {
    if (|sc.id| == 0 && sc.currBf > 0) || (|sc.id| > 0 && sc.currBf != battlefields - 1) then Error
    else if |sc.id| == 0 then Entry(Some(""), None)
    else Entry(Some(sc.id), Some(sc.dist))
  }

  /**
   * What the scanner knows after the first `i` characters of `line`, where
   * `idEnd` is the length of the ID field read so far.
   */
  ghost predicate Scanned(line: string, i: nat, idEnd: nat, sc: Scanner, maxId: nat, battlefields: nat) {
    && i <= |line|
    && idEnd <= i
    && (forall c | c in line[..idEnd] :: !IsSpace(c))
    && sc.id == line[..Min(idEnd, maxId)]
    && (sc.phase == InId ==>
          && idEnd == i && ',' !in line[..i]
          && line[..i] == IdField(line)[..i] && |IdField(line)| >= i
          && sc.currBf == 0 && sc.currInt == 0 && !sc.started && sc.dist == Distribution([], battlefields))
    && (sc.phase == InDistribution ==>
          && idEnd < i && IdField(line) == line[..idEnd]
          && ScanState(line[idEnd + 1..i], battlefields, sc.currBf, sc.currInt, sc.started, sc.dist))
  }

  /** Where the ID field ends once one more character has been read. */
  function NextIdEnd(line: string, i: nat, idEnd: nat, sc: Scanner): nat
    requires i < |line|
  {
    if sc.phase == InId && line[i] != ',' then i + 1 else idEnd
  }

  /** One step of the scanner keeps Scanned, or the specification rejects the line as the scanner does. */
  lemma StepScanned(s: string, i: nat, idEnd: nat, sc: Scanner, maxId: nat, battlefields: nat)
    requires battlefields >= 1
    requires i < |LineOf(s)|
    requires Scanned(LineOf(s), i, idEnd, sc, maxId, battlefields)
    ensures Step(sc, LineOf(s)[i], maxId, battlefields).None? ==> EntrySpec(Some(s), maxId, battlefields) == Error
    ensures Step(sc, LineOf(s)[i], maxId, battlefields).Some? ==>
              Scanned(LineOf(s), i + 1, NextIdEnd(LineOf(s), i, idEnd, sc),
                      Step(sc, LineOf(s)[i], maxId, battlefields).value, maxId, battlefields)
  {
    if sc.phase == InId {
      IdStepScanned(s, i, sc, maxId, battlefields);
    } else {
      DistributionStepScanned(s, i, idEnd, sc, maxId, battlefields);
    }
  }

  /** StepScanned in the ID state. */
  lemma IdStepScanned(s: string, i: nat, sc: Scanner, maxId: nat, battlefields: nat)
    requires battlefields >= 1
    requires i < |LineOf(s)| && sc.phase == InId
    requires Scanned(LineOf(s), i, i, sc, maxId, battlefields)
    ensures Step(sc, LineOf(s)[i], maxId, battlefields).None? ==> EntrySpec(Some(s), maxId, battlefields) == Error
    ensures Step(sc, LineOf(s)[i], maxId, battlefields).Some? ==>
              Scanned(LineOf(s), i + 1, NextIdEnd(LineOf(s), i, i, sc),
                      Step(sc, LineOf(s)[i], maxId, battlefields).value, maxId, battlefields)
  {
    var line := LineOf(s);
    var ch := line[i];
    if ch == ',' {
      IdFieldAt(line, i);
      ScanStart(line, i, battlefields);
    } else if IsSpace(ch) {
      IdFieldBeyond(line, i);
      SpecRejectsSpace(s, maxId, battlefields, i);
    } else {
      IdStep(line, i, maxId, sc.id);
    }
  }

  /** StepScanned in the distribution state. */
  lemma DistributionStepScanned(s: string, i: nat, idEnd: nat, sc: Scanner, maxId: nat, battlefields: nat)
    requires battlefields >= 1
    requires i < |LineOf(s)| && sc.phase == InDistribution
    requires Scanned(LineOf(s), i, idEnd, sc, maxId, battlefields)
    ensures Step(sc, LineOf(s)[i], maxId, battlefields).None? ==> EntrySpec(Some(s), maxId, battlefields) == Error
    ensures Step(sc, LineOf(s)[i], maxId, battlefields).Some? ==>
              Scanned(LineOf(s), i + 1, idEnd, Step(sc, LineOf(s)[i], maxId, battlefields).value, maxId, battlefields)
  {
    var line := LineOf(s);
    var ch := line[i];
    if ch == ',' {
      if !sc.started {
        assert Step(sc, ch, maxId, battlefields).None?;
        SpecRejectsEmptyField(s, maxId, battlefields, idEnd, i);
      } else if sc.currBf + 1 >= battlefields {
        assert Step(sc, ch, maxId, battlefields).None?;
        SpecRejectsExtraField(s, maxId, battlefields, idEnd, i);
      } else {
        CommaStepScanned(line, i, idEnd, sc, maxId, battlefields);
      }
    } else if !IsDigit(ch) {
      assert Step(sc, ch, maxId, battlefields).None?;
      SpecRejectsNonDigit(s, maxId, battlefields, idEnd, i);
    } else {
      DigitStepScanned(line, i, idEnd, sc, maxId, battlefields);
    }
  }

  /** A comma after a value in the distribution state keeps Scanned. */
  lemma CommaStepScanned(line: string, i: nat, idEnd: nat, sc: Scanner, maxId: nat, battlefields: nat)
    requires i < |line| && line[i] == ',' && sc.phase == InDistribution
    requires sc.started && sc.currBf + 1 < battlefields
    requires Scanned(line, i, idEnd, sc, maxId, battlefields)
    ensures Step(sc, ',', maxId, battlefields).Some?
    ensures Scanned(line, i + 1, idEnd, Step(sc, ',', maxId, battlefields).value, maxId, battlefields)
  {
    ScanCommaAt(line, idEnd, i, battlefields, sc.currBf, sc.currInt, sc.dist);
    var next := sc.(currBf := sc.currBf + 1, currInt := 0, started := false);
    ScannedInDistribution(line, i + 1, idEnd, next, maxId, battlefields);
  }

  /** A digit in the distribution state keeps Scanned. */
  lemma DigitStepScanned(line: string, i: nat, idEnd: nat, sc: Scanner, maxId: nat, battlefields: nat)
    requires i < |line| && IsDigit(line[i]) && sc.phase == InDistribution
    requires Scanned(line, i, idEnd, sc, maxId, battlefields)
    ensures Step(sc, line[i], maxId, battlefields).Some?
    ensures Scanned(line, i + 1, idEnd, Step(sc, line[i], maxId, battlefields).value, maxId, battlefields)
  {
    ScanDigitAt(line, idEnd, i, battlefields, sc.currBf, sc.currInt, sc.started, sc.dist);
    var v := sc.currInt * 10 + ((line[i] as int) - ('0' as int));
    var next := sc.(started := true, currInt := v, dist := sc.dist[sc.currBf := v]);
    DigitStep(sc, line[i], maxId, battlefields);
    ScannedInDistribution(line, i + 1, idEnd, next, maxId, battlefields);
  }

  /** A digit in the distribution state accumulates into the current field's slot. */
  lemma DigitStep(sc: Scanner, ch: char, maxId: nat, battlefields: nat)
    requires sc.phase == InDistribution && IsDigit(ch) && 0 <= sc.currBf < |sc.dist|
    ensures var v := sc.currInt * 10 + ((ch as int) - ('0' as int));
            Step(sc, ch, maxId, battlefields) == Some(sc.(started := true, currInt := v, dist := sc.dist[sc.currBf := v]))
  {
  }

  /** Scanned in the distribution state, from its parts. */
  lemma ScannedInDistribution(line: string, i: nat, idEnd: nat, sc: Scanner, maxId: nat, battlefields: nat)
    requires sc.phase == InDistribution && idEnd < i <= |line|
    requires IdField(line) == line[..idEnd] && forall c | c in line[..idEnd] :: !IsSpace(c)
    requires sc.id == line[..Min(idEnd, maxId)]
    requires ScanState(line[idEnd + 1..i], battlefields, sc.currBf, sc.currInt, sc.started, sc.dist)
    ensures Scanned(line, i, idEnd, sc, maxId, battlefields)
  {
  }

  /** At the end of the line, the scanner's final check gives the specification's answer. */
  lemma FinishScanned(s: string, idEnd: nat, sc: Scanner, maxId: nat, battlefields: nat)
    requires battlefields >= 1
    requires Scanned(LineOf(s), |LineOf(s)|, idEnd, sc, maxId, battlefields)
    ensures Finish(sc, battlefields) == EntrySpec(Some(s), maxId, battlefields)
  {
    var line := LineOf(s);
    if sc.phase == InId {
      assert line[..|line|] == line;
      FinishWithoutComma(s, maxId, battlefields, sc);
    } else {
      assert line[idEnd + 1..|line|] == line[idEnd + 1..];
      DistributionSpecScanned(sc, line[idEnd + 1..], battlefields);
      FinishWithComma(s, maxId, battlefields, idEnd, sc);
    }
  }

  /**
   * entry_read: reads characters until the end of the stream, '\n' or
   * '\r', stepping the scanner, then applies the final check.  Allocation
   * failure and the final fgetc that eats a '\n' after a '\r' are left out.
   */
  method EntryRead(stream: Option<string>, maxId: nat, battlefields: nat) returns (result: Entry)
    requires battlefields >= 1
    ensures result == EntrySpec(stream, maxId, battlefields)
  {
    if stream.None? {
      return Error;
    }
    var sc := ScanLine(stream.value, maxId, battlefields);
    if sc.None? {
      return Error;
    }
    ghost var idEnd :| Scanned(LineOf(stream.value), |LineOf(stream.value)|, idEnd, sc.value, maxId, battlefields);
    FinishScanned(stream.value, idEnd, sc.value, maxId, battlefields);
    result := Finish(sc.value, battlefields);
  }

  /**
   * The read loop of entry_read: steps the scanner over the characters of
   * the line; None when it gives up before the end of the line.
   */
  method ScanLine(s: string, maxId: nat, battlefields: nat) returns (r: Option<Scanner>)
    requires battlefields >= 1
    ensures r.None? ==> EntrySpec(Some(s), maxId, battlefields) == Error
    ensures r.Some? ==> exists idEnd :: Scanned(LineOf(s), |LineOf(s)|, idEnd, r.value, maxId, battlefields)
  {
    var sc := Start(battlefields);
    ghost var idEnd := 0;
    var i := 0;
    assert Distribution([], battlefields) == sc.dist;
    assert Scanned(LineOf(s), 0, 0, sc, maxId, battlefields);
    while i < |s| && s[i] != '\n' && s[i] != '\r'
      invariant ScannedPrefix(s, i, idEnd, sc, maxId, battlefields)
    {
      ScanLineStep(s, i, idEnd, sc, maxId, battlefields);
      var next := Step(sc, s[i], maxId, battlefields);
      if next.None? {
        return None;
      }
      idEnd := NextIdEnd(LineOf(s), i, idEnd, sc);
      sc := next.value;
      i := i + 1;
    }
    LineOfEnd(s, i);
    return Some(sc);
  }

  /** The part of the line after the first comma; empty when there is no comma. */
  function DistributionPart(line: string): (r: string)
    ensures |IdField(line)| < |line| ==> r == line[|IdField(line)| + 1..]
    ensures |IdField(line)| == |line| ==> r == ""
  {
    var idField := IdField(line);
    if |idField| == |line| then "" else line[|idField| + 1..]
  }

  /**
   * The line format as evidently intended: an entry with an ID and a
   * distribution is rejected when its last field is empty, as entry_read
   * already does for every other field.
   */
  function StrictEntrySpec(stream: Option<string>, maxId: nat, battlefields: nat): Entry
    requires battlefields >= 1
  {
    if stream.None? then Error
    else
      var line := LineOf(stream.value);
      var r := LineSpec(line, maxId, battlefields);
      var fields := Fields(DistributionPart(line));
      if r.distribution.Some? && fields[|fields| - 1] == "" then Error else r
  }

  /** The final check with the missing test: a started ID must end on a value. */
  function FinishStrict(sc: Scanner, battlefields: nat): Entry {
    if |sc.id| > 0 && !sc.started then Error else Finish(sc, battlefields)
  }

  /** entry_read with the final check corrected. */
  method EntryReadStrict(stream: Option<string>, maxId: nat, battlefields: nat) returns (result: Entry)
    requires battlefields >= 1
    ensures result == StrictEntrySpec(stream, maxId, battlefields)
  {
    if stream.None? {
      return Error;
    }
    var sc := ScanLine(stream.value, maxId, battlefields);
    if sc.None? {
      return Error;
    }
    ghost var idEnd :| Scanned(LineOf(stream.value), |LineOf(stream.value)|, idEnd, sc.value, maxId, battlefields);
    FinishStrictScanned(stream.value, idEnd, sc.value, maxId, battlefields);
    result := FinishStrict(sc.value, battlefields);
  }

  /** The corrected final check agrees with the corrected specification. */
  lemma FinishStrictScanned(s: string, idEnd: nat, sc: Scanner, maxId: nat, battlefields: nat)
    requires battlefields >= 1
    requires Scanned(LineOf(s), |LineOf(s)|, idEnd, sc, maxId, battlefields)
    ensures FinishStrict(sc, battlefields) == StrictEntrySpec(Some(s), maxId, battlefields)
  {
    FinishScanned(s, idEnd, sc, maxId, battlefields);
    var line := LineOf(s);
    var fields := Fields(DistributionPart(line));
    if sc.phase == InId {
      assert line[..|line|] == line;
      IdFieldWithoutComma(line);
      assert DistributionPart(line) == "";
      assert fields[|fields| - 1] == "";
    } else {
      assert line[idEnd + 1..|line|] == line[idEnd + 1..];
      assert DistributionPart(line) == line[idEnd + 1..];
      assert sc.started <==> fields[|fields| - 1] != "";
    }
  }

  /**
   * The corrected format accepts an entry only with exactly `battlefields`
   * non-empty fields of digits, whose values are the distribution.
   */
  lemma StrictEntryComplete(stream: Option<string>, maxId: nat, battlefields: nat)
    requires battlefields >= 1
    ensures var r := StrictEntrySpec(stream, maxId, battlefields);
            r.distribution.Some? ==>
              && stream.Some?
              && var part := DistributionPart(LineOf(stream.value));
                 var fields := Fields(part);
                 && r.id.Some? && |r.id.value| > 0
                 && |fields| == battlefields
                 && (forall i | 0 <= i < |fields| :: fields[i] != "")
                 && (forall c | c in part :: c == ',' || IsDigit(c))
                 && Join(fields) == part
                 && r.distribution.value == seq(battlefields, i requires 0 <= i < battlefields => Decimal(fields[i]))
  {
    if stream.Some? {
      var line := LineOf(stream.value);
      var part := DistributionPart(line);
      var idField := IdField(line);
      if |idField| == |line| {
        assert Fields(part) == [""];
        assert StrictEntrySpec(stream, maxId, battlefields).distribution.None?;
      } else if exists c | c in idField :: IsSpace(c) {
        assert LineSpec(line, maxId, battlefields) == Error;
      } else {
        var id := idField[..Min(|idField|, maxId)];
        assert LineSpec(line, maxId, battlefields) == DistributionSpec(id, part, battlefields);
        DistributionSpecComplete(id, part, battlefields);
      }
    }
  }

  /** DistributionSpec with a non-empty last field accepts only a full, well-formed distribution. */
  lemma DistributionSpecComplete(id: string, rest: string, battlefields: nat)
    requires battlefields >= 1
    ensures var r := DistributionSpec(id, rest, battlefields);
            var fields := Fields(rest);
            r.distribution.Some? && fields[|fields| - 1] != "" ==>
              && r.id == Some(id) && |id| > 0
              && |fields| == battlefields
              && (forall i | 0 <= i < |fields| :: fields[i] != "")
              && (forall c | c in rest :: c == ',' || IsDigit(c))
              && Join(fields) == rest
              && r.distribution.value == seq(battlefields, i requires 0 <= i < battlefields => Decimal(fields[i]))
  {
    JoinFields(rest);
  }

  /** The line "a,1," holds no line break and its ID field is "a". */
  lemma TrailingLine()
    ensures LineOf("a,1,") == "a,1," && IdField("a,1,") == "a" && "a,1,"[2..] == "1,"
  {
    assert LineOf("") == "" && IdField(",1,") == "";
    assert LineOf(",") == "," && LineOf("1,") == "1," && LineOf(",1,") == ",1,";
    assert "a,1,"[1..] == ",1," && ",1,"[1..] == "1," && "1,"[1..] == ",";
  }

  /** The fields of "1," are "1" and "". */
  lemma TrailingFields()
    ensures Fields("1,") == ["1", ""]
  {
    assert "1"[..0] == "" && "1"[0] == '1';
    assert Fields("1") == ["1"] by {
      assert [""][..0] == [] && "" + ['1'] == "1";
    }
    assert "1,"[..1] == "1";
  }

  /** The distribution part "1," of that line, read for two battlefields. */
  lemma TrailingDistribution()
    ensures DistributionSpec("a", "1,", 2) == Entry(Some("a"), Some([1, 0]))
  {
    TrailingFields();
    assert Distribution(["1", ""], 2) == [1, 0] by {
      assert "1"[..0] == "";
    }
  }

  /** As written: "a,1," with two battlefields is accepted, its empty last field read as 0. */
  lemma TrailingEmptyFieldAccepted()
    ensures EntrySpec(Some("a,1,"), 5, 2) == Entry(Some("a"), Some([1, 0]))
    ensures StrictEntrySpec(Some("a,1,"), 5, 2) == Error
  {
    TrailingLine();
    TrailingFields();
    TrailingDistribution();
    assert "a"[..Min(1, 5)] == "a";
  }

  /** A line without a comma: the scanner's final check agrees with the specification. */
  lemma FinishWithoutComma(s: string, maxId: nat, battlefields: nat, sc: Scanner)
    requires battlefields >= 1
    requires ',' !in LineOf(s)
    requires forall c | c in LineOf(s) :: !IsSpace(c)
    requires sc.id == LineOf(s)[..Min(|LineOf(s)|, maxId)]
    requires sc.currBf == 0 && sc.dist == Distribution([], battlefields)
    ensures EntrySpec(Some(s), maxId, battlefields) == Finish(sc, battlefields)
  {
    IdFieldWithoutComma(LineOf(s));
  }

  /** A line with a comma read without error: the final check agrees with the specification. */
  lemma FinishWithComma(s: string, maxId: nat, battlefields: nat, idEnd: nat, sc: Scanner)
    requires battlefields >= 1
    requires idEnd < |LineOf(s)| && IdField(LineOf(s)) == LineOf(s)[..idEnd]
    requires forall c | c in LineOf(s)[..idEnd] :: !IsSpace(c)
    requires sc.id == LineOf(s)[..Min(idEnd, maxId)]
    requires DistributionSpec(sc.id, LineOf(s)[idEnd + 1..], battlefields) == Finish(sc, battlefields)
    ensures EntrySpec(Some(s), maxId, battlefields) == Finish(sc, battlefields)
  {
    var line := LineOf(s);
    var idField := IdField(line);
    assert idField[..Min(|idField|, maxId)] == sc.id;
    assert !exists c | c in idField :: IsSpace(c);
  }

  /** A distribution part read without error: the final check matches DistributionSpec. */
  lemma DistributionSpecScanned(sc: Scanner, rest: string, battlefields: nat)
    requires battlefields >= 1
    requires ScanState(rest, battlefields, sc.currBf, sc.currInt, sc.started, sc.dist)
    ensures DistributionSpec(sc.id, rest, battlefields) == Finish(sc, battlefields)
  {
    var fields := Fields(rest);
    assert !exists c | c in rest :: c != ',' && !IsDigit(c);
    assert !exists j | 0 <= j < |fields| - 1 :: fields[j] == "";
  }

  /** ScanLine's loop invariant: the characters read so far are a prefix of the line, described by Scanned. */
  ghost predicate ScannedPrefix(s: string, i: nat, idEnd: nat, sc: Scanner, maxId: nat, battlefields: nat) {
    Scanned(LineOf(s), i, idEnd, sc, maxId, battlefields)
  }

  /** One pass of ScanLine's loop, on the character read from the stream. */
  lemma ScanLineStep(s: string, i: nat, idEnd: nat, sc: Scanner, maxId: nat, battlefields: nat)
    requires battlefields >= 1
    requires i < |s| && s[i] != '\n' && s[i] != '\r'
    requires ScannedPrefix(s, i, idEnd, sc, maxId, battlefields)
    ensures i < |LineOf(s)|
    ensures Step(sc, s[i], maxId, battlefields).None? ==> EntrySpec(Some(s), maxId, battlefields) == Error
    ensures Step(sc, s[i], maxId, battlefields).Some? ==>
              ScannedPrefix(s, i + 1, NextIdEnd(LineOf(s), i, idEnd, sc),
                            Step(sc, s[i], maxId, battlefields).value, maxId, battlefields)
  {
    LineOfAt(s, i);
    StepScanned(s, i, idEnd, sc, maxId, battlefields);
  }

  /** Before a line break, the scanner is still inside the line. */
  lemma {:induction false} LineOfAt(s: string, i: nat)
    requires i < |s| && s[i] != '\n' && s[i] != '\r'
    requires i <= |LineOf(s)|
    ensures i < |LineOf(s)| && LineOf(s)[i] == s[i]
  {
    if i > 0 {
      assert s[1..][i - 1] == s[i];
      LineOfAt(s[1..], i - 1);
    }
  }

  /** The scanner stops reading exactly at the end of the line. */
  lemma {:induction false} LineOfEnd(s: string, i: nat)
    requires i <= |LineOf(s)|
    requires i == |s| || s[i] == '\n' || s[i] == '\r'
    ensures i == |LineOf(s)|
  {
    if i > 0 {
      if i < |s| { assert s[1..][i - 1] == s[i]; }
      LineOfEnd(s[1..], i - 1);
    }
  }

  /** Without a comma, the ID field is the whole string. */
  lemma {:induction false} IdFieldWithoutComma(s: string)
    requires ',' !in s
    ensures IdField(s) == s
  {
    if |s| > 0 {
      assert s[0] in s;
      assert ',' !in s[1..] by {
        forall c | c in s[1..] ensures c != ',' { assert c in s; }
      }
      IdFieldWithoutComma(s[1..]);
    }
  }

  /** The scanner's variables after reading the distribution part `rest` without error. */
  ghost predicate ScanState(rest: string, battlefields: nat, currBf: int, currInt: int, started: bool, dist: seq<int>) {
    var fields := Fields(rest);
    && (forall c | c in rest :: c == ',' || IsDigit(c))
    && (forall j | 0 <= j < |fields| - 1 :: fields[j] != "")
    && |fields| <= battlefields
    && currBf == |fields| - 1
    && (started <==> fields[|fields| - 1] != "")
    && currInt == Decimal(fields[|fields| - 1])
    && dist == Distribution(fields, battlefields)
  }

  /** Splitting one character further, by the definition of Fields. */
  lemma FieldsSnoc(s: string, c: char)
    ensures Fields(s + [c]) == AddChar(Fields(s), c)
  {
    assert (s + [c])[..|s|] == s;
  }

  /** A comma ends the current field and starts an empty one. */
  lemma ScanComma(rest: string, battlefields: nat, currBf: int, currInt: int, dist: seq<int>)
    requires ScanState(rest, battlefields, currBf, currInt, true, dist)
    ensures currBf + 1 < battlefields ==> ScanState(rest + [','], battlefields, currBf + 1, 0, false, dist)
  {
    FieldsSnoc(rest, ',');
    var f := Fields(rest);
    var g := f + [""];
    forall c | c in rest + [','] ensures c == ',' || IsDigit(c) {
      if c != ',' { assert c in rest; }
    }
    assert Distribution(g, battlefields) == dist;
  }

  /** ScanComma at position `i` of the line. */
  lemma ScanCommaAt(line: string, idEnd: nat, i: nat, battlefields: nat, currBf: int, currInt: int, dist: seq<int>)
    requires idEnd < i < |line| && line[i] == ','
    requires ScanState(line[idEnd + 1..i], battlefields, currBf, currInt, true, dist)
    ensures currBf + 1 < battlefields ==> ScanState(line[idEnd + 1..i + 1], battlefields, currBf + 1, 0, false, dist)
  {
    assert line[idEnd + 1..i + 1] == line[idEnd + 1..i] + [','];
    ScanComma(line[idEnd + 1..i], battlefields, currBf, currInt, dist);
  }

  /** ScanDigit at position `i` of the line. */
  lemma ScanDigitAt(line: string, idEnd: nat, i: nat, battlefields: nat, currBf: int, currInt: int, started: bool, dist: seq<int>)
    requires idEnd < i < |line| && IsDigit(line[i])
    requires ScanState(line[idEnd + 1..i], battlefields, currBf, currInt, started, dist)
    ensures 0 <= currBf < |dist|
    ensures ScanState(line[idEnd + 1..i + 1], battlefields, currBf, currInt * 10 + ((line[i] as int) - ('0' as int)), true,
                      dist[currBf := currInt * 10 + ((line[i] as int) - ('0' as int))])
  {
    assert line[idEnd + 1..i + 1] == line[idEnd + 1..i] + [line[i]];
    ScanDigit(line[idEnd + 1..i], line[i], battlefields, currBf, currInt, started, dist);
  }

  /** Extending the last field updates only its slot of the distribution. */
  lemma DistributionExtend(f: seq<string>, ch: char, battlefields: nat)
    requires 1 <= |f| <= battlefields
    ensures var g := AddChar(f, ch);
            ch != ',' ==> Distribution(g, battlefields) == Distribution(f, battlefields)[|f| - 1 := Decimal(g[|g| - 1])]
  {
  }

  /** A digit extends the current field's value. */
  lemma ScanDigit(rest: string, ch: char, battlefields: nat, currBf: int, currInt: int, started: bool, dist: seq<int>)
    requires ScanState(rest, battlefields, currBf, currInt, started, dist)
    requires IsDigit(ch)
    ensures 0 <= currBf < |dist|
    ensures ScanState(rest + [ch], battlefields, currBf, currInt * 10 + ((ch as int) - ('0' as int)), true,
                      dist[currBf := currInt * 10 + ((ch as int) - ('0' as int))])
  {
    FieldsSnoc(rest, ch);
    var f := Fields(rest);
    var last := f[|f| - 1] + [ch];
    var g := AddChar(f, ch);
    assert g == f[..|f| - 1] + [last];
    assert last[..|last| - 1] == f[|f| - 1];
    forall c | c in rest + [ch] ensures c == ',' || IsDigit(c) {
      if c != ch { assert c in rest; }
    }
    forall j | 0 <= j < |g| - 1 ensures g[j] != "" {
      assert g[j] == f[j];
    }
    DistributionExtend(f, ch, battlefields);
  }

  /** Another character of the ID field: the invariants of the ID state carry over. */
  lemma IdStep(line: string, i: nat, maxId: nat, id: string)
    requires i < |line| && line[i] != ',' && !IsSpace(line[i])
    requires ',' !in line[..i] && line[..i] == IdField(line)[..i] && |IdField(line)| >= i
    requires forall c | c in line[..i] :: !IsSpace(c)
    requires id == line[..Min(i, maxId)]
    ensures ',' !in line[..i + 1] && line[..i + 1] == IdField(line)[..i + 1] && |IdField(line)| >= i + 1
    ensures forall c | c in line[..i + 1] :: !IsSpace(c)
    ensures (if |id| < maxId then id + [line[i]] else id) == line[..Min(i + 1, maxId)]
  {
    IdFieldBeyond(line, i);
    IdExtends(line, i);
    IdNoSpace(line, i);
    IdKept(line, i, maxId, id);
  }

  lemma IdExtends(line: string, i: nat)
    requires i < |line| && line[i] != ','
    requires ',' !in line[..i] && line[..i] == IdField(line)[..i] && |IdField(line)| > i
    ensures ',' !in line[..i + 1] && line[..i + 1] == IdField(line)[..i + 1]
  {
    var f := IdField(line);
    assert f == line[..|f|];
    assert f[..i + 1] == line[..i + 1];
    assert line[..i + 1] == line[..i] + [line[i]];
  }

  lemma IdNoSpace(line: string, i: nat)
    requires i < |line| && !IsSpace(line[i])
    requires forall c | c in line[..i] :: !IsSpace(c)
    ensures forall c | c in line[..i + 1] :: !IsSpace(c)
  {
    assert line[..i + 1] == line[..i] + [line[i]];
  }

  /** entry_read keeps at most maxId characters of the ID. */
  lemma IdKept(line: string, i: nat, maxId: nat, id: string)
    requires i < |line| && id == line[..Min(i, maxId)]
    ensures (if |id| < maxId then id + [line[i]] else id) == line[..Min(i + 1, maxId)]
  {
    if i < maxId {
      assert line[..i + 1] == line[..i] + [line[i]];
    }
  }

  /** After the first comma the distribution part is empty: one empty field. */
  lemma ScanStart(line: string, i: nat, battlefields: nat)
    requires i < |line| && battlefields >= 1
    ensures ScanState(line[i + 1..i + 1], battlefields, 0, 0, false, Distribution([], battlefields))
  {
    assert line[i + 1..i + 1] == [];
    assert Distribution([""], battlefields) == Distribution([], battlefields);
  }

  /** Reading the first comma ends the ID field. */
  lemma IdFieldAt(line: string, i: nat)
    requires i < |line| && line[i] == ',' && ',' !in line[..i]
    requires |IdField(line)| >= i
    ensures IdField(line) == line[..i]
  {
  }

  /** While no comma has been read, the ID field extends past the current position. */
  lemma IdFieldBeyond(line: string, i: nat)
    requires i < |line| && line[i] != ','
    requires |IdField(line)| >= i
    ensures |IdField(line)| > i
  {
  }

  /** Whitespace inside the ID field makes the specification reject the line. */
  lemma SpecRejectsSpace(s: string, maxId: nat, battlefields: nat, i: nat)
    requires battlefields >= 1
    requires i < |IdField(LineOf(s))| && IsSpace(LineOf(s)[i])
    ensures EntrySpec(Some(s), maxId, battlefields) == Error
  {
    var f := IdField(LineOf(s));
    assert f[i] == LineOf(s)[i] && f[i] in f;
  }

  /** The fields of a string with a comma in it are those of the two sides. */
  lemma {:induction false} FieldsAtComma(x: string, t: string)
    ensures Fields(x + [','] + t) == Fields(x) + Fields(t)
    decreases |t|
  {
    var xc := x + [','];
    if |t| == 0 {
      assert xc + t == xc;
      FieldsSnoc(x, ',');
    } else {
      var t' := t[..|t| - 1];
      var c := t[|t| - 1];
      FieldsAtComma(x, t');
      assert xc + t' == x + [','] + t';
      assert xc + t == (xc + t') + [c];
      assert t == t' + [c];
      FieldsSnoc(xc + t', c);
      FieldsSnoc(t', c);
      AddCharConcat(Fields(x), Fields(t'), c);
    }
  }

  /** The distribution part of the line as the scanner sees it at position `i`. */
  lemma RestSplit(line: string, idEnd: nat, i: nat)
    requires idEnd < i < |line|
    ensures line[idEnd + 1..] == line[idEnd + 1..i] + [line[i]] + line[i + 1..]
  {
  }

  /** A comma closing an empty field makes the specification reject the line. */
  lemma SpecRejectsEmptyField(s: string, maxId: nat, battlefields: nat, idEnd: nat, i: nat)
    requires battlefields >= 1
    requires idEnd < i < |LineOf(s)| && LineOf(s)[i] == ','
    requires IdField(LineOf(s)) == LineOf(s)[..idEnd]
    requires Fields(LineOf(s)[idEnd + 1..i])[|Fields(LineOf(s)[idEnd + 1..i])| - 1] == ""
    ensures EntrySpec(Some(s), maxId, battlefields) == Error
  {
    var line := LineOf(s);
    RestSplit(line, idEnd, i);
    FieldsAtComma(line[idEnd + 1..i], line[i + 1..]);
    var fields := Fields(line[idEnd + 1..]);
    var k := |Fields(line[idEnd + 1..i])| - 1;
    assert fields[k] == "" && k < |fields| - 1;
  }

  /** A comma opening one field too many makes the specification reject the line. */
  lemma SpecRejectsExtraField(s: string, maxId: nat, battlefields: nat, idEnd: nat, i: nat)
    requires battlefields >= 1
    requires idEnd < i < |LineOf(s)| && LineOf(s)[i] == ','
    requires IdField(LineOf(s)) == LineOf(s)[..idEnd]
    requires |Fields(LineOf(s)[idEnd + 1..i])| >= battlefields
    ensures EntrySpec(Some(s), maxId, battlefields) == Error
  {
    var line := LineOf(s);
    RestSplit(line, idEnd, i);
    FieldsAtComma(line[idEnd + 1..i], line[i + 1..]);
  }

  /** A character other than a digit or comma makes the specification reject the line. */
  lemma SpecRejectsNonDigit(s: string, maxId: nat, battlefields: nat, idEnd: nat, i: nat)
    requires battlefields >= 1
    requires idEnd < i < |LineOf(s)| && LineOf(s)[i] != ',' && !IsDigit(LineOf(s)[i])
    requires IdField(LineOf(s)) == LineOf(s)[..idEnd]
    ensures EntrySpec(Some(s), maxId, battlefields) == Error
  {
    var line := LineOf(s);
    assert line[i] == line[idEnd + 1..][i - idEnd - 1];
  }
}
