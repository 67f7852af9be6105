/** What a start does to the points file and which points it runs with (Config.cpp). */
module Startup {
  import opened PointTypes
  import opened Text
  import opened PointsCsv
  import opened ConfigStore

  datatype Disk = Missing | File(text: string)

  /** The names of the two old example points. */
  const LEGACY_INT := "Exemplo inteiro HR0"
  const LEGACY_FLOAT := "Exemplo float32 HR10_HR11"

  predicate IsLegacyLine(clean: string) {
    LEGACY_INT + ";" <= clean || LEGACY_FLOAT + ";" <= clean
  }

  predicate IsContent(line: string) {
    var clean := TrimCopy(line);
    clean != "" && clean[0] != '#'
  }

  /** Nothing but the old example lines, and at least one of them. */
  predicate OnlyLegacy(text: string) {
    var lines := Items(text, '\n');
    && (exists l :: l in lines && IsContent(l))
    && (forall l :: l in lines && IsContent(l) ==> IsLegacyLine(TrimCopy(l)))
  }

  predicate NeedsReset(disk: Disk) {
    disk.Missing? || OnlyLegacy(disk.text)
  }

  /** The points a start runs with and the file it leaves; `opens` says whether
      the file could be opened for writing. */
  function Start(header: Header, disk: Disk, opens: bool): (seq<ReadPoint>, Disk) {
    if NeedsReset(disk) then ([], if opens then File(Save(header, [])) else disk)
    else (Load(disk.text), disk)
  }

  /** What the page lists. */
  function Listed(disk: Disk): seq<ReadPoint> {
    if disk.Missing? then [] else Load(disk.text)
  }

  /** Index of the first running point the page takes for the listed one, or the length. */
  function RuntimeIndex(running: seq<ReadPoint>, p: ReadPoint): (i: nat)
    ensures i <= |running|
    ensures i < |running| ==> SamePoint(p, running[i])
    ensures forall k :: 0 <= k < i ==> !SamePoint(p, running[k])
  {
    if running == [] || SamePoint(p, running[0]) then 0 else 1 + RuntimeIndex(running[1..], p)
  }

  predicate Resolves(running: seq<ReadPoint>, p: ReadPoint) {
    var i := RuntimeIndex(running, p);
    i < |running| && running[i] == p
  }

  /** Starting again with no edit in between runs with the same points. It leaves the
      file alone unless the first start had to write the file and could not, and the
      second could and the file was not just the header. */
  lemma StartTwice(header: Header, disk: Disk, opens: bool, opensAgain: bool)
    ensures var (points, after) := Start(header, disk, opens);
            var (pointsAgain, afterAgain) := Start(header, after, opensAgain);
            && pointsAgain == points
            && (afterAgain == after <==> !NeedsReset(disk) || opens || !opensAgain || disk == File(header))
  {
    hide Load, OnlyLegacy;
    LoadOfSave(header, []);
    assert Save(header, []) == header;
  }

  /** A missing file that cannot be created at first is created by the second start. */
  lemma SecondStartCreates(header: Header)
    ensures Start(header, Start(header, Missing, false).1, true).1 == File(header) != Start(header, Missing, false).1
  {
    assert Save(header, []) == header;
  }

  lemma SameCanonicalIsEqual(a: ReadPoint, b: ReadPoint)
    requires Canonical(a) && Canonical(b)
    ensures SamePoint(a, b) <==> a == b
  {
  }

  /** Old examples that could not be cleared and that the loader can read. */
  predicate StaleExamples(disk: Disk, opens: bool) {
    disk.File? && OnlyLegacy(disk.text) && !opens && Load(disk.text) != []
  }

  /** After a start, every point the page lists is running unchanged, except when
      stale examples stay in the file. */
  lemma ListedResolveExactly(header: Header, disk: Disk, opens: bool)
    ensures var (points, after) := Start(header, disk, opens);
            (forall p :: p in Listed(after) ==> Resolves(points, p)) <==> !StaleExamples(disk, opens)
  {
    hide Load, OnlyLegacy;
    var (points, after) := Start(header, disk, opens);
    if StaleExamples(disk, opens) {
      assert Load(disk.text)[0] in Listed(after) && !Resolves([], Load(disk.text)[0]);
    } else {
      LoadOfSave(header, []);
      assert Listed(after) == points;
      if disk.File? {
        LoadedIsCanonical(disk.text);
      }
      forall p | p in points
        ensures Resolves(points, p)
      {
        var k :| 0 <= k < |points| && points[k] == p;
        SameCanonicalIsEqual(p, points[k]);
        SameCanonicalIsEqual(p, points[RuntimeIndex(points, p)]);
      }
    }
  }

  lemma NameOfPrefix(name: string, description: string, rest: string)
    requires ';' !in name && ';' !in description
    ensures name + ";" <= description + ";" + rest <==> name == description
  {
    var line := description + ";" + rest;
    assert line[..|description|] == description;
    UntilIs(line, ';', |description|);
    if name + ";" <= line {
      assert line[..|name|] == name && line[|name|] == (name + ";")[|name|];
      UntilIs(line, ';', |name|);
    }
  }

  predicate IsLegacyName(description: string) {
    description == LEGACY_INT || description == LEGACY_FLOAT
  }

  lemma LegacyNames()
    ensures ';' !in LEGACY_INT && ';' !in LEGACY_FLOAT
  {
  }

  /** A line is an old example's exactly when its first field is one of the two names. */
  lemma LegacyLineExactly(description: string, rest: string)
    requires ';' !in description
    ensures IsLegacyLine(description + ";" + rest) <==> IsLegacyName(description)
  {
    LegacyNames();
    hide LEGACY_INT, LEGACY_FLOAT;
    NameOfPrefix(LEGACY_INT, description, rest);
    NameOfPrefix(LEGACY_FLOAT, description, rest);
  }

  ghost predicate NoContent(text: string) {
    forall l :: l in Items(text, '\n') ==> !IsContent(l)
  }

  lemma ItemAdded(front: string, line: string)
    requires Terminated(front, '\n') && '\n' !in line
    ensures Terminated(front + Line(line), '\n')
    ensures Items(front + Line(line), '\n') == Items(front, '\n') + [line]
  {
    hide Items;
    ItemsAppend(front, '\n', Line(line));
    assert Line(line) == line + ['\n'] + "";
    ItemsStep(line, '\n', "");
    ItemsOfEmpty('\n');
  }

  /** Behind lines without content, one line decides whether only old examples are left. */
  lemma OneLineLegacyExactly(front: string, line: string)
    requires Terminated(front, '\n') && NoContent(front) && '\n' !in line && IsContent(line)
    ensures OnlyLegacy(front + Line(line)) <==> IsLegacyLine(TrimCopy(line))
  {
    hide IsContent, IsLegacyLine, Terminated, TrimCopy;
    ItemAdded(front, line);
    var before, all := Items(front, '\n'), Items(front + Line(line), '\n');
    hide Items;
    assert all == before + [line];
    assert line in all && forall l :: l in all <==> l in before || l == line;
  }

  lemma OldExampleText(p: ReadPoint)
    requires Canonical(p) && IsLegacyName(p.description)
    ensures OnlyLegacy(Line(PrintLine(p))) && Load(Line(PrintLine(p))) == [p]
  {
    var line := PrintLine(p);
    PrintedLineIsLegacy(p);
    ParseOfPrint(p);
    hide PrintLine, ParseLine, Canonical, IsLegacyName, IsLegacyLine, Load, OnlyLegacy, IsContent;
    LoadLine(line);
    assert NoContent("");
    OneLineLegacyExactly("", line);
    assert "" + Line(line) == Line(line);
  }

  /** What the file holds besides blank lines and comments. */
  function ContentLines(lines: seq<string>): seq<string> {
    if lines == [] then []
    else (if IsContent(lines[0]) then [lines[0]] else []) + ContentLines(lines[1..])
  }

  lemma {:induction false} ContentMembers(lines: seq<string>)
    ensures forall l :: l in ContentLines(lines) <==> l in lines && IsContent(l)
  {
    hide IsContent;
    if lines != [] {
      ContentMembers(lines[1..]);
      assert forall l :: l in lines <==> l == lines[0] || l in lines[1..];
    }
  }

  /** The first field of a line, when there is a separator behind it. */
  predicate NamesOldExample(line: string) {
    var clean := TrimCopy(line);
    ';' in clean && IsLegacyName(Item(clean, ';'))
  }

  lemma NamesOldExampleExactly(line: string)
    ensures IsLegacyLine(TrimCopy(line)) <==> NamesOldExample(line)
  {
    var clean := TrimCopy(line);
    hide TrimCopy;
    if ';' in clean {
      var name, rest := Item(clean, ';'), Rest(clean, ';');
      assert clean == name + ";" + rest && ';' !in name;
      hide Item, Rest, Until, IsLegacyLine, IsLegacyName;
      LegacyLineExactly(name, rest);
    } else {
      NoSeparatorNoExample(clean);
    }
  }

  lemma PrefixHasSeparator(name: string, clean: string)
    ensures name + ";" <= clean ==> ';' in clean
  {
    assert (name + ";")[|name|] == ';';
  }

  lemma NoSeparatorNoExample(clean: string)
    requires ';' !in clean
    ensures !IsLegacyLine(clean)
  {
    hide LEGACY_INT, LEGACY_FLOAT;
    PrefixHasSeparator(LEGACY_INT, clean);
    PrefixHasSeparator(LEGACY_FLOAT, clean);
  }

  /** Only old examples are left exactly when there are content lines and each of them,
      whatever their number, names an old example in its first field. */
  lemma OnlyLegacyExactly(text: string)
    ensures var content := ContentLines(Items(text, '\n'));
            OnlyLegacy(text) <==> content != [] && forall i :: 0 <= i < |content| ==> NamesOldExample(content[i])
  {
    var lines := Items(text, '\n');
    var content := ContentLines(lines);
    ContentMembers(lines);
    assert content != [] ==> content[0] in content;
    forall l | l in content
      ensures IsLegacyLine(TrimCopy(l)) <==> NamesOldExample(l)
    {
      NamesOldExampleExactly(l);
    }
    hide NamesOldExample, IsLegacyLine, TrimCopy, IsContent, Items, ContentLines;
    assert forall i :: 0 <= i < |content| ==> content[i] in content;
  }

  /** A start: a missing file is created with the header alone, a file with only old
      examples is brought back to it, and any other file is loaded and left alone. */
  lemma StartExactly(header: Header, text: string, opens: bool)
    ensures Start(header, Missing, opens) == ([], if opens then File(header) else Missing)
    ensures var content := ContentLines(Items(text, '\n'));
            var reset := content != [] && forall i :: 0 <= i < |content| ==> NamesOldExample(content[i]);
            Start(header, File(text), opens) ==
            if reset then ([], File(if opens then header else text)) else (Load(text), File(text))
  {
    OnlyLegacyExactly(text);
    assert Save(header, []) == header;
    hide OnlyLegacy, Load, NamesOldExample, ContentLines, Items;
  }

  lemma {:induction false} LineOfPoint(lines: seq<string>, p: ReadPoint) returns (line: string)
    requires p in Collect(lines)
    ensures line in lines && ParseLine(line) == Parsed(p)
  {
    hide ParseLine;
    if ParseLine(lines[0]) == Parsed(p) {
      line := lines[0];
    } else {
      line := LineOfPoint(lines[1..], p);
    }
  }

  lemma ParsedName(line: string)
    requires ParseLine(line).Parsed?
    ensures IsContent(line) && (NamesOldExample(line) ==> IsLegacyName(ParseLine(line).point.description))
  {
    var clean := TrimCopy(line);
    ParsedFieldsShape(Fields(clean));
    LegacyNamesAreTrimmed();
    hide ParseFields, LEGACY_INT, LEGACY_FLOAT;
    assert Items(clean, ';')[0] == Item(clean, ';') && Fields(clean)[0] == TrimCopy(Item(clean, ';'));
  }

  lemma LegacyNamesAreTrimmed()
    ensures Trimmed(LEGACY_INT) && Trimmed(LEGACY_FLOAT)
  {
  }

  /** One point with another name is enough for a start to keep the whole file and run
      with everything in it. */
  lemma OrdinaryPointKeepsFile(header: Header, text: string, p: ReadPoint, opens: bool)
    requires p in Load(text) && !IsLegacyName(p.description)
    ensures Start(header, File(text), opens) == (Load(text), File(text))
  {
    var line := LineOfPoint(Items(text, '\n'), p);
    ParsedName(line);
    NamesOldExampleExactly(line);
    hide Load, IsLegacyLine, NamesOldExample, IsContent, ParseLine, IsLegacyName, TrimCopy, Items;
  }

  /** An old example point, alone in a file that cannot be written: the page lists the
      point and nothing runs. */
  lemma OldExampleStays(header: Header, p: ReadPoint)
    requires Canonical(p) && IsLegacyName(p.description)
    ensures var disk := File(Line(PrintLine(p)));
            && StaleExamples(disk, false) && Start(header, disk, false) == ([], disk)
            && Listed(disk) == [p] && !Resolves([], p)
  {
    OldExampleText(p);
    hide Load, OnlyLegacy, Line, PrintLine, Save;
  }

  lemma PrintedLineIsLegacy(p: ReadPoint)
    requires Canonical(p)
    ensures IsContent(PrintLine(p)) && TrimCopy(PrintLine(p)) == PrintLine(p)
    ensures IsLegacyLine(PrintLine(p)) <==> IsLegacyName(p.description)
  {
    var fields := PrintedFields(p);
    PrintedLineShape(p);
    assert PrintLine(p) == p.description + ";" + Join(fields[1..]);
    LegacyLineExactly(p.description, Join(fields[1..]));
    hide PrintLine, IsLegacyLine, IsLegacyName;
  }

  /** Such a point exists. */
  const OLD_EXAMPLE := ReadPoint("Exemplo inteiro HR0", "1.1.1.1", 502, 1, HoldingInt16, 0, 1, 0, 0)

  lemma OldExampleIsOne()
    ensures Canonical(OLD_EXAMPLE) && IsLegacyName(OLD_EXAMPLE.description)
  {
    LegacyNames();
  }

  // ---------------------------------------------------------------- the loops

  method FileHasOnlyLegacyExamples(text: string) returns (r: bool)
    ensures r == OnlyLegacy(text)
  {
    hide IsContent, IsLegacyLine;
    var found := false;
    var stream := text;
    ghost var seen: seq<string> := [];
    while stream != ""
      invariant seen + Items(stream, '\n') == Items(text, '\n')
      invariant found == exists l :: l in seen && IsContent(l)
      invariant forall l :: l in seen && IsContent(l) ==> IsLegacyLine(TrimCopy(l))
      decreases |stream|
    {
      var line := Item(stream, '\n');
      assert line in Items(stream, '\n');
      Regroup(seen, line, Items(Rest(stream, '\n'), '\n'));
      if IsContent(line) {
        if !IsLegacyLine(TrimCopy(line)) {
          return false;
        }
        found := true;
      }
      seen := seen + [line];
      stream := Rest(stream, '\n');
    }
    assert seen == Items(text, '\n');
    r := found;
  }

  method BuildConfigFileProfile(header: Header, disk: Disk, opens: bool)
    returns (points: seq<ReadPoint>, after: Disk)
    ensures (points, after) == Start(header, disk, opens)
  {
    hide Load, OnlyLegacy;
    points, after := [], disk;
    var reset := disk.Missing?;
    if !reset {
      reset := FileHasOnlyLegacyExamples(disk.text);
    }
    if reset {
      if opens {
        var text := SaveReadPoints(header, []);
        after := File(text);
      }
    } else {
      points := LoadConfiguredPoints(disk.text);
    }
  }

  method FindRuntimePointIndex(running: seq<ReadPoint>, p: ReadPoint) returns (index: int)
    ensures index == if RuntimeIndex(running, p) < |running| then RuntimeIndex(running, p) else -1
  {
    for i := 0 to |running|
      invariant RuntimeIndex(running, p) == i + RuntimeIndex(running[i..], p)
    {
      if SamePoint(p, running[i]) {
        return i;
      }
    }
    index := -1;
  }
}
