/** The parts together: a gateway started on a file that was only ever edited
    through the page, from the file the program itself created. */
module Deployment {
  import opened PointTypes
  import opened Text
  import opened PointsCsv
  import FileHeader
  import ConfigStore
  import Startup
  import Commands
  import OutstationDatabase
  import Publishing
  import Collisions
  import Gateway
  import Modbus
  import PointState
  import RegisterCodec

  /** The file after these page requests. */
  function Edited(header: Header, requests: seq<ConfigStore.Request>): string {
    ConfigStore.Run(header, Save(header, []), requests)
  }

  ghost predicate OneLineRequests(requests: seq<ConfigStore.Request>) {
    forall r :: r in requests ==> ConfigStore.OneLine(r)
  }

  /** The points a start on the edited file runs with. */
  function RunningPoints(header: Header, requests: seq<ConfigStore.Request>, opens: bool): seq<ReadPoint> {
    Startup.Start(header, Startup.File(Edited(header, requests)), opens).0
  }

  /** They are what the requests ask for on a plain list (nothing when only old
      examples are left), and no two of them share a DNP3 key. */
  lemma EditedPoints(header: Header, requests: seq<ConfigStore.Request>, opens: bool)
    requires OneLineRequests(requests)
    ensures RunningPoints(header, requests, opens) ==
            if Startup.OnlyLegacy(Edited(header, requests)) then [] else ConfigStore.RunList([], requests)
    ensures DistinctKeys(RunningPoints(header, requests, opens))
  {
    ConfigStore.RunFromCreated(header, requests);
    hide ConfigStore.Run, ConfigStore.RunList, Startup.OnlyLegacy, Load, Save;
  }

  // ------------------------------------------------------------- when the database gets built

  /** The filling loops of a kind end when the counter can pass the largest index. */
  ghost predicate KindEnds(points: seq<ReadPoint>, binary: bool) {
    OutstationDatabase.Uses(points, binary) ==>
      exists n: nat :: OutstationDatabase.Counter(n) > OutstationDatabase.MaxIndex(points, binary)
  }

  ghost predicate BuilderEnds(points: seq<ReadPoint>) {
    KindEnds(points, false) && KindEnds(points, true)
  }

  lemma KindEndsExactly(points: seq<ReadPoint>, binary: bool)
    ensures KindEnds(points, binary)
       <==> forall p :: p in points && IsDiscrete(p.kind) == binary ==> p.dnp3Index < 0xFFFF
  {
    OutstationDatabase.FillLoopEndsExactly(OutstationDatabase.MaxIndex(points, binary));
    hide IsDiscrete, OutstationDatabase.Counter;
  }

  /** The builder ends if and only if every point's index is below 65535. */
  lemma BuilderEndsExactly(points: seq<ReadPoint>)
    ensures BuilderEnds(points) <==> forall p :: p in points ==> p.dnp3Index < 0xFFFF
  {
    KindEndsExactly(points, false);
    KindEndsExactly(points, true);
    hide KindEnds;
  }

  /** On the points of a start, after any requests at all, the builder ends if and only
      if the file holds only old examples or every index in it is below 65535. */
  lemma StartBuilderEndsExactly(header: Header, requests: seq<ConfigStore.Request>, opens: bool)
    ensures BuilderEnds(RunningPoints(header, requests, opens))
       <==> || Startup.OnlyLegacy(Edited(header, requests))
            || forall p :: p in Load(Edited(header, requests)) ==> p.dnp3Index < 0xFFFF
  {
    BuilderEndsExactly(RunningPoints(header, requests, opens));
    hide BuilderEnds, Startup.OnlyLegacy, Load, Edited, Save;
  }

  /** Whatever a poll of a configured point writes is in the database the builder lays out. */
  lemma PollsFitTheDatabase(
    points: seq<ReadPoint>, p: ReadPoint, f: RegisterCodec.Float32, net: Modbus.Network, s: PointState.State,
    link: Modbus.Link, now: int)
    requires p in points
    ensures var written, layout := Gateway.AfterPolling(map[], f, net, p, s, link, now), OutstationDatabase.DatabaseOf(points);
            written != map[] && forall k :: k in written ==> if k.binary then k.index in layout.binaryInput
                                                               else k.index in layout.analogInput
  {
    hide Gateway.Polled, OutstationDatabase.DatabaseOf;
    assert KeyOf(p) in Gateway.AfterPolling(map[], f, net, p, s, link, now);
    OutstationDatabase.EveryPointHasItsEntry(points, p);
  }

  // ------------------------------------------------------------- the whole gateway

  /** Whatever one-line requests made the file: the database builder of the next start
      ends exactly when only old examples are left or every index asked for is below
      65535; every database entry follows its own point under every interleaving, the
      layout does not depend on the order of the points, and a command at a point's
      index addresses that point. */
  lemma EditedGatewayWorks(header: Header, requests: seq<ConfigStore.Request>, opens: bool)
    requires OneLineRequests(requests)
    ensures var points := RunningPoints(header, requests, opens);
            && (BuilderEnds(points) <==>
                  || Startup.OnlyLegacy(Edited(header, requests))
                  || forall p :: p in ConfigStore.RunList([], requests) ==> p.dnp3Index < 0xFFFF)
            && Publishing.NonInterference(points)
            && (forall others :: multiset(others) == multiset(points) ==>
                  OutstationDatabase.DatabaseOf(others) == OutstationDatabase.DatabaseOf(points))
            && (forall k, target :: 0 <= k < |points| && Commands.Takes(points[k], target) ==>
                  Commands.Find(Commands.Mappings(points, target), points[k].dnp3Index, target)
                  == Some(Commands.CommandOf(points[k], target)))
  {
    var points := RunningPoints(header, requests, opens);
    EditedPoints(header, requests, opens);
    hide RunningPoints, Commands.Takes, Commands.Find, Commands.Mappings, Commands.CommandOf, ConfigStore.RunList;
    hide OutstationDatabase.DatabaseOf, OutstationDatabase.Consistent, Publishing.NonInterference, BuilderEnds;
    hide Startup.OnlyLegacy, Edited;
    BuilderEndsExactly(points);
    Collisions.NonInterferenceExactly(points);
    OutstationDatabase.DistinctIsConsistent(points);
    OutstationDatabase.OrderIrrelevantExactly(points);
    forall k, target | 0 <= k < |points| && Commands.Takes(points[k], target)
      ensures Commands.Find(Commands.Mappings(points, target), points[k].dnp3Index, target)
              == Some(Commands.CommandOf(points[k], target))
    {
      Commands.CommandReachesPublisher(points, k, target);
    }
  }

  // ------------------------------------------------------------- the index that hangs the builder

  /** The line of a point with its index field written as this text. */
  function LineWithIndex(p: ReadPoint, index: string): string {
    Join(PrintedFields(p)[..7] + [index])
  }

  lemma JoinedShape(fields: seq<string>)
    requires |fields| > 1 && Trimmed(fields[0]) && (fields[0] == "" || fields[0][0] != '#')
    requires fields[|fields| - 1] != "" && Trimmed(fields[|fields| - 1])
    ensures Trimmed(Join(fields)) && Join(fields) != "" && Join(fields)[0] != '#'
  {
    JoinEnd(fields);
    assert Join(fields)[0] == if fields[0] == "" then ';' else fields[0][0];
  }

  /** A joined list of clean fields is parsed as those fields. */
  lemma JoinedParses(fields: seq<string>)
    requires |fields| > 1 && (forall f :: f in fields ==> CleanField(f))
    requires (fields[0] == "" || fields[0][0] != '#') && fields[|fields| - 1] != ""
    ensures '\n' !in Join(fields) && ParseLine(Join(fields)) == ParseFields(fields)
  {
    assert fields[0] in fields && fields[|fields| - 1] in fields;
    JoinedShape(fields);
    hide Join, Items, ParseFields;
    JoinOneLine(fields);
    SplitOfJoin(fields);
    TrimAllTrimmed(fields);
  }

  lemma IndexFields(p: ReadPoint, index: string)
    requires Canonical(p) && CleanField(index) && Stoi(index).Some?
    ensures var fields := PrintedFields(p)[..7] + [index];
            && fields[0] == p.description && (forall f :: f in fields ==> CleanField(f))
            && ParseFields(fields) == Parsed(p.(dnp3Index := ToUInt16(Stoi(index).value)))
  {
    var printed := PrintedFields(p);
    var fields := printed[..7] + [index];
    hide PrintInt, RegisterKindName, DataTypeName, ParseKind, Stoi;
    assert printed[0] == p.description;
    PrintedFieldsClean(p);
    ParseFieldsOfPrinted(p);
    hide PrintedFields, CleanField;
    assert |printed| == 8 && forall i :: 0 <= i < 7 ==> fields[i] == printed[i];
    assert forall f :: f in fields ==> f in printed || f == index;
  }

  lemma LineWithIndexParses(p: ReadPoint, index: string)
    requires Canonical(p) && CleanField(index) && index != "" && Stoi(index).Some?
    ensures '\n' !in LineWithIndex(p, index)
    ensures ParseLine(LineWithIndex(p, index)) == Parsed(p.(dnp3Index := ToUInt16(Stoi(index).value)))
  {
    var fields := PrintedFields(p)[..7] + [index];
    hide PrintedFields, Stoi, ParseFields, ParseLine, Join, CleanField;
    IndexFields(p, index);
    JoinedParses(fields);
  }

  /** After one accepted line, the next start runs with its point, or with none when the
      line is an old example's. */
  lemma OneRunning(header: Header, line: string, stored: ReadPoint, opens: bool)
    requires Startup.NoContent(header) && '\n' !in line && ParseLine(line) == Parsed(stored)
    ensures RunningPoints(header, [ConfigStore.Add(line, true)], opens) ==
            if Startup.IsLegacyLine(TrimCopy(line)) then [] else [stored]
  {
    var requests := [ConfigStore.Add(line, true)];
    assert Startup.IsContent(line);
    hide ParseLine, Load, Edited, RunningPoints, Startup.OnlyLegacy, Startup.IsLegacyLine, TrimCopy,
      ConfigStore.RunList, Startup.NoContent, Startup.IsContent;
    OneAdded(header, line, stored);
    EditedPoints(header, requests, opens);
    AddToNone(line, stored);
    Startup.OneLineLegacyExactly(header, line);
  }

  /** One accepted point at the top index: unless its line is an old example's, the next
      start runs with it and its builder never ends. */
  lemma TopIndexHangsBuilder(header: Header, line: string, stored: ReadPoint, opens: bool)
    requires Startup.NoContent(header) && '\n' !in line
    requires ParseLine(line) == Parsed(stored) && stored.dnp3Index == 0xFFFF
    ensures var points := RunningPoints(header, [ConfigStore.Add(line, true)], opens);
            var legacy := Startup.IsLegacyLine(TrimCopy(line));
            points == (if legacy then [] else [stored]) && (BuilderEnds(points) <==> legacy)
  {
    hide ParseLine, RunningPoints, BuilderEnds, Startup.IsLegacyLine, TrimCopy, Startup.NoContent;
    OneRunning(header, line, stored, opens);
    BuilderEndsExactly(RunningPoints(header, [ConfigStore.Add(line, true)], opens));
    assert stored in [stored];
  }

  lemma OneAdded(header: Header, line: string, p: ReadPoint)
    requires ParseLine(line) == Parsed(p)
    ensures Edited(header, [ConfigStore.Add(line, true)]) == header + Line(line)
  {
    hide ParseLine, Load;
    LoadOfSave(header, []);
    var requests := [ConfigStore.Add(line, true)];
    assert requests[1..] == [] && Save(header, []) == header;
    assert ConfigStore.AddVerdict([], line, true) == ConfigStore.Added;
    var after := ConfigStore.Apply(header, header, requests[0]);
    assert after == header + Line(line);
    assert Edited(header, requests) == ConfigStore.Run(header, after, []);
  }

  lemma CommentAdded(front: string, line: string)
    requires Startup.NoContent(front) && Terminated(front, '\n') && FileHeader.IsComment(line)
    ensures Startup.NoContent(front + Line(line)) && Terminated(front + Line(line), '\n')
  {
    assert !Startup.IsContent(line);
    hide Startup.IsContent, Items, Line;
    Startup.ItemAdded(front, line);
  }

  lemma CommentsHaveNoContent(a: string, b: string, c: string)
    requires FileHeader.IsComment(a) && FileHeader.IsComment(b) && FileHeader.IsComment(c)
    ensures Startup.NoContent(Line(a) + Line(b) + Line(c))
  {
    assert Startup.NoContent("");
    hide Startup.NoContent, Line, FileHeader.IsComment;
    CommentAdded("", a);
    assert "" + Line(a) == Line(a);
    CommentAdded(Line(a), b);
    CommentAdded(Line(a) + Line(b), c);
  }

  /** The lines the program writes first are comments. */
  lemma ProgramHeaderHasNoContent()
    ensures Startup.NoContent(FileHeader.HEADER)
  {
    hide FileHeader.HEADER_1, FileHeader.HEADER_2, FileHeader.HEADER_3, Startup.NoContent, FileHeader.IsComment, Line;
    FileHeader.Header1IsComment();
    FileHeader.Header2IsComment();
    FileHeader.Header3IsComment();
    CommentsHaveNoContent(FileHeader.HEADER_1, FileHeader.HEADER_2, FileHeader.HEADER_3);
  }

  /** The page accepts an index of -1, which every load reads as 65535: the next start
      never finishes, except for a point with an old example's name, which it drops. */
  lemma MinusOneHangsBuilder(p: ReadPoint, opens: bool)
    requires Canonical(p)
    ensures var points := RunningPoints(FileHeader.HEADER, [ConfigStore.Add(LineWithIndex(p, "-1"), true)], opens);
            var legacy := Startup.IsLegacyName(p.description);
            points == (if legacy then [] else [p.(dnp3Index := 0xFFFF)]) && (BuilderEnds(points) <==> legacy)
  {
    hide *;
    MinusOneParses(p);
    MinusOne();
    LineWithIndexIsLegacy(p, "-1");
    ProgramHeaderHasNoContent();
    TopIndexHangsBuilder(FileHeader.HEADER, LineWithIndex(p, "-1"), p.(dnp3Index := 0xFFFF), opens);
  }

  lemma LineWithIndexIsLegacy(p: ReadPoint, index: string)
    requires Canonical(p) && Trimmed(index) && index != ""
    ensures Startup.IsLegacyLine(TrimCopy(LineWithIndex(p, index))) <==> Startup.IsLegacyName(p.description)
  {
    var fields := PrintedFields(p)[..7] + [index];
    assert fields[0] == p.description;
    JoinedShape(fields);
    assert LineWithIndex(p, index) == p.description + ";" + Join(fields[1..]);
    Startup.LegacyLineExactly(p.description, Join(fields[1..]));
  }

  lemma MinusOneParses(p: ReadPoint)
    requires Canonical(p)
    ensures '\n' !in LineWithIndex(p, "-1")
    ensures ParseLine(LineWithIndex(p, "-1")) == Parsed(p.(dnp3Index := 0xFFFF))
  {
    hide LineWithIndex, ParseLine, Stoi, Canonical, CleanField;
    MinusOne();
    LineWithIndexParses(p, "-1");
  }

  lemma AddToNone(line: string, p: ReadPoint)
    requires ParseLine(line) == Parsed(p)
    ensures ConfigStore.RunList([], [ConfigStore.Add(line, true)]) == [p]
  {
    hide ParseLine;
    var requests := [ConfigStore.Add(line, true)];
    assert requests[1..] == [] && ConfigStore.ApplyList([], requests[0]) == [p];
  }

  lemma MinusOne()
    ensures CleanField("-1") && Trimmed("-1") && Stoi("-1") == Some(-1)
  {
  }
}
