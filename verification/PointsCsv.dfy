/** The points file: one semicolon-separated line per point, `#` comments, blank
    lines ignored (Config.cpp). `ParseLine`/`Load` and `PrintLine`/`Save` are the
    specifications of the reader and the writer; the methods are their loops. */
module PointsCsv {
  import opened PointTypes
  import opened Text

  // -------------------------------------------------------------- type names

  datatype Table = CoilTable | StatusTable | HoldingTable | InputTable
  datatype DataType = BoolData | Int16Data | UInt16Data | Int32Data | UInt32Data | Float32Data

  function ParseTable(reg: string): Option<Table> {
    if reg == "coil" || reg == "coil_status" || reg == "coils" || reg == "0x" then Some(CoilTable)
    else if reg == "input_status" || reg == "discrete_input" || reg == "discrete" || reg == "1x" then Some(StatusTable)
    else if reg == "holding" || reg == "hr" || reg == "4x" || reg == "holding_register" then Some(HoldingTable)
    else if reg == "input" || reg == "ir" || reg == "3x" || reg == "input_register" then Some(InputTable)
    else None
  }

  function ParseData(data: string): Option<DataType> {
    if data == "bool" || data == "boolean" || data == "bit" || data == "0_1" then Some(BoolData)
    else if data == "int16" || data == "short" then Some(Int16Data)
    else if data == "uint16" || data == "word" then Some(UInt16Data)
    else if data == "int32" || data == "long" then Some(Int32Data)
    else if data == "uint32" || data == "dword" then Some(UInt32Data)
    else if data == "float" || data == "float32" || data == "real" then Some(Float32Data)
    else None
  }

  /** The point type of a register table and a data type: bits are boolean,
      registers are not. */
  function KindOf(table: Table, data: DataType): Option<ReadValueType> {
    match table
    case CoilTable => if data.BoolData? then Some(CoilStatusBool) else None
    case StatusTable => if data.BoolData? then Some(InputStatusBool) else None
    case _ =>
      var holding := table.HoldingTable?;
      match data
      case BoolData => None
      case Int16Data => Some(if holding then HoldingInt16 else InputInt16)
      case UInt16Data => Some(if holding then HoldingUInt16 else InputUInt16)
      case Int32Data => Some(if holding then HoldingInt32 else InputInt32)
      case UInt32Data => Some(if holding then HoldingUInt32 else InputUInt32)
      case Float32Data => Some(if holding then HoldingFloat32 else InputFloat32)
  }

  function ParseKind(registerKind: string, dataType: string): Option<ReadValueType> {
    match (ParseTable(NormalizeToken(registerKind)), ParseData(NormalizeToken(dataType)))
    case (Some(table), Some(data)) => KindOf(table, data)
    case _ => None
  }

  function TableOf(t: ReadValueType): Table {
    if t.CoilStatusBool? then CoilTable
    else if t.InputStatusBool? then StatusTable
    else if IsHolding(t) then HoldingTable
    else InputTable
  }

  function DataOf(t: ReadValueType): DataType {
    match t
    case CoilStatusBool | InputStatusBool => BoolData
    case HoldingInt16 | InputInt16 => Int16Data
    case HoldingUInt16 | InputUInt16 => UInt16Data
    case HoldingInt32 | InputInt32 => Int32Data
    case HoldingUInt32 | InputUInt32 => UInt32Data
    case HoldingFloat32 | InputFloat32 => Float32Data
  }

  function TableName(table: Table): string {
    match table
    case CoilTable => "coil_status"
    case StatusTable => "input_status"
    case HoldingTable => "holding"
    case InputTable => "input_register"
  }

  function DataName(data: DataType): string {
    match data
    case BoolData => "bool"
    case Int16Data => "int16"
    case UInt16Data => "uint16"
    case Int32Data => "int32"
    case UInt32Data => "uint32"
    case Float32Data => "float32"
  }

  function RegisterKindName(t: ReadValueType): string {
    TableName(TableOf(t))
  }

  function DataTypeName(t: ReadValueType): string {
    DataName(DataOf(t))
  }

  /** What a field may look like once it is in the file. */
  predicate CleanField(s: string) {
    Trimmed(s) && ';' !in s && '\n' !in s
  }

  lemma TableNameIsToken(table: Table)
    ensures LowerToken(TableName(table)) && CleanField(TableName(table))
  {
  }

  lemma DataNameIsToken(data: DataType)
    ensures LowerToken(DataName(data)) && CleanField(DataName(data))
  {
  }

  lemma TableNameRoundTrip(table: Table)
    ensures ParseTable(TableName(table)) == Some(table)
  {
    assert "input_register"[0] == 'i' && "discrete_input"[0] == 'd';
  }

  lemma DataNameRoundTrip(data: DataType)
    ensures ParseData(DataName(data)) == Some(data)
  {
    assert "int32"[3] == '3' && "int16"[3] == '1' && "short"[3] == 'r';
    assert "uint32"[4] == '3' && "uint16"[4] == '1';
    assert "float32"[0] == 'f' && "boolean"[0] == 'b';
  }

  lemma NamesNormalize(t: ReadValueType)
    ensures NormalizeToken(RegisterKindName(t)) == RegisterKindName(t)
    ensures NormalizeToken(DataTypeName(t)) == DataTypeName(t)
  {
    TableNameIsToken(TableOf(t));
    DataNameIsToken(DataOf(t));
    hide TableName, DataName, TableOf, DataOf, NormalizeToken;
    NormalizeFixed(RegisterKindName(t));
    NormalizeFixed(DataTypeName(t));
  }

  lemma NamesParse(t: ReadValueType)
    ensures ParseTable(RegisterKindName(t)) == Some(TableOf(t)) && ParseData(DataTypeName(t)) == Some(DataOf(t))
  {
    hide TableName, DataName, TableOf, DataOf, ParseTable, ParseData;
    TableNameRoundTrip(TableOf(t));
    DataNameRoundTrip(DataOf(t));
  }

  /** Printed type names are read back as the same type. */
  lemma KindRoundTrip(t: ReadValueType)
    ensures ParseKind(RegisterKindName(t), DataTypeName(t)) == Some(t)
  {
    hide RegisterKindName, DataTypeName, NormalizeToken, ParseTable, ParseData;
    NamesNormalize(t);
    NamesParse(t);
  }

  /** A register table and a data type are one point type exactly when that type is of
      this table and this data type; bits are boolean only, registers never. */
  lemma KindExactly(table: Table, data: DataType, t: ReadValueType)
    ensures KindOf(table, data) == Some(t) <==> TableOf(t) == table && DataOf(t) == data
    ensures KindOf(table, data) == None <==> (data.BoolData? <==> table.HoldingTable? || table.InputTable?)
  {
  }

  /** The other names the file may use for the same tables. */
  lemma BitTableAliases()
    ensures ParseTable("coil") == ParseTable("coils") == ParseTable("0x") == ParseTable("coil_status")
    ensures ParseTable("discrete_input") == ParseTable("discrete") == ParseTable("1x") == ParseTable("input_status")
  {
  }

  lemma RegisterTableAliases()
    ensures ParseTable("hr") == ParseTable("4x") == ParseTable("holding_register") == ParseTable("holding")
    ensures ParseTable("input") == ParseTable("ir") == ParseTable("3x") == ParseTable("input_register")
  {
  }

  /** The other names the file may use for the same data types. */
  lemma NarrowDataAliases()
    ensures ParseData("boolean") == ParseData("bit") == ParseData("0_1") == ParseData("bool")
    ensures ParseData("short") == ParseData("int16") && ParseData("word") == ParseData("uint16")
  {
  }

  lemma WideDataAliases()
    ensures ParseData("long") == ParseData("int32") && ParseData("dword") == ParseData("uint32")
    ensures ParseData("float") == ParseData("real") == ParseData("float32")
  {
  }

  /** Names are read in any case and with any blanks around them. */
  lemma NamesInAnyCase(
    front: string, reg: string, back: string, regToken: string, front2: string, data: string, back2: string, dataToken: string)
    requires AllBlank(front) && AllBlank(back) && AllBlank(front2) && AllBlank(back2)
    requires AnyCase(reg, regToken) && LowerToken(regToken) && AnyCase(data, dataToken) && LowerToken(dataToken)
    ensures ParseKind(front + reg + back, front2 + data + back2) == ParseKind(regToken, dataToken)
  {
    hide ParseTable, ParseData, LowerToken, AnyCase, AllBlank, NormalizeToken;
    NormalizeAnyCase(front, reg, back, regToken);
    NormalizeAnyCase(front2, data, back2, dataToken);
    NormalizeFixed(regToken);
    NormalizeFixed(dataToken);
  }

  // ------------------------------------------------------------ reading lines

  datatype LineError = TooFewFields | UnknownType | BadNumber
  datatype LineResult = Parsed(point: ReadPoint) | Skipped | Refused(error: LineError)

  function TrimAll(items: seq<string>): (r: seq<string>)
    ensures |r| == |items|
    ensures forall i :: 0 <= i < |r| ==> r[i] == TrimCopy(items[i])
  {
    if items == [] then [] else [TrimCopy(items[0])] + TrimAll(items[1..])
  }

  function Fields(line: string): seq<string> {
    TrimAll(Items(line, ';'))
  }

  /** static_cast<uint16_t> of an int. */
  function ToUInt16(v: int): uint16 {
    v % 0x1_0000
  }

  function ParseFields(parts: seq<string>): LineResult {
    if |parts| < 8 then Refused(TooFewFields)
    else
      match ParseKind(parts[4], parts[6])
      case None => Refused(UnknownType)
      case Some(t) =>
        match (Stoi(parts[2]), Stoi(parts[3]), Stoi(parts[5]), Stoi(parts[7]))
        case (Some(port), Some(slave), Some(address), Some(index)) =>
          Parsed(ReadPoint(parts[0], parts[1], port, slave, t, address, RegisterCount(t), ToUInt16(index), 0))
        case _ => Refused(BadNumber)
  }

  function ParseLine(line: string): LineResult {
    var clean := TrimCopy(line);
    if clean == "" || clean[0] == '#' then Skipped else ParseFields(Fields(clean))
  }

  function Collect(lines: seq<string>): seq<ReadPoint> {
    if lines == [] then []
    else
      match ParseLine(lines[0])
      case Parsed(p) => [p] + Collect(lines[1..])
      case _ => Collect(lines[1..])
  }

  function Load(text: string): seq<ReadPoint> {
    Collect(Items(text, '\n'))
  }

  // ------------------------------------------------------------ writing lines

  function Join(fields: seq<string>): string {
    if fields == [] then ""
    else if |fields| == 1 then fields[0]
    else fields[0] + ";" + Join(fields[1..])
  }

  function PrintedFields(p: ReadPoint): seq<string> {
    [p.description, p.ip, PrintInt(p.port), PrintInt(p.slaveId), RegisterKindName(p.kind),
     PrintInt(p.address), DataTypeName(p.kind), PrintInt(p.dnp3Index)]
  }

  function PrintLine(p: ReadPoint): string {
    Join(PrintedFields(p))
  }

  function Line(s: string): string {
    s + "\n"
  }

  function Body(points: seq<ReadPoint>): string {
    if points == [] then "" else Line(PrintLine(points[0])) + Body(points[1..])
  }

  /** The comment lines the writer puts first: text from which no point is read. */
  type Header = h: string | Terminated(h, '\n') && Load(h) == []

  function Save(header: Header, points: seq<ReadPoint>): string {
    header + Body(points)
  }

  // ------------------------------------------------------------- split of join

  lemma {:induction false} SplitOfJoin(fields: seq<string>)
    requires fields != [] && fields[|fields| - 1] != ""
    requires forall f :: f in fields ==> ';' !in f
    ensures Items(Join(fields), ';') == fields
  {
    if |fields| == 1 {
      ItemsLast(fields[0], ';');
    } else {
      SplitOfJoin(fields[1..]);
      ItemsStep(fields[0], ';', Join(fields[1..]));
    }
  }

  lemma {:induction false} JoinEnd(fields: seq<string>)
    requires fields != [] && fields[|fields| - 1] != ""
    ensures var s, last := Join(fields), fields[|fields| - 1];
            s != "" && s[|s| - 1] == last[|last| - 1]
  {
    if |fields| > 1 {
      JoinEnd(fields[1..]);
    }
  }

  lemma {:induction false} JoinOneLine(fields: seq<string>)
    requires forall f :: f in fields ==> '\n' !in f
    ensures '\n' !in Join(fields)
  {
    if |fields| > 1 {
      JoinOneLine(fields[1..]);
    }
  }

  lemma {:induction false} TrimAllTrimmed(items: seq<string>)
    requires forall f :: f in items ==> Trimmed(f)
    ensures TrimAll(items) == items
  {
  }

  lemma FieldsClean(line: string)
    requires '\n' !in line
    ensures forall f :: f in Fields(line) ==> CleanField(f)
  {
    var items := Items(line, ';');
    ItemsFree(line, ';');
    assert forall i :: 0 <= i < |items| ==> items[i] in items;
  }

  /** Only a comment line can have a first field that starts with '#'. */
  lemma FirstField(line: string)
    requires Trimmed(line) && line != "" && line[0] != '#'
    ensures Fields(line) != [] && (Fields(line)[0] == "" || Fields(line)[0][0] != '#')
  {
  }

  // ------------------------------------- which points the file can hold, exactly

  /** The points a line of the file can mean. */
  predicate Canonical(p: ReadPoint) {
    && CleanField(p.description) && CleanField(p.ip)
    && (p.description == "" || p.description[0] != '#')
    && p.count == RegisterCount(p.kind)
    && p.statusIndex == 0
  }

  lemma IntIsClean(n: int)
    ensures CleanField(PrintInt(n))
  {
    PrintIntClean(n);
  }

  lemma PrintedFieldsClean(p: ReadPoint)
    requires CleanField(p.description) && CleanField(p.ip)
    ensures forall f :: f in PrintedFields(p) ==> CleanField(f)
  {
    hide TableName, DataName, CleanField, PrintInt, TableOf, DataOf;
    IntIsClean(p.port);
    IntIsClean(p.slaveId);
    IntIsClean(p.address);
    IntIsClean(p.dnp3Index);
    TableNameIsToken(TableOf(p.kind));
    DataNameIsToken(DataOf(p.kind));
  }

  lemma ParseFieldsOfPrinted(p: ReadPoint)
    requires p.count == RegisterCount(p.kind) && p.statusIndex == 0
    ensures ParseFields(PrintedFields(p)) == Parsed(p)
  {
    hide ParseKind, Stoi, PrintInt, RegisterKindName, DataTypeName;
    KindRoundTrip(p.kind);
    StoiPrint(p.port);
    StoiPrint(p.slaveId);
    StoiPrint(p.address);
    StoiPrint(p.dnp3Index);
  }

  lemma PrintedLineShape(p: ReadPoint)
    requires CleanField(p.description) && (p.description == "" || p.description[0] != '#')
    ensures Trimmed(PrintLine(p)) && PrintLine(p) != "" && PrintLine(p)[0] != '#'
  {
    var fields, index := PrintedFields(p), PrintInt(p.dnp3Index);
    PrintIntClean(p.dnp3Index);
    hide PrintInt, RegisterKindName, DataTypeName;
    JoinEnd(fields);
    assert PrintLine(p) == p.description + ";" + Join(fields[1..]);
    assert index[|index| - 1] in index;
  }

  lemma FieldsOfPrinted(p: ReadPoint)
    requires CleanField(p.description) && CleanField(p.ip)
    ensures '\n' !in PrintLine(p) && Fields(PrintLine(p)) == PrintedFields(p)
  {
    var fields := PrintedFields(p);
    PrintedFieldsClean(p);
    PrintIntClean(p.dnp3Index);
    assert fields[7] == PrintInt(p.dnp3Index);
    hide PrintInt, RegisterKindName, DataTypeName, PrintedFields;
    assert forall f :: f in fields ==> CleanField(f);
    hide Join;
    SplitOfJoin(fields);
    JoinOneLine(fields);
    TrimAllTrimmed(fields);
  }

  /** A canonical point's line is one line and parses back to the point. */
  lemma ParseOfPrint(p: ReadPoint)
    requires Canonical(p)
    ensures '\n' !in PrintLine(p) && ParseLine(PrintLine(p)) == Parsed(p)
  {
    PrintedLineShape(p);
    FieldsOfPrinted(p);
    ParseFieldsOfPrinted(p);
    hide Fields, PrintLine, ParseFields, PrintedFields;
  }

  lemma ParsedFieldsShape(parts: seq<string>)
    requires ParseFields(parts).Parsed?
    ensures var p := ParseFields(parts).point;
            && |parts| >= 8 && p.description == parts[0] && p.ip == parts[1]
            && p.count == RegisterCount(p.kind) && p.statusIndex == 0
  {
  }

  /** Whatever a line without newline parses to is canonical. */
  lemma ParsedIsCanonical(line: string)
    requires '\n' !in line && ParseLine(line).Parsed?
    ensures Canonical(ParseLine(line).point)
  {
    var clean := TrimCopy(line);
    hide TrimCopy, Trimmed;
    var parts := Fields(clean);
    ParsedFieldsShape(parts);
    FieldsClean(clean);
    FirstField(clean);
    hide Fields, ParseFields;
    assert parts[0] in parts && parts[1] in parts;
  }

  lemma {:induction false} CollectedIsCanonical(lines: seq<string>)
    requires forall l :: l in lines ==> '\n' !in l
    ensures forall p :: p in Collect(lines) ==> Canonical(p)
  {
    if lines != [] {
      assert lines[0] in lines;
      if ParseLine(lines[0]).Parsed? {
        ParsedIsCanonical(lines[0]);
      }
      CollectedIsCanonical(lines[1..]);
    }
  }

  lemma LoadedIsCanonical(text: string)
    ensures forall p :: p in Load(text) ==> Canonical(p)
  {
    ItemsFree(text, '\n');
    CollectedIsCanonical(Items(text, '\n'));
  }

  // ------------------------------------------------------------- load of save

  lemma {:induction false} CollectAppend(a: seq<string>, b: seq<string>)
    ensures Collect(a + b) == Collect(a) + Collect(b)
  {
    hide ParseLine;
    if a == [] {
      assert a + b == b;
    } else {
      assert (a + b)[0] == a[0] && (a + b)[1..] == a[1..] + b;
      CollectAppend(a[1..], b);
    }
  }

  /** Reading text that ends in a newline does not depend on what follows it. */
  lemma LoadAppend(text: string, more: string)
    requires Terminated(text, '\n')
    ensures Load(text + more) == Load(text) + Load(more)
  {
    ItemsAppend(text, '\n', more);
    CollectAppend(Items(text, '\n'), Items(more, '\n'));
  }

  lemma LoadLine(line: string)
    requires '\n' !in line
    ensures Load(Line(line)) == match ParseLine(line) case Parsed(p) => [p] case _ => []
  {
    hide ParseLine;
    assert Line(line) == line + ['\n'] + "";
    ItemsStep(line, '\n', "");
    assert Items(Line(line), '\n') == [line];
    assert Collect([line]) == match ParseLine(line) case Parsed(p) => [p] + Collect([]) case _ => Collect([]);
  }

  lemma {:induction false} BodyTerminated(points: seq<ReadPoint>)
    ensures Terminated(Body(points), '\n')
  {
    if points != [] {
      BodyTerminated(points[1..]);
    }
  }

  lemma {:induction false} LoadBody(points: seq<ReadPoint>)
    requires forall p :: p in points ==> Canonical(p)
    ensures Load(Body(points)) == points
  {
    if points != [] {
      var p := points[0];
      assert p in points;
      ParseOfPrint(p);
      LoadLine(PrintLine(p));
      LoadAppend(Line(PrintLine(p)), Body(points[1..]));
      LoadBody(points[1..]);
    }
  }

  lemma SaveTerminated(header: Header, points: seq<ReadPoint>)
    ensures Terminated(Save(header, points), '\n')
  {
    BodyTerminated(points);
  }

  lemma LoadOfSave(header: Header, points: seq<ReadPoint>)
    requires forall p :: p in points ==> Canonical(p)
    ensures Load(Save(header, points)) == points
  {
    LoadAppend(header, Body(points));
    LoadBody(points);
  }

  /** Saving and loading is the identity on exactly the lists of canonical points. */
  lemma SaveLoadExactly(header: Header, points: seq<ReadPoint>)
    ensures Load(Save(header, points)) == points <==> forall p :: p in points ==> Canonical(p)
  {
    LoadedIsCanonical(Save(header, points));
    if forall p :: p in points ==> Canonical(p) {
      LoadOfSave(header, points);
    }
  }

  /** For every file text at all, saving what was loaded and loading again changes nothing. */
  lemma LoadSaveLoad(header: Header, text: string)
    ensures Load(Save(header, Load(text))) == Load(text)
  {
    LoadedIsCanonical(text);
    LoadOfSave(header, Load(text));
  }

  // ----------------------------------------------------------- the loops

  lemma FieldsStep(stream: string)
    requires stream != ""
    ensures Fields(stream) == [TrimCopy(Item(stream, ';'))] + Fields(Rest(stream, ';'))
  {
  }

  method SplitSemicolonLine(line: string) returns (parts: seq<string>)
    ensures parts == Fields(line)
  {
    parts := [];
    var stream := line;
    while stream != ""
      invariant parts + Fields(stream) == Fields(line)
      decreases |stream|
    {
      FieldsStep(stream);
      var item := TrimCopy(Item(stream, ';'));
      stream := Rest(stream, ';');
      Regroup(parts, item, Fields(stream));
      parts := parts + [item];
    }
  }

  method TryBuildReadPointFromCsvLine(line: string) returns (r: LineResult)
    ensures r == ParseLine(line)
  {
    hide ParseKind, Stoi, Fields;
    var clean := TrimCopy(line);
    if clean == "" || clean[0] == '#' {
      return Skipped;
    }
    var parts := SplitSemicolonLine(clean);
    if |parts| < 8 {
      return Refused(TooFewFields);
    }
    var kind := ParseKind(parts[4], parts[6]);
    if kind.None? {
      return Refused(UnknownType);
    }
    var port, slave := Stoi(parts[2]), Stoi(parts[3]);
    var address, index := Stoi(parts[5]), Stoi(parts[7]);
    if port.None? || slave.None? || address.None? || index.None? {
      return Refused(BadNumber);
    }
    r := Parsed(ReadPoint(parts[0], parts[1], port.value, slave.value, kind.value, address.value,
                          RegisterCount(kind.value), ToUInt16(index.value), 0));
  }

  method LoadConfiguredPoints(text: string) returns (points: seq<ReadPoint>)
    ensures points == Load(text)
    ensures forall p :: p in points ==> Canonical(p)
  {
    points := [];
    var stream := text;
    while stream != ""
      invariant points + Load(stream) == Load(text)
      decreases |stream|
    {
      var line := Item(stream, '\n');
      var r := TryBuildReadPointFromCsvLine(line);
      assert Items(stream, '\n')[1..] == Items(Rest(stream, '\n'), '\n');
      if r.Parsed? {
        points := points + [r.point];
      }
      stream := Rest(stream, '\n');
    }
    LoadedIsCanonical(text);
  }

  method SaveReadPoints(header: Header, points: seq<ReadPoint>) returns (text: string)
    ensures text == Save(header, points)
    ensures Terminated(text, '\n')
  {
    hide PrintLine;
    text := header;
    for i := 0 to |points|
      invariant text + Body(points[i..]) == Save(header, points)
    {
      text := text + Line(PrintLine(points[i]));
      assert points[i..][1..] == points[i + 1..];
    }
    SaveTerminated(header, points);
  }
}
