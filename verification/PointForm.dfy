/** The page's add form (Interface.cpp): from the fields as they are sent, through the
    query parser, to the line that is added to the points file. */
module PointForm {
  import opened PointTypes
  import opened Text
  import opened PointsCsv
  import opened WebText
  import ConfigStore

  function KeyAt(i: nat): string
    requires i < 8
  {
    ["name", "ip", "port", "slave_id", "reg", "address", "data_type", "dnp_index"][i]
  }

  /** The fields of a form in the order they have in a line. */
  type Form = v: seq<string> | |v| == 8 witness ["", "", "", "", "", "", "", ""]

  function FormPairs(texts: Form): seq<SentPair> {
    seq(8, i requires 0 <= i < 8 => SentPair(KeyAt(i), texts[i]))
  }

  /** What the page's form sends, in its order; the program never looks at its second
      field, the source protocol. */
  function SentForm(texts: Form, protocol: string): seq<SentPair> {
    FormPairs(texts)[..1] + [SentPair("source_protocol", protocol)] + FormPairs(texts)[1..]
  }

  function FormUrl(page: string, texts: Form, protocol: string): string {
    page + "?" + QueryText(SentForm(texts, protocol))
  }

  /** The sent texts are some encoding of these fields. */
  ghost predicate Encodes(texts: Form, v: Form) {
    forall i :: 0 <= i < 8 ==> '&' !in texts[i] && UrlDecode(texts[i]) == v[i]
  }

  function FormOf(path: string): Form {
    seq(8, i requires 0 <= i < 8 => GetParam(path, KeyAt(i)))
  }

  predicate IsBitRegister(reg: string) {
    reg == "coil_status" || reg == "coil" || reg == "input_status" || reg == "discrete_input"
  }

  /** The line of a form; empty when any field is. Bit registers are always boolean. */
  function Forced(v: Form): Form {
    if IsBitRegister(NormalizeToken(v[4])) then v[6 := "bool"] else v
  }

  function LineOf(v: Form): string {
    if "" in v then "" else Join(Forced(v))
  }

  /** Four of the names for bit registers, and only these, force the data type. */
  lemma ForcedExactly(v: Form)
    ensures var reg := NormalizeToken(v[4]);
            Forced(v) == if reg == "coil_status" || reg == "coil" || reg == "input_status" || reg == "discrete_input"
                         then v[6 := "bool"] else v
  {
    hide NormalizeToken;
  }

  function FormLine(path: string): string {
    LineOf(FormOf(path))
  }

  // ------------------------------------------------------------- the form arrives

  lemma KeysDiffer(i: nat, j: nat)
    requires i < j < 8
    ensures KeyAt(i) != KeyAt(j)
  {
  }

  lemma KeyIsPlain(i: nat)
    requires i < 8
    ensures '&' !in KeyAt(i) && '=' !in KeyAt(i)
  {
  }

  lemma KeyIsNotProtocol(i: nat)
    requires i < 8
    ensures KeyAt(i) != "source_protocol" && '&' !in "source_protocol" && '=' !in "source_protocol"
  {
  }

  lemma {:induction false} FirstDecodedAt(pairs: seq<SentPair>, k: nat)
    requires k < |pairs| && forall j :: 0 <= j < k ==> pairs[j].key != pairs[k].key
    ensures FirstDecoded(pairs, pairs[k].key) == UrlDecode(pairs[k].text)
  {
    hide UrlDecode;
    if k > 0 {
      FirstDecodedAt(pairs[1..], k - 1);
    }
  }

  lemma FieldArrives(page: string, texts: Form, protocol: string, i: nat)
    requires i < 8 && '?' !in page && '&' !in protocol && forall j :: 0 <= j < 8 ==> '&' !in texts[j]
    ensures GetParam(FormUrl(page, texts, protocol), KeyAt(i)) == UrlDecode(texts[i])
  {
    hide KeyAt, GetParam, QueryText, UrlDecode;
    var sent, at := SentForm(texts, protocol), if i == 0 then 0 else i + 1;
    forall j | 0 <= j < |sent|
      ensures Sendable(sent[j])
    {
      KeyIsPlain(if j == 0 then 0 else j - 1);
      KeyIsNotProtocol(0);
    }
    QueryParses(page, sent, KeyAt(i));
    assert sent[at] == SentPair(KeyAt(i), texts[i]);
    forall j | 0 <= j < at
      ensures sent[j].key != KeyAt(i)
    {
      if j == 1 {
        KeyIsNotProtocol(i);
      } else {
        KeysDiffer(if j == 0 then 0 else j - 1, i);
      }
    }
    FirstDecodedAt(sent, at);
  }

  /** Every field of the form arrives as it was typed, whatever bytes are in it and
      however it was encoded, the extra field notwithstanding. */
  lemma FormRoundTrip(page: string, texts: Form, protocol: string, v: Form)
    requires '?' !in page && '&' !in protocol && Encodes(texts, v)
    ensures FormOf(FormUrl(page, texts, protocol)) == v
  {
    hide KeyAt, GetParam, FormUrl, UrlDecode;
    forall i | 0 <= i < 8
      ensures GetParam(FormUrl(page, texts, protocol), KeyAt(i)) == v[i]
    {
      FieldArrives(page, texts, protocol, i);
    }
  }

  /** The program's own encoder is one of the encodings. */
  lemma OwnEncoding(v: Form)
    requires forall f :: f in v ==> IsBytes(f)
    ensures Encodes(seq(8, i requires 0 <= i < 8 => UrlEncode(v[i])), v)
  {
    hide UrlEncode, UrlDecode, IsBytes;
    forall i | 0 <= i < 8
      ensures '&' !in UrlEncode(v[i]) && UrlDecode(UrlEncode(v[i])) == v[i]
    {
      assert v[i] in v;
      EncodedIsSendable(v[i]);
    }
  }

  // ------------------------------------------------------------- a point sent through the form

  lemma TableNameIsBit(table: Table)
    ensures IsBitRegister(TableName(table)) <==> table.CoilTable? || table.StatusTable?
    ensures TableName(table) != ""
  {
  }

  /** Forcing boolean never changes a printed point. */
  lemma BitPointsAreBool(t: ReadValueType)
    ensures IsBitRegister(NormalizeToken(RegisterKindName(t))) ==> DataTypeName(t) == "bool"
  {
    TableNameIsToken(TableOf(t));
    TableNameIsBit(TableOf(t));
    hide IsBitRegister, TableName;
    NormalizeFixed(RegisterKindName(t));
  }

  lemma EmptyFields(p: ReadPoint)
    ensures "" in PrintedFields(p) <==> p.description == "" || p.ip == ""
  {
    PrintIntClean(p.port);
    PrintIntClean(p.slaveId);
    PrintIntClean(p.address);
    PrintIntClean(p.dnp3Index);
    TableNameIsBit(TableOf(p.kind));
    assert DataName(DataOf(p.kind)) != "";
    hide PrintInt, TableName, DataName;
    var fields := PrintedFields(p);
    assert fields[0] == p.description && fields[1] == p.ip;
  }

  /** A point sent through the form, however encoded, makes exactly the point's own line
      if and only if its name and its address are not empty; otherwise no line. */
  lemma FormLineExactly(page: string, texts: Form, protocol: string, p: ReadPoint)
    requires '?' !in page && '&' !in protocol && Encodes(texts, PrintedFields(p))
    ensures var line := FormLine(FormUrl(page, texts, protocol));
            && (line == PrintLine(p) <==> p.description != "" && p.ip != "")
            && (line == "" <==> p.description == "" || p.ip == "")
  {
    EmptyFields(p);
    LineOfPrinted(p);
    PrintedLineIsNotEmpty(p);
    var v: Form := PrintedFields(p);
    hide LineOf, PrintedFields, PrintLine, FormOf, FormUrl, Encodes;
    FormRoundTrip(page, texts, protocol, v);
  }

  lemma LineOfForm(v: Form)
    requires IsBitRegister(NormalizeToken(v[4])) ==> v[6] == "bool"
    ensures LineOf(v) == if "" in v then "" else Join(v)
  {
    hide Join, NormalizeToken, IsBitRegister;
    assert v[6 := v[6]] == v;
  }

  lemma LineOfPrinted(p: ReadPoint)
    ensures LineOf(PrintedFields(p)) == if "" in PrintedFields(p) then "" else PrintLine(p)
  {
    hide RegisterKindName, DataTypeName, NormalizeToken, IsBitRegister, Join, LineOf, PrintInt;
    BitPointsAreBool(p.kind);
    LineOfForm(PrintedFields(p));
  }

  lemma PrintedLineIsNotEmpty(p: ReadPoint)
    ensures PrintLine(p) != ""
  {
  }

  /** Sending a named point through the form adds that point to the file's list, at its
      end, if and only if the file opens and no listed point has its DNP3 key. */
  lemma FormAddsPoint(
    header: Header, text: string, points: seq<ReadPoint>, page: string, texts: Form, protocol: string, p: ReadPoint,
    opens: bool)
    requires ConfigStore.Mirrors(text, points) && Canonical(p) && p.description != "" && p.ip != ""
    requires '?' !in page && '&' !in protocol && Encodes(texts, PrintedFields(p))
    ensures var request := ConfigStore.Add(FormLine(FormUrl(page, texts, protocol)), opens);
            var accepted := opens && forall e :: e in points ==> KeyOf(e) != KeyOf(p);
            ConfigStore.Mirrors(ConfigStore.Apply(header, text, request), if accepted then points + [p] else points)
  {
    FormLineExactly(page, texts, protocol, p);
    ParseOfPrint(p);
    hide FormLine, FormUrl, PrintedFields, PrintLine, ParseLine, ConfigStore.Mirrors, ConfigStore.Apply, Encodes, Canonical;
    ConfigStore.VerdictAdded(points, p);
    hide ConfigStore.Verdict;
    ConfigStore.ApplyAgrees(header, text, points, ConfigStore.Add(PrintLine(p), opens));
  }

  /** A point's line, field by field: name, address, port, slave id, register kind, address
      of the register, data type and DNP3 index. */
  lemma PrintedLineExactly(p: ReadPoint)
    ensures PrintLine(p) ==
            p.description + ";" + p.ip + ";" + PrintInt(p.port) + ";" + PrintInt(p.slaveId) + ";" + RegisterKindName(p.kind)
            + ";" + PrintInt(p.address) + ";" + DataTypeName(p.kind) + ";" + PrintInt(p.dnp3Index)
  {
    var v: Form := PrintedFields(p);
    hide PrintInt, RegisterKindName, DataTypeName, Join;
    JoinEight(v);
  }

  // ------------------------------------------------------------- the method

  method BuildCsvLineFromForm(path: string) returns (line: string)
    ensures line == FormLine(path)
  {
    hide GetParam, NormalizeToken, Join;
    var name := GetQueryParam(path, "name");
    var ip := GetQueryParam(path, "ip");
    var port := GetQueryParam(path, "port");
    var slaveId := GetQueryParam(path, "slave_id");
    var reg := GetQueryParam(path, "reg");
    var address := GetQueryParam(path, "address");
    var dataType := GetQueryParam(path, "data_type");
    var dnpIndex := GetQueryParam(path, "dnp_index");
    FormOfIs(path);
    LineOfEight([name, ip, port, slaveId, reg, address, dataType, dnpIndex]);
    hide LineOf, FormOf, IsBitRegister;
    if name == "" || ip == "" || port == "" || slaveId == "" || reg == "" || address == "" || dataType == "" || dnpIndex == "" {
      return "";
    }
    if IsBitRegister(NormalizeToken(reg)) {
      dataType := "bool";
    }
    line := name + ";" + ip + ";" + port + ";" + slaveId + ";" + reg + ";" + address + ";" + dataType + ";" + dnpIndex;
  }

  lemma LineOfEight(v: Form)
    ensures var anyEmpty := v[0] == "" || v[1] == "" || v[2] == "" || v[3] == "" || v[4] == "" || v[5] == "" || v[6] == ""
                         || v[7] == "";
            var data := if IsBitRegister(NormalizeToken(v[4])) then "bool" else v[6];
            LineOf(v) ==
            if anyEmpty then ""
            else v[0] + ";" + v[1] + ";" + v[2] + ";" + v[3] + ";" + v[4] + ";" + v[5] + ";" + data + ";" + v[7]
  {
    hide Join, IsBitRegister, NormalizeToken;
    JoinEight(Forced(v));
  }

  lemma FormOfIs(path: string)
    ensures FormOf(path) ==
            [GetParam(path, "name"), GetParam(path, "ip"), GetParam(path, "port"), GetParam(path, "slave_id"),
             GetParam(path, "reg"), GetParam(path, "address"), GetParam(path, "data_type"), GetParam(path, "dnp_index")]
  {
  }

  lemma JoinStep(front: string, v: seq<string>)
    requires |v| > 1
    ensures front + Join(v) == front + v[0] + ";" + Join(v[1..])
  {
  }

  lemma JoinEight(v: Form)
    ensures Join(v) ==
            v[0] + ";" + v[1] + ";" + v[2] + ";" + v[3] + ";" + v[4] + ";" + v[5] + ";" + v[6] + ";" + v[7]
  {
    assert Join(v) == v[0] + ";" + Join(v[1..]) && Join(v[7..]) == v[7];
    hide Join;
    var s1 := v[0] + ";";
    var s2 := s1 + v[1] + ";";
    var s3 := s2 + v[2] + ";";
    var s4 := s3 + v[3] + ";";
    var s5 := s4 + v[4] + ";";
    var s6 := s5 + v[5] + ";";
    JoinStep(s1, v[1..]);
    JoinStep(s2, v[2..]);
    JoinStep(s3, v[3..]);
    JoinStep(s4, v[4..]);
    JoinStep(s5, v[5..]);
    JoinStep(s6, v[6..]);
  }
}
