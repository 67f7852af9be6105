/** The add form for anything a user types (Interface.cpp): which point the eight fields
    spell, and when sending them adds exactly that point. */
module TypedForm {
  import opened PointTypes
  import opened Text
  import opened PointsCsv
  import opened PointForm
  import opened WebText
  import ConfigStore

  /** The point the typed fields spell, each of them trimmed: none when a field is empty
      or when the name turns the line into a comment. */
  function Spelled(v: Form): LineResult {
    var name := TrimCopy(v[0]);
    if "" in v || (name != "" && name[0] == '#') then Skipped else ParseFields(TrimAll(Forced(v)))
  }

  ghost predicate NoSeparator(fields: seq<string>) {
    forall f :: f in fields ==> ';' !in f
  }

  // ------------------------------------------------------------- blanks at the ends of a line

  lemma {:induction false} JoinBack(fields: seq<string>, last: string, back: string)
    ensures Join(fields + [last + back]) == Join(fields + [last]) + back
  {
    hide Join;
    if fields == [] {
      assert [] + [last + back] == [last + back] + [] && [] + [last] == [last] + [];
      ConfigStore.JoinMore(last + back, []);
      ConfigStore.JoinMore(last, []);
    } else {
      var rest := fields[1..];
      JoinBack(rest, last, back);
      assert fields + [last + back] == [fields[0]] + (rest + [last + back]);
      assert fields + [last] == [fields[0]] + (rest + [last]);
      ConfigStore.JoinMore(fields[0], rest + [last + back]);
      ConfigStore.JoinMore(fields[0], rest + [last]);
      assert fields[0] + ";" + (Join(rest + [last]) + back) == fields[0] + ";" + Join(rest + [last]) + back;
    }
  }

  lemma JoinEnds(front: string, first: string, middle: seq<string>, last: string, back: string)
    ensures Join([front + first] + middle + [last + back]) == front + Join([first] + middle + [last]) + back
  {
    hide Join;
    var b := [first] + middle + [last];
    JoinBack([front + first] + middle, last, back);
    ConfigStore.GlueOne(front, b);
    assert [front + b[0]] + b[1..] == [front + first] + middle + [last];
  }

  /** A last field that is empty leaves its separator behind and opens no item. */
  lemma {:induction false} SplitOfOpenJoin(fields: seq<string>)
    requires fields != [] && NoSeparator(fields)
    ensures Items(Join(fields + [""]), ';') == fields
  {
    hide Items, Join;
    var rest := fields[1..];
    assert fields + [""] == [fields[0]] + (rest + [""]);
    ConfigStore.JoinMore(fields[0], rest + [""]);
    assert fields[0] in fields && forall f :: f in rest ==> f in fields;
    ItemsStep(fields[0], ';', Join(rest + [""]));
    if rest == [] {
      ConfigStore.JoinMore("", []);
      assert rest + [""] == [""] == [""] + [];
      ItemsOfEmpty(';');
    } else {
      SplitOfOpenJoin(rest);
    }
  }

  lemma {:induction false} JoinLastChar(fields: seq<string>)
    requires |fields| > 1
    ensures var s, last := Join(fields), fields[|fields| - 1];
            s != "" && s[|s| - 1] == if last == "" then ';' else last[|last| - 1]
  {
    ConfigStore.JoinMore(fields[0], fields[1..]);
    assert fields == [fields[0]] + fields[1..];
    if |fields| > 2 {
      JoinLastChar(fields[1..]);
    }
  }

  lemma {:induction false} SameTrims(a: seq<string>, b: seq<string>)
    requires |a| == |b| && forall i :: 0 <= i < |a| ==> TrimCopy(a[i]) == TrimCopy(b[i])
    ensures TrimAll(a) == TrimAll(b)
  {
    assert forall i :: 0 <= i < |a| ==> TrimAll(a)[i] == TrimAll(b)[i];
  }

  /** The eight fields with the blanks gone that trimming the joined line takes away. */
  datatype Cut = Cut(front: string, core: Form, back: string)

  ghost predicate IsCut(v: Form, c: Cut) {
    && Join(v) == c.front + Join(c.core) + c.back && AllBlank(c.front) && AllBlank(c.back)
    && TrimAll(c.core) == TrimAll(v)
    && (NoSeparator(v) ==> NoSeparator(c.core))
    && (c.core[0] == "" || !IsBlank(c.core[0][0])) && (c.core[7] == "" || !IsBlank(c.core[7][|c.core[7]| - 1]))
  }

  lemma FirstCut(s: string) returns (front: string, kept: string)
    ensures s == front + kept && AllBlank(front) && TrimCopy(kept) == TrimCopy(s)
    ensures kept == "" || !IsBlank(kept[0])
  {
    var f, b := TrimCuts(s);
    front, kept := f, TrimCopy(s) + b;
    assert s == front + kept;
    TrimPeels("", TrimCopy(s), b);
    assert "" + TrimCopy(s) + b == kept;
  }

  lemma LastCut(s: string) returns (kept: string, back: string)
    ensures s == kept + back && AllBlank(back) && TrimCopy(kept) == TrimCopy(s)
    ensures kept == "" || !IsBlank(kept[|kept| - 1])
  {
    var f, b := TrimCuts(s);
    if TrimCopy(s) == "" {
      kept, back := "", s;
      assert s == f;
    } else {
      kept, back := f + TrimCopy(s), b;
      TrimPeels(f, TrimCopy(s), "");
      assert f + TrimCopy(s) + "" == kept;
    }
  }

  function Core(first: string, middle: seq<string>, last: string): (core: Form)
    requires |middle| == 6
    ensures core[0] == first && core[1..7] == middle && core[7] == last
  {
    [first] + middle + [last]
  }

  lemma JoinOfCore(v: Form, front: string, first: string, last: string, back: string)
    requires v[0] == front + first && v[7] == last + back
    ensures Join(v) == front + Join(Core(first, v[1..7], last)) + back
  {
    hide Join;
    assert v == [front + first] + v[1..7] + [last + back];
    JoinEnds(front, first, v[1..7], last, back);
  }

  lemma SameMiddleTrims(core: Form, v: Form)
    requires core[1..7] == v[1..7] && TrimCopy(core[0]) == TrimCopy(v[0]) && TrimCopy(core[7]) == TrimCopy(v[7])
    ensures TrimAll(core) == TrimAll(v)
  {
    hide TrimCopy;
    forall i | 0 <= i < 8
      ensures TrimCopy(core[i]) == TrimCopy(v[i])
    {
      assert 0 < i < 7 ==> core[i] == core[1..7][i - 1] == v[1..7][i - 1];
    }
    SameTrims(core, v);
  }

  lemma CoreHasNoSeparator(v: Form, front: string, core: Form, back: string)
    requires NoSeparator(v) && v[0] == front + core[0] && v[7] == core[7] + back && v[1..7] == core[1..7]
    ensures NoSeparator(core)
  {
    forall i | 0 <= i < 8
      ensures ';' !in core[i]
    {
      assert v[i] in v && (0 < i < 7 ==> core[i] == core[1..7][i - 1] == v[1..7][i - 1]);
    }
  }

  lemma CutEnds(v: Form) returns (c: Cut)
    ensures IsCut(v, c)
  {
    var front, first := FirstCut(v[0]);
    var last, back := LastCut(v[7]);
    hide Join, TrimCopy, AllBlank, IsBlank, TrimAll, NoSeparator, Core;
    var core := Core(first, v[1..7], last);
    c := Cut(front, core, back);
    JoinOfCore(v, front, first, last, back);
    SameMiddleTrims(core, v);
    if NoSeparator(v) {
      CoreHasNoSeparator(v, front, core, back);
    }
  }

  // ------------------------------------------------------------- what the line means

  lemma CoreLine(v: Form, c: Cut)
    requires IsCut(v, c)
    ensures TrimCopy(Join(v)) == Join(c.core) && Join(c.core) != ""
    ensures Join(c.core)[0] == if c.core[0] == "" then ';' else c.core[0][0]
  {
    var core := c.core;
    JoinLastChar(core);
    ConfigStore.JoinMore(core[0], core[1..]);
    assert core == [core[0]] + core[1..];
    hide Join;
    TrimPeels(c.front, Join(core), c.back);
  }

  lemma FirstCharOfName(v: Form, c: Cut)
    requires IsCut(v, c)
    ensures c.core[0] == "" <==> TrimCopy(v[0]) == ""
    ensures c.core[0] != "" ==> c.core[0][0] == TrimCopy(v[0])[0]
  {
    assert TrimAll(c.core)[0] == TrimAll(v)[0];
    assert TrimCopy(c.core[0]) == TrimCopy(v[0]);
  }

  lemma BlankIndexIsRefused(parts: seq<string>)
    requires |parts| >= 8 && parts[7] == ""
    ensures !ParseFields(parts).Parsed?
  {
    hide ParseKind;
    assert Stoi("") == None;
  }

  lemma CoreFieldsParse(core: Form, p: ReadPoint)
    requires NoSeparator(core)
    ensures ParseFields(Fields(Join(core))) == Parsed(p) <==> ParseFields(TrimAll(core)) == Parsed(p)
  {
    if core[7] == "" {
      var most := core[..7];
      assert core == most + [""] && TrimAll(core)[7] == TrimCopy("") == "";
      assert forall f :: f in most ==> f in core;
      hide Join, ParseFields, Items;
      SplitOfOpenJoin(most);
      BlankIndexIsRefused(TrimAll(core));
      TooFewAreRefused(TrimAll(most));
    } else {
      hide Join, ParseFields, Items;
      SplitOfJoin(core);
    }
  }

  /** The joined fields, separators only between them, parse as the trimmed fields do. */
  lemma JoinedFieldsParse(v: Form, p: ReadPoint)
    requires NoSeparator(v)
    ensures var name := TrimCopy(v[0]);
            ParseLine(Join(v)) == Parsed(p) <==> (name == "" || name[0] != '#') && ParseFields(TrimAll(v)) == Parsed(p)
  {
    var c := CutEnds(v);
    CoreLine(v, c);
    FirstCharOfName(v, c);
    CoreFieldsParse(c.core, p);
    hide Join, ParseFields, Fields, TrimCopy, AllBlank, NoSeparator;
  }

  lemma TooFewAreRefused(parts: seq<string>)
    requires |parts| < 8
    ensures !ParseFields(parts).Parsed?
  {
  }

  lemma ForcedHasNoSeparator(v: Form)
    requires NoSeparator(v)
    ensures NoSeparator(Forced(v)) && Forced(v)[0] == v[0] && ("" in v || "" !in Forced(v))
  {
    hide IsBitRegister, NormalizeToken;
    assert ';' !in "bool";
  }

  /** A form whose fields have no separator in them is read as exactly the point they
      spell, whatever else is typed. */
  lemma TypedLineExactly(v: Form, p: ReadPoint)
    requires NoSeparator(v)
    ensures ParseLine(LineOf(v)) == Parsed(p) <==> Spelled(v) == Parsed(p)
  {
    if "" in v {
      assert LineOf(v) == "" && ParseLine("") == Skipped;
    } else {
      assert LineOf(v) == Join(Forced(v));
      ForcedHasNoSeparator(v);
      hide Forced, LineOf, ParseLine, Join, ParseFields, NoSeparator;
      JoinedFieldsParse(Forced(v), p);
    }
  }

  /** Which of the eight fields becomes which part of the point. */
  ghost predicate Parts(name: string, ip: string, port: string, slaveId: string, reg: string, address: string,
                        dataType: string, index: string, p: ReadPoint)
  {
    && p.description == TrimCopy(name) && p.ip == TrimCopy(ip)
    && Stoi(TrimCopy(port)) == Some(p.port)
    && Stoi(TrimCopy(slaveId)) == Some(p.slaveId)
    && Stoi(TrimCopy(address)) == Some(p.address)
    && ReadsAsIndex(TrimCopy(index), p.dnp3Index)
    && ParseTable(NormalizeToken(TrimCopy(reg))) == Some(TableOf(p.kind))
    && (!IsDiscrete(p.kind) ==> ParseData(NormalizeToken(TrimCopy(dataType))) == Some(DataOf(p.kind)))
    && p.count == RegisterCount(p.kind)
  }

  /** The low 16 bits of the number the text reads as. */
  ghost predicate ReadsAsIndex(text: string, index: uint16) {
    Stoi(text).Some? && (Stoi(text).value - index) % 65536 == 0
  }

  lemma FieldsOfParsed(parts: seq<string>, p: ReadPoint)
    requires ParseFields(parts) == Parsed(p)
    ensures |parts| >= 8 && p.description == parts[0] && p.ip == parts[1]
    ensures Stoi(parts[2]) == Some(p.port) && Stoi(parts[3]) == Some(p.slaveId) && Stoi(parts[5]) == Some(p.address)
    ensures ReadsAsIndex(parts[7], p.dnp3Index) && p.count == RegisterCount(p.kind)
    ensures ParseTable(NormalizeToken(parts[4])) == Some(TableOf(p.kind))
    ensures ParseData(NormalizeToken(parts[6])) == Some(DataOf(p.kind))
  {
    hide Stoi, ParseTable, ParseData, NormalizeToken;
    assert ParseKind(parts[4], parts[6]) == Some(p.kind);
    KindExactly(ParseTable(NormalizeToken(parts[4])).value, ParseData(NormalizeToken(parts[6])).value, p.kind);
  }

  lemma PartsOfSpelled(v: Form, p: ReadPoint)
    requires Spelled(v) == Parsed(p)
    ensures Parts(v[0], v[1], v[2], v[3], v[4], v[5], v[6], v[7], p)
  {
    var w := Forced(v);
    assert forall i :: 0 <= i < 8 && i != 6 ==> w[i] == v[i] by {
      hide IsBitRegister, NormalizeToken;
    }
    hide ParseFields, Forced, Spelled, Stoi, TrimCopy, NormalizeToken, ParseTable, ParseData, ReadsAsIndex;
    SpelledFields(v, p);
    if !IsDiscrete(p.kind) {
      ForcedOnlyBits(v, p);
    }
  }

  /** The line of a form, when it reads as a point, reads as the one whose parts are the
      parameters of these names. */
  lemma FormPartsExactly(path: string, p: ReadPoint)
    requires NoSeparator(FormOf(path)) && ParseLine(FormLine(path)) == Parsed(p)
    ensures Parts(GetParam(path, "name"), GetParam(path, "ip"), GetParam(path, "port"), GetParam(path, "slave_id"),
                  GetParam(path, "reg"), GetParam(path, "address"), GetParam(path, "data_type"),
                  GetParam(path, "dnp_index"), p)
  {
    var v := FormOf(path);
    FormOfIs(path);
    assert FormLine(path) == LineOf(v);
    hide FormLine, FormOf, LineOf, GetParam, ParseLine, NoSeparator, Spelled, Parts;
    TypedLineExactly(v, p);
    PartsOfSpelled(v, p);
  }

  lemma SpelledFields(v: Form, p: ReadPoint)
    requires Spelled(v) == Parsed(p)
    ensures var w := Forced(v);
            && p.description == TrimCopy(w[0]) && p.ip == TrimCopy(w[1])
            && Stoi(TrimCopy(w[2])) == Some(p.port) && Stoi(TrimCopy(w[3])) == Some(p.slaveId)
            && Stoi(TrimCopy(w[5])) == Some(p.address) && ReadsAsIndex(TrimCopy(w[7]), p.dnp3Index)
            && ParseTable(NormalizeToken(TrimCopy(w[4]))) == Some(TableOf(p.kind))
            && ParseData(NormalizeToken(TrimCopy(w[6]))) == Some(DataOf(p.kind))
            && p.count == RegisterCount(p.kind)
  {
    hide ParseFields, Forced, Stoi, TrimCopy, NormalizeToken, ParseTable, ParseData, ReadsAsIndex;
    FieldsOfParsed(TrimAll(Forced(v)), p);
  }

  lemma ForcedOnlyBits(v: Form, p: ReadPoint)
    requires Spelled(v) == Parsed(p) && !IsDiscrete(p.kind)
    ensures Forced(v)[6] == v[6]
  {
    var data := Forced(v)[6];
    assert data == v[6] || data == "bool";
    SpelledFields(v, p);
    BoolIsBits();
    hide ParseTable, ParseData, Stoi, TrimCopy, NormalizeToken, Spelled, Forced, ReadsAsIndex;
  }

  lemma BoolIsBits()
    ensures ParseData(NormalizeToken(TrimCopy("bool"))) == Some(BoolData)
  {
    DataNameIsToken(BoolData);
    DataNameRoundTrip(BoolData);
    NormalizeFixed("bool");
  }

  // ------------------------------------------------------------- adding it

  lemma TypedLineArrives(page: string, texts: Form, protocol: string, v: Form)
    requires '?' !in page && '&' !in protocol && Encodes(texts, v)
    ensures FormLine(FormUrl(page, texts, protocol)) == LineOf(v)
  {
    hide LineOf, FormOf, FormUrl, Encodes;
    FormRoundTrip(page, texts, protocol, v);
  }

  /** Sending fields that spell a free point adds exactly that point if and only if one
      piece of their line, cut at its newlines, parses to it and no other piece parses. */
  lemma FormAddsSpelledExactly(
    header: Header, text: string, page: string, texts: Form, protocol: string, v: Form, p: ReadPoint)
    requires '?' !in page && '&' !in protocol && Encodes(texts, v) && NoSeparator(v) && Spelled(v) == Parsed(p)
    requires Terminated(text, '\n') && forall e :: e in Load(text) ==> KeyOf(e) != KeyOf(p)
    ensures Load(ConfigStore.Apply(header, text, ConfigStore.Add(FormLine(FormUrl(page, texts, protocol)), true)))
            == Load(text) + [p]
       <==> ConfigStore.OneParses(Items(Line(LineOf(v)), '\n'), p)
  {
    TypedLineArrives(page, texts, protocol, v);
    TypedLineExactly(v, p);
    hide FormLine, FormUrl, LineOf, ParseLine, Load, Spelled, NoSeparator, Encodes, ConfigStore.OneParses;
    ConfigStore.VerdictAdded(Load(text), p);
    hide ConfigStore.Verdict;
    ConfigStore.AddAgreesExactly(text, LineOf(v));
  }

  lemma TypedLineIsOne(v: Form)
    requires forall f :: f in v ==> '\n' !in f
    ensures '\n' !in LineOf(v)
  {
    hide IsBitRegister, NormalizeToken, Join;
    assert '\n' !in "bool";
    JoinOneLine(Forced(v));
  }

  /** Sending any fields without separators and newlines adds the point they spell, at the
      end of the file's list, if and only if they spell one, the file opens and no listed
      point has its DNP3 key; otherwise the list stays. */
  lemma FormAddsSpelled(
    header: Header, text: string, points: seq<ReadPoint>, page: string, texts: Form, protocol: string, v: Form,
    opens: bool)
    requires ConfigStore.Mirrors(text, points) && '?' !in page && '&' !in protocol && Encodes(texts, v)
    requires NoSeparator(v) && forall f :: f in v ==> '\n' !in f
    ensures var request := ConfigStore.Add(FormLine(FormUrl(page, texts, protocol)), opens);
            var accepted := opens && Spelled(v).Parsed? && forall e :: e in points ==> KeyOf(e) != KeyOf(Spelled(v).point);
            ConfigStore.Mirrors(ConfigStore.Apply(header, text, request),
                                if accepted then points + [Spelled(v).point] else points)
  {
    var line := LineOf(v);
    TypedLineArrives(page, texts, protocol, v);
    TypedLineIsOne(v);
    SameOutcome(v);
    hide FormLine, FormUrl, LineOf, ParseLine, Spelled, NoSeparator, Encodes, ConfigStore.Mirrors, ConfigStore.Apply;
    if Spelled(v).Parsed? {
      ConfigStore.VerdictAdded(points, Spelled(v).point);
      hide ConfigStore.Verdict;
    }
    ConfigStore.ApplyAgrees(header, text, points, ConfigStore.Add(line, opens));
  }

  lemma SameOutcome(v: Form)
    requires NoSeparator(v)
    ensures ParseLine(LineOf(v)).Parsed? <==> Spelled(v).Parsed?
    ensures Spelled(v).Parsed? ==> ParseLine(LineOf(v)) == Spelled(v)
  {
    hide ParseLine, LineOf, Spelled, NoSeparator;
    if ParseLine(LineOf(v)).Parsed? {
      TypedLineExactly(v, ParseLine(LineOf(v)).point);
    }
    if Spelled(v).Parsed? {
      TypedLineExactly(v, Spelled(v).point);
    }
  }

  // ------------------------------------------------------------- a newline in the last field

  /** The fields of p with a newline and the line of q behind the index. */
  function WithSecondLine(p: ReadPoint, q: ReadPoint): Form {
    PrintedFields(p)[7 := PrintInt(p.dnp3Index) + "\n" + PrintLine(q)]
  }

  lemma SecondLineJoins(p: ReadPoint, q: ReadPoint)
    ensures Join(WithSecondLine(p, q)) == ConfigStore.Spliced(p, q)
  {
    var fields, tail := PrintedFields(p), "\n" + PrintLine(q);
    var most := fields[..7];
    assert fields[7] == PrintInt(p.dnp3Index);
    hide PrintInt, PrintedFields, Join;
    assert fields == most + [fields[7]] && WithSecondLine(p, q) == most + [fields[7] + tail] by {
      assert PrintInt(p.dnp3Index) + "\n" + PrintLine(q) == fields[7] + tail;
    }
    JoinBack(most, fields[7], tail);
    assert PrintLine(p) + tail == PrintLine(p) + "\n" + PrintLine(q);
  }

  lemma SecondLineFields(p: ReadPoint, q: ReadPoint)
    requires p.description != "" && p.ip != ""
    ensures var v := WithSecondLine(p, q);
            "" !in v && v[4] == RegisterKindName(p.kind) && v[6] == DataTypeName(p.kind)
  {
    var v, fields := WithSecondLine(p, q), PrintedFields(p);
    EmptyFields(p);
    assert fields[4] == RegisterKindName(p.kind) && fields[6] == DataTypeName(p.kind);
    hide PrintedFields, RegisterKindName, DataTypeName, PrintInt, PrintLine;
    assert v[7] != "" && forall i :: 0 <= i < 7 ==> v[i] == fields[i] && fields[i] in fields;
  }

  lemma SecondLineIsKept(p: ReadPoint, q: ReadPoint)
    requires p.description != "" && p.ip != ""
    ensures LineOf(WithSecondLine(p, q)) == ConfigStore.Spliced(p, q)
  {
    hide WithSecondLine, RegisterKindName, DataTypeName, Join, NormalizeToken, IsBitRegister, LineOf, ConfigStore.Spliced;
    SecondLineJoins(p, q);
    SecondLineFields(p, q);
    BitPointsAreBool(p.kind);
    LineOfForm(WithSecondLine(p, q));
  }

  /** The line on which unique keys fail arrives through the form: a newline in the index
      field is enough. */
  lemma NewlineArrives(header: Header, page: string, texts: Form, protocol: string, p: ReadPoint, q: ReadPoint)
    requires '?' !in page && '&' !in protocol && Encodes(texts, WithSecondLine(p, q))
    requires Canonical(p) && Canonical(q) && KeyOf(p) == KeyOf(q) && p.description != "" && p.ip != ""
    ensures var request := ConfigStore.Add(FormLine(FormUrl(page, texts, protocol)), true);
            var after := ConfigStore.Apply(header, Save(header, []), request);
            Load(after) == [p, q] && !DistinctKeys(Load(after))
  {
    hide FormLine, FormUrl, Encodes, WithSecondLine, LineOf, Load, Save, Canonical, ConfigStore.Apply, ConfigStore.Spliced,
      DistinctKeys, KeyOf;
    TypedLineArrives(page, texts, protocol, WithSecondLine(p, q));
    SecondLineIsKept(p, q);
    ConfigStore.NewlineBreaksUniqueness(header, p, q);
  }
}
