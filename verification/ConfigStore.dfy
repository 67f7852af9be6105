/** Editing the points file from the web page: add, delete and clear work on the
    raw text (Interface.cpp), and agree with the same edits on a plain list. */
module ConfigStore {
  import opened PointTypes
  import opened Text
  import opened PointsCsv

  datatype AddResult = Added | BadLine(reason: LineResult) | AlreadyThere | KeyTaken | CannotOpen

  /** A page request; `opens` says whether the file could be opened for writing. */
  datatype Request =
    | Add(line: string, opens: bool)
    | Remove(index: nat, opens: bool)
    | Clear(opens: bool)

  predicate SamePoint(a: ReadPoint, b: ReadPoint) {
    && a.description == b.description && a.ip == b.ip && a.port == b.port && a.slaveId == b.slaveId
    && a.kind == b.kind && a.address == b.address && a.dnp3Index == b.dnp3Index
  }

  /** What the scan over the existing points reports. */
  function Verdict(existing: seq<ReadPoint>, p: ReadPoint): AddResult {
    if existing == [] then Added
    else if SamePoint(existing[0], p) then AlreadyThere
    else if KeyOf(existing[0]) == KeyOf(p) then KeyTaken
    else Verdict(existing[1..], p)
  }

  function AddVerdict(existing: seq<ReadPoint>, line: string, opens: bool): AddResult {
    match ParseLine(line)
    case Parsed(p) =>
      var v := Verdict(existing, p);
      if v == Added && !opens then CannotOpen else v
    case bad => BadLine(bad)
  }

  function Without<T>(s: seq<T>, i: nat): seq<T>
    requires i < |s|
  {
    s[..i] + s[i + 1..]
  }

  // -------------------------------------------------- the two machines

  /** One request on the file's text. */
  function Apply(header: Header, text: string, r: Request): string {
    match r
    case Add(line, opens) => if AddVerdict(Load(text), line, opens) == Added then text + Line(line) else text
    case Remove(i, opens) => if i < |Load(text)| && opens then Save(header, Without(Load(text), i)) else text
    case Clear(opens) => if opens then Save(header, []) else text
  }

  /** The same request on a list of points. */
  function ApplyList(points: seq<ReadPoint>, r: Request): seq<ReadPoint> {
    match r
    case Add(line, opens) =>
      if AddVerdict(points, line, opens) == Added then points + [ParseLine(line).point] else points
    case Remove(i, opens) => if i < |points| && opens then Without(points, i) else points
    case Clear(opens) => if opens then [] else points
  }

  function Run(header: Header, text: string, requests: seq<Request>): string
    decreases |requests|
  {
    if requests == [] then text else Run(header, Apply(header, text, requests[0]), requests[1..])
  }

  function RunList(points: seq<ReadPoint>, requests: seq<Request>): seq<ReadPoint>
    decreases |requests|
  {
    if requests == [] then points else RunList(ApplyList(points, requests[0]), requests[1..])
  }

  predicate OneLine(r: Request) {
    r.Add? ==> '\n' !in r.line
  }

  /** The file stands for this list of points: it loads as the list, ends in a
      newline, and no two points share a DNP3 key. */
  ghost predicate Mirrors(text: string, points: seq<ReadPoint>) {
    Load(text) == points && Terminated(text, '\n') && DistinctKeys(points)
  }

  // -------------------------------------------------- one request

  lemma {:induction false} VerdictAdded(existing: seq<ReadPoint>, p: ReadPoint)
    ensures Verdict(existing, p) == Added <==> forall e :: e in existing ==> KeyOf(e) != KeyOf(p)
  {
    if existing != [] {
      VerdictAdded(existing[1..], p);
      assert existing[0] in existing;
      assert forall e :: e in existing ==> e == existing[0] || e in existing[1..];
    }
  }

  /** The lines read as this one point: one of them parses, to the point, and no other does. */
  ghost predicate OneParses(lines: seq<string>, p: ReadPoint) {
    exists i :: OnlyParsed(lines, i, p)
  }

  ghost predicate OnlyParsed(lines: seq<string>, i: int, p: ReadPoint) {
    0 <= i < |lines| && ParseLine(lines[i]) == Parsed(p)
    && forall j :: 0 <= j < |lines| && j != i ==> !ParseLine(lines[j]).Parsed?
  }

  lemma {:induction false} CollectedNone(lines: seq<string>)
    ensures Collect(lines) == [] <==> forall j :: 0 <= j < |lines| ==> !ParseLine(lines[j]).Parsed?
  {
    hide ParseLine;
    if lines != [] {
      CollectedNone(lines[1..]);
      assert forall j :: 0 <= j < |lines| - 1 ==> lines[1..][j] == lines[j + 1];
    }
  }

  lemma {:induction false} CollectedOneExactly(lines: seq<string>, p: ReadPoint)
    ensures Collect(lines) == [p] <==> OneParses(lines, p)
  {
    hide ParseLine;
    if lines != [] {
      var rest := lines[1..];
      if ParseLine(lines[0]).Parsed? {
        FirstParses(lines, p);
      } else {
        CollectedOneExactly(rest, p);
        assert Collect(lines) == Collect(rest);
        hide Collect;
        FirstDoesNotParse(lines, p);
      }
    }
  }

  lemma FirstParses(lines: seq<string>, p: ReadPoint)
    requires lines != [] && ParseLine(lines[0]).Parsed?
    ensures Collect(lines) == [p] <==> OneParses(lines, p)
  {
    hide ParseLine;
    var rest, q, more := lines[1..], ParseLine(lines[0]).point, Collect(lines[1..]);
    CollectedNone(rest);
    assert Collect(lines) == [q] + more;
    hide Collect;
    assert forall j :: 0 <= j < |rest| ==> rest[j] == lines[j + 1];
    if q == p && more == [] {
      assert forall j :: 0 < j < |lines| ==> lines[j] == rest[j - 1];
      assert OnlyParsed(lines, 0, p);
    } else {
      assert ([q] + more)[0] == q && |[q] + more| == 1 + |more|;
      forall i
        ensures !OnlyParsed(lines, i, p)
      {
        if i == 0 && more != [] {
          var j :| 0 <= j < |rest| && ParseLine(rest[j]).Parsed?;
          assert ParseLine(lines[j + 1]).Parsed?;
        }
      }
    }
  }

  lemma FirstDoesNotParse(lines: seq<string>, p: ReadPoint)
    requires lines != [] && !ParseLine(lines[0]).Parsed?
    ensures OneParses(lines, p) <==> OneParses(lines[1..], p)
  {
    hide ParseLine;
    var rest := lines[1..];
    assert forall j :: 0 < j < |lines| ==> lines[j] == rest[j - 1];
    assert forall j :: 0 <= j < |rest| ==> rest[j] == lines[j + 1];
    if i :| OnlyParsed(rest, i, p) {
      assert OnlyParsed(lines, i + 1, p);
    }
    if i :| OnlyParsed(lines, i, p) {
      assert OnlyParsed(rest, i - 1, p);
    }
  }

  /** An accepted add appends exactly what the loader reads in the added text. It adds
      the parsed point alone if and only if one piece of the line, cut at its newlines,
      parses to that point and no other piece parses. */
  lemma AddAgreesExactly(text: string, line: string)
    requires Terminated(text, '\n') && ParseLine(line).Parsed?
    ensures Load(text + Line(line)) == Load(text) + Load(Line(line))
    ensures Load(text + Line(line)) == Load(text) + [ParseLine(line).point]
       <==> OneParses(Items(Line(line), '\n'), ParseLine(line).point)
    ensures '\n' !in line ==> Load(Line(line)) == [ParseLine(line).point]
  {
    hide ParseLine;
    LoadAppend(text, Line(line));
    CollectedOneExactly(Items(Line(line), '\n'), ParseLine(line).point);
    var before, more, p := Load(text), Load(Line(line)), ParseLine(line).point;
    assert more == [p] <==> OneParses(Items(Line(line), '\n'), p);
    hide Load, OneParses, Line;
    assert (before + more)[|before|..] == more;
    assert (before + [p])[|before|..] == [p];
    if '\n' !in line {
      LoadLine(line);
    }
  }

  /** No point of one list has the key of a point of the other. */
  ghost predicate NoSharedKey(a: seq<ReadPoint>, b: seq<ReadPoint>) {
    forall e, n :: e in a && n in b ==> KeyOf(e) != KeyOf(n)
  }

  lemma DistinctAppend(a: seq<ReadPoint>, b: seq<ReadPoint>)
    ensures DistinctKeys(a + b) <==> DistinctKeys(a) && DistinctKeys(b) && NoSharedKey(a, b)
  {
    hide KeyOf;
    var all := a + b;
    assert forall i :: 0 <= i < |a| ==> all[i] == a[i];
    assert forall j :: 0 <= j < |b| ==> all[|a| + j] == b[j];
    if DistinctKeys(all) {
      forall i, j | 0 <= i < j < |b|
        ensures KeyOf(b[i]) != KeyOf(b[j])
      {
        assert KeyOf(all[|a| + i]) != KeyOf(all[|a| + j]);
      }
      forall e, n | e in a && n in b
        ensures KeyOf(e) != KeyOf(n)
      {
        var i :| 0 <= i < |a| && a[i] == e;
        var j :| 0 <= j < |b| && b[j] == n;
        assert KeyOf(all[i]) != KeyOf(all[|a| + j]);
      }
    }
  }

  /** Keys stay unique under an accepted add if and only if the points read in the added
      text have distinct keys, none of which the file had. */
  lemma AddStaysDistinctExactly(header: Header, text: string, line: string)
    requires Terminated(text, '\n') && DistinctKeys(Load(text))
    requires AddVerdict(Load(text), line, true) == Added
    ensures DistinctKeys(Load(Apply(header, text, Add(line, true))))
       <==> DistinctKeys(Load(Line(line))) && NoSharedKey(Load(text), Load(Line(line)))
  {
    AddAgreesExactly(text, line);
    hide Load, ParseLine, AddVerdict, OneParses, DistinctKeys, NoSharedKey;
    DistinctAppend(Load(text), Load(Line(line)));
  }

  /** Which conflict the scan reports: the first existing point that is the same or has
      the key decides. */
  ghost predicate IsFirstConflict(existing: seq<ReadPoint>, p: ReadPoint, i: int) {
    && 0 <= i < |existing| && (SamePoint(existing[i], p) || KeyOf(existing[i]) == KeyOf(p))
    && forall j :: 0 <= j < i ==> !SamePoint(existing[j], p) && KeyOf(existing[j]) != KeyOf(p)
  }

  lemma {:induction false} VerdictExactly(existing: seq<ReadPoint>, p: ReadPoint)
    ensures forall i :: IsFirstConflict(existing, p, i) ==>
                          Verdict(existing, p) == if SamePoint(existing[i], p) then AlreadyThere else KeyTaken
    ensures Verdict(existing, p) == Added || exists i :: IsFirstConflict(existing, p, i)
  {
    hide SamePoint, KeyOf;
    if existing != [] {
      var first, rest := existing[0], existing[1..];
      VerdictExactly(rest, p);
      if SamePoint(first, p) || KeyOf(first) == KeyOf(p) {
        assert IsFirstConflict(existing, p, 0);
      } else {
        assert forall j :: 0 <= j < |rest| ==> rest[j] == existing[j + 1];
        forall i | IsFirstConflict(existing, p, i)
          ensures IsFirstConflict(rest, p, i - 1)
        {
        }
        if i :| IsFirstConflict(rest, p, i) {
          assert forall j :: 0 < j < |existing| ==> existing[j] == rest[j - 1];
          assert IsFirstConflict(existing, p, i + 1);
        }
      }
    }
  }

  /** An add: a line that reads as a point with a free key is appended to the text, when
      the file opens; anything else leaves the text alone and says why. */
  lemma AddExactly(header: Header, text: string, line: string, opens: bool)
    ensures var r, after := AddVerdict(Load(text), line, opens), Apply(header, text, Add(line, opens));
            var free := ParseLine(line).Parsed? && forall e :: e in Load(text) ==> KeyOf(e) != KeyOf(ParseLine(line).point);
            && after == (if free && opens then text + line + "\n" else text)
            && (r == Added <==> free && opens) && (r == CannotOpen <==> free && !opens)
            && (r == BadLine(ParseLine(line)) <==> !ParseLine(line).Parsed?)
  {
    hide ParseLine, Load;
    if ParseLine(line).Parsed? {
      VerdictAdded(Load(text), ParseLine(line).point);
      VerdictExactly(Load(text), ParseLine(line).point);
      hide Verdict;
    }
    assert text + Line(line) == text + line + "\n";
  }

  /** A delete: the list loses exactly the point at the index, the others keep their
      order; a position past the end or a file that does not open changes nothing. */
  lemma RemoveExactly(header: Header, text: string, index: nat, opens: bool)
    ensures var points, after := Load(text), Apply(header, text, Remove(index, opens));
            if index < |points| && opens then
              && |Load(after)| == |points| - 1
              && (forall k :: 0 <= k < index ==> Load(after)[k] == points[k])
              && (forall k :: index <= k < |points| - 1 ==> Load(after)[k] == points[k + 1])
            else after == text
  {
    hide Load, Save;
    if index < |Load(text)| && opens {
      LoadedIsCanonical(text);
      LoadOfSave(header, Without(Load(text), index));
    }
  }

  /** A clear: no point is left, and the text is the header; a file that does not open
      stays. */
  lemma ClearExactly(header: Header, text: string, opens: bool)
    ensures var after := Apply(header, text, Clear(opens));
            if opens then after == header && Load(after) == [] else after == text
  {
    hide Load;
    LoadOfSave(header, []);
    assert Save(header, []) == header;
  }

  lemma DistinctAfter(points: seq<ReadPoint>, r: Request)
    requires DistinctKeys(points)
    ensures DistinctKeys(ApplyList(points, r))
  {
    hide ParseLine;
    if r.Add? && ParseLine(r.line).Parsed? {
      VerdictAdded(points, ParseLine(r.line).point);
      hide Verdict;
    }
  }

  lemma ApplyAgrees(header: Header, text: string, points: seq<ReadPoint>, r: Request)
    requires Mirrors(text, points) && OneLine(r)
    ensures Mirrors(Apply(header, text, r), ApplyList(points, r))
  {
    hide ParseLine, Load, Save, Verdict;
    DistinctAfter(points, r);
    match r
    case Add(line, opens) =>
      if AddVerdict(points, line, opens) == Added {
        AddAgreesExactly(text, line);
      }
    case Remove(i, opens) =>
      if i < |points| {
        var rest := Without(points, i);
        LoadedIsCanonical(text);
        LoadOfSave(header, rest);
        SaveTerminated(header, rest);
      }
    case Clear(opens) =>
      LoadOfSave(header, []);
      SaveTerminated(header, []);
  }

  // -------------------------------------------------- every run of requests

  /** Over every run of accepted or refused requests the file keeps standing for
      the list machine's list. */
  lemma {:induction false} RunAgrees(header: Header, text: string, points: seq<ReadPoint>, requests: seq<Request>)
    requires Mirrors(text, points)
    requires forall r :: r in requests ==> OneLine(r)
    ensures Mirrors(Run(header, text, requests), RunList(points, requests))
    decreases |requests|
  {
    hide Apply, ApplyList, Mirrors;
    if requests != [] {
      assert requests[0] in requests;
      ApplyAgrees(header, text, points, requests[0]);
      RunAgrees(header, Apply(header, text, requests[0]), ApplyList(points, requests[0]), requests[1..]);
    }
  }

  /** The same from the file the program itself creates. */
  lemma RunFromCreated(header: Header, requests: seq<Request>)
    requires forall r :: r in requests ==> OneLine(r)
    ensures Mirrors(Run(header, Save(header, []), requests), RunList([], requests))
  {
    hide Load, Save;
    LoadOfSave(header, []);
    SaveTerminated(header, []);
    RunAgrees(header, Save(header, []), [], requests);
  }

  // -------------------------------------------------- every run, whatever the lines

  /** A request on a list when an accepted add appends every point its text reads as. */
  function ApplyRead(points: seq<ReadPoint>, r: Request): seq<ReadPoint> {
    if r.Add? then (if AddVerdict(points, r.line, r.opens) == Added then points + Load(Line(r.line)) else points)
    else ApplyList(points, r)
  }

  function RunRead(points: seq<ReadPoint>, requests: seq<Request>): seq<ReadPoint>
    decreases |requests|
  {
    if requests == [] then points else RunRead(ApplyRead(points, requests[0]), requests[1..])
  }

  lemma ApplyReads(header: Header, text: string, r: Request)
    requires Terminated(text, '\n')
    ensures Terminated(Apply(header, text, r), '\n')
    ensures Load(Apply(header, text, r)) == ApplyRead(Load(text), r)
  {
    hide ParseLine, Load, Save, Verdict;
    var points := Load(text);
    match r
    case Add(line, opens) =>
      if AddVerdict(points, line, opens) == Added {
        AddAgreesExactly(text, line);
      }
    case Remove(i, opens) =>
      if i < |points| {
        LoadedIsCanonical(text);
        LoadOfSave(header, Without(points, i));
        SaveTerminated(header, Without(points, i));
      }
    case Clear(opens) =>
      LoadOfSave(header, []);
      SaveTerminated(header, []);
  }

  /** Over every run of requests, with any lines at all, the file loads as the list on
      which an accepted add appends every point its text reads as. */
  lemma {:induction false} RunReads(header: Header, text: string, requests: seq<Request>)
    requires Terminated(text, '\n')
    ensures Terminated(Run(header, text, requests), '\n')
    ensures Load(Run(header, text, requests)) == RunRead(Load(text), requests)
    decreases |requests|
  {
    hide Apply, ApplyRead, Load, Terminated;
    if requests != [] {
      ApplyReads(header, text, requests[0]);
      RunReads(header, Apply(header, text, requests[0]), requests[1..]);
    }
  }

  // -------------------------------------------------- what a newline in a line does

  /** Two field lists joined at a seam: the last field of one and the first of the
      other become one field. */
  function Glue(a: seq<string>, x: string, b: seq<string>): (r: seq<string>)
    requires a != [] && b != []
    ensures |r| == |a| + |b| - 1
    ensures r[..|a| - 1] == a[..|a| - 1] && r[|a|..] == b[1..] && r[|a| - 1] == a[|a| - 1] + x + b[0]
  {
    if |a| == 1 then [a[0] + x + b[0]] + b[1..] else [a[0]] + Glue(a[1..], x, b)
  }

  lemma JoinMore(first: string, others: seq<string>)
    ensures Join([first] + others) == if others == [] then first else first + ";" + Join(others)
  {
    assert ([first] + others)[1..] == others;
  }

  lemma {:induction false} JoinGlue(a: seq<string>, x: string, b: seq<string>)
    requires a != [] && b != []
    ensures Join(a) + x + Join(b) == Join(Glue(a, x, b))
  {
    hide Join;
    JoinMore(a[0], a[1..]);
    assert a == [a[0]] + a[1..];
    if |a| == 1 {
      GlueOne(a[0] + x, b);
    } else {
      var rest := Join(a[1..]);
      JoinGlue(a[1..], x, b);
      JoinMore(a[0], Glue(a[1..], x, b));
      assert a[0] + ";" + rest + x + Join(b) == a[0] + ";" + (rest + x + Join(b));
    }
  }

  lemma GlueOne(front: string, b: seq<string>)
    requires b != []
    ensures front + Join(b) == Join([front + b[0]] + b[1..])
  {
  }

  lemma StoiIgnoresTail(n: uint16, rest: string)
    requires rest == "" || !IsDigit(rest[0])
    ensures Stoi(PrintInt(n) + rest) == Some(n)
  {
    var digits := PrintNat(n);
    DigitRunStops(digits, rest);
    DigitsValuePrint(n);
    assert IsDigit((digits + rest)[0]) by {
      assert digits[0] in digits;
    }
  }

  /** The line two printed points make when a newline sits between them. */
  function Spliced(p: ReadPoint, q: ReadPoint): string {
    PrintLine(p) + "\n" + PrintLine(q)
  }

  function SplicedFields(p: ReadPoint, q: ReadPoint): seq<string> {
    PrintedFields(p)[..7] + [PrintInt(p.dnp3Index) + "\n" + q.description] + PrintedFields(q)[1..]
  }

  lemma SplicedShape(p: ReadPoint, q: ReadPoint)
    requires Canonical(p) && Canonical(q)
    ensures Trimmed(Spliced(p, q)) && Spliced(p, q) != "" && Spliced(p, q)[0] != '#'
  {
    PrintedLineShape(p);
    PrintedLineShape(q);
    hide PrintLine;
  }

  lemma SplicedSeam(p: ReadPoint, q: ReadPoint)
    ensures var a, b := PrintedFields(p), PrintedFields(q);
            |a| == 8 && |b| == 8 && b[7] == PrintInt(q.dnp3Index) && SplicedFields(p, q) == Glue(a, "\n", b)
  {
    var a, b := PrintedFields(p), PrintedFields(q);
    assert a[7] == PrintInt(p.dnp3Index) && b[0] == q.description;
    hide PrintInt, RegisterKindName, DataTypeName, PrintedFields, Glue;
    assert Glue(a, "\n", b) == a[..7] + [a[7] + "\n" + b[0]] + b[1..];
  }

  lemma SplicedItems(p: ReadPoint, q: ReadPoint)
    requires Canonical(p) && Canonical(q)
    ensures Items(Spliced(p, q), ';') == SplicedFields(p, q)
  {
    PrintedFieldsClean(p);
    PrintedFieldsClean(q);
    PrintIntClean(q.dnp3Index);
    SplicedSeam(p, q);
    hide PrintInt, PrintedFields, SplicedFields, Canonical, Items, Glue, Join, CleanField;
    GluedItems(PrintedFields(p), PrintedFields(q));
  }

  lemma GluedItems(a: seq<string>, b: seq<string>)
    requires |a| == 8 && |b| == 8 && b[7] != ""
    requires forall f :: f in a || f in b ==> CleanField(f)
    ensures Items(Join(a) + "\n" + Join(b), ';') == Glue(a, "\n", b)
  {
    hide Items, Join, Glue, CleanField;
    var joined := Glue(a, "\n", b);
    JoinGlue(a, "\n", b);
    GluedFieldsFree(a, b);
    assert joined == a[..7] + [a[7] + "\n" + b[0]] + b[1..];
    assert joined[|joined| - 1] == b[7];
    SplitOfJoin(joined);
  }

  lemma GluedFieldsFree(a: seq<string>, b: seq<string>)
    requires |a| == 8 && |b| == 8
    requires forall f :: f in a || f in b ==> CleanField(f)
    ensures forall f :: f in a[..7] + [a[7] + "\n" + b[0]] + b[1..] ==> ';' !in f
  {
    var middle := a[7] + "\n" + b[0];
    assert ';' !in middle by {
      assert a[7] in a && b[0] in b;
    }
    forall f | f in a[..7] + [middle] + b[1..]
      ensures ';' !in f
    {
      assert f in a || f in b || f == middle;
    }
  }

  lemma SplicedLastField(p: ReadPoint, q: ReadPoint)
    requires Trimmed(q.description)
    ensures Stoi(TrimCopy(PrintInt(p.dnp3Index) + "\n" + q.description)) == Some(p.dnp3Index as int32)
  {
    PrintIntClean(p.dnp3Index);
    TrimGlued(PrintInt(p.dnp3Index), q.description);
    StoiPrint(p.dnp3Index);
    if q.description != "" {
      StoiIgnoresTail(p.dnp3Index, "\n" + q.description);
    }
  }

  lemma FirstEightDecide(parts: seq<string>, more: seq<string>)
    requires |parts| >= 8 && |more| >= 8
    requires forall i :: 0 <= i < 7 ==> parts[i] == more[i]
    requires Stoi(parts[7]) == Stoi(more[7])
    ensures ParseFields(parts) == ParseFields(more)
  {
  }

  lemma SplicedParses(p: ReadPoint, q: ReadPoint)
    requires Canonical(p) && Canonical(q)
    ensures ParseLine(Spliced(p, q)) == Parsed(p)
  {
    SplicedItems(p, q);
    SplicedShape(p, q);
    SplicedLastField(p, q);
    PrintedFieldsClean(p);
    ParseFieldsOfPrinted(p);
    StoiPrint(p.dnp3Index);
    var fields, parts := PrintedFields(p), TrimAll(SplicedFields(p, q));
    assert fields[7] == PrintInt(p.dnp3Index);
    hide PrintedFields, ParseFields, PrintInt, Stoi, Canonical, Spliced;
    assert forall i :: 0 <= i < 7 ==> parts[i] == fields[i] by {
      assert forall i :: 0 <= i < 7 ==> fields[i] in fields;
    }
    FirstEightDecide(parts, fields);
  }

  lemma TrimGlued(a: string, b: string)
    requires a != "" && Trimmed(a) && Trimmed(b)
    ensures TrimCopy(a + "\n" + b) == if b == "" then a else a + ("\n" + b)
  {
    if b == "" {
      assert (a + "\n" + b)[..|a|] == a;
    } else {
      assert a + "\n" + b == a + ("\n" + b);
    }
  }

  /** An added line with a newline in it is accepted as one point and read back as
      two: here any two points with the same DNP3 key end up in the file together. */
  lemma NewlineBreaksUniqueness(header: Header, p: ReadPoint, q: ReadPoint)
    requires Canonical(p) && Canonical(q) && KeyOf(p) == KeyOf(q)
    ensures var after := Apply(header, Save(header, []), Add(Spliced(p, q), true));
            Load(after) == [p, q] && !DistinctKeys(Load(after))
  {
    hide ParseLine, Spliced, Load, Save, Canonical, Terminated;
    var line := Spliced(p, q);
    SplicedParses(p, q);
    LoadOfSave(header, []);
    SaveTerminated(header, []);
    SplicedLoads(p, q);
    AddAgreesExactly(Save(header, []), line);
    assert Load(Line(line)) == [p, q] && Load(Save(header, [])) == [];
    assert Apply(header, Save(header, []), Add(line, true)) == Save(header, []) + Line(line);
    assert [] + [p, q] == [p, q];
    assert KeyOf([p, q][0]) == KeyOf([p, q][1]);
  }

  lemma SplicedLoads(p: ReadPoint, q: ReadPoint)
    requires Canonical(p) && Canonical(q)
    ensures Load(Line(Spliced(p, q))) == [p, q]
  {
    hide ParseLine, PrintLine, Load, Canonical;
    ParseOfPrint(p);
    ParseOfPrint(q);
    LoadLine(PrintLine(p));
    LoadLine(PrintLine(q));
    LoadAppend(Line(PrintLine(p)), Line(PrintLine(q)));
    assert Line(Spliced(p, q)) == Line(PrintLine(p)) + Line(PrintLine(q));
    assert [p] + [q] == [p, q];
  }

  // -------------------------------------------------- the file, edited in place

  method ScanExisting(existing: seq<ReadPoint>, p: ReadPoint) returns (r: AddResult)
    ensures r == Verdict(existing, p)
  {
    for i := 0 to |existing|
      invariant Verdict(existing[i..], p) == Verdict(existing, p)
    {
      if SamePoint(existing[i], p) {
        return AlreadyThere;
      }
      if KeyOf(existing[i]) == KeyOf(p) {
        return KeyTaken;
      }
    }
    r := Added;
  }

  class ConfigFile {
    const header: Header
    var text: string

    constructor (header: Header)
      ensures this.header == header && text == Save(header, [])
    {
      this.header := header;
      text := Save(header, []);
    }

    method AppendPoint(line: string, opens: bool) returns (r: AddResult)
      modifies this
      ensures r == AddVerdict(old(Load(text)), line, opens)
      ensures text == Apply(header, old(text), Add(line, opens))
      ensures text == if r == Added then old(text) + line + "\n" else old(text)
    {
      AddExactly(header, text, line, opens);
      hide ParseLine, Load;
      var parsed := TryBuildReadPointFromCsvLine(line);
      if !parsed.Parsed? {
        return BadLine(parsed);
      }
      var existing := LoadConfiguredPoints(text);
      r := ScanExisting(existing, parsed.point);
      if r == Added {
        if opens {
          text := text + Line(line);
        } else {
          r := CannotOpen;
        }
      }
    }

    method RemovePoint(index: nat, opens: bool) returns (ok: bool)
      modifies this
      ensures ok == (index < |old(Load(text))| && opens)
      ensures text == Apply(header, old(text), Remove(index, opens))
      ensures ok ==> |Load(text)| == |old(Load(text))| - 1
      ensures ok ==> forall k :: 0 <= k < index ==> Load(text)[k] == old(Load(text))[k]
      ensures ok ==> forall k :: index <= k < |Load(text)| ==> Load(text)[k] == old(Load(text))[k + 1]
      ensures !ok ==> text == old(text)
    {
      RemoveExactly(header, text, index, opens);
      hide Load, Save;
      var points := LoadConfiguredPoints(text);
      if index >= |points| {
        return false;
      }
      var kept: seq<ReadPoint> := [];
      for i := 0 to |points|
        invariant kept == if i <= index then points[..i] else points[..index] + points[index + 1..i]
      {
        if i != index {
          kept := kept + [points[i]];
        }
      }
      assert kept == Without(points, index);
      if opens {
        text := SaveReadPoints(header, kept);
      }
      ok := opens;
    }

    method ClearPoints(opens: bool) returns (ok: bool)
      modifies this
      ensures ok == opens && text == Apply(header, old(text), Clear(opens))
      ensures if ok then Load(text) == [] else text == old(text)
    {
      ClearExactly(header, text, opens);
      hide Save;
      if opens {
        text := SaveReadPoints(header, []);
      }
      ok := opens;
    }
  }
}
