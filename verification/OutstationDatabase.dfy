/** The outstation's database layout, built from the points (Dnp3.cpp). */
module OutstationDatabase {
  import opened PointTypes

  datatype AnalogVariation = Group30Var1 | Group30Var2 | Group30Var5
  datatype PointClass = Class1
  datatype AnalogConfig = AnalogConfig(clazz: PointClass, svariation: AnalogVariation)
  datatype BinaryConfig = BinaryConfig(clazz: PointClass, group1: int, group2: int)
  datatype OutputStatusConfig = OutputStatusConfig(clazz: PointClass, sgroup: int, svariation: int, egroup: int, evariation: int)

  datatype DatabaseConfig = DatabaseConfig(
    analogInput: map<uint16, AnalogConfig>,
    analogOutputStatus: map<uint16, OutputStatusConfig>,
    binaryInput: map<uint16, BinaryConfig>,
    binaryOutputStatus: map<uint16, OutputStatusConfig>)

  const BINARY := BinaryConfig(Class1, 2, 2)
  const ANALOG_STATUS := OutputStatusConfig(Class1, 40, 1, 42, 1)
  const BINARY_STATUS := OutputStatusConfig(Class1, 10, 2, 11, 2)

  function VariationOf(t: ReadValueType): AnalogVariation {
    match t
    case HoldingFloat32 | InputFloat32 => Group30Var5
    case HoldingInt16 | InputInt16 | HoldingUInt16 | InputUInt16 => Group30Var2
    case _ => Group30Var1
  }

  predicate AnalogAt(p: ReadPoint, index: uint16) {
    !IsDiscrete(p.kind) && p.dnp3Index == index
  }

  // ---------------------------------------------------------- specification

  predicate Uses(points: seq<ReadPoint>, binary: bool) {
    exists p :: p in points && IsDiscrete(p.kind) == binary
  }

  /** The largest index of a kind, 0 when the kind is not used. */
  function MaxIndex(points: seq<ReadPoint>, binary: bool): (m: uint16)
    ensures forall p :: p in points && IsDiscrete(p.kind) == binary ==> p.dnp3Index <= m
    ensures Uses(points, binary) ==> exists p :: p in points && IsDiscrete(p.kind) == binary && p.dnp3Index == m
    ensures !Uses(points, binary) ==> m == 0
  {
    if points == [] then 0
    else
      var front, last := points[..|points| - 1], points[|points| - 1];
      var m := MaxIndex(front, binary);
      assert forall p :: p in points <==> p in front || p == last;
      if IsDiscrete(last.kind) == binary && last.dnp3Index > m then last.dnp3Index else m
  }

  /** The variation of the last analog point at an index; gaps get Group30Var1. */
  function VariationAt(points: seq<ReadPoint>, index: uint16): AnalogVariation {
    if points == [] then Group30Var1
    else
      var last := points[|points| - 1];
      if AnalogAt(last, index) then VariationOf(last.kind) else VariationAt(points[..|points| - 1], index)
  }

  function Dense<T>(used: bool, max: uint16, entry: uint16 -> T): map<uint16, T> {
    if used then map i: uint16 | 0 <= i <= max :: entry(i) else map[]
  }

  function AnalogInputs(points: seq<ReadPoint>, used: bool, max: uint16): map<uint16, AnalogConfig> {
    Dense(used, max, i => AnalogConfig(Class1, VariationAt(points, i)))
  }

  function DatabaseOf(points: seq<ReadPoint>): DatabaseConfig {
    var analog, binary := Uses(points, false), Uses(points, true);
    var maxAnalog, maxBinary := MaxIndex(points, false), MaxIndex(points, true);
    DatabaseConfig(
      AnalogInputs(points, analog, maxAnalog),
      Dense(analog, maxAnalog, i => ANALOG_STATUS),
      Dense(binary, maxBinary, i => BINARY),
      Dense(binary, maxBinary, i => BINARY_STATUS))
  }

  // ---------------------------------------------------------- properties

  /** The 16-bit loop counter after n increments from 0. */
  function Counter(n: nat): uint16 {
    n % 0x1_0000
  }

  /** The filling loop ends exactly when the largest index is below 65535; at 65535
      the counter wraps and never passes it. */
  lemma FillLoopEndsExactly(max: uint16)
    ensures (exists n: nat :: Counter(n) > max) <==> max < 0xFFFF
  {
    if max < 0xFFFF {
      assert Counter(max + 1) > max;
    }
  }

  /** The inputs and output statuses of a kind cover exactly the indices from 0 up to
      the index of some point of the kind. */
  lemma LayoutCoversExactly(points: seq<ReadPoint>)
    ensures var d := DatabaseOf(points);
            && (forall i: uint16 :: i in d.analogInput <==> Reaches(points, false, i))
            && (forall i: uint16 :: i in d.binaryInput <==> Reaches(points, true, i))
            && d.analogOutputStatus.Keys == d.analogInput.Keys && d.binaryOutputStatus.Keys == d.binaryInput.Keys
  {
  }

  ghost predicate Reaches(points: seq<ReadPoint>, binary: bool, index: uint16) {
    exists p :: p in points && IsDiscrete(p.kind) == binary && index <= p.dnp3Index
  }

  /** The variation fits the value: the float one for floats, the 16-bit one for a point of
      one register, the 32-bit one for an integer of two. */
  lemma VariationFits(t: ReadValueType)
    requires !IsDiscrete(t)
    ensures VariationOf(t) == Group30Var5 <==> t.HoldingFloat32? || t.InputFloat32?
    ensures VariationOf(t) == Group30Var2 <==> RegisterCount(t) == 1
  {
  }

  /** Every entry is of class 1 and of the fixed groups: binaries 1/2 and 2/2, analog
      statuses 40/1 and 42/1, binary statuses 10/2 and 11/2. */
  lemma LayoutValues(points: seq<ReadPoint>, i: uint16)
    ensures var d := DatabaseOf(points);
            && (i in d.analogInput ==> d.analogInput[i].clazz == Class1)
            && (i in d.analogOutputStatus ==> d.analogOutputStatus[i] == OutputStatusConfig(Class1, 40, 1, 42, 1))
            && (i in d.binaryInput ==> d.binaryInput[i] == BinaryConfig(Class1, 2, 2))
            && (i in d.binaryOutputStatus ==> d.binaryOutputStatus[i] == OutputStatusConfig(Class1, 10, 2, 11, 2))
  {
    hide Uses, MaxIndex, VariationAt;
  }

  /** The last analog point at an index decides its variation. */
  lemma LastPointDecides(points: seq<ReadPoint>, k: nat)
    requires k < |points| && !IsDiscrete(points[k].kind)
    requires forall j :: k < j < |points| ==> !AnalogAt(points[j], points[k].dnp3Index)
    ensures points[k].dnp3Index in DatabaseOf(points).analogInput
    ensures DatabaseOf(points).analogInput[points[k].dnp3Index] == AnalogConfig(Class1, VariationOf(points[k].kind))
  {
    EveryPointHasItsEntry(points, points[k]);
    VariationIsLast(points, k);
    hide Uses, MaxIndex, VariationAt, VariationOf;
  }

  lemma {:induction false} VariationIsLast(points: seq<ReadPoint>, k: nat)
    requires k < |points| && !IsDiscrete(points[k].kind)
    requires forall j :: k < j < |points| ==> !AnalogAt(points[j], points[k].dnp3Index)
    ensures VariationAt(points, points[k].dnp3Index) == VariationOf(points[k].kind)
  {
    if k < |points| - 1 {
      VariationIsLast(points[..|points| - 1], k);
    }
  }

  /** Every point has its entry, so no published value is for a missing index. */
  lemma EveryPointHasItsEntry(points: seq<ReadPoint>, p: ReadPoint)
    requires p in points
    ensures if IsDiscrete(p.kind)
            then p.dnp3Index in DatabaseOf(points).binaryInput && p.dnp3Index in DatabaseOf(points).binaryOutputStatus
            else p.dnp3Index in DatabaseOf(points).analogInput && p.dnp3Index in DatabaseOf(points).analogOutputStatus
  {
  }

  /** No two analog points at one index ask for different variations. */
  ghost predicate Consistent(points: seq<ReadPoint>) {
    forall p, q :: p in points && q in points && !IsDiscrete(p.kind) && AnalogAt(q, p.dnp3Index) ==>
                     VariationOf(p.kind) == VariationOf(q.kind)
  }

  lemma DistinctIsConsistent(points: seq<ReadPoint>)
    requires DistinctKeys(points)
    ensures Consistent(points)
  {
  }

  lemma {:induction false} VariationOfSome(points: seq<ReadPoint>, index: uint16)
    ensures (forall p :: p in points ==> !AnalogAt(p, index)) ==> VariationAt(points, index) == Group30Var1
    ensures (exists p :: p in points && AnalogAt(p, index)) ==>
              exists p :: p in points && AnalogAt(p, index) && VariationAt(points, index) == VariationOf(p.kind)
  {
    if points != [] {
      var front, last := points[..|points| - 1], points[|points| - 1];
      VariationOfSome(front, index);
      assert last in points && forall p :: p in points <==> p in front || p == last;
    }
  }

  lemma SameVariations(points: seq<ReadPoint>, others: seq<ReadPoint>, index: uint16)
    requires multiset(points) == multiset(others) && Consistent(points)
    ensures VariationAt(points, index) == VariationAt(others, index)
  {
    SameMembers(points, others);
    VariationOfSome(points, index);
    VariationOfSome(others, index);
    hide VariationAt, VariationOf;
    if p :| p in points && AnalogAt(p, index) {
      assert p in others;
    }
  }

  lemma SameMembers(points: seq<ReadPoint>, others: seq<ReadPoint>)
    requires multiset(points) == multiset(others)
    ensures forall p :: p in points <==> p in others
  {
    assert forall p :: p in points <==> p in multiset(points);
    assert forall p :: p in others <==> p in multiset(others);
  }

  lemma SameDatabase(points: seq<ReadPoint>, others: seq<ReadPoint>)
    requires multiset(points) == multiset(others) && Consistent(points)
    ensures DatabaseOf(points) == DatabaseOf(others)
  {
    SameMembers(points, others);
    forall binary
      ensures Uses(points, binary) == Uses(others, binary) && MaxIndex(points, binary) == MaxIndex(others, binary)
    {
      SameExtent(points, others, binary);
    }
    forall i: uint16
      ensures VariationAt(points, i) == VariationAt(others, i)
    {
      SameVariations(points, others, i);
    }
    hide Uses, MaxIndex, VariationAt;
    assert DatabaseOf(points).analogInput == DatabaseOf(others).analogInput;
  }

  lemma SameExtent(points: seq<ReadPoint>, others: seq<ReadPoint>, binary: bool)
    requires forall p :: p in points <==> p in others
    ensures Uses(points, binary) == Uses(others, binary) && MaxIndex(points, binary) == MaxIndex(others, binary)
  {
  }

  /** The points with one moved to the end. */
  function MovedLast(points: seq<ReadPoint>, i: nat): (r: seq<ReadPoint>)
    requires i < |points|
    ensures multiset(r) == multiset(points)
    ensures VariationAt(r, points[i].dnp3Index) == VariationOf(points[i].kind) || IsDiscrete(points[i].kind)
  {
    assert points == points[..i] + [points[i]] + points[i + 1..];
    points[..i] + points[i + 1..] + [points[i]]
  }

  /** The layout is the same for every order of the points if and only if no two
      analog points at one index ask for different variations. */
  lemma OrderIrrelevantExactly(points: seq<ReadPoint>)
    ensures (forall others :: multiset(others) == multiset(points) ==> DatabaseOf(others) == DatabaseOf(points))
       <==> Consistent(points)
  {
    if Consistent(points) {
      forall others | multiset(others) == multiset(points)
        ensures DatabaseOf(others) == DatabaseOf(points)
      {
        SameDatabase(points, others);
      }
    } else {
      var p, q :| p in points && q in points && !IsDiscrete(p.kind) && AnalogAt(q, p.dnp3Index)
        && VariationOf(p.kind) != VariationOf(q.kind);
      var i :| 0 <= i < |points| && points[i] == p;
      var j :| 0 <= j < |points| && points[j] == q;
      OrdersDiffer(points, i, j);
    }
  }

  lemma OrdersDiffer(points: seq<ReadPoint>, i: nat, j: nat)
    requires i < |points| && j < |points|
    requires !IsDiscrete(points[i].kind) && AnalogAt(points[j], points[i].dnp3Index)
    requires VariationOf(points[i].kind) != VariationOf(points[j].kind)
    ensures DatabaseOf(MovedLast(points, i)) != DatabaseOf(MovedLast(points, j))
  {
    var a, b, index := MovedLast(points, i), MovedLast(points, j), points[i].dnp3Index;
    assert a[|a| - 1] == points[i] && points[i] in a;
    assert b[|b| - 1] == points[j] && points[j] in b;
    hide VariationAt, VariationOf, MovedLast;
    EveryPointHasItsEntry(a, points[i]);
    EveryPointHasItsEntry(b, points[j]);
    assert DatabaseOf(a).analogInput[index].svariation == VariationAt(a, index);
    assert DatabaseOf(b).analogInput[index].svariation == VariationAt(b, index);
  }

  // ---------------------------------------------------------- the loops

  method FindExtents(points: seq<ReadPoint>)
    returns (hasAnalog: bool, maxAnalog: uint16, hasBinary: bool, maxBinary: uint16)
    ensures hasAnalog == Uses(points, false) && hasBinary == Uses(points, true)
    ensures maxAnalog == MaxIndex(points, false) && maxBinary == MaxIndex(points, true)
  {
    hasAnalog, maxAnalog, hasBinary, maxBinary := false, 0, false, 0;
    for k := 0 to |points|
      invariant hasAnalog == Uses(points[..k], false) && hasBinary == Uses(points[..k], true)
      invariant maxAnalog == MaxIndex(points[..k], false) && maxBinary == MaxIndex(points[..k], true)
    {
      ExtendByOne(points, k, false);
      ExtendByOne(points, k, true);
      hide Uses, MaxIndex;
      var p := points[k];
      if IsDiscrete(p.kind) {
        maxBinary := if p.dnp3Index > maxBinary then p.dnp3Index else maxBinary;
        hasBinary := true;
      } else {
        maxAnalog := if p.dnp3Index > maxAnalog then p.dnp3Index else maxAnalog;
        hasAnalog := true;
      }
    }
    assert points[..|points|] == points;
  }

  lemma ExtendByOne(points: seq<ReadPoint>, k: nat, binary: bool)
    requires k < |points|
    ensures var front, p := points[..k], points[k];
            && Uses(points[..k + 1], binary) == (Uses(front, binary) || IsDiscrete(p.kind) == binary)
            && MaxIndex(points[..k + 1], binary) ==
               if IsDiscrete(p.kind) == binary && p.dnp3Index > MaxIndex(front, binary) then p.dnp3Index
               else MaxIndex(front, binary)
  {
    var next := points[..k + 1];
    assert next[..k] == points[..k] && next[k] == points[k];
    assert points[k] in next && forall p :: p in next <==> p in points[..k] || p == points[k];
  }

  method FillDense<T>(max: uint16, entry: T) returns (r: map<uint16, T>)
    requires max < 0xFFFF
    ensures r == Dense(true, max, i => entry)
  {
    r := map[];
    var index: uint16 := 0;
    while index <= max
      invariant index <= max + 1
      invariant forall i: uint16 :: i in r <==> i < index
      invariant forall i: uint16 :: i in r ==> r[i] == entry
      decreases max + 1 - index
    {
      r := r[index := entry];
      index := (index + 1) % 0x1_0000;
    }
  }

  lemma AnalogStep(points: seq<ReadPoint>, k: nat, max: uint16)
    requires k < |points| && !IsDiscrete(points[k].kind) && points[k].dnp3Index <= max
    ensures AnalogInputs(points[..k + 1], true, max) ==
            AnalogInputs(points[..k], true, max)[points[k].dnp3Index := AnalogConfig(Class1, VariationOf(points[k].kind))]
  {
    assert points[..k + 1][..k] == points[..k];
    forall i: uint16 | i <= max
      ensures VariationAt(points[..k + 1], i) ==
              if i == points[k].dnp3Index then VariationOf(points[k].kind) else VariationAt(points[..k], i)
    {
    }
    hide VariationAt;
  }

  lemma BinaryStep(points: seq<ReadPoint>, k: nat, used: bool, max: uint16)
    requires k < |points| && IsDiscrete(points[k].kind)
    ensures AnalogInputs(points[..k + 1], used, max) == AnalogInputs(points[..k], used, max)
  {
    assert points[..k + 1][..k] == points[..k];
    forall i: uint16
      ensures VariationAt(points[..k + 1], i) == VariationAt(points[..k], i)
    {
    }
    hide VariationAt;
  }

  /** Every point is within its kind's extent. */
  predicate Within(points: seq<ReadPoint>, binary: bool, used: bool, max: uint16) {
    forall p :: p in points && IsDiscrete(p.kind) == binary ==> used && p.dnp3Index <= max
  }

  method SetVariations(
    points: seq<ReadPoint>, ghost hasAnalog: bool, ghost maxAnalog: uint16, ghost hasBinary: bool, ghost maxBinary: uint16,
    analogs: map<uint16, AnalogConfig>, binaries: map<uint16, BinaryConfig>)
    returns (analog: map<uint16, AnalogConfig>, binary: map<uint16, BinaryConfig>)
    requires Within(points, false, hasAnalog, maxAnalog) && Within(points, true, hasBinary, maxBinary)
    requires analogs == AnalogInputs([], hasAnalog, maxAnalog)
    requires binaries == Dense(hasBinary, maxBinary, i => BINARY)
    ensures analog == AnalogInputs(points, hasAnalog, maxAnalog)
    ensures binary == binaries
  {
    hide VariationAt, AnalogInputs;
    analog, binary := analogs, binaries;
    for k := 0 to |points|
      invariant analog == AnalogInputs(points[..k], hasAnalog, maxAnalog)
      invariant binary == binaries
    {
      var p := points[k];
      if IsDiscrete(p.kind) {
        BinaryStep(points, k, hasAnalog, maxAnalog);
        binary := binary[p.dnp3Index := BINARY];
      } else {
        AnalogStep(points, k, maxAnalog);
        analog := analog[p.dnp3Index := AnalogConfig(Class1, VariationOf(p.kind))];
      }
    }
    assert points[..|points|] == points;
  }

  /** Needs every index below 65535, without which the filling loop does not end
      (FillLoopEndsExactly). */
  method ConfigureDatabase(points: seq<ReadPoint>) returns (config: DatabaseConfig)
    requires forall p :: p in points ==> p.dnp3Index < 0xFFFF
    ensures config == DatabaseOf(points)
  {
    config := DatabaseConfig(map[], map[], map[], map[]);
    if points == [] {
      return;
    }
    var hasAnalog, maxAnalog, hasBinary, maxBinary := FindExtents(points);
    assert Within(points, false, hasAnalog, maxAnalog) && Within(points, true, hasBinary, maxBinary);
    hide Uses, MaxIndex, Within;
    if hasAnalog {
      var inputs := FillDense(maxAnalog, AnalogConfig(Class1, Group30Var1));
      var status := FillDense(maxAnalog, ANALOG_STATUS);
      config := config.(analogInput := inputs, analogOutputStatus := status);
    }
    if hasBinary {
      var inputs := FillDense(maxBinary, BINARY);
      var status := FillDense(maxBinary, BINARY_STATUS);
      config := config.(binaryInput := inputs, binaryOutputStatus := status);
    }
    var analog, binary := SetVariations(points, hasAnalog, maxAnalog, hasBinary, maxBinary,
                                        config.analogInput, config.binaryInput);
    config := config.(analogInput := analog, binaryInput := binary);
  }
}
