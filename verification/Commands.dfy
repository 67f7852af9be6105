/** The automatic command map: which device register or coil a DNP3 command index
    addresses (Config.cpp, Modbus.cpp). */
module Commands {
  import opened PointTypes

  const ANALOG_LABEL := "Comando automatico AO -> Holding Register para: "
  const BINARY_LABEL := "Comando automatico CROB -> Coil para: "

  /** Whether a point takes commands of this kind. */
  predicate Takes(p: ReadPoint, target: WriteTarget) {
    if target.HoldingRegister? then IsHolding(p.kind) else p.kind.CoilStatusBool?
  }

  function CommandOf(p: ReadPoint, target: WriteTarget): CommandPoint {
    CommandPoint(p.dnp3Index, p.ip, p.port, p.slaveId, target, p.address, p.kind,
                 (if target.HoldingRegister? then ANALOG_LABEL else BINARY_LABEL) + p.description)
  }

  function Mappings(points: seq<ReadPoint>, target: WriteTarget): seq<CommandPoint> {
    if points == [] then []
    else (if Takes(points[0], target) then [CommandOf(points[0], target)] else []) + Mappings(points[1..], target)
  }

  function Find(configs: seq<CommandPoint>, index: uint16, target: WriteTarget): Option<CommandPoint> {
    if configs == [] then None
    else if configs[0].dnp3Index == index && configs[0].target == target then Some(configs[0])
    else Find(configs[1..], index, target)
  }

  /** The first command of the list with this index and target, and there is none only when
      no command has both. */
  lemma {:induction false} FindExactly(configs: seq<CommandPoint>, index: uint16, target: WriteTarget)
    ensures Find(configs, index, target) == None <==>
            forall c :: c in configs ==> !(c.dnp3Index == index && c.target == target)
    ensures forall i :: 0 <= i < |configs| && configs[i].dnp3Index == index && configs[i].target == target
                        && (forall j :: 0 <= j < i ==> !(configs[j].dnp3Index == index && configs[j].target == target))
                        ==> Find(configs, index, target) == Some(configs[i])
  {
    if configs != [] {
      var rest := configs[1..];
      FindExactly(rest, index, target);
      assert forall c :: c in configs <==> c == configs[0] || c in rest;
      assert forall j :: 0 < j < |configs| ==> configs[j] == rest[j - 1];
    }
  }

  /** The configured point a command at this index is for: the first that takes it. */
  ghost predicate IsTarget(points: seq<ReadPoint>, k: int, index: uint16, target: WriteTarget) {
    && 0 <= k < |points|
    && Takes(points[k], target) && points[k].dnp3Index == index
    && forall j :: 0 <= j < k ==> !(Takes(points[j], target) && points[j].dnp3Index == index)
  }

  lemma FindInMappings(points: seq<ReadPoint>, index: uint16, target: WriteTarget)
    requires points != []
    ensures Find(Mappings(points, target), index, target) ==
            if Takes(points[0], target) && points[0].dnp3Index == index then Some(CommandOf(points[0], target))
            else Find(Mappings(points[1..], target), index, target)
  {
    var command, others := CommandOf(points[0], target), Mappings(points[1..], target);
    assert command.dnp3Index == points[0].dnp3Index && command.target == target;
    hide CommandOf;
    if Takes(points[0], target) {
      assert Mappings(points, target) == [command] + others;
      assert ([command] + others)[1..] == others;
    } else {
      assert Mappings(points, target) == [] + others == others;
    }
  }

  /** Lookup finds a command exactly when some point takes commands at that index,
      and then it is the command of the first such point in file order. */
  lemma {:induction false} LookupExactly(points: seq<ReadPoint>, index: uint16, target: WriteTarget)
    ensures Find(Mappings(points, target), index, target).Some?
       <==> exists p :: p in points && Takes(p, target) && p.dnp3Index == index
    ensures forall k :: IsTarget(points, k, index, target) ==>
              Find(Mappings(points, target), index, target) == Some(CommandOf(points[k], target))
  {
    if points != [] {
      var rest := points[1..];
      LookupExactly(rest, index, target);
      FindInMappings(points, index, target);
      hide Mappings, Find, CommandOf, Takes;
      assert points[0] in points && forall p :: p in points ==> p == points[0] || p in rest;
      forall k | IsTarget(points, k, index, target) && k > 0
        ensures IsTarget(rest, k - 1, index, target)
      {
        assert !(Takes(points[0], target) && points[0].dnp3Index == index);
        assert forall j :: 0 <= j < k - 1 ==> rest[j] == points[j + 1];
      }
    }
  }

  /** In the points' own terms: an analog target exists at an index exactly when a holding
      point has it, a binary one exactly when a coil has it. */
  lemma LookupByKind(points: seq<ReadPoint>, index: uint16)
    ensures Find(Mappings(points, HoldingRegister), index, HoldingRegister).Some?
       <==> exists p :: p in points && IsHolding(p.kind) && p.dnp3Index == index
    ensures Find(Mappings(points, Coil), index, Coil).Some?
       <==> exists p :: p in points && p.kind.CoilStatusBool? && p.dnp3Index == index
  {
    LookupExactly(points, index, HoldingRegister);
    LookupExactly(points, index, Coil);
    hide Find, Mappings;
  }

  /** With distinct DNP3 keys, a command at a point's own index reaches that very
      point: the same device, register or coil, and type the index publishes. */
  lemma CommandReachesPublisher(points: seq<ReadPoint>, k: int, target: WriteTarget)
    requires DistinctKeys(points) && 0 <= k < |points| && Takes(points[k], target)
    ensures Find(Mappings(points, target), points[k].dnp3Index, target) == Some(CommandOf(points[k], target))
  {
    LookupExactly(points, points[k].dnp3Index, target);
    hide Find, Mappings, CommandOf;
    forall j | 0 <= j < k
      ensures !(Takes(points[j], target) && points[j].dnp3Index == points[k].dnp3Index)
    {
      assert KeyOf(points[j]) != KeyOf(points[k]);
    }
  }

  // ------------------------------------------------------------------- loops

  method BuildAutomaticCommandMappings(points: seq<ReadPoint>)
    returns (analog: seq<CommandPoint>, binary: seq<CommandPoint>)
    ensures analog == Mappings(points, HoldingRegister) && binary == Mappings(points, Coil)
  {
    hide CommandOf;
    analog, binary := [], [];
    for i := 0 to |points|
      invariant analog + Mappings(points[i..], HoldingRegister) == Mappings(points, HoldingRegister)
      invariant binary + Mappings(points[i..], Coil) == Mappings(points, Coil)
    {
      var p := points[i];
      assert points[i..][0] == p && points[i..][1..] == points[i + 1..];
      if IsHolding(p.kind) {
        analog := analog + [CommandOf(p, HoldingRegister)];
      } else if p.kind.CoilStatusBool? {
        binary := binary + [CommandOf(p, Coil)];
      }
    }
  }

  method FindCommandConfig(configs: seq<CommandPoint>, index: uint16, target: WriteTarget)
    returns (r: Option<CommandPoint>)
    ensures r == Find(configs, index, target)
  {
    for i := 0 to |configs|
      invariant Find(configs[i..], index, target) == Find(configs, index, target)
    {
      if configs[i].dnp3Index == index && configs[i].target == target {
        return Some(configs[i]);
      }
    }
    r := None;
  }
}
