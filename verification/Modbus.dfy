/** Reading points from devices and writing commands to them (Modbus.cpp), over the
    four tables of the Modbus data model. */
module Modbus {
  import opened PointTypes
  import opened RegisterCodec

  datatype Endpoint = Endpoint(ip: string, port: int32, slaveId: int32)

  /** The four separate tables a device serves; a device answers only for the
      addresses it has. */
  datatype Device = Device(
    coils: map<int, bool>,
    discreteInputs: map<int, bool>,
    holdingRegisters: map<int, uint16>,
    inputRegisters: map<int, uint16>)

  type Network = map<Endpoint, Device>

  datatype Errno = TimedOut | InvalidArgument | OtherErrno

  /** What happens to one connection: it works, it fails before the device acts, or
      the device acts and the answer is lost. */
  datatype Link = Healthy | Broken(errno: Errno) | AnswerLost(errno: Errno)

  function StatusOf(e: Errno): CommandStatus {
    match e
    case TimedOut => TIMEOUT
    case InvalidArgument => FORMAT_ERROR
    case OtherErrno => DOWNSTREAM_FAIL
  }

  function EndpointOf(p: ReadPoint): Endpoint {
    Endpoint(p.ip, p.port, p.slaveId)
  }

  /** The 16 bits of an address that a request carries. */
  function Wire(address: int32): uint16 {
    address % 0x1_0000
  }

  function ReadBit(table: map<int, bool>, address: int): Option<real> {
    if address in table then Some(if table[address] then 1.0 else 0.0) else None
  }

  predicate Has(table: map<int, uint16>, address: int, count: int) {
    forall a :: address <= a < address + count ==> a in table
  }

  function ReadWords(table: map<int, uint16>, address: int, count: nat): (r: seq<uint16>)
    requires Has(table, address, count)
    ensures |r| == count
    ensures forall i :: 0 <= i < count ==> r[i] == table[address + i]
    decreases count
  {
    if count == 0 then [] else [table[address]] + ReadWords(table, address + 1, count - 1)
  }

  function ReadRegisters(f: Float32, table: map<int, uint16>, p: ReadPoint): Option<real>
    requires !IsDiscrete(p.kind)
  {
    if Has(table, Wire(p.address), RegisterCount(p.kind))
    then Some(Decode(f, p.kind, ReadWords(table, Wire(p.address), RegisterCount(p.kind))))
    else None
  }

  /** What a read of the point gives when its device can be reached. */
  function Sample(f: Float32, net: Network, p: ReadPoint): Option<real> {
    if EndpointOf(p) !in net then None
    else
      var d := net[EndpointOf(p)];
      match p.kind
      case CoilStatusBool => ReadBit(d.coils, Wire(p.address))
      case InputStatusBool => ReadBit(d.discreteInputs, Wire(p.address))
      case _ => ReadRegisters(f, if IsHolding(p.kind) then d.holdingRegisters else d.inputRegisters, p)
  }

  function Read(f: Float32, net: Network, p: ReadPoint, link: Link): Option<real> {
    if link.Healthy? then Sample(f, net, p) else None
  }

  // ------------------------------------------------------------------ writing

  function WriteWords(table: map<int, uint16>, address: int, regs: seq<uint16>): (r: map<int, uint16>)
    requires Has(table, address, |regs|)
    ensures r.Keys == table.Keys
    ensures forall i :: 0 <= i < |regs| ==> address + i in r && r[address + i] == regs[i]
    ensures forall a :: a in table && !(address <= a < address + |regs|) ==> r[a] == table[a]
    decreases |regs|
  {
    if regs == [] then table
    else
      var r := WriteWords(table, address + 1, regs[1..])[address := regs[0]];
      assert forall i :: 1 <= i < |regs| ==> regs[i] == regs[1..][i - 1] && (address + 1) + (i - 1) == address + i;
      r
  }

  /** The network once the device of a command has stored these registers, if it can. */
  function StoreWords(net: Network, c: CommandPoint, regs: seq<uint16>): Option<Network> {
    var e := Endpoint(c.ip, c.port, c.slaveId);
    if e in net && Has(net[e].holdingRegisters, Wire(c.address), |regs|)
    then Some(net[e := net[e].(holdingRegisters := WriteWords(net[e].holdingRegisters, Wire(c.address), regs))])
    else None
  }

  function StoreCoil(net: Network, c: CommandPoint, on: bool): Option<Network> {
    var e := Endpoint(c.ip, c.port, c.slaveId);
    if e in net && Wire(c.address) in net[e].coils
    then Some(net[e := net[e].(coils := net[e].coils[Wire(c.address) := on])])
    else None
  }

  /** Status and network after one write transaction; a device that refuses the
      request answers with an exception, which is no errno of its own. */
  function Transact(net: Network, stored: Option<Network>, link: Link): (CommandStatus, Network) {
    match (link, stored)
    case (Broken(e), _) => (StatusOf(e), net)
    case (AnswerLost(e), Some(written)) => (StatusOf(e), written)
    case (AnswerLost(e), None) => (StatusOf(e), net)
    case (Healthy, Some(written)) => (SUCCESS, written)
    case (Healthy, None) => (StatusOf(OtherErrno), net)
  }

  function WriteHolding(f: Float32, net: Network, c: CommandPoint, x: real, link: Link): (CommandStatus, Network) {
    match Encode(f, c.valueType, x)
    case Rejected(status) => (status, net)
    case Words(regs) => Transact(net, StoreWords(net, c, regs), link)
  }

  function WriteCoilBit(net: Network, c: CommandPoint, on: bool, link: Link): (CommandStatus, Network) {
    Transact(net, StoreCoil(net, c, on), link)
  }

  // ----------------------------------------------- points that share memory

  predicate SameTable(a: ReadValueType, b: ReadValueType) {
    if IsDiscrete(a) then a == b else !IsDiscrete(b) && IsHolding(a) == IsHolding(b)
  }

  /** The two points read some common register or bit. */
  predicate Overlap(p: ReadPoint, q: ReadPoint) {
    && EndpointOf(p) == EndpointOf(q) && SameTable(p.kind, q.kind)
    && Wire(p.address) < Wire(q.address) + RegisterCount(q.kind) && Wire(q.address) < Wire(p.address) + RegisterCount(p.kind)
  }

  predicate Addresses(c: CommandPoint, p: ReadPoint) {
    Endpoint(c.ip, c.port, c.slaveId) == EndpointOf(p) && c.address == p.address && c.valueType == p.kind
  }

  lemma WordsReadBack(table: map<int, uint16>, address: int, regs: seq<uint16>)
    requires Has(table, address, |regs|)
    ensures Has(WriteWords(table, address, regs), address, |regs|)
    ensures ReadWords(WriteWords(table, address, regs), address, |regs|) == regs
  {
  }

  lemma WordsElsewhere(table: map<int, uint16>, address: int, regs: seq<uint16>, other: int, count: nat)
    requires Has(table, address, |regs|)
    requires other + count <= address || address + |regs| <= other
    ensures Has(WriteWords(table, address, regs), other, count) == Has(table, other, count)
    ensures Has(table, other, count) ==>
              ReadWords(WriteWords(table, address, regs), other, count) == ReadWords(table, other, count)
  {
  }

  // ----------------------------------------------- what is read, and from where

  /** A coil or input point reads its own table's bit at the low 16 bits of its address,
      and fails exactly when its device or that bit is missing. */
  lemma BitSampleExactly(f: Float32, net: Network, p: ReadPoint, on: bool)
    requires p.kind.CoilStatusBool? || p.kind.InputStatusBool?
    ensures var e, a := Endpoint(p.ip, p.port, p.slaveId), p.address % 65536;
            Sample(f, net, p) == Some(if on then 1.0 else 0.0)
            <==> e in net && (if p.kind.CoilStatusBool? then a in net[e].coils && net[e].coils[a] == on
                              else a in net[e].discreteInputs && net[e].discreteInputs[a] == on)
    ensures Sample(f, net, p).Some? ==> Sample(f, net, p).value == 0.0 || Sample(f, net, p).value == 1.0
  {
  }

  /** A register point reads one word, or two, from the low 16 bits of its address on, of
      the table its type is in, and fails exactly when its device or a word is missing. */
  lemma RegisterSampleExactly(f: Float32, net: Network, p: ReadPoint)
    requires !IsDiscrete(p.kind)
    ensures var e, a := Endpoint(p.ip, p.port, p.slaveId), p.address % 65536;
            if e !in net then Sample(f, net, p) == None
            else
              var table := if IsHolding(p.kind) then net[e].holdingRegisters else net[e].inputRegisters;
              if IsNarrow(p.kind) then
                Sample(f, net, p) == if a in table then Some(Decode(f, p.kind, [table[a]])) else None
              else
                Sample(f, net, p) ==
                if a in table && a + 1 in table then Some(Decode(f, p.kind, [table[a], table[a + 1]])) else None
  {
    if EndpointOf(p) in net {
      var d, a, n := net[EndpointOf(p)], p.address % 65536, RegisterCount(p.kind);
      var table := if IsHolding(p.kind) then d.holdingRegisters else d.inputRegisters;
      assert Has(table, a, n) <==> a in table && (n == 2 ==> a + 1 in table);
      hide Decode;
      if Has(table, a, n) {
        assert ReadWords(table, a, n) == if n == 1 then [table[a]] else [table[a], table[a + 1]];
      }
    }
  }

  predicate SameData(holding: ReadValueType, input: ReadValueType) {
    || (holding.HoldingInt16? && input.InputInt16?) || (holding.HoldingUInt16? && input.InputUInt16?)
    || (holding.HoldingInt32? && input.InputInt32?) || (holding.HoldingUInt32? && input.InputUInt32?)
    || (holding.HoldingFloat32? && input.InputFloat32?)
  }

  /** On a device whose two register tables agree, a holding and an input point of one
      data type and address read the same. */
  lemma InputReadsLikeHolding(f: Float32, net: Network, p: ReadPoint, q: ReadPoint)
    requires SameData(p.kind, q.kind) && EndpointOf(p) == EndpointOf(q) && p.address == q.address
    requires EndpointOf(p) in net ==> net[EndpointOf(p)].holdingRegisters == net[EndpointOf(p)].inputRegisters
    ensures Sample(f, net, p) == Sample(f, net, q)
  {
  }

  // ----------------------------------------------- what becomes of a write

  /** A register write succeeds exactly on a healthy connection to a device that has the
      registers, with a value its type takes. A broken connection, a refusing device and
      a rejected value leave every device as it was; a lost answer leaves it written or
      as it was. */
  lemma HoldingWriteExactly(f: Float32, net: Network, c: CommandPoint, p: ReadPoint, x: real, link: Link)
    requires Addresses(c, p) && IsHolding(p.kind)
    ensures var (status, after) := WriteHolding(f, net, c, x, link);
            var takes, has := Encode(f, p.kind, x).Words?, Sample(f, net, p).Some?;
            && (status == SUCCESS <==> takes && has && link.Healthy?)
            && (!takes ==> status == OUT_OF_RANGE && after == net)
            && (takes && link.Healthy? && !has ==> status == DOWNSTREAM_FAIL && after == net)
            && (link.Broken? || !has ==> after == net)
            && (link.AnswerLost? && takes && has ==> after == WriteHolding(f, net, c, x, Healthy).1)
            && (takes && !link.Healthy? ==> IsStatusOf(status, link.errno))
  {
    if Encode(f, p.kind, x).Words? {
      var regs := Encode(f, p.kind, x).regs;
      if IsFloat(p.kind) {
        FloatBitsSurvive(f, x);
      } else {
        DecodeOfEncode(f, p.kind, x);
      }
      StoresWhatItSamples(f, net, c, p, regs);
    }
    hide Encode, Sample, StoreWords;
  }

  predicate IsStatusOf(status: CommandStatus, e: Errno) {
    && (e == TimedOut ==> status == TIMEOUT)
    && (e == InvalidArgument ==> status == FORMAT_ERROR)
    && (e == OtherErrno ==> status == DOWNSTREAM_FAIL)
  }

  lemma StoresWhatItSamples(f: Float32, net: Network, c: CommandPoint, p: ReadPoint, regs: seq<uint16>)
    requires Addresses(c, p) && IsHolding(p.kind) && |regs| == RegisterCount(p.kind)
    ensures StoreWords(net, c, regs).Some? <==> Sample(f, net, p).Some?
  {
  }

  /** The same for a coil, which takes every value. */
  lemma CoilWriteExactly(f: Float32, net: Network, c: CommandPoint, p: ReadPoint, on: bool, link: Link)
    requires Addresses(c, p) && p.kind.CoilStatusBool?
    ensures var (status, after) := WriteCoilBit(net, c, on, link);
            var has := Sample(f, net, p).Some?;
            && (status == SUCCESS <==> has && link.Healthy?)
            && (link.Healthy? && !has ==> status == DOWNSTREAM_FAIL)
            && (link.Broken? || !has ==> after == net)
            && (link.AnswerLost? && has ==> after == WriteCoilBit(net, c, on, Healthy).1)
            && (!link.Healthy? ==> IsStatusOf(status, link.errno))
  {
  }

  // ----------------------------------------------- what a write leaves readable

  /** Storing registers through a command is read back by every point the command
      addresses, and is not seen by any point that does not overlap it. */
  lemma StoredWordsRead(f: Float32, net: Network, c: CommandPoint, p: ReadPoint, regs: seq<uint16>)
    requires Addresses(c, p) && IsHolding(p.kind) && |regs| == RegisterCount(p.kind)
    requires StoreWords(net, c, regs).Some?
    ensures Sample(f, StoreWords(net, c, regs).value, p) == Some(Decode(f, p.kind, regs))
  {
  }

  lemma StoredWordsElsewhere(f: Float32, net: Network, c: CommandPoint, p: ReadPoint, q: ReadPoint, regs: seq<uint16>)
    requires Addresses(c, p) && IsHolding(p.kind) && |regs| == RegisterCount(p.kind)
    requires StoreWords(net, c, regs).Some? && !Overlap(p, q)
    ensures Sample(f, StoreWords(net, c, regs).value, q) == Sample(f, net, q)
  {
    if EndpointOf(p) == EndpointOf(q) && IsHolding(q.kind) {
      WordsElsewhere(net[EndpointOf(p)].holdingRegisters, Wire(c.address), regs, Wire(q.address), RegisterCount(q.kind));
    }
  }

  /** A successful register write is read back as the encoded value; whatever the
      outcome, points that do not overlap the target read as before. */
  lemma HoldingWriteRead(f: Float32, net: Network, c: CommandPoint, p: ReadPoint, x: real, link: Link)
    requires Addresses(c, p) && IsHolding(p.kind)
    ensures var (status, after) := WriteHolding(f, net, c, x, link);
            && (status == SUCCESS ==>
                  Sample(f, after, p) ==
                  Some(if IsFloat(p.kind) then f.valueOf(f.bitsOf(x)) else RoundHalfAway(x) as real))
            && (forall q :: !Overlap(p, q) ==> Sample(f, after, q) == Sample(f, net, q))
  {
    if Encode(f, p.kind, x).Words? {
      var regs := Encode(f, p.kind, x).regs;
      if IsFloat(p.kind) {
        FloatBitsSurvive(f, x);
      } else {
        DecodeOfEncode(f, p.kind, x);
      }
      hide Encode, Decode, Sample, StoreWords, RoundHalfAway;
      if StoreWords(net, c, regs).Some? {
        StoredWordsRead(f, net, c, p, regs);
        forall q | !Overlap(p, q)
          ensures Sample(f, StoreWords(net, c, regs).value, q) == Sample(f, net, q)
        {
          StoredWordsElsewhere(f, net, c, p, q, regs);
        }
      }
    }
  }

  /** The same for a coil. */
  lemma CoilWriteRead(f: Float32, net: Network, c: CommandPoint, p: ReadPoint, on: bool, link: Link)
    requires Addresses(c, p) && p.kind.CoilStatusBool?
    ensures var (status, after) := WriteCoilBit(net, c, on, link);
            && (status == SUCCESS ==> Sample(f, after, p) == Some(if on then 1.0 else 0.0))
            && (forall q :: !Overlap(p, q) ==> Sample(f, after, q) == Sample(f, net, q))
  {
  }
}
