/** The value types of the gateway: what a configured point is and how its type
    is classified (Tipos.h and the pure predicates at the top of Config.cpp). */
module PointTypes {
  datatype Option<+T> = None | Some(value: T)

  type int32 = x: int | -0x8000_0000 <= x < 0x8000_0000
  type uint16 = x: int | 0 <= x < 0x1_0000
  type uint32 = x: int | 0 <= x < 0x1_0000_0000

  datatype ReadValueType =
    | CoilStatusBool
    | InputStatusBool
    | HoldingInt16
    | InputInt16
    | HoldingUInt16
    | InputUInt16
    | HoldingInt32
    | InputInt32
    | HoldingUInt32
    | InputUInt32
    | HoldingFloat32
    | InputFloat32

  datatype WriteTarget = HoldingRegister | Coil

  datatype ReadPoint = ReadPoint(
    description: string,
    ip: string,
    port: int32,
    slaveId: int32,
    kind: ReadValueType,
    address: int32,
    count: int32,
    dnp3Index: uint16,
    statusIndex: uint16)

  datatype CommandPoint = CommandPoint(
    dnp3Index: uint16,
    ip: string,
    port: int32,
    slaveId: int32,
    target: WriteTarget,
    address: int32,
    valueType: ReadValueType,
    description: string)

  predicate IsHolding(t: ReadValueType) {
    t.HoldingInt16? || t.HoldingUInt16? || t.HoldingInt32? || t.HoldingUInt32? || t.HoldingFloat32?
  }

  predicate IsDiscrete(t: ReadValueType) {
    t.CoilStatusBool? || t.InputStatusBool?
  }

  predicate IsFloat(t: ReadValueType) {
    t.HoldingFloat32? || t.InputFloat32?
  }

  function RegisterCount(t: ReadValueType): int32 {
    match t
    case HoldingInt32 | InputInt32 | HoldingUInt32 | InputUInt32 | HoldingFloat32 | InputFloat32 => 2
    case _ => 1
  }

  /** The DNP3 object a point publishes to: binary inputs and analog inputs are
      two separate index spaces. */
  datatype Key = Key(binary: bool, index: uint16)

  function KeyOf(p: ReadPoint): Key {
    Key(IsDiscrete(p.kind), p.dnp3Index)
  }

  ghost predicate DistinctKeys(points: seq<ReadPoint>) {
    forall i, j :: 0 <= i < j < |points| ==> KeyOf(points[i]) != KeyOf(points[j])
  }
}
