/** Values to 16-bit registers and back (Modbus.cpp), big word first. */
module RegisterCodec {
  import opened PointTypes

  datatype CommandStatus = SUCCESS | TIMEOUT | FORMAT_ERROR | NOT_SUPPORTED | DOWNSTREAM_FAIL | OUT_OF_RANGE

  /** The 32-bit float conversions: any pair of functions between values and bits. */
  datatype Float32 = Float32(bitsOf: real -> uint32, valueOf: uint32 -> real)

  datatype Payload = Words(regs: seq<uint16>) | Rejected(status: CommandStatus)

  /** llround: to nearest, halves away from zero. */
  function RoundHalfAway(x: real): int {
    if x >= 0.0 then (x + 0.5).Floor else -(0.5 - x).Floor
  }

  /** The values llround is defined on. */
  predicate Roundable(x: real) {
    -9223372036854775808.0 < x < 9223372036854775808.0
  }

  predicate IsIntegerHolding(t: ReadValueType) {
    IsHolding(t) && !IsFloat(t)
  }

  function MinOf(t: ReadValueType): int {
    match t
    case HoldingInt16 => -0x8000
    case HoldingInt32 => -0x8000_0000
    case _ => 0
  }

  function MaxOf(t: ReadValueType): int {
    match t
    case HoldingInt16 => 0x7FFF
    case HoldingUInt16 => 0xFFFF
    case HoldingInt32 => 0x7FFF_FFFF
    case _ => 0xFFFF_FFFF
  }

  function SplitWords(raw: uint32): (r: seq<uint16>)
    ensures |r| == 2
  {
    [raw / 0x1_0000, raw % 0x1_0000]
  }

  function JoinWords(high: uint16, low: uint16): uint32 {
    high * 0x1_0000 + low
  }

  function Encode(f: Float32, t: ReadValueType, x: real): Payload {
    if !IsHolding(t) then Rejected(NOT_SUPPORTED)
    else if t.HoldingFloat32? then Words(SplitWords(f.bitsOf(x)))
    else
      var v := RoundHalfAway(x);
      if v < MinOf(t) || v > MaxOf(t) then Rejected(OUT_OF_RANGE)
      else if RegisterCount(t) == 1 then Words([v % 0x1_0000])
      else Words(SplitWords(v % 0x1_0000_0000))
  }

  function Signed16(w: uint16): int {
    if w < 0x8000 then w else w - 0x1_0000
  }

  function Signed32(raw: uint32): int {
    if raw < 0x8000_0000 then raw else raw - 0x1_0000_0000
  }

  function Decode(f: Float32, t: ReadValueType, regs: seq<uint16>): real
    requires !IsDiscrete(t) && |regs| == RegisterCount(t)
  {
    match t
    case HoldingInt16 | InputInt16 => Signed16(regs[0]) as real
    case HoldingUInt16 | InputUInt16 => regs[0] as real
    case HoldingInt32 | InputInt32 => Signed32(JoinWords(regs[0], regs[1])) as real
    case HoldingUInt32 | InputUInt32 => JoinWords(regs[0], regs[1]) as real
    case HoldingFloat32 | InputFloat32 => f.valueOf(JoinWords(regs[0], regs[1]))
  }

  // ------------------------------------------------------------- properties

  /** The registers as one number, the first of them the high word. */
  function Number(regs: seq<uint16>): int {
    if |regs| == 1 then regs[0] as int else if |regs| == 2 then regs[0] as int * 65536 + regs[1] as int else 0
  }

  predicate IsSigned(t: ReadValueType) {
    t.HoldingInt16? || t.InputInt16? || t.HoldingInt32? || t.InputInt32?
  }

  predicate IsNarrow(t: ReadValueType) {
    t.HoldingInt16? || t.InputInt16? || t.HoldingUInt16? || t.InputUInt16?
  }

  /** An integer register type reads as the one value of its range that is congruent to
      its one or two words taken as a number. */
  lemma DecodeExactly(f: Float32, t: ReadValueType, regs: seq<uint16>, v: int)
    requires !IsDiscrete(t) && !IsFloat(t) && |regs| == (if IsNarrow(t) then 1 else 2)
    ensures RegisterCount(t) == |regs|
    ensures var span := if IsNarrow(t) then 65536 else 4294967296;
            var low := if IsSigned(t) then -span / 2 else 0;
            Decode(f, t, regs) == v as real <==> low <= v < low + span && (v - Number(regs)) % span == 0
  {
  }

  /** A float point reads as the float with its two words as bits. */
  lemma DecodeFloat(f: Float32, t: ReadValueType, regs: seq<uint16>)
    requires IsFloat(t) && |regs| == 2
    ensures RegisterCount(t) == 2 && Decode(f, t, regs) == f.valueOf(Number(regs))
  {
  }

  /** What rounding half away from zero means, without saying how it is computed. */
  ghost predicate IsRounding(x: real, v: int) {
    && -0.5 <= x - v as real <= 0.5
    && (x - v as real == 0.5 ==> x < 0.0)
    && (x - v as real == -0.5 ==> x > 0.0)
  }

  lemma RoundingExactly(x: real, v: int)
    ensures RoundHalfAway(x) == v <==> IsRounding(x, v)
  {
  }

  lemma RoundOfInt(n: int)
    ensures RoundHalfAway(n as real) == n
  {
  }

  lemma WordsRejoin(raw: uint32)
    ensures JoinWords(SplitWords(raw)[0], SplitWords(raw)[1]) == raw
  {
  }

  lemma WordsResplit(high: uint16, low: uint16)
    ensures SplitWords(JoinWords(high, low)) == [high, low]
  {
  }

  /** A value in the type's range survives the registers. */
  lemma DecodeOfEncode(f: Float32, t: ReadValueType, x: real)
    requires IsIntegerHolding(t) && MinOf(t) <= RoundHalfAway(x) <= MaxOf(t)
    ensures Encode(f, t, x).Words? && |Encode(f, t, x).regs| == RegisterCount(t)
    ensures Decode(f, t, Encode(f, t, x).regs) == RoundHalfAway(x) as real
  {
    hide RoundHalfAway, JoinWords, SplitWords;
    var v := RoundHalfAway(x);
    if RegisterCount(t) == 1 {
      assert t.HoldingInt16? ==> Signed16(v % 0x1_0000) == v;
    } else {
      assert t.HoldingInt32? ==> Signed32(v % 0x1_0000_0000) == v;
      WordsRejoin(v % 0x1_0000_0000);
    }
  }

  /** Only holding types are written; a float type takes every value. */
  lemma WritableTypes(f: Float32, t: ReadValueType, x: real)
    ensures !IsHolding(t) ==> Encode(f, t, x) == Rejected(NOT_SUPPORTED)
    ensures t.HoldingFloat32? ==> Encode(f, t, x).Words? && Number(Encode(f, t, x).regs) == f.bitsOf(x)
  {
  }

  lemma RangeInReals(t: ReadValueType, x: real)
    requires IsIntegerHolding(t)
    ensures MinOf(t) <= RoundHalfAway(x) <= MaxOf(t)
       <==> MinOf(t) as real - 0.5 < x < MaxOf(t) as real + 0.5
  {
  }

  /** An integer type takes exactly the values strictly within half a unit of its
      range, and reads back the rounded value. */
  lemma EncodeExactly(f: Float32, t: ReadValueType, x: real)
    requires IsIntegerHolding(t) && Roundable(x)
    ensures Encode(f, t, x).Words? <==> MinOf(t) as real - 0.5 < x < MaxOf(t) as real + 0.5
    ensures Encode(f, t, x).Rejected? ==> Encode(f, t, x).status == OUT_OF_RANGE
    ensures Encode(f, t, x).Words? ==>
              var regs := Encode(f, t, x).regs;
              |regs| == RegisterCount(t) && Decode(f, t, regs) == RoundHalfAway(x) as real
  {
    RangeInReals(t, x);
    if MinOf(t) <= RoundHalfAway(x) <= MaxOf(t) {
      DecodeOfEncode(f, t, x);
    }
  }

  /** Every register content is the encoding of the value it reads as. */
  lemma EncodeOfDecode(f: Float32, t: ReadValueType, regs: seq<uint16>)
    requires IsIntegerHolding(t) && |regs| == RegisterCount(t)
    ensures Encode(f, t, Decode(f, t, regs)) == Words(regs)
  {
    if RegisterCount(t) == 1 {
      RoundOfInt(if t.HoldingInt16? then Signed16(regs[0]) else regs[0]);
      assert regs == [regs[0]];
    } else {
      var raw := JoinWords(regs[0], regs[1]);
      RoundOfInt(if t.HoldingInt32? then Signed32(raw) else raw);
      WordsResplit(regs[0], regs[1]);
      assert Signed32(raw) % 0x1_0000_0000 == raw;
      assert regs == [regs[0], regs[1]];
      hide RoundHalfAway, JoinWords, SplitWords;
    }
  }

  /** A float command puts the 32 bits on the wire and a read gets the same 32 bits. */
  lemma FloatBitsSurvive(f: Float32, x: real)
    ensures Encode(f, HoldingFloat32, x).Words? && |Encode(f, HoldingFloat32, x).regs| == 2
    ensures Decode(f, HoldingFloat32, Encode(f, HoldingFloat32, x).regs) == f.valueOf(f.bitsOf(x))
  {
  }

  // ------------------------------------------------------- the register buffers

  method BuildHoldingRegisterWritePayload(f: Float32, t: ReadValueType, value: real, regs: array<uint16>)
    returns (ok: bool, count: int, status: CommandStatus)
    requires regs.Length == 2
    requires IsIntegerHolding(t) ==> Roundable(value)
    modifies regs
    ensures ok == Encode(f, t, value).Words?
    ensures ok ==> 1 <= count <= 2 && regs[..count] == Encode(f, t, value).regs && status == SUCCESS
    ensures ok && count == 1 ==> regs[1] == old(regs[1])
    ensures !ok ==> regs[..] == old(regs[..]) && status == Encode(f, t, value).status
  {
    count := RegisterCount(t);
    status := SUCCESS;
    if !IsHolding(t) {
      return false, count, NOT_SUPPORTED;
    }
    if t.HoldingFloat32? {
      var raw := f.bitsOf(value);
      regs[0], regs[1] := raw / 0x1_0000, raw % 0x1_0000;
      return true, 2, status;
    }
    var v := RoundHalfAway(value);
    if t.HoldingInt16? {
      if v < -0x8000 || v > 0x7FFF {
        return false, count, OUT_OF_RANGE;
      }
      regs[0] := v % 0x1_0000;
      count := 1;
    } else if t.HoldingUInt16? {
      if v < 0 || v > 0xFFFF {
        return false, count, OUT_OF_RANGE;
      }
      regs[0] := v % 0x1_0000;
      count := 1;
    } else {
      if t.HoldingInt32? && (v < -0x8000_0000 || v > 0x7FFF_FFFF) {
        return false, count, OUT_OF_RANGE;
      }
      if t.HoldingUInt32? && (v < 0 || v > 0xFFFF_FFFF) {
        return false, count, OUT_OF_RANGE;
      }
      var raw := v % 0x1_0000_0000;
      regs[0], regs[1] := raw / 0x1_0000, raw % 0x1_0000;
      count := 2;
    }
    ok := true;
  }
}
