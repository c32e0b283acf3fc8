/** Groups of coils: the registers of a write go to the device one bit each, and come back as zeros and ones. */
module CoilGroups {
  import opened Basics
  import opened DataConversion
  import opened RegisterAddress
  import opened DeviceConfig
  import opened SignalGroups
  import opened DeviceControl
  import MockDevice

  type Coils = map<register, bool>

  function StoredCoils(coils: Coils, start: register, bits: seq<bool>): Coils
    requires start + |bits| <= 0x1_0000
  {
    if bits == [] then coils
    else
      var n := |bits| - 1;
      StoredCoils(coils, start, bits[..n])[start + n := bits[n]]
  }

  /** What a read of coils hands to the parser. */
  function ZerosAndOnes(bits: seq<bool>): (rs: seq<register>)
    ensures |rs| == |bits|
  {
    seq<register>(|bits|, i requires 0 <= i < |bits| => if bits[i] then 1 else 0)
  }

  predicate AllBits(rs: seq<register>) { forall j :: 0 <= j < |rs| ==> rs[j] <= 1 }

  /** Registers that went through coils. */
  function ThroughCoils(rs: seq<register>): (r: seq<register>)
    ensures |r| == |rs| && AllBits(r)
    ensures forall j :: 0 <= j < |rs| ==> r[j] == if rs[j] != 0 then 1 else 0
  {
    ZerosAndOnes(NonZero(rs))
  }

  lemma {:induction false} StoredCoilAt(coils: Coils, start: register, bits: seq<bool>, a: register)
    requires start + |bits| <= 0x1_0000
    ensures MockDevice.CoilAt(StoredCoils(coils, start, bits), a)
         == if start <= a < start + |bits| then bits[a - start] else MockDevice.CoilAt(coils, a)
  {
    if bits == [] {
    } else {
      StoredCoilAt(coils, start, bits[..|bits| - 1], a);
    }
  }

  lemma StoredCoilsReadBack(coils: Coils, start: register, bits: seq<bool>)
    requires start + |bits| <= 0x1_0000
    ensures MockDevice.CoilsFrom(StoredCoils(coils, start, bits), start, |bits|) == bits
  {
    hide StoredCoils, MockDevice.CoilAt;
    forall i | 0 <= i < |bits| ensures MockDevice.CoilAt(StoredCoils(coils, start, bits), start + i) == bits[i] {
      StoredCoilAt(coils, start, bits, start + i);
    }
  }

  // ---------------------------------------------------------------- what a pattern of small bytes means

  predicate SmallBytes(bs: seq<byte>) { forall i :: 0 <= i < |bs| ==> bs[i] <= 1 }

  /** The float formats tell the patterns whose bytes are all 0 or 1, positive numbers in both, from all others. */
  ghost predicate TellsSmallApart(m: FloatModel) {
    && (forall bs: seq<byte> :: |bs| == 4 && SmallBytes(bs) ==>
          m.bits32(m.value32(FromBigEndian(bs))) == FromBigEndian(bs))
    && (forall bs: seq<byte> :: |bs| == 8 && SmallBytes(bs) ==>
          m.bits64(m.value64(FromBigEndian(bs))) == FromBigEndian(bs))
  }

  /** Such a model exists. */
  lemma ModelTellsSmallApart() returns (m: FloatModel)
    ensures m.Lawful() && TellsSmallApart(m)
  {
    m := LawfulModelExists();
    hide FloatModel.Lawful, FromBigEndian, Pow256, SmallBytes;
    forall bs: seq<byte> ensures FromBigEndian(bs) < Pow256(|bs|) { FromBigEndianBound(bs); }
  }

  lemma {:induction false} SameNumberSameBytes(a: seq<byte>, b: seq<byte>)
    requires |a| == |b| && FromBigEndian(a) == FromBigEndian(b)
    ensures a == b
  {
    if a == [] {
    } else {
      var n := |a| - 1;
      SameNumberSameBytes(a[..n], b[..n]);
      assert a == a[..n] + [a[n]] && b == b[..n] + [b[n]];
    }
  }

  /** Two patterns that mean the same value are the same, when the second is that of a value and the first, for the
      float formats, has small bytes only. */
  lemma SameMeaningSamePattern(m: FloatModel, t: DataType, v: Float, canonical: seq<byte>)
    requires m.Lawful() && TellsSmallApart(m) && (t == F64 ==> m.isDouble(v))
    requires t != Bool && |canonical| == BytesLen(t) && SmallBytes(canonical)
    requires Meaning(m, FromBigEndian(canonical), t) == Delivered(m, v, t)
    ensures FromBigEndian(canonical) == Pattern(m, v, t)
  {
    FromBigEndianBound(canonical);
    PatternFits(m, v, t);
    PatternMeans(m, v, t);
    Widths();
    hide Cast, FromBigEndian, Pow256;
    var n, p := FromBigEndian(canonical), Pattern(m, v, t);
    match t
    case U16 => WholeIsEqual(n, p);
    case U32 => WholeIsEqual(n, p);
    case I16 => WholeIsEqual(Signed(n, 0x8000), Signed(p, 0x8000));
    case I32 => WholeIsEqual(Signed(n, 0x8000_0000), Signed(p, 0x8000_0000));
    case F32 =>
    case F64 =>
  }

  lemma WholeIsEqual(a: int, b: int)
    requires Finite(a as real) == Finite(b as real)
    ensures a == b
  {}

  // ---------------------------------------------------------------- one field

  lemma ConvertKeepsSmall(data: seq<byte>, order: ByteOrder)
    requires SmallBytes(data)
    ensures SmallBytes(ConvertByteOrder(data, order))
  {
    hide Reverse, SwapPairs;
  }

  lemma {:induction false} BitsUnpackSmall(rs: seq<register>)
    requires AllBits(rs)
    ensures SmallBytes(Unpack(rs))
  {
    if rs == [] {
    } else {
      BitsUnpackSmall(rs[1..]);
    }
  }

  /** Of the registers that hold only zeros and ones only its own encoding reads as a value. */
  lemma ReadsAsOwnEncoding(m: FloatModel, rs: seq<register>, t: DataType, order: ByteOrder, v: Float)
    requires m.Lawful() && TellsSmallApart(m) && (t == F64 ==> m.isDouble(v))
    requires t != Bool && |rs| == RequiredRegisters(t) && AllBits(rs)
    requires FromBytes(m, FieldBytes(rs, BytesLen(t)), t, order) == Some(Delivered(m, v, t))
    ensures rs == Registers(m, v, t, order)
  {
    hide *;
    WholeFieldBytes(rs, t);
    var bytes := FieldBytes(rs, BytesLen(t));
    BitsUnpackSmall(rs);
    PackUnpack(rs);
    var canonical := if order == BigEndian then bytes else ConvertByteOrder(bytes, order);
    ConvertKeepsSmall(bytes, order);
    ConvertIsInvolution(bytes, order);
    FromBytesMeans(m, bytes, t, order, canonical);
    SameMeaningSamePattern(m, t, v, canonical);
    PatternFits(m, v, t);
    BigEndianRoundTrip(Pattern(m, v, t), BytesLen(t));
    SameNumberSameBytes(canonical, ToBigEndian(Pattern(m, v, t), BytesLen(t)));
    RegistersAre(m, v, t, order);
  }

  lemma RegistersAre(m: FloatModel, v: Float, t: DataType, order: ByteOrder)
    ensures var canonical := ToBigEndian(Pattern(m, v, t), BytesLen(t));
      Registers(m, v, t, order) == Pack(if order == BigEndian then canonical else ConvertByteOrder(canonical, order))
  {
    hide Pack, ConvertByteOrder, Pattern, ToBigEndian;
  }

  // ---------------------------------------------------------------- a whole group

  lemma BoolEncodesAsBit(m: FloatModel, v: Float, order: ByteOrder)
    ensures AllBits(Registers(m, v, Bool, order))
  {
    var b := Pattern(m, v, Bool);
    assert ToBigEndian(b, 1) == [b] by { assert ToBigEndian(b / 256, 0) == []; }
    assert ConvertByteOrder([b], order) == [b];
  }

  /** A field of a group that went through coils reads as its value exactly when it was encoded in zeros and ones. */
  lemma FieldThroughCoils(m: FloatModel, registers: seq<register>, f: FieldMapping, order: ByteOrder, v: Float)
    requires m.Lawful() && TellsSmallApart(m) && (f.dataType == F64 ==> m.isDouble(v))
    requires End(f) <= |registers| && registers[f.offset..End(f)] == Registers(m, v, f.dataType, order)
    requires ParseField(m, ThroughCoils(registers), f, order)
          == Some(ParsedField(f.name, Delivered(m, v, f.dataType), f.dataType))
    ensures AllBits(registers[f.offset..End(f)])
  {
    var span := ThroughCoils(registers)[f.offset..End(f)];
    if f.dataType == Bool {
      BoolEncodesAsBit(m, v, order);
    } else {
      assert FromBytes(m, FieldBytes(span, BytesLen(f.dataType)), f.dataType, order)
          == Some(Delivered(m, v, f.dataType));
      hide ParseField, FromBytes, FieldBytes, Delivered, Registers, FloatModel.Lawful, TellsSmallApart, ThroughCoils;
      assert AllBits(span);
      ReadsAsOwnEncoding(m, span, f.dataType, order, v);
    }
  }

  lemma CoveredOrZero(m: FloatModel, data: seq<Entry>, g: SignalGroup, order: ByteOrder, registers: seq<register>,
                      values: seq<Float>, j: nat)
    requires Valid(g) && DisjointSpans(g.fields) && UniqueKeys(data) && Complete(m, data, g.fields, values)
    requires Encodes(m, data, g.fields, g.registerCount, order, Encoded(registers)) && j < |registers|
    requires forall i :: 0 <= i < |g.fields| ==> !(g.fields[i].offset <= j < End(g.fields[i]))
    ensures registers[j] == 0
  {
    hide Encodes, Complete, DisjointSpans, UniqueKeys, Valid;
    UntouchedIsZero(m, data, g.fields, g.registerCount, order, registers, j);
  }

  lemma SameWhenBits(registers: seq<register>)
    requires AllBits(registers)
    ensures ThroughCoils(registers) == registers
  {}

  /** A group that went through coils reads back as delivered exactly when its encoding is zeros and ones. */
  lemma GroupThroughCoils(m: FloatModel, data: seq<Entry>, g: SignalGroup, values: seq<Float>, order: ByteOrder,
                          registers: seq<register>)
    requires m.Lawful() && TellsSmallApart(m) && Valid(g) && DisjointSpans(g.fields) && AllEndInside(g)
    requires UniqueKeys(data) && Complete(m, data, g.fields, values)
    requires Encodes(m, data, g.fields, g.registerCount, order, Encoded(registers))
    ensures Delivers(m, ThroughCoils(registers), g.fields, order, values) <==> AllBits(registers)
  {
    hide FloatModel.Lawful, TellsSmallApart, Valid, DisjointSpans, UniqueKeys, Supplies, Encodes, ParseFields,
      ParseField, Delivered, End, ThroughCoils, Delivers, AllBits;
    EncodedLength(m, data, g.fields, g.registerCount, order, registers);
    if AllBits(registers) {
      SameWhenBits(registers);
      RegistersRoundTrip(m, data, g, values, order, registers);
      DeliversIs(m, registers, g.fields, order, values, data);
    } else if Delivers(m, ThroughCoils(registers), g.fields, order, values) {
      var j := SomeNonBit(registers);
      if i :| 0 <= i < |g.fields| && g.fields[i].offset <= j < End(g.fields[i]) {
        var f := g.fields[i];
        PieceInPlace(m, data, g, order, registers, f, values[i]);
        FullReadSkipsNothing(m, ThroughCoils(registers), g.fields, order);
        DeliversField(m, ThroughCoils(registers), g.fields, order, values, i);
        FieldThroughCoils(m, registers, f, order, values[i]);
        BitInSpan(registers, f.offset, End(f), j);
      } else {
        CoveredOrZero(m, data, g, order, registers, values, j);
      }
    }
  }

  lemma SomeNonBit(registers: seq<register>) returns (j: nat)
    requires !AllBits(registers)
    ensures j < |registers| && registers[j] > 1
  {
    j :| 0 <= j < |registers| && registers[j] > 1;
  }

  lemma BitInSpan(registers: seq<register>, from: nat, to: nat, j: nat)
    requires from <= j < to <= |registers| && AllBits(registers[from..to])
    ensures registers[j] <= 1
  {
    assert registers[j] == registers[from..to][j - from];
  }

  lemma DeliversField(m: FloatModel, registers: seq<register>, fields: seq<FieldMapping>, order: ByteOrder,
                      values: seq<Float>, i: nat)
    requires Delivers(m, registers, fields, order, values) && i < |fields|
    ensures var f := fields[i];
      |values| == |fields| && |ParseFields(m, registers, fields, order)| == |fields|
      && ParseFields(m, registers, fields, order)[i]
           == ParsedField(f.name, Delivered(m, values[i], f.dataType), f.dataType)
  {
    hide ParseFields, Delivered;
  }

  // ---------------------------------------------------------------- through the handler and a device

  /** For an accepted configuration: a complete write to a group of coils becomes one write of its coils; and when a
      device has carried it out, a read of the same group gives back every field, with the value that its type can
      hold, exactly when every register of the encoding is 0 or 1. */
  lemma WriteThenReadCoils(m: FloatModel, c: Config, k: nat, params: Params, g: SignalGroup, address: register,
                           data: seq<Entry>, values: seq<Float>, w: Conversion, r: Conversion, coils: Coils)
    returns (registers: seq<register>)
    requires m.Lawful() && TellsSmallApart(m) && ConfigOk(c) && k < |c.devices|
    requires Target(c.devices[k], params) == Some((g, Coil, address)) && params.data == Some(data)
    requires DisjointSpans(g.fields) && AllEndInside(g) && address + g.registerCount <= 0x1_0000
    requires UniqueKeys(data) && Complete(m, data, g.fields, values)
    requires Converts(m, c.devices[k], WriteSignalGroup, params, w)
    requires Converts(m, c.devices[k], ReadSignalGroup, params, r)
    ensures Encodes(m, data, g.fields, g.registerCount, c.devices[k].byteOrder, Encoded(registers))
    ensures |registers| == g.registerCount
    ensures w == Op(CoilOp(address, NonZero(registers))) && r == Op(ReadCoil(address, g.registerCount))
    ensures IsCoilWrite(w.op, address, registers)
    ensures var after := StoredCoils(coils, address, NonZero(registers));
      var read := ZerosAndOnes(MockDevice.CoilsFrom(after, address, g.registerCount));
      Delivers(m, read, g.fields, c.devices[k].byteOrder, values) <==> AllBits(registers)
  {
    hide *;
    var d := c.devices[k];
    TargetIsValid(c, k, params);
    CoilsConvert(m, d, params, r);
    var e := CoilsEncode(m, d, params, w);
    CompleteFates(m, data, g, values, d.byteOrder, e);
    registers := e.registers;
    EncodedLength(m, data, g.fields, g.registerCount, d.byteOrder, registers);
    CoilsOf(address, registers);
    CoilWriteIs(address, registers);
    StoredCoilsReadBack(coils, address, NonZero(registers));
    ThroughCoilsIs(registers);
    GroupThroughCoils(m, data, g, values, d.byteOrder, registers);
  }

  lemma ThroughCoilsIs(registers: seq<register>)
    ensures |NonZero(registers)| == |registers| && ThroughCoils(registers) == ZerosAndOnes(NonZero(registers))
  {}

  /** One write, of a single coil or of several, that sets exactly the coils of the registers that are not zero. */
  predicate IsCoilWrite(op: ModbusOp, address: register, registers: seq<register>) {
    if |registers| == 1 then op == WriteSingleCoil(address, registers[0] != 0)
    else
      && op.WriteMultipleCoils? && op.address == address && |op.coils| == |registers|
      && forall i :: 0 <= i < |registers| ==> (op.coils[i] <==> registers[i] != 0)
  }

  lemma CoilWriteIs(address: register, registers: seq<register>)
    ensures IsCoilWrite(CoilOp(address, NonZero(registers)), address, registers)
  {}

  lemma CoilsOf(address: register, registers: seq<register>)
    ensures WriteEncoded(Coil, address, Encoded(registers)) == Op(CoilOp(address, NonZero(registers)))
    ensures |NonZero(registers)| == |registers|
  {}

  lemma CoilsConvert(m: FloatModel, d: Device, params: Params, r: Conversion)
    requires Target(d, params).Some? && Converts(m, d, ReadSignalGroup, params, r)
    ensures var (g, t, address) := Target(d, params).value; t == Coil ==> r == Op(ReadCoil(address, g.registerCount))
  {
    hide Target, Encodes;
  }

  lemma CoilsEncode(m: FloatModel, d: Device, params: Params, w: Conversion) returns (e: Encoded)
    requires Target(d, params).Some? && Target(d, params).value.1 == Coil && params.data.Some?
    requires Converts(m, d, WriteSignalGroup, params, w)
    ensures var (g, t, address) := Target(d, params).value;
      Encodes(m, params.data.value, g.fields, g.registerCount, d.byteOrder, e) && w == WriteEncoded(t, address, e)
  {
    hide Target, Encodes, WriteEncoded;
    var (g, t, address) := Target(d, params).value;
    e :| Encodes(m, params.data.value, g.fields, g.registerCount, d.byteOrder, e) && w == WriteEncoded(t, address, e);
  }
}
