/** How the device handler turns a request into a Modbus operation. */
module DeviceControl {
  import opened Basics
  import opened DataConversion
  import opened RegisterAddress
  import opened DeviceConfig
  import opened SignalGroups
  import MockDevice

  datatype Operation = ReadSignalGroup | WriteSignalGroup | GetStatus

  /** The parameters of a request; `values` are the raw values, each a number if it is an unsigned integer. */
  datatype Params = Params(groupName: Option<string>, data: Option<seq<Entry>>, values: Option<seq<Option<nat>>>)

  datatype ModbusOp =
    | ReadCoil(address: register, count: register)
    | ReadDiscrete(address: register, count: register)
    | ReadInput(address: register, count: register)
    | ReadHolding(address: register, count: register)
    | WriteSingleCoil(address: register, value: bool)
    | WriteMultipleCoils(address: register, coils: seq<bool>)
    | WriteMultiple(address: register, registers: seq<register>)

  /** `Crash` is a panic of the encoder. */
  datatype Conversion = Op(op: ModbusOp) | NoOp | Crash

  /** The first group of that name. */
  function FindGroup(groups: seq<SignalGroup>, name: string): (g: Option<SignalGroup>)
    ensures g.Some? ==> g.value in groups && g.value.name == name
    ensures g.None? ==> forall h <- groups :: h.name != name
  {
    if groups == [] then None
    else if groups[0].name == name then Some(groups[0])
    else FindGroup(groups[1..], name)
  }

  predicate IsReadOnly(t: RegisterType) { t == Discrete || t == Input }

  // ---------------------------------------------------------------- completeness of a write

  predicate Provided(data: seq<Entry>, name: string) {
    exists i :: 0 <= i < |data| && data[i].name == name
  }

  function MissingFields(data: seq<Entry>, fields: seq<FieldMapping>): seq<string> {
    if fields == [] then []
    else
      var last := fields[|fields| - 1].name;
      MissingFields(data, fields[..|fields| - 1]) + if Provided(data, last) then [] else [last]
  }

  method ValidateFieldCompleteness(data: seq<Entry>, fields: seq<FieldMapping>) returns (missing: seq<string>)
    ensures missing == MissingFields(data, fields)
  {
    missing := [];
    var i := 0;
    while i < |fields|
      invariant 0 <= i <= |fields|
      invariant missing == MissingFields(data, fields[..i])
    {
      assert fields[..i + 1][..i] == fields[..i];
      if !Provided(data, fields[i].name) { missing := missing + [fields[i].name]; }
      i := i + 1;
    }
    assert fields[..i] == fields;
  }

  /** A write is let through exactly when every field of the group is provided. */
  lemma {:induction false} NothingMissing(data: seq<Entry>, fields: seq<FieldMapping>)
    ensures MissingFields(data, fields) == [] <==> forall i :: 0 <= i < |fields| ==> Provided(data, fields[i].name)
  {
    if fields == [] {
    } else {
      hide Provided;
      var n := |fields| - 1;
      NothingMissing(data, fields[..n]);
      assert forall i :: 0 <= i < n ==> fields[..n][i] == fields[i];
    }
  }

  lemma MissingStep(data: seq<Entry>, fields: seq<FieldMapping>)
    requires fields != []
    ensures var n := |fields| - 1;
      MissingFields(data, fields)
        == MissingFields(data, fields[..n]) + if Provided(data, fields[n].name) then [] else [fields[n].name]
  {
    hide Provided;
  }

  /** The missing fields are listed in the order of the group, each that no entry names. */
  lemma {:induction false} MissingAreInOrder(data: seq<Entry>, fields: seq<FieldMapping>) returns (at: seq<nat>)
    ensures |at| == |MissingFields(data, fields)| && forall i, j :: 0 <= i < j < |at| ==> at[i] < at[j]
    ensures forall i :: 0 <= i < |at| ==> at[i] < |fields| && MissingFields(data, fields)[i] == fields[at[i]].name
    ensures forall p :: 0 <= p < |fields| ==> (p in at <==> !Provided(data, fields[p].name))
  {
    if fields == [] {
      at := [];
    } else {
      var n := |fields| - 1;
      var before := fields[..n];
      at := MissingAreInOrder(data, before);
      MissingStep(data, fields);
      if !Provided(data, fields[n].name) { at := at + [n]; }
      hide MissingFields, Provided;
      assert forall p :: 0 <= p < n ==> before[p] == fields[p];
    }
  }

  // ---------------------------------------------------------------- operations

  function ReadOp(t: RegisterType, address: register, count: register): ModbusOp {
    match t
    case Coil => ReadCoil(address, count)
    case Discrete => ReadDiscrete(address, count)
    case Input => ReadInput(address, count)
    case Holding => ReadHolding(address, count)
  }

  function CoilOp(address: register, coils: seq<bool>): ModbusOp {
    if |coils| == 1 then WriteSingleCoil(address, coils[0]) else WriteMultipleCoils(address, coils)
  }

  function NonZero(registers: seq<register>): seq<bool> {
    seq(|registers|, i requires 0 <= i < |registers| => registers[i] != 0)
  }

  /** The raw values that are unsigned integers. */
  function Numbers(values: seq<Option<nat>>): seq<nat> {
    if values == [] then []
    else
      var last := values[|values| - 1];
      Numbers(values[..|values| - 1]) + if last.Some? then [last.value] else []
  }

  function Truncated(ns: seq<nat>): seq<register> { seq(|ns|, i requires 0 <= i < |ns| => ns[i] % 0x1_0000) }

  function Flags(ns: seq<nat>): seq<bool> { seq(|ns|, i requires 0 <= i < |ns| => ns[i] != 0) }

  function WriteEncoded(t: RegisterType, address: register, r: Encoded): Conversion {
    match r
    case Refused => NoOp
    case Panicked => Crash
    case Encoded(registers) =>
      Op(if t == Coil then CoilOp(address, NonZero(registers)) else WriteMultiple(address, registers))
  }

  function WriteRaw(t: RegisterType, address: register, values: seq<Option<nat>>): ModbusOp {
    var ns := Numbers(values);
    if t == Coil then CoilOp(address, Flags(ns)) else WriteMultiple(address, Truncated(ns))
  }

  /** The group and its address that a request is about. */
  function Target(d: Device, params: Params): Option<(SignalGroup, RegisterType, register)> {
    if params.groupName.None? then None
    else
      var g := FindGroup(d.signalGroups, params.groupName.value);
      if g.None? then None
      else
        var a := ParseRegisterAddress(g.value.address);
        if a.None? then None else Some((g.value, a.value.0, a.value.1))
  }

  ghost predicate Converts(m: FloatModel, d: Device, operation: Operation, params: Params, r: Conversion) {
    var target := Target(d, params);
    if operation == GetStatus || target.None? then r == NoOp
    else
      var (g, t, address) := target.value;
      if operation == ReadSignalGroup then r == Op(ReadOp(t, address, g.registerCount))
      else if IsReadOnly(t) then r == NoOp
      else if params.data.Some? then
        exists e :: Encodes(m, params.data.value, g.fields, g.registerCount, d.byteOrder, e)
                    && r == WriteEncoded(t, address, e)
      else if params.values.Some? then r == Op(WriteRaw(t, address, params.values.value))
      else r == NoOp
  }

  method OperationToModbusOp(m: FloatModel, d: Device, operation: Operation, params: Params) returns (r: Conversion)
    ensures Converts(m, d, operation, params, r)
  {
    hide Encodes, ParseRegisterAddress, FindGroup, Numbers;
    if operation == GetStatus || params.groupName.None? { return NoOp; }
    var found := FindGroup(d.signalGroups, params.groupName.value);
    if found.None? { return NoOp; }
    var g := found.value;
    var parsed := ParseRegisterAddress(g.address);
    if parsed.None? { return NoOp; }
    var (t, address) := parsed.value;
    assert Target(d, params) == Some((g, t, address));
    if operation == ReadSignalGroup { return Op(ReadOp(t, address, g.registerCount)); }
    if IsReadOnly(t) { return NoOp; }
    if params.data.Some? {
      var e := EncodeFieldsToRegisters(m, params.data.value, g.fields, g.registerCount, d.byteOrder);
      return WriteEncoded(t, address, e);
    }
    if params.values.Some? { return Op(WriteRaw(t, address, params.values.value)); }
    r := NoOp;
  }

  // ---------------------------------------------------------------- through a device and back

  /** The registers parse to every field, in order, with what its type can hold of its value. */
  predicate Delivers(m: FloatModel, registers: seq<register>, fields: seq<FieldMapping>, order: ByteOrder,
                     values: seq<Float>)
  {
    var out := ParseFields(m, registers, fields, order);
    && |out| == |fields| == |values|
    && forall i :: 0 <= i < |fields| ==>
         var f := fields[i]; out[i] == ParsedField(f.name, Delivered(m, values[i], f.dataType), f.dataType)
  }

  /** For an accepted configuration: a complete write to a holding group whose fields are disjoint and end inside
      it becomes one write of the whole group; and when a device has carried it out, a read of the same group
      becomes one read whose registers parse to every field, with the value that its type can hold. */
  lemma WriteThenRead(m: FloatModel, c: Config, k: nat, params: Params, g: SignalGroup, address: register,
                      data: seq<Entry>, values: seq<Float>, w: Conversion, r: Conversion,
                      file: MockDevice.RegisterFile)
    requires m.Lawful() && ConfigOk(c) && k < |c.devices|
    requires Target(c.devices[k], params) == Some((g, Holding, address)) && params.data == Some(data)
    requires DisjointSpans(g.fields) && AllEndInside(g)
    requires UniqueKeys(data) && Complete(m, data, g.fields, values)
    requires Converts(m, c.devices[k], WriteSignalGroup, params, w)
    requires Converts(m, c.devices[k], ReadSignalGroup, params, r)
    ensures w.Op? && w.op.WriteMultiple? && w.op.address == address && |w.op.registers| == g.registerCount
    ensures r == Op(ReadHolding(address, g.registerCount))
    ensures address + g.registerCount <= 0x1_0000 ==>
      var after := MockDevice.Stored(file, address, w.op.registers);
      Delivers(m, MockDevice.Loaded(after, address, g.registerCount), g.fields, c.devices[k].byteOrder, values)
  {
    hide *;
    var d := c.devices[k];
    TargetIsValid(c, k, params);
    ReadConverts(m, d, params, r);
    var e := WriteConverts(m, d, params, w);
    CodecRoundTrip(m, data, g, values, d.byteOrder, e);
    WholeGroup(Holding, address, e);
    DeliversIs(m, e.registers, g.fields, d.byteOrder, values, data);
    if address + g.registerCount <= 0x1_0000 { MockDevice.LoadedIsStored(file, address, e.registers, address); }
  }

  /** The same over the wire, for a group that one request can carry: the write is sent to a device as one request,
      the read as the next, and the registers found in the frame of its answer parse to the fields. */
  lemma WriteThenReadOverTheWire(m: FloatModel, c: Config, k: nat, params: Params, g: SignalGroup, address: register,
                                 data: seq<Entry>, values: seq<Float>, w: Conversion, r: Conversion,
                                 before: MockDevice.Tables, transaction: register, unit: byte)
    requires m.Lawful() && ConfigOk(c) && k < |c.devices|
    requires Target(c.devices[k], params) == Some((g, Holding, address)) && params.data == Some(data)
    requires DisjointSpans(g.fields) && AllEndInside(g)
    requires g.registerCount <= MockDevice.MAX_WRITTEN && address + g.registerCount <= 0x1_0000
    requires UniqueKeys(data) && Complete(m, data, g.fields, values)
    requires Converts(m, c.devices[k], WriteSignalGroup, params, w)
    requires Converts(m, c.devices[k], ReadSignalGroup, params, r)
    ensures w.Op? && w.op.WriteMultiple? && |w.op.registers| == g.registerCount && r.Op? && r.op.ReadHolding?
    ensures var write := MockDevice.WriteRequest(w.op.address, w.op.registers);
      var read := MockDevice.ReadRequest(r.op.address, r.op.count);
      MockDevice.SpanOk(write) && MockDevice.SpanOk(read)
    ensures var write := MockDevice.WriteRequest(w.op.address, w.op.registers);
      var read := MockDevice.ReadRequest(r.op.address, r.op.count);
      var frame := MockDevice.Framed(transaction, unit, MockDevice.Answer(MockDevice.After(before, write), read));
      && 9 + 2 * g.registerCount <= |frame|
      && Delivers(m, MockDevice.ReceivedRegisters(frame, g.registerCount), g.fields, c.devices[k].byteOrder, values)
  {
    hide *;
    WriteThenRead(m, c, k, params, g, address, data, values, w, r, before.holding);
    MockDevice.RegistersOverTheWire(before, address, w.op.registers, transaction, unit);
    MockDevice.LoadedIsStored(before.holding, address, w.op.registers, address);
  }

  lemma DeliversIs(m: FloatModel, registers: seq<register>, fields: seq<FieldMapping>, order: ByteOrder,
                   values: seq<Float>, data: seq<Entry>)
    requires Complete(m, data, fields, values)
    requires var out := ParseFields(m, registers, fields, order);
      && |out| == |fields|
      && forall i :: 0 <= i < |fields| ==>
           var f := fields[i]; out[i] == ParsedField(f.name, Delivered(m, values[i], f.dataType), f.dataType)
    ensures Delivers(m, registers, fields, order, values)
  {
    hide ParseFields, Delivered, Supplies;
  }

  lemma TargetIsValid(c: Config, k: nat, params: Params)
    requires ConfigOk(c) && k < |c.devices| && Target(c.devices[k], params).Some?
    ensures Valid(Target(c.devices[k], params).value.0)
  {
    hide Valid, AddressVerdict, ParseRegisterAddress;
    var d := c.devices[k];
    var g := Target(d, params).value.0;
    assert DeviceOk(d) && g in d.signalGroups;
    var j :| 0 <= j < |d.signalGroups| && d.signalGroups[j] == g;
    assert GroupOk(d.signalGroups[j]);
  }

  /** The encoder panics, on the thread of the worker, only when a field ends behind its group; and for a
      complete object in an accepted configuration it then always does. */
  lemma CrashNeedsOverrun(m: FloatModel, d: Device, operation: Operation, params: Params)
    requires Converts(m, d, operation, params, Crash)
    ensures Target(d, params).Some? && !AllEndInside(Target(d, params).value.0)
  {
    hide Target, FateOf;
    var (g, t, address) := Target(d, params).value;
    var e :| Encodes(m, params.data.value, g.fields, g.registerCount, d.byteOrder, e)
             && Crash == WriteEncoded(t, address, e);
    var i :| 0 <= i < |params.data.value| && FateOf(params.data.value[i], g.fields, g.registerCount) == Overrun;
    OverrunEndsBehind(params.data.value[i], g);
  }

  lemma OverrunEndsBehind(e: Entry, g: SignalGroup)
    requires FateOf(e, g.fields, g.registerCount) == Overrun
    ensures !AllEndInside(g)
  {
    hide Lookup;
    var f := Lookup(g.fields, e.name).value;
    var i :| 0 <= i < |g.fields| && g.fields[i] == f;
  }

  lemma CompleteWriteCrashesExactly(m: FloatModel, c: Config, k: nat, params: Params, g: SignalGroup, t: RegisterType,
                                    address: register, data: seq<Entry>, values: seq<Float>, w: Conversion)
    requires ConfigOk(c) && k < |c.devices|
    requires Target(c.devices[k], params) == Some((g, t, address)) && !IsReadOnly(t) && params.data == Some(data)
    requires UniqueKeys(data) && Complete(m, data, g.fields, values)
    requires Converts(m, c.devices[k], WriteSignalGroup, params, w)
    ensures w == Crash <==> !AllEndInside(g)
  {
    hide Target, Encodes, Complete, UniqueKeys, AllEndInside, ConfigOk, Valid;
    var d := c.devices[k];
    TargetIsValid(c, k, params);
    var e :| Encodes(m, data, g.fields, g.registerCount, d.byteOrder, e) && w == WriteEncoded(t, address, e);
    CompleteFates(m, data, g, values, d.byteOrder, e);
  }

  lemma ReadConverts(m: FloatModel, d: Device, params: Params, r: Conversion)
    requires Target(d, params).Some? && Converts(m, d, ReadSignalGroup, params, r)
    ensures var (g, t, address) := Target(d, params).value;
      t == Holding ==> r == Op(ReadHolding(address, g.registerCount))
  {
    hide Target, Encodes;
  }

  lemma WriteConverts(m: FloatModel, d: Device, params: Params, w: Conversion) returns (e: Encoded)
    requires Target(d, params).Some? && Target(d, params).value.1 == Holding && params.data.Some?
    requires Converts(m, d, WriteSignalGroup, params, w)
    ensures var (g, t, address) := Target(d, params).value;
      Encodes(m, params.data.value, g.fields, g.registerCount, d.byteOrder, e) && w == WriteEncoded(t, address, e)
  {
    hide Target, Encodes, WriteEncoded;
    var (g, t, address) := Target(d, params).value;
    e :| Encodes(m, params.data.value, g.fields, g.registerCount, d.byteOrder, e) && w == WriteEncoded(t, address, e);
  }

  lemma WholeGroup(t: RegisterType, address: register, e: Encoded)
    requires t == Holding
    ensures e.Encoded? ==> WriteEncoded(t, address, e) == Op(WriteMultiple(address, e.registers))
  {}

  // ---------------------------------------------------------------- every kind of register

  /** Of groups with one name the first is meant. */
  lemma {:induction false} FindGroupIsFirst(groups: seq<SignalGroup>, name: string, i: nat)
    requires i < |groups| && groups[i].name == name && forall j :: 0 <= j < i ==> groups[j].name != name
    ensures FindGroup(groups, name) == Some(groups[i])
  {
    if i > 0 { FindGroupIsFirst(groups[1..], name, i - 1); }
  }

  /** The request that a read, or a write of one coil, is sent as (sections 6.1 to 6.5). */
  function RequestOf(op: ModbusOp): seq<byte>
    requires !op.WriteMultipleCoils? && !op.WriteMultiple?
  {
    match op
    case ReadCoil(address, count) => MockDevice.Request(1, address, count)
    case ReadDiscrete(address, count) => MockDevice.Request(2, address, count)
    case ReadHolding(address, count) => MockDevice.Request(3, address, count)
    case ReadInput(address, count) => MockDevice.Request(4, address, count)
    case WriteSingleCoil(address, value) => MockDevice.Request(5, address, if value then 0xFF00 else 0)
  }

  predicate OfBits(t: RegisterType) { t == Coil || t == Discrete }

  /** A device answers the operation with item `j` of `count` from the table of that kind. */
  predicate AnsweredFromTable(op: ModbusOp, t: RegisterType, address: register, count: nat, tables: MockDevice.Tables,
                              j: nat)
  {
    && !op.WriteMultipleCoils? && !op.WriteMultiple? && RequestOf(op) != [] && MockDevice.SpanOk(RequestOf(op))
    && address + j <= 0xFFFF
    && var answer := MockDevice.Answer(tables, RequestOf(op));
       && |answer| == 2 + (if OfBits(t) then (count + 7) / 8 else 2 * count)
       && match t
          case Holding => MockDevice.RepliesRegister(answer, j, MockDevice.At(tables.holding, address + j))
          case Input => MockDevice.RepliesRegister(answer, j, MockDevice.At(tables.input, address + j))
          case Coil => MockDevice.RepliesBit(answer, j, MockDevice.CoilAt(tables.coils, address + j))
          case Discrete => MockDevice.RepliesBit(answer, j, MockDevice.CoilAt(tables.discrete, address + j))
  }

  /** A read of a group becomes the request that a device answers from the table named by the letter of the group's
      address, beginning at the number behind it. */
  lemma GroupIsReadFromItsTable(m: FloatModel, c: Config, k: nat, params: Params, g: SignalGroup, t: RegisterType,
                                address: register, r: Conversion, tables: MockDevice.Tables, j: nat)
    requires ConfigOk(c) && k < |c.devices| && Target(c.devices[k], params) == Some((g, t, address))
    requires Converts(m, c.devices[k], ReadSignalGroup, params, r)
    requires j < g.registerCount <= (if OfBits(t) then 2000 else 125) && address + g.registerCount <= 0x1_0000
    ensures Prefixed(g.address, t, address)
    ensures r.Op? && AnsweredFromTable(r.op, t, address, g.registerCount, tables, j)
  {
    hide MockDevice.Answer, MockDevice.SpanOk, MockDevice.At, MockDevice.CoilAt, MockDevice.Request,
      MockDevice.RepliesRegister, MockDevice.RepliesBit;
    hide Target, Converts, ConfigOk, Prefixed, RequestOf;
    TargetAddress(c, k, params);
    ReadIsOp(m, c.devices[k], params, r);
    RequestIsSome(r.op);
    if OfBits(t) {
      MockDevice.BitsAreRead(tables, address, g.registerCount, j);
    } else {
      MockDevice.RegistersAreRead(tables, address, g.registerCount, j);
    }
  }

  lemma RequestIsSome(op: ModbusOp)
    requires !op.WriteMultipleCoils? && !op.WriteMultiple?
    ensures RequestOf(op) != []
  {}

  lemma TargetAddress(c: Config, k: nat, params: Params)
    requires ConfigOk(c) && k < |c.devices| && Target(c.devices[k], params).Some?
    ensures var (g, t, address) := Target(c.devices[k], params).value; Prefixed(g.address, t, address)
  {
    hide Valid, AddressVerdict, ParseRegisterAddress, Prefixed;
    var d := c.devices[k];
    var g := Target(d, params).value.0;
    assert DeviceOk(d) && g in d.signalGroups;
    var j :| 0 <= j < |d.signalGroups| && d.signalGroups[j] == g;
    assert GroupOk(d.signalGroups[j]);
    AcceptedIsParsed(g.address);
  }

  lemma ReadIsOp(m: FloatModel, d: Device, params: Params, r: Conversion)
    requires Target(d, params).Some? && Converts(m, d, ReadSignalGroup, params, r)
    ensures var (g, t, address) := Target(d, params).value;
      && r.Op? && !r.op.WriteMultipleCoils? && !r.op.WriteMultiple?
      && var code := match t case Coil => 1 case Discrete => 2 case Holding => 3 case Input => 4;
         RequestOf(r.op) == MockDevice.Request(code, address, g.registerCount)
  {
    hide Target, Encodes, MockDevice.Request;
  }

  /** The places of the unsigned numbers, in order. */
  ghost predicate NumbersAt(values: seq<Option<nat>>, at: seq<nat>) {
    && (forall i, j :: 0 <= i < j < |at| ==> at[i] < at[j])
    && (forall i :: 0 <= i < |at| ==> at[i] < |values| && values[at[i]].Some?)
    && (forall p :: 0 <= p < |values| ==> (p in at <==> values[p].Some?))
  }

  lemma NumbersStep(values: seq<Option<nat>>)
    requires values != []
    ensures var n := |values| - 1;
      Numbers(values) == Numbers(values[..n]) + if values[n].Some? then [values[n].value] else []
  {}

  lemma {:induction false} NumbersAre(values: seq<Option<nat>>) returns (at: seq<nat>)
    ensures NumbersAt(values, at) && |at| == |Numbers(values)|
    ensures forall i :: 0 <= i < |at| ==> at[i] < |values| && values[at[i]] == Some(Numbers(values)[i])
  {
    if values == [] {
      at := [];
    } else {
      var n := |values| - 1;
      var before := values[..n];
      at := NumbersAre(before);
      NumbersStep(values);
      if values[n].Some? { at := at + [n]; }
      hide Numbers;
      assert forall p :: 0 <= p < n ==> before[p] == values[p];
    }
  }

  /** A write of raw values takes the unsigned numbers among them, in their order: into registers modulo 65536, and
      into coils as whether they are not zero. Nothing is written to discrete inputs and input registers. */
  lemma RawWrite(m: FloatModel, d: Device, params: Params, g: SignalGroup, t: RegisterType, address: register,
                 values: seq<Option<nat>>, w: Conversion)
    returns (at: seq<nat>)
    requires Target(d, params) == Some((g, t, address)) && params.data.None? && params.values == Some(values)
    requires Converts(m, d, WriteSignalGroup, params, w)
    ensures NumbersAt(values, at)
    ensures t == Discrete || t == Input ==> w == NoOp
    ensures t == Holding ==>
      && w.Op? && w.op.WriteMultiple? && w.op.address == address && |w.op.registers| == |at|
      && forall i :: 0 <= i < |at| ==> w.op.registers[i] == values[at[i]].value % 65536
    ensures t == Coil ==> w.Op? && if |at| == 1 then w.op == WriteSingleCoil(address, values[at[0]].value != 0) else
      && w.op.WriteMultipleCoils? && w.op.address == address && |w.op.coils| == |at|
      && forall i :: 0 <= i < |at| ==> (w.op.coils[i] <==> values[at[i]].value != 0)
  {
    hide Target, Encodes, Numbers;
    at := NumbersAre(values);
  }

  /** Whatever the parameters, an operation is a read only for a read, and a write never goes to discrete inputs or
      input registers, nor anywhere without fields or values. */
  lemma NothingElseIsDone(m: FloatModel, d: Device, operation: Operation, params: Params, r: Conversion)
    requires Converts(m, d, operation, params, r)
    ensures operation == GetStatus || Target(d, params).None? ==> r == NoOp
    ensures operation == ReadSignalGroup && Target(d, params).Some? ==>
      r.Op? && (r.op.ReadCoil? || r.op.ReadDiscrete? || r.op.ReadInput? || r.op.ReadHolding?)
    ensures operation == WriteSignalGroup && Target(d, params).Some? ==>
      var t := Target(d, params).value.1;
      && (t == Discrete || t == Input || (params.data.None? && params.values.None?) ==> r == NoOp)
      && (r.Op? ==> if t == Coil then r.op.WriteSingleCoil? || r.op.WriteMultipleCoils? else r.op.WriteMultiple?)
  {
    hide Target, Encodes;
  }
}
