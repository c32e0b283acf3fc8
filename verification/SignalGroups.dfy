/** The signal-group codec: field values to registers and back, and the validation that guards it. */
module SignalGroups {
  import opened Basics
  import opened DataConversion

  datatype FieldMapping = FieldMapping(name: string, dataType: DataType, offset: register)

  datatype SignalGroup = SignalGroup(name: string, address: string, registerCount: register,
                                     fields: seq<FieldMapping>)

  /** A JSON value as the codec sees it: `as_f64` gives a number or nothing. */
  datatype JsonValue = Number(f: Float) | NotNumber

  /** An entry of the JSON object with the field values. */
  datatype Entry = Entry(name: string, value: JsonValue)

  datatype EncodedField = EncodedField(name: string, offset: register, registers: seq<register>)

  datatype ParsedField = ParsedField(name: string, value: Float, dataType: DataType)

  function RequiredRegisters(t: DataType): nat {
    match t
    case U16 | I16 | Bool => 1
    case U32 | I32 | F32 => 2
    case F64 => 4
  }

  /** `field.offset.saturating_add(required)` in 16 bits. */
  function SaturatedEnd(f: FieldMapping): nat {
    var end := f.offset + RequiredRegisters(f.dataType);
    if end > 0xFFFF then 0xFFFF else end
  }

  function End(f: FieldMapping): nat {
    f.offset + RequiredRegisters(f.dataType)
  }

  // ---------------------------------------------------------------- validation

  predicate UniqueNames(fields: seq<FieldMapping>) {
    forall i, j :: 0 <= i < j < |fields| ==> fields[i].name != fields[j].name
  }

  predicate Valid(g: SignalGroup) {
    UniqueNames(g.fields) && forall i :: 0 <= i < |g.fields| ==> SaturatedEnd(g.fields[i]) <= g.registerCount
  }

  method ValidateGroup(g: SignalGroup) returns (ok: bool)
    ensures ok <==> Valid(g)
  {
    var seen: set<string> := {};
    var i := 0;
    while i < |g.fields|
      invariant 0 <= i <= |g.fields|
      invariant seen == set k | 0 <= k < i :: g.fields[k].name
      invariant UniqueNames(g.fields[..i])
      invariant forall k :: 0 <= k < i ==> SaturatedEnd(g.fields[k]) <= g.registerCount
    {
      var field := g.fields[i];
      if field.name in seen { return false; }
      seen := seen + {field.name};
      if SaturatedEnd(field) > g.registerCount { return false; }
      i := i + 1;
    }
    assert g.fields[..i] == g.fields;
    ok := true;
  }

  /** A field that validation lets pass lies inside the group, except when the sum was saturated. */
  lemma AcceptedSpanFits(f: FieldMapping, registerCount: register)
    requires SaturatedEnd(f) <= registerCount
    ensures End(f) <= registerCount <==> !(registerCount == 0xFFFF && End(f) > 0xFFFF)
  {}

  lemma SaturationAdmitsTooLong() returns (g: SignalGroup)
    ensures Valid(g) && g.registerCount == 0xFFFF && |g.fields| == 1 && End(g.fields[0]) > g.registerCount
  {
    g := SignalGroup("g", "h0", 0xFFFF, [FieldMapping("x", U32, 0xFFFE)]);
  }

  // ---------------------------------------------------------------- bytes and registers

  function Word(high: byte, low: byte): register { high as int * 0x100 + low as int }

  function High(r: register): byte { r / 0x100 }

  function Low(r: register): byte { r % 0x100 }

  lemma WordOfHalves(high: byte, low: byte)
    ensures High(Word(high, low)) == high && Low(Word(high, low)) == low
  {}

  lemma HalvesOfWord(r: register)
    ensures Word(High(r), Low(r)) == r
  {}

  function Pack(bytes: seq<byte>): (rs: seq<register>)
    ensures |rs| == (|bytes| + 1) / 2
  {
    if |bytes| == 0 then []
    else if |bytes| == 1 then [bytes[0]]
    else [Word(bytes[0], bytes[1])] + Pack(bytes[2..])
  }

  function Unpack(rs: seq<register>): (bytes: seq<byte>)
    ensures |bytes| == 2 * |rs|
  {
    if rs == [] then [] else [High(rs[0]), Low(rs[0])] + Unpack(rs[1..])
  }

  /** The bytes of a field read from `rs`, which starts at the field. */
  function FieldBytes(rs: seq<register>, byteCount: nat): seq<byte>
    requires 1 <= byteCount <= 2 * |rs|
  {
    if byteCount == 1 then [Low(rs[0])] else Unpack(rs)[..byteCount]
  }

  method BytesToRegisters(bytes: seq<byte>) returns (registers: seq<register>)
    ensures registers == Pack(bytes)
  {
    registers := [];
    var i := 0;
    while i < |bytes|
      invariant 0 <= i <= |bytes|
      invariant registers + Pack(bytes[i..]) == Pack(bytes)
    {
      hide Word;
      ghost var rest := bytes[i..];
      if i + 1 < |bytes| {
        assert rest[2..] == bytes[i + 2..];
        registers := registers + [Word(bytes[i], bytes[i + 1])];
        i := i + 2;
      } else {
        registers := registers + [bytes[i]];
        i := i + 1;
      }
    }
  }

  lemma UnpackStep(rs: seq<register>, i: nat)
    requires i < |rs|
    ensures Unpack(rs[i..]) == [High(rs[i]), Low(rs[i])] + Unpack(rs[i + 1..])
  {
    assert rs[i..][1..] == rs[i + 1..];
  }

  lemma UnpackEnds(rs: seq<register>)
    ensures rs[0..] == rs && Unpack(rs[|rs|..]) == []
  {}

  lemma FieldBytesIs(rs: seq<register>, byteCount: nat)
    requires 1 <= byteCount <= 2 * |rs|
    ensures FieldBytes(rs, byteCount) == if byteCount == 1 then [Low(rs[0])] else Unpack(rs)[..byteCount]
  {}

  method ExtractBytes(registers: seq<register>, offset: nat, byteCount: nat) returns (bytes: seq<byte>)
    requires 1 <= byteCount && offset + (byteCount + 1) / 2 <= |registers|
    ensures bytes == FieldBytes(registers[offset..offset + (byteCount + 1) / 2], byteCount)
  {
    hide High, Low, Unpack, FieldBytes;
    var needed := (byteCount + 1) / 2;
    ghost var part := registers[offset..offset + needed];
    bytes := [];
    UnpackEnds(part);
    var i := 0;
    while i < needed
      invariant 0 <= i <= needed
      invariant byteCount == 1 ==> bytes == if i == 0 then [] else [Low(part[0])]
      invariant byteCount > 1 ==> bytes + Unpack(part[i..]) == Unpack(part)
    {
      var reg := registers[offset + i];
      UnpackStep(part, i);
      if byteCount == 1 {
        bytes := bytes + [Low(reg)];
      } else {
        bytes := bytes + [High(reg)];
        bytes := bytes + [Low(reg)];
      }
      i := i + 1;
    }
    assert part[i..] == [];
    FieldBytesIs(part, byteCount);
    bytes := bytes[..byteCount];
  }

  lemma {:induction false} UnpackPack(bytes: seq<byte>)
    requires |bytes| % 2 == 0
    ensures Unpack(Pack(bytes)) == bytes
  {
    if bytes == [] {
    } else {
      WordOfHalves(bytes[0], bytes[1]);
      hide Word, High, Low;
      UnpackPack(bytes[2..]);
      assert Pack(bytes)[1..] == Pack(bytes[2..]);
      assert bytes == [bytes[0], bytes[1]] + bytes[2..];
    }
  }

  /** What is packed for a field is extracted again. */
  lemma FieldBytesOfPacked(bytes: seq<byte>)
    requires |bytes| == 1 || (|bytes| > 0 && |bytes| % 2 == 0)
    ensures FieldBytes(Pack(bytes), |bytes|) == bytes
  {
    if |bytes| > 1 { UnpackPack(bytes); }
  }

  lemma {:induction false} PackUnpack(rs: seq<register>)
    ensures Pack(Unpack(rs)) == rs
  {
    if rs == [] {
    } else {
      HalvesOfWord(rs[0]);
      hide High, Low, Word;
      PackUnpack(rs[1..]);
      assert Unpack(rs)[2..] == Unpack(rs[1..]);
    }
  }

  lemma WholeFieldBytes(rs: seq<register>, t: DataType)
    requires t != Bool && |rs| == RequiredRegisters(t)
    ensures 1 <= BytesLen(t) == 2 * |rs| && FieldBytes(rs, BytesLen(t)) == Unpack(rs)
  {}

  // ---------------------------------------------------------------- looking a field up

  /** The mapping of a name in the table built from the list, where a later field replaces an earlier one. */
  function Lookup(fields: seq<FieldMapping>, name: string): (f: Option<FieldMapping>)
    ensures f.Some? ==> f.value in fields && f.value.name == name
    ensures f.None? ==> forall g <- fields :: g.name != name
  {
    if fields == [] then None
    else
      var last := fields[|fields| - 1];
      if last.name == name then Some(last) else Lookup(fields[..|fields| - 1], name)
  }

  /** The first mapping of a name, as `iter().find`. */
  function Find(fields: seq<FieldMapping>, name: string): (f: Option<FieldMapping>)
    ensures f.Some? ==> f.value in fields && f.value.name == name
    ensures f.None? ==> forall g <- fields :: g.name != name
  {
    if fields == [] then None
    else if fields[0].name == name then Some(fields[0])
    else Find(fields[1..], name)
  }

  lemma UniqueField(fields: seq<FieldMapping>, f: FieldMapping, g: FieldMapping)
    requires UniqueNames(fields) && f in fields && g in fields && f.name == g.name
    ensures f == g
  {
    var i :| 0 <= i < |fields| && fields[i] == f;
    var j :| 0 <= j < |fields| && fields[j] == g;
  }

  /** With unique names it does not matter which of the two is used. */
  lemma LookupIsFind(fields: seq<FieldMapping>, name: string)
    requires UniqueNames(fields)
    ensures Lookup(fields, name) == Find(fields, name)
  {
    var f, g := Lookup(fields, name), Find(fields, name);
    if f.Some? && g.Some? { UniqueField(fields, f.value, g.value); }
  }

  lemma {:induction false} LookupIsLast(fields: seq<FieldMapping>, name: string, i: nat)
    requires i < |fields| && fields[i].name == name && forall j :: i < j < |fields| ==> fields[j].name != name
    ensures Lookup(fields, name) == Some(fields[i])
  {
    if i < |fields| - 1 { LookupIsLast(fields[..|fields| - 1], name, i); }
  }

  lemma {:induction false} FindIsFirst(fields: seq<FieldMapping>, name: string, i: nat)
    requires i < |fields| && fields[i].name == name && forall j :: 0 <= j < i ==> fields[j].name != name
    ensures Find(fields, name) == Some(fields[i])
  {
    if i > 0 { FindIsFirst(fields[1..], name, i - 1); }
  }

  // ---------------------------------------------------------------- encoding

  function Registers(m: FloatModel, v: Float, t: DataType, order: ByteOrder): (rs: seq<register>)
    ensures |rs| == RequiredRegisters(t)
  {
    Pack(ToBytes(m, v, t, order))
  }

  /** One field written on its own. */
  function EncodeSingleField(m: FloatModel, name: string, value: JsonValue, fields: seq<FieldMapping>,
                             order: ByteOrder): Option<EncodedField>
  {
    var f := Find(fields, name);
    if f.None? || value.NotNumber? then None
    else Some(EncodedField(name, f.value.offset, Registers(m, value.f, f.value.dataType, order)))
  }

  /** What an entry contributes to a partial write, if anything. */
  function Piece(m: FloatModel, e: Entry, fields: seq<FieldMapping>, order: ByteOrder): Option<EncodedField> {
    var f := Lookup(fields, e.name);
    if f.None? || e.value.NotNumber? then None
    else Some(EncodedField(e.name, f.value.offset, Registers(m, e.value.f, f.value.dataType, order)))
  }

  /** The pieces of the entries that have one, in the order of the entries. */
  function Pieces(m: FloatModel, data: seq<Entry>, fields: seq<FieldMapping>, order: ByteOrder): seq<EncodedField> {
    if data == [] then []
    else
      var last := Piece(m, data[|data| - 1], fields, order);
      Pieces(m, data[..|data| - 1], fields, order) + (if last.Some? then [last.value] else [])
  }

  lemma PieceIsSingleField(m: FloatModel, e: Entry, fields: seq<FieldMapping>, order: ByteOrder)
    requires UniqueNames(fields)
    ensures Piece(m, e, fields, order) == EncodeSingleField(m, e.name, e.value, fields, order)
  {
    LookupIsFind(fields, e.name);
  }

  method EncodeFieldsForPartialWrite(m: FloatModel, data: seq<Entry>, fields: seq<FieldMapping>, order: ByteOrder)
    returns (results: seq<EncodedField>)
    ensures results == Pieces(m, data, fields, order)
  {
    results := [];
    var i := 0;
    while i < |data|
      invariant 0 <= i <= |data|
      invariant results == Pieces(m, data[..i], fields, order)
    {
      assert data[..i + 1][..i] == data[..i];
      var e := data[i];
      i := i + 1;
      var field := Lookup(fields, e.name);
      if field.None? { continue; }
      if e.value.NotNumber? { continue; }
      var registers := BytesToRegisters(ToBytes(m, e.value.f, field.value.dataType, order));
      results := results + [EncodedField(e.name, field.value.offset, registers)];
    }
    assert data[..i] == data;
  }

  /** The outcome of a whole-group encode; `Panicked` is an index out of the register vector. */
  datatype Encoded = Encoded(registers: seq<register>) | Refused | Panicked

  /** `base` with `piece` written at `offset`. */
  function Overlay(base: seq<register>, offset: nat, piece: seq<register>): (r: seq<register>)
    requires offset + |piece| <= |base|
    ensures |r| == |base|
    ensures forall j :: 0 <= j < |base| ==>
      r[j] == if offset <= j < offset + |piece| then piece[j - offset] else base[j]
  {
    base[..offset] + piece + base[offset + |piece|..]
  }

  predicate Inside(p: EncodedField, count: nat) {
    p.offset + |p.registers| <= count
  }

  predicate AllInside(ps: seq<EncodedField>, count: nat) {
    forall i :: 0 <= i < |ps| ==> Inside(ps[i], count)
  }

  function Zeros(n: nat): (r: seq<register>)
    ensures |r| == n
  {
    seq(n, _ => 0)
  }

  /** The pieces written one after the other on a group of zero registers. */
  function OverlayAll(count: nat, ps: seq<EncodedField>): (r: seq<register>)
    requires AllInside(ps, count)
    ensures |r| == count
  {
    if ps == [] then Zeros(count)
    else
      var last := ps[|ps| - 1];
      Overlay(OverlayAll(count, ps[..|ps| - 1]), last.offset, last.registers)
  }

  /** How one entry fares: no mapping, no number or a span past the end; a span only saturation let pass; or fine. */
  datatype Fate = Bad | Overrun | Fits

  function FateOf(e: Entry, fields: seq<FieldMapping>, count: register): Fate {
    var f := Lookup(fields, e.name);
    if f.None? || e.value.NotNumber? || SaturatedEnd(f.value) > count then Bad
    else if End(f.value) > count then Overrun
    else Fits
  }

  predicate AllFit(data: seq<Entry>, fields: seq<FieldMapping>, count: register) {
    forall i :: 0 <= i < |data| ==> FateOf(data[i], fields, count) == Fits
  }

  lemma PieceFits(m: FloatModel, e: Entry, fields: seq<FieldMapping>, count: register, order: ByteOrder)
    requires FateOf(e, fields, count) == Fits
    ensures Piece(m, e, fields, order).Some? && Inside(Piece(m, e, fields, order).value, count)
  {}

  lemma PiecesLast(m: FloatModel, data: seq<Entry>, fields: seq<FieldMapping>, order: ByteOrder)
    requires data != [] && Piece(m, data[|data| - 1], fields, order).Some?
    ensures Pieces(m, data, fields, order)
         == Pieces(m, data[..|data| - 1], fields, order) + [Piece(m, data[|data| - 1], fields, order).value]
  {
    hide Piece;
  }

  lemma AllFitPrefix(data: seq<Entry>, fields: seq<FieldMapping>, count: register)
    requires AllFit(data, fields, count) && data != []
    ensures AllFit(data[..|data| - 1], fields, count) && FateOf(data[|data| - 1], fields, count) == Fits
  {
    hide FateOf;
  }

  lemma AllInsideLast(ps: seq<EncodedField>, p: EncodedField, count: nat)
    requires AllInside(ps, count) && Inside(p, count)
    ensures AllInside(ps + [p], count)
  {
    hide Inside;
  }

  lemma PiecesEmpty(m: FloatModel, fields: seq<FieldMapping>, order: ByteOrder)
    ensures Pieces(m, [], fields, order) == []
  {}

  lemma AllInsideEmpty(count: nat)
    ensures AllInside([], count)
  {}

  lemma {:induction false} FittingPieces(m: FloatModel, data: seq<Entry>, fields: seq<FieldMapping>, count: register,
                                         order: ByteOrder)
    requires AllFit(data, fields, count)
    ensures |Pieces(m, data, fields, order)| == |data|
    ensures forall i :: 0 <= i < |data| ==> Piece(m, data[i], fields, order) == Some(Pieces(m, data, fields, order)[i])
    ensures AllInside(Pieces(m, data, fields, order), count)
  {
    hide *;
    if data != [] {
      var n := |data| - 1;
      AllFitPrefix(data, fields, count);
      PieceFits(m, data[n], fields, count, order);
      PiecesLast(m, data, fields, order);
      var d := data[..n];
      var last := Piece(m, data[n], fields, order).value;
      FittingPieces(m, d, fields, count, order);
      var ps := Pieces(m, d, fields, order);
      AllInsideLast(ps, last, count);
      assert Pieces(m, data, fields, order) == ps + [last];
      forall i | 0 <= i < |data| ensures Piece(m, data[i], fields, order) == Some((ps + [last])[i]) {
        if i < n { assert data[i] == d[i]; }
      }
    } else {
      PiecesEmpty(m, fields, order);
      AllInsideEmpty(count);
    }
  }

  /** A whole-group encode succeeds exactly when every entry fits, and is then the partial-write pieces
      laid over zeros; the first entry that does not fit decides how it fails. */
  ghost predicate Encodes(m: FloatModel, data: seq<Entry>, fields: seq<FieldMapping>, count: register,
                          order: ByteOrder, r: Encoded)
  {
    match r
    case Encoded(rs) => AllFit(data, fields, count) &&
      (FittingPieces(m, data, fields, count, order); rs == OverlayAll(count, Pieces(m, data, fields, order)))
    case Refused => exists i :: 0 <= i < |data| && AllFit(data[..i], fields, count)
                                && FateOf(data[i], fields, count) == Bad
    case Panicked => exists i :: 0 <= i < |data| && AllFit(data[..i], fields, count)
                                 && FateOf(data[i], fields, count) == Overrun
  }

  method EncodeFieldsToRegisters(m: FloatModel, data: seq<Entry>, fields: seq<FieldMapping>, count: register,
                                 order: ByteOrder)
    returns (r: Encoded)
    ensures Encodes(m, data, fields, count, order, r)
  {
    hide Encodes, ToBytes, Lookup;
    var registers := Zeros(count);
    var i := 0;
    EncodeNothing(m, fields, count, order);
    while i < |data|
      invariant 0 <= i <= |data|
      invariant |registers| == count
      invariant Encodes(m, data[..i], fields, count, order, Encoded(registers))
    {
      var e := data[i];
      assert data[..i + 1] == data[..i] + [e];
      if FateOf(e, fields, count) != Fits { EncodeStops(m, data, i, fields, count, order, registers); }
      var field := Lookup(fields, e.name);
      if field.None? { return Refused; }
      if e.value.NotNumber? { return Refused; }
      var bytes := ToBytes(m, e.value.f, field.value.dataType, order);
      if SaturatedEnd(field.value) > count { return Refused; }
      var regs := BytesToRegisters(bytes);
      if field.value.offset + |regs| > |registers| { return Panicked; }
      EncodeOneMore(m, data[..i], e, fields, count, order, registers);
      registers := WriteAt(registers, field.value.offset, regs);
      i := i + 1;
    }
    assert data[..i] == data;
    r := Encoded(registers);
  }

  lemma EncodeNothing(m: FloatModel, fields: seq<FieldMapping>, count: register, order: ByteOrder)
    ensures Encodes(m, [], fields, count, order, Encoded(Zeros(count)))
  {}

  lemma EncodeStops(m: FloatModel, data: seq<Entry>, i: nat, fields: seq<FieldMapping>, count: register,
                    order: ByteOrder, registers: seq<register>)
    requires i < |data| && Encodes(m, data[..i], fields, count, order, Encoded(registers))
    requires FateOf(data[i], fields, count) != Fits
    ensures Encodes(m, data, fields, count, order,
                    if FateOf(data[i], fields, count) == Bad then Refused else Panicked)
  {
    hide FateOf;
  }

  /** The inner loop: register by register into the group. */
  method WriteAt(base: seq<register>, offset: nat, regs: seq<register>) returns (registers: seq<register>)
    requires offset + |regs| <= |base|
    ensures registers == Overlay(base, offset, regs)
  {
    registers := base;
    var i := 0;
    while i < |regs|
      invariant 0 <= i <= |regs|
      invariant |registers| == |base|
      invariant forall j :: 0 <= j < |base| ==>
        registers[j] == if offset <= j < offset + i then regs[j - offset] else base[j]
    {
      registers := registers[offset + i := regs[i]];
      i := i + 1;
    }
  }

  lemma EncodeOneMore(m: FloatModel, before: seq<Entry>, e: Entry, fields: seq<FieldMapping>, count: register,
                      order: ByteOrder, registers: seq<register>)
    requires Encodes(m, before, fields, count, order, Encoded(registers))
    requires FateOf(e, fields, count) == Fits
    ensures var f := Lookup(fields, e.name).value;
      Encodes(m, before + [e], fields, count, order,
              Encoded(Overlay(registers, f.offset, Registers(m, e.value.f, f.dataType, order))))
  {
    var data := before + [e];
    assert data[..|before|] == before;
    FittingPieces(m, before, fields, count, order);
    FittingPieces(m, data, fields, count, order);
    var ps := Pieces(m, data, fields, order);
    assert ps[..|ps| - 1] == Pieces(m, before, fields, order);
  }

  // ---------------------------------------------------------------- decoding

  function ParseField(m: FloatModel, registers: seq<register>, f: FieldMapping, order: ByteOrder): Option<ParsedField> {
    if End(f) > |registers| then None
    else
      var v := FromBytes(m, FieldBytes(registers[f.offset..End(f)], BytesLen(f.dataType)), f.dataType, order);
      if v.Some? then Some(ParsedField(f.name, v.value, f.dataType)) else None
  }

  function ParseFields(m: FloatModel, registers: seq<register>, fields: seq<FieldMapping>, order: ByteOrder)
    : seq<ParsedField>
  {
    if fields == [] then []
    else
      var last := ParseField(m, registers, fields[|fields| - 1], order);
      ParseFields(m, registers, fields[..|fields| - 1], order) + (if last.Some? then [last.value] else [])
  }

  lemma ParseFieldsStep(m: FloatModel, registers: seq<register>, fields: seq<FieldMapping>, k: nat, order: ByteOrder)
    requires k <= |fields|
    ensures k == 0 ==> ParseFields(m, registers, fields[..k], order) == []
    ensures k > 0 ==> var p := ParseField(m, registers, fields[k - 1], order);
      ParseFields(m, registers, fields[..k], order)
        == ParseFields(m, registers, fields[..k - 1], order) + (if p.Some? then [p.value] else [])
  {
    hide ParseField;
    if k > 0 { assert fields[..k][..k - 1] == fields[..k - 1]; }
  }

  method ParseSignalGroupFields(m: FloatModel, registers: seq<register>, fields: seq<FieldMapping>, order: ByteOrder)
    returns (results: seq<ParsedField>)
    ensures results == ParseFields(m, registers, fields, order)
  {
    hide ParseFields, FieldBytes, FromBytes;
    results := [];
    var i := 0;
    ParseFieldsStep(m, registers, fields, 0, order);
    while i < |fields|
      invariant 0 <= i <= |fields|
      invariant results == ParseFields(m, registers, fields[..i], order)
    {
      ParseFieldsStep(m, registers, fields, i + 1, order);
      var field := fields[i];
      i := i + 1;
      if field.offset + RequiredRegisters(field.dataType) > |registers| { continue; }
      var bytes := ExtractBytes(registers, field.offset, BytesLen(field.dataType));
      var value := FromBytes(m, bytes, field.dataType, order);
      if value.Some? {
        results := results + [ParsedField(field.name, value.value, field.dataType)];
      }
    }
    assert fields[..i] == fields;
  }

  lemma ParseFieldSucceeds(m: FloatModel, registers: seq<register>, f: FieldMapping, order: ByteOrder)
    requires End(f) <= |registers|
    ensures ParseField(m, registers, f, order).Some?
  {}

  lemma ParseFieldsLast(m: FloatModel, registers: seq<register>, fields: seq<FieldMapping>, order: ByteOrder)
    requires fields != [] && ParseField(m, registers, fields[|fields| - 1], order).Some?
    ensures ParseFields(m, registers, fields, order)
         == ParseFields(m, registers, fields[..|fields| - 1], order)
            + [ParseField(m, registers, fields[|fields| - 1], order).value]
  {
    hide ParseField;
  }

  /** Reading all registers of the group skips no field. */
  lemma {:induction false} FullReadSkipsNothing(m: FloatModel, registers: seq<register>, fields: seq<FieldMapping>,
                                                order: ByteOrder)
    requires forall i :: 0 <= i < |fields| ==> End(fields[i]) <= |registers|
    ensures |ParseFields(m, registers, fields, order)| == |fields|
    ensures forall i :: 0 <= i < |fields| ==>
      Some(ParseFields(m, registers, fields, order)[i]) == ParseField(m, registers, fields[i], order)
  {
    if fields == [] {
    } else {
      hide *;
      var n := |fields| - 1;
      ParseFieldSucceeds(m, registers, fields[n], order);
      ParseFieldsLast(m, registers, fields, order);
      var fs := fields[..n];
      FullReadSkipsNothing(m, registers, fs, order);
      var all, before := ParseFields(m, registers, fields, order), ParseFields(m, registers, fs, order);
      forall i | 0 <= i < |fields| ensures Some(all[i]) == ParseField(m, registers, fields[i], order) {
        if i < n { assert fields[i] == fs[i] && all[i] == before[i]; } else { assert i == n; }
      }
    }
  }

  /** A Bool field reads the low byte of its register only. */
  lemma BoolReadsLowByte(m: FloatModel, registers: seq<register>, f: FieldMapping, order: ByteOrder)
    requires f.dataType == Bool && End(f) <= |registers|
    ensures var x := registers[f.offset];
      ParseField(m, registers, f, order)
        == Some(ParsedField(f.name, Finite(if x % 0x100 != 0 then 1.0 else 0.0), Bool))
  {
    var x := registers[f.offset];
    assert registers[f.offset..End(f)] == [x];
    assert ConvertByteOrder([x % 0x100], order) == [x % 0x100];
  }

  /** "Non-zero is true" therefore holds exactly for the registers that are zero or have a non-zero low byte. */
  lemma BoolIsNonZeroUnless(m: FloatModel, x: register, order: ByteOrder)
    ensures var f := FieldMapping("b", Bool, 0);
      ParseField(m, [x], f, order) == Some(ParsedField("b", Finite(if x != 0 then 1.0 else 0.0), Bool))
      <==> !(x != 0 && x % 0x100 == 0)
  {
    BoolReadsLowByte(m, [x], FieldMapping("b", Bool, 0), order);
  }

  // ---------------------------------------------------------------- where every register comes from

  predicate Covers(p: EncodedField, j: nat) {
    p.offset <= j < p.offset + |p.registers|
  }

  ghost predicate DisjointPieces(ps: seq<EncodedField>) {
    forall a, b, j: nat :: 0 <= a < b < |ps| && Covers(ps[a], j) ==> !Covers(ps[b], j)
  }

  /** What a register of an overlay is, seen from any of the pieces that cover it. */
  ghost predicate Explains(ps: seq<EncodedField>, j: nat, x: register) {
    && (forall a :: 0 <= a < |ps| && Covers(ps[a], j) ==> x == ps[a].registers[j - ps[a].offset])
    && ((forall a :: 0 <= a < |ps| ==> !Covers(ps[a], j)) ==> x == 0)
  }

  /** Over disjoint pieces every register is the one of its piece, or zero. */
  lemma {:induction false} OverlayAllAt(count: nat, ps: seq<EncodedField>, j: nat)
    requires AllInside(ps, count) && DisjointPieces(ps) && j < count
    ensures Explains(ps, j, OverlayAll(count, ps)[j])
  {
    if ps == [] {
    } else {
      hide OverlayAll, Explains, DisjointPieces;
      var n := |ps| - 1;
      InitialPieces(ps, count);
      OverlayAllAt(count, ps[..n], j);
      OverlayLast(count, ps, j);
      ExplainsLast(ps, j, OverlayAll(count, ps[..n])[j]);
    }
  }

  lemma InitialPieces(ps: seq<EncodedField>, count: nat)
    requires ps != [] && AllInside(ps, count) && DisjointPieces(ps)
    ensures AllInside(ps[..|ps| - 1], count) && DisjointPieces(ps[..|ps| - 1])
  {
    hide Covers, Inside;
  }

  lemma OverlayLast(count: nat, ps: seq<EncodedField>, j: nat)
    requires ps != [] && AllInside(ps, count) && AllInside(ps[..|ps| - 1], count) && j < count
    ensures var last := ps[|ps| - 1];
      OverlayAll(count, ps)[j]
        == if Covers(last, j) then last.registers[j - last.offset] else OverlayAll(count, ps[..|ps| - 1])[j]
  {}

  lemma ExplainsLast(ps: seq<EncodedField>, j: nat, x: register)
    requires ps != [] && DisjointPieces(ps) && Explains(ps[..|ps| - 1], j, x)
    ensures var last := ps[|ps| - 1];
      Explains(ps, j, if Covers(last, j) then last.registers[j - last.offset] else x)
  {
    var n := |ps| - 1;
    assert forall a :: 0 <= a < n ==> ps[..n][a] == ps[a];
  }

  predicate DisjointSpans(fields: seq<FieldMapping>) {
    forall a, b :: 0 <= a < b < |fields| ==>
      End(fields[a]) <= fields[b].offset || End(fields[b]) <= fields[a].offset
  }

  /** The entries of a JSON object have distinct names. */
  predicate UniqueKeys(data: seq<Entry>) {
    forall i, j :: 0 <= i < j < |data| ==> data[i].name != data[j].name
  }

  lemma PiecesAreDisjoint(m: FloatModel, data: seq<Entry>, fields: seq<FieldMapping>, count: register, order: ByteOrder)
    requires AllFit(data, fields, count) && UniqueKeys(data) && DisjointSpans(fields)
    ensures DisjointPieces(Pieces(m, data, fields, order))
  {
    FittingPieces(m, data, fields, count, order);
    var ps := Pieces(m, data, fields, order);
    forall a, b, j: nat | 0 <= a < b < |ps| && Covers(ps[a], j) ensures !Covers(ps[b], j) {
      var f, g := Lookup(fields, data[a].name).value, Lookup(fields, data[b].name).value;
      var x :| 0 <= x < |fields| && fields[x] == f;
      var y :| 0 <= y < |fields| && fields[y] == g;
      assert x != y;
    }
  }

  /** With disjoint spans the registers do not depend on the order in which the entries are visited. */
  lemma EncodingIgnoresOrder(m: FloatModel, d1: seq<Entry>, d2: seq<Entry>, fields: seq<FieldMapping>, count: register,
                             order: ByteOrder, r1: Encoded, r2: Encoded)
    requires UniqueKeys(d1) && UniqueKeys(d2) && (forall e :: e in d1 <==> e in d2)
    requires DisjointSpans(fields)
    requires Encodes(m, d1, fields, count, order, r1) && Encodes(m, d2, fields, count, order, r2)
    ensures r1.Encoded? <==> r2.Encoded?
    ensures r1.Encoded? ==> r1 == r2
  {
    hide *;
    EncodedAllFit(m, d1, fields, count, order, r1);
    EncodedAllFit(m, d2, fields, count, order, r2);
    SameFates(d1, d2, fields, count);
    if r1.Encoded? {
      EncodedMeans(m, d1, fields, count, order, r1.registers);
      EncodedMeans(m, d2, fields, count, order, r2.registers);
      PiecesAreDisjoint(m, d1, fields, count, order);
      PiecesAreDisjoint(m, d2, fields, count, order);
      SamePieces(m, d1, d2, fields, count, order);
      SamePieces(m, d2, d1, fields, count, order);
      SameOverlay(count, Pieces(m, d1, fields, order), Pieces(m, d2, fields, order));
    }
  }

  lemma EncodedAllFit(m: FloatModel, data: seq<Entry>, fields: seq<FieldMapping>, count: register, order: ByteOrder,
                      r: Encoded)
    requires Encodes(m, data, fields, count, order, r)
    ensures r.Encoded? <==> AllFit(data, fields, count)
  {
    hide FateOf;
  }

  lemma EncodedMeans(m: FloatModel, data: seq<Entry>, fields: seq<FieldMapping>, count: register, order: ByteOrder,
                     registers: seq<register>)
    requires Encodes(m, data, fields, count, order, Encoded(registers))
    ensures var ps := Pieces(m, data, fields, order);
      AllFit(data, fields, count) && AllInside(ps, count) && registers == OverlayAll(count, ps)
  {
    FittingPieces(m, data, fields, count, order);
  }

  lemma SameFates(d1: seq<Entry>, d2: seq<Entry>, fields: seq<FieldMapping>, count: register)
    requires forall e :: e in d1 <==> e in d2
    ensures AllFit(d1, fields, count) <==> AllFit(d2, fields, count)
  {
    hide FateOf;
    assert AllFit(d1, fields, count) <==> forall e <- d1 :: FateOf(e, fields, count) == Fits;
    assert AllFit(d2, fields, count) <==> forall e <- d2 :: FateOf(e, fields, count) == Fits;
  }

  predicate OneOf(p: EncodedField, ps: seq<EncodedField>) {
    exists b :: 0 <= b < |ps| && ps[b] == p
  }

  predicate Among(ps1: seq<EncodedField>, ps2: seq<EncodedField>) {
    forall a :: 0 <= a < |ps1| ==> OneOf(ps1[a], ps2)
  }

  lemma SamePieces(m: FloatModel, d1: seq<Entry>, d2: seq<Entry>, fields: seq<FieldMapping>, count: register,
                   order: ByteOrder)
    requires AllFit(d1, fields, count) && AllFit(d2, fields, count)
    requires forall e <- d1 :: e in d2
    ensures Among(Pieces(m, d1, fields, order), Pieces(m, d2, fields, order))
  {
    hide Pieces, Piece, AllFit, AllInside;
    FittingPieces(m, d1, fields, count, order);
    FittingPieces(m, d2, fields, count, order);
    var ps1, ps2 := Pieces(m, d1, fields, order), Pieces(m, d2, fields, order);
    forall a | 0 <= a < |ps1| ensures OneOf(ps1[a], ps2) {
      assert d1[a] in d1;
      var b :| 0 <= b < |d2| && d2[b] == d1[a];
      assert ps2[b] == ps1[a];
    }
  }

  lemma SameExplanation(ps1: seq<EncodedField>, ps2: seq<EncodedField>, j: nat, x: register, y: register)
    requires Among(ps1, ps2) && Among(ps2, ps1)
    requires Explains(ps1, j, x) && Explains(ps2, j, y)
    ensures x == y
  {
    if a :| 0 <= a < |ps1| && Covers(ps1[a], j) {
      assert OneOf(ps1[a], ps2);
    } else if b :| 0 <= b < |ps2| && Covers(ps2[b], j) {
      assert OneOf(ps2[b], ps1);
    }
  }

  /** Disjoint pieces may be laid in any order. */
  lemma SameOverlay(count: nat, ps1: seq<EncodedField>, ps2: seq<EncodedField>)
    requires AllInside(ps1, count) && AllInside(ps2, count) && DisjointPieces(ps1) && DisjointPieces(ps2)
    requires Among(ps1, ps2) && Among(ps2, ps1)
    ensures OverlayAll(count, ps1) == OverlayAll(count, ps2)
  {
    hide *;
    forall j: nat | j < count ensures OverlayAll(count, ps1)[j] == OverlayAll(count, ps2)[j] {
      OverlayAllAt(count, ps1, j);
      OverlayAllAt(count, ps2, j);
      SameExplanation(ps1, ps2, j, OverlayAll(count, ps1)[j], OverlayAll(count, ps2)[j]);
    }
  }

  /** Registers that no supplied field covers stay zero. */
  lemma UntouchedIsZero(m: FloatModel, data: seq<Entry>, fields: seq<FieldMapping>, count: register, order: ByteOrder,
                        registers: seq<register>, j: nat)
    requires Encodes(m, data, fields, count, order, Encoded(registers)) && j < |registers|
    requires UniqueKeys(data) && DisjointSpans(fields)
    requires forall f <- fields :: f.offset <= j < End(f) ==> forall e <- data :: e.name != f.name
    ensures registers[j] == 0
  {
    hide Encodes, OverlayAll, FateOf, Explains, DisjointPieces, DisjointSpans, Pieces, Registers, AllInside;
    EncodedMeans(m, data, fields, count, order, registers);
    FittingPieces(m, data, fields, count, order);
    PiecesAreDisjoint(m, data, fields, count, order);
    var ps := Pieces(m, data, fields, order);
    OverlayAllAt(count, ps, j);
    forall a | 0 <= a < |ps| ensures !Covers(ps[a], j) {
      assert data[a] in data;
      var f := Lookup(fields, data[a].name).value;
      assert f in fields && f.name == data[a].name;
    }
    NothingCovers(ps, j, registers[j]);
  }

  lemma NothingCovers(ps: seq<EncodedField>, j: nat, x: register)
    requires Explains(ps, j, x) && forall a :: 0 <= a < |ps| ==> !Covers(ps[a], j)
    ensures x == 0
  {}

  // ---------------------------------------------------------------- the round trip

  /** The number supplied for a name. */
  predicate Supplies(data: seq<Entry>, name: string, v: Float) {
    Entry(name, Number(v)) in data
  }

  lemma PieceOfField(m: FloatModel, e: Entry, fields: seq<FieldMapping>, count: register, order: ByteOrder,
                     f: FieldMapping, v: Float)
    requires UniqueNames(fields) && f in fields && e == Entry(f.name, Number(v))
    requires FateOf(e, fields, count) == Fits
    ensures Piece(m, e, fields, order) == Some(EncodedField(f.name, f.offset, Registers(m, v, f.dataType, order)))
    ensures End(f) == f.offset + |Registers(m, v, f.dataType, order)|
  {
    hide Lookup;
    UniqueField(fields, f, Lookup(fields, f.name).value);
  }

  /** The registers of a field hold what its own entry encodes to. */
  lemma PieceInPlace(m: FloatModel, data: seq<Entry>, g: SignalGroup, order: ByteOrder, registers: seq<register>,
                     f: FieldMapping, v: Float)
    requires Valid(g) && UniqueKeys(data) && DisjointSpans(g.fields)
    requires Encodes(m, data, g.fields, g.registerCount, order, Encoded(registers))
    requires f in g.fields && Supplies(data, f.name, v)
    ensures |registers| == g.registerCount && End(f) <= g.registerCount
    ensures registers[f.offset..End(f)] == Registers(m, v, f.dataType, order)
  {
    var count := g.registerCount;
    var i :| 0 <= i < |data| && data[i] == Entry(f.name, Number(v));
    EncodedMeans(m, data, g.fields, count, order, registers);
    assert FateOf(data[i], g.fields, count) == Fits && UniqueNames(g.fields);
    hide *;
    FittingPieces(m, data, g.fields, count, order);
    PiecesAreDisjoint(m, data, g.fields, count, order);
    PieceOfField(m, data[i], g.fields, count, order, f, v);
    WholePieceInPlace(count, Pieces(m, data, g.fields, order), i);
    InsideMeans(Pieces(m, data, g.fields, order)[i], count);
  }

  lemma InsideMeans(p: EncodedField, count: nat)
    requires Inside(p, count)
    ensures p.offset + |p.registers| <= count
  {}

  /** Over disjoint pieces every piece is found where it was written. */
  lemma WholePieceInPlace(count: nat, ps: seq<EncodedField>, i: nat)
    requires AllInside(ps, count) && DisjointPieces(ps) && i < |ps|
    ensures var p := ps[i];
      Inside(p, count) && OverlayAll(count, ps)[p.offset..p.offset + |p.registers|] == p.registers
  {
    var p := ps[i];
    assert Inside(p, count);
    var r := OverlayAll(count, ps);
    hide OverlayAll, DisjointPieces;
    forall j: nat | p.offset <= j < p.offset + |p.registers| ensures r[j] == p.registers[j - p.offset] {
      OverlayAllAt(count, ps, j);
      assert Covers(p, j);
    }
  }

  lemma ParseFieldIs(m: FloatModel, registers: seq<register>, f: FieldMapping, order: ByteOrder, v: Float)
    requires End(f) <= |registers|
    requires FromBytes(m, FieldBytes(registers[f.offset..End(f)], BytesLen(f.dataType)), f.dataType, order) == Some(v)
    ensures ParseField(m, registers, f, order) == Some(ParsedField(f.name, v, f.dataType))
  {}

  lemma RegistersAreBytes(m: FloatModel, v: Float, t: DataType, order: ByteOrder)
    ensures var bytes := ToBytes(m, v, t, order);
      && Registers(m, v, t, order) == Pack(bytes)
      && |bytes| == BytesLen(t)
      && (|bytes| == 1 || (|bytes| > 0 && |bytes| % 2 == 0))
  {
    hide Pack, ToBytes;
  }

  lemma ReadBack(m: FloatModel, registers: seq<register>, f: FieldMapping, v: Float, order: ByteOrder)
    requires m.Lawful() && (f.dataType == F64 ==> m.isDouble(v))
    requires End(f) <= |registers| && registers[f.offset..End(f)] == Registers(m, v, f.dataType, order)
    ensures ParseField(m, registers, f, order) == Some(ParsedField(f.name, Delivered(m, v, f.dataType), f.dataType))
  {
    hide *;
    var bytes := ToBytes(m, v, f.dataType, order);
    RegistersAreBytes(m, v, f.dataType, order);
    FieldBytesOfPacked(bytes);
    BytesRoundTrip(m, v, f.dataType, order);
    ParseFieldIs(m, registers, f, order, Delivered(m, v, f.dataType));
  }

  /** A field that was supplied reads back as the value its type can hold. */
  lemma FieldRoundTrip(m: FloatModel, data: seq<Entry>, g: SignalGroup, order: ByteOrder, registers: seq<register>,
                       f: FieldMapping, v: Float)
    requires m.Lawful() && Valid(g) && UniqueKeys(data) && DisjointSpans(g.fields)
    requires Encodes(m, data, g.fields, g.registerCount, order, Encoded(registers))
    requires f in g.fields && Supplies(data, f.name, v) && (f.dataType == F64 ==> m.isDouble(v))
    ensures ParseField(m, registers, f, order) == Some(ParsedField(f.name, Delivered(m, v, f.dataType), f.dataType))
  {
    hide *;
    PieceInPlace(m, data, g, order, registers, f, v);
    ReadBack(m, registers, f, v, order);
  }

  /** A complete object: every field of the group is supplied with a number the target format can hold. */
  ghost predicate Complete(m: FloatModel, data: seq<Entry>, fields: seq<FieldMapping>, values: seq<Float>) {
    && |values| == |fields|
    && (forall i :: 0 <= i < |fields| ==> Supplies(data, fields[i].name, values[i]))
    && (forall i :: 0 <= i < |fields| && fields[i].dataType == F64 ==> m.isDouble(values[i]))
    && (forall a :: 0 <= a < |data| ==> exists i :: 0 <= i < |fields| && fields[i].name == data[a].name)
  }

  /** No field ends behind the group. */
  predicate AllEndInside(g: SignalGroup) {
    forall i :: 0 <= i < |g.fields| ==> End(g.fields[i]) <= g.registerCount
  }

  /** Below the largest register count, validation guarantees that. */
  lemma ValidEndsInside(g: SignalGroup)
    requires Valid(g)
    ensures AllEndInside(g) <==>
      !(g.registerCount == 0xFFFF && exists i :: 0 <= i < |g.fields| && End(g.fields[i]) > 0xFFFF)
  {
    forall i | 0 <= i < |g.fields|
      ensures End(g.fields[i]) <= g.registerCount <==> !(g.registerCount == 0xFFFF && End(g.fields[i]) > 0xFFFF)
    {
      AcceptedSpanFits(g.fields[i], g.registerCount);
    }
  }

  /** For a valid group and a complete object: when no field ends behind the group, encoding succeeds, and parsing
      the registers gives every field, in field order, with its value truncated and saturated, taken to 0 or 1,
      rounded, or unchanged, as its type says; otherwise the encoder indexes out of bounds. */
  lemma CodecRoundTrip(m: FloatModel, data: seq<Entry>, g: SignalGroup, values: seq<Float>, order: ByteOrder,
                       r: Encoded)
    requires m.Lawful() && Valid(g) && DisjointSpans(g.fields)
    requires UniqueKeys(data) && Complete(m, data, g.fields, values)
    requires Encodes(m, data, g.fields, g.registerCount, order, r)
    ensures if AllEndInside(g) then r.Encoded? && |r.registers| == g.registerCount else r.Panicked?
    ensures AllEndInside(g) ==>
      var out := ParseFields(m, r.registers, g.fields, order);
      && |out| == |g.fields|
      && forall i :: 0 <= i < |g.fields| ==>
           var f := g.fields[i]; out[i] == ParsedField(f.name, Delivered(m, values[i], f.dataType), f.dataType)
  {
    hide *;
    CompleteFates(m, data, g, values, order, r);
    if AllEndInside(g) { RegistersRoundTrip(m, data, g, values, order, r.registers); }
  }

  lemma EncodedLength(m: FloatModel, data: seq<Entry>, fields: seq<FieldMapping>, count: register, order: ByteOrder,
                      registers: seq<register>)
    requires Encodes(m, data, fields, count, order, Encoded(registers))
    ensures |registers| == count
  {
    EncodedMeans(m, data, fields, count, order, registers);
  }

  lemma RegistersRoundTrip(m: FloatModel, data: seq<Entry>, g: SignalGroup, values: seq<Float>, order: ByteOrder,
                           registers: seq<register>)
    requires m.Lawful() && Valid(g) && DisjointSpans(g.fields) && AllEndInside(g)
    requires UniqueKeys(data) && Complete(m, data, g.fields, values)
    requires Encodes(m, data, g.fields, g.registerCount, order, Encoded(registers))
    ensures |registers| == g.registerCount
    ensures var out := ParseFields(m, registers, g.fields, order);
      && |out| == |g.fields|
      && forall i :: 0 <= i < |g.fields| ==>
           var f := g.fields[i]; out[i] == ParsedField(f.name, Delivered(m, values[i], f.dataType), f.dataType)
  {
    hide FloatModel.Lawful, Valid, DisjointSpans, UniqueKeys, Supplies, Encodes, ParseFields, ParseField, Delivered,
      End;
    EncodedLength(m, data, g.fields, g.registerCount, order, registers);
    FullReadSkipsNothing(m, registers, g.fields, order);
    forall i | 0 <= i < |g.fields|
      ensures var f := g.fields[i];
        ParseField(m, registers, f, order) == Some(ParsedField(f.name, Delivered(m, values[i], f.dataType), f.dataType))
    {
      FieldRoundTrip(m, data, g, order, registers, g.fields[i], values[i]);
    }
  }

  /** How the encoding of a complete object ends. */
  lemma CompleteFates(m: FloatModel, data: seq<Entry>, g: SignalGroup, values: seq<Float>, order: ByteOrder, r: Encoded)
    requires Valid(g) && UniqueKeys(data) && Complete(m, data, g.fields, values)
    requires Encodes(m, data, g.fields, g.registerCount, order, r)
    ensures AllFit(data, g.fields, g.registerCount) <==> AllEndInside(g)
    ensures if AllEndInside(g) then r.Encoded? else r.Panicked?
  {
    hide FateOf, End, Encodes, Valid;
    EncodedAllFit(m, data, g.fields, g.registerCount, order, r);
    forall a | 0 <= a < |data| ensures FateOf(data[a], g.fields, g.registerCount) != Bad
      ensures AllEndInside(g) ==> FateOf(data[a], g.fields, g.registerCount) == Fits
    {
      var i :| 0 <= i < |g.fields| && g.fields[i].name == data[a].name;
      SuppliedFate(data, g, a, i, values[i]);
    }
    forall i | 0 <= i < |g.fields| && End(g.fields[i]) > g.registerCount
      ensures !AllFit(data, g.fields, g.registerCount)
    {
      assert Supplies(data, g.fields[i].name, values[i]);
      var a :| 0 <= a < |data| && data[a] == Entry(g.fields[i].name, Number(values[i]));
      SuppliedFate(data, g, a, i, values[i]);
    }
    NoneBadNotRefused(m, data, g, order, r);
  }

  lemma NoneBadNotRefused(m: FloatModel, data: seq<Entry>, g: SignalGroup, order: ByteOrder, r: Encoded)
    requires forall a :: 0 <= a < |data| ==> FateOf(data[a], g.fields, g.registerCount) != Bad
    requires Encodes(m, data, g.fields, g.registerCount, order, r)
    ensures !r.Refused?
  {
    hide FateOf;
  }

  lemma SuppliedFate(data: seq<Entry>, g: SignalGroup, a: nat, i: nat, v: Float)
    requires Valid(g) && UniqueKeys(data)
    requires a < |data| && i < |g.fields| && g.fields[i].name == data[a].name
    requires Supplies(data, g.fields[i].name, v)
    ensures FateOf(data[a], g.fields, g.registerCount) == if End(g.fields[i]) <= g.registerCount then Fits else Overrun
  {
    hide Lookup;
    var b :| 0 <= b < |data| && data[b] == Entry(g.fields[i].name, Number(v));
    assert a == b;
    var f := Lookup(g.fields, data[a].name);
    assert g.fields[i] in g.fields;
    UniqueField(g.fields, g.fields[i], f.value);
  }

  /** For example: two fields given 70000.5 and 3.0 read back as 65535 and 1, whatever the order of bytes. */
  lemma RoundTripExample(order: ByteOrder) returns (m: FloatModel, g: SignalGroup, data: seq<Entry>, r: Encoded)
    ensures m.Lawful() && Valid(g) && DisjointSpans(g.fields) && AllEndInside(g) && UniqueKeys(data)
    ensures Complete(m, data, g.fields, [Finite(70000.5), Finite(3.0)])
    ensures Encodes(m, data, g.fields, g.registerCount, order, r) && r.Encoded?
    ensures ParseFields(m, r.registers, g.fields, order)
         == [ParsedField("level", Finite(65535.0), U16), ParsedField("on", Finite(1.0), Bool)]
  {
    hide *;
    m := LawfulModelExists();
    var level, on := FieldMapping("level", U16, 0), FieldMapping("on", Bool, 1);
    g := SignalGroup("tank", "h100", 2, [level, on]);
    data := [Entry("on", Number(Finite(3.0))), Entry("level", Number(Finite(70000.5)))];
    ExampleFits(g, data);
    ExampleIsComplete(m, g, data);
    r := FittingEncodes(m, data, g.fields, 2, order);
    ExampleDelivers(m);
    CodecRoundTrip(m, data, g, [Finite(70000.5), Finite(3.0)], order, r);
    ExampleFields(ParseFields(m, r.registers, g.fields, order));
  }

  lemma ExampleFields(out: seq<ParsedField>)
    requires |out| == 2 && out[0] == ParsedField("level", Finite(65535.0), U16)
    requires out[1] == ParsedField("on", Finite(1.0), Bool)
    ensures out == [ParsedField("level", Finite(65535.0), U16), ParsedField("on", Finite(1.0), Bool)]
  {}

  lemma FittingEncodes(m: FloatModel, data: seq<Entry>, fields: seq<FieldMapping>, count: register, order: ByteOrder)
    returns (r: Encoded)
    requires AllFit(data, fields, count)
    ensures Encodes(m, data, fields, count, order, r) && r.Encoded?
  {
    FittingPieces(m, data, fields, count, order);
    r := Encoded(OverlayAll(count, Pieces(m, data, fields, order)));
  }

  lemma ExampleFits(g: SignalGroup, data: seq<Entry>)
    requires g == SignalGroup("tank", "h100", 2, [FieldMapping("level", U16, 0), FieldMapping("on", Bool, 1)])
    requires data == [Entry("on", Number(Finite(3.0))), Entry("level", Number(Finite(70000.5)))]
    ensures AllFit(data, g.fields, 2) && Valid(g) && DisjointSpans(g.fields) && AllEndInside(g) && UniqueKeys(data)
  {
    var level, on := g.fields[0], g.fields[1];
    assert level.name != on.name;
    assert g.fields[..1] == [level] && g.fields[..1][..0] == [];
    assert Lookup(g.fields, "on") == Some(on);
    assert Lookup(g.fields, "level") == Some(level);
  }

  lemma ExampleIsComplete(m: FloatModel, g: SignalGroup, data: seq<Entry>)
    requires g == SignalGroup("tank", "h100", 2, [FieldMapping("level", U16, 0), FieldMapping("on", Bool, 1)])
    requires data == [Entry("on", Number(Finite(3.0))), Entry("level", Number(Finite(70000.5)))]
    ensures Complete(m, data, g.fields, [Finite(70000.5), Finite(3.0)])
  {
    assert data[0] in data && data[1] in data;
    assert g.fields[1].name == data[0].name && g.fields[0].name == data[1].name;
  }

  lemma ExampleDelivers(m: FloatModel)
    ensures Delivered(m, Finite(70000.5), U16) == Finite(65535.0) && Delivered(m, Finite(3.0), Bool) == Finite(1.0)
  {}
}
