/** What a field looks like on the wire: which number it carries, and in which register, half by half, each part of
    that number travels. */
module WireFormat {
  import opened Basics
  import opened DataConversion
  import opened SignalGroups

  // ---------------------------------------------------------------- the format

  /** How many registers a type takes. */
  function Width(t: DataType): nat {
    match t
    case U16 | I16 | Bool => 1
    case U32 | I32 | F32 => 2
    case F64 => 4
  }

  /** The digit `p` of a number of `count` 16-bit digits, the most significant first; of a negative number that of its
      two's complement. */
  function Digit(n: int, count: nat, p: nat): register
    requires p < count
    decreases count
  {
    if p == count - 1 then n % 0x1_0000 else Digit(n / 0x1_0000, count - 1, p)
  }

  /** Register `j` of a number in each order: the little-endian orders reverse the registers, and two of the orders
      exchange the bytes within each. */
  function Wire(n: int, count: nat, order: ByteOrder, j: nat): register
    requires j < count
  {
    var digit := Digit(n, count, if order.LittleEndian? || order.LittleEndianByteSwap? then count - 1 - j else j);
    if order.LittleEndian? || order.MidBig? then digit % 0x100 * 0x100 + digit / 0x100 else digit
  }

  function Least(t: DataType): int {
    match t
    case I16 => -32768
    case I32 => -2147483648
    case _ => 0
  }

  function Greatest(t: DataType): int {
    match t
    case I16 => 32767
    case I32 => 2147483647
    case U32 => 4294967295
    case _ => 65535
  }

  /** `c` is `v` without its fraction or, outside the range of the type, the nearest bound. */
  predicate Closest(v: Float, t: DataType, c: int) {
    match v
    case NaN => c == 0
    case Infinite(negative) => c == if negative then Least(t) else Greatest(t)
    case Finite(r) =>
      if r >= Greatest(t) as real then c == Greatest(t)
      else if r <= Least(t) as real then c == Least(t)
      else if r >= 0.0 then c as real <= r < c as real + 1.0
      else c as real - 1.0 < r <= c as real
  }

  /** The number that a field carries for a value. */
  ghost predicate Carries(m: FloatModel, v: Float, t: DataType, n: int) {
    match t
    case F32 => n == m.bits32(m.round32(v))
    case F64 => n == m.bits64(v)
    case Bool => n == if v == Finite(0.0) then 0 else 1
    case _ => Closest(v, t, n)
  }

  // ---------------------------------------------------------------- bytes and digits

  lemma {:induction false} PackAt(bytes: seq<byte>, j: nat)
    requires |bytes| % 2 == 0 && 2 * j + 1 < |bytes|
    ensures Pack(bytes)[j] == bytes[2 * j] as int * 0x100 + bytes[2 * j + 1] as int
    decreases j
  {
    if j > 0 {
      PackAt(bytes[2..], j - 1);
      assert Pack(bytes)[j] == Pack(bytes[2..])[j - 1];
    }
  }

  /** Two neighbouring bytes are a digit, the high one first. */
  lemma {:induction false} BytesOfDigit(n: nat, count: nat, p: nat)
    requires p < count
    ensures var bytes := ToBigEndian(n, 2 * count);
      bytes[2 * p] as int * 0x100 + bytes[2 * p + 1] as int == Digit(n, count, p) as int
    decreases count
  {
    assert ToBigEndian(n, 2 * count) == ToBigEndian(n / 256, 2 * count - 1) + [n % 256];
    assert ToBigEndian(n / 256, 2 * count - 1) == ToBigEndian(n / 256 / 256, 2 * count - 2) + [n / 256 % 256];
    if p < count - 1 {
      assert n / 256 / 256 == n / 0x1_0000;
      BytesOfDigit(n / 0x1_0000, count - 1, p);
    }
  }

  /** Where each byte comes from, in each order and at every length. */
  lemma OrderByIndex(data: seq<byte>, i: nat)
    requires i < |data|
    ensures ConvertByteOrder(data, BigEndian)[i] == data[i]
    ensures ConvertByteOrder(data, LittleEndian)[i] == data[|data| - 1 - i]
    ensures ConvertByteOrder(data, LittleEndianByteSwap)[i]
         == data[if |data| in [4, 8] then |data| - 2 - 2 * (i / 2) + i % 2 else i]
    ensures ConvertByteOrder(data, MidBig)[i]
         == data[if i % 2 == 1 then i - 1 else if i + 1 < |data| then i + 1 else i]
  {
    hide Reverse, SwapPairs;
  }

  /** So the registers stay whole: each takes the place that `Wire` says, with its bytes exchanged or not. */
  lemma OrderByRegister(data: seq<byte>, order: ByteOrder, count: nat, j: nat)
    requires count in [1, 2, 4] && |data| == 2 * count && j < count
    ensures var q := if order.LittleEndian? || order.LittleEndianByteSwap? then count - 1 - j else j;
      var exchanged := order.LittleEndian? || order.MidBig?;
      && ConvertByteOrder(data, order)[2 * j] == data[if exchanged then 2 * q + 1 else 2 * q]
      && ConvertByteOrder(data, order)[2 * j + 1] == data[if exchanged then 2 * q else 2 * q + 1]
  {
    OrderByIndex(data, 2 * j);
    OrderByIndex(data, 2 * j + 1);
    hide ConvertByteOrder;
    assert (2 * j) / 2 == j && (2 * j) % 2 == 0 && (2 * j + 1) / 2 == j && (2 * j + 1) % 2 == 1;
    match order
    case BigEndian =>
    case LittleEndian =>
    case LittleEndianByteSwap => assert |data| - 2 - 2 * j == 2 * (count - 1 - j);
    case MidBig =>
  }

  lemma WireOfPattern(n: nat, count: nat, order: ByteOrder, j: nat)
    requires count in [1, 2, 4] && j < count
    ensures Pack(ConvertByteOrder(ToBigEndian(n, 2 * count), order))[j] == Wire(n, count, order, j)
  {
    hide ConvertByteOrder, Digit, Pack, ToBigEndian;
    var data := ToBigEndian(n, 2 * count);
    var q := if order.LittleEndian? || order.LittleEndianByteSwap? then count - 1 - j else j;
    OrderByRegister(data, order, count, j);
    PackAt(ConvertByteOrder(data, order), j);
    BytesOfDigit(n, count, q);
    HalvesOf(data[2 * q], data[2 * q + 1], Digit(n, count, q));
  }

  lemma HalvesOf(high: byte, low: byte, digit: register)
    requires high as int * 0x100 + low as int == digit as int
    ensures high as int == digit / 0x100 && low as int == digit % 0x100
  {}

  // ---------------------------------------------------------------- onto the wire

  /** The pattern of a number has its digits. */
  lemma {:induction false} DigitOfPattern(c: int, count: nat, p: nat, half: nat)
    requires p < count <= 2 && 0 <= c + half < 2 * half
    requires c < 0 ==> half == if count == 1 then 0x8000 else 0x8000_0000
    ensures Digit(Unsigned(c, half), count, p) == Digit(c, count, p)
  {}

  lemma PatternCarries(m: FloatModel, v: Float, t: DataType) returns (n: int)
    requires m.Lawful() && (t == F64 ==> m.isDouble(v))
    ensures Carries(m, v, t, n)
    ensures forall p :: 0 <= p < Width(t) ==> Digit(n, Width(t), p) == Digit(Pattern(m, v, t), Width(t), p)
  {
    match t {
      case U16 => n := Cast(v, 0, 0xFFFF);
      case U32 => n := Cast(v, 0, 0xFFFF_FFFF);
      case I16 =>
        n := Cast(v, -0x8000, 0x7FFF);
        DigitOfPattern(n, 1, 0, 0x8000);
      case I32 =>
        n := Cast(v, -0x8000_0000, 0x7FFF_FFFF);
        DigitOfPattern(n, 2, 0, 0x8000_0000);
        DigitOfPattern(n, 2, 1, 0x8000_0000);
      case _ => n := Pattern(m, v, t);
    }
    hide Digit;
  }

  lemma ToBytesIs(m: FloatModel, v: Float, t: DataType, order: ByteOrder)
    ensures t != Bool ==> BytesLen(t) == 2 * Width(t)
    ensures ToBytes(m, v, t, order) == ConvertByteOrder(ToBigEndian(Pattern(m, v, t), BytesLen(t)), order)
  {
    hide Pattern, ToBigEndian;
  }

  lemma RegisterOnTheWire(m: FloatModel, v: Float, t: DataType, order: ByteOrder, j: nat)
    requires t != Bool && j < Width(t)
    ensures |Registers(m, v, t, order)| == Width(t)
    ensures Registers(m, v, t, order)[j] == Wire(Pattern(m, v, t), Width(t), order, j)
  {
    ToBytesIs(m, v, t, order);
    hide Pattern, Wire, ConvertByteOrder, Pack, ToBytes, ToBigEndian;
    WireOfPattern(Pattern(m, v, t), Width(t), order, j);
  }

  lemma SameDigitsSameWire(n: int, p: int, count: nat, order: ByteOrder)
    requires forall i :: 0 <= i < count ==> Digit(n, count, i) == Digit(p, count, i)
    ensures forall j :: 0 <= j < count ==> Wire(n, count, order, j) == Wire(p, count, order, j)
  {
    hide Digit;
  }

  lemma BoolOnTheWire(m: FloatModel, v: Float, order: ByteOrder)
    ensures Registers(m, v, Bool, order) == [if v == Finite(0.0) then 0 else 1]
  {
    var pattern := Pattern(m, v, Bool);
    assert ToBigEndian(pattern, 1) == [pattern] by { assert ToBigEndian(pattern / 256, 0) == []; }
    assert ConvertByteOrder([pattern], order) == [pattern];
  }

  /** A field of any type in any order: the encoder sends, in each register, exactly the digit of the number that
      belongs there. */
  lemma NumberOnTheWire(m: FloatModel, v: Float, t: DataType, order: ByteOrder) returns (n: int)
    requires m.Lawful() && (t == F64 ==> m.isDouble(v))
    ensures Carries(m, v, t, n) && |Registers(m, v, t, order)| == Width(t)
    ensures t != Bool ==> forall j :: 0 <= j < Width(t) ==> Registers(m, v, t, order)[j] == Wire(n, Width(t), order, j)
    ensures t == Bool ==> Registers(m, v, t, order) == [n as register]
  {
    n := PatternCarries(m, v, t);
    if t == Bool {
      BoolOnTheWire(m, v, order);
    } else {
      hide *;
      SameDigitsSameWire(n, Pattern(m, v, t), Width(t), order);
      forall j | 0 <= j < Width(t) ensures Registers(m, v, t, order)[j] == Wire(n, Width(t), order, j) {
        RegisterOnTheWire(m, v, t, order, j);
      }
    }
  }

  // ---------------------------------------------------------------- off the wire

  /** The value that a number stands for. */
  ghost predicate StandsFor(m: FloatModel, n: int, t: DataType, v: Float) {
    match t
    case F32 => 0 <= n < 0x1_0000_0000 && v == m.value32(n)
    case F64 => 0 <= n < 0x1_0000_0000_0000_0000 && v == m.value64(n)
    case _ => Least(t) <= n <= Greatest(t) && v == Finite(n as real)
  }

  lemma MeaningStands(m: FloatModel, p: nat, t: DataType) returns (n: int)
    requires t != Bool && p < Pow256(2 * Width(t))
    ensures StandsFor(m, n, t, Meaning(m, p, t))
    ensures forall i :: 0 <= i < Width(t) ==> Digit(n, Width(t), i) == Digit(p, Width(t), i)
  {
    Widths();
    hide Pow256;
    match t {
      case I16 =>
        n := Signed(p, 0x8000);
        DigitOfPattern(n, 1, 0, 0x8000);
      case I32 =>
        n := Signed(p, 0x8000_0000);
        DigitOfPattern(n, 2, 0, 0x8000_0000);
        DigitOfPattern(n, 2, 1, 0x8000_0000);
      case _ => n := p;
    }
    hide Digit;
  }

  /** The pattern in the registers of a field, whatever they hold. */
  lemma PatternOffTheWire(m: FloatModel, rs: seq<register>, t: DataType, order: ByteOrder) returns (p: nat)
    requires t != Bool && |rs| == Width(t)
    ensures p < Pow256(2 * Width(t)) && forall j :: 0 <= j < Width(t) ==> rs[j] == Wire(p, Width(t), order, j)
    ensures FromBytes(m, FieldBytes(rs, BytesLen(t)), t, order) == Some(Meaning(m, p, t))
  {
    hide *;
    WidthIs(t);
    WholeFieldBytes(rs, t);
    var bytes := FieldBytes(rs, BytesLen(t));
    var canonical := ConvertByteOrder(bytes, order);
    p := FromBigEndian(canonical);
    FromBigEndianBound(canonical);
    BytesOfNumber(canonical);
    ConvertIsInvolution(bytes, order);
    BigEndianIsAsIs(bytes);
    FromBytesMeans(m, bytes, t, order, canonical);
    PackUnpack(rs);
    forall j | 0 <= j < Width(t) ensures rs[j] == Wire(p, Width(t), order, j) {
      WireOfPattern(p, Width(t), order, j);
    }
  }

  lemma WidthIs(t: DataType)
    ensures t != Bool ==> BytesLen(t) == 2 * Width(t) && Width(t) == RequiredRegisters(t) && Width(t) in [1, 2, 4]
  {}

  lemma BigEndianIsAsIs(data: seq<byte>)
    ensures ConvertByteOrder(data, BigEndian) == data
  {}

  /** Whatever the registers of a field hold: the parser gives the value of the number whose digits they are. */
  lemma NumberOffTheWire(m: FloatModel, registers: seq<register>, f: FieldMapping, order: ByteOrder) returns (n: int)
    requires f.dataType != Bool && f.offset + Width(f.dataType) <= |registers|
    ensures forall j :: 0 <= j < Width(f.dataType) ==>
      registers[f.offset + j] == Wire(n, Width(f.dataType), order, j)
    ensures exists v :: StandsFor(m, n, f.dataType, v)
                        && ParseField(m, registers, f, order) == Some(ParsedField(f.name, v, f.dataType))
  {
    var t := f.dataType;
    WidthIs(t);
    EndIs(f);
    hide *;
    var span := registers[f.offset..End(f)];
    var p := PatternOffTheWire(m, span, t, order);
    n := MeaningStands(m, p, t);
    SameDigitsSameWire(n, p, Width(t), order);
    ParseFieldIs(m, registers, f, order, Meaning(m, p, t));
    forall j | 0 <= j < Width(t) ensures registers[f.offset + j] == Wire(n, Width(t), order, j) {
      assert registers[f.offset + j] == span[j];
    }
  }

  lemma EndIs(f: FieldMapping)
    ensures End(f) == f.offset + RequiredRegisters(f.dataType)
  {}
}
