/** Conversion between field values and bytes, with the four byte orders. */
module DataConversion {
  import opened Basics

  datatype DataType = U16 | U32 | I16 | I32 | F32 | F64 | Bool

  datatype ByteOrder = BigEndian | LittleEndian | LittleEndianByteSwap | MidBig

  // ---------------------------------------------------------------- floating point values

  /** An `f64`, up to the sign of zero and the payload of a NaN. */
  datatype Float = NaN | Infinite(negative: bool) | Finite(r: real)

  /** What is left open of IEEE 754: rounding to single precision, which values an `f64` can hold, and the
      bit patterns of both formats. */
  datatype FloatModel = FloatModel(
    round32: Float -> Float, bits32: Float -> nat, value32: nat -> Float,
    isDouble: Float -> bool, bits64: Float -> nat, value64: nat -> Float)
  {
    /** Patterns are unique and have the width of their format. */
    ghost predicate Lawful() {
      && (forall x :: bits32(round32(x)) < Pow256(4) && value32(bits32(round32(x))) == round32(x))
      && (forall x :: isDouble(x) ==> bits64(x) < Pow256(8) && value64(bits64(x)) == x)
    }
  }

  /** `r` with its fraction dropped. */
  function Truncate(r: real): int {
    if r >= 0.0 then r.Floor else -((-r).Floor)
  }

  /** Rust's `v as <integer type>`. */
  function Cast(v: Float, lo: int, hi: int): int {
    match v
    case NaN => 0
    case Infinite(negative) => if negative then lo else hi
    case Finite(r) =>
      var n := Truncate(r);
      if n < lo then lo else if n > hi then hi else n
  }

  /** A cast stays in range, never moves away from zero, and loses less than one unless it saturates. */
  lemma CastTruncatesAndSaturates(v: Float, lo: int, hi: int)
    requires lo <= 0 <= hi && v.Finite?
    ensures lo <= Cast(v, lo, hi) <= hi
    ensures var c := Cast(v, lo, hi) as real;
      && (v.r >= 0.0 ==> 0.0 <= c <= v.r) && (v.r <= 0.0 ==> v.r <= c <= 0.0)
      && (v.r - 1.0 < c < v.r + 1.0 || (c == lo as real && v.r < c) || (c == hi as real && c < v.r))
  {}

  // ---------------------------------------------------------------- big-endian bytes

  function Pow256(k: nat): nat {
    if k == 0 then 1 else 256 * Pow256(k - 1)
  }

  lemma Widths()
    ensures Pow256(1) == 0x100 && Pow256(2) == 0x1_0000 && Pow256(4) == 0x1_0000_0000
    ensures Pow256(8) == 0x1_0000_0000_0000_0000
  {
    assert Pow256(3) == 0x100_0000;
    assert Pow256(5) == 0x100_0000_0000 && Pow256(6) == 0x1_0000_0000_0000 && Pow256(7) == 0x100_0000_0000_0000;
  }

  function ToBigEndian(n: nat, k: nat): (bs: seq<byte>)
    ensures |bs| == k
  {
    if k == 0 then [] else ToBigEndian(n / 256, k - 1) + [n % 256]
  }

  function FromBigEndian(bs: seq<byte>): nat {
    if bs == [] then 0 else FromBigEndian(bs[..|bs| - 1]) * 256 + bs[|bs| - 1]
  }

  lemma {:induction false} BigEndianRoundTrip(n: nat, k: nat)
    requires n < Pow256(k)
    ensures FromBigEndian(ToBigEndian(n, k)) == n
  {
    if k == 0 {
    } else {
      BigEndianRoundTrip(n / 256, k - 1);
      assert ToBigEndian(n, k)[..k - 1] == ToBigEndian(n / 256, k - 1);
    }
  }

  lemma {:induction false} FromBigEndianBound(bs: seq<byte>)
    ensures FromBigEndian(bs) < Pow256(|bs|)
  {
    if bs == [] {
    } else {
      FromBigEndianBound(bs[..|bs| - 1]);
    }
  }

  lemma {:induction false} BytesOfNumber(bs: seq<byte>)
    ensures ToBigEndian(FromBigEndian(bs), |bs|) == bs
  {
    if bs == [] {
    } else {
      BytesOfNumber(bs[..|bs| - 1]);
    }
  }

  /** Two's complement: the unsigned reading of `i`, and back, for a type of `2 * half` patterns. */
  function Unsigned(i: int, half: nat): nat
    requires 0 <= i + half < 2 * half
  {
    if i < 0 then i + 2 * half else i
  }

  function Signed(u: nat, half: nat): int {
    if u >= half then u - 2 * half else u
  }

  // ---------------------------------------------------------------- byte orders

  function Reverse(bs: seq<byte>): (r: seq<byte>)
    ensures |r| == |bs| && forall i :: 0 <= i < |bs| ==> r[i] == bs[|bs| - 1 - i]
  {
    if bs == [] then [] else Reverse(bs[1..]) + [bs[0]]
  }

  /** The other index of the two-byte chunk of `i`, in a sequence of `n` bytes. */
  function Partner(i: nat, n: nat): nat
    requires i < n
  {
    if i % 2 == 1 then i - 1 else if i + 1 < n then i + 1 else i
  }

  /** Every chunk of two bytes swapped; a last single byte stays. */
  function SwapPairs(bs: seq<byte>): (r: seq<byte>)
    ensures |r| == |bs| && forall i {:trigger r[i]} :: 0 <= i < |bs| ==> r[i] == bs[Partner(i, |bs|)]
  {
    if |bs| < 2 then bs else [bs[1], bs[0]] + SwapPairs(bs[2..])
  }

  function ConvertByteOrder(data: seq<byte>, order: ByteOrder): (r: seq<byte>)
    ensures |r| == |data|
  {
    match order
    case BigEndian => data
    case LittleEndian => Reverse(data)
    case LittleEndianByteSwap =>
      if |data| == 4 then [data[2], data[3], data[0], data[1]]
      else if |data| == 8 then [data[6], data[7], data[4], data[5], data[2], data[3], data[0], data[1]]
      else data
    case MidBig => SwapPairs(data)
  }

  lemma SwapPairsTwice(data: seq<byte>)
    ensures SwapPairs(SwapPairs(data)) == data
  {
    var n, once, twice := |data|, SwapPairs(data), SwapPairs(SwapPairs(data));
    hide SwapPairs;
    forall i | 0 <= i < n ensures twice[i] == data[i] {
      assert twice[i] == once[Partner(i, n)] == data[Partner(Partner(i, n), n)];
    }
  }

  lemma ReverseTwice(data: seq<byte>)
    ensures Reverse(Reverse(data)) == data
  {}

  /** Whatever the order and the length, converting twice gives the bytes back. */
  lemma ConvertIsInvolution(data: seq<byte>, order: ByteOrder)
    ensures ConvertByteOrder(ConvertByteOrder(data, order), order) == data
  {
    match order
    case BigEndian =>
    case LittleEndian => ReverseTwice(data);
    case LittleEndianByteSwap =>
    case MidBig => SwapPairsTwice(data);
  }

  /** On the field widths the four orders form a group: the two swaps commute and make up the reversal. */
  lemma OrdersFormGroup(data: seq<byte>)
    requires |data| in [1, 2, 4, 8]
    ensures var le := ConvertByteOrder(data, LittleEndian);
      && le == ConvertByteOrder(ConvertByteOrder(data, MidBig), LittleEndianByteSwap)
      && le == ConvertByteOrder(ConvertByteOrder(data, LittleEndianByteSwap), MidBig)
  {
    hide SwapPairs, Reverse;
    var swapped := ConvertByteOrder(data, LittleEndianByteSwap);
    assert Reverse(data) == ConvertByteOrder(SwapPairs(data), LittleEndianByteSwap);
    assert Reverse(data) == SwapPairs(swapped);
  }

  /** What the documentation says of `MidBig`: the words change places, then the bytes within each word. */
  function DocumentedMidBig(data: seq<byte>): seq<byte> {
    SwapPairs(ConvertByteOrder(data, LittleEndianByteSwap))
  }

  /** On the field widths the code does what the documentation says exactly for the bytes that changing the places
      of the words leaves alone, as it does all of one and two bytes. */
  lemma MidBigIsDocumentedExactly(data: seq<byte>)
    requires |data| in [1, 2, 4, 8]
    ensures ConvertByteOrder(data, MidBig) == DocumentedMidBig(data)
            <==> ConvertByteOrder(data, LittleEndianByteSwap) == data
    ensures |data| <= 2 ==> ConvertByteOrder(data, LittleEndianByteSwap) == data
  {
    SwapPairsTwice(data);
    SwapPairsTwice(ConvertByteOrder(data, LittleEndianByteSwap));
    hide SwapPairs;
  }

  /** Four different bytes, for example, come out as 2 1 4 3, not as 4 3 2 1. */
  lemma MidBigIsNotDocumented()
    ensures ConvertByteOrder([1, 2, 3, 4], MidBig) == [2, 1, 4, 3]
    ensures DocumentedMidBig([1, 2, 3, 4]) == [4, 3, 2, 1]
  {}

  // ---------------------------------------------------------------- values and bytes

  function BytesLen(t: DataType): nat {
    match t
    case U16 | I16 => 2
    case U32 | I32 | F32 => 4
    case F64 => 8
    case Bool => 1
  }

  function Pattern(m: FloatModel, v: Float, t: DataType): nat {
    match t
    case U16 => Cast(v, 0, 0xFFFF)
    case U32 => Cast(v, 0, 0xFFFF_FFFF)
    case I16 => Unsigned(Cast(v, -0x8000, 0x7FFF), 0x8000)
    case I32 => Unsigned(Cast(v, -0x8000_0000, 0x7FFF_FFFF), 0x8000_0000)
    case F32 => m.bits32(m.round32(v))
    case F64 => m.bits64(v)
    case Bool => if v != Finite(0.0) then 1 else 0
  }

  function ToBytes(m: FloatModel, v: Float, t: DataType, order: ByteOrder): (bs: seq<byte>)
    ensures |bs| == BytesLen(t)
  {
    var canonical := ToBigEndian(Pattern(m, v, t), BytesLen(t));
    if order == BigEndian then canonical else ConvertByteOrder(canonical, order)
  }

  /** The value that a bit pattern stands for. */
  function Meaning(m: FloatModel, n: nat, t: DataType): Float {
    match t
    case U16 | U32 => Finite(n as real)
    case I16 => Finite(Signed(n, 0x8000) as real)
    case I32 => Finite(Signed(n, 0x8000_0000) as real)
    case F32 => m.value32(n)
    case F64 => m.value64(n)
    case Bool => Finite(if n != 0 then 1.0 else 0.0)
  }

  function FromBytes(m: FloatModel, data: seq<byte>, t: DataType, order: ByteOrder): Option<Float> {
    if |data| != BytesLen(t) then None
    else
      var ordered := if order == BigEndian then data else ConvertByteOrder(data, order);
      var n := FromBigEndian(ordered);
      Some(if t == Bool then Finite(if ordered[0] != 0 then 1.0 else 0.0) else Meaning(m, n, t))
  }

  /** The value a field of type `t` holds after it was given `v`. */
  function Delivered(m: FloatModel, v: Float, t: DataType): Float {
    match t
    case U16 => Finite(Cast(v, 0, 0xFFFF) as real)
    case U32 => Finite(Cast(v, 0, 0xFFFF_FFFF) as real)
    case I16 => Finite(Cast(v, -0x8000, 0x7FFF) as real)
    case I32 => Finite(Cast(v, -0x8000_0000, 0x7FFF_FFFF) as real)
    case F32 => m.round32(v)
    case F64 => v
    case Bool => Finite(if v == Finite(0.0) then 0.0 else 1.0)
  }

  lemma PatternFits(m: FloatModel, v: Float, t: DataType)
    requires m.Lawful() && (t == F64 ==> m.isDouble(v))
    ensures Pattern(m, v, t) < Pow256(BytesLen(t))
  {
    Widths();
  }

  /** In every byte order the bytes of a value read back as the value its type can hold. */
  lemma BytesRoundTrip(m: FloatModel, v: Float, t: DataType, order: ByteOrder)
    requires m.Lawful() && (t == F64 ==> m.isDouble(v))
    ensures FromBytes(m, ToBytes(m, v, t, order), t, order) == Some(Delivered(m, v, t))
  {
    PatternFits(m, v, t);
    PatternMeans(m, v, t);
    hide ConvertByteOrder, ToBigEndian, FromBigEndian, Pattern, Meaning, Delivered, FromBytes, Pow256;
    var n, k := Pattern(m, v, t), BytesLen(t);
    var canonical := ToBigEndian(n, k);
    ConvertIsInvolution(canonical, order);
    BigEndianRoundTrip(n, k);
    FromBytesMeans(m, ToBytes(m, v, t, order), t, order, canonical);
  }

  lemma FromBytesMeans(m: FloatModel, data: seq<byte>, t: DataType, order: ByteOrder, canonical: seq<byte>)
    requires |data| == BytesLen(t) && canonical == if order == BigEndian then data else ConvertByteOrder(data, order)
    ensures FromBytes(m, data, t, order) == Some(Meaning(m, FromBigEndian(canonical), t))
  {
    hide ConvertByteOrder;
    if t == Bool { assert canonical[..0] == []; }
  }

  /** The pattern of a value stands for what the type can hold of it. */
  lemma PatternMeans(m: FloatModel, v: Float, t: DataType)
    requires m.Lawful() && (t == F64 ==> m.isDouble(v))
    ensures Meaning(m, Pattern(m, v, t), t) == Delivered(m, v, t)
  {
    CastInRange(v, -0x8000, 0x7FFF);
    CastInRange(v, -0x8000_0000, 0x7FFF_FFFF);
    hide Cast;
  }

  lemma CastInRange(v: Float, lo: int, hi: int)
    requires lo <= 0 <= hi
    ensures lo <= Cast(v, lo, hi) <= hi
  {}

  /** Both formats tell all their patterns apart. */
  ghost predicate TellsApart(m: FloatModel) {
    && (forall n: nat :: n < Pow256(4) ==> m.bits32(m.value32(n)) == n)
    && (forall n: nat :: n < Pow256(8) ==> m.bits64(m.value64(n)) == n)
  }

  /** The laws asked of the float model are consistent: a model of whole numbers, of 32 and of 64 bits, meets them. */
  lemma LawfulModelExists() returns (m: FloatModel)
    ensures m.Lawful() && TellsApart(m) && m.isDouble(Finite(7.0)) && m.round32(Finite(7.5)) == Finite(7.0)
  {
    Widths();
    var narrow := (x: Float) => if x.Finite? then Cast(x, 0, 0xFFFF_FFFF) as nat else 0;
    var wide := (x: Float) => if x.Finite? then Cast(x, 0, 0xFFFF_FFFF_FFFF_FFFF) as nat else 0;
    var value := (n: nat) => Finite(n as real);
    m := FloatModel(x => value(narrow(x)), narrow, value, x => value(wide(x)) == x, wide, value);
    forall n: nat
      ensures n < Pow256(4) ==> narrow(value(n)) == n
      ensures n < Pow256(8) ==> wide(value(n)) == n
    {
      if n < Pow256(4) { CastIsStable(n, 0xFFFF_FFFF); }
      if n < Pow256(8) { CastIsStable(n, 0xFFFF_FFFF_FFFF_FFFF); }
    }
    forall x: Float ensures narrow(x) < Pow256(4) && wide(x) < Pow256(8) {
      CastInRange(x, 0, 0xFFFF_FFFF);
      CastInRange(x, 0, 0xFFFF_FFFF_FFFF_FFFF);
    }
  }

  lemma CastIsStable(n: int, hi: int)
    requires 0 <= n <= hi
    ensures Cast(Finite(n as real), 0, hi) == n
  {}
}
