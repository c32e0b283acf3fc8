/** The register file of a Modbus device, as the test double keeps it, and the requests that read and write it
    (MODBUS Application Protocol Specification V1.1b3, sections 6.1, 6.2, 6.3, 6.4, 6.5, 6.6 and 6.12). */
module MockDevice {
  import opened Basics
  import opened SignalGroups

  const READ_COILS: byte := 0x01
  const READ_DISCRETE_INPUTS: byte := 0x02
  const READ_HOLDING_REGISTERS: byte := 0x03
  const READ_INPUT_REGISTERS: byte := 0x04
  const WRITE_SINGLE_COIL: byte := 0x05
  const WRITE_SINGLE_REGISTER: byte := 0x06
  const WRITE_MULTIPLE_REGISTERS: byte := 0x10

  const ILLEGAL_FUNCTION: byte := 0x01
  const ILLEGAL_DATA_VALUE: byte := 0x03

  // ---------------------------------------------------------------- the register file

  /** Registers that were never written read as zero. */
  type RegisterFile = map<register, register>

  function At(file: RegisterFile, a: register): register { if a in file then file[a] else 0 }

  function CoilAt(coils: map<register, bool>, a: register): bool { a in coils && coils[a] }

  function Stored(file: RegisterFile, start: register, values: seq<register>): RegisterFile
    requires start + |values| <= 0x1_0000
  {
    if values == [] then file
    else
      var n := |values| - 1;
      Stored(file, start, values[..n])[start + n := values[n]]
  }

  lemma StoredStep(file: RegisterFile, start: register, values: seq<register>, i: nat)
    requires i < |values| && start + |values| <= 0x1_0000
    ensures Stored(file, start, values[..i + 1]) == Stored(file, start, values[..i])[start + i := values[i]]
  {
    assert values[..i + 1][..i] == values[..i];
  }

  lemma {:induction false} StoredAt(file: RegisterFile, start: register, values: seq<register>, a: register)
    requires start + |values| <= 0x1_0000
    ensures At(Stored(file, start, values), a)
         == if start <= a < start + |values| then values[a - start] else At(file, a)
  {
    if values == [] {
    } else {
      StoredAt(file, start, values[..|values| - 1], a);
    }
  }

  function Loaded(file: RegisterFile, start: register, count: nat): (r: seq<register>)
    requires start + count <= 0x1_0000
    ensures |r| == count
  {
    seq<register>(count, i requires 0 <= i < count => At(file, start + i))
  }

  function CoilsFrom(coils: map<register, bool>, start: register, count: nat): (r: seq<bool>)
    requires start + count <= 0x1_0000
    ensures |r| == count
  {
    seq<bool>(count, i requires 0 <= i < count => CoilAt(coils, start + i))
  }

  /** A write reads back, and changes no other register. */
  lemma LoadedIsStored(file: RegisterFile, start: register, values: seq<register>, a: register)
    requires start + |values| <= 0x1_0000
    ensures Loaded(Stored(file, start, values), start, |values|) == values
    ensures !(start <= a < start + |values|) ==> At(Stored(file, start, values), a) == At(file, a)
  {
    StoredAt(file, start, values, a);
    hide Stored;
    forall i | 0 <= i < |values| ensures At(Stored(file, start, values), start + i) == values[i] {
      StoredAt(file, start, values, start + i);
    }
  }

  // ---------------------------------------------------------------- bits in bytes

  /** The first bit is the lowest. */
  function ByteOf(bits: seq<bool>): nat {
    if bits == [] then 0 else (if bits[0] then 1 else 0) + 2 * ByteOf(bits[1..])
  }

  function BitAt(b: nat, k: nat): bool { if k == 0 then b % 2 == 1 else BitAt(b / 2, k - 1) }

  lemma {:induction false} ByteOfFits(bits: seq<bool>)
    ensures ByteOf(bits) < Pow2(|bits|)
  {
    if bits == [] {
    } else {
      ByteOfFits(bits[1..]);
    }
  }

  /** Setting bit `k` adds 2 to the power of `k`. */
  lemma {:induction false} ByteOfSnoc(bits: seq<bool>, bit: bool)
    ensures ByteOf(bits + [bit]) == ByteOf(bits) + if bit then Pow2(|bits|) else 0
  {
    if bits == [] {
      assert [bit][1..] == [];
    } else {
      assert (bits + [bit])[1..] == bits[1..] + [bit];
      ByteOfSnoc(bits[1..], bit);
    }
  }

  lemma NothingSet(bits: seq<bool>)
    ensures ByteOf(bits[..0]) == 0
  {}

  lemma {:induction false} BitsOfByte(bits: seq<bool>, k: nat)
    ensures BitAt(ByteOf(bits), k) <==> k < |bits| && bits[k]
    decreases k, |bits|
  {
    if bits == [] {
      NoBits(k);
    } else if k > 0 {
      BitsOfByte(bits[1..], k - 1);
    }
  }

  lemma {:induction false} NoBits(k: nat)
    ensures !BitAt(0, k)
  {
    if k == 0 {
    } else {
      NoBits(k - 1);
    }
  }

  function Min(a: nat, b: nat): nat { if a <= b then a else b }

  /** The bits that go into byte `i`. */
  function Eighth(bits: seq<bool>, i: nat): (r: seq<bool>)
    requires 8 * i <= |bits|
    ensures |r| <= 8
  {
    bits[8 * i..Min(8 * i + 8, |bits|)]
  }

  lemma EighthAt(bits: seq<bool>, i: nat, k: nat)
    requires 8 * i + k < |bits| && k < 8
    ensures k < |Eighth(bits, i)| && Eighth(bits, i)[k] == bits[8 * i + k]
  {}

  lemma EighthEnds(bits: seq<bool>, i: nat, k: nat)
    requires 8 * i <= |bits| <= 8 * i + k
    ensures |Eighth(bits, i)| <= k
  {}

  function PackBits(bits: seq<bool>): (r: seq<byte>)
    ensures |r| == (|bits| + 7) / 8
    ensures forall i :: 0 <= i < |r| ==> r[i] as nat == ByteOf(Eighth(bits, i))
  {
    seq<byte>((|bits| + 7) / 8, i requires 0 <= i < (|bits| + 7) / 8 =>
      (EighthFits(Eighth(bits, i)); ByteOf(Eighth(bits, i)) as byte))
  }

  lemma EighthFits(bits: seq<bool>)
    requires |bits| <= 8
    ensures ByteOf(bits) < 0x100
  {
    ByteOfFits(bits);
    assert Pow2(8) == 0x100;
    Pow2Grows(|bits|, 8);
  }

  lemma {:induction false} Pow2Grows(a: nat, b: nat)
    requires a <= b
    ensures Pow2(a) <= Pow2(b)
  {
    if a < b { Pow2Grows(a, b - 1); }
  }

  /** Bit j of the packed bytes is the j-th bit, and the padding is zero. */
  lemma PackedBit(bits: seq<bool>, j: nat)
    requires j < 8 * |PackBits(bits)|
    ensures BitAt(PackBits(bits)[j / 8], j % 8) <==> j < |bits| && bits[j]
  {
    BitsOfByte(Eighth(bits, j / 8), j % 8);
  }

  // ---------------------------------------------------------------- requests and replies

  function Exception(code: byte, exception: byte): seq<byte> {
    [if code >= 0x80 then code else code + 0x80, exception]
  }

  /** The 16-bit number at `i`. */
  function WordAt(data: seq<byte>, i: nat): register
    requires i + 1 < |data|
  {
    Word(data[i], data[i + 1])
  }

  function WordsAt(data: seq<byte>, i: nat, count: nat): (r: seq<register>)
    requires i + 2 * count <= |data|
    ensures |r| == count
  {
    seq<register>(count, k requires 0 <= k < count => WordAt(data, i + 2 * k))
  }

  /** A read of up to `limit` items, if the request is one, stays within the 16-bit addresses. */
  predicate ReadSpanOk(data: seq<byte>, limit: nat) {
    |data| >= 4 && WordAt(data, 2) <= limit ==> WordAt(data, 0) + WordAt(data, 2) <= 0x1_0000
  }

  /** A write of several registers is carried out when its byte count fits both the count and the data. */
  predicate WriteMultipleOk(data: seq<byte>) {
    |data| >= 5 && |data| >= 5 + data[4] as int && 2 * (WordAt(data, 2) as int) == data[4] as int
  }

  /** So does a write that is carried out. */
  predicate WriteSpanOk(data: seq<byte>) {
    WriteMultipleOk(data) ==> WordAt(data, 0) + WordAt(data, 2) <= 0x1_0000
  }

  const MAX_REGISTERS: nat := 125
  const MAX_BITS: nat := 2000

  function ReadRegistersReply(code: byte, file: RegisterFile, data: seq<byte>): seq<byte>
    requires ReadSpanOk(data, MAX_REGISTERS)
  {
    if |data| < 4 || WordAt(data, 2) > MAX_REGISTERS then Exception(code, ILLEGAL_DATA_VALUE)
    else [code, (2 * WordAt(data, 2)) as byte] + Unpack(Loaded(file, WordAt(data, 0), WordAt(data, 2)))
  }

  function ReadBitsReply(code: byte, bits: map<register, bool>, data: seq<byte>): seq<byte>
    requires ReadSpanOk(data, MAX_BITS)
  {
    if |data| < 4 || WordAt(data, 2) > MAX_BITS then Exception(code, ILLEGAL_DATA_VALUE)
    else [code, (WordAt(data, 2) + 7) / 8] + PackBits(CoilsFrom(bits, WordAt(data, 0), WordAt(data, 2)))
  }

  /** Holding and input registers are read in the same way. */
  method ReadRegisters(code: byte, file: RegisterFile, data: seq<byte>) returns (reply: seq<byte>)
    requires ReadSpanOk(data, MAX_REGISTERS)
    ensures reply == ReadRegistersReply(code, file, data)
  {
    if |data| < 4 { return Exception(code, ILLEGAL_DATA_VALUE); }
    var start, count := WordAt(data, 0), WordAt(data, 2);
    if count > MAX_REGISTERS { return Exception(code, ILLEGAL_DATA_VALUE); }
    ghost var all := Loaded(file, start, count);
    reply := [code, 2 * count];
    var i := 0;
    assert all[..0] == [] && all[..count] == all;
    while i < count
      invariant 0 <= i <= count
      invariant reply == [code, 2 * count] + Unpack(all[..i])
    {
      var value := At(file, start + i);
      UnpackSnoc(all[..i], value);
      assert all[..i] + [value] == all[..i + 1];
      reply := reply + [High(value), Low(value)];
      i := i + 1;
    }
  }

  method ReadBits(code: byte, bits: map<register, bool>, data: seq<byte>) returns (reply: seq<byte>)
    requires ReadSpanOk(data, MAX_BITS)
    ensures reply == ReadBitsReply(code, bits, data)
  {
    if |data| < 4 { return Exception(code, ILLEGAL_DATA_VALUE); }
    var start, count := WordAt(data, 0), WordAt(data, 2);
    if count > MAX_BITS { return Exception(code, ILLEGAL_DATA_VALUE); }
    hide Eighth, ByteOf, CoilsFrom;
    ghost var packed := PackBits(CoilsFrom(bits, start, count));
    hide PackBits;
    var byteCount := (count + 7) / 8;
    reply := [code, byteCount];
    var byteIdx := 0;
    while byteIdx < byteCount
      invariant 0 <= byteIdx <= byteCount
      invariant reply == [code, byteCount] + packed[..byteIdx]
    {
      var byteVal := PackByte(bits, start, count, byteIdx);
      assert packed[..byteIdx + 1] == packed[..byteIdx] + [byteVal];
      reply := reply + [byteVal];
      byteIdx := byteIdx + 1;
    }
  }

  /** The inner loop: the bits of one byte, as far as there are any. */
  method PackByte(bits: map<register, bool>, start: register, count: nat, byteIdx: nat) returns (byteVal: byte)
    requires start + count <= 0x1_0000 && 8 * byteIdx < count
    ensures byteVal as nat == ByteOf(Eighth(CoilsFrom(bits, start, count), byteIdx))
  {
    hide Eighth, ByteOf, CoilAt;
    ghost var eighth := Eighth(CoilsFrom(bits, start, count), byteIdx);
    NothingSet(eighth);
    byteVal := 0;
    var bitIdx := 0;
    while bitIdx < 8
      invariant 0 <= bitIdx <= 8
      invariant byteVal as nat == ByteOf(eighth[..Min(bitIdx, |eighth|)])
    {
      var coilIdx := 8 * byteIdx + bitIdx;
      if coilIdx < count {
        var bit := CoilAt(bits, start + coilIdx);
        EighthAt(CoilsFrom(bits, start, count), byteIdx, bitIdx);
        ByteOfSnoc(eighth[..bitIdx], bit);
        assert eighth[..bitIdx] + [bit] == eighth[..bitIdx + 1];
        EighthFits(eighth[..bitIdx + 1]);
        if bit { byteVal := byteVal + Pow2(bitIdx); }
      } else {
        EighthEnds(CoilsFrom(bits, start, count), byteIdx, bitIdx);
      }
      bitIdx := bitIdx + 1;
    }
    assert eighth[..|eighth|] == eighth;
  }

  /** The four tables of a device. */
  datatype Tables = Tables(holding: RegisterFile, input: RegisterFile, coils: map<register, bool>,
                           discrete: map<register, bool>)

  function Body(data: seq<byte>): seq<byte>
    requires data != []
  {
    data[1..]
  }

  /** What the 16-bit address arithmetic of a request that is carried out asks for. */
  predicate SpanOk(data: seq<byte>)
    requires data != []
  {
    var code, body := data[0], Body(data);
    if code == READ_HOLDING_REGISTERS || code == READ_INPUT_REGISTERS then ReadSpanOk(body, MAX_REGISTERS)
    else if code == READ_COILS || code == READ_DISCRETE_INPUTS then ReadSpanOk(body, MAX_BITS)
    else code == WRITE_MULTIPLE_REGISTERS ==> WriteSpanOk(body)
  }

  /** What a request is answered, given the tables before it. */
  function Answer(t: Tables, data: seq<byte>): (r: seq<byte>)
    requires data != [] && SpanOk(data)
    ensures |r| < 0xFFFF
  {
    var code, body := data[0], Body(data);
    if code == READ_HOLDING_REGISTERS then ReadRegistersReply(code, t.holding, body)
    else if code == READ_INPUT_REGISTERS then ReadRegistersReply(code, t.input, body)
    else if code == READ_COILS then ReadBitsReply(code, t.coils, body)
    else if code == READ_DISCRETE_INPUTS then ReadBitsReply(code, t.discrete, body)
    else if code == WRITE_MULTIPLE_REGISTERS then
      if WriteMultipleOk(body) then [code] + body[..4] else Exception(code, ILLEGAL_DATA_VALUE)
    else if code == WRITE_SINGLE_REGISTER || code == WRITE_SINGLE_COIL then
      if |body| >= 4 then [code] + body[..4] else Exception(code, ILLEGAL_DATA_VALUE)
    else Exception(code, ILLEGAL_FUNCTION)
  }

  /** The tables after a request. */
  function After(t: Tables, data: seq<byte>): Tables
    requires data != [] && SpanOk(data)
  {
    var code, body := data[0], Body(data);
    if code == WRITE_SINGLE_REGISTER && |body| >= 4 then
      t.(holding := Stored(t.holding, WordAt(body, 0), [WordAt(body, 2)]))
    else if code == WRITE_MULTIPLE_REGISTERS && WriteMultipleOk(body) then
      t.(holding := Stored(t.holding, WordAt(body, 0), WordsAt(body, 5, WordAt(body, 2))))
    else if code == WRITE_SINGLE_COIL && |body| >= 4 then
      t.(coils := t.coils[WordAt(body, 0) := WordAt(body, 2) == 0xFF00])
    else t
  }

  class MockModbusState {
    var holdingRegisters: RegisterFile
    var inputRegisters: RegisterFile
    var coils: map<register, bool>
    var discreteInputs: map<register, bool>

    method HandleWriteSingleRegister(data: seq<byte>) returns (reply: seq<byte>)
      modifies `holdingRegisters
      ensures |data| < 4 ==> reply == Exception(WRITE_SINGLE_REGISTER, ILLEGAL_DATA_VALUE)
                             && holdingRegisters == old(holdingRegisters)
      ensures |data| >= 4 ==> reply == [WRITE_SINGLE_REGISTER] + data[..4]
                              && holdingRegisters == Stored(old(holdingRegisters), WordAt(data, 0), [WordAt(data, 2)])
    {
      if |data| < 4 { return Exception(WRITE_SINGLE_REGISTER, ILLEGAL_DATA_VALUE); }
      holdingRegisters := holdingRegisters[WordAt(data, 0) := WordAt(data, 2)];
      reply := [WRITE_SINGLE_REGISTER, data[0], data[1], data[2], data[3]];
    }

    method HandleWriteMultipleRegisters(data: seq<byte>) returns (reply: seq<byte>)
      requires WriteSpanOk(data)
      modifies `holdingRegisters
      ensures !WriteMultipleOk(data) ==> reply == Exception(WRITE_MULTIPLE_REGISTERS, ILLEGAL_DATA_VALUE)
                                         && holdingRegisters == old(holdingRegisters)
      ensures WriteMultipleOk(data) ==>
        && reply == [WRITE_MULTIPLE_REGISTERS] + data[..4]
        && holdingRegisters == Stored(old(holdingRegisters), WordAt(data, 0), WordsAt(data, 5, WordAt(data, 2)))
    {
      if |data| < 5 { return Exception(WRITE_MULTIPLE_REGISTERS, ILLEGAL_DATA_VALUE); }
      var start, count, byteCount := WordAt(data, 0), WordAt(data, 2), data[4];
      if |data| < 5 + byteCount as int || (count as int) * 2 != byteCount as int {
        return Exception(WRITE_MULTIPLE_REGISTERS, ILLEGAL_DATA_VALUE);
      }
      ghost var words := WordsAt(data, 5, count);
      assert Stored(holdingRegisters, start, words[..0]) == holdingRegisters;
      hide Stored;
      var i := 0;
      while i < count
        invariant 0 <= i <= count
        invariant holdingRegisters == Stored(old(holdingRegisters), start, words[..i])
      {
        StoredStep(old(holdingRegisters), start, words, i);
        holdingRegisters := holdingRegisters[start + i := WordAt(data, 5 + 2 * i)];
        i := i + 1;
      }
      assert words[..count] == words;
      reply := [WRITE_MULTIPLE_REGISTERS, data[0], data[1], data[2], data[3]];
    }

    method HandleWriteSingleCoil(data: seq<byte>) returns (reply: seq<byte>)
      modifies `coils
      ensures |data| < 4 ==> reply == Exception(WRITE_SINGLE_COIL, ILLEGAL_DATA_VALUE) && coils == old(coils)
      ensures |data| >= 4 ==> reply == [WRITE_SINGLE_COIL] + data[..4]
                              && coils == old(coils)[WordAt(data, 0) := WordAt(data, 2) == 0xFF00]
    {
      if |data| < 4 { return Exception(WRITE_SINGLE_COIL, ILLEGAL_DATA_VALUE); }
      coils := coils[WordAt(data, 0) := WordAt(data, 2) == 0xFF00];
      reply := [WRITE_SINGLE_COIL, data[0], data[1], data[2], data[3]];
    }

    ghost function Now(): Tables
      reads this
    {
      Tables(holdingRegisters, inputRegisters, coils, discreteInputs)
    }

    /** One request: dispatched by its function code, answered in a frame of its own. */
    method ProcessRequest(transaction: register, unit: byte, data: seq<byte>) returns (response: Option<seq<byte>>)
      requires data != [] ==> SpanOk(data)
      modifies this
      ensures data == [] ==> response.None? && Now() == old(Now())
      ensures data != [] ==> response == Some(Framed(transaction, unit, Answer(old(Now()), data)))
                             && Now() == After(old(Now()), data)
    {
      hide ReadRegistersReply, ReadBitsReply, WriteMultipleOk, WriteSpanOk, ReadSpanOk, Stored, WordsAt, Framed, WordAt;
      if data == [] { return None; }
      var code, body := data[0], data[1..];
      var reply: seq<byte>;
      if code == READ_HOLDING_REGISTERS {
        reply := ReadRegisters(code, holdingRegisters, body);
      } else if code == READ_INPUT_REGISTERS {
        reply := ReadRegisters(code, inputRegisters, body);
      } else if code == WRITE_SINGLE_REGISTER {
        reply := HandleWriteSingleRegister(body);
      } else if code == WRITE_MULTIPLE_REGISTERS {
        reply := HandleWriteMultipleRegisters(body);
      } else if code == READ_COILS {
        reply := ReadBits(code, coils, body);
      } else if code == READ_DISCRETE_INPUTS {
        reply := ReadBits(code, discreteInputs, body);
      } else if code == WRITE_SINGLE_COIL {
        reply := HandleWriteSingleCoil(body);
      } else {
        reply := Exception(code, ILLEGAL_FUNCTION);
      }
      assert reply == Answer(old(Now()), data);
      response := Some(Framed(transaction, unit, reply));
    }
  }

  lemma {:induction false} UnpackSnoc(rs: seq<register>, r: register)
    ensures Unpack(rs + [r]) == Unpack(rs) + [High(r), Low(r)]
  {
    if rs == [] {
      assert [r][1..] == [];
    } else {
      assert (rs + [r])[1..] == rs[1..] + [r];
      UnpackSnoc(rs[1..], r);
    }
  }

  // ---------------------------------------------------------------- what a client sees

  lemma WordsAtLast(data: seq<byte>, i: nat, n: nat)
    requires i + 2 * n + 2 <= |data|
    ensures WordsAt(data, i, n + 1) == WordsAt(data, i, n) + [Word(data[i + 2 * n], data[i + 2 * n + 1])]
    ensures data[i..i + 2 * (n + 1)] == data[i..i + 2 * n] + [data[i + 2 * n], data[i + 2 * n + 1]]
  {}

  /** The bytes of several numbers, unpacked again, are the bytes. */
  lemma {:induction false} UnpackWords(data: seq<byte>, i: nat, count: nat)
    requires i + 2 * count <= |data|
    ensures Unpack(WordsAt(data, i, count)) == data[i..i + 2 * count]
  {
    if count == 0 {
      assert WordsAt(data, i, 0) == [];
    } else {
      hide *;
      var n := count - 1;
      UnpackWords(data, i, n);
      WordsAtLast(data, i, n);
      UnpackSnoc(WordsAt(data, i, n), Word(data[i + 2 * n], data[i + 2 * n + 1]));
      WordOfHalves(data[i + 2 * n], data[i + 2 * n + 1]);
    }
  }

  lemma SameSpan(write: seq<byte>, read: seq<byte>)
    requires |write| >= 5 && read == write[..4]
    ensures WordAt(read, 0) == WordAt(write, 0) && WordAt(read, 2) == WordAt(write, 2)
  {}

  /** After a write of several registers that was carried out, a read of the same span returns the bytes written. */
  lemma WrittenBytesReadBack(file: RegisterFile, write: seq<byte>, read: seq<byte>)
    requires WriteSpanOk(write) && WriteMultipleOk(write) && WordAt(write, 2) <= MAX_REGISTERS
    requires read == write[..4] && ReadSpanOk(read, MAX_REGISTERS)
    ensures var after := Stored(file, WordAt(write, 0), WordsAt(write, 5, WordAt(write, 2)));
      ReadRegistersReply(READ_HOLDING_REGISTERS, after, read)
        == [READ_HOLDING_REGISTERS] + write[4..5 + write[4]]
  {
    hide Stored, Loaded, WordsAt, Unpack, WordAt;
    var start, count := WordAt(write, 0), WordAt(write, 2);
    SameSpan(write, read);
    LoadedIsStored(file, start, WordsAt(write, 5, count), start);
    UnpackWords(write, 5, count);
    assert write[4..5 + write[4]] == [write[4]] + write[5..5 + 2 * count];
  }

  /** Every coil asked for is found at its bit of the reply, and the padding is zero. */
  lemma ReadCoilsReplyBits(coils: map<register, bool>, data: seq<byte>, j: nat)
    requires ReadSpanOk(data, MAX_BITS) && |data| >= 4 && WordAt(data, 2) <= MAX_BITS
    requires j < 8 * ((WordAt(data, 2) + 7) / 8)
    ensures var reply := ReadBitsReply(READ_COILS, coils, data);
      && |reply| == 2 + reply[1]
      && BitAt(reply[2 + j / 8], j % 8) == (j < WordAt(data, 2) && CoilAt(coils, WordAt(data, 0) + j))
  {
    var bits := CoilsFrom(coils, WordAt(data, 0), WordAt(data, 2));
    PackedBit(bits, j);
    assert j < |bits| ==> bits[j] == CoilAt(coils, WordAt(data, 0) + j);
    hide CoilsFrom, WordAt, PackBits, BitAt, CoilAt;
  }

  // ---------------------------------------------------------------- the frame around a reply

  /** `build_response`: the MBAP header and the data. */
  function Framed(transaction: register, unit: byte, data: seq<byte>): seq<byte>
    requires |data| < 0xFFFF
  {
    [High(transaction), Low(transaction), 0, 0, High(|data| + 1), Low(|data| + 1), unit] + data
  }

  /** A client that reads the header and as many bytes as it says finds the transaction, the unit and the data. */
  lemma FrameReadsBack(transaction: register, unit: byte, data: seq<byte>)
    requires |data| < 0xFFFF
    ensures var f := Framed(transaction, unit, data);
      && |f| >= 7 && WordAt(f, 0) == transaction && WordAt(f, 2) == 0 && f[6] == unit
      && |f| == 6 + WordAt(f, 4) && f[7..] == data
  {}

  // ---------------------------------------------------------------- a write and a read over the wire

  /** The most registers that one write carries (section 6.12). */
  const MAX_WRITTEN: nat := 123

  /** Section 6.12: function code, start, count, byte count and the registers. */
  function WriteRequest(start: register, registers: seq<register>): seq<byte>
    requires |registers| <= MAX_WRITTEN
  {
    [WRITE_MULTIPLE_REGISTERS, High(start), Low(start), High(|registers|), Low(|registers|), 2 * |registers|]
      + Unpack(registers)
  }

  /** Section 6.3: function code, start and count. */
  function ReadRequest(start: register, count: register): seq<byte> {
    [READ_HOLDING_REGISTERS, High(start), Low(start), High(count), Low(count)]
  }

  lemma {:induction false} UnpackAt(rs: seq<register>, k: nat)
    requires k < |rs|
    ensures Unpack(rs)[2 * k] == High(rs[k]) && Unpack(rs)[2 * k + 1] == Low(rs[k])
  {
    if k == 0 {
    } else {
      UnpackAt(rs[1..], k - 1);
    }
  }

  lemma WordOfUnpackAt(header: seq<byte>, rs: seq<register>, k: nat)
    requires k < |rs|
    ensures WordAt(header + Unpack(rs), |header| + 2 * k) == rs[k]
  {
    UnpackAt(rs, k);
    HalvesOfWord(rs[k]);
    hide Unpack, High, Low, Word;
    var bytes := header + Unpack(rs);
    assert bytes[|header| + 2 * k] == Unpack(rs)[2 * k] && bytes[|header| + 2 * k + 1] == Unpack(rs)[2 * k + 1];
  }

  /** Registers sent behind a header are received. */
  lemma WordsOfUnpack(header: seq<byte>, rs: seq<register>)
    ensures WordsAt(header + Unpack(rs), |header|, |rs|) == rs
  {
    hide Unpack, WordAt;
    forall k | 0 <= k < |rs| ensures WordAt(header + Unpack(rs), |header| + 2 * k) == rs[k] {
      WordOfUnpackAt(header, rs, k);
    }
  }

  lemma HeaderReads(start: register, count: register, rest: seq<byte>)
    ensures var data := [High(start), Low(start), High(count), Low(count)] + rest;
      WordAt(data, 0) == start && WordAt(data, 2) == count
  {
    HalvesOfWord(start);
    HalvesOfWord(count);
    hide High, Low, Word;
  }

  lemma WriteRequestBody(start: register, registers: seq<register>)
    requires |registers| <= MAX_WRITTEN
    ensures var body := Body(WriteRequest(start, registers));
      && |body| == 5 + 2 * |registers| && body[4] == 2 * |registers|
      && WordAt(body, 0) == start && WordAt(body, 2) == |registers| && WordsAt(body, 5, |registers|) == registers
  {
    hide WordsAt, WordAt, Unpack, High, Low;
    var words := [High(start), Low(start), High(|registers|), Low(|registers|)];
    var header := words + [2 * |registers|];
    var body := Body(WriteRequest(start, registers));
    assert body == header + Unpack(registers);
    assert body == words + ([2 * |registers|] + Unpack(registers));
    HeaderReads(start, |registers|, [2 * |registers|] + Unpack(registers));
    WordsOfUnpack(header, registers);
  }

  lemma WriteRequestStores(t: Tables, start: register, registers: seq<register>)
    requires |registers| <= MAX_WRITTEN && start + |registers| <= 0x1_0000
    ensures var request := WriteRequest(start, registers);
      SpanOk(request) && After(t, request) == t.(holding := Stored(t.holding, start, registers))
  {
    WriteRequestBody(start, registers);
    assert WriteRequest(start, registers)[0] == WRITE_MULTIPLE_REGISTERS;
    hide WriteRequest, WordsAt, WordAt, Stored, Body;
  }

  lemma ReadRequestLoads(t: Tables, start: register, count: register)
    requires count <= MAX_REGISTERS && start + count <= 0x1_0000
    ensures var request := ReadRequest(start, count);
      && SpanOk(request)
      && Answer(t, request) == [READ_HOLDING_REGISTERS, 2 * count] + Unpack(Loaded(t.holding, start, count))
  {
    hide WordAt, Unpack, Loaded, High, Low;
    var body := Body(ReadRequest(start, count));
    assert body == [High(start), Low(start), High(count), Low(count)] + [];
    HeaderReads(start, count, []);
  }

  /** What a client finds in the frame that answers its read. */
  function ReceivedRegisters(frame: seq<byte>, count: nat): seq<register>
    requires 9 + 2 * count <= |frame|
  {
    WordsAt(frame, 9, count)
  }

  /** Written in one request and read in the next, registers come back as they were. */
  lemma RegistersOverTheWire(t: Tables, start: register, registers: seq<register>, transaction: register, unit: byte)
    requires |registers| <= MAX_WRITTEN && start + |registers| <= 0x1_0000
    ensures var write, read := WriteRequest(start, registers), ReadRequest(start, |registers|);
      && SpanOk(write) && SpanOk(read)
      && var frame := Framed(transaction, unit, Answer(After(t, write), read));
         9 + 2 * |registers| <= |frame| && ReceivedRegisters(frame, |registers|) == registers
  {
    hide SpanOk, After, Answer, Unpack, Stored, WordsAt, High, Low;
    WriteRequestStores(t, start, registers);
    var after := After(t, WriteRequest(start, registers));
    ReadRequestLoads(after, start, |registers|);
    LoadedIsStored(t.holding, start, registers, start);
    var pdu := Answer(after, ReadRequest(start, |registers|));
    FrameOfReply(transaction, unit, 2 * |registers|, Unpack(registers));
    var frame := Framed(transaction, unit, pdu);
    assert frame == frame[..9] + Unpack(registers);
    WordsOfUnpack(frame[..9], registers);
  }

  lemma FrameOfReply(transaction: register, unit: byte, byteCount: byte, bytes: seq<byte>)
    requires |bytes| < 0x100
    ensures var f := Framed(transaction, unit, [READ_HOLDING_REGISTERS, byteCount] + bytes);
      |f| == 9 + |bytes| && f[9..] == bytes
  {}

  // ---------------------------------------------------------------- every table, by the codes of the specification

  /** Sections 6.1 to 6.6: function code and two numbers. */
  function Request(code: byte, first: register, second: register): seq<byte> {
    [code, first / 0x100, first % 0x100, second / 0x100, second % 0x100]
  }

  lemma RequestReads(code: byte, first: register, second: register)
    ensures var body := Body(Request(code, first, second));
      |body| == 4 && WordAt(body, 0) == first && WordAt(body, 2) == second
  {}

  /** Bit `k` of a byte, the lowest first. */
  predicate HasBit(b: byte, k: nat)
    requires k < 8
  {
    b / [1, 2, 4, 8, 16, 32, 64, 128][k] % 2 == 1
  }

  lemma HasBitStep(b: byte, k: nat)
    requires 0 < k < 8
    ensures HasBit(b, k) == HasBit(b / 2, k - 1)
  {
    match k
    case 1 =>
    case 2 => assert b / 2 / 2 == b / 4;
    case 3 => assert b / 2 / 4 == b / 8;
    case 4 => assert b / 2 / 8 == b / 16;
    case 5 => assert b / 2 / 16 == b / 32;
    case 6 => assert b / 2 / 32 == b / 64;
    case 7 => assert b / 2 / 64 == b / 128;
  }

  lemma {:induction false} BitAtIs(b: byte, k: nat)
    requires k < 8
    ensures BitAt(b, k) == HasBit(b, k)
    decreases k
  {
    if k > 0 {
      HasBitStep(b, k);
      BitAtIs(b / 2, k - 1);
      hide HasBit;
    }
  }

  /** Register `j` of a reply, the high byte first. */
  predicate RepliesRegister(reply: seq<byte>, j: nat, value: register) {
    3 + 2 * j < |reply| && reply[2 + 2 * j] as int * 0x100 + reply[3 + 2 * j] as int == value as int
  }

  /** Bit `j` of a reply, eight to a byte. */
  predicate RepliesBit(reply: seq<byte>, j: nat, value: bool) {
    2 + j / 8 < |reply| && HasBit(reply[2 + j / 8], j % 8) == value
  }

  /** Codes 3 and 4 read up to 125 holding and input registers, high byte first; more are refused. */
  lemma RegistersAreRead(t: Tables, start: register, count: register, j: nat)
    requires j < count && (count <= 125 ==> start + count <= 0x1_0000)
    ensures SpanOk(Request(3, start, count)) && SpanOk(Request(4, start, count))
    ensures count > 125 ==>
      Answer(t, Request(3, start, count)) == [0x83, 3] && Answer(t, Request(4, start, count)) == [0x84, 3]
    ensures count <= 125 ==>
      var holding, input := Answer(t, Request(3, start, count)), Answer(t, Request(4, start, count));
      && |holding| == |input| == 2 + 2 * count && holding[0] == 3 && input[0] == 4
      && holding[1] == input[1] == 2 * count
      && RepliesRegister(holding, j, At(t.holding, start + j)) && RepliesRegister(input, j, At(t.input, start + j))
  {
    hide WordAt, Unpack, Loaded, At;
    RequestReads(3, start, count);
    RequestReads(4, start, count);
    if count <= 125 {
      RegistersReplied(t.holding, start, count, j);
      RegistersReplied(t.input, start, count, j);
    }
  }

  lemma RegistersReplied(file: RegisterFile, start: register, count: nat, j: nat)
    requires start + count <= 0x1_0000 && j < count
    ensures var bytes := Unpack(Loaded(file, start, count));
      bytes[2 * j] as int * 0x100 + bytes[2 * j + 1] as int == At(file, start + j) as int
  {
    UnpackAt(Loaded(file, start, count), j);
    LoadedAt(file, start, count, j);
    hide Unpack, Loaded, At;
  }

  lemma LoadedAt(file: RegisterFile, start: register, count: nat, j: nat)
    requires start + count <= 0x1_0000 && j < count
    ensures Loaded(file, start, count)[j] == At(file, start + j)
  {}

  /** Codes 1 and 2 read up to 2000 coils and discrete inputs, eight to a byte; more are refused. */
  lemma BitsAreRead(t: Tables, start: register, count: register, j: nat)
    requires j < count && (count <= 2000 ==> start + count <= 0x1_0000)
    ensures SpanOk(Request(1, start, count)) && SpanOk(Request(2, start, count))
    ensures count > 2000 ==>
      Answer(t, Request(1, start, count)) == [0x81, 3] && Answer(t, Request(2, start, count)) == [0x82, 3]
    ensures count <= 2000 ==>
      var coils, discrete := Answer(t, Request(1, start, count)), Answer(t, Request(2, start, count));
      && |coils| == |discrete| == 2 + (count + 7) / 8 && coils[0] == 1 && discrete[0] == 2
      && coils[1] == discrete[1] == (count + 7) / 8
      && RepliesBit(coils, j, CoilAt(t.coils, start + j)) && RepliesBit(discrete, j, CoilAt(t.discrete, start + j))
  {
    hide WordAt, PackBits, CoilsFrom, BitAt, CoilAt, HasBit;
    RequestReads(1, start, count);
    RequestReads(2, start, count);
    if count <= 2000 {
      CoilsReplied(t.coils, start, count, j);
      CoilsReplied(t.discrete, start, count, j);
    }
  }

  lemma CoilsReplied(bits: map<register, bool>, start: register, count: nat, j: nat)
    requires start + count <= 0x1_0000 && j < count
    ensures var packed := PackBits(CoilsFrom(bits, start, count));
      |packed| == (count + 7) / 8 && HasBit(packed[j / 8], j % 8) == CoilAt(bits, start + j)
  {
    var all := CoilsFrom(bits, start, count);
    assert all[j] == CoilAt(bits, start + j);
    hide CoilsFrom, CoilAt, HasBit, BitAt;
    PackedBit(all, j);
    BitAtIs(PackBits(all)[j / 8], j % 8);
  }

  /** Codes 5 and 6 write one coil, set by 0xFF00 only, and one holding register; both echo the request. */
  lemma SinglesAreWritten(t: Tables, start: register, value: register, a: register)
    ensures SpanOk(Request(5, start, value)) && SpanOk(Request(6, start, value))
    ensures Answer(t, Request(5, start, value)) == Request(5, start, value)
    ensures Answer(t, Request(6, start, value)) == Request(6, start, value)
    ensures var after := After(t, Request(5, start, value));
      && CoilAt(after.coils, a) == (if a == start then value == 0xFF00 else CoilAt(t.coils, a))
      && after.holding == t.holding && after.input == t.input && after.discrete == t.discrete
    ensures var after := After(t, Request(6, start, value));
      && At(after.holding, a) == (if a == start then value else At(t.holding, a))
      && after.coils == t.coils && after.input == t.input && after.discrete == t.discrete
  {
    RequestReads(5, start, value);
    RequestReads(6, start, value);
    StoredAt(t.holding, start, [value], a);
    hide WordAt, Stored;
    assert Body(Request(5, start, value))[..4] == Body(Request(5, start, value));
    assert Body(Request(6, start, value))[..4] == Body(Request(6, start, value));
  }

  /** Any other code is refused. */
  lemma UnknownIsRefused(t: Tables, data: seq<byte>)
    requires data != [] && data[0] !in [1, 2, 3, 4, 5, 6, 16]
    ensures SpanOk(data) && After(t, data) == t
    ensures Answer(t, data) == [if data[0] < 0x80 then data[0] + 0x80 else data[0], 1]
  {}
}
