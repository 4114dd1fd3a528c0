/** The bytesort encoder: a value of one of the supported Go types becomes a byte
    sequence, and two encodings of values of the same type compare under
    bytes.Compare as the values themselves do.

    The dynamic type that Encode switches on is a closed datatype with one variant per
    supported type; any other dynamic type is an Unsupported value carrying the name
    that the verb %T prints for it. */
module Bytesort {

  import Bits
  import opened Binary

  type int8 = x: int | -0x80 <= x < 0x80
  type int16 = x: int | -0x8000 <= x < 0x8000
  type int32 = x: int | -0x8000_0000 <= x < 0x8000_0000
  type int64 = x: int | -0x8000_0000_0000_0000 <= x < 0x8000_0000_0000_0000

  /** Go's (value, error) pair: either bytes, or an error and no bytes. */
  datatype Result<T> = Ok(value: T) | Err(error: string)

  /** The output of time.Time.MarshalBinary: a version byte, the sort-relevant
      seconds and nanoseconds, and the zone offset in the last two bytes. */
  type MarshalledTime = m: seq<byte> | |m| >= 3 witness [0, 0, 0]

  /** What time.Time.MarshalBinary returns for a time: its bytes, or an error. */
  datatype MarshalResult = Marshalled(data: MarshalledTime) | MarshalFailed(reason: string)

  /** A dynamic value passed to Encode. A float is given by its IEEE 754 bit pattern
      (what math.Float32bits and math.Float64bits return); a string by its bytes; a
      time.Time by what marshalling it yields. Go's int and uint are 64 bits wide. */
  datatype Value =
    | Bool(b: bool)
    | Int(i: int64)
    | Int8(i8: int8)
    | Int16(i16: int16)
    | Int32(i32: int32)
    | Int64(i64: int64)
    | Uint(u: uint64)
    | Uint8(u8: byte)
    | Uint16(u16: uint16)
    | Uint32(u32: uint32)
    | Uint64(u64: uint64)
    | Float32(bits32: uint32)
    | Float64(bits64: uint64)
    | Str(s: seq<byte>)
    | Time(t: MarshalResult)
    | Unsupported(typeName: string)

  /** The name %T prints for the dynamic type of v. */
  function TypeName(v: Value): string
  {
    match v
    case Bool(_) => "bool"
    case Int(_) => "int"
    case Int8(_) => "int8"
    case Int16(_) => "int16"
    case Int32(_) => "int32"
    case Int64(_) => "int64"
    case Uint(_) => "uint"
    case Uint8(_) => "uint8"
    case Uint16(_) => "uint16"
    case Uint32(_) => "uint32"
    case Uint64(_) => "uint64"
    case Float32(_) => "float32"
    case Float64(_) => "float64"
    case Str(_) => "string"
    case Time(_) => "time.Time"
    case Unsupported(name) => name
  }

  /** The types that encodeInt writes in two's complement and then flips the top bit of. */
  predicate IsSigned(v: Value)
  {
    v.Int? || v.Int8? || v.Int16? || v.Int32? || v.Int64?
  }

  /** intDataSize: the number of bytes an integer or bool is encoded in, and 0 for
      every type that encodeInt does not handle. */
  function IntDataSize(v: Value): (n: nat)
    ensures n == 0 || n == 1 || n == 2 || n == 4 || n == 8
    ensures IsSigned(v) ==> n > 0
  {
    match v
    case Bool(_) => 1
    case Int8(_) => 1
    case Uint8(_) => 1
    case Int16(_) => 2
    case Uint16(_) => 2
    case Int32(_) => 4
    case Uint32(_) => 4
    case Int64(_) => 8
    case Uint64(_) => 8
    case Int(_) => 8
    case Uint(_) => 8
    case _ => 0
  }

  /** The number an integer value denotes; false and true count as 0 and 1. */
  function IntValue(v: Value): int
    requires IntDataSize(v) > 0
  {
    match v
    case Bool(b) => if b then 1 else 0
    case Int(i) => i
    case Int8(i) => i
    case Int16(i) => i
    case Int32(i) => i
    case Int64(i) => i
    case Uint(u) => u
    case Uint8(u) => u
    case Uint16(u) => u
    case Uint32(u) => u
    case Uint64(u) => u
  }

  /** Half the range of a W-byte word, 2^(8W-1): the offset that maps the signed
      W-byte range onto the unsigned one. */
  function Half(w: nat): nat
    requires w > 0
  {
    0x80 * Pow256(w - 1)
  }

  /** The natural number whose W big-endian bytes encode an integer value: an unsigned
      value or bool as it is, a signed value offset by 2^(8W-1). */
  function IntKey(v: Value): (k: nat)
    requires IntDataSize(v) > 0
    ensures k < Pow256(IntDataSize(v))
    ensures IsSigned(v) ==> IntValue(v) == k - Half(IntDataSize(v))
    ensures !IsSigned(v) ==> IntValue(v) == k
  {
    ValueRange(v);
    HalfOfWord(IntDataSize(v));
    if IsSigned(v) then IntValue(v) + Half(IntDataSize(v)) else IntValue(v)
  }

  /** The unsigned number Go's conversion to uintN (N = 8W) makes of an integer value,
      which is what encoding/binary writes: the value modulo 256^W. */
  function Unsigned(v: Value): (u: nat)
    requires IntDataSize(v) > 0
    ensures u < Pow256(IntDataSize(v))
    ensures !IsSigned(v) ==> u == IntValue(v)
  {
    ValueRange(v);
    if !IsSigned(v) then
      DivModUnique(IntValue(v), Pow256(IntDataSize(v)), 0, IntValue(v));
      IntValue(v) % Pow256(IntDataSize(v))
    else
      IntValue(v) % Pow256(IntDataSize(v))
  }

  /** Half of 256^W is 2^(8W-1). */
  lemma HalfOfWord(w: nat)
    requires w > 0
    ensures Pow256(w) == 2 * Half(w)
  {
  }

  /** The range of each integer type: [-2^(8W-1), 2^(8W-1)) for the signed ones,
      [0, 2^(8W)) for the unsigned ones and bool. */
  lemma ValueRange(v: Value)
    requires IntDataSize(v) > 0
    ensures IsSigned(v) ==> -0x80 * Pow256(IntDataSize(v) - 1) <= IntValue(v) < Half(IntDataSize(v))
    ensures !IsSigned(v) ==> 0 <= IntValue(v) < Pow256(IntDataSize(v))
  {
    match v {
      case Bool(_) => Width1();
      case Int8(_) => Width1();
      case Uint8(_) => Width1();
      case Int16(_) => Width2();
      case Uint16(_) => Width2();
      case Int32(_) => Width4();
      case Uint32(_) => Width4();
      case Int64(_) => Width8();
      case Int(_) => Width8();
      case Uint64(_) => Width8();
      case Uint(_) => Width8();
    }
  }

  /** For a signed type, flipping the top bit of the two's-complement bytes gives the
      big-endian bytes of the value offset by 2^(8W-1). */
  lemma SignedKeyBytes(v: Value)
    requires IsSigned(v)
    ensures var e := BigEndian(Unsigned(v), IntDataSize(v));
      [Bits.Xor(e[0], 0x80, 8)] + e[1..] == BigEndian(IntKey(v), IntDataSize(v))
  {
    var n := IntDataSize(v);
    var u := Unsigned(v);
    ValueRange(v);
    assert u == IntValue(v) % Pow256(n);
    FlipTopBit(u, n);
    TwosComplementBias(IntValue(v), n);
    assert (u + 0x80 * Pow256(n - 1)) % Pow256(n) == IntKey(v);
  }

  /** The radix-sort key of a W-byte float bit pattern p: a pattern with the sign bit
      set is complemented, and any other pattern gets the sign bit set. */
  function FloatKey(p: nat, w: nat): (k: nat)
    requires 0 < w && p < Pow256(w)
    ensures k < Pow256(w)
  {
    if p < Half(w) then p + Half(w) else Pow256(w) - 1 - p
  }

  /** The message of the error returned for a type that nothing in Encode handles. */
  function UnsupportedError(v: Value): string
  {
    "bytesort.Encode: unsupported type " + TypeName(v)
  }

  /** What Encode returns for each value, type by type. */
  function Encoding(v: Value): (r: Result<seq<byte>>)
    ensures r.Err? <==> v.Unsupported? || (v.Time? && v.t.MarshalFailed?)
  {
    match v
    case Float32(p) => Ok(BigEndian(FloatKey(p, 4), 4))
    case Float64(p) => Ok(BigEndian(FloatKey(p, 8), 8))
    case Str(s) => Ok(if s == [] then [0] else s)
    case Time(t) => EncodeTime(t)
    case Unsupported(_) => Err(UnsupportedError(v))
    case _ => Ok(BigEndian(IntKey(v), IntDataSize(v)))
  }

  // ---------------------------------------------------------------------------
  // The encoder

  /** encodeTime: the marshalled time without its version byte and its two zone
      offset bytes; a marshalling error is reported with the package's prefix. */
  function EncodeTime(t: MarshalResult): (r: Result<seq<byte>>)
    ensures t.MarshalFailed? ==> r == Err("bytesort.Encode: " + t.reason)
    ensures t.Marshalled? ==> r.Ok? && |r.value| == |t.data| - 3
    ensures t.Marshalled? ==> forall i :: 0 <= i < |r.value| ==> r.value[i] == t.data[i + 1]
  {
    match t
    case MarshalFailed(reason) => Err("bytesort.Encode: " + reason)
    case Marshalled(b) => Ok(b[1 .. |b| - 2])
  }

  /** encodeFloat32: the radix-sort transform of the bit pattern, written big-endian. */
  method EncodeFloat32(v: uint32) returns (r: seq<byte>)
    ensures r == BigEndian(FloatKey(v, 4), 4)
  {
    Bits32();
    var bits: nat := v;
    Bits.RadixFlip(bits, 32);
    bits := Bits.Xor(bits, Bits.Or(Bits.Neg(Bits.Shr(bits, 31), 32), Bits.Pow2(31), 32), 32);
    var b := new byte[4];
    PutUint32(b, bits);
    r := b[..];
  }

  /** encodeFloat64: the radix-sort transform of the bit pattern, written big-endian. */
  method EncodeFloat64(v: uint64) returns (r: seq<byte>)
    ensures r == BigEndian(FloatKey(v, 8), 8)
  {
    Bits64();
    var bits: nat := v;
    Bits.RadixFlip(bits, 64);
    bits := Bits.Xor(bits, Bits.Or(Bits.Neg(Bits.Shr(bits, 63), 64), Bits.Pow2(63), 64), 64);
    var b := new byte[8];
    PutUint64(b, bits);
    r := b[..];
  }

  /** encodeInt: a buffer of intDataSize bytes receives the value big-endian (a signed
      value as its two's-complement bit pattern), and for a signed type the top bit of
      the first byte is then flipped. A type of size 0 is rejected. */
  method EncodeInt(data: Value) returns (r: Result<seq<byte>>)
    ensures IntDataSize(data) == 0 ==> r == Err(UnsupportedError(data))
    ensures IntDataSize(data) > 0 ==> r == Ok(BigEndian(IntKey(data), IntDataSize(data)))
  {
    var n := IntDataSize(data);
    if n == 0 {
      return Err(UnsupportedError(data));
    }
    var bs := new byte[n];
    PutInt(bs, data);
    if IsSigned(data) {
      SignedKeyBytes(data);
      ghost var e := bs[..];
      XorTopByte(bs[0]);
      bs[0] := Bits.Xor(bs[0], 0x80, 8);
      assert bs[..] == [bs[0]] + e[1..];
    }
    r := Ok(bs[..]);
  }

  /** The first switch of encodeInt: the value, converted to the unsigned type of its
      width, is written big-endian into the buffer. */
  method PutInt(bs: array<byte>, data: Value)
    requires IntDataSize(data) > 0 && bs.Length == IntDataSize(data)
    modifies bs
    ensures bs[..] == BigEndian(Unsigned(data), IntDataSize(data))
  {
    match data {
      case Bool(v) =>
        bs[0] := if v then 1 else 0;
        OneByte(bs[0]);
        assert Unsigned(data) == bs[0];
      case Int8(v) =>
        bs[0] := v % 0x100;
        OneByte(bs[0]);
        assert Unsigned(data) == bs[0];
      case Uint8(v) =>
        bs[0] := v;
        OneByte(bs[0]);
        assert Unsigned(data) == bs[0];
      case Int16(v) =>
        Width2();
        PutUint16(bs, v % 0x1_0000);
        assert Unsigned(data) == v % 0x1_0000;
        assert bs[..] == bs[..2];
      case Uint16(v) =>
        Width2();
        PutUint16(bs, v);
        assert Unsigned(data) == v;
        assert bs[..] == bs[..2];
      case Int32(v) =>
        Width4();
        PutUint32(bs, v % 0x1_0000_0000);
        assert Unsigned(data) == v % 0x1_0000_0000;
        assert bs[..] == bs[..4];
      case Uint32(v) =>
        Width4();
        PutUint32(bs, v);
        assert Unsigned(data) == v;
        assert bs[..] == bs[..4];
      case Int64(v) =>
        Width8();
        PutUint64(bs, v % 0x1_0000_0000_0000_0000);
        assert Unsigned(data) == v % 0x1_0000_0000_0000_0000;
        assert bs[..] == bs[..8];
      case Int(v) =>
        // int is 64 bits wide, so int64(v) is v
        Width8();
        PutUint64(bs, v % 0x1_0000_0000_0000_0000);
        assert Unsigned(data) == v % 0x1_0000_0000_0000_0000;
        assert bs[..] == bs[..8];
      case Uint64(v) =>
        Width8();
        PutUint64(bs, v);
        assert Unsigned(data) == v;
        assert bs[..] == bs[..8];
      case Uint(v) =>
        Width8();
        PutUint64(bs, v);
        assert Unsigned(data) == v;
        assert bs[..] == bs[..8];
    }
  }

  /** Encode: strings, times and floats have their own encoders; every other value goes
      to encodeInt, which rejects what it cannot size. */
  method Encode(v: Value) returns (r: Result<seq<byte>>)
    ensures r == Encoding(v)
  {
    match v {
      case Str(s) =>
        var b := s;
        if |b| == 0 {
          b := b + [0];
          assert b == [0];
        }
        return Ok(b);
      case Time(t) =>
        return EncodeTime(t);
      case Float64(p) =>
        var b := EncodeFloat64(p);
        return Ok(b);
      case Float32(p) =>
        var b := EncodeFloat32(p);
        return Ok(b);
      case _ =>
    }
    r := EncodeInt(v);
  }
}
