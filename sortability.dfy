/** What the encoder promises its callers: within one type, comparing encodings with
    bytes.Compare orders them as the values are ordered (for every type except
    time.Time, whose order rests on MarshalBinary's layout); every type but string and
    time.Time has a fixed width; errors come only from unsupported types and failed marshalling. */
module Sortability {

  import Bits
  import opened Binary
  import opened Bytesort

  /** x and y have the same dynamic Go type. */
  predicate SameType(x: Value, y: Value)
  {
    || (x.Bool? && y.Bool?)
    || (x.Int? && y.Int?)
    || (x.Int8? && y.Int8?)
    || (x.Int16? && y.Int16?)
    || (x.Int32? && y.Int32?)
    || (x.Int64? && y.Int64?)
    || (x.Uint? && y.Uint?)
    || (x.Uint8? && y.Uint8?)
    || (x.Uint16? && y.Uint16?)
    || (x.Uint32? && y.Uint32?)
    || (x.Uint64? && y.Uint64?)
    || (x.Float32? && y.Float32?)
    || (x.Float64? && y.Float64?)
    || (x.Str? && y.Str?)
    || (x.Time? && y.Time?)
    || (x.Unsupported? && y.Unsupported? && x.typeName == y.typeName)
  }

  // ---------------------------------------------------------------------------
  // Integers and booleans

  /** Two integers (or two bools) of the same type: their encodings compare as the
      numbers do, so the encoding is order-preserving and one-to-one. */
  lemma IntegerOrder(x: Value, y: Value)
    requires SameType(x, y) && IntDataSize(x) > 0
    ensures IntDataSize(y) > 0
    ensures Compare(Encoding(x).value, Encoding(y).value) == Cmp(IntValue(x), IntValue(y))
  {
    SameIntegerType(x, y);
    var n := IntDataSize(x);
    IntegerEncoding(x);
    IntegerEncoding(y);
    BigEndianOrder(IntKey(x), IntKey(y), n);
  }

  lemma SameIntegerType(x: Value, y: Value)
    requires SameType(x, y) && IntDataSize(x) > 0
    ensures IntDataSize(y) == IntDataSize(x) && IsSigned(y) == IsSigned(x)
  {
  }

  lemma IntegerEncoding(v: Value)
    requires IntDataSize(v) > 0
    ensures Encoding(v) == Ok(BigEndian(IntKey(v), IntDataSize(v)))
  {
  }

  /** A signed integer of width W encodes as its W two's-complement bytes with the top
      bit of the first byte flipped. */
  lemma SignedTwosComplement(v: Value)
    requires IsSigned(v)
    ensures var e := BigEndian(Unsigned(v), IntDataSize(v));
      Encoding(v) == Ok([Bits.Xor(e[0], 0x80, 8)] + e[1..])
  {
    SignedKeyBytes(v);
  }

  /** An unsigned integer or bool encodes as its plain big-endian bytes. */
  lemma UnsignedPlain(v: Value)
    requires IntDataSize(v) > 0 && !IsSigned(v)
    ensures Encoding(v) == Ok(BigEndian(IntValue(v), IntDataSize(v)))
  {
  }

  /** false encodes as 00 and true as 01, so false sorts first. */
  lemma BoolEncoding()
    ensures Encoding(Bool(false)) == Ok([0x00])
    ensures Encoding(Bool(true)) == Ok([0x01])
    ensures Compare(Encoding(Bool(false)).value, Encoding(Bool(true)).value) < 0
  {
    OneByte(0);
    OneByte(1);
  }

  /** The int16 extremes and zero. */
  lemma Int16Examples()
    ensures Encoding(Int16(-0x8000)) == Ok([0x00, 0x00])
    ensures Encoding(Int16(0)) == Ok([0x80, 0x00])
    ensures Encoding(Int16(0x7FFF)) == Ok([0xFF, 0xFF])
  {
    Width2();
    assert BigEndian(0, 2) == [0x00, 0x00];
    assert BigEndian(0x8000, 2) == [0x80, 0x00];
    assert BigEndian(0xFFFF, 2) == [0xFF, 0xFF];
  }

  // ---------------------------------------------------------------------------
  // Fixed width

  /** Integers and bools encode in intDataSize bytes, floats in 4 or 8. */
  lemma FixedWidth(v: Value)
    ensures IntDataSize(v) > 0 ==> Encoding(v).Ok? && |Encoding(v).value| == IntDataSize(v)
    ensures v.Float32? ==> Encoding(v).Ok? && |Encoding(v).value| == 4
    ensures v.Float64? ==> Encoding(v).Ok? && |Encoding(v).value| == 8
  {
  }

  /** Two values of the same type, neither a string nor a time, encode to the same
      length. */
  lemma SameTypeSameLength(x: Value, y: Value)
    requires SameType(x, y) && !x.Str? && !x.Time? && Encoding(x).Ok?
    ensures Encoding(y).Ok? && |Encoding(y).value| == |Encoding(x).value|
  {
  }

  /** Two marshalled times of the same length encode to the same length: three bytes
      fewer than the marshalled form. */
  lemma TimeSameLength(x: Value, y: Value)
    requires x.Time? && y.Time? && x.t.Marshalled? && y.t.Marshalled?
    requires |x.t.data| == |y.t.data|
    ensures Encoding(x).Ok? && Encoding(y).Ok?
    ensures |Encoding(x).value| == |Encoding(y).value| == |x.t.data| - 3
  {
  }

  // ---------------------------------------------------------------------------
  // Floats

  /** The sign bit of a W-byte float pattern. */
  predicate SignSet(p: nat, w: nat)
    requires w > 0
  {
    p >= Half(w)
  }

  /** The order IEEE 754 totalOrder (section 5.10 of IEEE 754-2008) puts on bit
      patterns: negative patterns before non-negative ones, negative patterns by
      decreasing magnitude bits, non-negative ones by increasing magnitude bits. */
  predicate PatternBefore(p: nat, q: nat, w: nat)
    requires w > 0
  {
    if SignSet(p, w) && SignSet(q, w) then p > q
    else if SignSet(p, w) || SignSet(q, w) then SignSet(p, w)
    else p < q
  }

  /** A pattern with the sign bit set has a key below 2^(8W-1), and such keys run
      opposite to the patterns; any other pattern has a key of at least 2^(8W-1), and
      those keys run with the patterns. */
  lemma FloatKeyHalves(p: nat, q: nat, w: nat)
    requires 0 < w && p < Pow256(w) && q < Pow256(w)
    ensures SignSet(p, w) <==> FloatKey(p, w) < Half(w)
    ensures SignSet(p, w) && SignSet(q, w) ==> (FloatKey(p, w) < FloatKey(q, w) <==> q < p)
    ensures !SignSet(p, w) && !SignSet(q, w) ==> (FloatKey(p, w) < FloatKey(q, w) <==> p < q)
  {
    assert Pow256(w) == 2 * Half(w);
  }

  /** The inverse of the radix-sort key. */
  function FloatUnkey(k: nat, w: nat): (p: nat)
    requires 0 < w && k < Pow256(w)
    ensures p < Pow256(w)
  {
    assert Pow256(w) == 2 * Half(w);
    if k >= Half(w) then k - Half(w) else Pow256(w) - 1 - k
  }

  /** The float transform is a bijection on W-byte patterns. */
  lemma FloatKeyBijection(p: nat, k: nat, w: nat)
    requires 0 < w && p < Pow256(w) && k < Pow256(w)
    ensures FloatUnkey(FloatKey(p, w), w) == p
    ensures FloatKey(FloatUnkey(k, w), w) == k
  {
    assert Pow256(w) == 2 * Half(w);
  }

  /** The byte order of two float encodings is the order of their keys. */
  lemma FloatKeyOrder(p: nat, q: nat, w: nat)
    requires 0 < w && p < Pow256(w) && q < Pow256(w)
    ensures Compare(BigEndian(FloatKey(p, w), w), BigEndian(FloatKey(q, w), w)) < 0
        <==> PatternBefore(p, q, w)
    ensures Compare(BigEndian(FloatKey(p, w), w), BigEndian(FloatKey(q, w), w)) == 0 <==> p == q
  {
    BigEndianOrder(FloatKey(p, w), FloatKey(q, w), w);
    FloatKeyHalves(p, q, w);
    FloatKeyHalves(q, p, w);
    FloatKeyBijection(p, 0, w);
    FloatKeyBijection(q, 0, w);
  }

  /** float32 encodings sort in the totalOrder of their bit patterns. */
  lemma Float32Order(p: uint32, q: uint32)
    ensures Compare(Encoding(Float32(p)).value, Encoding(Float32(q)).value) < 0 <==> PatternBefore(p, q, 4)
    ensures Compare(Encoding(Float32(p)).value, Encoding(Float32(q)).value) == 0 <==> p == q
  {
    Width4();
    FloatKeyOrder(p, q, 4);
  }

  /** float64 encodings sort in the totalOrder of their bit patterns. */
  lemma Float64Order(p: uint64, q: uint64)
    ensures Compare(Encoding(Float64(p)).value, Encoding(Float64(q)).value) < 0 <==> PatternBefore(p, q, 8)
    ensures Compare(Encoding(Float64(p)).value, Encoding(Float64(q)).value) == 0 <==> p == q
  {
    Width8();
    FloatKeyOrder(p, q, 8);
  }

  /** The encoding of the float32 pattern p sorts strictly before that of q. */
  predicate Float32Before(p: uint32, q: uint32)
  {
    Compare(Encoding(Float32(p)).value, Encoding(Float32(q)).value) < 0
  }

  /** The binary32 patterns of -MaxFloat32, -0.1, -SmallestNonzeroFloat32, 0,
      SmallestNonzeroFloat32, 0.1 and MaxFloat32 encode in strictly ascending order. */
  lemma Float32Examples()
    ensures Float32Before(0xFF7F_FFFF, 0xBDCC_CCCD)
    ensures Float32Before(0xBDCC_CCCD, 0x8000_0001)
    ensures Float32Before(0x8000_0001, 0x0000_0000)
    ensures Float32Before(0x0000_0000, 0x0000_0001)
    ensures Float32Before(0x0000_0001, 0x3DCC_CCCD)
    ensures Float32Before(0x3DCC_CCCD, 0x7F7F_FFFF)
  {
    assert Half(4) == 0x8000_0000 by { Width4(); }
    Float32Step(0xFF7F_FFFF, 0xBDCC_CCCD);
    Float32Step(0xBDCC_CCCD, 0x8000_0001);
    Float32Step(0x8000_0001, 0x0000_0000);
    Float32Step(0x0000_0000, 0x0000_0001);
    Float32Step(0x0000_0001, 0x3DCC_CCCD);
    Float32Step(0x3DCC_CCCD, 0x7F7F_FFFF);
  }

  lemma Float32Step(p: uint32, q: uint32)
    requires PatternBefore(p, q, 4)
    ensures Float32Before(p, q)
  {
    Float32Order(p, q);
  }

  // ---------------------------------------------------------------------------
  // Strings

  /** A non-empty string encodes as its bytes, the empty string as one zero byte. */
  lemma StringBytes(s: seq<byte>)
    ensures s != [] ==> Encoding(Str(s)) == Ok(s)
    ensures s == [] ==> Encoding(Str(s)) == Ok([0x00])
    ensures |Encoding(Str(s)).value| > 0
  {
  }

  /** "abc" encodes as 61 62 63. */
  lemma StringExample()
    ensures Encoding(Str([0x61, 0x62, 0x63])) == Ok([0x61, 0x62, 0x63])
  {
  }

  /** "" and "\x00" have the same encoding, so the string encoding is not one-to-one. */
  lemma EmptyStringCollides()
    ensures Encoding(Str([])) == Encoding(Str([0x00]))
  {
  }

  /** String encoding preserves the bytewise order of Go strings, s <= t. */
  lemma StringMonotone(s: seq<byte>, t: seq<byte>)
    requires Compare(s, t) <= 0
    ensures Compare(Encoding(Str(s)).value, Encoding(Str(t)).value) <= 0
  {
    if s == [] && t != [] && t[0] == 0 {
      assert [0 as byte][1..] == [];
    }
  }

  /** String encoding keeps s < t strict in every case except "" and "\x00". */
  lemma StringStrict(s: seq<byte>, t: seq<byte>)
    requires Compare(s, t) < 0 && !(s == [] && t == [0x00])
    ensures Compare(Encoding(Str(s)).value, Encoding(Str(t)).value) < 0
  {
    if s == [] && t[0] == 0 {
      assert [0 as byte][1..] == [];
      assert t[1..] != [] by {
        assert t == [t[0]] + t[1..];
      }
    }
  }

  // ---------------------------------------------------------------------------
  // Times

  /** Two marshalled times of the same length have the same encoding exactly when they
      agree everywhere but in the version byte and the two zone offset bytes: times in
      different zones that denote one instant encode alike. */
  lemma TimeZoneIndependent(m1: MarshalledTime, m2: MarshalledTime)
    requires |m1| == |m2|
    ensures Encoding(Time(Marshalled(m1))) == Encoding(Time(Marshalled(m2)))
        <==> forall i :: 1 <= i < |m1| - 2 ==> m1[i] == m2[i]
  {
    var e1, e2 := Encoding(Time(Marshalled(m1))).value, Encoding(Time(Marshalled(m2))).value;
    if forall i :: 1 <= i < |m1| - 2 ==> m1[i] == m2[i] {
      assert e1 == e2 by {
        forall i | 0 <= i < |e1|
          ensures e1[i] == e2[i]
        {
          assert m1[i + 1] == m2[i + 1];
        }
      }
    }
    if e1 == e2 {
      forall i | 1 <= i < |m1| - 2
        ensures m1[i] == m2[i]
      {
        assert e1[i - 1] == e2[i - 1];
      }
    }
  }

  /** A marshalled time encodes either as its payload bytes or, on failure, as the
      marshalling error with the package prefix. */
  lemma TimeEncoding(t: MarshalResult)
    ensures t.Marshalled? ==> Encoding(Time(t)) == Ok(t.data[1 .. |t.data| - 2])
    ensures t.MarshalFailed? ==> Encoding(Time(t)) == Err("bytesort.Encode: " + t.reason)
  {
    if t.Marshalled? {
      var r := Encoding(Time(t)).value;
      assert r == t.data[1 .. |t.data| - 2] by {
        forall i | 0 <= i < |r|
          ensures r[i] == t.data[1 .. |t.data| - 2][i]
        {
        }
      }
    }
  }

  // ---------------------------------------------------------------------------
  // Errors and non-emptiness

  /** Any type outside the switch is rejected, with its %T name in the message. */
  lemma UnsupportedRejected(name: string)
    ensures Encoding(Unsupported(name)) == Err("bytesort.Encode: unsupported type " + name)
  {
  }

  /** nil, []string, map[string]string, []byte and a named int64 type declared in a
      test package are all rejected. Their rejection follows from modelling each of
      them as Unsupported; the named int64 type is modelled so because Encode's type
      switch matches only the built-in int64, not types defined on it. */
  lemma UnsupportedExamples()
    ensures Encoding(Unsupported("<nil>")).Err?
    ensures Encoding(Unsupported("[]string")).Err?
    ensures Encoding(Unsupported("map[string]string")).Err?
    ensures Encoding(Unsupported("[]uint8")).Err?
    ensures Encoding(Unsupported("bytesort_test.int64Type")).Err?
  {
  }

  /** A successful encoding is never empty, except that a marshalled time of exactly
      three bytes would leave nothing after stripping. */
  lemma SuccessNonEmpty(v: Value)
    requires Encoding(v).Ok?
    requires v.Time? ==> |v.t.data| > 3
    ensures |Encoding(v).value| > 0
  {
  }
}
