/** The parts of Go's standard library that the encoder relies on: the byte and
    fixed-width unsigned integer types, the lexicographic comparison that
    bytes.Compare performs, and the big-endian writers of encoding/binary.

    An unsigned integer that lives in a Go uint16/uint32/uint64 is modelled as the
    natural number it denotes. */
module Binary {

  import Bits

  type byte = b: int | 0 <= b < 0x100
  type uint16 = x: int | 0 <= x < 0x1_0000
  type uint32 = x: int | 0 <= x < 0x1_0000_0000
  type uint64 = x: int | 0 <= x < 0x1_0000_0000_0000_0000

  /** Three-way comparison of two integers, with the result convention of bytes.Compare. */
  function Cmp(a: int, b: int): int
  {
    if a < b then -1 else if a == b then 0 else 1
  }

  // ---------------------------------------------------------------------------
  // bytes.Compare

  /** bytes.Compare: bytes are compared as unsigned numbers, left to right; when one
      sequence is a proper prefix of the other, the shorter one sorts first. */
  function Compare(a: seq<byte>, b: seq<byte>): (c: int)
    ensures -1 <= c <= 1
    ensures c == 0 <==> a == b
  {
    if a == [] && b == [] then 0
    else if a == [] then -1
    else if b == [] then 1
    else if a[0] < b[0] then -1
    else if a[0] > b[0] then 1
    else
      var c := Compare(a[1..], b[1..]);
      assert c == 0 ==> a == [a[0]] + a[1..] == [b[0]] + b[1..] == b;
      c
  }

  /** Swapping the arguments negates the result. */
  lemma {:induction false} CompareAntisymmetric(a: seq<byte>, b: seq<byte>)
    ensures Compare(b, a) == -Compare(a, b)
  {
    if a != [] && b != [] && a[0] == b[0] {
      CompareAntisymmetric(a[1..], b[1..]);
    }
  }

  /** Compare orders byte sequences transitively. */
  lemma {:induction false} CompareTransitive(a: seq<byte>, b: seq<byte>, c: seq<byte>)
    requires Compare(a, b) < 0 && Compare(b, c) < 0
    ensures Compare(a, c) < 0
  {
    if a != [] && a[0] == b[0] && b[0] == c[0] {
      CompareTransitive(a[1..], b[1..], c[1..]);
    }
  }

  /** Two concatenations whose first parts have equal length compare by their first
      parts, and by their second parts when the first parts are equal. */
  lemma {:induction false} CompareAppend(a: seq<byte>, b: seq<byte>, c: seq<byte>, d: seq<byte>)
    requires |a| == |c|
    ensures Compare(a + b, c + d) == if a == c then Compare(b, d) else Compare(a, c)
  {
    if a == [] {
      assert a + b == b && c + d == d;
    } else {
      assert (a + b)[0] == a[0] && (c + d)[0] == c[0];
      assert (a + b)[1..] == a[1..] + b;
      assert (c + d)[1..] == c[1..] + d;
      assert a == c <==> a[0] == c[0] && a[1..] == c[1..] by {
        assert a == [a[0]] + a[1..] && c == [c[0]] + c[1..];
      }
      if a[0] == c[0] {
        CompareAppend(a[1..], b, c[1..], d);
      }
    }
  }

  // ---------------------------------------------------------------------------
  // Big-endian representation of natural numbers

  function Pow256(n: nat): (r: nat)
    ensures r > 0
  {
    if n == 0 then 1 else 0x100 * Pow256(n - 1)
  }

  /** For v below 256^w, the w bytes of v, most significant first. */
  function BigEndian(v: nat, w: nat): (r: seq<byte>)
    requires v < Pow256(w)
    ensures |r| == w
  {
    if w == 0 then [] else BigEndian(v / 0x100, w - 1) + [v % 0x100]
  }

  /** The quotient and remainder of a = q * p + r with 0 <= r < p. */
  lemma DivModUnique(a: int, p: int, q: int, r: int)
    requires p > 0 && 0 <= r < p && a == q * p + r
    ensures a / p == q && a % p == r
  {
    var q0, r0 := a / p, a % p;
    assert (q - q0) * p == r0 - r;
    if q > q0 {
      MulAtLeast(q - q0, p);
    } else if q < q0 {
      MulAtLeast(q0 - q, p);
    }
  }

  lemma MulAtLeast(k: int, p: int)
    requires k >= 1 && p > 0
    ensures k * p >= p
  {
  }

  /** Taking a number modulo 256p and then splitting off its last byte is the same as
      splitting off its last byte and taking the rest modulo p. */
  lemma ModThenSplit(x: int, p: int)
    requires p > 0
    ensures (x % (0x100 * p)) / 0x100 == (x / 0x100) % p
    ensures (x % (0x100 * p)) % 0x100 == x % 0x100
  {
    var q, r := x / (0x100 * p), x % (0x100 * p);
    assert x == 0x100 * (p * q + r / 0x100) + r % 0x100;
    DivModUnique(x, 0x100, p * q + r / 0x100, r % 0x100);
    DivModUnique(x / 0x100, p, q, r / 0x100);
  }

  /** Big-endian encoding of same-width numbers preserves their order: comparing the
      encodings gives the same answer as comparing the numbers. */
  lemma {:induction false} BigEndianOrder(a: nat, b: nat, w: nat)
    requires a < Pow256(w) && b < Pow256(w)
    ensures Compare(BigEndian(a, w), BigEndian(b, w)) == Cmp(a, b)
  {
    if w > 0 {
      BigEndianOrder(a / 0x100, b / 0x100, w - 1);
      CompareAppend(BigEndian(a / 0x100, w - 1), [a % 0x100], BigEndian(b / 0x100, w - 1), [b % 0x100]);
    }
  }

  /** Flipping the most significant bit of the first byte adds 2^(8w-1) to the
      number the bytes denote, modulo 2^(8w). */
  lemma {:induction false} FlipTopBit(u: nat, w: nat)
    requires 0 < w && u < Pow256(w)
    ensures var e := BigEndian(u, w);
      [Bits.Xor(e[0], 0x80, 8)] + e[1..] == BigEndian((u + 0x80 * Pow256(w - 1)) % Pow256(w), w)
    decreases w, 1
  {
    if w == 1 {
      FlipTopBitOfByte(u);
    } else {
      FlipTopBitStep(u, w);
    }
  }

  lemma FlipTopBitOfByte(u: nat)
    requires u < 0x100
    ensures var e := BigEndian(u, 1);
      [Bits.Xor(e[0], 0x80, 8)] + e[1..] == BigEndian((u + 0x80 * Pow256(0)) % Pow256(1), 1)
  {
    Width1();
    var x := Bits.Xor(u, 0x80, 8);
    XorTopByte(u);
    OneByte(u);
    OneByte(x);
  }

  /** XOR with 0x80 adds 0x80 to a byte, modulo 0x100. */
  lemma XorTopByte(u: nat)
    requires u < 0x100
    ensures Bits.Xor(u, 0x80, 8) == (u + 0x80) % 0x100
  {
    assert Bits.Pow2(7) == 0x80 && Bits.Pow2(8) == 0x100;
    Bits.XorTopBit(u, 8);
    if u < 0x80 {
      DivModUnique(u + 0x80, 0x100, 0, u + 0x80);
    } else {
      DivModUnique(u + 0x80, 0x100, 1, u - 0x80);
    }
  }

  /** One byte is its own big-endian form. */
  lemma OneByte(u: nat)
    requires u < 0x100
    ensures Pow256(1) == 0x100 && BigEndian(u, 1) == [u]
  {
    assert Pow256(1) == 0x100;
    assert BigEndian(u, 1) == BigEndian(u / 0x100, 0) + [u % 0x100];
  }

  lemma {:induction false} FlipTopBitStep(u: nat, w: nat)
    requires 1 < w && u < Pow256(w)
    ensures var e := BigEndian(u, w);
      [Bits.Xor(e[0], 0x80, 8)] + e[1..] == BigEndian((u + 0x80 * Pow256(w - 1)) % Pow256(w), w)
    decreases w, 0
  {
    var e := BigEndian(u, w);
    var f := BigEndian(u / 0x100, w - 1);
    FlipTopBit(u / 0x100, w - 1);
    FlippedSplit(u, w);
    assert e == f + [u % 0x100];
    assert e[0] == f[0] && e[1..] == f[1..] + [u % 0x100];
    assert [Bits.Xor(e[0], 0x80, 8)] + e[1..] == ([Bits.Xor(f[0], 0x80, 8)] + f[1..]) + [u % 0x100];
  }

  /** The number with its top bit flipped, split into its leading part and its last byte. */
  lemma FlippedSplit(u: nat, w: nat)
    requires 1 < w && u < Pow256(w)
    ensures (u / 0x100 + 0x80 * Pow256(w - 2)) % Pow256(w - 1) < Pow256(w - 1)
    ensures BigEndian((u + 0x80 * Pow256(w - 1)) % Pow256(w), w)
         == BigEndian((u / 0x100 + 0x80 * Pow256(w - 2)) % Pow256(w - 1), w - 1) + [u % 0x100]
  {
    var p, q := Pow256(w - 1), Pow256(w - 2);
    var x := u + 0x80 * p;
    var t := x % (0x100 * p);
    assert Pow256(w) == 0x100 * p && p == 0x100 * q;
    ModThenSplit(x, p);
    ShiftByLastByte(u, q);
    assert t / 0x100 == (u / 0x100 + 0x80 * q) % p;
    assert t % 0x100 == u % 0x100;
  }

  /** Go's conversion of a signed W-byte integer to the unsigned type of the same width
      keeps it modulo 256^W; adding 2^(8W-1) to that, modulo 256^W again, is the same as
      adding 2^(8W-1) to the signed value itself. */
  lemma TwosComplementBias(v: int, w: nat)
    requires 0 < w && -0x80 * Pow256(w - 1) <= v < 0x80 * Pow256(w - 1)
    ensures (v % Pow256(w) + 0x80 * Pow256(w - 1)) % Pow256(w) == v + 0x80 * Pow256(w - 1)
  {
    var h, m := 0x80 * Pow256(w - 1), Pow256(w);
    assert m == 2 * h;
    if v >= 0 {
      DivModUnique(v, m, 0, v);
      DivModUnique(v + h, m, 0, v + h);
    } else {
      DivModUnique(v, m, -1, v + m);
      DivModUnique(v + m + h, m, 1, v + h);
    }
  }

  /** 256^w at the widths of Go's integer types. */
  lemma Width1()
    ensures Pow256(0) == 1 && Pow256(1) == 0x100
  {
  }

  lemma Width2()
    ensures Pow256(1) == 0x100 && Pow256(2) == 0x1_0000
  {
  }

  lemma Width4()
    ensures Pow256(3) == 0x100_0000 && Pow256(4) == 0x1_0000_0000
  {
    assert Pow256(2) == 0x1_0000;
  }

  lemma Width8()
    ensures Pow256(7) == 0x100_0000_0000_0000 && Pow256(8) == 0x1_0000_0000_0000_0000
  {
    assert Pow256(4) == 0x1_0000_0000 by { Width4(); }
    assert Pow256(5) == 0x100_0000_0000;
    assert Pow256(6) == 0x1_0000_0000_0000;
  }

  /** The powers of 2 that the float encoders use, and their agreement with 256^w. */
  lemma Bits32()
    ensures Bits.Pow2(31) == 0x8000_0000 && Bits.Pow2(32) == 0x1_0000_0000 == Pow256(4)
  {
    Width4();
    Pow2Bytes(4);
    assert Bits.Pow2(32) == 2 * Bits.Pow2(31);
  }

  lemma Bits64()
    ensures Bits.Pow2(63) == 0x8000_0000_0000_0000 && Bits.Pow2(64) == 0x1_0000_0000_0000_0000 == Pow256(8)
  {
    Width8();
    Pow2Bytes(8);
    assert Bits.Pow2(64) == 2 * Bits.Pow2(63);
  }

  /** 2^(8w) == 256^w. */
  lemma {:induction false} Pow2Bytes(w: nat)
    ensures Bits.Pow2(8 * w) == Pow256(w)
  {
    if w > 0 {
      Pow2Bytes(w - 1);
      var n := 8 * (w - 1);
      assert Bits.Pow2(n + 8) == 2 * Bits.Pow2(n + 7) == 4 * Bits.Pow2(n + 6) == 8 * Bits.Pow2(n + 5)
          == 16 * Bits.Pow2(n + 4) == 32 * Bits.Pow2(n + 3) == 64 * Bits.Pow2(n + 2)
          == 128 * Bits.Pow2(n + 1) == 256 * Bits.Pow2(n);
    }
  }

  lemma ShiftByLastByte(u: nat, p: nat)
    ensures (u + 0x80 * (0x100 * p)) / 0x100 == u / 0x100 + 0x80 * p
    ensures (u + 0x80 * (0x100 * p)) % 0x100 == u % 0x100
  {
    DivModUnique(u + 0x80 * (0x100 * p), 0x100, u / 0x100 + 0x80 * p, u % 0x100);
  }

  // ---------------------------------------------------------------------------
  // encoding/binary.BigEndian writers for numbers

  /** binary.BigEndian.PutUint16: writes v into b[0..2], most significant byte first. */
  method PutUint16(b: array<byte>, v: uint16)
    requires b.Length >= 2
    modifies b
    ensures b[..2] == BigEndian(v, 2) && b[2..] == old(b[2..])
  {
    b[0] := (v / 0x100) % 0x100;
    b[1] := v % 0x100;
    BigEndianBytes(v, 2);
  }

  /** binary.BigEndian.PutUint32: writes v into b[0..4], most significant byte first. */
  method PutUint32(b: array<byte>, v: uint32)
    requires b.Length >= 4
    modifies b
    ensures b[..4] == BigEndian(v, 4) && b[4..] == old(b[4..])
  {
    b[0] := (v / 0x100_0000) % 0x100;
    b[1] := (v / 0x1_0000) % 0x100;
    b[2] := (v / 0x100) % 0x100;
    b[3] := v % 0x100;
    BigEndianBytes(v, 4);
  }

  /** binary.BigEndian.PutUint64: writes v into b[0..8], most significant byte first. */
  method PutUint64(b: array<byte>, v: uint64)
    requires b.Length >= 8
    modifies b
    ensures b[..8] == BigEndian(v, 8) && b[8..] == old(b[8..])
  {
    b[0] := (v / 0x100_0000_0000_0000) % 0x100;
    b[1] := (v / 0x1_0000_0000_0000) % 0x100;
    b[2] := (v / 0x100_0000_0000) % 0x100;
    b[3] := (v / 0x1_0000_0000) % 0x100;
    b[4] := (v / 0x100_0000) % 0x100;
    b[5] := (v / 0x1_0000) % 0x100;
    b[6] := (v / 0x100) % 0x100;
    b[7] := v % 0x100;
    BigEndianBytes(v, 8);
  }

  /** Byte i of the big-endian form is the base-256 digit of weight 256^(w-1-i). */
  lemma {:induction false} BigEndianBytes(v: nat, w: nat)
    requires v < Pow256(w)
    ensures forall i :: 0 <= i < w ==> BigEndian(v, w)[i] == (v / Pow256(w - 1 - i)) % 0x100
  {
    if w > 0 {
      BigEndianBytes(v / 0x100, w - 1);
      forall i | 0 <= i < w - 1
        ensures BigEndian(v, w)[i] == (v / Pow256(w - 1 - i)) % 0x100
      {
        DivDiv(v, Pow256(w - 2 - i));
      }
    }
  }

  /** Dividing by 256 and then by p is dividing by 256p. */
  lemma DivDiv(v: nat, p: nat)
    requires p > 0
    ensures v / 0x100 / p == v / (0x100 * p)
  {
    var q, r := v / (0x100 * p), v % (0x100 * p);
    assert v == 0x100 * (p * q + r / 0x100) + r % 0x100;
    DivModUnique(v, 0x100, p * q + r / 0x100, r % 0x100);
    DivModUnique(v / 0x100, p, q, r / 0x100);
  }
}
