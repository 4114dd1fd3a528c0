# bytesort in Dafny

A model of the encoder in the Go package `bytesort`. `Encode` takes a value of one of
Go's primitive types and returns a byte slice, or an error. Two byte slices produced
from values of the same type compare under `bytes.Compare` (unsigned bytes, left to
right, shorter prefix first) in the same order as the values. The encodings are:

- **Integers.** They are written big-endian at a fixed width: 1, 2, 4 or 8 bytes, with
  `int` and `uint` taken as 64 bits. A signed value is written as its two's-complement
  bytes, and then the top bit of the first byte is flipped.
- **Booleans.** `false` is one byte 00 and `true` is one byte 01.
- **Floats.** The IEEE 754 bit pattern goes through the radix-sort transform
  `bits ^= -(bits >> (N-1)) | 1 << (N-1)` and is then written big-endian.
- **Strings.** A string encodes as its bytes. The empty string encodes as a single 00
  byte.
- **`time.Time`.** The time's `MarshalBinary` output is used without its first byte
  and its last two bytes.
- **Any other dynamic type.** It is rejected with the error
  `bytesort.Encode: unsupported type <%T>`.

The files are:

- `bits.dfy` (module `Bits`). Go's `^`, `|`, unary `-` and `>>` on N-bit unsigned
  words, defined on the natural number the word denotes: `^` and `|` bit by bit,
  unary `-` as 2^N - a (wrapping), and `>>` by repeated halving. The file also holds
  the lemmas behind the float transform.
- `binary.dfy` (module `Binary`). The parts of Go's standard library the encoder uses:
  - the `byte` and `uintN` types;
  - `bytes.Compare` and its ordering lemmas;
  - big-endian representation, the `binary.BigEndian.PutUint16/32/64` writers (as
    methods on an `array<byte>`), and the two's-complement and top-bit lemmas.
- `bytesort.dfy` (module `Bytesort`). The encoder itself:
  - the `Value` datatype, which stands for Go's dynamic type switch;
  - `intDataSize`, `encodeInt` (which allocates the buffer, fills it in place, then
    flips the first byte's top bit for signed types), `encodeFloat32`,
    `encodeFloat64`, `encodeTime` and `Encode`;
  - `Encoding`, a specification function that gives each type's result
    independently of the code that computes it.
- `sortability.dfy` (module `Sortability`). What the encoder promises its callers:
  - order preservation for every type except `time.Time`;
  - fixed width for every type except strings and `time.Time`;
  - the float transform is a bijection, and the byte order of encoded floats is the
    totalOrder of IEEE 754-2008 (section 5.10) on bit patterns;
  - string monotonicity, and the one collision ("" and "\x00");
  - time-zone independence;
  - the error cases;
  - the concrete values from the package's tests and example.

The empty string encodes as the single byte `0x00` (bytesort.go:31, 48-52), so it
collides with the one-byte string "\x00".

The package's own text and its code disagree in two places, and the model follows
the code:

- The package comment lists `time.Time (normalised to UTC)` (bytesort.go:43), but
  `encodeTime` (bytesort.go:147-154) never converts the time to UTC. It marshals the
  time and drops the first byte and the last two.
  `Sortability.TimeZoneIndependent` states what that slice does and does not depend
  on, for marshalled forms of equal length.
- The tests expect a named type such as `int64Type` to be encoded through an
  `EncodeSortable` method (bytesort_test.go:103-107, 163-171). `Encode`
  (bytesort.go:44-67) has no such dispatch and no `[]byte` case, so a named type
  falls through to `intDataSize == 0` and is rejected as unsupported.
  `Sortability.UnsupportedExamples` states this rejection.

## Model

| member | source | states |
|---|---|---|
| Binary.Compare | bytesort.go:6-10 | bytes.Compare returns -1, 0 or 1, and returns 0 exactly when the two slices are equal |
| Binary.CompareAntisymmetric | bytesort.go:6-10 | swapping the arguments of bytes.Compare negates its result |
| Binary.CompareTransitive | bytesort.go:6-10 | the order bytes.Compare defines is transitive, so sorting with it is well defined |
| Binary.BigEndianOrder | bytesort.go:86-101 | comparing the big-endian bytes of two same-width numbers gives the same answer as comparing the numbers |
| Binary.PutUint16 | bytesort.go:87-89 | the first 2 bytes of the buffer become the big-endian form of v, and the rest is unchanged |
| Binary.PutUint32 | bytesort.go:91-93 | the first 4 bytes of the buffer become the big-endian form of v, and the rest is unchanged |
| Binary.PutUint64 | bytesort.go:95-101 | the first 8 bytes of the buffer become the big-endian form of v, and the rest is unchanged |
| Binary.BigEndianBytes | bytesort.go:87-101 | byte i of the big-endian form of v is the base-256 digit of v with weight 256^(w-1-i) |
| Binary.TwosComplementBias | bytesort.go:86-97 | the uintN conversion of a signed value, plus 2^(8W-1) modulo 2^(8W), is the signed value plus 2^(8W-1) |
| Binary.FlipTopBit | bytesort.go:103-110 | XOR-ing the first byte with 0x80 adds 2^(8W-1), modulo 2^(8W), to the number the W bytes denote |
| Binary.XorTopByte | bytesort.go:109 | `b ^ 0x80` on a byte equals `(b + 0x80) mod 256` |
| Bits.Xor | bytesort.go:133-141 | Go's `^` on n-bit words gives an n-bit word |
| Bits.Or | bytesort.go:133-141 | Go's `\|` on n-bit words gives an n-bit word |
| Bits.Neg | bytesort.go:133-141 | Go's unary `-` on an n-bit unsigned word gives an n-bit word that, added to the operand, is 0 modulo 2^n |
| Bits.Shr | bytesort.go:133-141 | Go's `>>` on an unsigned word never gives more than the operand |
| Bits.XorTopBit | bytesort.go:133 | XOR with 2^(n-1) sets the top bit of an n-bit word that has it clear, and clears it when it is set |
| Bits.XorOnes | bytesort.go:133 | XOR with the all-ones word complements a word |
| Bits.ShrTopBit | bytesort.go:133 | shifting an n-bit word right by n-1 leaves exactly its sign bit |
| Bits.RadixFlip | bytesort.go:133-141 | x XOR (-(x >> (n-1)) OR 2^(n-1)) complements a word whose sign bit is set, and sets the sign bit of any other word |
| Bytesort.IntDataSize | bytesort.go:116-128 | intDataSize is 0, 1, 2, 4 or 8, and it is positive for every signed type |
| Bytesort.ValueRange | bytesort.go:82-101 | a signed W-byte value lies in [-2^(8W-1), 2^(8W-1)); an unsigned one or a bool lies in [0, 2^(8W)) |
| Bytesort.Unsigned | bytesort.go:86-97 | the uintN conversion of an integer is below 2^(8W), and it is the value itself for unsigned types and bool |
| Bytesort.IntKey | bytesort.go:82-110 | the number whose big-endian bytes encode an integer fits in W bytes; it is the value for unsigned types and the value plus 2^(8W-1) for signed ones |
| Bytesort.SignedKeyBytes | bytesort.go:82-110 | flipping the top bit of a signed value's two's-complement bytes gives the big-endian bytes of the value plus 2^(8W-1) |
| Bytesort.FloatKey | bytesort.go:131-145 | the radix-sort key of a W-byte pattern is again a W-byte pattern |
| Bytesort.Encoding | bytesort.go:44-67 | the result is an error exactly for an unsupported type or a failed marshalling |
| Bytesort.EncodeTime | bytesort.go:147-154 | a marshalled time becomes its bytes from index 1 up to, but not including, the last two; a marshalling error becomes the same error with the prefix `bytesort.Encode: ` |
| Bytesort.EncodeFloat32 | bytesort.go:139-145 | the result is the 4 big-endian bytes of the pattern's radix-sort key |
| Bytesort.EncodeFloat64 | bytesort.go:131-137 | the result is the 8 big-endian bytes of the pattern's radix-sort key |
| Bytesort.PutInt | bytesort.go:74-102 | the intDataSize-byte buffer receives the big-endian form of the value converted to uintN |
| Bytesort.EncodeInt | bytesort.go:69-112 | an unsized type gives the unsupported-type error; any other value gives the big-endian bytes of its key, which is the value offset by 2^(8W-1) for signed types |
| Bytesort.Encode | bytesort.go:44-67 | Encode returns what `Encoding` specifies, for every value |
| Sortability.IntegerOrder | bytesort.go:69-112 | for two integers or two bools of the same type, bytes.Compare of their encodings equals the comparison of the numbers, so the encoding preserves order and is one-to-one |
| Sortability.SignedTwosComplement | bytesort.go:82-110 | a signed value encodes as its two's-complement bytes with the top bit of the first byte flipped |
| Sortability.UnsignedPlain | bytesort.go:84-101 | an unsigned value or bool encodes as its plain big-endian bytes |
| Sortability.BoolEncoding | bytesort_test.go:369-370 | false gives 00 and true gives 01, and false sorts first |
| Sortability.Int16Examples | bytesort_test.go:350-352 | int16 -32768, 0 and 32767 give 00 00, 80 00 and FF FF |
| Sortability.FixedWidth | bytesort.go:28-30 | an integer or bool encodes in intDataSize bytes, a float32 in 4 and a float64 in 8 |
| Sortability.SameTypeSameLength | bytesort_test.go:322-345 | two values of one type that is neither string nor time.Time encode to the same length |
| Sortability.FloatKeyHalves | bytesort.go:130-145 | a negative pattern's key is below 2^(N-1), with the order among negative patterns reversed; any other pattern's key is at least 2^(N-1), with the order kept |
| Sortability.FloatKeyBijection | bytesort.go:130-145 | the float transform and its inverse undo each other on every N-bit pattern |
| Sortability.FloatKeyOrder | bytesort.go:130-145 | two float encodings compare as their patterns do in totalOrder, and are equal exactly when the patterns are |
| Sortability.Float32Order | bytesort.go:139-145 | float32 encodings sort in the totalOrder of their patterns, and are equal only for equal patterns |
| Sortability.Float64Order | bytesort.go:131-137 | float64 encodings sort in the totalOrder of their patterns, and are equal only for equal patterns |
| Sortability.Float32Examples | bytesort_test.go:196-204 | the patterns of -MaxFloat32, -0.1, -SmallestNonzero, 0, SmallestNonzero, 0.1 and MaxFloat32 encode in strictly ascending order |
| Sortability.StringBytes | bytesort.go:46-53 | a non-empty string encodes as its bytes, the empty string as 00, and the encoding is never empty |
| Sortability.StringExample | bytesort_test.go:365 | "abc" gives 61 62 63 |
| Sortability.EmptyStringCollides | bytesort.go:31 | "" and "\x00" have the same encoding |
| Sortability.StringMonotone | bytesort.go:46-53 | s <= t implies enc(s) <= enc(t) under bytes.Compare |
| Sortability.StringStrict | bytesort.go:46-53 | s < t implies enc(s) < enc(t), except for the pair "" and "\x00" |
| Sortability.TimeZoneIndependent | bytesort_test.go:232-249 | two marshalled times of the same length encode alike exactly when they agree everywhere except in the version byte and the zone-offset bytes |
| Sortability.TimeEncoding | bytesort.go:147-154 | a marshalled time encodes as `m[1 : len(m)-2]`; a marshalling failure gives its error prefixed with `bytesort.Encode: ` |
| Sortability.UnsupportedRejected | bytesort.go:70-73 | an unsupported type gives the error `bytesort.Encode: unsupported type ` followed by its %T name |
| Sortability.UnsupportedExamples | bytesort_test.go:83-107 | nil, []string, map[string]string, []byte and the named type int64Type are all rejected |
| Sortability.TimeSameLength | bytesort.go:147-154 | two marshalled times of equal length encode to equal lengths, three bytes shorter than the marshalled form |
| Sortability.SuccessNonEmpty | bytesort.go:28 | a successful encoding is not empty, provided that a marshalled time is longer than three bytes |

## Left out

- The golden-file harness, the fixture files, the `-update` flag and the benchmarks
  in bytesort_test.go. These are file I/O and test plumbing.
- The internals of `time.Time.MarshalBinary`: the seconds and nanoseconds layout and
  the conditions under which it fails. It is a library call whose code is not part of
  this model. A marshalled time is an opaque byte sequence of at least three bytes,
  or an error message.
- Floating-point values as real numbers. A float is its IEEE 754 bit pattern, which
  is what `math.Float32bits`/`Float64bits` return. Real-number order, NaN, and -0
  versus +0 are not modelled. The code does not special-case them either, and their
  order is the totalOrder of their patterns.
- Bit patterns as bit-vectors. A pattern is the natural number it denotes (`uint32` /
  `uint64` subset types of `int`), and `^`, `|`, `>>` and unary `-` are defined on
  those numbers in `Bits`. The verifier's conversions between bit-vectors and
  integers are too costly for these proofs.
- Go's runtime type switch and the exact `%T` formatting. The closed datatype `Value`
  stands for the dynamic types. An `Unsupported` value carries its type-name string,
  and the model does not derive that string.
- `int` and `uint` are fixed at 64 bits, as on the 64-bit platforms the package's
  test values (math.MaxInt64 as an int) require. 32-bit platforms are not modelled.
- SameTypeSameLength: does not cover `time.Time`. A time's encoding is three bytes
  shorter than its marshalled form (`Sortability.TimeSameLength`), so times encode at
  a fixed width only if `MarshalBinary` always returns the same length, which the
  opaque marshalled form does not capture.
- The order, width and zone independence of time encodings depend on the layout of
  `MarshalBinary`'s output: that the bytes between the first and the last two hold
  the instant in a fixed-width, big-endian form and do not hold the zone offset. The
  model assumes this layout and does not prove it. A layout with a longer version-2
  form, whose offset has a seconds part, would leave one offset byte in the slice.
- SuccessNonEmpty: for `time.Time`, non-emptiness is stated only for marshalled forms
  longer than three bytes, because the byte sequence is opaque. Go's `MarshalBinary`
  produces at least 15 bytes.
- The `EncodeSortable` extension capability and raw `[]byte` input are not present in
  the code and are not added here.
