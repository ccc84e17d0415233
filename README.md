# BLS12-381 constants and point codec, in Dafny

This project models two parts of the `bls381` package of the gurvy library.

- **Curve constants (`bls381/bls381.go`).** `init()` fills in the package-level
  constants, and `Generators()` reads them back. The constants are the curve
  and twist coefficients, the generators in Jacobian and affine form, the
  points at infinity, the GLV cube roots and eigenvalue, the twisting
  isomorphism constants, the optimal ate loop counter and `xGen`.
- **Binary codec (`bls381/marshal.go`).**
  - The `Decoder` reads `uint64`, `fr.Element`, `fp.Element`, `G1Affine` or
    `G2Affine` values, and slices of points, from a byte stream. A point is
    either compressed or uncompressed; its most significant byte carries a
    3-bit metadata tag. A slice is read in two phases: a sequential read, then
    recovery of the y coordinate of every compressed element.
  - The `Encoder` writes the same values, in compressed form or in raw
    (uncompressed) form. It keeps a running byte counter.

How the model is laid out:

- `options.dfy` holds `Option`.
- `bigendian.dfy` holds big-endian numbers (`encoding/binary`) and their round
  trips.
- `io.dfy` holds the semantics of `io.ReadFull` and of a bounded `io.Writer`
  over byte sequences.
- `metadata.dfy` holds the metadata masks and `isCompressed`.
- `marshal.dfy` holds the specification functions `DecodeSpec` and
  `EncodeSpec` and the lemmas about them: sizes, counters, error cases and
  decode-after-encode round trips.
- `codec.dfy` holds the stream classes. `Reader`, `Writer`, `Decoder` and
  `Encoder` are classes over arrays and mutable fields, each proved against
  the specification functions in `marshal.dfy`.
- `bls381.dfy` holds the constants, the `Parameters` class that `init()`
  fills in, and lemmas about the constants. These lemmas show that the loop
  counter's digits add up to `xGen`, that `xGen` is the seed's magnitude,
  that `lambdaGLV` is a cube root of unity modulo r, that `thirdRootOneG1` is
  a cube root of unity modulo p, and what the twist coefficient is.

The curve arithmetic is a parameter, not code. `PointCodec` is a record of
function values:

- `Bytes` and `RawBytes` encode a point;
- `SetBytes` parses a point from either encoding, compressed or uncompressed, and
  validates it;
- `unsafeSetCompressedBytes` decodes a compressed point;
- `unsafeComputeY` recovers the y coordinate;
- `zero` is the zero point;
- `valid` picks out the points of the group. These are the points on the curve
  and in the prime-order subgroup, out of all the coordinate pairs a
  `G1Affine` or `G2Affine` can hold.

The round-trip lemmas state what they need of these functions as the
predicates `Tagged`, `Parses` and `Recovers`. `Parses` and `Recovers` are
laws about valid points only, because `SetBytes` rejects every other
coordinate pair. So the point and slice round trips require their points to
be valid. The X-only point that `unsafeSetCompressedBytes` leaves behind is
not required to be valid.

Fp arithmetic is concrete: `Fp` is the numbers below p, and `Square`,
`MulByElement` and the Fp2 product `Mul` work modulo p. `FromJacobian` is likewise a
parameter of `Parameters.Init`, with the law that a point whose Z is one keeps
its X and Y.

The doc comment of `BytesWritten` (`bls381/marshal.go:315-316`) says it
returns the total bytes written on the writer. The code departs from that in
two cases, and the model follows the code:

- A `uint64` is counted as 8 bytes even when the write fails
  (`bls381/marshal.go:336-337`).
- If the 4-byte length prefix of a slice fails to write, the code adds
  nothing to the counter, even when part of the prefix was accepted
  (`bls381/marshal.go:361-365`).

`Marshal.EncodeCounter` states both cases.

## Model

| member | source | states |
|---|---|---|
| Metadata.Tag | bls381/marshal.go:38-45 | the tag of a byte has the byte's top three bits and none of its low five bits |
| Metadata.IsCompressed | bls381/marshal.go:284-287 | a byte reads as compressed exactly when bit 7 or bit 5 is set, i.e. its tag is neither `mUncompressed` nor `mUncompressedInfinity` |
| Metadata.TagsWellFormed | bls381/marshal.go:38-45 | the five tags are pairwise distinct and are their own tags; exactly the three compressed tags read as compressed |
| Metadata.IsCompressedDependsOnTag | bls381/marshal.go:284-287 | two bytes with the same tag are classified alike, so the low five bits never change how many bytes are read |
| BigEndian.FromBytes | bls381/marshal.go:268 | a big-endian number read from k bytes is below 256^k |
| BigEndian.ToBytes | bls381/marshal.go:336 | a value written at a given width takes exactly that many bytes |
| BigEndian.FromToBytes | bls381/marshal.go:260-270 | reading back a value written at a width it fits in gives the value |
| BigEndian.ToFromBytes | bls381/marshal.go:272-282 | writing a read value at the same width gives the original bytes |
| Io.ReadFull | bls381/marshal.go:93-97 | `io.ReadFull` returns the first min(k, available) bytes; it fails exactly when fewer than k were available; it gives `EOF` exactly when nothing was available and k > 0 |
| Io.Accepted | bls381/marshal.go:341-342 | a bounded writer takes all of the buffer or exactly as much as it has room for |
| Codec.Reader.ReadFull | bls381/marshal.go:93-97 | filling `buf[lo..hi]` from the stream copies what `Io.ReadFull` returns, advances the position by that count and leaves the rest of `buf` unchanged |
| Codec.Writer.Write | bls381/marshal.go:341-342 | a write appends the accepted prefix to the sink, uses up that much room and reports a short write exactly when not all was accepted |
| Codec.Decoder.constructor | bls381/marshal.go:65-67 | a new decoder reads from the given stream and has read zero bytes |
| Codec.Decoder.BytesRead | bls381/marshal.go:255-258 | the counter equals the number of bytes taken from the stream since the decoder was created |
| Codec.Decoder.ReadUint64 | bls381/marshal.go:260-270 | consumes what `io.ReadFull` gets of 8 bytes, counts it and, on success, returns their big-endian value |
| Codec.Decoder.ReadUint32 | bls381/marshal.go:272-282 | consumes what `io.ReadFull` gets of 4 bytes and, on success, returns their big-endian value, below 2^32 |
| Codec.Decoder.ReadPoint | bls381/marshal.go:108-125 | reads the compressed size first and the rest of the uncompressed size only when the metadata says uncompressed; consumption and error match `Marshal.ReadPointBytes` |
| Codec.Decoder.Decode | bls381/marshal.go:71-253 | the stored value, the error and the bytes consumed are those of `Marshal.DecodeSpec` for the target's type |
| Codec.Decoder.DecodeSlice | bls381/marshal.go:148-198 | slice decoding stores, fails and consumes as `Marshal.DecodePoints` says |
| Codec.Decoder.ReadElements | bls381/marshal.go:158-183 | the sequential pass leaves the points, the pending flags, the position and the error as `Marshal.ScanFrom` computes them |
| Codec.Decoder.ReadElement | bls381/marshal.go:160-182 | one element's read updates its point, its pending flag, the position and the error as `Marshal.ScanStep` says |
| Codec.Decoder.RecoverPending | bls381/marshal.go:184-193 | every pending point is replaced by its recovered form, the others are kept, and the failure count is `Marshal.FailureCount` |
| Codec.Encoder.constructor | bls381/marshal.go:290-304 | a new encoder has written zero bytes and is in raw mode exactly when the `RawEncoding` option was given |
| Codec.Encoder.BytesWritten | bls381/marshal.go:315-318 | returns the running byte counter |
| Codec.Encoder.Encode | bls381/marshal.go:308-313 | the sink, the remaining room, the counter and the error change as `Marshal.EncodeSpec` says for the encoder's mode |
| Codec.Encoder.EncodeAs | bls381/marshal.go:328-474 | `encode` and `encodeRaw` in one method, each mode meeting `Marshal.EncodeSpec` |
| Codec.Encoder.EncodeSlice | bls381/marshal.go:359-377 | writes the 4-byte length and then the elements; a failed length prefix adds nothing to the counter; sink, counter and error follow `Marshal.SliceWritten` |
| Codec.Encoder.WriteElements | bls381/marshal.go:369-376 | the element loop writes the longest prefix of the concatenated encodings that fits, counts exactly those bytes and stops with a short write when the room runs out |
| Marshal.Needed | bls381/marshal.go:108-125 | a point read needs the uncompressed size exactly when the compressed-size prefix is there and its first byte says uncompressed; otherwise it needs the compressed size |
| Marshal.ReadPointBytes | bls381/marshal.go:108-125 | the bytes a point read takes are a prefix of the input, of the size the metadata needs, or all of the input; the read fails exactly when the input is shorter than that |
| Marshal.ScanStep | bls381/marshal.go:160-182 | one element keeps the lengths, consumes forward within the input, and can only fail with a stream error or an invalid uncompressed point |
| Marshal.InitialPoints | bls381/marshal.go:154-156 | the destination slice has the length read from the prefix |
| Marshal.InitialScan | bls381/marshal.go:157 | the sequential pass starts with nothing consumed and no error |
| Marshal.ScanFrom | bls381/marshal.go:158-183 | the sequential pass keeps the lengths, consumes forward within the input, and fails only with a stream error or an invalid point |
| Marshal.Attempted | bls381/marshal.go:184-193 | recovery keeps the slice's length |
| Marshal.FailureCount | bls381/marshal.go:184-193 | the failure count never exceeds the number of elements |
| Marshal.NoFailureIff | bls381/marshal.go:184-196 | the failure count is zero exactly when every pending element's y recovery succeeds |
| Marshal.DecodePoints | bls381/marshal.go:148-198 | slice decoding never consumes more than the input |
| Marshal.DecodeSpec | bls381/marshal.go:71-253 | decoding consumes within the input; success always stores a value; a non-pointer or nil target is refused as "need pointer" and an unknown type as "unsupported", in both cases before reading |
| Marshal.Concat | bls381/marshal.go:369-376 | the definition of the element loop's output: the point encodings in index order. Its laws are `ConcatAppend`, `ConcatSize`, `ConcatSplit` and `ConcatElement` |
| Marshal.Intended | bls381/marshal.go:328-474 | the definition of the full encoding of each value kind in each mode. Its sizes are `EncodedSize`; the round-trip lemmas show that `DecodeSpec` inverts it |
| Marshal.EncodeSpec | bls381/marshal.go:328-474 | the definition of one `encode`/`encodeRaw` call against a writer with bounded room. What it promises is stated by `EncodeWritesPrefix`, `EncodeCounter`, `EncodedSliceCount` and `ModesAgreeOnScalars` |
| Marshal.SliceWritten | bls381/marshal.go:359-377 | the definition of the slice branch in two stages: the prefix, returning uncounted when cut short, then the elements. `SliceEncoding` ties it to `EncodeSpec` |
| Marshal.LengthPrefix | bls381/marshal.go:361 | the length prefix is 4 bytes |
| Marshal.SliceEncoding | bls381/marshal.go:359-377 | the one-call description of a slice encode (`EncodeSpec`) and the prefix-then-elements description (`SliceWritten`) agree on bytes, counter and error for every amount of room |
| Marshal.PointReadSize | bls381/marshal.go:108-127 | a point read takes the compressed size when the first byte says compressed and the uncompressed size otherwise; a short input is consumed whole and reported as a stream error |
| Marshal.ScanStopsAtError | bls381/marshal.go:161-179 | the sequential pass stops at the first element whose read fails |
| Marshal.AttemptedAt | bls381/marshal.go:185-192 | after recovery, element i is its recovered point when pending and is unchanged otherwise |
| Marshal.RecoverStep | bls381/marshal.go:185-192 | recovering one more element appends its result and adds one failure exactly when it is pending and fails |
| Marshal.SliceLength | bls381/marshal.go:149-157 | once the 4-byte length is read, the stored slice has exactly that length, even when an element later fails |
| Marshal.DecompressionFailureIff | bls381/marshal.go:184-198 | "point decompression failed" is reported exactly when the sequential pass succeeded and some pending element's y recovery fails |
| Marshal.ConcatAppend | bls381/marshal.go:369-376 | the encoding of a concatenated slice is the concatenation of the encodings |
| Marshal.ConcatSize | bls381/marshal.go:367-376 | the elements of a slice take the element size times the slice length |
| Marshal.ConcatSplit | bls381/marshal.go:369-376 | the element encoding splits at any index into before, the element and after |
| Marshal.ConcatElement | bls381/marshal.go:369-376 | element i occupies bytes [i·k, i·k + k) of the element encoding |
| Marshal.EncodedSize | bls381/marshal.go:328-400 | 8 bytes for a uint64, 32 for fr, 48 for fp, the compressed or raw size for a point, and 4 plus length times element size for a slice |
| Marshal.EncodeWritesPrefix | bls381/marshal.go:333-358 | the sink receives the longest prefix of the intended encoding that fits; the encode fails exactly when the encoding does not fit, and only with a short write |
| Marshal.EncodeCounter | bls381/marshal.go:335-365 | the counter adds 8 for a uint64 whatever is written, 0 for a slice whose prefix fails or for an unsupported type, and otherwise exactly the bytes written |
| Marshal.EncodedSliceCount | bls381/marshal.go:359-377 | a successful slice encode counts 4 plus length times element size |
| Marshal.ModesAgreeOnScalars | bls381/marshal.go:402-432 | raw and compressed mode write the same bytes for scalars and unsupported types; for points they differ only in `RawBytes` versus `Bytes` |
| Marshal.Uint64RoundTrip | bls381/marshal.go:84-91 | decoding an encoded uint64 gives it back and consumes 8 bytes |
| Marshal.FrRoundTrip | bls381/marshal.go:92-99 | decoding an encoded fr element gives it back and consumes 32 bytes |
| Marshal.FpRoundTrip | bls381/marshal.go:100-107 | decoding an encoded fp element gives it back and consumes 48 bytes |
| Marshal.ReadEncodedPoint | bls381/marshal.go:108-125 | reading a point from its own encoding, compressed or raw, takes exactly that encoding |
| Marshal.PointRoundTrip | bls381/marshal.go:108-127 | decoding a valid point encoded in either mode gives it back and consumes exactly its encoding |
| Marshal.ScanStepEncoded | bls381/marshal.go:160-182 | reading the next element of an encoded slice succeeds and moves the position to the next element |
| Marshal.ScanEncoded | bls381/marshal.go:158-183 | the sequential pass over an encoded slice reads every element without error |
| Marshal.RecoverScanned | bls381/marshal.go:184-198 | recovery after that pass restores the original points with no failure |
| Marshal.SliceHeader | bls381/marshal.go:149-153 | the length prefix of an encoded slice reads back as the slice's length |
| Marshal.ScanWhole | bls381/marshal.go:158-193 | over an encoded slice the two phases consume exactly the elements' bytes and give back the original points |
| Marshal.SliceRoundTrip | bls381/marshal.go:148-198 | decoding an encoded slice of valid points, in either mode, gives it back and consumes exactly its encoding |
| Bls381.MulByElement | bls381/bls381.go:72 | multiplying by an element b of Fp is the Fp2 product with b + 0u, under the independent definition `Mul` (u^2 = -1) |
| Bls381.Square | bls381/bls381.go:94 | the square of an Fp element is its Fp2 square, which lies in the base field |
| Bls381.Parameters.Init | bls381/bls381.go:67-109 | every package constant takes its value, and the affine generators keep the Jacobian generators' X and Y |
| Bls381.Parameters.Generators | bls381/bls381.go:111-118 | returns the stored generators; each affine generator is its Jacobian generator at Z = 1 |
| Bls381.TwistCoefficient | bls381/bls381.go:69-72 | the twist coefficient, the Fp2 product (1 + u)·4, is 4 + 4u, and `MulByElement` computes the same |
| Bls381.LoopCounterIsBinary | bls381/bls381.go:104-105 | the loop counter has 64 digits, each 0 or 1 |
| Bls381.LoopCounterIsXGen | bls381/bls381.go:104-107 | the loop counter's digits, least significant first, add up to `xGen` |
| Bls381.XGenIsSeedMagnitude | bls381/bls381.go:16 | the seed x is negative and `xGen` is its magnitude |
| Bls381.LambdaIsCubeRootModR | bls381/bls381.go:95-96 | `lambdaGLV` is x^2 - 1, r is x^4 - x^2 + 1, and λ^2 + λ + 1 = r, so λ is a nontrivial cube root of unity modulo r |
| Bls381.ThirdRootIsCubeRootOfUnity | bls381/bls381.go:93-94 | `thirdRootOneG1` is a canonical element of Fp other than 1, and its square times itself is 1 modulo p |
| Bls381.ThirdRootG2IsConjugate | bls381/bls381.go:93-94 | `thirdRootOneG2`, the square of `thirdRootOneG1`, is the other nontrivial cube root of unity: w^2 = -1 - w modulo p, and squaring it gives `thirdRootOneG1` back |

## Left out

- Concurrency: `parallel.Execute` and the atomic failure counter become one sequential loop. Every pending element is still attempted, so the count is the same.
- Reflection: `interface{}` dispatch becomes the `Target` and `Value` datatypes. The need-pointer check and the unsupported-type branch are kept. A nil pointer handed to `Encode` (a Go panic) is not modelled.
- The `int64` byte counters are unbounded integers. The 32-bit truncation of a slice length at encode time is modelled in `Marshal.LengthPrefix`.
- G1 and G2: one `Group` parameter per codec instance chooses the sizes (48/96 or 96/192 bytes). The code's separate branches for each group are therefore one model. Each `Encoder` and `Decoder` is bound to one group through its `PointCodec`. So the model cannot express one Go encoder or decoder, with one byte counter, handling a stream that mixes G1 and G2 values.
- A failed `SetBytes` may partly overwrite the destination in Go. It writes X and Y before the subgroup check rejects the point. The model stores nothing for a failed single-point decode. In a slice, the model leaves element i as it was when its uncompressed read is rejected (`bls381/marshal.go:176-179`). So the slice stored alongside an `InvalidPoint` error may differ from Go's in that one element.
- A slice target is a sequence value. Reuse of the caller's backing array when its length already matches is modelled as starting from the current elements. Aliasing with other slices is not modelled.
- The point operations are parameters with stated laws: `Bytes`/`SetBytes` of points, subgroup membership (`valid`), y recovery and `FromJacobian`. Their implementations (curve arithmetic, square roots, subgroup checks) are not part of this model. Fr and Fp elements are reduced numbers below the modulus, and `SetBytes` reduces modulo it. Fp and Fp2 multiplication modulo p are modelled concretely.
- `utils.PrecomputeLattice` and the resulting `glvBasis` (`bls381/bls381.go:97`) are not part of this model. `Parameters` does not hold `glvBasis`.
- `RawEncoding` (`bls381/marshal.go:322-326`) is the `Codec.RawEncoding` option value, not a closure. The encoder's constructor applies the options in order.
- Error messages are error kinds, not strings.
