/**
 * The wire format of bls381 objects, as functions of the bytes a Decoder
 * reads and of the bytes an Encoder writes (ZCash serialization of BLS12-381
 * points).  The Decoder and Encoder classes are proved to behave as these
 * functions say; the lemmas here state what the format promises.
 */
module Marshal {

  import opened Options
  import opened Io
  import opened BigEndian
  import opened Metadata
  import Bls381

  /** The two point groups; they differ only in their encoded sizes. */
  datatype Group = G1 | G2

  const SizeOfG1AffineCompressed: nat := 48
  const SizeOfG1AffineUncompressed: nat := 96
  const SizeOfG2AffineCompressed: nat := 96
  const SizeOfG2AffineUncompressed: nat := 192
  /** fr.Limbs * 8 and fp.Limbs * 8: the encoded sizes of the field elements. */
  const SizeOfFr: nat := 32
  const SizeOfFp: nat := 48

  function CompressedSize(g: Group): nat
  {
    if g == G1 then SizeOfG1AffineCompressed else SizeOfG2AffineCompressed
  }

  function UncompressedSize(g: Group): nat
  {
    if g == G1 then SizeOfG1AffineUncompressed else SizeOfG2AffineUncompressed
  }

  /** binary.Write of a uint64, and the values a uint64 can hold. */
  type Uint64 = x: nat | x < TwoTo64

  /** An element of the scalar field, in canonical form. */
  type Fr = x: nat | x < Bls381.R

  type Fp = Bls381.Fp

  /** unsafeSetCompressedBytes: the point with its X set, and whether it is infinity. */
  datatype Compressed<P> = Compressed(point: P, isInfinity: bool)

  /** unsafeComputeY: the point after the attempt, and whether a Y was found. */
  datatype Recovery<P> = Recovery(point: P, ok: bool)

  /**
   * The curve operations the codec calls on the points of one group: the
   * compressed and uncompressed encodings, the validating parser, the two
   * halves of decompression used by the batch decoder, and the zero point.
   * P is any pair of coordinates; `valid` picks out the points of the
   * group (on the curve and in the prime-order subgroup), the only ones the
   * parser accepts.
   */
  datatype PointCodec<!P> = PointCodec(
    group: Group,
    valid: P -> bool,
    bytes: P -> seq<bv8>,
    rawBytes: P -> seq<bv8>,
    setBytes: seq<bv8> -> Option<P>,
    setCompressedBytes: seq<bv8> -> Compressed<P>,
    computeY: P -> Recovery<P>,
    zero: P)

  /** What a stream carries: a uint64, a field element, a point or a slice of
      points; `Other` is a value of any type the codec does not support. */
  datatype Value<P> =
    | U64(u: Uint64)
    | FrElement(fr: Fr)
    | FpElement(fp: Fp)
    | Point(p: P)
    | Points(ps: seq<P>)
    | Other

  /** The argument of Decode: something other than a pointer, a nil pointer,
      or a pointer to a uint64, a field element, a point, a slice of points
      (with the slice it currently holds) or to an unsupported type. */
  datatype Target<P> =
    | NotPointer
    | NilPointer
    | ToUint64
    | ToFr
    | ToFp
    | ToPoint
    | ToPoints(current: seq<P>)
    | ToOther

  datatype Error =
    | NeedPointer          // "unsupported type, need pointer"
    | UnsupportedType      // "unsupported type"
    | Stream(e: IoError)   // the reader or writer failed
    | InvalidPoint         // SetBytes rejected the point
    | DecompressionFailed  // "point decompression failed"

  /** The result of one Decode: the value stored through the target pointer
      (None when nothing was stored), the number of bytes taken from the
      reader, and the error returned. */
  datatype Outcome<P> = Outcome(stored: Option<Value<P>>, consumed: nat, err: Option<Error>)

  // ---------------------------------------------------------------------
  // Decoding
  // ---------------------------------------------------------------------

  /** The size of the point that starts `input`: the compressed size, unless
      the compressed-size prefix is there and its first byte says uncompressed. */
  function Needed(g: Group, input: seq<bv8>): (n: nat)
    ensures n == CompressedSize(g) || n == UncompressedSize(g)
    ensures n == UncompressedSize(g) <==> CompressedSize(g) <= |input| && !IsCompressed(input[0])
  {
    if |input| < CompressedSize(g) || IsCompressed(input[0]) then CompressedSize(g)
    else UncompressedSize(g)
  }

  /** The two reads of a point: the compressed-size prefix, then the rest of
      the uncompressed size only if the metadata says uncompressed. */
  function ReadPointBytes(g: Group, input: seq<bv8>): (r: ReadResult)
    ensures |r.data| == Min(Needed(g, input), |input|) && r.data == input[..|r.data|]
    ensures r.err.None? <==> Needed(g, input) <= |input|
  {
    var first := ReadFull(input, CompressedSize(g));
    if first.err.Some? || IsCompressed(first.data[0]) then first
    else
      var rest := ReadFull(input[CompressedSize(g)..], UncompressedSize(g) - CompressedSize(g));
      ReadResult(first.data + rest.data, rest.err)
  }

  /** The state of the first loop of the batch decode: the slice, the
      elements marked for Y recovery, the bytes read, and the error that
      ended the loop. */
  datatype Scan<P> = Scan(points: seq<P>, pending: seq<bool>, consumed: nat, err: Option<Error>)

  /** One iteration of that loop, on element i, reading input[s.consumed..]. */
  function ScanStep<P>(c: PointCodec<P>, s: Scan<P>, i: nat, input: seq<bv8>): (s': Scan<P>)
    requires s.err.None? && i < |s.points| == |s.pending| && s.consumed <= |input|
    ensures |s'.points| == |s.points| && |s'.pending| == |s.pending|
    ensures s.consumed <= s'.consumed <= |input|
    ensures s'.err.Some? ==> s'.err.value.Stream? || s'.err.value.InvalidPoint?
  {
    var r := ReadPointBytes(c.group, input[s.consumed..]);
    var consumed := s.consumed + |r.data|;
    if r.err.Some? then
      s.(consumed := consumed, err := Some(Stream(r.err.value)))
    else if !IsCompressed(r.data[0]) then
      match c.setBytes(r.data)
      case None => s.(consumed := consumed, err := Some(InvalidPoint))
      case Some(p) => s.(points := s.points[i := p], consumed := consumed)
    else
      var cp := c.setCompressedBytes(r.data);
      s.(points := s.points[i := cp.point], pending := s.pending[i := !cp.isInfinity], consumed := consumed)
  }

  /** The slice the first loop starts from: the target's own slice when its
      length is the decoded one, a fresh slice of zero points otherwise. */
  function InitialPoints<P>(c: PointCodec<P>, current: seq<P>, len: nat): (ps: seq<P>)
    ensures |ps| == len
  {
    if |current| == len then current else seq(len, _ => c.zero)
  }

  /** The state the first loop starts from: nothing pending, nothing read. */
  function InitialScan<P>(points: seq<P>): (s: Scan<P>)
    ensures |s.pending| == |s.points| && s.consumed == 0 && s.err.None?
  {
    Scan(points, seq(|points|, _ => false), 0, None)
  }

  /** The first loop from iteration i on, in state s: it runs to the end of
      the slice or stops at the first error. */
  function ScanFrom<P>(c: PointCodec<P>, s: Scan<P>, input: seq<bv8>, i: nat): (r: Scan<P>)
    requires i <= |s.points| == |s.pending| && s.consumed <= |input|
    ensures |r.points| == |s.points| && |r.pending| == |s.pending|
    ensures s.consumed <= r.consumed <= |input|
    ensures s.err.None? && r.err.Some? ==> r.err.value.Stream? || r.err.value.InvalidPoint?
    decreases |s.points| - i
  {
    if i == |s.points| || s.err.Some? then s
    else ScanFrom(c, ScanStep(c, s, i, input), input, i + 1)
  }

  /** The slice after the second loop: every pending element has been through
      Y recovery, the others are as the first loop left them. */
  function Attempted<P>(c: PointCodec<P>, points: seq<P>, pending: seq<bool>): (r: seq<P>)
    requires |points| == |pending|
    ensures |r| == |points|
    decreases |points|
  {
    if points == [] then []
    else
      var k := |points| - 1;
      Attempted(c, points[..k], pending[..k]) + [if pending[k] then c.computeY(points[k]).point else points[k]]
  }

  /** The number of failed Y recoveries the second loop counts. */
  function FailureCount<P>(c: PointCodec<P>, points: seq<P>, pending: seq<bool>): (k: nat)
    requires |points| == |pending|
    ensures k <= |points|
    decreases |points|
  {
    if points == [] then 0
    else
      var k := |points| - 1;
      FailureCount(c, points[..k], pending[..k]) + if pending[k] && !c.computeY(points[k]).ok then 1 else 0
  }

  /** The failure count is zero exactly when every pending element's Y
      recovery succeeds. */
  lemma {:induction false} NoFailureIff<P>(c: PointCodec<P>, points: seq<P>, pending: seq<bool>)
    requires |points| == |pending|
    ensures FailureCount(c, points, pending) == 0 <==>
      forall i :: 0 <= i < |points| && pending[i] ==> c.computeY(points[i]).ok
    decreases |points|
  {
    if points != [] {
      var k := |points| - 1;
      NoFailureIff(c, points[..k], pending[..k]);
      assert forall i :: 0 <= i < k ==> points[..k][i] == points[i] && pending[..k][i] == pending[i];
    }
  }

  /** Decoding into a slice of points: the 4-byte length, the first loop over
      the elements, then Y recovery of the pending ones. */
  function DecodePoints<P>(c: PointCodec<P>, current: seq<P>, input: seq<bv8>): (o: Outcome<P>)
    ensures o.consumed <= |input|
  {
    var r := ReadFull(input, 4);
    if r.err.Some? then Outcome(None, |r.data|, Some(Stream(r.err.value)))
    else
      var len := FromBytes(r.data);
      var s := ScanFrom(c, InitialScan(InitialPoints(c, current, len)), input[4..], 0);
      if s.err.Some? then Outcome(Some(Points(s.points)), 4 + s.consumed, s.err)
      else
        var err := if FailureCount(c, s.points, s.pending) != 0 then Some(DecompressionFailed) else None;
        Outcome(Some(Points(Attempted(c, s.points, s.pending))), 4 + s.consumed, err)
  }

  /** Decoder.Decode on a reader whose remaining content is `input`. */
  function DecodeSpec<P>(c: PointCodec<P>, t: Target<P>, input: seq<bv8>): (o: Outcome<P>)
    ensures o.consumed <= |input|
    ensures o.err.None? ==> o.stored.Some?
    ensures t.NotPointer? || t.NilPointer? ==> o == Outcome(None, 0, Some(NeedPointer))
    ensures t.ToOther? ==> o == Outcome(None, 0, Some(UnsupportedType))
  {
    match t
    case NotPointer => Outcome(None, 0, Some(NeedPointer))
    case NilPointer => Outcome(None, 0, Some(NeedPointer))
    case ToOther => Outcome(None, 0, Some(UnsupportedType))
    case ToUint64 =>
      var r := ReadFull(input, 8);
      if r.err.Some? then Outcome(None, |r.data|, Some(Stream(r.err.value)))
      else Pow256Widths(); Outcome(Some(U64(FromBytes(r.data))), 8, None)
    case ToFr =>
      var r := ReadFull(input, SizeOfFr);
      if r.err.Some? then Outcome(None, |r.data|, Some(Stream(r.err.value)))
      else Outcome(Some(FrElement(FromBytes(r.data) % Bls381.R)), SizeOfFr, None)
    case ToFp =>
      var r := ReadFull(input, SizeOfFp);
      if r.err.Some? then Outcome(None, |r.data|, Some(Stream(r.err.value)))
      else Outcome(Some(FpElement(FromBytes(r.data) % Bls381.P)), SizeOfFp, None)
    case ToPoint =>
      var r := ReadPointBytes(c.group, input);
      if r.err.Some? then Outcome(None, |r.data|, Some(Stream(r.err.value)))
      else
        (match c.setBytes(r.data)
         case None => Outcome(None, |r.data|, Some(InvalidPoint))
         case Some(p) => Outcome(Some(Point(p)), |r.data|, None))
    case ToPoints(current) => DecodePoints(c, current, input)
  }

  // ---------------------------------------------------------------------
  // Encoding
  // ---------------------------------------------------------------------

  /** Bytes() in the default mode, RawBytes() in raw mode. */
  function PointBytes<P>(c: PointCodec<P>, raw: bool, p: P): seq<bv8>
  {
    if raw then c.rawBytes(p) else c.bytes(p)
  }

  /** The encodings of the points of a slice, in index order. */
  function Concat<P>(c: PointCodec<P>, raw: bool, ps: seq<P>): seq<bv8>
    decreases |ps|
  {
    if ps == [] then [] else Concat(c, raw, ps[..|ps| - 1]) + PointBytes(c, raw, ps[|ps| - 1])
  }

  /** The length prefix of a slice: its length converted to uint32, 4 bytes
      big-endian. */
  function LengthPrefix(len: nat): (s: seq<bv8>)
    ensures |s| == 4
  {
    ToBytes(len % TwoTo32, 4)
  }

  /** Everything Encode writes for v when the writer accepts it all. The
      slice length is converted to uint32 first, so it is taken mod 2^32. */
  function Intended<P>(c: PointCodec<P>, raw: bool, v: Value<P>): seq<bv8>
  {
    match v
    case U64(u) => ToBytes(u, 8)
    case FrElement(x) => ToBytes(x, SizeOfFr)
    case FpElement(x) => ToBytes(x, SizeOfFp)
    case Point(p) => PointBytes(c, raw, p)
    case Points(ps) => LengthPrefix(|ps|) + Concat(c, raw, ps)
    case Other => []
  }

  /** The result of one Encode: the bytes the writer received, the amount
      added to the byte counter, and the error returned. */
  datatype Written = Written(bytes: seq<bv8>, counted: nat, err: Option<Error>)

  /** Encoder.Encode on a writer that accepts `room` more bytes. */
  function EncodeSpec<P>(c: PointCodec<P>, raw: bool, v: Value<P>, room: nat): (w: Written)
  {
    var full := Intended(c, raw, v);
    var k := Min(|full|, room);
    var err := if k < |full| then Some(Stream(ShortWrite)) else None;
    match v
    case Other => Written([], 0, Some(UnsupportedType))
    case U64(_) => Written(full[..k], 8, err)
    case Points(_) => Written(full[..k], if room < 4 then 0 else k, err)
    case _ => Written(full[..k], k, err)
  }

  /** Encoding a slice in two stages, as the encoder does: the length prefix
      (nothing counted when it is cut short), then the elements. */
  function SliceWritten<P>(c: PointCodec<P>, raw: bool, ps: seq<P>, room: nat): (w: Written)
  {
    var prefix := LengthPrefix(|ps|);
    if room < 4 then Written(prefix[..room], 0, Some(Stream(ShortWrite)))
    else
      var all := Concat(c, raw, ps);
      var k := Min(|all|, room - 4);
      Written(prefix + all[..k], 4 + k, if k < |all| then Some(Stream(ShortWrite)) else None)
  }

  /** The two-stage slice encoding is what Encode promises for a slice. */
  lemma SliceEncoding<P>(c: PointCodec<P>, raw: bool, ps: seq<P>, room: nat)
    ensures EncodeSpec(c, raw, Points(ps), room) == SliceWritten(c, raw, ps, room)
  {
    var prefix, all := LengthPrefix(|ps|), Concat(c, raw, ps);
    if room < 4 {
      assert (prefix + all)[..room] == prefix[..room];
    } else {
      var k := Min(|all|, room - 4);
      assert (prefix + all)[..4 + k] == prefix + all[..k];
    }
  }

  // ---------------------------------------------------------------------
  // Laws of the point operations
  // ---------------------------------------------------------------------

  /** Bytes() is the compressed size and carries a compressed tag; RawBytes()
      is the uncompressed size and carries an uncompressed tag. */
  ghost predicate Tagged<P(!new)>(c: PointCodec<P>)
  {
    && (forall p: P :: |c.bytes(p)| == CompressedSize(c.group) && IsCompressed(c.bytes(p)[0]))
    && (forall p: P :: |c.rawBytes(p)| == UncompressedSize(c.group) && !IsCompressed(c.rawBytes(p)[0]))
  }

  /** SetBytes inverts both encodings of a point of the group. */
  ghost predicate Parses<P(!new)>(c: PointCodec<P>)
  {
    && (forall p: P :: c.valid(p) ==> c.setBytes(c.bytes(p)) == Some(p))
    && (forall p: P :: c.valid(p) ==> c.setBytes(c.rawBytes(p)) == Some(p))
  }

  /** The two halves of decompression recover a compressed point: infinity
      directly, any other point once its Y has been computed. */
  ghost predicate Recovers<P(!new)>(c: PointCodec<P>)
  {
    forall p: P | c.valid(p) ::
      var cp := c.setCompressedBytes(c.bytes(p));
      if cp.isInfinity then cp.point == p else c.computeY(cp.point) == Recovery(p, true)
  }

  /** Every element of the slice is a point of the group. */
  ghost predicate AllValid<P>(c: PointCodec<P>, ps: seq<P>)
  {
    forall i :: 0 <= i < |ps| ==> c.valid(ps[i])
  }

  // ---------------------------------------------------------------------
  // Properties of the format
  // ---------------------------------------------------------------------

  /** The size of one slice element in the given mode. */
  function ElementSize(g: Group, raw: bool): nat
  {
    if raw then UncompressedSize(g) else CompressedSize(g)
  }

  /** A single point takes exactly its compressed size when its first byte
      says compressed and its uncompressed size otherwise; a stream too short
      for that is read to its end and the read error is returned. */
  lemma PointReadSize<P>(c: PointCodec<P>, input: seq<bv8>)
    ensures var o := DecodeSpec(c, ToPoint, input);
      && (CompressedSize(c.group) <= |input| && IsCompressed(input[0]) ==>
            o.consumed == CompressedSize(c.group) && o.err != Some(Stream(UnexpectedEOF)))
      && (UncompressedSize(c.group) <= |input| && !IsCompressed(input[0]) ==>
            o.consumed == UncompressedSize(c.group) && o.err != Some(Stream(UnexpectedEOF)))
      && (|input| < Needed(c.group, input) ==> o.consumed == |input| && o.err.value.Stream?)
  {
  }

  /** The element that fails ends the first loop: nothing after it is read
      and nothing after it is stored. */
  lemma ScanStopsAtError<P>(c: PointCodec<P>, s: Scan<P>, input: seq<bv8>, i: nat)
    requires s.err.None? && i < |s.points| == |s.pending| && s.consumed <= |input|
    requires ScanStep(c, s, i, input).err.Some?
    ensures ScanFrom(c, s, input, i) == ScanStep(c, s, i, input)
  {
  }

  /** Element i of the slice after the second loop: recovered if pending,
      untouched otherwise. No pending element is skipped. */
  lemma {:induction false} AttemptedAt<P>(c: PointCodec<P>, points: seq<P>, pending: seq<bool>, i: nat)
    requires |points| == |pending| && i < |points|
    ensures Attempted(c, points, pending)[i] == if pending[i] then c.computeY(points[i]).point else points[i]
    decreases |points|
  {
    var k := |points| - 1;
    if i < k {
      AttemptedAt(c, points[..k], pending[..k], i);
    }
  }

  /** Y recovery of one more element extends the recovered prefix by it. */
  lemma RecoverStep<P>(c: PointCodec<P>, points: seq<P>, pending: seq<bool>, j: nat)
    requires |points| == |pending| && j < |points|
    ensures var y := c.computeY(points[j]);
      && Attempted(c, points[..j + 1], pending[..j + 1])
         == Attempted(c, points[..j], pending[..j]) + [if pending[j] then y.point else points[j]]
      && FailureCount(c, points[..j + 1], pending[..j + 1])
         == FailureCount(c, points[..j], pending[..j]) + if pending[j] && !y.ok then 1 else 0
  {
    assert points[..j + 1][..j] == points[..j] && pending[..j + 1][..j] == pending[..j];
  }

  /** The decoded slice has exactly as many elements as the length prefix says,
      whether or not the elements could all be read. */
  lemma SliceLength<P>(c: PointCodec<P>, current: seq<P>, input: seq<bv8>)
    requires 4 <= |input|
    ensures DecodePoints(c, current, input).stored.Some?
    ensures |DecodePoints(c, current, input).stored.value.ps| == FromBytes(input[..4])
  {
  }

  /** The batch decode fails with "point decompression failed" exactly when
      every element was read and at least one pending element has no Y. */
  lemma DecompressionFailureIff<P>(c: PointCodec<P>, current: seq<P>, input: seq<bv8>)
    requires 4 <= |input|
    ensures var len := FromBytes(input[..4]);
      var s := ScanFrom(c, InitialScan(InitialPoints(c, current, len)), input[4..], 0);
      DecodePoints(c, current, input).err == Some(DecompressionFailed) <==>
        s.err.None? && exists i :: 0 <= i < len && s.pending[i] && !c.computeY(s.points[i]).ok
  {
    var len := FromBytes(input[..4]);
    var s := ScanFrom(c, InitialScan(InitialPoints(c, current, len)), input[4..], 0);
    assert ReadFull(input, 4).data == input[..4];
    var o := DecodePoints(c, current, input);
    if s.err.None? {
      NoFailureIff(c, s.points, s.pending);
      var k := FailureCount(c, s.points, s.pending);
      assert o.err == if k != 0 then Some(DecompressionFailed) else None;
    } else {
      assert o.err == s.err;
    }
  }

  /** Splitting a slice splits its encoding: the elements are written in
      index order. */
  lemma {:induction false} ConcatAppend<P>(c: PointCodec<P>, raw: bool, a: seq<P>, b: seq<P>)
    ensures Concat(c, raw, a + b) == Concat(c, raw, a) + Concat(c, raw, b)
    decreases |b|
  {
    if b != [] {
      var k := |b| - 1;
      ConcatAppend(c, raw, a, b[..k]);
      assert (a + b)[..|a + b| - 1] == a + b[..k];
      assert (a + b)[|a + b| - 1] == b[k];
    } else {
      assert a + b == a;
    }
  }

  /** The encoding of a slice of well-formed points is one element size per point. */
  lemma {:induction false} ConcatSize<P(!new)>(c: PointCodec<P>, raw: bool, ps: seq<P>)
    requires Tagged(c)
    ensures |Concat(c, raw, ps)| == |ps| * ElementSize(c.group, raw)
    decreases |ps|
  {
    if ps != [] {
      ConcatSize(c, raw, ps[..|ps| - 1]);
      var p := ps[|ps| - 1];
      assert |PointBytes(c, raw, p)| == ElementSize(c.group, raw);
    }
  }

  /** The encoding of a slice is its elements' encodings around element i. */
  lemma ConcatSplit<P>(c: PointCodec<P>, raw: bool, ps: seq<P>, i: nat)
    requires i < |ps|
    ensures Concat(c, raw, ps) == Concat(c, raw, ps[..i]) + PointBytes(c, raw, ps[i]) + Concat(c, raw, ps[i + 1..])
  {
    ConcatAppend(c, raw, ps[..i], ps[i..]);
    assert ps[..i] + ps[i..] == ps;
    ConcatAppend(c, raw, [ps[i]], ps[i + 1..]);
    assert [ps[i]] + ps[i + 1..] == ps[i..];
    assert Concat(c, raw, [ps[i]]) == PointBytes(c, raw, ps[i]) by {
      assert [ps[i]][..0] == [];
    }
  }

  /** Element i of an encoded slice sits at offset i times the element size. */
  lemma ConcatElement<P(!new)>(c: PointCodec<P>, raw: bool, ps: seq<P>, i: nat)
    requires Tagged(c) && i < |ps|
    ensures var k := ElementSize(c.group, raw);
      i * k + k <= |Concat(c, raw, ps)| && Concat(c, raw, ps)[i * k..i * k + k] == PointBytes(c, raw, ps[i])
  {
    var k := ElementSize(c.group, raw);
    ConcatSplit(c, raw, ps, i);
    ConcatSize(c, raw, ps[..i]);
    assert |PointBytes(c, raw, ps[i])| == k;
  }

  /** The encoded size of every value the codec supports. */
  lemma EncodedSize<P(!new)>(c: PointCodec<P>, raw: bool, v: Value<P>)
    requires Tagged(c)
    ensures v.U64? ==> |Intended(c, raw, v)| == 8
    ensures v.FrElement? ==> |Intended(c, raw, v)| == SizeOfFr
    ensures v.FpElement? ==> |Intended(c, raw, v)| == SizeOfFp
    ensures v.Point? ==> |Intended(c, raw, v)| == ElementSize(c.group, raw)
    ensures v.Points? ==> |Intended(c, raw, v)| == 4 + |v.ps| * ElementSize(c.group, raw)
    ensures v.Other? ==> |Intended(c, raw, v)| == 0
  {
    if v.Points? {
      ConcatSize(c, raw, v.ps);
    }
  }

  /** What the writer receives is always a prefix of the intended encoding,
      cut where the writer stopped accepting; an error is returned exactly
      when the encoding did not fit. On success the counter grows by the
      encoding's length. */
  lemma EncodeWritesPrefix<P>(c: PointCodec<P>, raw: bool, v: Value<P>, room: nat)
    requires !v.Other?
    ensures var w := EncodeSpec(c, raw, v, room);
      var full := Intended(c, raw, v);
      && w.bytes == full[..Min(|full|, room)]
      && (w.err.None? <==> |full| <= room)
      && (w.err.None? ==> w.bytes == full && w.counted == |full|)
      && (w.err.Some? ==> w.err == Some(Stream(ShortWrite)))
  {
  }

  /** The counter tracks the bytes the writer received, with two exceptions
      taken from the code: a uint64 always adds 8, and a slice whose length
      prefix was not fully written adds nothing. */
  lemma EncodeCounter<P>(c: PointCodec<P>, raw: bool, v: Value<P>, room: nat)
    ensures var w := EncodeSpec(c, raw, v, room);
      && (v.U64? ==> w.counted == 8 && |w.bytes| == Min(8, room))
      && (v.Points? && room < 4 ==> w.counted == 0 && |w.bytes| == room && w.err.Some?)
      && (v.Other? ==> w.counted == 0 && w.bytes == [] && w.err == Some(UnsupportedType))
      && (!v.U64? && !v.Other? && !(v.Points? && room < 4) ==> w.counted == |w.bytes|)
  {
  }

  /** A successful slice encoding adds the 4-byte length and one element size
      per point. */
  lemma EncodedSliceCount<P(!new)>(c: PointCodec<P>, raw: bool, ps: seq<P>, room: nat)
    requires Tagged(c)
    requires EncodeSpec(c, raw, Points(ps), room).err.None?
    ensures EncodeSpec(c, raw, Points(ps), room).counted == 4 + |ps| * ElementSize(c.group, raw)
  {
    EncodedSize(c, raw, Points(ps));
  }

  /** Raw mode changes the encoding of points only: uint64 and field elements
      are written the same way in both modes; points use RawBytes iff raw. */
  lemma ModesAgreeOnScalars<P>(c: PointCodec<P>, v: Value<P>, room: nat)
    ensures v.U64? || v.FrElement? || v.FpElement? || v.Other? ==>
      EncodeSpec(c, true, v, room) == EncodeSpec(c, false, v, room)
    ensures v.Point? ==> Intended(c, true, v) == c.rawBytes(v.p) && Intended(c, false, v) == c.bytes(v.p)
  {
  }

  /** Decoding the 8 bytes written for a uint64 gives it back. */
  lemma Uint64RoundTrip<P>(c: PointCodec<P>, raw: bool, u: Uint64, rest: seq<bv8>)
    ensures DecodeSpec(c, ToUint64, Intended(c, raw, U64(u)) + rest) == Outcome(Some(U64(u)), 8, None)
  {
    Pow256Widths();
    FromToBytes(u, 8);
    assert (ToBytes(u, 8) + rest)[..8] == ToBytes(u, 8);
  }

  /** A value below the modulus is its own remainder. */
  lemma SmallRemainder(x: nat, m: nat)
    requires x < m
    ensures x % m == x
  {
  }

  /** Decoding the 32 bytes written for a scalar field element gives it back. */
  lemma FrRoundTrip<P>(c: PointCodec<P>, raw: bool, x: Fr, rest: seq<bv8>)
    ensures DecodeSpec(c, ToFr, Intended(c, raw, FrElement(x)) + rest) == Outcome(Some(FrElement(x)), SizeOfFr, None)
  {
    var b := ToBytes(x, SizeOfFr);
    FieldWidths();
    assert x < Pow256(SizeOfFr);
    FromToBytes(x, SizeOfFr);
    assert (b + rest)[..SizeOfFr] == b;
    SmallRemainder(x, Bls381.R);
    assert FromBytes(b) % Bls381.R == x;
  }

  /** Decoding the 48 bytes written for a base field element gives it back. */
  lemma FpRoundTrip<P>(c: PointCodec<P>, raw: bool, x: Fp, rest: seq<bv8>)
    ensures DecodeSpec(c, ToFp, Intended(c, raw, FpElement(x)) + rest) == Outcome(Some(FpElement(x)), SizeOfFp, None)
  {
    var b := ToBytes(x, SizeOfFp);
    FieldWidths();
    assert x < Pow256(SizeOfFp);
    FromToBytes(x, SizeOfFp);
    assert (b + rest)[..SizeOfFp] == b;
    SmallRemainder(x, Bls381.P);
    assert FromBytes(b) % Bls381.P == x;
  }

  /** A point's encoding, in either mode, is read back whole by the two-step read. */
  lemma ReadEncodedPoint<P(!new)>(c: PointCodec<P>, raw: bool, p: P, rest: seq<bv8>)
    requires Tagged(c)
    ensures ReadPointBytes(c.group, PointBytes(c, raw, p) + rest) == ReadResult(PointBytes(c, raw, p), None)
  {
    var b := PointBytes(c, raw, p);
    assert |b| == ElementSize(c.group, raw) && (b + rest)[0] == b[0];
    assert (b + rest)[..|b|] == b;
  }

  /** Decoding a point written in either mode gives it back. */
  lemma PointRoundTrip<P(!new)>(c: PointCodec<P>, raw: bool, p: P, rest: seq<bv8>)
    requires Tagged(c) && Parses(c) && c.valid(p)
    ensures DecodeSpec(c, ToPoint, Intended(c, raw, Point(p)) + rest) == Outcome(Some(Point(p)), |Intended(c, raw, Point(p))|, None)
  {
    ReadEncodedPoint(c, raw, p, rest);
  }

  /** What the first loop stores for the encoding of p, and whether it marks
      it for Y recovery: only a compressed point other than infinity is. */
  function StoredAfterScan<P>(c: PointCodec<P>, raw: bool, p: P): P
  {
    if raw then p else c.setCompressedBytes(c.bytes(p)).point
  }

  function PendingAfterScan<P>(c: PointCodec<P>, raw: bool, p: P): bool
  {
    !raw && !c.setCompressedBytes(c.bytes(p)).isInfinity
  }

  /** The first i elements of the encoding of ps have been read into s. */
  ghost predicate ScannedUpTo<P>(c: PointCodec<P>, raw: bool, ps: seq<P>, s: Scan<P>, i: nat)
    requires i <= |ps|
  {
    && |s.points| == |ps| && |s.pending| == |ps|
    && s.err.None? && s.consumed == |Concat(c, raw, ps[..i])|
    && (forall j :: 0 <= j < i ==> s.points[j] == StoredAfterScan(c, raw, ps[j]))
    && (forall j :: 0 <= j < i ==> s.pending[j] == PendingAfterScan(c, raw, ps[j]))
    && (forall j :: i <= j < |ps| ==> !s.pending[j])
  }

  /** Extending a slice by one element extends its encoding by that element's. */
  lemma ConcatStep<P>(c: PointCodec<P>, raw: bool, ps: seq<P>, i: nat)
    requires i < |ps|
    ensures Concat(c, raw, ps[..i + 1]) == Concat(c, raw, ps[..i]) + PointBytes(c, raw, ps[i])
  {
    var q := ps[..i + 1];
    assert q[..|q| - 1] == ps[..i] && q[|q| - 1] == ps[i];
  }

  /** Where element i of an encoded slice starts, and what follows it. */
  lemma EncodedSuffix<P>(c: PointCodec<P>, raw: bool, ps: seq<P>, rest: seq<bv8>, i: nat)
    requires i < |ps|
    ensures |Concat(c, raw, ps[..i])| <= |Concat(c, raw, ps) + rest|
    ensures (Concat(c, raw, ps) + rest)[|Concat(c, raw, ps[..i])|..]
         == PointBytes(c, raw, ps[i]) + (Concat(c, raw, ps[i + 1..]) + rest)
  {
    var a, b, t := Concat(c, raw, ps[..i]), PointBytes(c, raw, ps[i]), Concat(c, raw, ps[i + 1..]);
    ConcatSplit(c, raw, ps, i);
    Regroup(a, b, t, rest);
  }

  /** The two halves of a + b. */
  lemma SplitAt(a: seq<bv8>, b: seq<bv8>)
    ensures (a + b)[..|a|] == a && (a + b)[|a|..] == b
  {
  }

  /** (a + b + t + rest) without its first |a| bytes. */
  lemma Regroup(a: seq<bv8>, b: seq<bv8>, t: seq<bv8>, rest: seq<bv8>)
    ensures |a| <= |a + b + t + rest| && (a + b + t + rest)[|a|..] == b + (t + rest)
  {
    assert a + b + t + rest == a + (b + (t + rest));
  }

  /** One iteration of the first loop on element i of an encoded slice. */
  lemma ScanStepEncoded<P(!new)>(c: PointCodec<P>, raw: bool, ps: seq<P>, s: Scan<P>, rest: seq<bv8>, i: nat)
    requires Tagged(c) && Parses(c)
    requires i < |ps| && c.valid(ps[i]) && ScannedUpTo(c, raw, ps, s, i)
    requires s.consumed <= |Concat(c, raw, ps) + rest|
    ensures ScannedUpTo(c, raw, ps, ScanStep(c, s, i, Concat(c, raw, ps) + rest), i + 1)
  {
    var input := Concat(c, raw, ps) + rest;
    var b := PointBytes(c, raw, ps[i]);
    EncodedSuffix(c, raw, ps, rest, i);
    ConcatStep(c, raw, ps, i);
    ReadEncodedPoint(c, raw, ps[i], Concat(c, raw, ps[i + 1..]) + rest);
    assert ReadPointBytes(c.group, input[s.consumed..]) == ReadResult(b, None);
    var next := ScanStep(c, s, i, input);
    if raw {
      assert !IsCompressed(b[0]) && c.setBytes(b) == Some(ps[i]);
      assert next == s.(points := s.points[i := ps[i]], consumed := s.consumed + |b|);
    } else {
      assert IsCompressed(b[0]);
      var cp := c.setCompressedBytes(b);
      assert next == s.(points := s.points[i := cp.point], pending := s.pending[i := !cp.isInfinity], consumed := s.consumed + |b|);
    }
  }

  /** The first loop reads an encoded slice element by element, without error. */
  lemma {:induction false} ScanEncoded<P(!new)>(c: PointCodec<P>, raw: bool, ps: seq<P>, s: Scan<P>, rest: seq<bv8>, i: nat)
    requires Tagged(c) && Parses(c) && AllValid(c, ps)
    requires i <= |ps| && ScannedUpTo(c, raw, ps, s, i)
    requires s.consumed <= |Concat(c, raw, ps) + rest|
    ensures ScannedUpTo(c, raw, ps, ScanFrom(c, s, Concat(c, raw, ps) + rest, i), |ps|)
    decreases |ps| - i
  {
    if i < |ps| {
      var input := Concat(c, raw, ps) + rest;
      ScanStepEncoded(c, raw, ps, s, rest, i);
      var next := ScanStep(c, s, i, input);
      assert ScanFrom(c, s, input, i) == ScanFrom(c, next, input, i + 1);
      ScanEncoded(c, raw, ps, next, rest, i + 1);
    }
  }

  /** After the first loop has read an encoded slice, Y recovery gives back
      the original points and never fails. */
  lemma RecoverScanned<P(!new)>(c: PointCodec<P>, raw: bool, ps: seq<P>, s: Scan<P>)
    requires Recovers(c) && AllValid(c, ps) && ScannedUpTo(c, raw, ps, s, |ps|)
    ensures Attempted(c, s.points, s.pending) == ps
    ensures FailureCount(c, s.points, s.pending) == 0
  {
    forall j | 0 <= j < |ps|
      ensures Attempted(c, s.points, s.pending)[j] == ps[j]
      ensures s.pending[j] ==> c.computeY(s.points[j]).ok
    {
      AttemptedAt(c, s.points, s.pending, j);
      var cp := c.setCompressedBytes(c.bytes(ps[j]));
    }
    NoFailureIff(c, s.points, s.pending);
  }

  /** The length prefix of an encoded slice reads back as the slice length. */
  lemma SliceHeader<P>(c: PointCodec<P>, raw: bool, ps: seq<P>, rest: seq<bv8>)
    requires |ps| < TwoTo32
    ensures var input := Intended(c, raw, Points(ps)) + rest;
      var r := ReadFull(input, 4);
      && r.err.None? && FromBytes(r.data) == |ps| && 4 <= |input|
      && input[4..] == Concat(c, raw, ps) + rest
      && |Intended(c, raw, Points(ps))| == 4 + |Concat(c, raw, ps)|
  {
    var body := Concat(c, raw, ps) + rest;
    SmallRemainder(|ps|, TwoTo32);
    var prefix := ToBytes(|ps|, 4);
    var input := Intended(c, raw, Points(ps)) + rest;
    assert input == prefix + body;
    SplitAt(prefix, body);
    Pow256Widths();
    FromToBytes(|ps|, 4);
  }

  /** The first loop over the body of an encoded slice, then Y recovery, give
      back the slice without error. */
  lemma ScanWhole<P(!new)>(c: PointCodec<P>, raw: bool, ps: seq<P>, current: seq<P>, rest: seq<bv8>)
    requires Tagged(c) && Parses(c) && Recovers(c) && AllValid(c, ps)
    ensures var s := ScanFrom(c, InitialScan(InitialPoints(c, current, |ps|)), Concat(c, raw, ps) + rest, 0);
      && s.err.None? && s.consumed == |Concat(c, raw, ps)|
      && Attempted(c, s.points, s.pending) == ps && FailureCount(c, s.points, s.pending) == 0
  {
    var init := InitialScan(InitialPoints(c, current, |ps|));
    assert ScannedUpTo(c, raw, ps, init, 0) by {
      assert ps[..0] == [];
    }
    ScanEncoded(c, raw, ps, init, rest, 0);
    var s := ScanFrom(c, init, Concat(c, raw, ps) + rest, 0);
    assert ps[..|ps|] == ps;
    RecoverScanned(c, raw, ps, s);
  }

  /** Decoding a slice written in either mode gives it back, whatever slice
      the target held before. */
  lemma SliceRoundTrip<P(!new)>(c: PointCodec<P>, raw: bool, ps: seq<P>, current: seq<P>, rest: seq<bv8>)
    requires Tagged(c) && Parses(c) && Recovers(c) && AllValid(c, ps)
    requires |ps| < TwoTo32
    ensures DecodeSpec(c, ToPoints(current), Intended(c, raw, Points(ps)) + rest)
         == Outcome(Some(Points(ps)), |Intended(c, raw, Points(ps))|, None)
  {
    SliceHeader(c, raw, ps, rest);
    ScanWhole(c, raw, ps, current, rest);
  }
}
