/**
 * The Encoder and Decoder of bls381 objects: objects that hold a stream and a
 * running byte counter `n`, proved to behave as the wire-format functions of
 * module Marshal say.
 */
module Codec {

  import opened Options
  import opened Io
  import opened BigEndian
  import opened Metadata
  import opened Marshal
  import Bls381

  /** An io.Reader over a finite byte stream. */
  class Reader {
    const data: seq<bv8>
    var pos: nat

    ghost predicate Valid()
      reads this
    {
      pos <= |data|
    }

    /** The bytes not read yet. */
    ghost function Remaining(): seq<bv8>
      reads this
      requires Valid()
    {
      data[pos..]
    }

    constructor (data: seq<bv8>)
      ensures Valid() && this.data == data && pos == 0
    {
      this.data := data;
      pos := 0;
    }

    /** io.ReadFull(r, buf[lo:hi]): copies what the stream still holds, up to
        hi - lo bytes, into buf from index lo on, and touches nothing else. */
    method ReadFull(buf: array<bv8>, lo: nat, hi: nat) returns (read: nat, err: Option<IoError>)
      requires Valid() && lo <= hi <= buf.Length
      modifies this, buf
      ensures Valid()
      ensures var r := Io.ReadFull(old(Remaining()), hi - lo);
        read == |r.data| && err == r.err && pos == old(pos) + read && buf[lo..lo + read] == r.data
      ensures buf[..lo] == old(buf[..lo]) && buf[lo + read..] == old(buf[lo + read..])
    {
      var start := pos;
      var k := Min(hi - lo, |data| - start);
      var i := 0;
      while i < k
        invariant 0 <= i <= k
        invariant forall j :: lo <= j < lo + i ==> buf[j] == data[start + (j - lo)]
        invariant forall j :: 0 <= j < buf.Length && !(lo <= j < lo + i) ==> buf[j] == old(buf[j])
      {
        buf[lo + i] := data[start + i];
        i := i + 1;
      }
      assert buf[lo..lo + k] == data[start..start + k] == Io.ReadFull(data[start..], hi - lo).data;
      assert buf[..lo] == old(buf[..lo]) && buf[lo + k..] == old(buf[lo + k..]);
      read := k;
      pos := start + k;
      err := if k == hi - lo then None else if k == 0 then Some(EOF) else Some(UnexpectedEOF);
    }
  }

  /** An io.Writer that accepts `room` more bytes and then fails. */
  class Writer {
    var written: seq<bv8>
    var room: nat

    constructor (room: nat)
      ensures written == [] && this.room == room
    {
      written := [];
      this.room := room;
    }

    /** Write(p): takes as much of p as there is room for; an error exactly
        when that is less than all of p. */
    method Write(p: seq<bv8>) returns (k: nat, err: Option<IoError>)
      modifies this
      ensures k == Accepted(p, old(room))
      ensures written == old(written) + p[..k] && room == old(room) - k
      ensures err.None? <==> k == |p|
      ensures err.Some? ==> err == Some(ShortWrite)
    {
      k := Min(|p|, room);
      written := written + p[..k];
      room := room - k;
      err := if k == |p| then None else Some(ShortWrite);
    }
  }

  /** Decoder: reads bls381 objects from r and counts the bytes it reads. */
  class Decoder<P> {
    const r: Reader
    const codec: PointCodec<P>
    var n: int
    /** The reader's position when the decoder was made. */
    ghost const start: nat

    /** n is the number of bytes taken from the reader since then. */
    ghost predicate Valid()
      reads this, r
    {
      r.Valid() && start <= r.pos && n == r.pos - start
    }

    /** NewDecoder. */
    constructor (r: Reader, codec: PointCodec<P>)
      requires r.Valid()
      ensures Valid() && this.r == r && this.codec == codec && n == 0 && start == r.pos
    {
      this.r := r;
      this.codec := codec;
      n := 0;
      start := r.pos;
    }

    /** BytesRead: the number of bytes this decoder has taken from the stream. */
    method BytesRead() returns (k: int)
      requires Valid()
      ensures k == n && k == r.pos - start && 0 <= k
    {
      k := n;
    }

    /** readUint64: 8 big-endian bytes; the bytes read count even on error. */
    method ReadUint64() returns (v: Uint64, err: Option<IoError>)
      requires Valid()
      modifies this, r
      ensures Valid()
      ensures var rr := Io.ReadFull(old(r.Remaining()), 8);
        r.pos == old(r.pos) + |rr.data| && err == rr.err && (err.None? ==> v == FromBytes(rr.data))
    {
      var buf := new bv8[8];
      var read;
      read, err := r.ReadFull(buf, 0, 8);
      n := n + read;
      if err.Some? {
        return 0, err;
      }
      Pow256Widths();
      v := FromBytes(buf[..8]);
    }

    /** readUint32: 4 big-endian bytes; the bytes read count even on error. */
    method ReadUint32() returns (v: nat, err: Option<IoError>)
      requires Valid()
      modifies this, r
      ensures Valid()
      ensures var rr := Io.ReadFull(old(r.Remaining()), 4);
        r.pos == old(r.pos) + |rr.data| && err == rr.err && (err.None? ==> v == FromBytes(rr.data))
      ensures v < TwoTo32
    {
      var buf := new bv8[4];
      var read;
      read, err := r.ReadFull(buf, 0, 4);
      n := n + read;
      if err.Some? {
        return 0, err;
      }
      Pow256Widths();
      v := FromBytes(buf[..4]);
    }

    /** The reads of one point into buf: the compressed size first, then the
        rest of the uncompressed size into buf[compressed:uncompressed] only
        when buf[0] says uncompressed. */
    method ReadPoint(buf: array<bv8>) returns (nbBytes: nat, err: Option<IoError>)
      requires Valid() && UncompressedSize(codec.group) <= buf.Length
      modifies this, r, buf
      ensures Valid()
      ensures var rr := ReadPointBytes(codec.group, old(r.Remaining()));
        && r.pos == old(r.pos) + |rr.data| && err == rr.err
        && (err.None? ==> nbBytes == |rr.data| && buf[..nbBytes] == rr.data)
      ensures err.None? && IsCompressed(buf[0]) ==>
        buf[CompressedSize(codec.group)..] == old(buf[CompressedSize(codec.group)..])
    {
      ghost var input := r.Remaining();
      var cs, us := CompressedSize(codec.group), UncompressedSize(codec.group);
      var read;
      read, err := r.ReadFull(buf, 0, cs);
      n := n + read;
      if err.Some? {
        return read, err;
      }
      nbBytes := cs;
      if !IsCompressed(buf[0]) {
        nbBytes := us;
        ghost var head := buf[..cs];
        read, err := r.ReadFull(buf, cs, us);
        n := n + read;
        if err.Some? {
          return;
        }
        assert buf[..us] == head + buf[cs..us];
      }
    }

    /** Decode: reads the encoding of the value t points to and stores it there. */
    method Decode(t: Target<P>) returns (stored: Option<Value<P>>, err: Option<Error>)
      requires Valid()
      modifies this, r
      ensures Valid()
      ensures var o := DecodeSpec(codec, t, old(r.Remaining()));
        stored == o.stored && err == o.err && r.pos == old(r.pos) + o.consumed
    {
      if t.NotPointer? || t.NilPointer? {
        return None, Some(NeedPointer);
      }
      var buf := new bv8[SizeOfG2AffineUncompressed];
      var read: nat;
      var ioErr: Option<IoError>;
      match t {
        case ToUint64 =>
          var v;
          v, ioErr := ReadUint64();
          if ioErr.Some? {
            return None, Some(Stream(ioErr.value));
          }
          stored, err := Some(U64(v)), None;
        case ToFr =>
          read, ioErr := r.ReadFull(buf, 0, SizeOfFr);
          n := n + read;
          if ioErr.Some? {
            return None, Some(Stream(ioErr.value));
          }
          stored, err := Some(FrElement(FromBytes(buf[..SizeOfFr]) % Bls381.R)), None;
        case ToFp =>
          read, ioErr := r.ReadFull(buf, 0, SizeOfFp);
          n := n + read;
          if ioErr.Some? {
            return None, Some(Stream(ioErr.value));
          }
          stored, err := Some(FpElement(FromBytes(buf[..SizeOfFp]) % Bls381.P)), None;
        case ToPoint =>
          var nbBytes;
          nbBytes, ioErr := ReadPoint(buf);
          if ioErr.Some? {
            return None, Some(Stream(ioErr.value));
          }
          var p := codec.setBytes(buf[..nbBytes]);
          if p.None? {
            return None, Some(InvalidPoint);
          }
          stored, err := Some(Point(p.value)), None;
        case ToPoints(current) =>
          stored, err := DecodeSlice(current, buf);
        case ToOther =>
          return None, Some(UnsupportedType);
        case NotPointer =>
          return None, Some(NeedPointer);
        case NilPointer =>
          return None, Some(NeedPointer);
      }
    }

    /** Decode into a slice of points: the length, the elements one by one
        (the compressed ones with their X only), then Y recovery of every
        pending element, counting the failures. */
    method DecodeSlice(current: seq<P>, buf: array<bv8>) returns (stored: Option<Value<P>>, err: Option<Error>)
      requires Valid() && UncompressedSize(codec.group) <= buf.Length
      modifies this, r, buf
      ensures Valid()
      ensures var o := DecodePoints(codec, current, old(r.Remaining()));
        stored == o.stored && err == o.err && r.pos == old(r.pos) + o.consumed
    {
      ghost var input := r.Remaining();
      var sliceLen, ioErr := ReadUint32();
      if ioErr.Some? {
        return None, Some(Stream(ioErr.value));
      }
      assert 4 <= |input| && sliceLen == FromBytes(input[..4]) && r.Remaining() == input[4..];
      var points: array<P>;
      if |current| == sliceLen {
        points := new P[sliceLen](i requires 0 <= i < sliceLen => current[i]);
      } else {
        points := new P[sliceLen](_ => codec.zero);
      }
      var compressed := new bool[sliceLen](_ => false);
      assert points[..] == InitialPoints(codec, current, sliceLen);
      assert compressed[..] == seq(sliceLen, _ => false);
      err := ReadElements(points, compressed, buf);
      if err.Some? {
        return Some(Points(points[..])), err;
      }
      var nbErrs := RecoverPending(points, compressed);
      stored := Some(Points(points[..]));
      err := if nbErrs != 0 then Some(DecompressionFailed) else None;
    }

    /** The first loop of a slice decode: element by element, a point read
        in full or, when compressed, its X only, marked pending; stops at the
        first read error or invalid point. */
    method ReadElements(points: array<P>, compressed: array<bool>, buf: array<bv8>) returns (err: Option<Error>)
      requires Valid() && UncompressedSize(codec.group) <= buf.Length
      requires points.Length == compressed.Length
      requires points as object != buf && points as object != compressed && compressed as object != buf
      modifies this, r, buf, points, compressed
      ensures Valid()
      ensures var s := ScanFrom(codec, Scan(old(points[..]), old(compressed[..]), 0, None), old(r.Remaining()), 0);
        && points[..] == s.points && compressed[..] == s.pending
        && r.pos == old(r.pos) + s.consumed && err == s.err
    {
      ghost var body := r.Remaining();
      ghost var final := ScanFrom(codec, Scan(points[..], compressed[..], 0, None), body, 0);
      ghost var consumed: nat := 0;
      var i := 0;
      while i < points.Length
        invariant 0 <= i <= points.Length == compressed.Length
        invariant Valid()
        invariant consumed <= |body| && r.pos == old(r.pos) + consumed
        invariant r.Remaining() == body[consumed..]
        invariant ScanFrom(codec, Scan(points[..], compressed[..], consumed, None), body, i) == final
      {
        ghost var s := Scan(points[..], compressed[..], consumed, None);
        var e := ReadElement(points, compressed, buf, i, body, consumed);
        ghost var next := ScanStep(codec, s, i, body);
        consumed := next.consumed;
        if e.Some? {
          ScanStopsAtError(codec, s, body, i);
          return e;
        }
        assert next == Scan(points[..], compressed[..], consumed, None);
        i := i + 1;
      }
      err := None;
    }

    /** One iteration of that loop, on element i, with `consumed` bytes of
        `body` read so far. */
    method ReadElement(points: array<P>, compressed: array<bool>, buf: array<bv8>, i: nat,
                       ghost body: seq<bv8>, ghost consumed: nat) returns (err: Option<Error>)
      requires Valid() && UncompressedSize(codec.group) <= buf.Length
      requires i < points.Length == compressed.Length
      requires points as object != buf && points as object != compressed && compressed as object != buf
      requires consumed <= |body| && r.Remaining() == body[consumed..]
      modifies this, r, buf, points, compressed
      ensures Valid()
      ensures var s := ScanStep(codec, Scan(old(points[..]), old(compressed[..]), consumed, None), i, body);
        && points[..] == s.points && compressed[..] == s.pending
        && r.pos == old(r.pos) + (s.consumed - consumed) && err == s.err
    {
      var nbBytes, e := ReadPoint(buf);
      if e.Some? {
        return Some(Stream(e.value));
      }
      if !IsCompressed(buf[0]) {
        var p := codec.setBytes(buf[..nbBytes]);
        if p.None? {
          return Some(InvalidPoint);
        }
        points[i] := p.value;
      } else {
        var cp := codec.setCompressedBytes(buf[..nbBytes]);
        points[i] := cp.point;
        compressed[i] := !cp.isInfinity;
      }
      err := None;
    }

    /** The second loop of a slice decode: Y recovery of every pending
        element, counting the failures (sequential here). */
    method RecoverPending(points: array<P>, compressed: array<bool>) returns (nbErrs: nat)
      requires points.Length == compressed.Length && points as object != compressed
      modifies points
      ensures points[..] == Attempted(codec, old(points[..]), compressed[..])
      ensures nbErrs == FailureCount(codec, old(points[..]), compressed[..])
    {
      ghost var scanned := points[..];
      ghost var pending := compressed[..];
      nbErrs := 0;
      var j := 0;
      while j < compressed.Length
        invariant 0 <= j <= compressed.Length == points.Length
        invariant compressed[..] == pending
        invariant points[..j] == Attempted(codec, scanned[..j], pending[..j])
        invariant forall k :: j <= k < points.Length ==> points[k] == scanned[k]
        invariant nbErrs == FailureCount(codec, scanned[..j], pending[..j])
      {
        RecoverStep(codec, scanned, pending, j);
        if compressed[j] {
          var rec := codec.computeY(points[j]);
          points[j] := rec.point;
          if !rec.ok {
            nbErrs := nbErrs + 1;
          }
        }
        assert points[..j + 1] == points[..j] + [points[j]];
        j := j + 1;
      }
      assert scanned[..j] == scanned && pending[..j] == pending && points[..] == points[..j];
    }
  }

  /** The options NewEncoder accepts. */
  datatype EncoderOption = RawEncoding

  /** Encoder: writes bls381 objects to w and counts the bytes written. */
  class Encoder<P> {
    const w: Writer
    const codec: PointCodec<P>
    var n: int
    var raw: bool

    /** NewEncoder: compressed points by default; each option is applied in turn. */
    constructor (w: Writer, codec: PointCodec<P>, options: seq<EncoderOption>)
      ensures this.w == w && this.codec == codec && n == 0
      ensures raw <==> RawEncoding in options
    {
      this.w := w;
      this.codec := codec;
      n := 0;
      raw := false;
      new;
      var i := 0;
      while i < |options|
        invariant 0 <= i <= |options|
        invariant n == 0
        invariant raw <==> RawEncoding in options[..i]
      {
        match options[i] {
          case RawEncoding => raw := true;
        }
        assert options[..i + 1] == options[..i] + [options[i]];
        i := i + 1;
      }
      assert options[..i] == options;
    }

    /** BytesWritten: the byte counter. */
    method BytesWritten() returns (k: int)
      ensures k == n
    {
      k := n;
    }

    /** Encode: points as RawBytes in raw mode, as Bytes otherwise. */
    method Encode(v: Value<P>) returns (err: Option<Error>)
      modifies this`n, w
      ensures var e := EncodeSpec(codec, raw, v, old(w.room));
        && w.written == old(w.written) + e.bytes && w.room == old(w.room) - |e.bytes|
        && n == old(n) + e.counted && err == e.err
    {
      if raw {
        err := EncodeAs(v, true);
      } else {
        err := EncodeAs(v, false);
      }
    }

    /** encode (rawMode false) and encodeRaw (rawMode true). */
    method EncodeAs(v: Value<P>, rawMode: bool) returns (err: Option<Error>)
      modifies this`n, w
      ensures var e := EncodeSpec(codec, rawMode, v, old(w.room));
        && w.written == old(w.written) + e.bytes && w.room == old(w.room) - |e.bytes|
        && n == old(n) + e.counted && err == e.err
    {
      var written: nat;
      var e: Option<IoError>;
      match v {
        case U64(u) =>
          written, e := w.Write(ToBytes(u, 8));
          n := n + 8;
          err := if e.Some? then Some(Stream(e.value)) else None;
        case FrElement(x) =>
          written, e := w.Write(ToBytes(x, SizeOfFr));
          n := n + written;
          err := if e.Some? then Some(Stream(e.value)) else None;
        case FpElement(x) =>
          written, e := w.Write(ToBytes(x, SizeOfFp));
          n := n + written;
          err := if e.Some? then Some(Stream(e.value)) else None;
        case Point(p) =>
          var buf := PointBytes(codec, rawMode, p);
          written, e := w.Write(buf);
          n := n + written;
          err := if e.Some? then Some(Stream(e.value)) else None;
        case Points(ps) =>
          err := EncodeSlice(ps, rawMode);
          SliceEncoding(codec, rawMode, ps, old(w.room));
        case Other =>
          err := Some(UnsupportedType);
      }
    }

    /** A slice: the length as a 4-byte uint32, then its elements; a failed
        length write adds nothing to the counter. */
    method EncodeSlice(ps: seq<P>, rawMode: bool) returns (err: Option<Error>)
      modifies this`n, w
      ensures var e := SliceWritten(codec, rawMode, ps, old(w.room));
        && w.written == old(w.written) + e.bytes && w.room == old(w.room) - |e.bytes|
        && n == old(n) + e.counted && err == e.err
    {
      var prefix := LengthPrefix(|ps|);
      var written, e := w.Write(prefix);
      if e.Some? {
        return Some(Stream(e.value));
      }
      n := n + 4;
      err := WriteElements(ps, rawMode);
      ghost var all := Concat(codec, rawMode, ps);
      Associative(old(w.written), prefix, all[..Min(|all|, old(w.room) - 4)]);
    }

    /** The loop over the elements of a slice, in index order, stopping at the
        first short write; each write adds the bytes it wrote. */
    method WriteElements(ps: seq<P>, rawMode: bool) returns (err: Option<Error>)
      modifies this`n, w
      ensures var all := Concat(codec, rawMode, ps);
        var k := Min(|all|, old(w.room));
        && w.written == old(w.written) + all[..k] && w.room == old(w.room) - k
        && n == old(n) + k && err == if k < |all| then Some(Stream(ShortWrite)) else None
    {
      ghost var before := w.written;
      var i := 0;
      while i < |ps|
        invariant 0 <= i <= |ps|
        invariant w.written == before + Concat(codec, rawMode, ps[..i])
        invariant w.room == old(w.room) - |Concat(codec, rawMode, ps[..i])|
        invariant n == old(n) + |Concat(codec, rawMode, ps[..i])|
      {
        var buf := PointBytes(codec, rawMode, ps[i]);
        ConcatStep(codec, rawMode, ps, i);
        ghost var done := Concat(codec, rawMode, ps[..i]);
        var written, e := w.Write(buf);
        n := n + written;
        Associative(before, done, buf[..written]);
        if e.Some? {
          ElementsCutShort(codec, rawMode, ps, i, written);
          assert |done| + written == old(w.room);
          return Some(Stream(e.value));
        }
        assert buf[..written] == buf;
        i := i + 1;
      }
      assert ps[..i] == ps;
      ghost var all := Concat(codec, rawMode, ps);
      assert all[..|all|] == all && |all| <= old(w.room);
      err := None;
    }
  }

  /** The element bytes when the writer stops inside element i, after k of
      its bytes. */
  lemma ElementsCutShort<P>(c: PointCodec<P>, raw: bool, ps: seq<P>, i: nat, k: nat)
    requires i < |ps| && k < |PointBytes(c, raw, ps[i])|
    ensures var cut := |Concat(c, raw, ps[..i])| + k;
      cut < |Concat(c, raw, ps)| &&
      Concat(c, raw, ps)[..cut] == Concat(c, raw, ps[..i]) + PointBytes(c, raw, ps[i])[..k]
  {
    var a, b, t := Concat(c, raw, ps[..i]), PointBytes(c, raw, ps[i]), Concat(c, raw, ps[i + 1..]);
    ConcatSplit(c, raw, ps, i);
    TakeWithin(a, b, t, k);
  }

  lemma Associative(a: seq<bv8>, b: seq<bv8>, c: seq<bv8>)
    ensures a + b + c == a + (b + c)
  {
  }

  /** Cutting a + b + c inside b. */
  lemma TakeWithin(a: seq<bv8>, b: seq<bv8>, c: seq<bv8>, k: nat)
    requires k <= |b|
    ensures (a + b + c)[..|a| + k] == a + b[..k]
  {
    assert (a + b + c)[..|a| + k] == a + (b + c)[..k];
  }
}
