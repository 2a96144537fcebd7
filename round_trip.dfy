/** What a BufferReader recovers from a BufferWriter's output: every value
    written with the matching write method, read back in the same order with
    the same byte order, comes back unchanged, and a read past the last one
    finds nothing. */
module RoundTrip {
  import opened Wrappers
  import opened Bytes
  import opened ZigZag
  import opened BufferWriter
  import opened BufferReader

  /** One argument of a write method, tagged with the method. */
  datatype Value =
    | Bool(b: bool)
    | Uint8(n: int) | Uint16(n: int) | Uint32(n: int) | Uint64(n: int)
    | Sint8(n: int) | Sint16(n: int) | Sint32(n: int) | Sint64(n: int)
    | BigInt(n: int)
    | Float32(bits: nat) | Float64(bits: nat)
    | Str(utf8: seq<byte>)

  /** The read method that answers a write method. */
  datatype Kind =
    | BoolKind
    | Uint8Kind | Uint16Kind | Uint32Kind | Uint64Kind
    | Sint8Kind | Sint16Kind | Sint32Kind | Sint64Kind
    | BigIntKind
    | Float32Kind | Float64Kind
    | StrKind

  function KindOf(v: Value): Kind
  {
    match v
    case Bool(_) => BoolKind
    case Uint8(_) => Uint8Kind
    case Uint16(_) => Uint16Kind
    case Uint32(_) => Uint32Kind
    case Uint64(_) => Uint64Kind
    case Sint8(_) => Sint8Kind
    case Sint16(_) => Sint16Kind
    case Sint32(_) => Sint32Kind
    case Sint64(_) => Sint64Kind
    case BigInt(_) => BigIntKind
    case Float32(_) => Float32Kind
    case Float64(_) => Float64Kind
    case Str(_) => StrKind
  }

  /** Field width of the fixed-width kinds; 0 for the length-prefixed ones. */
  function Width(k: Kind): nat
  {
    match k
    case BoolKind => 1
    case Uint8Kind => 1
    case Sint8Kind => 1
    case Uint16Kind => 2
    case Sint16Kind => 2
    case Uint32Kind => 4
    case Sint32Kind => 4
    case Float32Kind => 4
    case Uint64Kind => 8
    case Sint64Kind => 8
    case Float64Kind => 8
    case BigIntKind => 0
    case StrKind => 0
  }

  /** The values each write method stores without loss: the field's unsigned
      or signed range, a bit pattern of the field's width, a big integer
      whose byte count fits the 4-byte length field, and a string whose UTF-8
      byte count fits it. */
  predicate InRange(v: Value)
  {
    match v
    case Bool(_) => true
    case Uint8(n) => 0 <= n < Pow256(1)
    case Uint16(n) => 0 <= n < Pow256(2)
    case Uint32(n) => 0 <= n < Pow256(4)
    case Uint64(n) => 0 <= n < Pow256(8)
    case Sint8(n) => -(Pow256(1) as int) <= 2 * n < Pow256(1)
    case Sint16(n) => -(Pow256(2) as int) <= 2 * n < Pow256(2)
    case Sint32(n) => -(Pow256(4) as int) <= 2 * n < Pow256(4)
    case Sint64(n) => -(Pow256(8) as int) <= 2 * n < Pow256(8)
    case BigInt(n) => MinByteLen(Fold(n)) < Pow256(4)
    case Float32(bits) => bits < Pow256(4)
    case Float64(bits) => bits < Pow256(8)
    case Str(utf8) => |utf8| < Pow256(4)
  }

  /** The bytes the matching write method appends for `v`. */
  function Encode(v: Value, littleEndian: bool): seq<byte>
  {
    match v
    case Bool(b) => EncodeBool(b)
    case Uint8(n) => EncodeByte(n)
    case Uint16(n) => EncodeFixed(n, 2, littleEndian)
    case Uint32(n) => EncodeFixed(n, 4, littleEndian)
    case Uint64(n) => EncodeFixed(n, 8, littleEndian)
    case Sint8(n) => EncodeByte(n)
    case Sint16(n) => EncodeFixed(n, 2, littleEndian)
    case Sint32(n) => EncodeFixed(n, 4, littleEndian)
    case Sint64(n) => EncodeFixed(n, 8, littleEndian)
    case BigInt(n) => EncodeBigInt(n, littleEndian)
    case Float32(bits) => EncodeFixed(bits, 4, littleEndian)
    case Float64(bits) => EncodeFixed(bits, 8, littleEndian)
    case Str(utf8) => EncodeString(utf8, littleEndian)
  }

  /** The writer's output for a sequence of writes. */
  function EncodeAll(vs: seq<Value>, littleEndian: bool): seq<byte>
  {
    if vs == [] then [] else Encode(vs[0], littleEndian) + EncodeAll(vs[1..], littleEndian)
  }

  lemma {:induction false} EncodeAllAppend(a: seq<Value>, b: seq<Value>, littleEndian: bool)
    ensures EncodeAll(a + b, littleEndian) == EncodeAll(a, littleEndian) + EncodeAll(b, littleEndian)
  {
    if a != [] {
      assert (a + b)[0] == a[0] && (a + b)[1..] == a[1..] + b;
      EncodeAllAppend(a[1..], b, littleEndian);
    } else {
      assert a + b == b;
    }
  }

  /** What the fixed-width read of kind `k` makes of the field `bytes`. */
  function DecodeFixed(k: Kind, bytes: seq<byte>, littleEndian: bool): Value
    requires k != BigIntKind && k != StrKind && |bytes| == Width(k)
  {
    match k
    case BoolKind => Bool(bytes[0] == 1)
    case Uint8Kind => Uint8(bytes[0] as int)
    case Uint16Kind => Uint16(FromBytes(bytes, littleEndian))
    case Uint32Kind => Uint32(FromBytes(bytes, littleEndian))
    case Uint64Kind => Uint64(FromBytes(bytes, littleEndian))
    case Sint8Kind => Sint8(ToSigned(bytes[0] as int, 1))
    case Sint16Kind => Sint16(ToSigned(FromBytes(bytes, littleEndian), 2))
    case Sint32Kind => Sint32(ToSigned(FromBytes(bytes, littleEndian), 4))
    case Sint64Kind => Sint64(ToSigned(FromBytes(bytes, littleEndian), 8))
    case Float32Kind => Float32(FromBytes(bytes, littleEndian))
    case Float64Kind => Float64(FromBytes(bytes, littleEndian))
  }

  /** The read method of kind `k` from cursor `c`: its result and the
      cursor afterwards. */
  function ReadStep(k: Kind, data: seq<byte>, c: nat, littleEndian: bool): (r: (Outcome<Value>, nat))
    ensures r.0.Got? ==> KindOf(r.0.value) == k && c < r.1
  {
    match k
    case BigIntKind =>
      var (r, c') := BigIntStep(data, c, littleEndian);
      (match r
       case Absent => Absent
       case Threw => Threw
       case Got(n) => Got(BigInt(n)), c')
    case StrKind =>
      var (r, c') := StringStep(data, c, littleEndian);
      (if r.None? then Absent else Got(Str(r.value)), c')
    case _ =>
      if c + Width(k) > |data| then (Absent, c)
      else (Got(DecodeFixed(k, data[c..c + Width(k)], littleEndian)), c + Width(k))
  }

  /** The encoding of `v` sits at offset |pre| of pre + Encode(v) + post. */
  lemma EncodedAt(pre: seq<byte>, enc: seq<byte>, post: seq<byte>)
    ensures (pre + enc + post)[|pre|..|pre| + |enc|] == enc
    ensures |enc| >= 4 ==> (pre + enc + post)[|pre|..|pre| + 4] == enc[..4]
    ensures |enc| >= 4 ==> (pre + enc + post)[|pre| + 4..|pre| + |enc|] == enc[4..]
  {
  }

  /** The fixed-width reads undo the fixed-width writes on their ranges. */
  lemma DecodeEncoded(v: Value, littleEndian: bool)
    requires InRange(v) && !v.BigInt? && !v.Str?
    ensures |Encode(v, littleEndian)| == Width(KindOf(v))
    ensures DecodeFixed(KindOf(v), Encode(v, littleEndian), littleEndian) == v
  {
    match v {
      case Bool(_) | Uint8(_) | Sint8(_) => DecodeEncodedByte(v, littleEndian);
      case Uint16(_) | Uint32(_) | Uint64(_) => DecodeEncodedUnsigned(v, littleEndian);
      case Float32(_) | Float64(_) => DecodeEncodedFloat(v, littleEndian);
      case Sint16(_) | Sint32(_) | Sint64(_) => DecodeEncodedSigned(v, littleEndian);
    }
  }

  lemma DecodeEncodedByte(v: Value, littleEndian: bool)
    requires InRange(v) && (v.Bool? || v.Uint8? || v.Sint8?)
    ensures |Encode(v, littleEndian)| == Width(KindOf(v))
    ensures DecodeFixed(KindOf(v), Encode(v, littleEndian), littleEndian) == v
  {
    if v.Sint8? {
      SignedRoundTrip(v.n, 1);
    }
  }

  lemma DecodeEncodedUnsigned(v: Value, littleEndian: bool)
    requires InRange(v) && (v.Uint16? || v.Uint32? || v.Uint64?)
    ensures |Encode(v, littleEndian)| == Width(KindOf(v))
    ensures DecodeFixed(KindOf(v), Encode(v, littleEndian), littleEndian) == v
  {
    match v {
      case Uint16(n) =>
        assert Encode(v, littleEndian) == EncodeFixed(n, 2, littleEndian);
        UnsignedField(n, 2, littleEndian);
      case Uint32(n) =>
        assert Encode(v, littleEndian) == EncodeFixed(n, 4, littleEndian);
        UnsignedField(n, 4, littleEndian);
      case Uint64(n) =>
        assert Encode(v, littleEndian) == EncodeFixed(n, 8, littleEndian);
        UnsignedField(n, 8, littleEndian);
    }
  }

  lemma DecodeEncodedFloat(v: Value, littleEndian: bool)
    requires InRange(v) && (v.Float32? || v.Float64?)
    ensures |Encode(v, littleEndian)| == Width(KindOf(v))
    ensures DecodeFixed(KindOf(v), Encode(v, littleEndian), littleEndian) == v
  {
    match v {
      case Float32(bits) =>
        assert Encode(v, littleEndian) == EncodeFixed(bits, 4, littleEndian);
        UnsignedField(bits, 4, littleEndian);
      case Float64(bits) =>
        assert Encode(v, littleEndian) == EncodeFixed(bits, 8, littleEndian);
        UnsignedField(bits, 8, littleEndian);
    }
  }

  lemma UnsignedField(n: int, width: nat, littleEndian: bool)
    requires 0 <= n < Pow256(width)
    ensures FromBytes(EncodeFixed(n, width, littleEndian), littleEndian) == n
  {
    EncodeFixedReadsBack(n, width, littleEndian);
    WrapSmall(n, Pow256(width));
  }

  lemma DecodeEncodedSigned(v: Value, littleEndian: bool)
    requires InRange(v) && (v.Sint16? || v.Sint32? || v.Sint64?)
    ensures |Encode(v, littleEndian)| == Width(KindOf(v))
    ensures DecodeFixed(KindOf(v), Encode(v, littleEndian), littleEndian) == v
  {
    match v {
      case Sint16(n) =>
        assert Encode(v, littleEndian) == EncodeFixed(n, 2, littleEndian);
        SignedField(n, 2, littleEndian);
      case Sint32(n) =>
        assert Encode(v, littleEndian) == EncodeFixed(n, 4, littleEndian);
        SignedField(n, 4, littleEndian);
      case Sint64(n) =>
        assert Encode(v, littleEndian) == EncodeFixed(n, 8, littleEndian);
        SignedField(n, 8, littleEndian);
    }
  }

  lemma SignedField(n: int, width: nat, littleEndian: bool)
    requires -(Pow256(width) as int) <= 2 * n < Pow256(width)
    ensures ToSigned(FromBytes(EncodeFixed(n, width, littleEndian), littleEndian), width) == n
  {
    EncodeFixedReadsBack(n, width, littleEndian);
    SignedRoundTrip(n, width);
  }

  /** readBigInt undoes writeBigInt when the byte count fits its field. */
  lemma BigIntReadsBack(v: Value, pre: seq<byte>, post: seq<byte>, littleEndian: bool)
    requires v.BigInt? && InRange(v)
    ensures var enc := Encode(v, littleEndian);
      ReadStep(KindOf(v), pre + enc + post, |pre|, littleEndian) == (Got(v), |pre| + |enc|)
  {
    assert Encode(v, littleEndian) == EncodeBigInt(v.n, littleEndian);
    BigIntStepReadsBack(v.n, pre, post, littleEndian);
  }

  lemma BigIntStepReadsBack(n: int, pre: seq<byte>, post: seq<byte>, littleEndian: bool)
    requires MinByteLen(Fold(n)) < Pow256(4)
    ensures var enc := EncodeBigInt(n, littleEndian);
      BigIntStep(pre + enc + post, |pre|, littleEndian) == (Got(n), |pre| + |enc|)
  {
    var enc := EncodeBigInt(n, littleEndian);
    EncodedAt(pre, enc, post);
    EncodeBigIntReadsBack(n, littleEndian);
    WrapSmall(MinByteLen(Fold(n)), Pow256(4));
    UnfoldFold(n);
  }

  /** readString undoes writeString when the byte count fits its field:
      the corrected check returns the written bytes and stops right after
      them, and readString as written, which agrees with it whenever the
      payload is present, does the same. */
  lemma StringReadsBack(v: Value, pre: seq<byte>, post: seq<byte>, littleEndian: bool)
    requires v.Str? && InRange(v)
    ensures var enc := Encode(v, littleEndian);
      ReadStep(KindOf(v), pre + enc + post, |pre|, littleEndian) == (Got(v), |pre| + |enc|)
  {
    var enc := EncodeString(v.utf8, littleEndian);
    CheckedStringReadsBack(v.utf8, pre, post, littleEndian);
    StringStepCheckedAgrees(pre + enc + post, |pre|, littleEndian);
  }

  /** The corrected readString undoes writeString when the byte count fits
      its field. */
  lemma CheckedStringReadsBack(utf8: seq<byte>, pre: seq<byte>, post: seq<byte>, littleEndian: bool)
    requires |utf8| < Pow256(4)
    ensures var enc := EncodeString(utf8, littleEndian);
      StringStepChecked(pre + enc + post, |pre|, littleEndian) == (Some(utf8), |pre| + |enc|)
  {
    var enc := EncodeString(utf8, littleEndian);
    EncodedAt(pre, enc, post);
    EncodeStringReadsBack(utf8, littleEndian);
    WrapSmall(|utf8|, Pow256(4));
  }

  /** Reading an encoded value, whatever precedes and follows it, with the
      byte order it was written in, gives the value back and stops right
      after its encoding. */
  lemma ReadEncoded(v: Value, pre: seq<byte>, post: seq<byte>, littleEndian: bool)
    requires InRange(v)
    ensures ReadStep(KindOf(v), pre + Encode(v, littleEndian) + post, |pre|, littleEndian)
            == (Got(v), |pre| + |Encode(v, littleEndian)|)
  {
    match v {
      case BigInt(_) =>
        BigIntReadsBack(v, pre, post, littleEndian);
      case Str(_) =>
        StringReadsBack(v, pre, post, littleEndian);
      case _ =>
        FixedReadsBack(v, pre, post, littleEndian);
    }
  }

  /** The fixed-width reads undo the fixed-width writes, in place. */
  lemma FixedReadsBack(v: Value, pre: seq<byte>, post: seq<byte>, littleEndian: bool)
    requires InRange(v) && !v.BigInt? && !v.Str?
    ensures var enc := Encode(v, littleEndian);
      ReadStep(KindOf(v), pre + enc + post, |pre|, littleEndian) == (Got(v), |pre| + |enc|)
  {
    var enc := Encode(v, littleEndian);
    EncodedAt(pre, enc, post);
    DecodeEncoded(v, littleEndian);
  }

  /** Once the cursor has reached the end of the data, every read reports
      absence and leaves the cursor alone. */
  lemma ReadPastEnd(k: Kind, data: seq<byte>, c: nat, littleEndian: bool)
    requires c >= |data|
    ensures ReadStep(k, data, c, littleEndian) == (Absent, c)
  {
  }

  /** Every read except readBigInt leaves the cursor where it was when it
      finds nothing; readBigInt may move it (see BigIntTruncatedExample). */
  lemma AbsentKeepsCursor(k: Kind, data: seq<byte>, c: nat, littleEndian: bool)
    requires k != BigIntKind
    ensures ReadStep(k, data, c, littleEndian).0.Absent? ==> ReadStep(k, data, c, littleEndian).1 == c
    ensures !ReadStep(k, data, c, littleEndian).0.Threw?
  {
  }

  /** The write method of `v` on `w`. */
  method WriteValue(w: Writer, v: Value) returns (ok: bool)
    requires w.Valid()
    modifies w, w.buf
    ensures w.Valid() && w.Appended(old(w.buf), old(w.buf[..]), old(w.cursor), Encode(v, w.littleEndian), ok)
    ensures w.buf == old(w.buf) || fresh(w.buf)
  {
    match v {
      case Bool(_) | Uint8(_) | Sint8(_) => ok := WriteByteValue(w, v);
      case Uint16(_) | Uint32(_) | Uint64(_) => ok := WriteUnsignedValue(w, v);
      case Sint16(_) | Sint32(_) | Sint64(_) => ok := WriteSignedValue(w, v);
      case Float32(_) | Float64(_) => ok := WriteFloatValue(w, v);
      case BigInt(_) | Str(_) => ok := WritePrefixedValue(w, v);
    }
  }

  method WriteByteValue(w: Writer, v: Value) returns (ok: bool)
    requires v.Bool? || v.Uint8? || v.Sint8?
    requires w.Valid()
    modifies w, w.buf
    ensures w.Valid() && w.Appended(old(w.buf), old(w.buf[..]), old(w.cursor), Encode(v, w.littleEndian), ok)
    ensures w.buf == old(w.buf) || fresh(w.buf)
  {
    match v {
      case Bool(b) => ok := w.WriteBool(b);
      case Uint8(n) => ok := w.WriteUint8(n);
      case Sint8(n) => ok := w.WriteSint8(n);
    }
  }

  method WriteUnsignedValue(w: Writer, v: Value) returns (ok: bool)
    requires v.Uint16? || v.Uint32? || v.Uint64?
    requires w.Valid()
    modifies w, w.buf
    ensures w.Valid() && w.Appended(old(w.buf), old(w.buf[..]), old(w.cursor), Encode(v, w.littleEndian), ok)
    ensures w.buf == old(w.buf) || fresh(w.buf)
  {
    match v {
      case Uint16(n) => ok := w.WriteUint16(n);
      case Uint32(n) => ok := w.WriteUint32(n);
      case Uint64(n) => ok := w.WriteUint64(n);
    }
  }

  method WriteSignedValue(w: Writer, v: Value) returns (ok: bool)
    requires v.Sint16? || v.Sint32? || v.Sint64?
    requires w.Valid()
    modifies w, w.buf
    ensures w.Valid() && w.Appended(old(w.buf), old(w.buf[..]), old(w.cursor), Encode(v, w.littleEndian), ok)
    ensures w.buf == old(w.buf) || fresh(w.buf)
  {
    match v {
      case Sint16(n) => ok := w.WriteSint16(n);
      case Sint32(n) => ok := w.WriteSint32(n);
      case Sint64(n) => ok := w.WriteSint64(n);
    }
  }

  method WriteFloatValue(w: Writer, v: Value) returns (ok: bool)
    requires v.Float32? || v.Float64?
    requires w.Valid()
    modifies w, w.buf
    ensures w.Valid() && w.Appended(old(w.buf), old(w.buf[..]), old(w.cursor), Encode(v, w.littleEndian), ok)
    ensures w.buf == old(w.buf) || fresh(w.buf)
  {
    match v {
      case Float32(bits) => ok := w.WriteFloat32(bits);
      case Float64(bits) => ok := w.WriteFloat64(bits);
    }
  }

  method WritePrefixedValue(w: Writer, v: Value) returns (ok: bool)
    requires v.BigInt? || v.Str?
    requires w.Valid()
    modifies w, w.buf
    ensures w.Valid() && w.Appended(old(w.buf), old(w.buf[..]), old(w.cursor), Encode(v, w.littleEndian), ok)
    ensures w.buf == old(w.buf) || fresh(w.buf)
  {
    match v {
      case BigInt(n) => ok := w.WriteBigInt(n);
      case Str(utf8) => ok := w.WriteString(utf8);
    }
  }

  /** The read method of kind `k` on `r`. */
  method ReadValue(r: Reader, k: Kind) returns (res: Outcome<Value>)
    modifies r
    ensures (res, r.cursor) == ReadStep(k, r.data, old(r.cursor), r.littleEndian)
  {
    match k {
      case BoolKind | Uint8Kind | Sint8Kind => res := ReadByteValue(r, k);
      case Uint16Kind | Uint32Kind | Uint64Kind => res := ReadUnsignedValue(r, k);
      case Sint16Kind | Sint32Kind | Sint64Kind => res := ReadSignedValue(r, k);
      case Float32Kind | Float64Kind => res := ReadFloatValue(r, k);
      case BigIntKind | StrKind => res := ReadPrefixedValue(r, k);
    }
  }

  method ReadByteValue(r: Reader, k: Kind) returns (res: Outcome<Value>)
    requires k == BoolKind || k == Uint8Kind || k == Sint8Kind
    modifies r
    ensures (res, r.cursor) == ReadStep(k, r.data, old(r.cursor), r.littleEndian)
  {
    match k {
      case BoolKind =>
        var x := r.ReadBool();
        res := if x.None? then Absent else Got(Bool(x.value));
      case Uint8Kind =>
        var x := r.ReadUint8();
        res := if x.None? then Absent else Got(Uint8(x.value));
      case Sint8Kind =>
        var x := r.ReadSint8();
        res := if x.None? then Absent else Got(Sint8(x.value));
    }
  }

  method ReadUnsignedValue(r: Reader, k: Kind) returns (res: Outcome<Value>)
    requires k == Uint16Kind || k == Uint32Kind || k == Uint64Kind
    modifies r
    ensures (res, r.cursor) == ReadStep(k, r.data, old(r.cursor), r.littleEndian)
  {
    match k {
      case Uint16Kind =>
        var x := r.ReadUint16();
        res := if x.None? then Absent else Got(Uint16(x.value));
      case Uint32Kind =>
        var x := r.ReadUint32();
        res := if x.None? then Absent else Got(Uint32(x.value));
      case Uint64Kind =>
        var x := r.ReadUint64();
        res := if x.None? then Absent else Got(Uint64(x.value));
    }
  }

  method ReadSignedValue(r: Reader, k: Kind) returns (res: Outcome<Value>)
    requires k == Sint16Kind || k == Sint32Kind || k == Sint64Kind
    modifies r
    ensures (res, r.cursor) == ReadStep(k, r.data, old(r.cursor), r.littleEndian)
  {
    match k {
      case Sint16Kind =>
        var x := r.ReadSint16();
        res := if x.None? then Absent else Got(Sint16(x.value));
      case Sint32Kind =>
        var x := r.ReadSint32();
        res := if x.None? then Absent else Got(Sint32(x.value));
      case Sint64Kind =>
        var x := r.ReadSint64();
        res := if x.None? then Absent else Got(Sint64(x.value));
    }
  }

  method ReadFloatValue(r: Reader, k: Kind) returns (res: Outcome<Value>)
    requires k == Float32Kind || k == Float64Kind
    modifies r
    ensures (res, r.cursor) == ReadStep(k, r.data, old(r.cursor), r.littleEndian)
  {
    match k {
      case Float32Kind =>
        var x := r.ReadFloat32();
        res := if x.None? then Absent else Got(Float32(x.value));
      case Float64Kind =>
        var x := r.ReadFloat64();
        res := if x.None? then Absent else Got(Float64(x.value));
    }
  }

  method ReadPrefixedValue(r: Reader, k: Kind) returns (res: Outcome<Value>)
    requires k == BigIntKind || k == StrKind
    modifies r
    ensures (res, r.cursor) == ReadStep(k, r.data, old(r.cursor), r.littleEndian)
  {
    match k {
      case BigIntKind =>
        var x := r.ReadBigInt();
        res := match x
          case Absent => Absent
          case Threw => Threw
          case Got(n) => Got(BigInt(n));
      case StrKind =>
        var x := r.ReadString();
        res := if x.None? then Absent else Got(Str(x.value));
    }
  }

  /** A writer that owns its buffer, given every value in `vs`, holds their
      encodings back to back: no write fails, however many bytes it takes. */
  method WriteEach(vs: seq<Value>, littleEndian: bool) returns (w: Writer)
    ensures fresh(w) && w.Valid() && w.managed && w.littleEndian == littleEndian
    ensures w.Buffer() == EncodeAll(vs, littleEndian)
  {
    w := new Writer(None, littleEndian);
    var i := 0;
    while i < |vs|
      invariant 0 <= i <= |vs|
      invariant fresh(w) && fresh(w.buf)
      invariant w.Valid() && w.managed && w.littleEndian == littleEndian
      invariant w.Buffer() == EncodeAll(vs[..i], littleEndian)
    {
      AppendValue(w, vs[..i], vs[i]);
      assert vs[..i] + [vs[i]] == vs[..i + 1];
      i := i + 1;
    }
    assert vs[..|vs|] == vs;
  }

  /** One more write on a writer that owns its buffer appends the value's
      encoding to what it has written. */
  method AppendValue(w: Writer, written: seq<Value>, v: Value)
    requires w.Valid() && w.managed && w.Buffer() == EncodeAll(written, w.littleEndian)
    modifies w, w.buf
    ensures w.Valid() && w.Buffer() == EncodeAll(written + [v], w.littleEndian)
    ensures w.buf == old(w.buf) || fresh(w.buf)
  {
    var ok := WriteValue(w, v);
    EncodeAllAppend(written, [v], w.littleEndian);
  }

  /** A reader whose remaining data are the encodings of `vs`, reading
      with the kinds of `vs`, gets every value back and ends at the end of
      the data. */
  method ReadEach(r: Reader, vs: seq<Value>) returns (got: seq<Outcome<Value>>)
    requires forall i :: 0 <= i < |vs| ==> InRange(vs[i])
    requires r.cursor <= |r.data| && r.data[r.cursor..] == EncodeAll(vs, r.littleEndian)
    modifies r
    ensures |got| == |vs| && forall i :: 0 <= i < |vs| ==> got[i] == Got(vs[i])
    ensures r.cursor == |r.data|
  {
    got := [];
    var i := 0;
    while i < |vs|
      invariant 0 <= i <= |vs|
      invariant r.cursor <= |r.data| && r.data[r.cursor..] == EncodeAll(vs[i..], r.littleEndian)
      invariant |got| == i && forall j :: 0 <= j < i ==> got[j] == Got(vs[j])
    {
      var x := ReadNext(r, vs, i);
      got := got + [x];
      i := i + 1;
    }
  }

  /** One turn of ReadEach: the read of the kind of `vs[i]` returns it and
      leaves the encodings of the values after it. */
  method ReadNext(r: Reader, vs: seq<Value>, i: nat) returns (x: Outcome<Value>)
    requires i < |vs| && InRange(vs[i])
    requires r.cursor <= |r.data| && r.data[r.cursor..] == EncodeAll(vs[i..], r.littleEndian)
    modifies r
    ensures x == Got(vs[i])
    ensures r.cursor <= |r.data| && r.data[r.cursor..] == EncodeAll(vs[i + 1..], r.littleEndian)
  {
    assert vs[i..][1..] == vs[i + 1..];
    ghost var pre := r.data[..r.cursor];
    ghost var enc := Encode(vs[i], r.littleEndian);
    ghost var post := EncodeAll(vs[i + 1..], r.littleEndian);
    assert r.data == pre + enc + post;
    ReadEncoded(vs[i], pre, post, r.littleEndian);
    x := ReadValue(r, KindOf(vs[i]));
    assert r.data[r.cursor..] == post;
  }

  /** A writer that owns its buffer takes every value in `vs`; a reader over
      what it wrote, in the same byte order, returns them in order, and one
      more read of a byte returns nothing. */
  method WriteThenRead(vs: seq<Value>, littleEndian: bool) returns (got: seq<Outcome<Value>>, overread: Outcome<Value>)
    requires forall i :: 0 <= i < |vs| ==> InRange(vs[i])
    ensures |got| == |vs| && forall i :: 0 <= i < |vs| ==> got[i] == Got(vs[i])
    ensures overread == Absent
  {
    var w := WriteEach(vs, littleEndian);
    var r := new Reader(w.Buffer(), None, littleEndian);
    got := ReadEach(r, vs);
    ReadPastEnd(Uint8Kind, r.data, r.cursor, littleEndian);
    overread := ReadValue(r, Uint8Kind);
  }
}
