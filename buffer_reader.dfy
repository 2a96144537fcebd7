/** BufferReader: a forward-moving cursor over a byte sequence that decodes
    values (src/buffer_reader.ts). A fixed-width read, or a length field,
    that would pass the end is reported absent with the cursor kept; a short
    readBigInt payload is absent with the cursor at the end of the data, and
    readString's payload check can let the cursor pass the end. */
module BufferReader {
  import opened Wrappers
  import opened Bytes
  import opened ZigZag

  function Min(a: nat, b: nat): nat
  {
    if a <= b then a else b
  }

  /** readBigInt from cursor `c`: the result and the cursor afterwards.
      A missing length field is absent with the cursor unchanged; a payload
      shorter than declared is absent with the cursor left at the end of the
      data, since the bytes read so far are not given back; a declared length
      of zero makes `BigInt("0x")` throw after the length field was consumed;
      otherwise the payload, most significant byte first (last in
      little-endian mode), is unfolded. */
  function BigIntStep(data: seq<byte>, c: nat, littleEndian: bool): (r: (Outcome<int>, nat))
    ensures c <= |data| ==> r.1 <= |data|
    ensures r.0.Got? ==> c + 4 < r.1 <= |data|
  {
    if c + 4 > |data| then (Absent, c)
    else
      var byteLength := FromBytes(data[c..c + 4], littleEndian);
      if c + 4 + byteLength > |data| then (Absent, |data|)
      else if byteLength == 0 then (Threw, c + 4)
      else (Got(Unfold(FromBytes(data[c + 4..c + 4 + byteLength], littleEndian))), c + 4 + byteLength)
  }

  /** readString from cursor `c`, as written: the length field must fit, but
      the second check compares `c + byteLength`, not `c + 4 + byteLength`,
      with the data length; the payload view is clamped to the data, and the
      cursor moves by 4 + byteLength. The result is the payload's UTF-8 bytes. */
  function StringStep(data: seq<byte>, c: nat, littleEndian: bool): (r: (Option<seq<byte>>, nat))
    ensures r.0.None? ==> r.1 == c
    ensures r.0.Some? ==> c + 4 <= |data| && r.1 <= |data| + 4 && r.0.value <= data[c + 4..]
  {
    if c + 4 > |data| then (None, c)
    else
      var byteLength := FromBytes(data[c..c + 4], littleEndian);
      if c + byteLength > |data| then (None, c)
      else (Some(data[c + 4..Min(c + 4 + byteLength, |data|)]), c + 4 + byteLength)
  }

  /** readString with the bounds check that counts the length field. */
  function StringStepChecked(data: seq<byte>, c: nat, littleEndian: bool): (r: (Option<seq<byte>>, nat))
    ensures r.0.None? ==> r.1 == c
    ensures r.0.Some? ==> c + 4 <= r.1 <= |data| && r.0.value == data[c + 4..r.1]
  {
    if c + 4 > |data| then (None, c)
    else
      var byteLength := FromBytes(data[c..c + 4], littleEndian);
      if c + 4 + byteLength > |data| then (None, c)
      else (Some(data[c + 4..c + 4 + byteLength]), c + 4 + byteLength)
  }

  /** readString as written fails exactly when the length field does not fit
      or the cursor plus the declared length, without the length field,
      passes the end. A failed read leaves the cursor where it was; a
      successful one moves it past the declared payload, at most 4 bytes
      beyond the end of the data, and the payload returned lacks exactly as
      many bytes as the cursor passed the end. */
  lemma StringStepCursor(data: seq<byte>, c: nat, littleEndian: bool)
    ensures var (r, c') := StringStep(data, c, littleEndian);
      && (r.None? ==> c' == c)
      && (r.Some? ==>
            && c + 4 <= |data| && c' <= |data| + 4
            && c' == c + 4 + FromBytes(data[c..c + 4], littleEndian)
            && |r.value| + (c' - Min(c', |data|)) == c' - c - 4
            && r.value <= data[c + 4..])
    ensures StringStep(data, c, littleEndian).0.None? <==>
              c + 4 > |data| || c + FromBytes(data[c..c + 4], littleEndian) > |data|
  {
  }

  /** The overrun: a declared length of 2 with one payload byte is accepted,
      yields a single byte and leaves the cursor past the end of the data. */
  lemma StringOverrunExample()
    ensures StringStep([0, 0, 0, 2, 65], 0, false) == (Some([65]), 6)
  {
    var data: seq<byte> := [0, 0, 0, 2, 65];
    assert data[0..4] == [0, 0, 0, 2];
    FromBytesBE4(0, 0, 0, 2);
    assert FromBytes(data[0..4], false) == 2;
    assert data[4..Min(6, 5)] == [65];
  }

  /** With the length field counted, a read fails, keeping the cursor,
      exactly when the length field or the declared payload does not fit;
      otherwise it returns exactly the declared bytes and moves the cursor
      past them, never past the end. */
  lemma StringStepCheckedInBounds(data: seq<byte>, c: nat, littleEndian: bool)
    ensures var (r, c') := StringStepChecked(data, c, littleEndian);
      && (r.None? ==> c' == c)
      && (r.Some? ==> c' <= |data| && |r.value| == c' - c - 4 && r.value == data[c + 4..c'])
    ensures var (r, c') := StringStepChecked(data, c, littleEndian);
      && (r.None? <==> c + 4 > |data| || c + 4 + FromBytes(data[c..c + 4], littleEndian) > |data|)
      && (r.Some? ==> c' == c + 4 + FromBytes(data[c..c + 4], littleEndian))
  {
  }

  /** The checked read agrees with the one as written on every input where
      the declared payload is present, and, from a cursor inside the data,
      rejects exactly the inputs the one as written lets run past the end. */
  lemma StringStepCheckedAgrees(data: seq<byte>, c: nat, littleEndian: bool)
    ensures StringStep(data, c, littleEndian).1 <= |data| ==>
              StringStepChecked(data, c, littleEndian) == StringStep(data, c, littleEndian)
    ensures c <= |data| ==>
              (StringStep(data, c, littleEndian).1 > |data| <==>
               StringStep(data, c, littleEndian).0.Some? && StringStepChecked(data, c, littleEndian).0.None?)
  {
  }

  /** The outcomes of readBigInt: a missing length field is the only absence
      that keeps the cursor; a short payload is absent with the cursor at the
      end of the data; a zero length throws after the length field; a value
      is returned only with its whole payload inside the data. From a cursor
      inside the data the cursor never passes its end. */
  lemma BigIntStepOutcomes(data: seq<byte>, c: nat, littleEndian: bool)
    ensures var (r, c') := BigIntStep(data, c, littleEndian);
      && ((r.Absent? && c' == c) <==> c + 4 > |data|)
      && (r.Absent? && c' != c ==> c' == |data|)
      && (r.Threw? <==> c + 4 <= |data| && FromBytes(data[c..c + 4], littleEndian) == 0)
      && (r.Threw? ==> c' == c + 4)
      && (r.Got? ==> c + 4 < c' <= |data|
                     && r.value == Unfold(FromBytes(data[c + 4..c'], littleEndian)))
      && (c <= |data| ==> c' <= |data|)
    ensures c + 4 <= |data| ==>
      var L := FromBytes(data[c..c + 4], littleEndian);
      var (r, c') := BigIntStep(data, c, littleEndian);
      && (c + 4 + L > |data| <==> r.Absent? && c' == |data|)
      && (r.Got? <==> L > 0 && c + 4 + L <= |data|)
      && (r.Got? ==> c' == c + 4 + L)
  {
  }

  /** A read of the arbitrary-precision integer whose payload is cut short
      reports absence but moves the cursor: here from 0 to 5. */
  lemma BigIntTruncatedExample()
    ensures BigIntStep([0, 0, 0, 2, 7], 0, false) == (Absent, 5)
  {
    var data: seq<byte> := [0, 0, 0, 2, 7];
    assert data[0..4] == [0, 0, 0, 2];
    FromBytesBE4(0, 0, 0, 2);
  }

  /** A declared payload length of zero throws rather than reporting absence. */
  lemma BigIntEmptyExample()
    ensures BigIntStep([0, 0, 0, 0], 0, true) == (Threw, 4)
  {
    var data: seq<byte> := [0, 0, 0, 0];
    assert data[0..4] == [0, 0, 0, 0];
    assert Reverse(data[0..4]) == [0, 0, 0, 0];
    FromBytesBE4(0, 0, 0, 0);
  }

  lemma FromBytesBE4(a: byte, b: byte, c: byte, d: byte)
    ensures FromBytesBE([a, b, c, d]) == ((a as int * 256 + b as int) * 256 + c as int) * 256 + d as int
  {
    assert [a, b, c, d][..3] == [a, b, c];
    assert [a, b, c][..2] == [a, b];
    assert [a, b][..1] == [a];
    assert [a][..0] == [];
    assert FromBytesBE([a]) == a as int;
    assert FromBytesBE([a, b]) == a as int * 256 + b as int;
    assert FromBytesBE([a, b, c]) == (a as int * 256 + b as int) * 256 + c as int;
  }

  /** Bytes gathered from `data` at `start`, in order or, in little-endian
      mode, back to front, are the payload or its reverse. */
  lemma Gathered(b: seq<byte>, data: seq<byte>, start: nat, littleEndian: bool)
    requires start + |b| <= |data|
    requires forall j :: 0 <= j < |b| ==> b[j] == data[start + (if littleEndian then |b| - 1 - j else j)]
    ensures b == if littleEndian then Reverse(data[start..start + |b|]) else data[start..start + |b|]
  {
    var payload := data[start..start + |b|];
    if littleEndian {
      var r := Reverse(payload);
      assert |r| == |b|;
      forall j | 0 <= j < |b|
        ensures b[j] == r[j]
      {
        assert r[j] == payload[|b| - 1 - j];
      }
      assert b == r;
    } else {
      forall j | 0 <= j < |b|
        ensures b[j] == payload[j]
      {
      }
      assert b == payload;
    }
  }

  class Reader {
    /** The wrapped bytes (the `buffer` getter); the reader never changes them. */
    const data: seq<byte>
    /** `_byteOffset` (the `read` getter). */
    var cursor: nat
    const littleEndian: bool

    /** Starts at `byteOffset` when one is given, otherwise at 0. */
    constructor(buffer: seq<byte>, byteOffset: Option<nat>, littleEndian: bool)
      ensures data == buffer && this.littleEndian == littleEndian
      ensures cursor == if byteOffset.Some? then byteOffset.value else 0
    {
      data := buffer;
      cursor := if byteOffset.Some? then byteOffset.value else 0;
      this.littleEndian := littleEndian;
    }

    /** `_wouldOverflow`: fewer than `n` bytes remain after the cursor. */
    predicate WouldOverflow(n: nat)
      reads this
      ensures WouldOverflow(n) <==> cursor > |data| || |data[cursor..]| < n
    {
      cursor + n > |data|
    }

    /** The overflow check, the DataView getter's bytes and the advance that
        every fixed-width read shares: the `width` bytes at the cursor. */
    method Take(width: nat) returns (r: Option<seq<byte>>)
      modifies this
      ensures r.None? <==> old(cursor) + width > |data|
      ensures r.None? ==> cursor == old(cursor)
      ensures r.Some? ==> cursor == old(cursor) + width && r.value == data[old(cursor)..cursor]
    {
      if WouldOverflow(width) {
        return None;
      }
      r := Some(data[cursor..cursor + width]);
      cursor := cursor + width;
    }

    /** True only for the byte 0x01. */
    method ReadBool() returns (r: Option<bool>)
      modifies this
      ensures r.None? <==> old(cursor) + 1 > |data|
      ensures r.None? ==> cursor == old(cursor)
      ensures r.Some? ==> cursor == old(cursor) + 1 && r.value == (data[old(cursor)] == 1)
    {
      var value := ReadUint8();
      if value.None? {
        return None;
      }
      return Some(value.value == 1);
    }

    method ReadUint8() returns (r: Option<int>)
      modifies this
      ensures r.None? <==> old(cursor) + 1 > |data|
      ensures r.None? ==> cursor == old(cursor)
      ensures r.Some? ==> cursor == old(cursor) + 1 && r.value == data[old(cursor)] as int
    {
      var bytes := Take(1);
      if bytes.None? {
        return None;
      }
      return Some(bytes.value[0] as int);
    }

    /** Two bytes, unsigned, in the configured byte order. */
    method ReadUint16() returns (r: Option<int>)
      modifies this
      ensures r.None? <==> old(cursor) + 2 > |data|
      ensures r.None? ==> cursor == old(cursor)
      ensures r.Some? ==> cursor == old(cursor) + 2 && r.value == FromBytes(data[old(cursor)..cursor], littleEndian)
    {
      var bytes := Take(2);
      if bytes.None? {
        return None;
      }
      return Some(FromBytes(bytes.value, littleEndian));
    }

    /** Four bytes, unsigned, in the configured byte order. */
    method ReadUint32() returns (r: Option<int>)
      modifies this
      ensures r.None? <==> old(cursor) + 4 > |data|
      ensures r.None? ==> cursor == old(cursor)
      ensures r.Some? ==> cursor == old(cursor) + 4 && r.value == FromBytes(data[old(cursor)..cursor], littleEndian)
    {
      var bytes := Take(4);
      if bytes.None? {
        return None;
      }
      return Some(FromBytes(bytes.value, littleEndian));
    }

    /** Eight bytes, unsigned, in the configured byte order. */
    method ReadUint64() returns (r: Option<int>)
      modifies this
      ensures r.None? <==> old(cursor) + 8 > |data|
      ensures r.None? ==> cursor == old(cursor)
      ensures r.Some? ==> cursor == old(cursor) + 8 && r.value == FromBytes(data[old(cursor)..cursor], littleEndian)
    {
      var bytes := Take(8);
      if bytes.None? {
        return None;
      }
      return Some(FromBytes(bytes.value, littleEndian));
    }

    /** One byte, two's complement. */
    method ReadSint8() returns (r: Option<int>)
      modifies this
      ensures r.None? <==> old(cursor) + 1 > |data|
      ensures r.None? ==> cursor == old(cursor)
      ensures r.Some? ==> cursor == old(cursor) + 1 && r.value == ToSigned(data[old(cursor)] as int, 1)
    {
      var bytes := Take(1);
      if bytes.None? {
        return None;
      }
      return Some(ToSigned(bytes.value[0] as int, 1));
    }

    /** Two bytes, two's complement, in the configured byte order. */
    method ReadSint16() returns (r: Option<int>)
      modifies this
      ensures r.None? <==> old(cursor) + 2 > |data|
      ensures r.None? ==> cursor == old(cursor)
      ensures r.Some? ==> cursor == old(cursor) + 2 && r.value == ToSigned(FromBytes(data[old(cursor)..cursor], littleEndian), 2)
    {
      var bytes := Take(2);
      if bytes.None? {
        return None;
      }
      return Some(ToSigned(FromBytes(bytes.value, littleEndian), 2));
    }

    /** Four bytes, two's complement, in the configured byte order. */
    method ReadSint32() returns (r: Option<int>)
      modifies this
      ensures r.None? <==> old(cursor) + 4 > |data|
      ensures r.None? ==> cursor == old(cursor)
      ensures r.Some? ==> cursor == old(cursor) + 4 && r.value == ToSigned(FromBytes(data[old(cursor)..cursor], littleEndian), 4)
    {
      var bytes := Take(4);
      if bytes.None? {
        return None;
      }
      return Some(ToSigned(FromBytes(bytes.value, littleEndian), 4));
    }

    /** Eight bytes, two's complement, in the configured byte order. */
    method ReadSint64() returns (r: Option<int>)
      modifies this
      ensures r.None? <==> old(cursor) + 8 > |data|
      ensures r.None? ==> cursor == old(cursor)
      ensures r.Some? ==> cursor == old(cursor) + 8 && r.value == ToSigned(FromBytes(data[old(cursor)..cursor], littleEndian), 8)
    {
      var bytes := Take(8);
      if bytes.None? {
        return None;
      }
      return Some(ToSigned(FromBytes(bytes.value, littleEndian), 8));
    }

    /** Four bytes: the IEEE 754 binary32 bit pattern, in the configured byte order. */
    method ReadFloat32() returns (r: Option<int>)
      modifies this
      ensures r.None? <==> old(cursor) + 4 > |data|
      ensures r.None? ==> cursor == old(cursor)
      ensures r.Some? ==> cursor == old(cursor) + 4 && r.value == FromBytes(data[old(cursor)..cursor], littleEndian)
    {
      var bytes := Take(4);
      if bytes.None? {
        return None;
      }
      return Some(FromBytes(bytes.value, littleEndian));
    }

    /** Eight bytes: the IEEE 754 binary64 bit pattern, in the configured byte order. */
    method ReadFloat64() returns (r: Option<int>)
      modifies this
      ensures r.None? <==> old(cursor) + 8 > |data|
      ensures r.None? ==> cursor == old(cursor)
      ensures r.Some? ==> cursor == old(cursor) + 8 && r.value == FromBytes(data[old(cursor)..cursor], littleEndian)
    {
      var bytes := Take(8);
      if bytes.None? {
        return None;
      }
      return Some(FromBytes(bytes.value, littleEndian));
    }

    /** The 4-byte payload length, then the payload, then the zigzag
        unfold of its value; `BigInt("0x")` throws on an empty payload. */
    method ReadBigInt() returns (r: Outcome<int>)
      modifies this
      ensures (r, cursor) == BigIntStep(data, old(cursor), littleEndian)
    {
      var byteLength := ReadUint32();
      if byteLength.None? {
        return Absent;
      }
      var value := ReadDigits(byteLength.value);
      if value.None? {
        return Absent;
      }
      if byteLength.value == 0 {
        return Threw;
      }
      return Got(Unfold(value.value));
    }

    /** The digit loop of readBigInt: `n` bytes one readUint8 at a time into
        an array, from the first slot to the last or, in little-endian mode,
        from the last to the first, then their value with the first slot most
        significant. A missing byte ends the read with the cursor at the end
        of the data. */
    method ReadDigits(n: nat) returns (value: Option<nat>)
      requires cursor <= |data|
      modifies this
      ensures value.None? <==> old(cursor) + n > |data|
      ensures value.None? ==> cursor == |data|
      ensures value.Some? ==> cursor == old(cursor) + n
                              && value.value == FromBytes(data[old(cursor)..cursor], littleEndian)
    {
      var bytes := new byte[n](_ => 0);
      var start := if littleEndian then n - 1 else 0;
      var end := if littleEndian then -1 else n;
      var delta := if littleEndian then -1 else 1;
      var i := start;
      ghost var done := 0;
      while i != end
        invariant littleEndian ==> -1 <= i < n
        invariant !littleEndian ==> 0 <= i <= n
        invariant done == if littleEndian then n - 1 - i else i
        invariant cursor == old(cursor) + done <= |data|
        invariant !littleEndian ==> forall j :: 0 <= j < i ==> bytes[j] == data[old(cursor) + j]
        invariant littleEndian ==> forall j :: i < j < n ==> bytes[j] == data[old(cursor) + (n - 1 - j)]
        decreases if littleEndian then i + 1 else n - i
      {
        var b := ReadUint8();
        if b.None? {
          return None;
        }
        bytes[i] := b.value as byte;
        i := i + delta;
        done := done + 1;
      }
      Gathered(bytes[..], data, old(cursor), littleEndian);
      return Some(FromBytesBE(bytes[..]));
    }

    /** readString: the 4-byte length, the check of the payload
        against the data (which leaves the length field out), the clamped
        payload view, and the advance past length field and payload. */
    method ReadString() returns (r: Option<seq<byte>>)
      modifies this
      ensures (r, cursor) == StringStep(data, old(cursor), littleEndian)
    {
      if WouldOverflow(4) {
        return None;
      }
      var byteLength := FromBytes(data[cursor..cursor + 4], littleEndian);
      if WouldOverflow(byteLength) {
        return None;
      }
      var view := data[cursor + 4..Min(cursor + 4 + byteLength, |data|)];
      cursor := cursor + 4 + byteLength;
      return Some(view);
    }

    /** readString with the payload check counting the length field: the
        declared payload, whole, or nothing with the cursor unmoved. */
    method ReadStringChecked() returns (r: Option<seq<byte>>)
      modifies this
      ensures (r, cursor) == StringStepChecked(data, old(cursor), littleEndian)
    {
      if WouldOverflow(4) {
        return None;
      }
      var byteLength := FromBytes(data[cursor..cursor + 4], littleEndian);
      if WouldOverflow(4 + byteLength) {
        return None;
      }
      var view := data[cursor + 4..cursor + 4 + byteLength];
      cursor := cursor + 4 + byteLength;
      return Some(view);
    }
  }
}
