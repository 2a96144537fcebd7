/** BufferWriter: a cursor over a byte array that appends encoded values,
    growing the array when it owns it (src/buffer_writer.ts). */
module BufferWriter {
  import opened Wrappers
  import opened Bytes
  import opened ZigZag

  /** Capacity of the array a writer allocates for itself. */
  const INITIAL_CAPACITY: nat := 1024

  /** `n` is `base` doubled zero or more times. */
  predicate IsDoubling(n: nat, base: nat)
    decreases n
  {
    n == base || (n > base && n % 2 == 0 && IsDoubling(n / 2, base))
  }

  lemma {:induction false} DoublingAtLeast(n: nat, base: nat)
    requires IsDoubling(n, base)
    ensures n >= base
  {
    if n != base {
      DoublingAtLeast(n / 2, base);
    }
  }

  /** A doubling of `base` above `base` is a doubling of `2 * base`. */
  lemma {:induction false} DoublingOfDouble(n: nat, base: nat)
    requires IsDoubling(n, base) && n > base
    ensures IsDoubling(n, 2 * base)
  {
    if n / 2 != base {
      DoublingAtLeast(n / 2, base);
      DoublingOfDouble(n / 2, base);
    }
  }

  /** The capacity `_maybeReallocate` arrives at from `capacity` by doubling
      while the capacity does not exceed `needed`. */
  function NextCapacity(capacity: nat, needed: nat): (r: nat)
    requires capacity > 0
    ensures r > needed && IsDoubling(r, capacity)
    ensures r == capacity || r / 2 <= needed
    decreases needed + 1 - capacity
  {
    if needed < capacity then capacity
    else
      var r := NextCapacity(2 * capacity, needed);
      DoublingOfDoubleInv(r, capacity);
      r
  }

  lemma {:induction false} DoublingOfDoubleInv(n: nat, base: nat)
    requires base > 0 && IsDoubling(n, 2 * base)
    ensures IsDoubling(n, base)
  {
    if n != 2 * base {
      DoublingAtLeast(n / 2, 2 * base);
      DoublingOfDoubleInv(n / 2, base);
    } else {
      assert n / 2 == base;
    }
  }

  /** Growth stops at the FIRST doubling of the old capacity that exceeds the
      size needed: no smaller doubling would do. */
  lemma {:induction false} NextCapacityIsLeast(capacity: nat, needed: nat, m: nat)
    requires capacity > 0 && IsDoubling(m, capacity) && m > needed
    ensures NextCapacity(capacity, needed) <= m
    decreases needed + 1 - capacity
  {
    DoublingAtLeast(m, capacity);
    if needed >= capacity {
      DoublingOfDouble(m, capacity);
      NextCapacityIsLeast(2 * capacity, needed, m);
    }
  }

  /** A managed capacity stays 1024 doubled k times across any growth. */
  lemma NextCapacityKeepsDoubling(capacity: nat, needed: nat)
    requires IsDoubling(capacity, INITIAL_CAPACITY)
    ensures capacity >= INITIAL_CAPACITY
    ensures IsDoubling(NextCapacity(capacity, needed), INITIAL_CAPACITY)
  {
    DoublingAtLeast(capacity, INITIAL_CAPACITY);
    DoublingTrans(NextCapacity(capacity, needed), capacity, INITIAL_CAPACITY);
  }

  lemma {:induction false} DoublingTrans(n: nat, mid: nat, base: nat)
    requires IsDoubling(n, mid) && IsDoubling(mid, base)
    ensures IsDoubling(n, base)
    decreases n
  {
    if n != mid {
      DoublingTrans(n / 2, mid, base);
      DoublingAtLeast(n / 2, base);
    }
  }

  /** `n` zero bytes, the contents of a fresh Uint8Array. */
  function Zeros(n: nat): seq<byte>
  {
    seq(n, _ => 0)
  }

  /** `s` with `t` stored from index `at` on. */
  function Splice(s: seq<byte>, at: nat, t: seq<byte>): seq<byte>
    requires at + |t| <= |s|
  {
    s[..at] + t + s[at + |t|..]
  }

  /** What DataView's setUint8/setInt8 store for a number: its low byte. */
  function EncodeByte(value: int): (r: seq<byte>)
    ensures |r| == 1 && r[0] as int == value % 256
  {
    [(value % 256) as byte]
  }

  /** What DataView's 2-, 4- and 8-byte setters store for `value`: the value
      reduced modulo 256^width (signed and unsigned alike), in the byte order
      chosen. */
  function EncodeFixed(value: int, width: nat, littleEndian: bool): (r: seq<byte>)
    ensures |r| == width
  {
    ToBytes(value % Pow256(width), width, littleEndian)
  }

  /** Reading a fixed-width field back in the same byte order gives the
      stored value modulo 256^width. */
  lemma EncodeFixedReadsBack(value: int, width: nat, littleEndian: bool)
    ensures FromBytes(EncodeFixed(value, width, littleEndian), littleEndian) == value % Pow256(width)
  {
    FromToBytes(value % Pow256(width), width, littleEndian);
  }

  /** writeBool's byte: 0x01 for true, 0x00 for false. */
  function EncodeBool(value: bool): (r: seq<byte>)
    ensures |r| == 1 && (r[0] == 1 <==> value) && (r[0] == 0 <==> !value)
  {
    EncodeByte(if value then 1 else 0)
  }

  /** writeBigInt's output: the payload length as a 4-byte field, then the
      minimal base-256 digits of the folded value, most significant first,
      or reversed in little-endian mode. */
  function EncodeBigInt(value: int, littleEndian: bool): (r: seq<byte>)
    ensures |r| == 4 + MinByteLen(Fold(value))
  {
    var folded := Fold(value);
    var n := MinByteLen(folded);
    EncodeFixed(n, 4, littleEndian) + ToBytes(folded, n, littleEndian)
  }

  /** The two fields of writeBigInt's output read back as the digit count
      (modulo 256^4) and the folded value. */
  lemma EncodeBigIntReadsBack(value: int, littleEndian: bool)
    ensures var r, n := EncodeBigInt(value, littleEndian), MinByteLen(Fold(value));
      && FromBytes(r[..4], littleEndian) == n % Pow256(4)
      && FromBytes(r[4..], littleEndian) == Fold(value)
  {
    var folded := Fold(value);
    var n := MinByteLen(folded);
    var r := EncodeBigInt(value, littleEndian);
    assert r[..4] == EncodeFixed(n, 4, littleEndian) && r[4..] == ToBytes(folded, n, littleEndian);
    EncodeFixedReadsBack(n, 4, littleEndian);
    FromToBytes(folded, n, littleEndian);
  }

  /** writeString's output for the UTF-8 bytes of the text: their count as a
      4-byte field, then the bytes. */
  function EncodeString(utf8: seq<byte>, littleEndian: bool): (r: seq<byte>)
    ensures |r| == 4 + |utf8| && r[4..] == utf8
  {
    var r := EncodeFixed(|utf8|, 4, littleEndian) + utf8;
    assert r[4..] == utf8;
    r
  }

  /** The length field of writeString's output reads back as the byte count
      modulo 256^4. */
  lemma EncodeStringReadsBack(utf8: seq<byte>, littleEndian: bool)
    ensures FromBytes(EncodeString(utf8, littleEndian)[..4], littleEndian) == |utf8| % Pow256(4)
  {
    assert EncodeString(utf8, littleEndian)[..4] == EncodeFixed(|utf8|, 4, littleEndian);
    EncodeFixedReadsBack(|utf8|, 4, littleEndian);
  }

  /** The array identity and contents `newBuf`/`newBytes` after
      `_maybeReallocate(size)` at cursor `c` on `oldBuf`/`oldBytes`: it fails
      only on a caller-supplied array that is too small; the array is replaced
      only when an owned array is too small, by a fresh array of the next
      doubled capacity holding the written prefix followed by zeros. */
  ghost predicate ReservedTo(managed: bool, oldBuf: array<byte>, oldBytes: seq<byte>, c: nat, size: nat,
                             newBuf: array<byte>, newBytes: seq<byte>, ok: bool)
    requires c <= |oldBytes|
  {
    && ok == (managed || c + size <= |oldBytes|)
    && (ok ==> c + size <= |newBytes|)
    && ((!managed || c + size <= |oldBytes|) ==> newBuf == oldBuf)
    && (newBuf == oldBuf ==> newBytes == oldBytes)
    && (newBuf != oldBuf ==>
          && |oldBytes| > 0
          && |newBytes| == NextCapacity(|oldBytes|, c + size)
          && c <= |newBytes|
          && newBytes[..c] == oldBytes[..c]
          && newBytes[c..] == Zeros(|newBytes| - c))
  }

  /** The state after a write of the encoding `enc` at cursor `oldCursor`:
      the write succeeds unless the array is caller-supplied and too small;
      on success `enc` follows the written bytes and the cursor moves past it,
      otherwise nothing changes; the array is replaced only by growth; the
      bytes after the new cursor are those of the old array or, after
      growth, zero. */
  ghost predicate AppendedTo(managed: bool, oldBuf: array<byte>, oldBytes: seq<byte>, oldCursor: nat,
                             newBuf: array<byte>, newBytes: seq<byte>, newCursor: nat, enc: seq<byte>, ok: bool)
    requires oldCursor <= |oldBytes|
  {
    && ok == (managed || oldCursor + |enc| <= |oldBytes|)
    && newCursor == oldCursor + (if ok then |enc| else 0)
    && newCursor <= |newBytes|
    && newBytes[..newCursor] == oldBytes[..oldCursor] + (if ok then enc else [])
    && ((!managed || oldCursor + |enc| <= |oldBytes|) ==> newBuf == oldBuf)
    && (newBuf == oldBuf ==> |newBytes| == |oldBytes| && newBytes[newCursor..] == oldBytes[newCursor..])
    && (newBuf != oldBuf ==>
          && |oldBytes| > 0
          && |newBytes| == NextCapacity(|oldBytes|, oldCursor + |enc|)
          && newBytes[newCursor..] == Zeros(|newBytes| - newCursor))
  }

  lemma SpliceSplice(s: seq<byte>, c: nat, e1: seq<byte>, e2: seq<byte>)
    requires c + |e1| + |e2| <= |s|
    ensures Splice(Splice(s, c, e1), c + |e1|, e2) == Splice(s, c, e1 + e2)
  {
  }

  /** Reserving room for `enc` and then storing it at the cursor appends it. */
  lemma ReserveThenStore(managed: bool, b0: array<byte>, s0: seq<byte>, c0: nat,
                         b1: array<byte>, s1: seq<byte>, enc: seq<byte>)
    requires c0 <= |s0| && ReservedTo(managed, b0, s0, c0, |enc|, b1, s1, true)
    ensures c0 + |enc| <= |s1|
    ensures AppendedTo(managed, b0, s0, c0, b1, Splice(s1, c0, enc), c0 + |enc|, enc, true)
  {
    var s2 := Splice(s1, c0, enc);
    assert s2[..c0 + |enc|] == s1[..c0] + enc;
    assert s2[c0 + |enc|..] == s1[c0 + |enc|..];
    if b1 != b0 {
      assert s1[c0 + |enc|..] == s1[c0..][|enc|..];
    }
  }

  /** A failed reservation is a write that changes nothing. */
  lemma ReserveFailed(managed: bool, b0: array<byte>, s0: seq<byte>, c0: nat,
                      b1: array<byte>, s1: seq<byte>, enc: seq<byte>)
    requires c0 <= |s0| && ReservedTo(managed, b0, s0, c0, |enc|, b1, s1, false)
    ensures AppendedTo(managed, b0, s0, c0, b1, s1, c0, enc, false)
  {
  }

  /** A write that fits neither fails nor replaces the array: it stores `enc`. */
  lemma AppendFits(managed: bool, b0: array<byte>, s0: seq<byte>, c0: nat,
                   b1: array<byte>, s1: seq<byte>, c1: nat, enc: seq<byte>, ok: bool)
    requires c0 + |enc| <= |s0| && AppendedTo(managed, b0, s0, c0, b1, s1, c1, enc, ok)
    ensures ok && b1 == b0 && c1 == c0 + |enc| && s1 == Splice(s0, c0, enc)
  {
    assert s1 == s1[..c1] + s1[c1..];
  }

  /** Copying the next byte of `src` into a zeroed array extends the copied
      prefix. */
  lemma CopyStep(src: seq<byte>, i: nat, n: nat)
    requires i < |src| <= n
    ensures (src[..i] + Zeros(n - i))[i := src[i]] == src[..i + 1] + Zeros(n - i - 1)
  {
  }

  /** Storing the next byte after a prefix of `t` extends it. */
  lemma StoreStep(s: seq<byte>, c: nat, t: seq<byte>, i: nat)
    requires i < |t| && c + |t| <= |s|
    ensures Splice(s, c, t[..i])[c + i := t[i]] == Splice(s, c, t[..i + 1])
  {
    assert t[..i + 1] == t[..i] + [t[i]];
  }

  /** Storing the next digit after a prefix of the payload extends it. */
  lemma AppendDigit(s: seq<byte>, c: nat, payload: seq<byte>, done: nat)
    requires done < |payload| && c + |payload| <= |s|
    ensures Splice(Splice(s, c, payload[..done]), c + done, [payload[done]]) == Splice(s, c, payload[..done + 1])
  {
    assert payload[..done + 1] == payload[..done] + [payload[done]];
    SpliceSplice(s, c, payload[..done], [payload[done]]);
  }

  class Writer {
    /** The backing array: caller-supplied, or owned and replaced on growth. */
    var buf: array<byte>
    /** `_byteOffset`: the number of bytes written. */
    var cursor: nat
    /** True when the writer allocated `buf` itself and may grow it. */
    const managed: bool
    const littleEndian: bool

    ghost predicate Valid()
      reads this
    {
      cursor <= buf.Length && (managed ==> IsDoubling(buf.Length, INITIAL_CAPACITY))
    }

    /** The `buffer` getter: the written prefix of the backing array. */
    function Buffer(): (r: seq<byte>)
      reads this, buf
      requires cursor <= buf.Length
      ensures |r| == cursor && r <= buf[..]
    {
      buf[..cursor]
    }

    /** The `written` getter. */
    function Written(): (n: nat)
      reads this, buf
      requires cursor <= buf.Length
      ensures n == |Buffer()|
    {
      cursor
    }

    /** The state after writing `enc` (see AppendedTo), seen from this object. */
    ghost predicate Appended(oldBuf: array<byte>, oldBytes: seq<byte>, oldCursor: nat, enc: seq<byte>, ok: bool)
      reads this, buf
      requires oldCursor <= |oldBytes|
    {
      AppendedTo(managed, oldBuf, oldBytes, oldCursor, buf, buf[..], cursor, enc, ok)
    }

    /** Wraps `buffer` when one is given, otherwise allocates 1024 bytes. */
    constructor(buffer: Option<array<byte>>, littleEndian: bool)
      ensures Valid() && cursor == 0 && this.littleEndian == littleEndian
      ensures managed <==> buffer.None?
      ensures buffer.Some? ==> buf == buffer.value
      ensures buffer.None? ==> fresh(buf) && buf[..] == Zeros(INITIAL_CAPACITY)
    {
      if buffer.Some? {
        buf := buffer.value;
        managed := false;
      } else {
        buf := new byte[INITIAL_CAPACITY](_ => 0);
        managed := true;
      }
      cursor := 0;
      this.littleEndian := littleEndian;
    }

    /** `_maybeReallocate`: makes room for `size` more bytes. */
    method Reserve(size: nat) returns (ok: bool)
      requires Valid()
      modifies this`buf
      ensures Valid()
      ensures ReservedTo(managed, old(buf), old(buf[..]), cursor, size, buf, buf[..], ok)
      ensures buf != old(buf) ==> fresh(buf)
    {
      var needed := cursor + size;
      if needed <= buf.Length {
        return true;
      }
      if !managed {
        return false;
      }
      Grow(needed);
      return true;
    }

    /** The growth branch of `_maybeReallocate`: double the capacity until it
        exceeds `needed`, then move the written bytes to a fresh zeroed array
        of that size. */
    method Grow(needed: nat)
      requires Valid() && managed && cursor <= needed && buf.Length <= needed
      modifies this`buf
      ensures Valid() && fresh(buf)
      ensures buf.Length == NextCapacity(old(buf.Length), needed)
      ensures buf[..] == old(buf[..cursor]) + Zeros(buf.Length - cursor)
    {
      NextCapacityKeepsDoubling(buf.Length, needed);
      var next := buf.Length;
      while next <= needed
        invariant next > 0
        invariant NextCapacity(next, needed) == NextCapacity(buf.Length, needed)
        decreases needed - next
      {
        next := next * 2;
      }
      var grown := new byte[next](_ => 0);
      assert grown[..] == buf[..0] + Zeros(next);
      var i := 0;
      while i < cursor
        invariant i <= cursor <= buf.Length < next && buf == old(buf)
        invariant grown[..] == buf[..i] + Zeros(next - i)
      {
        CopyStep(buf[..], i, next);
        grown[i] := buf[i];
        i := i + 1;
      }
      buf := grown;
    }

    /** The DataView setters and `Uint8Array.set`: store `bytes` at `offset`. */
    method Store(offset: nat, bytes: seq<byte>)
      requires offset + |bytes| <= buf.Length
      modifies buf
      ensures buf[..] == Splice(old(buf[..]), offset, bytes)
    {
      var i := 0;
      while i < |bytes|
        invariant i <= |bytes|
        invariant buf[..] == Splice(old(buf[..]), offset, bytes[..i])
      {
        StoreStep(old(buf[..]), offset, bytes, i);
        buf[offset + i] := bytes[i];
        i := i + 1;
      }
      assert bytes[..i] == bytes;
    }

    /** Reserve, store and advance: the shape shared by every fixed-width write. */
    method WriteFixed(enc: seq<byte>) returns (ok: bool)
      requires Valid()
      modifies this, buf
      ensures Valid() && Appended(old(buf), old(buf[..]), old(cursor), enc, ok)
      ensures buf == old(buf) || fresh(buf)
      ensures old(cursor) + |enc| <= old(buf.Length) ==>
        ok && buf == old(buf) && cursor == old(cursor) + |enc|
        && buf[..] == Splice(old(buf[..]), old(cursor), enc)
    {
      ok := Reserve(|enc|);
      if !ok {
        ReserveFailed(managed, old(buf), old(buf[..]), cursor, buf, buf[..], enc);
        return;
      }
      ghost var reserved := buf[..];
      Store(cursor, enc);
      cursor := cursor + |enc|;
      ReserveThenStore(managed, old(buf), old(buf[..]), old(cursor), buf, reserved, enc);
    }
    /** One byte, 0x01 or 0x00. */
    method WriteBool(value: bool) returns (ok: bool)
      requires Valid()
      modifies this, buf
      ensures Valid() && Appended(old(buf), old(buf[..]), old(cursor), EncodeBool(value), ok)
      ensures buf == old(buf) || fresh(buf)
      ensures old(cursor) + 1 <= old(buf.Length) ==>
        ok && buf == old(buf) && cursor == old(cursor) + 1
        && buf[..] == Splice(old(buf[..]), old(cursor), EncodeBool(value))
    {
      ok := WriteFixed(EncodeBool(value));
    }

    /** One byte: `value` modulo 256. */
    method WriteUint8(value: int) returns (ok: bool)
      requires Valid()
      modifies this, buf
      ensures Valid() && Appended(old(buf), old(buf[..]), old(cursor), EncodeByte(value), ok)
      ensures buf == old(buf) || fresh(buf)
      ensures old(cursor) + 1 <= old(buf.Length) ==>
        ok && buf == old(buf) && cursor == old(cursor) + 1
        && buf[..] == Splice(old(buf[..]), old(cursor), EncodeByte(value))
    {
      ok := WriteFixed(EncodeByte(value));
    }

    /** Two bytes: `value` modulo 2^16. */
    method WriteUint16(value: int) returns (ok: bool)
      requires Valid()
      modifies this, buf
      ensures Valid() && Appended(old(buf), old(buf[..]), old(cursor), EncodeFixed(value, 2, littleEndian), ok)
      ensures buf == old(buf) || fresh(buf)
      ensures old(cursor) + 2 <= old(buf.Length) ==>
        ok && buf == old(buf) && cursor == old(cursor) + 2
        && buf[..] == Splice(old(buf[..]), old(cursor), EncodeFixed(value, 2, littleEndian))
    {
      ok := WriteFixed(EncodeFixed(value, 2, littleEndian));
    }

    /** Four bytes: `value` modulo 2^32. */
    method WriteUint32(value: int) returns (ok: bool)
      requires Valid()
      modifies this, buf
      ensures Valid() && Appended(old(buf), old(buf[..]), old(cursor), EncodeFixed(value, 4, littleEndian), ok)
      ensures buf == old(buf) || fresh(buf)
      ensures old(cursor) + 4 <= old(buf.Length) ==>
        ok && buf == old(buf) && cursor == old(cursor) + 4
        && buf[..] == Splice(old(buf[..]), old(cursor), EncodeFixed(value, 4, littleEndian))
    {
      ok := WriteFixed(EncodeFixed(value, 4, littleEndian));
    }

    /** Eight bytes: `value` modulo 2^64. */
    method WriteUint64(value: int) returns (ok: bool)
      requires Valid()
      modifies this, buf
      ensures Valid() && Appended(old(buf), old(buf[..]), old(cursor), EncodeFixed(value, 8, littleEndian), ok)
      ensures buf == old(buf) || fresh(buf)
      ensures old(cursor) + 8 <= old(buf.Length) ==>
        ok && buf == old(buf) && cursor == old(cursor) + 8
        && buf[..] == Splice(old(buf[..]), old(cursor), EncodeFixed(value, 8, littleEndian))
    {
      ok := WriteFixed(EncodeFixed(value, 8, littleEndian));
    }

    /** One byte: `value` in two's complement, modulo 256. */
    method WriteSint8(value: int) returns (ok: bool)
      requires Valid()
      modifies this, buf
      ensures Valid() && Appended(old(buf), old(buf[..]), old(cursor), EncodeByte(value), ok)
      ensures buf == old(buf) || fresh(buf)
      ensures old(cursor) + 1 <= old(buf.Length) ==>
        ok && buf == old(buf) && cursor == old(cursor) + 1
        && buf[..] == Splice(old(buf[..]), old(cursor), EncodeByte(value))
    {
      ok := WriteFixed(EncodeByte(value));
    }

    /** Two bytes: `value` in two's complement, modulo 2^16. */
    method WriteSint16(value: int) returns (ok: bool)
      requires Valid()
      modifies this, buf
      ensures Valid() && Appended(old(buf), old(buf[..]), old(cursor), EncodeFixed(value, 2, littleEndian), ok)
      ensures buf == old(buf) || fresh(buf)
      ensures old(cursor) + 2 <= old(buf.Length) ==>
        ok && buf == old(buf) && cursor == old(cursor) + 2
        && buf[..] == Splice(old(buf[..]), old(cursor), EncodeFixed(value, 2, littleEndian))
    {
      ok := WriteFixed(EncodeFixed(value, 2, littleEndian));
    }

    /** Four bytes: `value` in two's complement, modulo 2^32. */
    method WriteSint32(value: int) returns (ok: bool)
      requires Valid()
      modifies this, buf
      ensures Valid() && Appended(old(buf), old(buf[..]), old(cursor), EncodeFixed(value, 4, littleEndian), ok)
      ensures buf == old(buf) || fresh(buf)
      ensures old(cursor) + 4 <= old(buf.Length) ==>
        ok && buf == old(buf) && cursor == old(cursor) + 4
        && buf[..] == Splice(old(buf[..]), old(cursor), EncodeFixed(value, 4, littleEndian))
    {
      ok := WriteFixed(EncodeFixed(value, 4, littleEndian));
    }

    /** Eight bytes: `value` in two's complement, modulo 2^64. */
    method WriteSint64(value: int) returns (ok: bool)
      requires Valid()
      modifies this, buf
      ensures Valid() && Appended(old(buf), old(buf[..]), old(cursor), EncodeFixed(value, 8, littleEndian), ok)
      ensures buf == old(buf) || fresh(buf)
      ensures old(cursor) + 8 <= old(buf.Length) ==>
        ok && buf == old(buf) && cursor == old(cursor) + 8
        && buf[..] == Splice(old(buf[..]), old(cursor), EncodeFixed(value, 8, littleEndian))
    {
      ok := WriteFixed(EncodeFixed(value, 8, littleEndian));
    }

    /** Four bytes: the IEEE 754 binary32 bit pattern `bits` of the number. */
    method WriteFloat32(bits: nat) returns (ok: bool)
      requires Valid()
      modifies this, buf
      ensures Valid() && Appended(old(buf), old(buf[..]), old(cursor), EncodeFixed(bits, 4, littleEndian), ok)
      ensures buf == old(buf) || fresh(buf)
      ensures old(cursor) + 4 <= old(buf.Length) ==>
        ok && buf == old(buf) && cursor == old(cursor) + 4
        && buf[..] == Splice(old(buf[..]), old(cursor), EncodeFixed(bits, 4, littleEndian))
    {
      ok := WriteFixed(EncodeFixed(bits, 4, littleEndian));
    }

    /** Eight bytes: the IEEE 754 binary64 bit pattern `bits` of the number. */
    method WriteFloat64(bits: nat) returns (ok: bool)
      requires Valid()
      modifies this, buf
      ensures Valid() && Appended(old(buf), old(buf[..]), old(cursor), EncodeFixed(bits, 8, littleEndian), ok)
      ensures buf == old(buf) || fresh(buf)
      ensures old(cursor) + 8 <= old(buf.Length) ==>
        ok && buf == old(buf) && cursor == old(cursor) + 8
        && buf[..] == Splice(old(buf[..]), old(cursor), EncodeFixed(bits, 8, littleEndian))
    {
      ok := WriteFixed(EncodeFixed(bits, 8, littleEndian));
    }

    /** The zigzag-folded value, its byte count as a 4-byte field, then its
        digits one byte at a time; room for all of it is reserved first. */
    method WriteBigInt(value: int) returns (ok: bool)
      requires Valid()
      modifies this, buf
      ensures Valid() && Appended(old(buf), old(buf[..]), old(cursor), EncodeBigInt(value, littleEndian), ok)
      ensures buf == old(buf) || fresh(buf)
    {
      var folded := Fold(value);
      var hexLength := HexDigits(folded);
      if hexLength % 2 == 1 {
        hexLength := hexLength + 1;
      }
      var byteLength := hexLength / 2;
      HexByteLength(folded);
      assert byteLength == MinByteLen(folded);
      assert EncodeBigInt(value, littleEndian)
          == EncodeFixed(byteLength, 4, littleEndian) + ToBytes(folded, byteLength, littleEndian);
      ok := WriteFolded(folded, byteLength);
    }

    /** writeBigInt once the folded value and its byte count are known:
        room for the count field and the digits is reserved, then both are
        stored. */
    method WriteFolded(folded: nat, byteLength: nat) returns (ok: bool)
      requires Valid() && folded < Pow256(byteLength)
      modifies this, buf
      ensures Valid() && Appended(old(buf), old(buf[..]), old(cursor),
                                  EncodeFixed(byteLength, 4, littleEndian) + ToBytes(folded, byteLength, littleEndian), ok)
      ensures buf == old(buf) || fresh(buf)
    {
      ghost var enc := EncodeFixed(byteLength, 4, littleEndian) + ToBytes(folded, byteLength, littleEndian);
      ok := Reserve(4 + byteLength);
      if !ok {
        ReserveFailed(managed, old(buf), old(buf[..]), cursor, buf, buf[..], enc);
        return;
      }
      ghost var reserved := buf[..];
      StoreBigInt(folded, byteLength);
      ReserveThenStore(managed, old(buf), old(buf[..]), old(cursor), buf, reserved, enc);
      assert buf[..] == Splice(reserved, old(cursor), enc) && cursor == old(cursor) + |enc|;
    }

    /** writeBigInt after its reservation: the byte count through
        writeUint32, then the digits through writeUint8, first to last or,
        in little-endian mode, last to first. */
    method StoreBigInt(folded: nat, byteLength: nat)
      requires Valid() && folded < Pow256(byteLength) && cursor + 4 + byteLength <= buf.Length
      modifies this, buf
      ensures Valid() && buf == old(buf) && cursor == old(cursor) + 4 + byteLength
      ensures buf[..] == Splice(old(buf[..]), old(cursor),
                                EncodeFixed(byteLength, 4, littleEndian) + ToBytes(folded, byteLength, littleEndian))
    {
      ghost var prefix := EncodeFixed(byteLength, 4, littleEndian);
      var prefixOk := WriteUint32(byteLength);
      var digits := ToBytesBE(folded, byteLength);
      StoreDigits(digits);
      SpliceSplice(old(buf[..]), old(cursor), prefix, ToBytes(folded, byteLength, littleEndian));
    }

    /** The digit loop of writeBigInt: one writeUint8 per digit, from the
        first digit to the last or, in little-endian mode, from the last to
        the first. */
    method StoreDigits(digits: seq<byte>)
      requires Valid() && cursor + |digits| <= buf.Length
      modifies this, buf
      ensures Valid() && buf == old(buf) && cursor == old(cursor) + |digits|
      ensures buf[..] == Splice(old(buf[..]), old(cursor), if littleEndian then Reverse(digits) else digits)
    {
      ghost var payload := if littleEndian then Reverse(digits) else digits;
      var byteLength := |digits|;
      assert |payload| == byteLength;
      var start := if littleEndian then byteLength - 1 else 0;
      var end := if littleEndian then -1 else byteLength;
      var delta := if littleEndian then -1 else 1;
      var i := start;
      ghost var done := 0;
      while i != end
        invariant littleEndian ==> -1 <= i < byteLength
        invariant !littleEndian ==> 0 <= i <= byteLength
        invariant 0 <= done <= byteLength
        invariant i == if littleEndian then byteLength - 1 - done else done
        invariant buf == old(buf) && Valid() && cursor == old(cursor) + done
        invariant buf[..] == Splice(old(buf[..]), old(cursor), payload[..done])
        decreases if littleEndian then i + 1 else byteLength - i
      {
        assert payload[done] == digits[i];
        StoreDigit(digits[i], old(buf[..]), old(cursor), payload, done);
        i := i + delta;
        done := done + 1;
      }
      assert payload[..byteLength] == payload;
    }

    /** One turn of the digit loop: writeUint8 of the next digit, with room
        for it reserved, extends the stored part of the payload by one. */
    method StoreDigit(digit: byte, ghost base: seq<byte>, ghost start: nat, ghost payload: seq<byte>, ghost done: nat)
      requires Valid() && |base| == buf.Length && start + |payload| <= buf.Length
      requires done < |payload| && payload[done] == digit
      requires cursor == start + done && buf[..] == Splice(base, start, payload[..done])
      modifies this, buf
      ensures Valid() && buf == old(buf) && cursor == start + done + 1
      ensures buf[..] == Splice(base, start, payload[..done + 1])
    {
      assert EncodeByte(digit as int) == [digit];
      var ok := WriteUint8(digit as int);
      AppendDigit(base, start, payload, done);
    }

    /** The UTF-8 bytes' count as a 4-byte field, then the bytes; room for
        both is reserved first. */
    method WriteString(utf8: seq<byte>) returns (ok: bool)
      requires Valid()
      modifies this, buf
      ensures Valid() && Appended(old(buf), old(buf[..]), old(cursor), EncodeString(utf8, littleEndian), ok)
      ensures buf == old(buf) || fresh(buf)
    {
      ghost var enc := EncodeString(utf8, littleEndian);
      ok := Reserve(4 + |utf8|);
      if !ok {
        ReserveFailed(managed, old(buf), old(buf[..]), cursor, buf, buf[..], enc);
        return;
      }
      ghost var reserved := buf[..];
      StoreString(utf8);
      ReserveThenStore(managed, old(buf), old(buf[..]), old(cursor), buf, reserved, enc);
      assert buf[..] == Splice(reserved, old(cursor), enc) && cursor == old(cursor) + |enc|;
    }

    /** writeString after its reservation: the count through writeUint32,
        then the bytes through `Uint8Array.set`. */
    method StoreString(utf8: seq<byte>)
      requires Valid() && cursor + 4 + |utf8| <= buf.Length
      modifies this, buf
      ensures Valid() && buf == old(buf) && cursor == old(cursor) + 4 + |utf8|
      ensures buf[..] == Splice(old(buf[..]), old(cursor), EncodeString(utf8, littleEndian))
    {
      ghost var prefix := EncodeFixed(|utf8|, 4, littleEndian);
      var prefixOk := WriteUint32(|utf8|);
      SpliceSplice(old(buf[..]), old(cursor), prefix, utf8);
      Store(cursor, utf8);
      cursor := cursor + |utf8|;
    }
  }
}
