# buffer-writer in Dafny

A model of the two classes of the `buffer-writer` TypeScript library, with proofs about them:

- **`BufferWriter`** appends numbers, booleans, arbitrary-precision integers and strings to a byte array. It writes each one at a cursor, and it doubles an array it allocated itself whenever a write would not fit. A caller-supplied array is never replaced: a write that does not fit it fails.
- **`BufferReader`** walks a byte array with a cursor. It decodes the same encodings. A fixed-width read that would pass the end, and a `readBigInt` or `readString` whose 4-byte length field would, returns `undefined` and keeps the cursor. `readBigInt` with a short payload returns `undefined` but leaves the cursor at the end of the data, and it throws on a zero length. `readString` checks its payload without counting the length field, so it can return a short payload and move the cursor past the end (see "## Findings").

The project has six modules:

- `Wrappers`: `Option`, and `Outcome`. `Outcome` is the result of `readBigInt`, which can also throw.
- `Bytes`: the byte type and base-256 fields in either byte order. It also covers the two's-complement view of a field, the least byte count of a number, and the length of its hexadecimal text.
- `ZigZag`: the fold that `writeBigInt` applies to a signed big integer before splitting it into bytes, and the unfold `readBigInt` applies afterwards.
- `BufferWriter`:
  - The `Writer` class, over an `array<byte>` that growth replaces.
  - The capacity rule of `_maybeReallocate`.
  - The byte encodings each write method produces.
- `BufferReader`:
  - The `Reader` class, over the bytes it wraps, with a cursor.
  - Pure descriptions of `readBigInt` and `readString`, each from a cursor.
- `RoundTrip`:
  - Every write method's argument as a `Value`, and every read method as a `Kind`.
  - The encoding of a sequence of writes.
  - A client that writes a sequence of values into a writer that owns its array, then reads them back through a reader over the written bytes. This is what the library's own test suite does.

The main results:

- **Capacity.** A writer that owns its array always has 1024 bytes doubled some number of times. Growth picks the *least* such doubling that exceeds the bytes needed.
- **Writes.** Every write either fails or appends exactly its encoding:
  - It fails only on a caller-supplied array that is too small, and then changes nothing.
  - On success, the bytes before the cursor are kept, and the cursor moves past the encoding.
  - The array is replaced only by growth. After growth, the unused tail of the array is zero.
  - A write that fits stores the encoding at the cursor and keeps the array.
- **Reads.** Every fixed-width read fails exactly when too few bytes remain, and then keeps the cursor. Otherwise it returns the field's value in the configured byte order.
- **readBigInt.** It is described completely:
  - It can report absence after moving the cursor, when the payload is short.
  - It throws when the declared payload length is zero.
- **Round trip.** Reading in the same order and byte order returns every value written, provided each value lies in the range its write method stores without loss. Strings are exchanged as their UTF-8 bytes, so the round trip is stated on those bytes, not on JavaScript strings (see "## Left out"). Strings are read with `readString` as written: on the bytes a writer produced, its faulty bounds check (see "## Findings") agrees with the corrected one. A further read then finds nothing.

## Model

| member | source | states |
|---|---|---|
| BufferWriter.NextCapacity | src/buffer_writer.ts:193-198 | the doubling loop ends on a doubling of the old capacity that exceeds the size needed, and stops at the first one that does |
| BufferWriter.NextCapacityIsLeast | src/buffer_writer.ts:193-198 | no doubling of the old capacity smaller than the chosen one exceeds the size needed |
| BufferWriter.NextCapacityKeepsDoubling | src/buffer_writer.ts:15-16 | an owned array of 1024 bytes doubled k times stays 1024 doubled some number of times across growth |
| BufferWriter.EncodeByte | src/buffer_writer.ts:47-54 | setUint8 and setInt8 store one byte, the value modulo 256 |
| BufferWriter.EncodeBool | src/buffer_writer.ts:36-45 | writeBool stores the byte 1 exactly for true and 0 exactly for false |
| BufferWriter.EncodeFixed | src/buffer_writer.ts:56-117 | setUint16/32, setBigUint64 and their signed counterparts write exactly `width` bytes; EncodeFixedReadsBack pins their value |
| BufferWriter.EncodeFixedReadsBack | src/buffer_writer.ts:56-81 | a 2-, 4- or 8-byte field written in either byte order reads back, in that order, as the value modulo 256^width |
| BufferWriter.EncodeBigInt | src/buffer_writer.ts:126-135 | writeBigInt's output is the 4-byte count field followed by exactly the least number of bytes that hold the folded value |
| BufferWriter.EncodeBigIntReadsBack | src/buffer_writer.ts:133-146 | the count field of writeBigInt's output reads back as the byte count modulo 2^32, and its payload reads back as the folded value |
| BufferWriter.EncodeString | src/buffer_writer.ts:169-177 | writeString's output is 4 bytes longer than the UTF-8 bytes, and those bytes follow the count field unchanged |
| BufferWriter.EncodeStringReadsBack | src/buffer_writer.ts:174 | the count field of writeString's output reads back as the byte count modulo 2^32 |
| BufferWriter.ReserveThenStore | src/buffer_writer.ts:182-207 | a successful reservation followed by storing the encoding at the cursor is an append of the encoding |
| BufferWriter.ReserveFailed | src/buffer_writer.ts:189-191 | a refused reservation is a failed write that changes nothing |
| BufferWriter.AppendFits | src/buffer_writer.ts:185-187 | a write that fits neither fails nor replaces the array; it stores the encoding at the cursor |
| BufferWriter.Writer.constructor | src/buffer_writer.ts:10-22 | wraps the given array unmanaged, or allocates 1024 zero bytes managed; the cursor starts at 0 |
| BufferWriter.Writer.Buffer | src/buffer_writer.ts:24-26 | the `buffer` getter is the written prefix of the array, as long as the cursor |
| BufferWriter.Writer.Written | src/buffer_writer.ts:32-34 | `written` is the length of `buffer` |
| BufferWriter.Writer.Reserve | src/buffer_writer.ts:182-207 | `_maybeReallocate` fails only for an unmanaged array that is too small. It replaces the array only when growing, by a fresh one of the next capacity that holds the written bytes, then zeros |
| BufferWriter.Writer.Grow | src/buffer_writer.ts:193-204 | the new array has the next capacity, starts with the written bytes and is zero after them |
| BufferWriter.Writer.Store | src/buffer_writer.ts:176 | storing bytes at an offset changes exactly that range of the array |
| BufferWriter.Writer.WriteFixed | src/buffer_writer.ts:47-54 | the reserve, store and advance shared by the fixed-width writes appends the encoding; when it fits, in place at the cursor |
| BufferWriter.Writer.WriteBool | src/buffer_writer.ts:36-45 | appends EncodeBool of the value, or fails without change |
| BufferWriter.Writer.WriteUint8 | src/buffer_writer.ts:47-54 | appends the value modulo 256, or fails without change |
| BufferWriter.Writer.WriteUint16 | src/buffer_writer.ts:56-63 | appends the value modulo 2^16 in the configured byte order, or fails without change |
| BufferWriter.Writer.WriteUint32 | src/buffer_writer.ts:65-72 | appends the value modulo 2^32 in the configured byte order, or fails without change |
| BufferWriter.Writer.WriteUint64 | src/buffer_writer.ts:74-81 | appends the value modulo 2^64 in the configured byte order, or fails without change |
| BufferWriter.Writer.WriteSint8 | src/buffer_writer.ts:83-90 | appends the two's-complement byte of the value, or fails without change |
| BufferWriter.Writer.WriteSint16 | src/buffer_writer.ts:92-99 | appends the value modulo 2^16, or fails without change |
| BufferWriter.Writer.WriteSint32 | src/buffer_writer.ts:101-108 | appends the value modulo 2^32, or fails without change |
| BufferWriter.Writer.WriteSint64 | src/buffer_writer.ts:110-117 | appends the value modulo 2^64, or fails without change |
| BufferWriter.Writer.WriteFloat32 | src/buffer_writer.ts:151-158 | appends the 4-byte bit pattern in the configured byte order, or fails without change |
| BufferWriter.Writer.WriteFloat64 | src/buffer_writer.ts:160-167 | appends the 8-byte bit pattern in the configured byte order, or fails without change |
| BufferWriter.Writer.WriteBigInt | src/buffer_writer.ts:119-149 | the byte count taken from the padded hexadecimal text is the least byte count of the folded value; the write appends EncodeBigInt of the value, or fails without change |
| BufferWriter.Writer.WriteFolded | src/buffer_writer.ts:133-148 | after the reservation, the count field and the digits together are appended |
| BufferWriter.Writer.StoreBigInt | src/buffer_writer.ts:135-146 | writeUint32 of the count and then the digit loop store the count field followed by the digits |
| BufferWriter.Writer.StoreDigits | src/buffer_writer.ts:137-146 | the loop from `start` to `end` by `delta` stores the digits in order, or reversed in little-endian mode, and advances the cursor by their count |
| BufferWriter.Writer.StoreDigit | src/buffer_writer.ts:145 | one writeUint8 of the next digit extends the stored part of the payload by that digit |
| BufferWriter.Writer.WriteString | src/buffer_writer.ts:169-180 | appends EncodeString of the UTF-8 bytes, or fails without change |
| BufferWriter.Writer.StoreString | src/buffer_writer.ts:174-177 | the count through writeUint32, then the bytes through `set`, store the count field followed by the bytes |
| Bytes.FromBytes | src/buffer_reader.ts:39-61 | getUint16/32 and getBigUint64: the unsigned value of a field in the given byte order, below 256^width; FromToBytes and ToFromBytes make it the inverse of ToBytes |
| Bytes.FromToBytes | src/buffer_reader.ts:39-61 | a field written in either byte order reads back as its value |
| Bytes.ToFromBytes | src/buffer_reader.ts:39-61 | a field read in either byte order and written back in that order gives the same bytes |
| Bytes.SignedRoundTrip | src/buffer_reader.ts:63-93 | a value in a field's signed range, wrapped modulo the field and read as two's complement, is itself |
| Bytes.ToSigned | src/buffer_reader.ts:63-93 | getInt8/16/32 and getBigInt64 read a field value as the one number in the field's signed range congruent to it modulo the field size |
| Bytes.MinByteLen | src/buffer_writer.ts:126-131 | the least byte count, at least 1, whose digits hold the number |
| Bytes.HexDigits | src/buffer_writer.ts:126 | the length of `toString(16)` is the least digit count, at least 1, whose hexadecimal digits hold the number |
| Bytes.HexByteLength | src/buffer_writer.ts:126-131 | the hexadecimal digit count, padded to even and halved, is the least byte count of the number |
| ZigZag.Fold | src/buffer_writer.ts:123 | the folded value is non-negative; its low bit is the sign, and the rest is the value or its complement |
| ZigZag.Unfold | src/buffer_reader.ts:119 | the unfolded value is negative exactly when the low bit is set |
| ZigZag.UnfoldFold | src/buffer_reader.ts:119 | unfolding undoes folding for every integer |
| ZigZag.FoldUnfold | src/buffer_writer.ts:123 | folding undoes unfolding for every natural number, so every payload decodes to some integer |
| BufferReader.BigIntStep | src/buffer_reader.ts:95-122 | readBigInt from a cursor inside the data never moves the cursor past its end, and a value comes only with a non-empty payload wholly inside the data |
| BufferReader.StringStep | src/buffer_reader.ts:140-163 | readString as written: failure keeps the cursor; success needs the length field inside the data, returns a prefix of the bytes after it, and leaves the cursor at most 4 bytes past the end |
| BufferReader.StringStepChecked | src/buffer_reader.ts:146 | readString with the length field counted: failure keeps the cursor; success returns exactly the bytes between the length field and the new cursor, which stays inside the data |
| BufferReader.Reader.WouldOverflow | src/buffer_reader.ts:165-167 | `_wouldOverflow(n)` holds exactly when fewer than n bytes remain after the cursor |
| BufferReader.BigIntStepOutcomes | src/buffer_reader.ts:95-122 | which outcome readBigInt has for which input, and where it leaves the cursor: absence at the same cursor only without a length field, absence with the cursor at the end of the data exactly when the declared length runs past it, a throw exactly for a zero count, a value exactly for a non-empty payload wholly inside the data, with the cursor moved past its declared length |
| BufferReader.BigIntTruncatedExample | src/buffer_reader.ts:106-108 | a cut-short payload is reported absent with the cursor moved to the end of the data |
| BufferReader.BigIntEmptyExample | src/buffer_reader.ts:99-116 | a declared length of zero throws |
| BufferReader.StringStepCursor | src/buffer_reader.ts:140-163 | readString as written: it fails exactly when the length field does not fit or the cursor plus the declared length (without the length field) passes the end, and then keeps the cursor; success moves it past the declared payload, at most 4 bytes past the end, and the returned bytes lack as many as the cursor passed the end |
| BufferReader.StringOverrunExample | src/buffer_reader.ts:146-149 | a declared length of 2 with one payload byte is accepted, returns that byte and leaves the cursor past the end |
| BufferReader.StringStepCheckedInBounds | src/buffer_reader.ts:140-163 | with the length field counted, a read fails with the cursor kept exactly when the length field or the declared payload does not fit; otherwise it returns exactly the declared bytes and the cursor moves past them, staying inside the data |
| BufferReader.StringStepCheckedAgrees | src/buffer_reader.ts:146 | the corrected check agrees with the one as written wherever the payload is present, and from inside the data it rejects exactly the inputs the latter lets run past the end |
| BufferReader.Gathered | src/buffer_reader.ts:102-111 | bytes gathered front to back, or back to front in little-endian mode, are the payload or its reverse |
| BufferReader.Reader.constructor | src/buffer_reader.ts:9-14 | the cursor starts at the given offset, or 0 |
| BufferReader.Reader.Take | src/buffer_reader.ts:165-167 | the overflow check and the bytes at the cursor: nothing, with the cursor kept, exactly when the field passes the end |
| BufferReader.Reader.ReadBool | src/buffer_reader.ts:24-29 | true exactly for the byte 1; absent with the cursor kept exactly when no byte remains |
| BufferReader.Reader.ReadUint8 | src/buffer_reader.ts:31-37 | the byte at the cursor; absent with the cursor kept exactly when none remains |
| BufferReader.Reader.ReadUint16 | src/buffer_reader.ts:39-45 | the 2 bytes at the cursor, unsigned, in the configured order; absent with the cursor kept exactly when fewer remain |
| BufferReader.Reader.ReadUint32 | src/buffer_reader.ts:47-53 | the 4 bytes at the cursor, unsigned; absent with the cursor kept exactly when fewer remain |
| BufferReader.Reader.ReadUint64 | src/buffer_reader.ts:55-61 | the 8 bytes at the cursor, unsigned; absent with the cursor kept exactly when fewer remain |
| BufferReader.Reader.ReadSint8 | src/buffer_reader.ts:63-69 | the byte at the cursor as two's complement; absent with the cursor kept exactly when none remains |
| BufferReader.Reader.ReadSint16 | src/buffer_reader.ts:71-77 | the 2 bytes at the cursor as two's complement; absent with the cursor kept exactly when fewer remain |
| BufferReader.Reader.ReadSint32 | src/buffer_reader.ts:79-85 | the 4 bytes at the cursor as two's complement; absent with the cursor kept exactly when fewer remain |
| BufferReader.Reader.ReadSint64 | src/buffer_reader.ts:87-93 | the 8 bytes at the cursor as two's complement; absent with the cursor kept exactly when fewer remain |
| BufferReader.Reader.ReadFloat32 | src/buffer_reader.ts:124-130 | the 4-byte bit pattern at the cursor; absent with the cursor kept exactly when fewer remain |
| BufferReader.Reader.ReadFloat64 | src/buffer_reader.ts:132-138 | the 8-byte bit pattern at the cursor; absent with the cursor kept exactly when fewer remain |
| BufferReader.Reader.ReadBigInt | src/buffer_reader.ts:95-122 | the method's result and final cursor are those of BigIntStep |
| BufferReader.Reader.ReadDigits | src/buffer_reader.ts:99-111 | the byte loop reads the whole payload and returns its value in the configured byte order; on a short payload it returns nothing with the cursor at the end of the data |
| BufferReader.Reader.ReadString | src/buffer_reader.ts:140-163 | the method's result and final cursor are those of readString as written, StringStep |
| BufferReader.Reader.ReadStringChecked | src/buffer_reader.ts:146 | the method's result and final cursor are those of readString with the corrected check, StringStepChecked |
| RoundTrip.ReadStep | src/buffer_reader.ts:24-163 | a read that returns a value returns one of its own kind and moves the cursor forward |
| RoundTrip.EncodeAllAppend | src/index.test.ts:6-21 | the bytes of two runs of writes are the bytes of each run, back to back |
| RoundTrip.DecodeEncoded | src/buffer_reader.ts:24-93 | each fixed-width read undoes its write on the values that write stores without loss |
| RoundTrip.UnsignedField | src/buffer_reader.ts:39-61 | an unsigned value below 256^width survives the write and read of a field of that width |
| RoundTrip.SignedField | src/buffer_reader.ts:71-93 | a value in the signed range of a field survives the write and the signed read of that field |
| RoundTrip.BigIntStepReadsBack | src/buffer_reader.ts:95-122 | readBigInt returns the integer that writeBigInt wrote, whatever surrounds it, and stops right after it |
| RoundTrip.StringReadsBack | src/buffer_reader.ts:140-163 | readString as written returns the bytes writeString wrote, whatever surrounds them, and stops right after them |
| RoundTrip.CheckedStringReadsBack | src/buffer_reader.ts:146 | readString with the corrected check returns the bytes writeString wrote and stops right after them |
| RoundTrip.ReadEncoded | src/index.test.ts:25-39 | reading any encoded value with its kind, whatever surrounds it, returns the value and stops right after its encoding |
| RoundTrip.ReadPastEnd | src/index.test.ts:41-42 | with the cursor at or past the end, every read reports absence and keeps the cursor |
| RoundTrip.AbsentKeepsCursor | src/buffer_reader.ts:24-93 | every read except readBigInt keeps the cursor when it finds nothing, and none but readBigInt throws |
| RoundTrip.WriteValue | src/buffer_writer.ts:36-180 | the write method matching a value appends its encoding, or fails without change |
| RoundTrip.ReadValue | src/buffer_reader.ts:24-163 | the read method of a kind behaves as the pure description of that read |
| RoundTrip.WriteEach | src/index.test.ts:6-21 | a writer that owns its array, given any values, holds their encodings back to back |
| RoundTrip.AppendValue | src/buffer_writer.ts:182-207 | on a writer that owns its array, one more write appends the value's encoding |
| RoundTrip.ReadEach | src/index.test.ts:23-39 | reading the encodings of values with their kinds returns every value, in order, and ends at the end of the data |
| RoundTrip.ReadNext | src/index.test.ts:25 | one read returns the next value and leaves the encodings of the rest |
| RoundTrip.WriteThenRead | src/index.test.ts:5-43 | every value written is read back unchanged, in order, and one more readUint8 returns nothing |

## Left out

- Floating point: `writeFloat32`/`writeFloat64` and their reads are modelled on the IEEE 754 bit pattern, as a 4- or 8-byte unsigned field. The conversion between a number and its bit pattern, including rounding to binary32, is not modelled.
- Text encoding: `writeString` takes the UTF-8 bytes that `TextEncoder` produces, and `readString` returns the payload bytes. `TextEncoder` and `TextDecoder` are not modelled. The decoder used is not fatal, so the `catch` branch of readString is unreachable and is not modelled.
- RoundTrip.WriteThenRead: the round trip holds for a string's UTF-8 bytes, not for every JavaScript string. `TextEncoder` (src/buffer_writer.ts:170-171) replaces a lone surrogate with U+FFFD. The default `TextDecoder` (src/buffer_reader.ts:148) drops a leading byte order mark, so `writeString("\uFEFFx")` reads back as `"x"`. Neither loss is modelled.
- JavaScript numbers: every write method's argument is an unbounded integer, which is then reduced modulo the field size as DataView's setters do. Non-integral numbers, NaN and the conversion of a `number` to an integer are not modelled. The same holds for the reader's `byteOffset` argument, modelled as a natural number: a negative or non-integral offset, which makes DataView's getters throw `RangeError`, is not modelled.
- Hexadecimal text: writeBigInt's `toString(16)`/`parseInt` and readBigInt's `padStart`/`BigInt("0x" + …)` are modelled by their arithmetic meaning. That is, the digit count of the hexadecimal text (`Bytes.HexDigits`) and the base-256 value of the bytes.
- Views over a larger ArrayBuffer: both classes build their DataView over the whole underlying ArrayBuffer, while the bounds use the view's own length. A `Uint8Array` with a nonzero `byteOffset` is therefore not modelled: both classes are modelled over arrays that start at the beginning of their buffer.
- BufferWriter.Writer.Buffer: the getter returns a view that shares the writer's array. The model returns its contents, so later writes through the writer are not seen through an earlier result.
- BufferReader.Reader.constructor: the reader keeps the wrapped bytes as an immutable sequence, since it never writes them. Changes made to the array by others after construction are not modelled.
- Options: `BufferOpts` (src/opts.ts) is modelled as the boolean `littleEndian`, true exactly when `endianness` is `"little"`.
- RoundTrip.WriteThenRead: the test suite passes an object holding the writer's bytes to the reader's constructor. The model passes the bytes themselves. The module the test imports the classes from (`src/index.ts`) is not part of this model.

## Findings

| source | as written | input that shows it | evidently intended | confidence | as-written member | corrected member |
|---|---|---|---|---|---|---|
| src/buffer_reader.ts:146 | `_wouldOverflow(byteLength)` checks the payload against the data from the start of the 4-byte length field, not from the payload's start | big-endian bytes `00 00 00 02 41` read from cursor 0: the declared 2-byte payload has one byte, yet readString returns that one byte and moves the cursor to 6, past the 5 bytes of data | `_wouldOverflow(4 + byteLength)`: a payload that does not fit is reported absent with the cursor kept | not executed | BufferReader.StringOverrunExample | BufferReader.StringStepCheckedInBounds |
