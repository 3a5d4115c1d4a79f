# Verilator save/restore byte stream, in Dafny

Verilator checkpoints a simulation by pushing the model's state through a
byte stream. The stream is written by `VerilatedSerialize` and read back by
`VerilatedDeserialize`. Both stage bytes in a 256 KiB buffer and move them
in chunks of at most 16 KiB. Before each chunk, a boundary check flushes
the writer, or refills the reader, so that every chunk fits. Typed
`operator<<` / `operator>>` overloads sit on top of the two buffers. They
handle fixed-width scalars, `std::string` (a 32-bit length, then the
bytes) and `VlAssocArray` (the default value, a 32-bit count, then each key
and its value).

This project models that codec:

- `Wire` holds the byte and unsigned integer types. It also holds the host
  memory image of an N-byte integer (`HostBytes` / `HostValue`).
- `Format` gives the wire format as pure functions: `Encode`, `Decode`,
  `EncodeAssoc` and `DecodeAssoc`. It also holds the round-trip and
  layout lemmas.
- `Serialize.Serializer` is the writer, a class with an array buffer and a
  cursor. The bytes flushed so far are its `sink`.
- `Deserialize.Deserializer` is the reader, with `cp` / `endp` cursors over
  an array buffer. The file bytes not yet buffered are its `source`.
- `Codec` holds the `<<` / `>>` overloads as methods over the two classes,
  plus `VlAssocArray` as a class (`AssocArray`). Each method is proved
  against the matching `Format` function.
- `Codec.Save` / `Codec.Restore` / `Codec.SaveRestore` prove one thing end
  to end. A value and an associative array written through the buffered
  writer come back unchanged through a reader over the closed writer's
  output.

Some choices in the model:

- The host byte order is one fixed bijection. It is written as
  least-significant byte first. Nothing outside `Wire` relies on that
  choice, only on `Wire.ValueOfBytes` and `Wire.BytesOfValue`.
- The flush and fill that the file bindings override (`VerilatedSave::flush`,
  `VerilatedRestore::fill`) are defined outside this header. They are
  modelled by their contracts:
  - Flush appends `buf[..cp]` to the sink and rewinds `cp`.
  - Fill keeps the rest of the stream the same sequence. Afterwards at
    least 16 KiB are unread unless the source is empty.
  - Each has a representative body that meets its contract.
- `m_endp` starts as a null pointer. It is modelled as `endp == 0`, so the
  first boundary check always fills.
- `readAssert` is declared but not defined here. It is modelled as its
  comment describes: read the bytes, then compare them with the expected
  ones. A mismatch is the outcome `Fail(Mismatch)`.
- `size_t`-to-`vluint32_t` truncation of string lengths and array counts is
  shown explicitly (`Format.Trunc32`). A string longer than 2^32 - 1 bytes
  therefore writes only its first `len mod 2^32` bytes. An array count is
  truncated while every pair is still written.

## Model

| member | source | states |
|---|---|---|
| Wire.HostBytes | include/verilated_save.h:197-238 | the memory image of an N-byte unsigned value is exactly N bytes long |
| Wire.HostValue | include/verilated_save.h:197-238 | the value an N-byte memory image holds is below 256^N |
| Wire.ValueOfBytes | include/verilated_save.h:197-238 | reading back the memory image of a value gives the value |
| Wire.BytesOfValue | include/verilated_save.h:197-238 | the memory image of the value read from N bytes is those N bytes, so the host layout is a bijection |
| Format.Trunc32 | include/verilated_save.h:240 | the `size_t` to `vluint32_t` conversion never grows a value and keeps every value below 2^32 |
| Format.Length32 | include/verilated_save.h:240 | the length a string writes is at most its real length, and equal to it below 2^32 |
| Format.Bits | include/verilated_save.h:197-238 | a scalar's bit pattern fits in `sizeof` of its type |
| Format.FromBits | include/verilated_save.h:197-238 | a bit pattern read as type T gives a value of type T |
| Format.FromBitsOfBits | include/verilated_save.h:197-238 | turning a scalar into its bits and back gives the same scalar, bool included |
| Format.BitsOfFromBits | include/verilated_save.h:197-238 | for every non-bool scalar type, every bit pattern of `sizeof(T)` bytes is some value's pattern |
| Format.Encode | include/verilated_save.h:197-243 | a scalar writes exactly `sizeof(T)` bytes; a string writes 4 plus its 32-bit length |
| Format.StringLayout | include/verilated_save.h:239-243 | a string's bytes are the 32-bit length written as a u32, then exactly that many bytes of the string |
| Format.Decode | include/verilated_save.h:200-249 | a decoder yields a value of the requested type and leaves a strict suffix of the input; a scalar decode succeeds exactly when `sizeof(T)` bytes are there |
| Format.DecodeEncodeString | include/verilated_save.h:239-249 | reading a written string back gives its first `len mod 2^32` bytes and leaves what followed |
| Format.DecodeEncode | include/verilated_save.h:197-249 | every scalar and every string shorter than 2^32 bytes reads back bit for bit, consuming exactly what was written |
| Format.EncodeDecodeScalar | include/verilated_save.h:197-238 | for every non-bool scalar type, the `sizeof(T)` bytes a read consumes are the memory image of the value it returns |
| Format.EncodeDecodeString | include/verilated_save.h:239-249 | the bytes a string read consumes are the 4-byte length the string's encoding starts with, then the string itself |
| Format.EncodeDecode | include/verilated_save.h:197-249 | for every type but bool, whatever a decoder consumes is exactly the encoding of the value it returns |
| Format.EncodePairs | include/verilated_save.h:258-262 | defines the bytes of the write loop, each key's encoding followed by its value's; every pair takes at least two bytes |
| Format.EncodeAssoc | include/verilated_save.h:253-264 | defines the bytes array `<<` appends: the default, the count truncated to 32 bits, then every pair in iteration order; at least the default, 4 count bytes and two bytes per key |
| Format.InsertAll | include/verilated_save.h:276 | defines the map left by assigning pairs in turn with `at(key) = value`; it keeps every earlier key and holds every key assigned |
| Format.DecodePairs | include/verilated_save.h:271-277 | defines the read loop: n pairs read in stream order and assigned in turn; a successful read keeps every earlier key and consumes part of the stream |
| Format.DecodeEncodePairs | include/verilated_save.h:258-277 | reading back `n` written pairs assigns them in order and leaves what followed |
| Format.InsertAllLastWins | include/verilated_save.h:276 | after assigning pairs in turn with `at(key) = value`, a key holds the value of its last pair |
| Format.InsertAllAbsent | include/verilated_save.h:276 | a key no pair names keeps its earlier presence and value |
| Format.InsertAllEnumeration | include/verilated_save.h:258-277 | assigning a map's pairs in any enumeration of its keys into an emptied map rebuilds the map |
| Format.InsertAllKeys | include/verilated_save.h:276 | the keys after the assignments are the earlier keys plus the keys of the pairs |
| Format.ReadPairs | include/verilated_save.h:271-277 | a successful read of n pairs yields exactly n of them and leaves no more than the stream it was given |
| Format.DecodePairsUnfold | include/verilated_save.h:271-277 | reading and assigning n pairs is one loop step (a key, its value, `at(key) = value`) followed by the remaining n - 1 pairs, failing as soon as a key or value is missing |
| Format.ReadEncodePairs | include/verilated_save.h:258-275 | the written pairs read back as the same pairs, in the same order, leaving what followed |
| Format.DecodeAssoc | include/verilated_save.h:265-279 | defines array `>>`: the default, the 32-bit count, then that many pairs into an emptied map; a successful read yields a default of the value type and consumes at least one byte |
| Format.DecodePairsLastWins | include/verilated_save.h:266-279 | a decoded array holds exactly the keys the stream names, and a key repeated in the stream takes the value of its last occurrence |
| Format.EncodeAssocLayout | include/verilated_save.h:253-264 | the bytes of an array are its default, then its count, then its pairs in iteration order |
| Format.DecodeEncodeEntries | include/verilated_save.h:258-277 | the pairs of a well-formed array read back into an emptied map give its entries |
| Format.DecodeEncodeAssoc | include/verilated_save.h:253-279 | a written array with fewer than 2^32 entries reads back with the same default and the same key-to-value mapping, whatever the iteration order |
| Serialize.Serializer.constructor | include/verilated_save.h:51-54 | a new writer has an empty buffer and an empty stream |
| Serialize.Serializer.Flush | include/verilated_save.h:170 | the buffered bytes move to the sink and the cursor rewinds; the written stream is unchanged |
| Serialize.Serializer.Close | include/verilated_save.h:62 | after closing, the sink holds the whole written stream |
| Serialize.Serializer.BufferCheck | include/verilated_save.h:78-83 | it flushes exactly when the cursor is past `bufferSize - bufferInsertSize`; afterwards at least 16 KiB are free and the stream is unchanged |
| Serialize.Serializer.Write | include/verilated_save.h:64-75 | sink then buffer equals the old stream followed by the data, the cursor stays within the buffer, and a zero-length write changes nothing |
| Serialize.Serializer.CopyChunk | include/verilated_save.h:70-71 | one chunk of at most 16 KiB lands at the cursor, which moves by the chunk's length |
| Deserialize.Deserializer.constructor | include/verilated_save.h:96-115 | a new reader has no valid buffered bytes (`m_endp` starts null), so its remaining stream is the whole file |
| Deserialize.Deserializer.Fill | include/verilated_save.h:104 | the remaining stream is unchanged, and at least 16 KiB are unread unless the source is exhausted |
| Deserialize.Deserializer.Compact | include/verilated_save.h:192 | the unread bytes move to the front of the buffer; the remaining stream is unchanged |
| Deserialize.Deserializer.Append | include/verilated_save.h:192 | n source bytes move behind the valid bytes; the remaining stream is unchanged |
| Deserialize.Deserializer.BufferCheck | include/verilated_save.h:145-150 | it fills only when `cp + bufferInsertSize > endp`, and otherwise changes nothing |
| Deserialize.Deserializer.Read | include/verilated_save.h:125-136 | it returns exactly the next `size` bytes in order and advances the stream by `size`, never reading past `endp`; a too-short stream fails as truncated |
| Deserialize.Deserializer.ReadChunk | include/verilated_save.h:128-132 | one loop step (boundary check, then copy) takes exactly the next blk bytes of the stream, or fails as truncated when fewer remain |
| Deserialize.Deserializer.CopyChunk | include/verilated_save.h:131-132 | one chunk of valid bytes is taken at the cursor, which moves by the chunk's length |
| Deserialize.Deserializer.ReadAssert | include/verilated_save.h:137-138 | it consumes `size` bytes and passes exactly when they equal the expected bytes |
| Deserialize.Deserializer.ReadAssertU64 | include/verilated_save.h:139-141 | it behaves as the byte-level check on the value's 8-byte memory image |
| Codec.AssocArray.constructor | include/verilated_save.h:253-279 | a new array has the given default and no entries |
| Codec.AssocArray.Clear | include/verilated_save.h:270 | `clear()` empties the entries and keeps the default |
| Codec.AssocArray.Put | include/verilated_save.h:276 | `at(key) = value` inserts the key or overwrites its value |
| Codec.WriteScalar | include/verilated_save.h:197-235 | each scalar `<<` appends the scalar's encoding to the stream |
| Codec.ReadScalar | include/verilated_save.h:200-238 | each scalar `>>` returns what `Format.Decode` gives for the remaining stream and leaves the stream after it |
| Codec.WriteString | include/verilated_save.h:239-243 | string `<<` appends the string's encoding |
| Codec.ReadString | include/verilated_save.h:244-249 | string `>>` returns what `Format.Decode` gives for a string and leaves the stream after it |
| Codec.WriteValue | include/verilated_save.h:197-243 | the `<<` a value's type selects appends its encoding |
| Codec.ReadValue | include/verilated_save.h:200-249 | the `>>` a type selects agrees with `Format.Decode` |
| Codec.WriteAssoc | include/verilated_save.h:253-264 | array `<<` appends the default, the 32-bit count and every pair in iteration order |
| Codec.WritePair | include/verilated_save.h:259-261 | one loop step appends the key's encoding, then the value's |
| Codec.WritePairs | include/verilated_save.h:258-262 | the loop appends the encoding of every pair in iteration order |
| Codec.ReadPair | include/verilated_save.h:272-276 | one iteration of the decode loop takes exactly one step of `Format.DecodePairs`, fails exactly when this step's key or its value is missing from the stream, and then as truncated |
| Codec.ReadEntries | include/verilated_save.h:271-277 | the decode loop leaves the entries and the stream as `Format.DecodePairs` says, or fails as truncated |
| Codec.ReadAssoc | include/verilated_save.h:265-279 | array `>>` leaves the array and the stream as `Format.DecodeAssoc` says, or fails as truncated when the stream ends early |
| Codec.Save | include/verilated_save.h:197-264 | a value and an array written through a fresh writer, which is then closed, give exactly their encodings as the file |
| Codec.Restore | include/verilated_save.h:200-279 | a fresh reader over a file returns what the decoders give for it |
| Codec.SaveRestore | include/verilated_save.h:197-279 | a save followed by a restore returns the value and the array unchanged |

## Left out

- The file bindings `VerilatedSave` / `VerilatedRestore` (`open`, `close`, descriptor I/O) are defined outside this header. Their flush and fill enter only through the contracts above. The sink and the source stand for the file contents.
- `header()` / `trailer()` are declared but not defined here. Their tokens are not modelled.
- The body of `readDiffers` and the diagnostics `readAssert` prints on a mismatch are not defined here. A mismatch is only the outcome `Fail(Mismatch)`.
- The `VerilatedContext*` operators are hooks into an object whose fields are not in this header, so they are not modelled.
- The one-thread assertion (`m_assertOne`) is a concurrency check and is left out.
- Floating-point meaning: `float` and `double` are modelled as their 4- and 8-byte bit patterns only.
- Heap allocation, the destructors, and `isOpen()` / `filename()` are left out.
- The base classes' no-op `flush()` and the reader's no-op `flush()` / `close()` are not modelled. With the no-op writer flush, `bufferCheck` would never free space. The model uses the file binding's flush instead.
- Deserialize.Deserializer.Read: the C++ reader copies a chunk without checking `m_endp`. What happens at the end of file is up to the `fill` defined elsewhere. The model returns `Failure(Truncated)` when fill could not supply the chunk. There is no partial result in that case.
- Codec.ReadScalar: a decoded value is returned rather than written through a reference. On failure the target's state is not described.
- Codec.ReadAssoc: on a truncated stream only the failure is stated, not the partly updated array.
- Format.EncodeDecode: it excludes `bool`. Every nonzero byte reads as true, so a decoded bool need not re-encode to the byte it came from. The C++ leaves such a byte undefined.
- Codec.WriteAssoc: the container's iteration order is a parameter listing every key once. `VlAssocArray` internals are not in this header.
- Codec.AssocArray.Put: keys are compared as bit patterns, so a `float` or `double` key of -0.0 and one of +0.0 are two entries, and so are two NaNs with different bits. A container ordered by `<` would treat the two zeros as one key. The key ordering of `VlAssocArray` is not in this header.
- Arrays holding arrays, and any element type other than the scalars and `std::string`, are not modelled as keys or values.
