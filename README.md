# PNG chunk engine of MakeImageCensored

MakeImageCensored is a WPF image editor. When it saves a picture as PNG, it reopens the file as a
`Png` object, removes its sRGB chunks and inserts a gAMA chunk. This project models the part of the
editor that does that:

- class `Png`, holding the file's bytes in `RawImageData`;
- its signature check;
- its two field readers, `ReadChunkLength` and `ReadChunkType`;
- its three chunk editors, `RemoveChunk`, `InsertChunk` and `SetChunk`;
- the CRC-32 engine of `Global`, which these editors use.

Each editor copies the buffer chunk by chunk into a memory stream and then replaces the buffer with
the stream. For every input, the model states whether an editor ends with new bytes, throws, or loops
for ever, and proves what each editor does to a buffer, byte for byte, whenever it does not loop for
ever. On a well-formed PNG it also proves what each editor does to the list of chunks.

Modules:

- `Encoding`: the C# `byte` and `int`, the big- and little-endian byte orders of `BitConverter`
  (after and before `Array.Reverse`), and `Encoding.ASCII`.
- `Crc`: `Global`'s lookup table and `ComputeChecksum`, as class `Global` with the table as an array.
  It is proved against a bit-at-a-time reference definition of the reflected CRC-32 (polynomial
  0xEDB88320) that section 5.5 of the PNG specification (ISO/IEC 15948) prescribes.
- `PngFormat`: the signature, the chunk-kind enum and `GetChunk`, and a buffer read as a list of
  chunks: length field, type field, data, CRC field. It defines three list-level operations: removing
  every chunk of a kind, inserting a chunk after the leading IHDR chunks, and replacing every chunk of
  a kind. It also proves their properties.
- `ChunkWalk`: the loop of each editor as a function of the buffer, `RemoveWalk`, `InsertWalk` and
  `SetWalk`. Each walk ends in `Done(bytes)`, in `Throws` where the .NET code raises an exception, or
  in `Hangs`. `Hangs` means the cursor came back to an offset without writing anything since, so the
  source loops for ever. A cycle that does write grows the stream on every lap. The walk follows it
  lap by lap until the stream passes its limit, and then ends in `Throws`. The module also holds the
  lemmas that tie the walks to the list-level operations.
- `PngBinary`: class `Png`, with `rawImageData` as a field that its methods reassign.
  - Each editor is a `while` loop over a memory-stream sequence `ms`.
  - The loop invariant says that the stream, followed by the rest of the walk, is the walk's result.
  - One pass of each loop body is its own method (`RemovePass`, `InsertPass`, `SetPass`). It states
    what the pass writes and where the cursor goes. The copying branch of `RemovePass` and `SetPass`
    is a method of its own (`CopyKeptChunk`, `CopyOtherChunk`).
- `Editor`: lines 146-150 of MainWindow.xaml.cs, in the save handler.

Cursor arithmetic is C# `int` arithmetic, wrapping modulo 2^32 (`ChunkWalk.Add`). A thrown exception
leaves the buffer as it was, because the editors assign `RawImageData` only after their loop. The
stream can hold fewer than 2^31 bytes.

Behaviour of the source that the model keeps and states:

- `SetChunk` computes the CRC over the name and the little-endian bytes of `data`, but writes the
  big-endian bytes. The chunk it writes therefore fails its own CRC check. `SetChunkChecksumMismatch`
  shows this for the gAMA chunk: the stored CRC is 0x50604C73 where 0x0FEC26A3 is correct.
- `InsertChunk` writes the caller's `length` in the length field but always writes four data bytes.
  The editor passes `length == 4`. With any other `length` the length field disagrees with the
  four data bytes that follow. The chunk list read back is then not the old list with the new
  chunk inserted; the file may even stay well formed, with a different chunk tiling. The model
  states the intended chunk list (`InsertChunkWellFormed`) only for `length == 4`.
- `InsertChunk` at a buffer without a chunk other than IHDR writes nothing new.
- Both `InsertChunk` and `SetChunk` write only the first four bytes of the name. A name of fewer
  than four bytes makes them throw: `InsertChunk` once it reaches a chunk other than IHDR, and
  `SetChunk` once a chunk matches. Without such a chunk the buffer stays as it was.
- `SetChunk` likewise throws at a matching chunk when `length` is outside 0..4, because it writes
  `length` bytes of a 4-byte array.
- A chunk whose length field is -12 does not move the cursor.
  - `RemoveChunk` loops for ever there, since it copies or skips zero bytes.
  - `InsertChunk` loops for ever at such an IHDR chunk.
  - `SetChunk` loops for ever at such a chunk that does not match. At one that matches, it writes the
    replacement on every lap and throws once the stream passes its limit.
  - A cycle in which the cursor goes back to an earlier chunk throws in the same way when a lap
    writes something, and loops for ever when no lap writes anything.
- `RemoveChunk(Unknown)` removes every chunk whose name is not one of the eighteen known names.

## Model

| member | source | states |
|---|---|---|
| Encoding.Int32RoundTrip | PngBinary.cs:323-326 | Reading a length field back with `BitConverter.ToInt32` after reversing gives the int that was written, and a field's four bytes are determined by the int read from them |
| Encoding.LittleEndianIsReversed | PngBinary.cs:287-288 | `BitConverter.GetBytes` on a little-endian host, then `Array.Reverse`, gives the big-endian bytes |
| Encoding.AsciiRoundTrip | PngBinary.cs:401 | `Encoding.ASCII` is lossless on 7-bit text, and a decoded type field without '?' encodes back to the same bytes |
| Crc.Global.constructor | Global.cs:42-63 | The static constructor leaves each of the 256 entries equal to `TableEntry` of its index: the index after eight rounds of division by 0xEDB88320 |
| Crc.Global.DivideByte | Global.cs:49-60 | The inner loop computes the table entry of one byte |
| Crc.Global.ComputeChecksum | Global.cs:19-40 | Succeeds exactly when `length` does not exceed the array, and then returns the table-driven CRC register over the first `length` bytes, or over none when `length` is negative. Over the whole array when `length` is its size |
| Crc.CrcIsBitwise | Global.cs:33-39 | The table-driven register `Crc` agrees with the bit-at-a-time reference CRC-32 on every input and every start value |
| Crc.StepIsBitwise | Global.cs:36-37 | `Step`, the table lookup and shift of the loop body, computes the same register as eight bit-at-a-time rounds of division |
| Crc.CrcSnoc | Global.cs:34-38 | `Crc` takes the bytes in array order: one more byte at the end of the input is one more `Step` on the register |
| Crc.TableSamples | Global.cs:42-63 | Entries 0, 1, 128 and 255 of the table have their standard CRC-32 values |
| Crc.CrcChain | Global.cs:19-40 | Checksumming two arrays one after the other, with the first result passed as `init`, equals checksumming their concatenation |
| Crc.PngCrcOfParts | PngBinary.cs:234-239 | The editors' two-pass computation (seed 0xFFFFFFFF, name, data, final XOR) is the PNG CRC of name and data together |
| PngFormat.GetChunkIsTag | PngBinary.cs:330-391 | `GetChunk` maps a string to a known kind exactly when it is that kind's four-letter name, so distinct names give distinct kinds |
| PngFormat.GetChunkUnknown | PngBinary.cs:388-389 | A string maps to `Unknown` exactly when it is none of the eighteen names |
| PngFormat.ParseFromFirst | PngBinary.cs:100-104 | A chunk sequence starts with the chunk whose length and type fields are at the cursor, spanning 12 bytes plus its length, and continues right after it |
| PngFormat.ParseFromSerializes | PngBinary.cs:100-104 | The chunks read from a buffer serialise back to exactly its bytes |
| PngFormat.SerializeParses | PngBinary.cs:100-104 | Serialised chunks read back as the same chunks, whatever precedes them |
| PngFormat.WellFormedOfSerialize | PngBinary.cs:100-104 | A signature followed by serialised chunks is a well-formed buffer holding those chunks |
| PngFormat.Without | PngBinary.cs:189-198 | Dropping the chunks of a kind never lengthens the list or its bytes |
| PngFormat.WithoutMembers | PngBinary.cs:189-198 | A chunk remains if and only if it was present and is not of the removed kind |
| PngFormat.WithoutAbsent | PngBinary.cs:189-198 | When no chunk has the kind, nothing is dropped |
| PngFormat.WithoutIdempotent | PngBinary.cs:173-203 | Removing a kind twice is removing it once |
| PngFormat.LeadingHeaders | PngBinary.cs:220-224 | The counted prefix is all IHDR, and the chunk after it, if any, is not IHDR |
| PngFormat.NewChunkCrc | PngBinary.cs:234-247 | The CRC field of the chunk built from a name and data is the bit-at-a-time reference CRC-32 of name and data, seeded with all ones and complemented |
| PngFormat.InsertAfterHeadersContents | PngBinary.cs:216-251 | Inserting adds exactly one copy of the new chunk, or nothing when every chunk is IHDR. A new chunk that is not IHDR becomes the first chunk after the leading IHDR chunks |
| PngFormat.Replace | PngBinary.cs:274-299 | Position by position, a chunk of the kind becomes the replacement and every other chunk stays |
| PngFormat.ReplaceTwice | PngBinary.cs:274-299 | Replacing with a chunk of the same kind is idempotent. Replacing with another kind leaves none of the old kind |
| PngFormat.ReplaceAbsent | PngBinary.cs:274-299 | Replacing a kind no chunk has changes nothing |
| ChunkWalk.Add | PngBinary.cs:192 | The sum is the exact sum when it fits in an `int`, and otherwise differs from it by 2^32 |
| ChunkWalk.Replacement | PngBinary.cs:277-293 | The chunk `SetChunk` writes has a four-byte name and CRC and exactly `length` data bytes |
| ChunkWalk.RemoveWalk | PngBinary.cs:185-199 | The loop of `RemoveChunk` from a cursor: a walk that succeeds never writes more than the stream can still take |
| ChunkWalk.RemoveEnd | PngBinary.cs:185-200 | Once the cursor reaches the end, the stream is the result |
| ChunkWalk.RemoveHeaderThrows | PngBinary.cs:187-188 | `RemoveChunk` throws when the length or type field at the cursor lies outside the buffer |
| ChunkWalk.RemoveVisits | PngBinary.cs:185-199 | A `RemoveChunk` walk that does not hang is not at an offset it has visited since the stream last grew |
| ChunkWalk.RemoveCopyThrows | PngBinary.cs:191 | `RemoveChunk` throws when a chunk it keeps has a negative size or runs past the buffer |
| ChunkWalk.RemoveCopyStep | PngBinary.cs:189-193 | A kept chunk moves from the walk to the stream, the cursor advances without overflow, and a stream that outgrows its limit throws |
| ChunkWalk.RemoveSkipStep | PngBinary.cs:194-198 | A removed chunk is skipped with wrapping arithmetic and nothing is written |
| ChunkWalk.RemoveResult | PngBinary.cs:173-203 | A successful `RemoveChunk` leaves a buffer shorter than the stream limit that starts with the eight header bytes copied at :183 |
| ChunkWalk.InsertWalk | PngBinary.cs:216-253 | The loop of `InsertChunk` from a cursor: a walk that succeeds writes at most the rest of the buffer and the new chunk |
| ChunkWalk.InsertEnd | PngBinary.cs:216-254 | A buffer of IHDR chunks only is copied to the end |
| ChunkWalk.InsertHeaderThrows | PngBinary.cs:218-219 | `InsertChunk` throws when the length or type field at the cursor lies outside the buffer |
| ChunkWalk.InsertVisits | PngBinary.cs:216-253 | An `InsertChunk` walk that does not hang never returns to a visited offset |
| ChunkWalk.InsertCopyThrows | PngBinary.cs:222 | `InsertChunk` throws when an IHDR chunk has a negative size or runs past the buffer |
| ChunkWalk.InsertCopyStep | PngBinary.cs:220-224 | An IHDR chunk moves from the walk to the stream, and a stream that outgrows its limit throws |
| ChunkWalk.InsertNameThrows | PngBinary.cs:234 | At the first chunk other than IHDR, a name of fewer than four bytes throws |
| ChunkWalk.InsertHere | PngBinary.cs:244-251 | At the first chunk other than IHDR, the new chunk and the whole rest of the buffer are written and the walk ends, or it throws when the stream would outgrow its limit |
| ChunkWalk.InsertResult | PngBinary.cs:205-256 | A successful `InsertChunk` leaves a buffer shorter than the stream limit that starts with the eight header bytes copied at :215 |
| ChunkWalk.SetWalk | PngBinary.cs:270-301 | The loop of `SetChunk` from a cursor: a walk that succeeds never writes more than the stream can still take |
| ChunkWalk.SetEnd | PngBinary.cs:270-303 | Once the cursor reaches the end, the stream is the result |
| ChunkWalk.SetHeaderThrows | PngBinary.cs:272-273 | `SetChunk` throws when the length or type field at the cursor lies outside the buffer |
| ChunkWalk.SetVisits | PngBinary.cs:270-301 | A `SetChunk` walk that does not hang is not at an offset it has visited since the stream last grew |
| ChunkWalk.SetCopyThrows | PngBinary.cs:298 | `SetChunk` throws when a chunk it keeps has a negative size or runs past the buffer |
| ChunkWalk.SetCopyStep | PngBinary.cs:296-300 | A chunk that does not match moves from the walk to the stream, and a stream that outgrows its limit throws |
| ChunkWalk.SetReplaceThrows | PngBinary.cs:281-292 | At a matching chunk, a name shorter than four bytes or a `length` outside 0..4 throws |
| ChunkWalk.SetReplaceStep | PngBinary.cs:274-295 | At a matching chunk, the replacement is written, the old chunk is skipped with wrapping arithmetic, and a stream that outgrows its limit throws |
| ChunkWalk.SetResult | PngBinary.cs:258-306 | A successful `SetChunk` leaves a buffer shorter than the stream limit that starts with the eight header bytes copied at :268 |
| ChunkWalk.WalkStep | PngBinary.cs:187-192 | On a well-formed tail, the fields can be read, the span copied is exactly the first chunk's bytes, and the cursor lands on the next chunk without overflow |
| ChunkWalk.RemoveKeepStep | PngBinary.cs:189-193 | On a well-formed tail whose first chunk is kept, the walk writes exactly that chunk's bytes and goes on at the next chunk |
| ChunkWalk.RemoveDropStep | PngBinary.cs:194-198 | On a well-formed tail whose first chunk is removed, the walk writes nothing for it and goes on at the next chunk |
| ChunkWalk.RemoveWalkOfChunks | PngBinary.cs:185-199 | On a well-formed tail that fits the stream, `RemoveChunk`'s walk succeeds and writes exactly the bytes of the chunks not of the removed kind |
| ChunkWalk.RemoveResultOfChunks | PngBinary.cs:173-203 | On a well-formed buffer, `RemoveChunk` succeeds, keeps the signature and leaves the serialised list without the removed kind |
| ChunkWalk.RemoveChunkWellFormed | PngBinary.cs:173-203 | `RemoveChunk` leaves a well-formed, no longer buffer with the same signature and exactly the chunks not of the kind. A second call changes nothing, and a call on a buffer without the kind changes nothing |
| ChunkWalk.InsertStepHeader | PngBinary.cs:220-224 | On a well-formed tail starting with IHDR, one step copies that chunk and moves to the next |
| ChunkWalk.InsertStepOther | PngBinary.cs:225-251 | On a well-formed tail starting with another chunk, the walk writes the new chunk and the rest, or throws when there is no new chunk |
| ChunkWalk.InsertWalkOfChunks | PngBinary.cs:216-253 | On a well-formed tail, `InsertChunk`'s walk equals its list-level account `InsertedInto` |
| ChunkWalk.InsertedIntoAfterHeaders | PngBinary.cs:220-251 | `InsertedInto`, which writes a chunk's bytes after the leading IHDR chunks, serialises `InsertAfterHeaders`, and the bytes grow by one chunk exactly when some chunk is not IHDR |
| ChunkWalk.InsertResultOfChunks | PngBinary.cs:205-256 | On a well-formed buffer, `InsertChunk` keeps the signature and acts on the chunk list. A buffer without a chunk other than IHDR stays as it was |
| ChunkWalk.InsertChunkWellFormed | PngBinary.cs:205-256 | With length 4 and a name of at least four bytes, `InsertChunk` succeeds on a well-formed buffer that has room. It leaves a well-formed buffer with the same signature whose chunks are the old ones with a correctly checksummed new chunk after the IHDR chunks |
| ChunkWalk.SetMatchStep | PngBinary.cs:274-295 | On a well-formed tail whose first chunk matches, the walk writes the replacement and goes on at the next chunk |
| ChunkWalk.SetOtherStep | PngBinary.cs:296-300 | On a well-formed tail whose first chunk does not match, the walk writes that chunk's bytes and goes on at the next chunk |
| ChunkWalk.SetStepThrows | PngBinary.cs:274-300 | On a well-formed tail, the walk throws at the first chunk when it matches and there is no usable replacement, or when what it writes there does not fit the stream |
| ChunkWalk.SetWalkOfChunks | PngBinary.cs:270-301 | On a well-formed tail, `SetChunk`'s walk writes the chunk list with every match replaced when that fits the stream, and throws otherwise |
| ChunkWalk.SetWalkWithoutReplacement | PngBinary.cs:270-301 | With unusable arguments, the walk throws exactly when some chunk matches or the copy does not fit, and otherwise copies everything |
| ChunkWalk.SetResultOfChunks | PngBinary.cs:258-306 | On a well-formed buffer with usable arguments, `SetChunk` stores the signature and the replaced list, or throws when that outgrows the stream. With unusable arguments it throws when some chunk matches and otherwise leaves the buffer as it was |
| ChunkWalk.SetChunkWellFormed | PngBinary.cs:258-306 | With usable arguments, `SetChunk` succeeds exactly when the replaced list fits the stream, and then leaves a well-formed buffer with the same signature and every match replaced |
| ChunkWalk.SetChunkIdempotent | PngBinary.cs:258-306 | On a well-formed buffer and for any arguments, a second call with the same arguments after a successful one changes nothing |
| ChunkWalk.SetChunkChecksumMismatch | PngBinary.cs:279-289 | For gAMA with length 4 and data 389, the chunk `SetChunk` writes holds 00 00 01 85 with CRC 0x50604C73, while the correct CRC is 0x0FEC26A3, so its CRC does not match |
| ChunkWalk.GammaCrcs | PngBinary.cs:234-240 | The PNG CRCs of "gAMA" followed by 389 in big- and in little-endian order |
| ChunkWalk.SetStallThrows | PngBinary.cs:274-295 | At a matching chunk whose length field is -12 the cursor does not move, and since every lap writes the non-empty replacement again, the walk throws once the stream is full instead of looping for ever |
| ChunkWalk.SetStallExample | PngBinary.cs:258-306 | `SetChunk("gAMA", 4, 389)` on the signature followed by a gAMA header with length field -12 throws |
| ChunkWalk.RemoveLoopThrows | PngBinary.cs:185-199 | On a buffer whose empty IDAT chunk is followed by an sRGB chunk with length field -24, each lap of the walk copies the IDAT chunk and jumps back to it, so the walk throws once the stream is full |
| ChunkWalk.RemoveLoopExample | PngBinary.cs:173-203 | `RemoveChunk(sRGB)` on that buffer throws instead of looping for ever |
| PngBinary.Png.Load | PngBinary.cs:59-67 | Loading an existing file holds exactly its bytes |
| PngBinary.Png.Open | PngBinary.cs:141-148 | Opening yields a `Png` exactly when the file exists and starts with the PNG signature, and the object then holds the file's bytes |
| PngBinary.Png.HasValidPngHeader | PngBinary.cs:153-165 | Returns true exactly when the first eight bytes are the signature, false exactly when some byte among them differs, and throws exactly when the data is a proper prefix of the signature |
| PngBinary.Png.ReadChunkLength | PngBinary.cs:313-328 | Succeeds exactly when the four bytes at the offset lie in the buffer, and then returns the signed big-endian length field, whose bytes are those four |
| PngBinary.Png.ReadChunkType | PngBinary.cs:399-405 | Succeeds exactly when the type field at the offset lies in the buffer, and then returns the kind named by it |
| PngBinary.Png.RemoveChunk | PngBinary.cs:173-203 | On every buffer where the loop does not run for ever without writing: throws exactly when `RemoveResult` says so, leaving the buffer unchanged, and otherwise replaces the buffer with `RemoveResult`'s bytes |
| PngBinary.Png.RemovePass | PngBinary.cs:187-198 | One loop pass: throws where the walk throws, and otherwise the stream plus what it writes, then the walk from the next offset, is the same result |
| PngBinary.Png.CopyKeptChunk | PngBinary.cs:189-193 | The copying branch of the pass: throws where the walk throws, and otherwise writes exactly the chunk's bytes and leaves the same result to come |
| PngBinary.Png.InsertChunk | PngBinary.cs:205-256 | On every buffer where the loop does not run for ever: throws exactly when `InsertResult` says so, leaving the buffer unchanged, and otherwise replaces the buffer with `InsertResult`'s bytes |
| PngBinary.Png.InsertPass | PngBinary.cs:218-251 | One loop pass: throws where the walk throws, finishes with the walk's result after writing the new chunk and the rest, or copies an IHDR chunk and continues with the same result |
| PngBinary.Png.InsertedChunk | PngBinary.cs:227-243 | The bytes of the new chunk: length field, first four name bytes, big-endian data and the correct PNG CRC. They are absent exactly when the name has fewer than four bytes |
| PngBinary.Png.SetChunk | PngBinary.cs:258-306 | On every buffer where the loop does not run for ever without writing: throws exactly when `SetResult` says so, leaving the buffer unchanged, and otherwise replaces the buffer with `SetResult`'s bytes |
| PngBinary.Png.SetPass | PngBinary.cs:272-300 | One loop pass: throws where the walk throws, and otherwise the stream plus what it writes, then the walk from the next offset, is the same result |
| PngBinary.Png.CopyOtherChunk | PngBinary.cs:296-300 | The copying branch of the pass for a chunk that does not match: throws where the walk throws, and otherwise writes exactly the chunk's bytes and leaves the same result to come |
| PngBinary.Png.ReplacementChunk | PngBinary.cs:277-289 | The bytes `SetChunk` writes for a match, with the CRC over the little-endian data. They are absent exactly when the name is shorter than four bytes or `length` is outside 0..4 |
| Editor.GammaChunk | MainWindow.xaml.cs:149 | The gAMA chunk inserted by `InsertChunk("gAMA", 4, 389)` holds 00 00 01 85 and a correct CRC |
| Editor.InsertKeepsKinds | MainWindow.xaml.cs:148-149 | Inserting a chunk of another kind into a list without sRGB leaves a list without sRGB |
| Editor.RemoveColorSpaceInsertGamma | MainWindow.xaml.cs:148-149 | On a well-formed file with room for 16 more bytes, both edits succeed. The result is well formed, keeps the signature, holds no sRGB chunk, and is the old chunk list without sRGB with the gAMA chunk after the IHDR chunks |
| Editor.SaveWithGamma | MainWindow.xaml.cs:146-150 | Reopening a well-formed saved file succeeds exactly when it has the PNG signature, and the bytes written back are the chunk list without sRGB and with gAMA after IHDR |

## Left out

- PngBinary.Png.RemoveChunk, PngBinary.Png.InsertChunk, PngBinary.Png.SetChunk: they require that the walk does not hang, that is, that the loop does not come back to an offset without writing anything in between. On those inputs the source loops for ever. The methods state nothing there, and the walk functions say where it happens.
- Editor.SaveWithGamma: requires the saved file to be a well-formed PNG no larger than 2^31 - 17 bytes, as the OpenCV encoder writes it just before. The editors' behaviour on arbitrary bytes is stated by `PngBinary.Png.RemoveChunk` and `PngBinary.Png.InsertChunk`.
- PngBinary.Png.ReadChunkLength: requires the buffer to be shorter than 2^31 bytes, as every .NET array is.
- PngBinary.Png.ReadChunkType: its contract ties the result to `TypeAt` but does not list the names itself. `PngFormat.GetChunkIsTag` states which name gives which kind.
- PngBinary.Png.SetChunk: computes the matched kind and the replacement bytes once, before the loop, rather than at each match. Both depend only on the arguments. A failure to build the replacement still surfaces as a throw at the first match, so the outcome is the same.
- Encoding.AsciiBytes: maps each Unicode scalar value to one byte. How .NET's ASCII encoder treats the two UTF-16 halves of a character outside the Basic Multilingual Plane is not modelled.
- The host is assumed to be little-endian: `BitConverter.IsLittleEndian` is taken as true in `ReadChunkLength`, and `BitConverter.GetBytes` as least significant byte first.
- The stream limit is modelled as 2^31 - 1 bytes. The runtime's exact maximum array length, slightly lower, is not modelled.
- A `null` name for `InsertChunk` or `SetChunk` is not modelled: a Dafny `string` cannot be null. In the source, `Encoding.ASCII.GetBytes(null)` would throw wherever the walk needs the name's bytes, and `GetChunk(null)` gives `Unknown`. The only caller passes a literal.
- Exceptions are modelled as a `true`/`None` result. Their types and messages are not modelled.
- File I/O:
  - `File.Exists` and `File.ReadAllBytes` become the `Option` argument of `Png.Open`.
  - `Save` (`File.WriteAllBytes`) becomes the returned bytes of `Editor.SaveWithGamma`.
  - `Cv2.ImWrite`, which writes the file first, is not modelled.
- The `Console.WriteLine` calls in `InsertChunk` are left out; they only print.
- `ImageBinary(Image)`, `LoadFromImage` and `Png(Image)` are left out. They depend on System.Drawing, and `Png(Image)` always throws `NotImplementedException`.
- `Clone` is left out; it is a `MemberwiseClone`.
- `ImageBinary` is folded into class `Png`, since `Png` is its only subclass here.
- The commented-out loop in `ComputeChecksum` is left out; it is not compiled.
- `Global.Gamma`, `SourceImage` and `StrokeImage` are left out; they are UI state, not part of the chunk engine.
- The rest of MainWindow.xaml.cs (the drawing UI and OpenCV processing) is not part of this model.
