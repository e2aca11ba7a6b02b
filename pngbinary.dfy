/**
 * Class `Png` (with its base class `ImageBinary` folded in): the PNG image held as
 * the bytes of its file, the signature check made when a file is opened, the two
 * field readers, and the three chunk editors, each a loop that copies the buffer
 * chunk by chunk into a memory stream and then replaces the buffer with the stream.
 *
 * A thrown exception is a `true` result with the buffer unchanged, since the
 * editors assign the buffer only after their loop.
 */
module PngBinary {
  import opened Encoding
  import opened Crc
  import opened PngFormat
  import opened ChunkWalk

  class Png {
    /** `RawImageData`. */
    var rawImageData: seq<byte>

    /** What every `Png` holds once opened: the PNG signature, within the length of a .NET array. */
    ghost predicate Valid()
      reads this
    {
      PayloadOffset <= |rawImageData| < StreamLimit && rawImageData[..PayloadOffset] == Signature
    }

    /** `ImageBinary(string)` when the file exists: its bytes, as `File.ReadAllBytes` returns them. */
    constructor Load(contents: seq<byte>)
      requires |contents| < StreamLimit
      ensures rawImageData == contents
    {
      rawImageData := contents;
    }

    /** `new Png(filename)`: `None` for a missing file (the data check throws) and for
        contents that fail the signature check (by returning false or by reading past
        the end of a short file). */
    static method Open(file: Option<seq<byte>>) returns (png: Option<Png>)
      requires file.Some? ==> |file.value| < StreamLimit
      ensures png.Some? <==> file.Some? && PayloadOffset <= |file.value| && file.value[..PayloadOffset] == Signature
      ensures png.Some? ==> fresh(png.value) && png.value.Valid() && png.value.rawImageData == file.value
    {
      if file.None? {
        return None;
      }
      var p := new Png.Load(file.value);
      var hasHeader := p.HasValidPngHeader();
      if hasHeader != Some(true) {
        return None;
      }
      return Some(p);
    }

    /** Compares the first eight bytes with the signature: true when all match, false at
        the first mismatch, and an index error (`None`) when the data ends before either. */
    method HasValidPngHeader() returns (r: Option<bool>)
      ensures r == Some(true) <==> PayloadOffset <= |rawImageData| && rawImageData[..PayloadOffset] == Signature
      ensures r == None <==> |rawImageData| < PayloadOffset && rawImageData == Signature[..|rawImageData|]
      ensures r == Some(false) <==> exists i :: 0 <= i < PayloadOffset && i < |rawImageData| && rawImageData[i] != Signature[i]
    {
      var pngSignature := Signature;
      var i := 0;
      while i < PayloadOffset
        invariant 0 <= i <= PayloadOffset && i <= |rawImageData|
        invariant rawImageData[..i] == pngSignature[..i]
      {
        if i == |rawImageData| {
          assert rawImageData == rawImageData[..i];
          return None;
        }
        if pngSignature[i] != rawImageData[i] {
          return Some(false);
        }
        i := i + 1;
      }
      return Some(true);
    }

    /** The length field at `offset`: four bytes read one at a time and decoded most
        significant first (the little-endian host reverses them for `BitConverter`);
        `None` when a read falls outside the buffer. */
    method ReadChunkLength(offset: int32) returns (r: Option<int32>)
      requires |rawImageData| < StreamLimit
      ensures r.Some? <==> 0 <= offset && offset as int + LengthOfLengthField <= |rawImageData|
      ensures r.Some? ==> r.value == LengthAt(rawImageData, offset as int)
      ensures r.Some? ==> Int32Bytes(r.value) == rawImageData[offset..offset as int + LengthOfLengthField]
    {
      var chunkLength := new byte[LengthOfLengthField];
      var at := offset;
      var i := 0;
      while i < LengthOfLengthField
        invariant 0 <= i <= LengthOfLengthField
        invariant at as int == offset as int + i
        invariant i > 0 ==> 0 <= offset && offset as int + i <= |rawImageData|
        invariant i > 0 ==> chunkLength[..i] == rawImageData[offset..at]
      {
        if at < 0 || at as int >= |rawImageData| {
          return None;
        }
        chunkLength[i] := rawImageData[at];
        at := at + 1;
        i := i + 1;
      }
      assert chunkLength[..] == rawImageData[offset..offset as int + LengthOfLengthField];
      Int32RoundTrip(0, chunkLength[..]);
      return Some(Int32Of(chunkLength[..]));
    }

    /** The kind of the chunk at `offset`: its type field decoded as ASCII and looked up;
        `None` when the field lies outside the buffer. */
    function ReadChunkType(offset: int32): (r: Option<ChunkType>)
      reads this
      ensures r.Some? <==> 0 <= offset as int + LengthOfLengthField && offset as int + 8 <= |rawImageData|
      ensures r.Some? && 0 <= offset ==> r.value == TypeAt(rawImageData, offset as int)
    {
      if offset as int + LengthOfLengthField < 0 || offset as int + 8 > |rawImageData| then None
      else
        Some(GetChunk(AsciiString(rawImageData[offset as int + LengthOfLengthField..offset as int + 8])))
    }

    /** `RemoveChunk(k)`: copies every chunk whose kind is not `k`. */
    method RemoveChunk(chunkBeingRemoved: ChunkType) returns (thrown: bool)
      requires Valid() && RemoveResult(rawImageData, chunkBeingRemoved) != Hangs
      modifies this
      ensures Valid()
      ensures thrown <==> RemoveResult(old(rawImageData), chunkBeingRemoved).Throws?
      ensures thrown ==> rawImageData == old(rawImageData)
      ensures !thrown ==> rawImageData == RemoveResult(old(rawImageData), chunkBeingRemoved).output
    {
      ghost var raw := rawImageData;
      ghost var quiet: set<int> := {};
      ghost var result := RemoveResult(raw, chunkBeingRemoved);
      var offset: int32 := PayloadOffset as int32;
      var imageLength := |rawImageData|;
      var ms := rawImageData[..offset];
      while offset as int < imageLength
        invariant rawImageData == raw && imageLength == |raw|
        invariant PayloadOffset <= |ms| < StreamLimit && ms[..PayloadOffset] == raw[..PayloadOffset]
        invariant Then(ms, RemoveWalk(raw, chunkBeingRemoved, offset, Room(ms), quiet)) == result
        decreases Room(ms), AllOffsets(raw) - quiet
      {
        var next, written;
        thrown, next, written := RemovePass(chunkBeingRemoved, ms, offset, quiet);
        if thrown {
          return;
        }
        assert offset as int in AllOffsets(raw);
        quiet := After(quiet, offset as int, written);
        ms := ms + written;
        offset := next;
      }
      RemoveEnd(raw, chunkBeingRemoved, ms, offset, quiet);
      rawImageData := ms;
      thrown := false;
    }

    /** One pass of the loop of `RemoveChunk` at `offset`: the bytes it writes to the
        stream and where it goes next, or whether it throws. */
    method RemovePass(chunkBeingRemoved: ChunkType, ms: seq<byte>, offset: int32, ghost quiet: set<int>)
      returns (thrown: bool, next: int32, written: seq<byte>)
      requires |rawImageData| < StreamLimit && |ms| < StreamLimit && offset as int < |rawImageData|
      requires !Then(ms, RemoveWalk(rawImageData, chunkBeingRemoved, offset, Room(ms), quiet)).Hangs?
      ensures thrown ==> Then(ms, RemoveWalk(rawImageData, chunkBeingRemoved, offset, Room(ms), quiet)) == Throws
      ensures !thrown ==> 0 <= offset && offset as int !in quiet && |ms + written| < StreamLimit
      ensures !thrown ==>
        Then(ms + written, RemoveWalk(rawImageData, chunkBeingRemoved, next, Room(ms + written), After(quiet, offset as int, written)))
        == Then(ms, RemoveWalk(rawImageData, chunkBeingRemoved, offset, Room(ms), quiet))
    {
      var chunkDataLength := ReadChunkLength(offset);
      var chunkType := ReadChunkType(offset);
      if chunkDataLength.None? || chunkType.None? {
        RemoveHeaderThrows(rawImageData, chunkBeingRemoved, ms, offset, quiet);
        return true, offset, [];
      }
      var count := Add(MinimumChunkLength as int32, chunkDataLength.value);
      RemoveVisits(rawImageData, chunkBeingRemoved, ms, offset, quiet);
      if chunkType.value != chunkBeingRemoved {
        thrown, next, written := CopyKeptChunk(chunkBeingRemoved, ms, offset, quiet, count);
      } else {
        RemoveSkipStep(rawImageData, chunkBeingRemoved, ms, offset, quiet, count);
        return false, Add(offset, count), [];
      }
    }

    /** The branch of `RemovePass` for a chunk of `count` bytes whose kind is kept: the
        chunk is copied to the stream, or the copy throws. */
    method CopyKeptChunk(chunkBeingRemoved: ChunkType, ms: seq<byte>, offset: int32, ghost quiet: set<int>, count: int32)
      returns (thrown: bool, next: int32, written: seq<byte>)
      requires |rawImageData| < StreamLimit && |ms| < StreamLimit
      requires CanReadHeader(rawImageData, offset as int) && offset as int !in quiet
      requires TypeAt(rawImageData, offset as int) != chunkBeingRemoved
      requires count == Add(MinimumChunkLength as int32, LengthAt(rawImageData, offset as int))
      ensures thrown ==> Then(ms, RemoveWalk(rawImageData, chunkBeingRemoved, offset, Room(ms), quiet)) == Throws
      ensures !thrown ==> 0 <= offset <= next && next as int <= |rawImageData| && written == rawImageData[offset..next]
      ensures !thrown ==> |ms + written| < StreamLimit
      ensures !thrown ==>
        Then(ms + written, RemoveWalk(rawImageData, chunkBeingRemoved, next, Room(ms + written), After(quiet, offset as int, written)))
        == Then(ms, RemoveWalk(rawImageData, chunkBeingRemoved, offset, Room(ms), quiet))
    {
      if !CanCopy(rawImageData, offset as int, count as int) {
        RemoveCopyThrows(rawImageData, chunkBeingRemoved, ms, offset, quiet);
        return true, offset, [];
      }
      var chunk := rawImageData[offset..offset as int + count as int];
      RemoveCopyStep(rawImageData, chunkBeingRemoved, ms, offset, quiet, count, chunk);
      if |ms| + |chunk| >= StreamLimit {
        return true, offset, [];
      }
      return false, offset + count, chunk;
    }

    /** `InsertChunk(chunk, length, data)`: copies the leading IHDR chunks, then writes the
        new chunk and the rest of the buffer at the first chunk that is not IHDR. */
    method InsertChunk(g: Global, chunk: string, length: int32, data: int32) returns (thrown: bool)
      requires Valid() && g.Valid() && InsertResult(rawImageData, chunk, length, data) != Hangs
      modifies this
      ensures Valid()
      ensures thrown <==> InsertResult(old(rawImageData), chunk, length, data).Throws?
      ensures thrown ==> rawImageData == old(rawImageData)
      ensures !thrown ==> rawImageData == InsertResult(old(rawImageData), chunk, length, data).output
    {
      ghost var raw := rawImageData;
      ghost var unvisited := AllOffsets(raw);
      ghost var result := InsertResult(raw, chunk, length, data);
      ghost var inserted := InsertionFor(chunk, length, data);
      var offset: int32 := PayloadOffset as int32;
      var imageLength := |rawImageData|;
      var ms := rawImageData[..offset];
      while offset as int < imageLength
        invariant rawImageData == raw && imageLength == |raw|
        invariant PayloadOffset <= |ms| < StreamLimit && ms[..PayloadOffset] == raw[..PayloadOffset]
        invariant Stored(Then(ms, InsertWalk(raw, inserted, offset, unvisited))) == result
        decreases unvisited
      {
        var next, written, finished;
        thrown, next, written, finished := InsertPass(g, chunk, length, data, ms, offset, unvisited);
        if thrown {
          return;
        }
        ms := ms + written;
        if finished {
          rawImageData := ms;
          return;
        }
        unvisited := unvisited - {offset as int};
        offset := next;
      }
      InsertEnd(raw, inserted, ms, offset, unvisited);
      rawImageData := ms;
      thrown := false;
    }

    /** One pass of the loop of `InsertChunk` at `offset`: the bytes it writes to the stream,
        whether it has written the new chunk and so leaves the loop, and where it goes next. */
    method InsertPass(g: Global, chunk: string, length: int32, data: int32, ms: seq<byte>, offset: int32,
                      ghost unvisited: set<int>)
      returns (thrown: bool, next: int32, written: seq<byte>, finished: bool)
      requires g.Valid()
      requires |rawImageData| < StreamLimit && |ms| < StreamLimit && offset as int < |rawImageData|
      requires !Stored(Then(ms, InsertWalk(rawImageData, InsertionFor(chunk, length, data), offset, unvisited))).Hangs?
      ensures thrown ==>
        Stored(Then(ms, InsertWalk(rawImageData, InsertionFor(chunk, length, data), offset, unvisited))) == Throws
      ensures !thrown ==> |ms + written| < StreamLimit
      ensures !thrown && finished ==>
        Stored(Then(ms, InsertWalk(rawImageData, InsertionFor(chunk, length, data), offset, unvisited))) == Done(ms + written)
      ensures !thrown && !finished ==> offset as int in unvisited
      ensures !thrown && !finished ==>
        Stored(Then(ms + written, InsertWalk(rawImageData, InsertionFor(chunk, length, data), next, unvisited - {offset as int})))
        == Stored(Then(ms, InsertWalk(rawImageData, InsertionFor(chunk, length, data), offset, unvisited)))
    {
      ghost var inserted := InsertionFor(chunk, length, data);
      var chunkDataLength := ReadChunkLength(offset);
      var chunkType := ReadChunkType(offset);
      if chunkDataLength.None? || chunkType.None? {
        InsertHeaderThrows(rawImageData, inserted, ms, offset, unvisited);
        return true, offset, [], false;
      }
      InsertVisits(rawImageData, inserted, ms, offset, unvisited);
      if chunkType.value == ImageHeader {
        var count := Add(MinimumChunkLength as int32, chunkDataLength.value);
        if !CanCopy(rawImageData, offset as int, count as int) {
          InsertCopyThrows(rawImageData, inserted, ms, offset, unvisited);
          return true, offset, [], false;
        }
        var header := rawImageData[offset..offset as int + count as int];
        InsertCopyStep(rawImageData, inserted, ms, offset, unvisited, count);
        if |ms| + |header| >= StreamLimit {
          return true, offset, [], false;
        }
        return false, offset + count, header, false;
      }
      var newChunk := InsertedChunk(g, chunk, length, data);
      if newChunk.None? {
        InsertNameThrows(rawImageData, inserted, ms, offset, unvisited);
        return true, offset, [], false;
      }
      written := newChunk.value + rawImageData[offset..];
      InsertHere(rawImageData, newChunk.value, ms, offset, unvisited);
      if |ms| + |written| >= StreamLimit {
        return true, offset, [], false;
      }
      return false, offset, written, true;
    }

    /** The else branch of `InsertChunk`'s loop up to its writes: the length field, the
        first four bytes of the name, the data most significant byte first, and the CRC
        of name and data computed in two runs of `ComputeChecksum`; `None` when the name
        has fewer than four bytes to checksum. */
    static method InsertedChunk(g: Global, chunk: string, length: int32, data: int32) returns (r: Option<seq<byte>>)
      requires g.Valid()
      ensures r.None? <==> |chunk| < 4
      ensures r == InsertionFor(chunk, length, data)
    {
      var len := Int32Bytes(length);
      var chu := AsciiBytes(chunk);
      var dat := Int32Bytes(data);
      var crc := g.ComputeChecksum(0xFFFF_FFFF, chu, 4);
      if crc.None? {
        return None;
      }
      var crcOfData := g.ComputeChecksum(crc.value, dat, 4);
      var tag := chu[..4];
      assert crcOfData == Some(Crc.Crc(Crc.Crc(0xFFFF_FFFF, tag), dat));
      PngCrcOfParts(tag, dat);
      var ccrc := CrcBytes(crcOfData.value ^ 0xFFFF_FFFF);
      assert ccrc == CrcBytes(PngCrc(tag + dat));
      return Some(len + tag + dat + ccrc);
    }

    /** `SetChunk(chunk, length, data)`: replaces every chunk of kind `GetChunk(chunk)` with
        a chunk built from the arguments and copies the others. The kind and the bytes
        of the replacement depend only on the arguments, so they are computed once before
        the loop; a failure to build the replacement surfaces at the first match, where the
        source throws. */
    method SetChunk(g: Global, chunk: string, length: int32, data: int32) returns (thrown: bool)
      requires Valid() && g.Valid() && SetResult(rawImageData, chunk, length, data) != Hangs
      modifies this
      ensures Valid()
      ensures thrown <==> SetResult(old(rawImageData), chunk, length, data).Throws?
      ensures thrown ==> rawImageData == old(rawImageData)
      ensures !thrown ==> rawImageData == SetResult(old(rawImageData), chunk, length, data).output
    {
      ghost var raw := rawImageData;
      ghost var quiet: set<int> := {};
      ghost var result := SetResult(raw, chunk, length, data);
      var kind := GetChunk(chunk);
      var replacement := ReplacementChunk(g, chunk, length, data);
      var offset: int32 := PayloadOffset as int32;
      var imageLength := |rawImageData|;
      var ms := rawImageData[..offset];
      while offset as int < imageLength
        invariant rawImageData == raw && imageLength == |raw|
        invariant PayloadOffset <= |ms| < StreamLimit && ms[..PayloadOffset] == raw[..PayloadOffset]
        invariant Then(ms, SetWalk(raw, kind, replacement, offset, Room(ms), quiet)) == result
        decreases Room(ms), AllOffsets(raw) - quiet
      {
        var next, written;
        thrown, next, written := SetPass(kind, replacement, ms, offset, quiet);
        if thrown {
          return;
        }
        assert offset as int in AllOffsets(raw);
        quiet := After(quiet, offset as int, written);
        ms := ms + written;
        offset := next;
      }
      SetEnd(raw, kind, replacement, ms, offset, quiet);
      rawImageData := ms;
      thrown := false;
    }

    /** One pass of the loop of `SetChunk` at `offset`, for chunks of kind `kind` and the
        replacement bytes (`None` when building them throws): the bytes it writes to the
        stream and where it goes next, or whether it throws. */
    method SetPass(kind: ChunkType, replacement: Option<seq<byte>>, ms: seq<byte>, offset: int32, ghost quiet: set<int>)
      returns (thrown: bool, next: int32, written: seq<byte>)
      requires |rawImageData| < StreamLimit && |ms| < StreamLimit && offset as int < |rawImageData|
      requires !Then(ms, SetWalk(rawImageData, kind, replacement, offset, Room(ms), quiet)).Hangs?
      ensures thrown ==> Then(ms, SetWalk(rawImageData, kind, replacement, offset, Room(ms), quiet)) == Throws
      ensures !thrown ==> 0 <= offset && offset as int !in quiet && |ms + written| < StreamLimit
      ensures !thrown ==>
        Then(ms + written, SetWalk(rawImageData, kind, replacement, next, Room(ms + written), After(quiet, offset as int, written)))
        == Then(ms, SetWalk(rawImageData, kind, replacement, offset, Room(ms), quiet))
    {
      var chunkDataLength := ReadChunkLength(offset);
      var chunkType := ReadChunkType(offset);
      if chunkDataLength.None? || chunkType.None? {
        SetHeaderThrows(rawImageData, kind, replacement, ms, offset, quiet);
        return true, offset, [];
      }
      SetVisits(rawImageData, kind, replacement, ms, offset, quiet);
      var count := Add(MinimumChunkLength as int32, chunkDataLength.value);
      if chunkType.value == kind {
        if replacement.None? {
          SetReplaceThrows(rawImageData, kind, replacement, ms, offset, quiet);
          return true, offset, [];
        }
        SetReplaceStep(rawImageData, kind, replacement.value, ms, offset, quiet, count);
        if |ms| + |replacement.value| >= StreamLimit {
          return true, offset, [];
        }
        return false, Add(offset, count), replacement.value;
      }
      thrown, next, written := CopyOtherChunk(kind, replacement, ms, offset, quiet, count);
    }

    /** The branch of `SetPass` for a chunk of `count` bytes that does not match: the
        chunk is copied to the stream, or the copy throws. */
    method CopyOtherChunk(kind: ChunkType, replacement: Option<seq<byte>>, ms: seq<byte>, offset: int32, ghost quiet: set<int>,
                          count: int32)
      returns (thrown: bool, next: int32, written: seq<byte>)
      requires |rawImageData| < StreamLimit && |ms| < StreamLimit
      requires CanReadHeader(rawImageData, offset as int) && offset as int !in quiet
      requires TypeAt(rawImageData, offset as int) != kind
      requires count == Add(MinimumChunkLength as int32, LengthAt(rawImageData, offset as int))
      ensures thrown ==> Then(ms, SetWalk(rawImageData, kind, replacement, offset, Room(ms), quiet)) == Throws
      ensures !thrown ==> 0 <= offset <= next && next as int <= |rawImageData| && written == rawImageData[offset..next]
      ensures !thrown ==> |ms + written| < StreamLimit
      ensures !thrown ==>
        Then(ms + written, SetWalk(rawImageData, kind, replacement, next, Room(ms + written), After(quiet, offset as int, written)))
        == Then(ms, SetWalk(rawImageData, kind, replacement, offset, Room(ms), quiet))
    {
      if !CanCopy(rawImageData, offset as int, count as int) {
        SetCopyThrows(rawImageData, kind, replacement, ms, offset, quiet);
        return true, offset, [];
      }
      var other := rawImageData[offset..offset as int + count as int];
      SetCopyStep(rawImageData, kind, replacement, ms, offset, quiet, count, other);
      if |ms| + |other| >= StreamLimit {
        return true, offset, [];
      }
      return false, offset + count, other;
    }

    /** The bytes the matching branch of `SetChunk`'s loop writes: the length field, the
        first four bytes of the name, the first `length` bytes of the data most significant
        first, and the CRC of the name and of the data in host (little-endian) order, both
        checksummed in full; `None` when the name has fewer than four bytes or `length`
        is outside 0..4. */
    static method ReplacementChunk(g: Global, chunk: string, length: int32, data: int32) returns (r: Option<seq<byte>>)
      requires g.Valid()
      ensures r.None? <==> |chunk| < 4 || length < 0 || length > 4
      ensures r == ReplacementFor(chunk, length, data)
    {
      var len := Int32Bytes(length);
      var chu := AsciiBytes(chunk);
      var dat := LittleEndian(Unsigned(data));
      var crc := g.ComputeChecksum(0xFFFF_FFFF, chu, 4);
      if crc.None? {
        return None;
      }
      var crcOfData := g.ComputeChecksum(crc.value, dat, 4);
      var tag := chu[..4];
      assert crcOfData == Some(Crc.Crc(Crc.Crc(0xFFFF_FFFF, tag), dat));
      PngCrcOfParts(tag, dat);
      var ccrc := CrcBytes(crcOfData.value ^ 0xFFFF_FFFF);
      assert ccrc == CrcBytes(PngCrc(tag + dat));
      var reversed := [dat[3], dat[2], dat[1], dat[0]];
      LittleEndianIsReversed(Unsigned(data));
      assert reversed == Int32Bytes(data);
      if length < 0 || length > 4 {
        return None;
      }
      return Some(len + tag + reversed[..length] + ccrc);
    }
  }
}
