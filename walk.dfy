/**
 * The chunk walks of `RemoveChunk`, `InsertChunk` and `SetChunk`, stated as
 * functions of the buffer. Each walk starts after the signature and reads the
 * length and type fields at the cursor until the cursor reaches the end of the
 * buffer. It stops with `Throws` where the .NET code raises an exception, and
 * with `Hangs` where the cursor comes back to an offset without having written
 * anything since it was last there, after which the source repeats the same
 * steps for ever. A cycle that writes is followed lap by lap until the stream
 * outgrows its limit and throws, as the source does. The lemmas at the end
 * show that on a well-formed buffer each walk does what the list-level operation
 * of module `PngFormat` says.
 */
module ChunkWalk {
  import opened Encoding
  import opened Crc
  import opened PngFormat

  /** C# `int` addition, which wraps modulo 2^32 in an unchecked context. */
  function Add(a: int32, b: int32): (r: int32)
    ensures -0x8000_0000 <= a as int + b as int < 0x8000_0000 ==> r as int == a as int + b as int
    ensures r as int == a as int + b as int
         || r as int == a as int + b as int - 0x1_0000_0000
         || r as int == a as int + b as int + 0x1_0000_0000
  {
    var sum := a as int + b as int;
    if sum >= 0x8000_0000 then (sum - 0x1_0000_0000) as int32
    else if sum < -0x8000_0000 then (sum + 0x1_0000_0000) as int32
    else sum as int32
  }

  /** The largest number of bytes a `MemoryStream` (and a .NET byte array) can hold, plus one. */
  const StreamLimit: int := 0x8000_0000

  /** How a walk ends. */
  datatype Outcome = Done(output: seq<byte>) | Throws | Hangs

  /** Bytes written before the rest of the walk. */
  function Then(written: seq<byte>, rest: Outcome): (o: Outcome)
    ensures o.Done? <==> rest.Done?
    ensures o.Done? ==> o.output == written + rest.output
    ensures o.Hangs? <==> rest.Hangs?
  {
    if rest.Done? then Done(written + rest.output) else rest
  }

  /** `ms.ToArray()`: a stream that outgrew its limit threw when it was written. */
  function Stored(o: Outcome): (r: Outcome)
    ensures r.Done? <==> o.Done? && |o.output| < StreamLimit
    ensures r.Done? ==> r.output == o.output
    ensures r.Hangs? <==> o.Hangs?
  {
    if o.Done? && |o.output| >= StreamLimit then Throws else o
  }

  /** Writing `a` and then `b` before a walk is writing `a + b`. */
  lemma ThenThen(a: seq<byte>, b: seq<byte>, o: Outcome)
    ensures Then(a, Then(b, o)) == Then(a + b, o)
  {
    if o.Done? {
      assert a + (b + o.output) == a + b + o.output;
    }
  }

  /** A write that takes the stream past its limit throws, whatever the walk does next,
      unless it never ends. */
  lemma StoredOverflow(ms: seq<byte>, w: seq<byte>, o: Outcome)
    requires |ms| + |w| >= StreamLimit && !o.Hangs?
    ensures Stored(Then(ms, Then(w, o))) == Throws
  {
  }

  /** Every offset inside the buffer: the ones a walk has not visited yet when it starts. */
  function AllOffsets(raw: seq<byte>): (r: set<int>)
    ensures forall i :: i in r <==> 0 <= i < |raw|
  {
    Range(|raw|)
  }

  function Range(n: nat): (r: set<int>)
    ensures forall i :: i in r <==> 0 <= i < n
  {
    if n == 0 then {} else Range(n - 1) + {n - 1}
  }

  /** The cursor can read a length field and a type field, as `ReadChunkLength` and
      `ReadChunkType` need. */
  predicate CanReadHeader(raw: seq<byte>, off: int)
  {
    0 <= off && off + LengthOfLengthField + LengthOfTypeField <= |raw|
  }

  /** `MemoryStream.Write(RawImageData, off, count)` does not throw. */
  predicate CanCopy(raw: seq<byte>, off: int, count: int)
  {
    0 <= off && 0 <= count && off + count <= |raw|
  }


  /** How many more bytes a stream holding `ms` can take: `MemoryStream.Write` throws
      once the stream would grow past 2^31 - 1 bytes. */
  function Room(ms: seq<byte>): nat
    requires |ms| < StreamLimit
  {
    StreamLimit - 1 - |ms|
  }

  /** The offsets visited since the stream last grew, once the walk has visited `off`
      and written `w` there. */
  function After(quiet: set<int>, off: int, w: seq<byte>): set<int>
  {
    if w == [] then quiet + {off} else {}
  }

  // ---------------------------------------------------------------------------
  // RemoveChunk

  /** The walk of `RemoveChunk(k)` from the cursor at `off`. `room` is how many bytes
      the stream can still take, and `quiet` the offsets visited since it last grew:
      coming back to one of those means the source loops for ever without writing. A
      cycle that writes is followed lap by lap until the stream overflows and throws. */
  function RemoveWalk(raw: seq<byte>, k: ChunkType, off: int32, room: nat, quiet: set<int>): (o: Outcome)
    requires |raw| < StreamLimit
    ensures o.Done? ==> |o.output| <= room
    decreases room, AllOffsets(raw) - quiet
  {
    if off as int >= |raw| then Done([])
    else if !CanReadHeader(raw, off as int) then Throws
    else if off as int in quiet then Hangs
    else
      var count := Add(MinimumChunkLength as int32, LengthAt(raw, off as int));
      if TypeAt(raw, off as int) != k then
        if !CanCopy(raw, off as int, count as int) || count as int > room then Throws
        else
          var w := raw[off..off as int + count as int];
          Then(w, RemoveWalk(raw, k, (off as int + count as int) as int32, room - |w|, After(quiet, off as int, w)))
      else RemoveWalk(raw, k, Add(off, count), room, quiet + {off as int})
  }

  /** A walk that has not hung has not come back to an offset without writing in between. */
  lemma RemoveVisits(raw: seq<byte>, k: ChunkType, ms: seq<byte>, off: int32, quiet: set<int>)
    requires |raw| < StreamLimit && |ms| < StreamLimit && CanReadHeader(raw, off as int)
    requires !Then(ms, RemoveWalk(raw, k, off, Room(ms), quiet)).Hangs?
    ensures off as int !in quiet
  {
  }

  /** `RemoveChunk` at the end of the buffer: the stream holds the result. */
  lemma RemoveEnd(raw: seq<byte>, k: ChunkType, ms: seq<byte>, off: int32, quiet: set<int>)
    requires |raw| < StreamLimit && |ms| < StreamLimit && off as int >= |raw|
    ensures Then(ms, RemoveWalk(raw, k, off, Room(ms), quiet)) == Done(ms)
  {
    assert ms + [] == ms;
  }

  /** `RemoveChunk` throws where the length and type fields cannot be read. */
  lemma RemoveHeaderThrows(raw: seq<byte>, k: ChunkType, ms: seq<byte>, off: int32, quiet: set<int>)
    requires |raw| < StreamLimit && |ms| < StreamLimit && off as int < |raw| && !CanReadHeader(raw, off as int)
    ensures Then(ms, RemoveWalk(raw, k, off, Room(ms), quiet)) == Throws
  {
  }

  /** `RemoveChunk` throws where a chunk it keeps runs past the buffer. */
  lemma RemoveCopyThrows(raw: seq<byte>, k: ChunkType, ms: seq<byte>, off: int32, quiet: set<int>)
    requires |raw| < StreamLimit && |ms| < StreamLimit && CanReadHeader(raw, off as int) && off as int !in quiet
    requires TypeAt(raw, off as int) != k
    requires !CanCopy(raw, off as int, Add(MinimumChunkLength as int32, LengthAt(raw, off as int)) as int)
    ensures Then(ms, RemoveWalk(raw, k, off, Room(ms), quiet)) == Throws
  {
  }

  /** The loop body of `RemoveChunk` on a chunk of `count` bytes that it keeps: the
      bytes move from the walk into the stream, and a copy that outgrows the stream throws. */
  lemma RemoveCopyStep(raw: seq<byte>, k: ChunkType, ms: seq<byte>, off: int32, quiet: set<int>, count: int32, w: seq<byte>)
    requires |raw| < StreamLimit && |ms| < StreamLimit && CanReadHeader(raw, off as int) && off as int !in quiet
    requires TypeAt(raw, off as int) != k
    requires count == Add(MinimumChunkLength as int32, LengthAt(raw, off as int))
    requires CanCopy(raw, off as int, count as int) && w == raw[off..off as int + count as int]
    ensures off as int + count as int < 0x8000_0000 && |w| == count as int
    ensures |ms| + |w| >= StreamLimit ==> Then(ms, RemoveWalk(raw, k, off, Room(ms), quiet)) == Throws
    ensures |ms| + |w| < StreamLimit ==>
      Then(ms + w, RemoveWalk(raw, k, off + count, Room(ms + w), After(quiet, off as int, w)))
      == Then(ms, RemoveWalk(raw, k, off, Room(ms), quiet))
  {
    if |ms| + |w| < StreamLimit {
      RemoveCopyThen(raw, k, off, Room(ms), quiet, w, off + count, Room(ms + w));
      ThenThen(ms, w, RemoveWalk(raw, k, off + count, Room(ms + w), After(quiet, off as int, w)));
    }
  }

  /** `RemoveWalk` at a chunk it keeps and that fits in `room`, whatever its size. */
  lemma RemoveCopyThen(raw: seq<byte>, k: ChunkType, off: int32, room: nat, quiet: set<int>, w: seq<byte>, next: int32, left: nat)
    requires |raw| < StreamLimit && CanReadHeader(raw, off as int) && off as int !in quiet && TypeAt(raw, off as int) != k
    requires var count := Add(MinimumChunkLength as int32, LengthAt(raw, off as int));
      CanCopy(raw, off as int, count as int) && w == raw[off..off as int + count as int]
      && next as int == off as int + count as int
    requires |w| <= room && left == room - |w|
    ensures RemoveWalk(raw, k, off, room, quiet) == Then(w, RemoveWalk(raw, k, next, left, After(quiet, off as int, w)))
  {
    if w == [] {
      RemoveEmptyCopyUnfold(raw, k, off, room, quiet, next, quiet + {off as int});
    } else {
      RemoveCopyUnfold(raw, k, off, room, quiet, w, next, left);
    }
  }

  lemma RemoveEmptyCopyUnfold(raw: seq<byte>, k: ChunkType, off: int32, room: nat, quiet: set<int>, next: int32, seen: set<int>)
    requires |raw| < StreamLimit && CanReadHeader(raw, off as int) && off as int !in quiet && TypeAt(raw, off as int) != k
    requires Add(MinimumChunkLength as int32, LengthAt(raw, off as int)) == 0 && next == off
    requires seen == quiet + {off as int}
    ensures RemoveWalk(raw, k, off, room, quiet) == Then([], RemoveWalk(raw, k, next, room, seen))
  {
  }

  /** The loop body of `RemoveChunk` on a chunk of `count` bytes that it drops: the walk
      goes on past it and writes nothing. */
  lemma RemoveSkipStep(raw: seq<byte>, k: ChunkType, ms: seq<byte>, off: int32, quiet: set<int>, count: int32)
    requires |raw| < StreamLimit && |ms| < StreamLimit && CanReadHeader(raw, off as int) && off as int !in quiet
    requires TypeAt(raw, off as int) == k
    requires count == Add(MinimumChunkLength as int32, LengthAt(raw, off as int))
    ensures Then(ms + [], RemoveWalk(raw, k, Add(off, count), Room(ms + []), After(quiet, off as int, [])))
         == Then(ms, RemoveWalk(raw, k, off, Room(ms), quiet))
  {
    assert ms + [] == ms;
  }

  /** What `RemoveChunk(k)` leaves in the buffer, or how it fails. */
  function RemoveResult(raw: seq<byte>, k: ChunkType): (r: Outcome)
    requires PayloadOffset <= |raw| < StreamLimit
    ensures r.Done? ==> PayloadOffset <= |r.output| < StreamLimit && r.output[..PayloadOffset] == raw[..PayloadOffset]
  {
    Then(raw[..PayloadOffset], RemoveWalk(raw, k, PayloadOffset as int32, Room(raw[..PayloadOffset]), {}))
  }

  // ---------------------------------------------------------------------------
  // InsertChunk

  /** The 16 bytes `InsertChunk` writes: the caller's length, the first four bytes of
      the type name, four big-endian data bytes and the CRC of type and data. */
  function InsertedBytes(tag: seq<byte>, length: int32, data: int32): (b: seq<byte>)
    requires |tag| == 4
    ensures |b| == 16
  {
    Int32Bytes(length) + tag + Int32Bytes(data) + CrcBytes(PngCrc(tag + Int32Bytes(data)))
  }

  /** What `InsertChunk(chunk, length, data)` writes at the first chunk that is not an
      IHDR chunk, or `None` when it throws there: the checksum reads four bytes of the
      name. The bytes depend only on the arguments, so they are computed once. */
  function InsertionFor(chunk: string, length: int32, data: int32): Option<seq<byte>>
  {
    if |AsciiBytes(chunk)| < 4 then None else Some(InsertedBytes(AsciiBytes(chunk)[..4], length, data))
  }

  /** The walk of `InsertChunk` from the cursor at `off`, writing `inserted` at the first
      chunk that is not IHDR (`None` when building it throws); `unvisited` holds the
      offsets the cursor has not been at. It copies at most the rest of the buffer and
      the new chunk. */
  function InsertWalk(raw: seq<byte>, inserted: Option<seq<byte>>, off: int32, unvisited: set<int>): (o: Outcome)
    requires |raw| < StreamLimit
    ensures o.Done? && 0 <= off as int <= |raw| ==>
              |o.output| <= |raw| - off as int + (if inserted.Some? then |inserted.value| else 0)
    decreases unvisited
  {
    if off as int >= |raw| then Done([])
    else if !CanReadHeader(raw, off as int) then Throws
    else if off as int !in unvisited then Hangs
    else if TypeAt(raw, off as int) == ImageHeader then
      var count := Add(MinimumChunkLength as int32, LengthAt(raw, off as int));
      if !CanCopy(raw, off as int, count as int) then Throws
      else Then(raw[off..off as int + count as int],
                InsertWalk(raw, inserted, (off as int + count as int) as int32, unvisited - {off as int}))
    else if inserted.None? then Throws
    else Done(inserted.value + raw[off..])
  }

  /** What `InsertChunk(chunk, length, data)` leaves in the buffer, or how it fails. */
  function InsertResult(raw: seq<byte>, chunk: string, length: int32, data: int32): (r: Outcome)
    requires PayloadOffset <= |raw| < StreamLimit
    ensures r.Done? ==> PayloadOffset <= |r.output| < StreamLimit && r.output[..PayloadOffset] == raw[..PayloadOffset]
  {
    Stored(Then(raw[..PayloadOffset],
                InsertWalk(raw, InsertionFor(chunk, length, data), PayloadOffset as int32, AllOffsets(raw))))
  }

  /** `InsertChunk` at the end of the buffer, having met only IHDR chunks: the stream
      holds the result. */
  lemma InsertEnd(raw: seq<byte>, inserted: Option<seq<byte>>, ms: seq<byte>, off: int32, unvisited: set<int>)
    requires |raw| < StreamLimit && |ms| < StreamLimit && off as int >= |raw|
    ensures Stored(Then(ms, InsertWalk(raw, inserted, off, unvisited))) == Done(ms)
  {
    assert ms + [] == ms;
  }

  /** `InsertChunk` throws where the length and type fields cannot be read. */
  lemma InsertHeaderThrows(raw: seq<byte>, inserted: Option<seq<byte>>, ms: seq<byte>, off: int32, unvisited: set<int>)
    requires |raw| < StreamLimit && off as int < |raw| && !CanReadHeader(raw, off as int)
    ensures Stored(Then(ms, InsertWalk(raw, inserted, off, unvisited))) == Throws
  {
  }

  /** A walk that has not hung has not come back to an offset it already passed. */
  lemma InsertVisits(raw: seq<byte>, inserted: Option<seq<byte>>, ms: seq<byte>, off: int32, unvisited: set<int>)
    requires |raw| < StreamLimit && CanReadHeader(raw, off as int)
    requires !Stored(Then(ms, InsertWalk(raw, inserted, off, unvisited))).Hangs?
    ensures off as int in unvisited
  {
  }

  /** `InsertChunk` throws where an IHDR chunk runs past the buffer. */
  lemma InsertCopyThrows(raw: seq<byte>, inserted: Option<seq<byte>>, ms: seq<byte>, off: int32, unvisited: set<int>)
    requires |raw| < StreamLimit && CanReadHeader(raw, off as int) && off as int in unvisited
    requires TypeAt(raw, off as int) == ImageHeader
    requires !CanCopy(raw, off as int, Add(MinimumChunkLength as int32, LengthAt(raw, off as int)) as int)
    ensures Stored(Then(ms, InsertWalk(raw, inserted, off, unvisited))) == Throws
  {
  }

  /** The loop body of `InsertChunk` on an IHDR chunk of `count` bytes: the bytes move from
      the walk into the stream, and a copy that outgrows the stream throws. */
  lemma InsertCopyStep(raw: seq<byte>, inserted: Option<seq<byte>>, ms: seq<byte>, off: int32, unvisited: set<int>, count: int32)
    requires |raw| < StreamLimit && CanReadHeader(raw, off as int) && off as int in unvisited
    requires TypeAt(raw, off as int) == ImageHeader
    requires count == Add(MinimumChunkLength as int32, LengthAt(raw, off as int))
    requires CanCopy(raw, off as int, count as int)
    requires !Stored(Then(ms, InsertWalk(raw, inserted, off, unvisited))).Hangs?
    ensures off as int + count as int < 0x8000_0000
    ensures |ms| + count as int >= StreamLimit ==> Stored(Then(ms, InsertWalk(raw, inserted, off, unvisited))) == Throws
    ensures |ms| + count as int < StreamLimit ==>
      Stored(Then(ms + raw[off..off as int + count as int], InsertWalk(raw, inserted, off + count, unvisited - {off as int})))
      == Stored(Then(ms, InsertWalk(raw, inserted, off, unvisited)))
  {
    var chunk := raw[off..off as int + count as int];
    var rest := InsertWalk(raw, inserted, off + count, unvisited - {off as int});
    ThenThen(ms, chunk, rest);
    if |ms| + |chunk| >= StreamLimit {
      StoredOverflow(ms, chunk, rest);
    }
  }

  /** `InsertChunk` throws at the first chunk that is not IHDR when it cannot checksum
      four bytes of the name. */
  lemma InsertNameThrows(raw: seq<byte>, inserted: Option<seq<byte>>, ms: seq<byte>, off: int32, unvisited: set<int>)
    requires |raw| < StreamLimit && CanReadHeader(raw, off as int) && off as int in unvisited
    requires TypeAt(raw, off as int) != ImageHeader && inserted.None?
    ensures Stored(Then(ms, InsertWalk(raw, inserted, off, unvisited))) == Throws
  {
  }

  /** `InsertChunk` at the first chunk that is not IHDR: the new chunk and the rest of the
      buffer go into the stream, which throws if they take it past its limit. */
  lemma InsertHere(raw: seq<byte>, w: seq<byte>, ms: seq<byte>, off: int32, unvisited: set<int>)
    requires |raw| < StreamLimit && CanReadHeader(raw, off as int) && off as int in unvisited
    requires TypeAt(raw, off as int) != ImageHeader
    ensures |ms| + |w + raw[off..]| >= StreamLimit ==> Stored(Then(ms, InsertWalk(raw, Some(w), off, unvisited))) == Throws
    ensures |ms| + |w + raw[off..]| < StreamLimit ==> Stored(Then(ms, InsertWalk(raw, Some(w), off, unvisited))) == Done(ms + (w + raw[off..]))
  {
  }

  // ---------------------------------------------------------------------------
  // SetChunk

  /** `SetChunk`'s arguments pass the checks made when a chunk matches: the name has
      four bytes to checksum and write, and `length` data bytes can be taken from four. */
  predicate SetArgumentsOk(chunk: string, length: int32)
  {
    |AsciiBytes(chunk)| >= 4 && 0 <= length <= 4
  }

  /** The chunk `SetChunk` writes for each match: the caller's length, the type name,
      the first `length` big-endian bytes of `data`, and a CRC computed over the type
      name and the little-endian bytes of `data`. */
  function Replacement(chunk: string, length: int32, data: int32): (c: Chunk)
    requires SetArgumentsOk(chunk, length)
    ensures ValidChunk(c) && |c.data| == length as int
  {
    var tag := AsciiBytes(chunk)[..4];
    Chunk(tag, Int32Bytes(data)[..length], CrcBytes(PngCrc(tag + LittleEndian(Unsigned(data)))))
  }

  /** What `SetChunk(chunk, length, data)` writes for each matching chunk, or `None`
      when it throws there. */
  function ReplacementFor(chunk: string, length: int32, data: int32): Option<seq<byte>>
  {
    if SetArgumentsOk(chunk, length) then Some(Bytes(Replacement(chunk, length, data))) else None
  }

  /** The walk of `SetChunk` from the cursor at `off`, for chunks of kind `k` and the bytes
      written for each of them (`None` when building them throws); `room` and `quiet` are
      as for `RemoveWalk`. */
  function SetWalk(raw: seq<byte>, k: ChunkType, replacement: Option<seq<byte>>, off: int32, room: nat, quiet: set<int>): (o: Outcome)
    requires |raw| < StreamLimit
    ensures o.Done? ==> |o.output| <= room
    decreases room, AllOffsets(raw) - quiet
  {
    if off as int >= |raw| then Done([])
    else if !CanReadHeader(raw, off as int) then Throws
    else if off as int in quiet then Hangs
    else
      var count := Add(MinimumChunkLength as int32, LengthAt(raw, off as int));
      if TypeAt(raw, off as int) == k then
        if replacement.None? || |replacement.value| > room then Throws
        else
          var w := replacement.value;
          Then(w, SetWalk(raw, k, replacement, Add(off, count), room - |w|, After(quiet, off as int, w)))
      else if !CanCopy(raw, off as int, count as int) || count as int > room then Throws
      else
        var w := raw[off..off as int + count as int];
        Then(w, SetWalk(raw, k, replacement, (off as int + count as int) as int32, room - |w|, After(quiet, off as int, w)))
  }

  /** What `SetChunk(chunk, length, data)` leaves in the buffer, or how it fails. Chunks
      match when their kind is `GetChunk(chunk)`. */
  function SetResult(raw: seq<byte>, chunk: string, length: int32, data: int32): (r: Outcome)
    requires PayloadOffset <= |raw| < StreamLimit
    ensures r.Done? ==> PayloadOffset <= |r.output| < StreamLimit && r.output[..PayloadOffset] == raw[..PayloadOffset]
  {
    Then(raw[..PayloadOffset],
         SetWalk(raw, GetChunk(chunk), ReplacementFor(chunk, length, data), PayloadOffset as int32,
                 Room(raw[..PayloadOffset]), {}))
  }

  /** `SetChunk` at the end of the buffer: the stream holds the result. */
  lemma SetEnd(raw: seq<byte>, k: ChunkType, replacement: Option<seq<byte>>, ms: seq<byte>, off: int32, quiet: set<int>)
    requires |raw| < StreamLimit && |ms| < StreamLimit && off as int >= |raw|
    ensures Then(ms, SetWalk(raw, k, replacement, off, Room(ms), quiet)) == Done(ms)
  {
    assert ms + [] == ms;
  }

  /** `SetChunk` throws where the length and type fields cannot be read. */
  lemma SetHeaderThrows(raw: seq<byte>, k: ChunkType, replacement: Option<seq<byte>>, ms: seq<byte>, off: int32, quiet: set<int>)
    requires |raw| < StreamLimit && |ms| < StreamLimit && off as int < |raw| && !CanReadHeader(raw, off as int)
    ensures Then(ms, SetWalk(raw, k, replacement, off, Room(ms), quiet)) == Throws
  {
  }

  /** A walk that has not hung has not come back to an offset without writing in between. */
  lemma SetVisits(raw: seq<byte>, k: ChunkType, replacement: Option<seq<byte>>, ms: seq<byte>, off: int32, quiet: set<int>)
    requires |raw| < StreamLimit && |ms| < StreamLimit && CanReadHeader(raw, off as int)
    requires !Then(ms, SetWalk(raw, k, replacement, off, Room(ms), quiet)).Hangs?
    ensures off as int !in quiet
  {
  }

  /** `SetChunk` throws where a chunk it keeps runs past the buffer. */
  lemma SetCopyThrows(raw: seq<byte>, k: ChunkType, replacement: Option<seq<byte>>, ms: seq<byte>, off: int32, quiet: set<int>)
    requires |raw| < StreamLimit && |ms| < StreamLimit && CanReadHeader(raw, off as int) && off as int !in quiet
    requires TypeAt(raw, off as int) != k
    requires !CanCopy(raw, off as int, Add(MinimumChunkLength as int32, LengthAt(raw, off as int)) as int)
    ensures Then(ms, SetWalk(raw, k, replacement, off, Room(ms), quiet)) == Throws
  {
  }

  /** The loop body of `SetChunk` on a chunk of `count` bytes that does not match: the
      bytes move from the walk into the stream, and a copy that outgrows the stream throws. */
  lemma SetCopyStep(raw: seq<byte>, k: ChunkType, replacement: Option<seq<byte>>, ms: seq<byte>, off: int32,
                    quiet: set<int>, count: int32, w: seq<byte>)
    requires |raw| < StreamLimit && |ms| < StreamLimit && CanReadHeader(raw, off as int) && off as int !in quiet
    requires TypeAt(raw, off as int) != k
    requires count == Add(MinimumChunkLength as int32, LengthAt(raw, off as int))
    requires CanCopy(raw, off as int, count as int) && w == raw[off..off as int + count as int]
    ensures off as int + count as int < 0x8000_0000 && |w| == count as int
    ensures |ms| + |w| >= StreamLimit ==> Then(ms, SetWalk(raw, k, replacement, off, Room(ms), quiet)) == Throws
    ensures |ms| + |w| < StreamLimit ==>
      Then(ms + w, SetWalk(raw, k, replacement, off + count, Room(ms + w), After(quiet, off as int, w)))
      == Then(ms, SetWalk(raw, k, replacement, off, Room(ms), quiet))
  {
    if |ms| + |w| < StreamLimit {
      SetCopyThen(raw, k, replacement, off, Room(ms), quiet, w, off + count, Room(ms + w));
      ThenThen(ms, w, SetWalk(raw, k, replacement, off + count, Room(ms + w), After(quiet, off as int, w)));
    }
  }

  /** `SetWalk` at a chunk it keeps and that fits in `room`, whatever its size. */
  lemma SetCopyThen(raw: seq<byte>, k: ChunkType, replacement: Option<seq<byte>>, off: int32, room: nat, quiet: set<int>,
                    w: seq<byte>, next: int32, left: nat)
    requires |raw| < StreamLimit && CanReadHeader(raw, off as int) && off as int !in quiet && TypeAt(raw, off as int) != k
    requires var count := Add(MinimumChunkLength as int32, LengthAt(raw, off as int));
      CanCopy(raw, off as int, count as int) && w == raw[off..off as int + count as int]
      && next as int == off as int + count as int
    requires |w| <= room && left == room - |w|
    ensures SetWalk(raw, k, replacement, off, room, quiet)
            == Then(w, SetWalk(raw, k, replacement, next, left, After(quiet, off as int, w)))
  {
    if w == [] {
      SetEmptyCopyUnfold(raw, k, replacement, off, room, quiet, next, quiet + {off as int});
    } else {
      SetCopyUnfold(raw, k, replacement, off, room, quiet, w, next, left);
    }
  }

  lemma SetEmptyCopyUnfold(raw: seq<byte>, k: ChunkType, replacement: Option<seq<byte>>, off: int32, room: nat,
                           quiet: set<int>, next: int32, seen: set<int>)
    requires |raw| < StreamLimit && CanReadHeader(raw, off as int) && off as int !in quiet && TypeAt(raw, off as int) != k
    requires Add(MinimumChunkLength as int32, LengthAt(raw, off as int)) == 0 && next == off
    requires seen == quiet + {off as int}
    ensures SetWalk(raw, k, replacement, off, room, quiet) == Then([], SetWalk(raw, k, replacement, next, room, seen))
  {
  }

  /** `SetChunk` throws at a matching chunk when its arguments fail the checks. */
  lemma SetReplaceThrows(raw: seq<byte>, k: ChunkType, replacement: Option<seq<byte>>, ms: seq<byte>, off: int32, quiet: set<int>)
    requires |raw| < StreamLimit && |ms| < StreamLimit && CanReadHeader(raw, off as int) && off as int !in quiet
    requires TypeAt(raw, off as int) == k && replacement.None?
    ensures Then(ms, SetWalk(raw, k, replacement, off, Room(ms), quiet)) == Throws
  {
  }

  /** The loop body of `SetChunk` on a matching chunk of `count` bytes: the replacement goes
      into the stream, which throws if it outgrows its limit, and the walk skips the chunk. */
  lemma SetReplaceStep(raw: seq<byte>, k: ChunkType, w: seq<byte>, ms: seq<byte>, off: int32, quiet: set<int>, count: int32)
    requires |raw| < StreamLimit && |ms| < StreamLimit && CanReadHeader(raw, off as int) && off as int !in quiet
    requires TypeAt(raw, off as int) == k
    requires count == Add(MinimumChunkLength as int32, LengthAt(raw, off as int))
    ensures |ms| + |w| >= StreamLimit ==> Then(ms, SetWalk(raw, k, Some(w), off, Room(ms), quiet)) == Throws
    ensures |ms| + |w| < StreamLimit ==>
      Then(ms + w, SetWalk(raw, k, Some(w), Add(off, count), Room(ms + w), After(quiet, off as int, w)))
      == Then(ms, SetWalk(raw, k, Some(w), off, Room(ms), quiet))
  {
    if |ms| + |w| < StreamLimit {
      ThenThen(ms, w, SetWalk(raw, k, Some(w), Add(off, count), Room(ms + w), After(quiet, off as int, w)));
    }
  }

  // ---------------------------------------------------------------------------
  // The walks on well-formed buffers

  /** One step of a walk over a well-formed tail: the cursor can read the fields, the
      span it copies is the first chunk's bytes, and it lands on the next chunk. */
  lemma WalkStep(raw: seq<byte>, off: int32)
    requires |raw| < StreamLimit && 0 <= off as int < |raw| && ParseFrom(raw, off as int).Some?
    ensures var cs, count := ParseFrom(raw, off as int).value, Add(MinimumChunkLength as int32, LengthAt(raw, off as int));
      && cs != [] && AllValid(cs) && CanReadHeader(raw, off as int)
      && count as int == |Bytes(cs[0])| && CanCopy(raw, off as int, count as int)
      && Add(off, count) as int == off as int + count as int
      && raw[off..off as int + count as int] == Bytes(cs[0])
      && cs[0].tag == raw[off as int + 4..off as int + 8]
      && ParseFrom(raw, off as int + count as int) == Some(cs[1..])
  {
    ParseFromFirst(raw, off as int);
    ParseFromSerializes(raw, off as int);
  }

  lemma SerializeCons(c: Chunk, rest: seq<Chunk>)
    requires ValidChunk(c) && AllValid(rest)
    ensures AllValid([c] + rest) && Serialize([c] + rest) == Bytes(c) + Serialize(rest)
  {
    var cs := [c] + rest;
    assert cs[0] == c && cs[1..] == rest;
    assert forall i :: 1 <= i < |cs| ==> cs[i] == rest[i - 1];
  }

  /** On a well-formed tail `cs` that fits in the room left in the stream, `RemoveChunk`'s
      walk writes the chunks not of kind `k`. */
  lemma {:induction false} RemoveWalkOfChunks(raw: seq<byte>, k: ChunkType, off: int32, room: nat, quiet: set<int>, cs: seq<Chunk>)
    requires |raw| < StreamLimit && 0 <= off as int <= |raw| && ParseFrom(raw, off as int) == Some(cs)
    requires forall i :: i in quiet ==> i < off as int
    requires AllValid(cs) && |raw| - off as int <= room
    ensures RemoveWalk(raw, k, off, room, quiet) == Done(Serialize(Without(cs, k)))
    decreases |raw| - off as int, 1
  {
    if off as int == |raw| {
      assert cs == [];
    } else if Kind(cs[0]) != k {
      RemoveKeepCase(raw, k, off, room, quiet, cs);
    } else {
      RemoveDropCase(raw, k, off, room, quiet, cs);
    }
  }

  /** `RemoveWalkOfChunks` when the first chunk is kept. */
  lemma {:induction false} RemoveKeepCase(raw: seq<byte>, k: ChunkType, off: int32, room: nat, quiet: set<int>, cs: seq<Chunk>)
    requires |raw| < StreamLimit && 0 <= off as int < |raw| && ParseFrom(raw, off as int) == Some(cs)
    requires forall i :: i in quiet ==> i < off as int
    requires AllValid(cs) && |raw| - off as int <= room && cs != [] && Kind(cs[0]) != k
    ensures RemoveWalk(raw, k, off, room, quiet) == Done(Serialize(Without(cs, k)))
    decreases |raw| - off as int, 0
  {
    var next, tail := NextChunk(raw, off, cs);
    var left: nat := room - |Bytes(cs[0])|;
    RemoveWalkOfChunks(raw, k, next, left, {}, tail);
    RemoveKeepGlue(raw, k, off, room, quiet, cs, next, left, tail);
  }

  /** `RemoveWalkOfChunks` when the first chunk is dropped. */
  lemma {:induction false} RemoveDropCase(raw: seq<byte>, k: ChunkType, off: int32, room: nat, quiet: set<int>, cs: seq<Chunk>)
    requires |raw| < StreamLimit && 0 <= off as int < |raw| && ParseFrom(raw, off as int) == Some(cs)
    requires forall i :: i in quiet ==> i < off as int
    requires AllValid(cs) && |raw| - off as int <= room && cs != [] && Kind(cs[0]) == k
    ensures RemoveWalk(raw, k, off, room, quiet) == Done(Serialize(Without(cs, k)))
    decreases |raw| - off as int, 0
  {
    var next, tail := NextChunk(raw, off, cs);
    var seen := quiet + {off as int};
    SeenBefore(quiet, off as int, next as int, seen);
    RemoveWalkOfChunks(raw, k, next, room, seen, tail);
    RemoveDropGlue(raw, k, off, room, quiet, cs, next, seen, tail);
  }

  /** Where the chunk after the first one of a well-formed tail starts. */
  lemma NextChunk(raw: seq<byte>, off: int32, cs: seq<Chunk>) returns (next: int32, tail: seq<Chunk>)
    requires |raw| < StreamLimit && 0 <= off as int < |raw| && ParseFrom(raw, off as int) == Some(cs)
    ensures cs != [] && AllValid(cs) && tail == cs[1..] && AllValid(tail)
    ensures off as int < next as int <= |raw| && next as int == off as int + |Bytes(cs[0])|
    ensures ParseFrom(raw, next as int) == Some(tail)
  {
    WalkStep(raw, off);
    next, tail := (off as int + |Bytes(cs[0])|) as int32, cs[1..];
  }

  /** Offsets visited before `off` are before any later offset. */
  lemma SeenBefore(quiet: set<int>, off: int, next: int, seen: set<int>)
    requires forall i :: i in quiet ==> i < off
    requires off < next && seen == quiet + {off}
    ensures forall i :: i in seen ==> i < next
  {
  }

  /** The step of `RemoveKeepCase`: once the rest of the tail is written from `next`, the
      walk from `off` has written the first chunk and then the rest. */
  lemma RemoveKeepGlue(raw: seq<byte>, k: ChunkType, off: int32, room: nat, quiet: set<int>, cs: seq<Chunk>,
                       next: int32, left: nat, tail: seq<Chunk>)
    requires |raw| < StreamLimit && 0 <= off as int < |raw| && ParseFrom(raw, off as int) == Some(cs)
    requires forall i :: i in quiet ==> i < off as int
    requires AllValid(cs) && |raw| - off as int <= room && cs != [] && Kind(cs[0]) != k
    requires tail == cs[1..] && left == room - |Bytes(cs[0])| && next as int == off as int + |Bytes(cs[0])|
    ensures RemoveWalk(raw, k, next, left, {}) == Done(Serialize(Without(tail, k)))
        ==> RemoveWalk(raw, k, off, room, quiet) == Done(Serialize(Without(cs, k)))
  {
    RemoveKeepStep(raw, k, off, room, quiet, cs, next, left);
    WithoutKeeps(cs, k);
  }

  /** The step of `RemoveDropCase`: the walk from `off` writes what the walk from `next` writes. */
  lemma RemoveDropGlue(raw: seq<byte>, k: ChunkType, off: int32, room: nat, quiet: set<int>, cs: seq<Chunk>,
                       next: int32, seen: set<int>, tail: seq<Chunk>)
    requires |raw| < StreamLimit && 0 <= off as int < |raw| && ParseFrom(raw, off as int) == Some(cs)
    requires forall i :: i in quiet ==> i < off as int
    requires AllValid(cs) && cs != [] && Kind(cs[0]) == k
    requires tail == cs[1..] && seen == quiet + {off as int} && next as int == off as int + |Bytes(cs[0])|
    ensures RemoveWalk(raw, k, next, room, seen) == Done(Serialize(Without(tail, k)))
        ==> RemoveWalk(raw, k, off, room, quiet) == Done(Serialize(Without(cs, k)))
  {
    RemoveDropStep(raw, k, off, room, quiet, cs, next, seen);
    assert Without(cs, k) == Without(tail, k);
  }

  /** Dropping the chunks of kind `k` from a tail that starts with a chunk of another kind. */
  lemma WithoutKeeps(cs: seq<Chunk>, k: ChunkType)
    requires AllValid(cs) && cs != [] && Kind(cs[0]) != k
    ensures AllValid(cs[1..]) && Serialize(Without(cs, k)) == Bytes(cs[0]) + Serialize(Without(cs[1..], k))
  {
    SerializeCons(cs[0], Without(cs[1..], k));
    assert Without(cs, k) == [cs[0]] + Without(cs[1..], k);
  }

  /** `RemoveWalk` at a chunk it keeps, when the copy fits. */
  lemma RemoveCopyUnfold(raw: seq<byte>, k: ChunkType, off: int32, room: nat, quiet: set<int>, w: seq<byte>, next: int32, left: nat)
    requires |raw| < StreamLimit && CanReadHeader(raw, off as int) && off as int !in quiet && TypeAt(raw, off as int) != k
    requires var count := Add(MinimumChunkLength as int32, LengthAt(raw, off as int));
      CanCopy(raw, off as int, count as int) && w == raw[off..off as int + count as int]
      && next as int == off as int + count as int
    requires 0 < |w| <= room && left == room - |w|
    ensures RemoveWalk(raw, k, off, room, quiet) == Then(w, RemoveWalk(raw, k, next, left, {}))
  {
  }

  /** `RemoveWalk` at a chunk it drops. */
  lemma RemoveSkipUnfold(raw: seq<byte>, k: ChunkType, off: int32, room: nat, quiet: set<int>, next: int32, seen: set<int>)
    requires |raw| < StreamLimit && CanReadHeader(raw, off as int) && off as int !in quiet && TypeAt(raw, off as int) == k
    requires next == Add(off, Add(MinimumChunkLength as int32, LengthAt(raw, off as int)))
    requires seen == quiet + {off as int}
    ensures RemoveWalk(raw, k, off, room, quiet) == RemoveWalk(raw, k, next, room, seen)
  {
  }

  /** `RemoveChunk`'s walk over a well-formed tail at a first chunk it keeps: it copies the
      chunk's bytes and goes on at the next one. */
  lemma RemoveKeepStep(raw: seq<byte>, k: ChunkType, off: int32, room: nat, quiet: set<int>, cs: seq<Chunk>, next: int32, left: nat)
    requires |raw| < StreamLimit && 0 <= off as int < |raw| && ParseFrom(raw, off as int) == Some(cs)
    requires forall i :: i in quiet ==> i < off as int
    requires AllValid(cs) && |raw| - off as int <= room && cs != [] && Kind(cs[0]) != k
    requires left == room - |Bytes(cs[0])| && next as int == off as int + |Bytes(cs[0])|
    ensures RemoveWalk(raw, k, off, room, quiet) == Then(Bytes(cs[0]), RemoveWalk(raw, k, next, left, {}))
  {
    WalkStep(raw, off);
    TypeAtTag(raw, off as int, cs[0]);
    RemoveCopyUnfold(raw, k, off, room, quiet, Bytes(cs[0]), next, left);
  }

  /** `RemoveChunk`'s walk over a well-formed tail at a first chunk it drops: it goes on at
      the next chunk and writes nothing. */
  lemma RemoveDropStep(raw: seq<byte>, k: ChunkType, off: int32, room: nat, quiet: set<int>, cs: seq<Chunk>, next: int32, seen: set<int>)
    requires |raw| < StreamLimit && 0 <= off as int < |raw| && ParseFrom(raw, off as int) == Some(cs)
    requires forall i :: i in quiet ==> i < off as int
    requires AllValid(cs) && cs != [] && Kind(cs[0]) == k
    requires seen == quiet + {off as int} && next as int == off as int + |Bytes(cs[0])|
    ensures RemoveWalk(raw, k, off, room, quiet) == RemoveWalk(raw, k, next, room, seen)
  {
    WalkStep(raw, off);
    TypeAtTag(raw, off as int, cs[0]);
    RemoveSkipUnfold(raw, k, off, room, quiet, next, seen);
  }

  /** On a well-formed buffer, `RemoveChunk(k)` succeeds and keeps the signature and
      exactly the chunks not of kind `k`, in their order, byte for byte. */
  lemma RemoveResultOfChunks(raw: seq<byte>, k: ChunkType)
    requires WellFormed(raw) && |raw| < StreamLimit
    ensures AllValid(Chunks(raw))
    ensures RemoveResult(raw, k) == Done(raw[..PayloadOffset] + Serialize(Without(Chunks(raw), k)))
  {
    ParseFromSerializes(raw, PayloadOffset);
    RemoveWalkOfChunks(raw, k, PayloadOffset as int32, Room(raw[..PayloadOffset]), {}, Chunks(raw));
  }

  /** One step of `InsertChunk`'s walk over a well-formed tail that starts with an IHDR chunk. */
  lemma InsertStepHeader(raw: seq<byte>, inserted: Option<seq<byte>>, off: int32, unvisited: set<int>)
    returns (next: int32)
    requires |raw| < StreamLimit && 0 <= off as int < |raw| && ParseFrom(raw, off as int).Some?
    requires forall i :: off as int <= i < |raw| ==> i in unvisited
    requires ParseFrom(raw, off as int).value != [] && Kind(ParseFrom(raw, off as int).value[0]) == ImageHeader
    ensures var cs := ParseFrom(raw, off as int).value;
      && AllValid(cs) && next as int == off as int + |Bytes(cs[0])|
      && ParseFrom(raw, next as int) == Some(cs[1..])
      && InsertWalk(raw, inserted, off, unvisited) == Then(Bytes(cs[0]), InsertWalk(raw, inserted, next, unvisited - {off as int}))
  {
    var cs := ParseFrom(raw, off as int).value;
    WalkStep(raw, off);
    TypeAtTag(raw, off as int, cs[0]);
    var count := Add(MinimumChunkLength as int32, LengthAt(raw, off as int));
    next := (off as int + count as int) as int32;
  }

  /** `InsertChunk`'s walk over a well-formed tail that starts with another chunk. */
  lemma InsertStepOther(raw: seq<byte>, inserted: Option<seq<byte>>, off: int32, unvisited: set<int>)
    requires |raw| < StreamLimit && 0 <= off as int < |raw| && ParseFrom(raw, off as int).Some?
    requires forall i :: off as int <= i < |raw| ==> i in unvisited
    requires ParseFrom(raw, off as int).value != [] && Kind(ParseFrom(raw, off as int).value[0]) != ImageHeader
    ensures AllValid(ParseFrom(raw, off as int).value)
    ensures raw[off..] == Serialize(ParseFrom(raw, off as int).value)
    ensures InsertWalk(raw, inserted, off, unvisited) == if inserted.None? then Throws else Done(inserted.value + raw[off..])
  {
    var cs := ParseFrom(raw, off as int).value;
    WalkStep(raw, off);
    ParseFromSerializes(raw, off as int);
    TypeAtTag(raw, off as int, cs[0]);
  }

  /** `InsertChunk` on a chunk list: the leading IHDR chunks, then the inserted bytes,
      then the remaining chunks; a list of IHDR chunks only is copied unchanged, and with
      no bytes to insert the walk throws where it would write them. */
  function InsertedInto(cs: seq<Chunk>, inserted: Option<seq<byte>>): (o: Outcome)
    requires AllValid(cs)
    ensures !o.Hangs?
    ensures LeadingHeaders(cs) == |cs| ==> o == Done(Serialize(cs))
  {
    var h := LeadingHeaders(cs);
    if h == |cs| then Done(Serialize(cs))
    else if inserted.None? then Throws
    else Done(Serialize(cs[..h]) + inserted.value + Serialize(cs[h..]))
  }

  /** How `InsertedInto` unfolds at the first chunk. */
  lemma InsertedIntoCons(cs: seq<Chunk>, inserted: Option<seq<byte>>)
    requires cs != [] && AllValid(cs)
    ensures AllValid(cs[1..])
    ensures Kind(cs[0]) == ImageHeader ==> InsertedInto(cs, inserted) == Then(Bytes(cs[0]), InsertedInto(cs[1..], inserted))
    ensures Kind(cs[0]) != ImageHeader ==>
              InsertedInto(cs, inserted) == if inserted.None? then Throws else Done(inserted.value + Serialize(cs))
  {
    if Kind(cs[0]) == ImageHeader {
      InsertedIntoHeader(cs, inserted);
    } else {
      InsertedIntoOther(cs, inserted);
    }
  }

  lemma InsertedIntoOther(cs: seq<Chunk>, inserted: Option<seq<byte>>)
    requires cs != [] && AllValid(cs) && Kind(cs[0]) != ImageHeader
    ensures InsertedInto(cs, inserted) == if inserted.None? then Throws else Done(inserted.value + Serialize(cs))
  {
    assert LeadingHeaders(cs) == 0;
    assert cs[..0] == [] && cs[0..] == cs;
    assert Serialize([]) == [];
  }

  lemma InsertedIntoHeader(cs: seq<Chunk>, inserted: Option<seq<byte>>)
    requires cs != [] && AllValid(cs) && Kind(cs[0]) == ImageHeader
    ensures AllValid(cs[1..])
    ensures InsertedInto(cs, inserted) == Then(Bytes(cs[0]), InsertedInto(cs[1..], inserted))
  {
    var rest := cs[1..];
    var h := LeadingHeaders(rest);
    assert LeadingHeaders(cs) == h + 1;
    if h < |rest| && inserted.Some? {
      InsertedIntoHeaderSome(cs, inserted.value);
    } else {
      assert Serialize(cs) == Bytes(cs[0]) + Serialize(rest);
    }
  }

  lemma InsertedIntoHeaderSome(cs: seq<Chunk>, ins: seq<byte>)
    requires cs != [] && AllValid(cs) && Kind(cs[0]) == ImageHeader
    requires LeadingHeaders(cs[1..]) < |cs| - 1
    ensures var rest := cs[1..]; var h := LeadingHeaders(rest);
      Serialize(cs[..h + 1]) + ins + Serialize(cs[h + 1..])
      == Bytes(cs[0]) + (Serialize(rest[..h]) + ins + Serialize(rest[h..]))
  {
    var rest := cs[1..];
    var h := LeadingHeaders(rest);
    assert cs[..h + 1] == [cs[0]] + rest[..h];
    assert cs[h + 1..] == rest[h..];
    SerializeCons(cs[0], rest[..h]);
    Associate(Bytes(cs[0]), Serialize(rest[..h]), ins, Serialize(rest[h..]));
  }

  lemma Associate(a: seq<byte>, b: seq<byte>, c: seq<byte>, d: seq<byte>)
    ensures a + (b + c + d) == a + b + c + d
  {
  }

  /** On a well-formed tail, `InsertChunk`'s walk does what `InsertedInto` says. */
  lemma {:induction false} InsertWalkOfChunks(raw: seq<byte>, inserted: Option<seq<byte>>, off: int32, unvisited: set<int>)
    requires |raw| < StreamLimit && 0 <= off as int <= |raw| && ParseFrom(raw, off as int).Some?
    requires forall i :: off as int <= i < |raw| ==> i in unvisited
    ensures AllValid(ParseFrom(raw, off as int).value)
    ensures InsertWalk(raw, inserted, off, unvisited) == InsertedInto(ParseFrom(raw, off as int).value, inserted)
    decreases |raw| - off as int
  {
    if off as int < |raw| {
      var cs := ParseFrom(raw, off as int).value;
      ParseFromFirst(raw, off as int);
      ParseFromSerializes(raw, off as int);
      InsertedIntoCons(cs, inserted);
      if Kind(cs[0]) == ImageHeader {
        var next := InsertStepHeader(raw, inserted, off, unvisited);
        InsertWalkOfChunks(raw, inserted, next, unvisited - {off as int});
      } else {
        InsertStepOther(raw, inserted, off, unvisited);
      }
    }
  }

  /** Placing a chunk after the leading IHDR chunks is what `InsertedInto` writes when
      the inserted bytes are that chunk's. */
  lemma InsertedIntoAfterHeaders(cs: seq<Chunk>, c: Chunk)
    requires AllValid(cs) && ValidChunk(c)
    ensures AllValid(InsertAfterHeaders(cs, c))
    ensures InsertedInto(cs, Some(Bytes(c))) == Done(Serialize(InsertAfterHeaders(cs, c)))
    ensures |Serialize(InsertAfterHeaders(cs, c))|
            == |Serialize(cs)| + if LeadingHeaders(cs) < |cs| then |Bytes(c)| else 0
  {
    var h := LeadingHeaders(cs);
    if h < |cs| {
      var before, after := cs[..h], cs[h..];
      assert AllValid(before) && AllValid(after);
      assert before + after == cs;
      SerializeAppend(before, after);
      SerializeInsert(before, c, after);
    }
  }

  lemma SerializeInsert(a: seq<Chunk>, c: Chunk, b: seq<Chunk>)
    requires AllValid(a) && ValidChunk(c) && AllValid(b)
    ensures AllValid(a + [c] + b)
    ensures Serialize(a + [c] + b) == Serialize(a) + Bytes(c) + Serialize(b)
  {
    SerializeCons(c, []);
    assert [c] + [] == [c];
    SerializeAppend(a, [c]);
    SerializeAppend(a + [c], b);
  }

  /** On a well-formed buffer, `InsertChunk` keeps the signature and does to the chunks
      what `InsertedInto` says; a buffer without chunks other than IHDR stays as it was. */
  lemma InsertResultOfChunks(raw: seq<byte>, chunk: string, length: int32, data: int32)
    requires WellFormed(raw) && |raw| < StreamLimit
    ensures AllValid(Chunks(raw))
    ensures InsertResult(raw, chunk, length, data)
            == Stored(Then(raw[..PayloadOffset], InsertedInto(Chunks(raw), InsertionFor(chunk, length, data))))
    ensures LeadingHeaders(Chunks(raw)) == |Chunks(raw)| ==> InsertResult(raw, chunk, length, data) == Done(raw)
  {
    InsertWalkOfChunks(raw, InsertionFor(chunk, length, data), PayloadOffset as int32, AllOffsets(raw));
    ParseFromSerializes(raw, PayloadOffset);
    assert raw == raw[..PayloadOffset] + raw[PayloadOffset..];
  }

  /** With the length 4 its caller passes, `InsertChunk` leaves a well-formed buffer whose
      chunks are the old ones with a correctly checksummed chunk after the IHDR chunks. */
  lemma InsertChunkWellFormed(raw: seq<byte>, chunk: string, data: int32)
    requires WellFormed(raw) && |raw| + 16 < StreamLimit
    requires |AsciiBytes(chunk)| >= 4
    ensures InsertResult(raw, chunk, 4, data).Done?
    ensures var out := InsertResult(raw, chunk, 4, data).output;
      && WellFormed(out) && out[..PayloadOffset] == raw[..PayloadOffset]
      && Chunks(out) == InsertAfterHeaders(Chunks(raw), NewChunk(AsciiBytes(chunk)[..4], Int32Bytes(data)))
  {
    var cs := Chunks(raw);
    var c := NewChunk(AsciiBytes(chunk)[..4], Int32Bytes(data));
    InsertResultOfChunks(raw, chunk, 4, data);
    assert InsertionFor(chunk, 4, data) == Some(Bytes(c));
    InsertedIntoAfterHeaders(cs, c);
    ParseFromSerializes(raw, PayloadOffset);
    WellFormedOfSerialize(raw[..PayloadOffset], InsertAfterHeaders(cs, c));
  }

  /** The outcome of writing `x` into a stream with `room` bytes left. */
  function Fits(x: seq<byte>, room: nat): Outcome
  {
    if |x| <= room then Done(x) else Throws
  }

  /** Writing `w` and then what fits in the room left is writing what fits of `w + x`. */
  lemma ThenFitsGlue(o: Outcome, later: Outcome, w: seq<byte>, x: seq<byte>, y: seq<byte>, room: nat, left: nat)
    requires o == Then(w, later) && |w| <= room && left == room - |w| && y == w + x
    ensures later == Fits(x, left) ==> o == Fits(y, room)
  {
  }

  /** `SetWalk` at a matching chunk whose replacement `w` fits. */
  lemma SetMatchUnfold(raw: seq<byte>, k: ChunkType, w: seq<byte>, off: int32, room: nat, quiet: set<int>, next: int32, left: nat)
    requires |raw| < StreamLimit && CanReadHeader(raw, off as int) && off as int !in quiet && TypeAt(raw, off as int) == k
    requires next == Add(off, Add(MinimumChunkLength as int32, LengthAt(raw, off as int)))
    requires 0 < |w| <= room && left == room - |w|
    ensures SetWalk(raw, k, Some(w), off, room, quiet) == Then(w, SetWalk(raw, k, Some(w), next, left, {}))
  {
  }

  /** `SetWalk` at a chunk it copies, when the copy fits. */
  lemma SetCopyUnfold(raw: seq<byte>, k: ChunkType, replacement: Option<seq<byte>>, off: int32, room: nat, quiet: set<int>,
                      w: seq<byte>, next: int32, left: nat)
    requires |raw| < StreamLimit && CanReadHeader(raw, off as int) && off as int !in quiet && TypeAt(raw, off as int) != k
    requires var count := Add(MinimumChunkLength as int32, LengthAt(raw, off as int));
      CanCopy(raw, off as int, count as int) && w == raw[off..off as int + count as int]
      && next as int == off as int + count as int
    requires 0 < |w| <= room && left == room - |w|
    ensures SetWalk(raw, k, replacement, off, room, quiet) == Then(w, SetWalk(raw, k, replacement, next, left, {}))
  {
  }

  /** `SetChunk`'s walk over a well-formed tail at a first chunk that matches, when the
      replacement `w` fits: it writes `w` and goes on at the next chunk. */
  lemma SetMatchStep(raw: seq<byte>, k: ChunkType, w: seq<byte>, off: int32, room: nat, quiet: set<int>, cs: seq<Chunk>,
                     next: int32, left: nat)
    requires |raw| < StreamLimit && 0 <= off as int < |raw| && ParseFrom(raw, off as int) == Some(cs)
    requires forall i :: i in quiet ==> i < off as int
    requires AllValid(cs) && cs != [] && Kind(cs[0]) == k
    requires 0 < |w| <= room && left == room - |w| && next as int == off as int + |Bytes(cs[0])|
    ensures SetWalk(raw, k, Some(w), off, room, quiet) == Then(w, SetWalk(raw, k, Some(w), next, left, {}))
  {
    WalkStep(raw, off);
    TypeAtTag(raw, off as int, cs[0]);
    SetMatchUnfold(raw, k, w, off, room, quiet, next, left);
  }

  /** `SetChunk`'s walk over a well-formed tail at a first chunk that does not match,
      when it fits: it copies the chunk and goes on at the next one. */
  lemma SetOtherStep(raw: seq<byte>, k: ChunkType, replacement: Option<seq<byte>>, off: int32, room: nat, quiet: set<int>,
                     cs: seq<Chunk>, next: int32, left: nat)
    requires |raw| < StreamLimit && 0 <= off as int < |raw| && ParseFrom(raw, off as int) == Some(cs)
    requires forall i :: i in quiet ==> i < off as int
    requires AllValid(cs) && cs != [] && Kind(cs[0]) != k
    requires |Bytes(cs[0])| <= room && left == room - |Bytes(cs[0])| && next as int == off as int + |Bytes(cs[0])|
    ensures SetWalk(raw, k, replacement, off, room, quiet) == Then(Bytes(cs[0]), SetWalk(raw, k, replacement, next, left, {}))
  {
    WalkStep(raw, off);
    TypeAtTag(raw, off as int, cs[0]);
    SetCopyUnfold(raw, k, replacement, off, room, quiet, Bytes(cs[0]), next, left);
  }

  /** `SetChunk`'s walk over a well-formed tail throws at a first chunk that matches when
      the replacement is missing or does not fit, and at one that does not match when the
      copy does not fit. */
  lemma SetStepThrows(raw: seq<byte>, k: ChunkType, replacement: Option<seq<byte>>, off: int32, room: nat, quiet: set<int>,
                      cs: seq<Chunk>)
    requires |raw| < StreamLimit && 0 <= off as int < |raw| && ParseFrom(raw, off as int) == Some(cs)
    requires forall i :: i in quiet ==> i < off as int
    requires AllValid(cs) && cs != []
    requires if Kind(cs[0]) == k then replacement.None? || |replacement.value| > room else |Bytes(cs[0])| > room
    ensures SetWalk(raw, k, replacement, off, room, quiet) == Throws
  {
    WalkStep(raw, off);
    TypeAtTag(raw, off as int, cs[0]);
  }

  /** `Replace` at the first chunk. */
  lemma ReplaceCons(cs: seq<Chunk>, k: ChunkType, r: Chunk)
    requires cs != [] && AllValid(cs) && ValidChunk(r)
    ensures AllValid(Replace(cs, k, r)) && AllValid(Replace(cs[1..], k, r))
    ensures Serialize(Replace(cs, k, r)) == Bytes(if Kind(cs[0]) == k then r else cs[0]) + Serialize(Replace(cs[1..], k, r))
  {
    ReplaceValid(cs, k, r);
    ReplaceValid(cs[1..], k, r);
    SerializeCons(if Kind(cs[0]) == k then r else cs[0], Replace(cs[1..], k, r));
  }

  /** On a well-formed tail, `SetChunk`'s walk writes the chunks with every chunk of
      kind `k` replaced by `r`, and throws exactly when they do not fit in the room left. */
  lemma {:induction false} SetWalkOfChunks(raw: seq<byte>, k: ChunkType, r: Chunk, off: int32, room: nat, quiet: set<int>, cs: seq<Chunk>)
    requires |raw| < StreamLimit && 0 <= off as int <= |raw| && ParseFrom(raw, off as int) == Some(cs)
    requires forall i :: i in quiet ==> i < off as int
    requires ValidChunk(r) && AllValid(cs) && AllValid(Replace(cs, k, r))
    ensures SetWalk(raw, k, Some(Bytes(r)), off, room, quiet) == Fits(Serialize(Replace(cs, k, r)), room)
    decreases |raw| - off as int, 1
  {
    if off as int == |raw| {
      assert cs == [];
    } else {
      SetWalkCase(raw, k, r, off, room, quiet, cs);
    }
  }

  /** `SetWalkOfChunks` at a first chunk. */
  lemma {:induction false} SetWalkCase(raw: seq<byte>, k: ChunkType, r: Chunk, off: int32, room: nat, quiet: set<int>, cs: seq<Chunk>)
    requires |raw| < StreamLimit && 0 <= off as int < |raw| && ParseFrom(raw, off as int) == Some(cs)
    requires forall i :: i in quiet ==> i < off as int
    requires ValidChunk(r) && AllValid(cs) && AllValid(Replace(cs, k, r))
    ensures SetWalk(raw, k, Some(Bytes(r)), off, room, quiet) == Fits(Serialize(Replace(cs, k, r)), room)
    decreases |raw| - off as int, 0
  {
    var next, tail := NextChunk(raw, off, cs);
    var w := Bytes(if Kind(cs[0]) == k then r else cs[0]);
    if |w| <= room {
      var left: nat := room - |w|;
      ReplaceCons(cs, k, r);
      SetWalkOfChunks(raw, k, r, next, left, {}, tail);
      SetFitsGlue(raw, k, r, off, room, quiet, cs, next, left, tail);
    } else {
      SetThrowsGlue(raw, k, r, off, room, quiet, cs);
    }
  }

  /** The step of `SetWalkCase` when the first chunk, replaced or not, fits. */
  lemma SetFitsGlue(raw: seq<byte>, k: ChunkType, r: Chunk, off: int32, room: nat, quiet: set<int>, cs: seq<Chunk>,
                    next: int32, left: nat, tail: seq<Chunk>)
    requires |raw| < StreamLimit && 0 <= off as int < |raw| && ParseFrom(raw, off as int) == Some(cs)
    requires forall i :: i in quiet ==> i < off as int
    requires ValidChunk(r) && AllValid(cs) && cs != [] && tail == cs[1..] && AllValid(Replace(tail, k, r))
    requires var w := Bytes(if Kind(cs[0]) == k then r else cs[0]);
      |w| <= room && left == room - |w| && next as int == off as int + |Bytes(cs[0])|
    ensures AllValid(Replace(cs, k, r))
    ensures SetWalk(raw, k, Some(Bytes(r)), next, left, {}) == Fits(Serialize(Replace(tail, k, r)), left)
        ==> SetWalk(raw, k, Some(Bytes(r)), off, room, quiet) == Fits(Serialize(Replace(cs, k, r)), room)
  {
    var w := Bytes(if Kind(cs[0]) == k then r else cs[0]);
    ReplaceCons(cs, k, r);
    if Kind(cs[0]) == k {
      SetMatchStep(raw, k, Bytes(r), off, room, quiet, cs, next, left);
    } else {
      SetOtherStep(raw, k, Some(Bytes(r)), off, room, quiet, cs, next, left);
    }
    ThenFitsGlue(SetWalk(raw, k, Some(Bytes(r)), off, room, quiet), SetWalk(raw, k, Some(Bytes(r)), next, left, {}),
                 w, Serialize(Replace(tail, k, r)), Serialize(Replace(cs, k, r)), room, left);
  }

  /** The step of `SetWalkCase` when the first chunk, replaced or not, does not fit. */
  lemma SetThrowsGlue(raw: seq<byte>, k: ChunkType, r: Chunk, off: int32, room: nat, quiet: set<int>, cs: seq<Chunk>)
    requires |raw| < StreamLimit && 0 <= off as int < |raw| && ParseFrom(raw, off as int) == Some(cs)
    requires forall i :: i in quiet ==> i < off as int
    requires ValidChunk(r) && AllValid(cs) && cs != [] && AllValid(Replace(cs, k, r))
    requires |Bytes(if Kind(cs[0]) == k then r else cs[0])| > room
    ensures SetWalk(raw, k, Some(Bytes(r)), off, room, quiet) == Fits(Serialize(Replace(cs, k, r)), room)
  {
    ReplaceCons(cs, k, r);
    SetStepThrows(raw, k, Some(Bytes(r)), off, room, quiet, cs);
  }

  /** No chunk of the list has kind `k`. */
  predicate Absent(cs: seq<Chunk>, k: ChunkType)
  {
    forall i :: 0 <= i < |cs| ==> Kind(cs[i]) != k
  }

  /** With arguments it cannot use, `SetChunk`'s walk throws if some chunk has kind `k`,
      and otherwise copies the tail if it fits in the room left. */
  lemma {:induction false} SetWalkWithoutReplacement(raw: seq<byte>, k: ChunkType, off: int32, room: nat, quiet: set<int>, cs: seq<Chunk>)
    requires |raw| < StreamLimit && 0 <= off as int <= |raw| && ParseFrom(raw, off as int) == Some(cs)
    requires forall i :: i in quiet ==> i < off as int
    requires AllValid(cs)
    ensures SetWalk(raw, k, None, off, room, quiet) == if Absent(cs, k) then Fits(Serialize(cs), room) else Throws
    decreases |raw| - off as int, 1
  {
    if off as int == |raw| {
      assert cs == [];
    } else {
      SetNoneCase(raw, k, off, room, quiet, cs);
    }
  }

  /** `SetWalkWithoutReplacement` at a first chunk. */
  lemma {:induction false} SetNoneCase(raw: seq<byte>, k: ChunkType, off: int32, room: nat, quiet: set<int>, cs: seq<Chunk>)
    requires |raw| < StreamLimit && 0 <= off as int < |raw| && ParseFrom(raw, off as int) == Some(cs)
    requires forall i :: i in quiet ==> i < off as int
    requires AllValid(cs)
    ensures SetWalk(raw, k, None, off, room, quiet) == if Absent(cs, k) then Fits(Serialize(cs), room) else Throws
    decreases |raw| - off as int, 0
  {
    var next, tail := NextChunk(raw, off, cs);
    if Kind(cs[0]) != k && |Bytes(cs[0])| <= room {
      var left: nat := room - |Bytes(cs[0])|;
      SetWalkWithoutReplacement(raw, k, next, left, {}, tail);
      SetNoneGlue(raw, k, off, room, quiet, cs, next, left, tail);
    } else {
      SetNoneThrows(raw, k, off, room, quiet, cs);
    }
  }

  /** The step of `SetNoneCase` at a first chunk that does not match and fits. */
  lemma SetNoneGlue(raw: seq<byte>, k: ChunkType, off: int32, room: nat, quiet: set<int>, cs: seq<Chunk>,
                    next: int32, left: nat, tail: seq<Chunk>)
    requires |raw| < StreamLimit && 0 <= off as int < |raw| && ParseFrom(raw, off as int) == Some(cs)
    requires forall i :: i in quiet ==> i < off as int
    requires AllValid(cs) && cs != [] && tail == cs[1..] && Kind(cs[0]) != k
    requires |Bytes(cs[0])| <= room && left == room - |Bytes(cs[0])| && next as int == off as int + |Bytes(cs[0])|
    ensures AllValid(tail)
    ensures SetWalk(raw, k, None, next, left, {}) == (if Absent(tail, k) then Fits(Serialize(tail), left) else Throws)
        ==> SetWalk(raw, k, None, off, room, quiet) == if Absent(cs, k) then Fits(Serialize(cs), room) else Throws
  {
    SetOtherStep(raw, k, None, off, room, quiet, cs, next, left);
    SerializeCons(cs[0], tail);
    assert [cs[0]] + tail == cs;
    assert Absent(cs, k) <==> Absent(tail, k) by {
      assert forall i :: 1 <= i < |cs| ==> cs[i] == tail[i - 1];
    }
    ThenFitsGlue(SetWalk(raw, k, None, off, room, quiet), SetWalk(raw, k, None, next, left, {}),
                 Bytes(cs[0]), Serialize(tail), Serialize(cs), room, left);
  }

  /** `SetNoneCase` at a first chunk that matches or does not fit: both sides throw. */
  lemma SetNoneThrows(raw: seq<byte>, k: ChunkType, off: int32, room: nat, quiet: set<int>, cs: seq<Chunk>)
    requires |raw| < StreamLimit && 0 <= off as int < |raw| && ParseFrom(raw, off as int) == Some(cs)
    requires forall i :: i in quiet ==> i < off as int
    requires AllValid(cs) && cs != [] && (Kind(cs[0]) == k || |Bytes(cs[0])| > room)
    ensures SetWalk(raw, k, None, off, room, quiet) == if Absent(cs, k) then Fits(Serialize(cs), room) else Throws
  {
    SetStepThrows(raw, k, None, off, room, quiet, cs);
    SerializeCons(cs[0], cs[1..]);
    assert [cs[0]] + cs[1..] == cs;
  }

  /** On a well-formed buffer, `SetChunk(chunk, length, data)` keeps the signature and
      replaces every chunk of kind `GetChunk(chunk)` by `Replacement`, provided the
      result fits the stream; with unusable arguments it throws if some chunk matches
      and leaves the buffer as it was otherwise. */
  lemma SetResultOfChunks(raw: seq<byte>, chunk: string, length: int32, data: int32)
    requires WellFormed(raw) && |raw| < StreamLimit
    ensures AllValid(Chunks(raw))
    ensures SetArgumentsOk(chunk, length) ==>
      && AllValid(Replace(Chunks(raw), GetChunk(chunk), Replacement(chunk, length, data)))
      && SetResult(raw, chunk, length, data)
         == Stored(Done(raw[..PayloadOffset] + Serialize(Replace(Chunks(raw), GetChunk(chunk), Replacement(chunk, length, data)))))
    ensures !SetArgumentsOk(chunk, length) && (forall i :: 0 <= i < |Chunks(raw)| ==> Kind(Chunks(raw)[i]) != GetChunk(chunk)) ==>
      SetResult(raw, chunk, length, data) == Done(raw)
    ensures !SetArgumentsOk(chunk, length) && (exists i :: 0 <= i < |Chunks(raw)| && Kind(Chunks(raw)[i]) == GetChunk(chunk)) ==>
      SetResult(raw, chunk, length, data) == Throws
  {
    var k, cs, room := GetChunk(chunk), Chunks(raw), Room(raw[..PayloadOffset]);
    ParseFromSerializes(raw, PayloadOffset);
    if SetArgumentsOk(chunk, length) {
      var r := Replacement(chunk, length, data);
      ReplaceValid(cs, k, r);
      SetWalkOfChunks(raw, k, r, PayloadOffset as int32, room, {}, cs);
    } else {
      SetWalkWithoutReplacement(raw, k, PayloadOffset as int32, room, {}, cs);
      assert raw == raw[..PayloadOffset] + raw[PayloadOffset..];
    }
  }

  // ---------------------------------------------------------------------------
  // Consequences for well-formed buffers

  /** `RemoveChunk` leaves a well-formed buffer with the same signature and exactly the
      chunks not of kind `k`; it changes nothing when no chunk has kind `k`, and a second
      call with the same kind changes nothing. */
  lemma RemoveChunkWellFormed(raw: seq<byte>, k: ChunkType)
    requires WellFormed(raw) && |raw| < StreamLimit
    ensures RemoveResult(raw, k).Done?
    ensures var out := RemoveResult(raw, k).output;
      && WellFormed(out) && |out| <= |raw| && out[..PayloadOffset] == raw[..PayloadOffset]
      && Chunks(out) == Without(Chunks(raw), k)
      && RemoveResult(out, k) == Done(out)
    ensures (forall i :: 0 <= i < |Chunks(raw)| ==> Kind(Chunks(raw)[i]) != k) ==> RemoveResult(raw, k) == Done(raw)
  {
    var cs := Chunks(raw);
    RemoveResultOfChunks(raw, k);
    ParseFromSerializes(raw, PayloadOffset);
    WellFormedOfSerialize(raw[..PayloadOffset], Without(cs, k));
    var out := RemoveResult(raw, k).output;
    RemoveResultOfChunks(out, k);
    WithoutIdempotent(cs, k);
    assert out[..PayloadOffset] == raw[..PayloadOffset];
    if forall i :: 0 <= i < |cs| ==> Kind(cs[i]) != k {
      WithoutAbsent(cs, k);
      assert raw == raw[..PayloadOffset] + raw[PayloadOffset..];
    }
  }

  /** With usable arguments, `SetChunk` either throws because the result outgrows the
      stream or leaves a well-formed buffer with the same signature whose chunks are the
      old ones with every match replaced. */
  lemma SetChunkWellFormed(raw: seq<byte>, chunk: string, length: int32, data: int32)
    requires WellFormed(raw) && |raw| < StreamLimit && SetArgumentsOk(chunk, length)
    ensures AllValid(Chunks(raw))
    ensures var replaced := Replace(Chunks(raw), GetChunk(chunk), Replacement(chunk, length, data));
      && AllValid(replaced)
      && (SetResult(raw, chunk, length, data).Done? <==> PayloadOffset + |Serialize(replaced)| < StreamLimit)
    ensures SetResult(raw, chunk, length, data).Done? ==>
      var out := SetResult(raw, chunk, length, data).output;
      && WellFormed(out) && out[..PayloadOffset] == raw[..PayloadOffset]
      && Chunks(out) == Replace(Chunks(raw), GetChunk(chunk), Replacement(chunk, length, data))
  {
    var replaced := Replace(Chunks(raw), GetChunk(chunk), Replacement(chunk, length, data));
    SetResultOfChunks(raw, chunk, length, data);
    WellFormedOfSerialize(raw[..PayloadOffset], replaced);
  }

  /** Setting the same chunk twice is setting it once. When the written chunks have the
      matched kind, the second call rewrites them alike; when they do not (a name longer
      than four letters, or one that is not 7-bit), the first call left no chunk of that
      kind, so the second call copies the buffer unchanged. */
  lemma SetChunkIdempotent(raw: seq<byte>, chunk: string, length: int32, data: int32)
    requires WellFormed(raw) && |raw| < StreamLimit
    requires SetResult(raw, chunk, length, data).Done?
    ensures var out := SetResult(raw, chunk, length, data).output;
      |out| < StreamLimit && SetResult(out, chunk, length, data) == Done(out)
  {
    if SetArgumentsOk(chunk, length) {
      SetTwice(raw, chunk, length, data);
    } else {
      SetResultOfChunks(raw, chunk, length, data);
    }
  }

  /** `SetChunkIdempotent` when the arguments pass the checks made at a match. */
  lemma SetTwice(raw: seq<byte>, chunk: string, length: int32, data: int32)
    requires WellFormed(raw) && |raw| < StreamLimit && SetArgumentsOk(chunk, length)
    requires SetResult(raw, chunk, length, data).Done?
    ensures var out := SetResult(raw, chunk, length, data).output;
      |out| < StreamLimit && SetResult(out, chunk, length, data) == Done(out)
  {
    var k, r := GetChunk(chunk), Replacement(chunk, length, data);
    var replaced := Replace(Chunks(raw), k, r);
    SetResultOfChunks(raw, chunk, length, data);
    SetChunkWellFormed(raw, chunk, length, data);
    var out := SetResult(raw, chunk, length, data).output;
    assert out == raw[..PayloadOffset] + Serialize(replaced);
    assert |out| < StreamLimit;
    SetResultOfChunks(out, chunk, length, data);
    ReplaceTwice(Chunks(raw), k, r);
    if Kind(r) != k {
      ReplaceAbsent(replaced, k, r);
    }
    assert Replace(Chunks(out), k, r) == Chunks(out);
    assert out == out[..PayloadOffset] + out[PayloadOffset..];
    ParseFromSerializes(out, PayloadOffset);
  }

  /** `SetChunk`'s checksum covers the little-endian bytes of `data` while the chunk holds
      its big-endian bytes, so the written CRC does not match the written chunk: with the
      arguments the image editor passes for gAMA, the CRC field differs from the correct one. */
  lemma SetChunkChecksumMismatch()
    ensures SetArgumentsOk("gAMA", 4)
    ensures Replacement("gAMA", 4, 389).data == [0, 0, 1, 0x85]
    ensures Replacement("gAMA", 4, 389).crc == CrcBytes(0x5060_4C73)
    ensures CrcBytes(PngCrc(Replacement("gAMA", 4, 389).tag + Replacement("gAMA", 4, 389).data)) == CrcBytes(0x0FEC_26A3)
    ensures !CrcMatches(Replacement("gAMA", 4, 389))
  {
    var tag: seq<byte> := [103, 65, 77, 65];
    assert AsciiBytes("gAMA")[..4] == tag;
    assert Int32Bytes(389) == [0, 0, 1, 0x85];
    assert LittleEndian(Unsigned(389)) == [0x85, 1, 0, 0];
    GammaCrcs();
    assert CrcBytes(0x5060_4C73)[0] == 0x50 && CrcBytes(0x0FEC_26A3)[0] == 0x0F;
  }

  /** The PNG CRC of "gAMA" followed by the big-endian and by the little-endian bytes of 389. */
  lemma GammaCrcs()
    ensures PngCrc([103, 65, 77, 65] + [0, 0, 1, 0x85]) == 0x0FEC_26A3
    ensures PngCrc([103, 65, 77, 65] + [0x85, 1, 0, 0]) == 0x5060_4C73
  {
    var tag: seq<byte> := [103, 65, 77, 65];
    CrcChain(0xFFFF_FFFF, tag, [0, 0, 1, 0x85]);
    CrcChain(0xFFFF_FFFF, tag, [0x85, 1, 0, 0]);
    CrcOfFour(0xFFFF_FFFF, tag);
    CrcOfFour(0x4D1E_48E0, [0, 0, 1, 0x85]);
    CrcOfFour(0x4D1E_48E0, [0x85, 1, 0, 0]);
    GammaRegisters();
  }

  /** The CRC register while checksumming "gAMA" followed by the bytes of 389 in either order. */
  lemma GammaRegisters()
    ensures Step(Step(Step(Step(0xFFFF_FFFF, 103), 65), 77), 65) == 0x4D1E_48E0
    ensures Step(Step(Step(Step(0x4D1E_48E0, 0), 0), 1), 0x85) == 0xF013_D95C
    ensures Step(Step(Step(Step(0x4D1E_48E0, 0x85), 1), 0), 0) == 0xAF9F_B38C
  {
    GammaTag();
    GammaBigEndian();
    GammaLittleEndian();
  }

  lemma GammaTag()
    ensures Step(0xFFFF_FFFF, 103) == 0xFE2B_E489 && Step(0xFE2B_E489, 65) == 0x9541_6166
    ensures Step(0x9541_6166, 77) == 0xAC29_B821 && Step(0xAC29_B821, 65) == 0x4D1E_48E0
  {
  }

  lemma GammaBigEndian()
    ensures Step(0x4D1E_48E0, 0) == 0xA047_FC30 && Step(0xA047_FC30, 0) == 0x2679_7750
    ensures Step(0x2679_7750, 1) == 0x1C4A_1815 && Step(0x1C4A_1815, 0x85) == 0xF013_D95C
  {
  }

  lemma GammaLittleEndian()
    ensures Step(0x4D1E_48E0, 0x85) == 0x3D95_8B9F && Step(0x3D95_8B9F, 1) == 0x178A_2BC8
    ensures Step(0x178A_2BC8, 0) == 0x95A8_C0A9 && Step(0x95A8_C0A9, 0) == 0xAF9F_B38C
  {
  }

  // ---------------------------------------------------------------------------
  // Cycles that write

  /** At a matching chunk whose length field is -12 the cursor of `SetChunk` stays where
      it is, and each lap writes the replacement again: the stream fills up and throws. */
  lemma {:induction false} SetStallThrows(raw: seq<byte>, k: ChunkType, w: seq<byte>, off: int32, room: nat)
    requires |raw| < StreamLimit && CanReadHeader(raw, off as int) && TypeAt(raw, off as int) == k
    requires Add(MinimumChunkLength as int32, LengthAt(raw, off as int)) == 0 && |w| > 0
    ensures SetWalk(raw, k, Some(w), off, room, {}) == Throws
    decreases room
  {
    if |w| <= room {
      SetStallThrows(raw, k, w, off, room - |w|);
    }
  }

  /** A buffer holding one gAMA chunk header whose length field is -12. */
  function StalledGamma(): (raw: seq<byte>)
    ensures |raw| == 16 && CanReadHeader(raw, PayloadOffset)
    ensures LengthAt(raw, PayloadOffset) == -12 && TypeAt(raw, PayloadOffset) == Gamma
  {
    var raw := Signature + [0xFF, 0xFF, 0xFF, 0xF4, 103, 65, 77, 65];
    assert raw[8..12] == [0xFF, 0xFF, 0xFF, 0xF4] && raw[12..16] == [103, 65, 77, 65];
    assert AsciiString([103, 65, 77, 65]) == "gAMA";
    raw
  }

  /** `SetChunk("gAMA", 4, 389)` on that buffer throws instead of looping for ever. */
  lemma SetStallExample()
    ensures SetResult(StalledGamma(), "gAMA", 4, 389) == Throws
  {
    var raw := StalledGamma();
    assert GetChunk("gAMA") == Gamma;
    assert AsciiBytes("gAMA") == [103, 65, 77, 65];
    var w := ReplacementFor("gAMA", 4, 389).value;
    SetStallThrows(raw, Gamma, w, PayloadOffset as int32, Room(raw[..PayloadOffset]));
  }

  /** A buffer whose empty IDAT chunk is followed by an sRGB chunk with length field -24,
      which sends the cursor back to the IDAT chunk. */
  function LoopingColorSpace(): (raw: seq<byte>)
    ensures |raw| == 28 && raw[..PayloadOffset] == Signature
  {
    Signature + [0, 0, 0, 0, 73, 68, 65, 84, 0, 0, 0, 0, 0xFF, 0xFF, 0xFF, 0xE8, 115, 82, 71, 66]
  }

  /** The first chunk header of `LoopingColorSpace`: an empty IDAT chunk. */
  lemma LoopingImageDataHeader()
    ensures CanReadHeader(LoopingColorSpace(), 8) && CanCopy(LoopingColorSpace(), 8, 12)
    ensures LengthAt(LoopingColorSpace(), 8) == 0 && TypeAt(LoopingColorSpace(), 8) == ImageData
  {
    var raw := LoopingColorSpace();
    var chunks: seq<byte> := [0, 0, 0, 0, 73, 68, 65, 84, 0, 0, 0, 0, 0xFF, 0xFF, 0xFF, 0xE8, 115, 82, 71, 66];
    assert raw == Signature + chunks && raw[8..] == chunks;
    assert raw[8..12] == chunks[..4] == [chunks[0], chunks[1], chunks[2], chunks[3]] == [0, 0, 0, 0];
    assert raw[12..16] == chunks[4..8] == [chunks[4], chunks[5], chunks[6], chunks[7]] == [73, 68, 65, 84];
    assert AsciiString([73, 68, 65, 84]) == "IDAT";
  }

  /** The second chunk header of `LoopingColorSpace`: sRGB with length field -24. */
  lemma LoopingColorSpaceHeader()
    ensures CanReadHeader(LoopingColorSpace(), 20)
    ensures LengthAt(LoopingColorSpace(), 20) == -24 && TypeAt(LoopingColorSpace(), 20) == RgbColorSpace
  {
    var raw := LoopingColorSpace();
    var chunks: seq<byte> := [0, 0, 0, 0, 73, 68, 65, 84, 0, 0, 0, 0, 0xFF, 0xFF, 0xFF, 0xE8, 115, 82, 71, 66];
    assert raw == Signature + chunks && raw[8..] == chunks;
    assert raw[20..24] == chunks[12..16] == [chunks[12], chunks[13], chunks[14], chunks[15]] == [0xFF, 0xFF, 0xFF, 0xE8];
    assert raw[24..28] == chunks[16..20] == [chunks[16], chunks[17], chunks[18], chunks[19]] == [115, 82, 71, 66];
    assert AsciiString([115, 82, 71, 66]) == "sRGB";
  }

  /** Each lap of `RemoveChunk(RgbColorSpace)` over that buffer copies the IDAT chunk and
      jumps back: 12 bytes a lap, until the stream throws. */
  lemma {:induction false} RemoveLoopThrows(room: nat, quiet: set<int>)
    requires quiet == {} || quiet == {20}
    ensures RemoveWalk(LoopingColorSpace(), RgbColorSpace, 8, room, quiet) == Throws
    decreases room
  {
    var raw := LoopingColorSpace();
    LoopingImageDataHeader();
    LoopingColorSpaceHeader();
    if 12 <= room {
      assert Add(12, -24) == -12 && Add(20, -12) == 8;
      assert RemoveWalk(raw, RgbColorSpace, 20, room - 12, {}) == RemoveWalk(raw, RgbColorSpace, 8, room - 12, {20});
      RemoveLoopThrows(room - 12, {20});
    }
  }

  /** `RemoveChunk(RgbColorSpace)` on that buffer throws instead of looping for ever. */
  lemma RemoveLoopExample()
    ensures RemoveResult(LoopingColorSpace(), RgbColorSpace) == Throws
  {
    RemoveLoopThrows(Room(LoopingColorSpace()[..PayloadOffset]), {});
  }
}
