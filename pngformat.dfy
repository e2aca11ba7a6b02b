/**
 * The PNG file layout as the chunk engine sees it: the 8-byte signature, the
 * chunk-type names it recognises, and a well-formed buffer read as a list of
 * chunks (length field, type field, data, CRC field). The list-level
 * operations at the end state what removing, inserting and replacing chunks
 * mean; the byte-level walks of class `Png` are proved against them.
 */
module PngFormat {
  import opened Encoding
  import opened Crc

  /** Layout constants of class `Png`. */
  const PayloadOffset: int := 8
  const LengthOfLengthField: int := 4
  const LengthOfTypeField: int := 4
  const LengthOfChecksumField: int := 4
  const MinimumChunkLength: int := LengthOfLengthField + LengthOfTypeField + LengthOfChecksumField

  /** The PNG file signature. */
  const Signature: seq<byte> := [137, 80, 78, 71, 13, 10, 26, 10]

  /** The chunk kinds the engine recognises, in the order of the source's enum. */
  datatype ChunkType =
    | ImageData | PaletteTable | ImageTrailer | ImageHeader | Transparency
    | Chromaticities | Gamma | IccProfile | SignificantBits | RgbColorSpace
    | IsoText | CompressedText | UnicodeText
    | BackgroundColor | Histogram | PhyisicalDimensions | SuggestedPalette
    | Time
    | Unknown

  /** The kind named by a four-letter chunk-type string; every other string is `Unknown`. */
  function GetChunk(s: string): ChunkType
  {
    match s
    case "gAMA" => Gamma
    case "IHDR" => ImageHeader
    case "IDAT" => ImageData
    case "IEND" => ImageTrailer
    case "PLTE" => PaletteTable
    case "tRNS" => Transparency
    case "cHRM" => Chromaticities
    case "iCCP" => IccProfile
    case "sBIT" => SignificantBits
    case "sRGB" => RgbColorSpace
    case "tEXt" => IsoText
    case "zTXt" => CompressedText
    case "iTXt" => UnicodeText
    case "bKGD" => BackgroundColor
    case "hIST" => Histogram
    case "pHYs" => PhyisicalDimensions
    case "sPLT" => SuggestedPalette
    case "tIME" => Time
    case _ => Unknown
  }

  /** The chunk-type name of a recognised kind, as written in the PNG standard. */
  function Tag(k: ChunkType): (s: string)
    requires k != Unknown
    ensures |s| == 4 && IsAscii(s)
  {
    match k
    case Gamma => "gAMA"
    case ImageHeader => "IHDR"
    case ImageData => "IDAT"
    case ImageTrailer => "IEND"
    case PaletteTable => "PLTE"
    case Transparency => "tRNS"
    case Chromaticities => "cHRM"
    case IccProfile => "iCCP"
    case SignificantBits => "sBIT"
    case RgbColorSpace => "sRGB"
    case IsoText => "tEXt"
    case CompressedText => "zTXt"
    case UnicodeText => "iTXt"
    case BackgroundColor => "bKGD"
    case Histogram => "hIST"
    case PhyisicalDimensions => "pHYs"
    case SuggestedPalette => "sPLT"
    case Time => "tIME"
  }

  /** `GetChunk` recognises exactly the eighteen names: a string names kind `k`
      if and only if it is `Tag(k)`; so distinct names give distinct kinds. */
  lemma GetChunkIsTag(s: string, k: ChunkType)
    requires k != Unknown
    ensures GetChunk(s) == k <==> s == Tag(k)
  {
    GetChunkOfTag(k);
    if GetChunk(s) != Unknown {
      TagOfGetChunk(s);
    }
  }

  lemma GetChunkOfTag(k: ChunkType)
    requires k != Unknown
    ensures GetChunk(Tag(k)) == k
  {
  }

  lemma TagOfGetChunk(s: string)
    requires GetChunk(s) != Unknown
    ensures s == Tag(GetChunk(s))
  {
  }

  lemma GetChunkUnknown(s: string)
    ensures GetChunk(s) == Unknown <==> forall k :: k != Unknown ==> s != Tag(k)
  {
    if GetChunk(s) != Unknown {
      GetChunkIsTag(s, GetChunk(s));
    }
  }

  /** The kind named by the four bytes of a type field, decoded as ASCII. */
  function KindOf(tag: seq<byte>): ChunkType
  {
    GetChunk(AsciiString(tag))
  }

  /** One chunk: its type field, its data and its CRC field; the length field is `|data|`. */
  datatype Chunk = Chunk(tag: seq<byte>, data: seq<byte>, crc: seq<byte>)

  predicate ValidChunk(c: Chunk)
  {
    |c.tag| == 4 && |c.crc| == 4 && |c.data| < 0x8000_0000
  }

  predicate AllValid(cs: seq<Chunk>)
  {
    forall i :: 0 <= i < |cs| ==> ValidChunk(cs[i])
  }

  function Kind(c: Chunk): ChunkType
  {
    KindOf(c.tag)
  }

  /** The bytes of one chunk on file. */
  function Bytes(c: Chunk): (b: seq<byte>)
    requires ValidChunk(c)
    ensures |b| == MinimumChunkLength + |c.data|
  {
    Int32Bytes(|c.data| as int32) + c.tag + c.data + c.crc
  }

  /** The CRC field holds the PNG CRC of the type and data fields. */
  predicate CrcMatches(c: Chunk)
  {
    c.crc == CrcBytes(PngCrc(c.tag + c.data))
  }

  /** The bytes of a chunk list on file. */
  function Serialize(cs: seq<Chunk>): (b: seq<byte>)
    requires AllValid(cs)
  {
    if cs == [] then [] else Bytes(cs[0]) + Serialize(cs[1..])
  }

  /** The length field of the chunk starting at `off`. */
  function LengthAt(raw: seq<byte>, off: int): int32
    requires 0 <= off && off + LengthOfLengthField <= |raw|
  {
    Int32Of(raw[off..off + LengthOfLengthField])
  }

  /** The kind named by the type field of the chunk starting at `off`. */
  function TypeAt(raw: seq<byte>, off: int): ChunkType
    requires 0 <= off && off + LengthOfLengthField + LengthOfTypeField <= |raw|
  {
    KindOf(raw[off + LengthOfLengthField..off + LengthOfLengthField + LengthOfTypeField])
  }

  /** The chunks of `raw[off..]` when those bytes are an exact sequence of chunks
      with non-negative length fields, and `None` otherwise. */
  function ParseFrom(raw: seq<byte>, off: int): Option<seq<Chunk>>
    requires 0 <= off <= |raw|
    decreases |raw| - off
  {
    if off == |raw| then Some([])
    else if off + MinimumChunkLength > |raw| then None
    else
      var len := LengthAt(raw, off) as int;
      if len < 0 || off + MinimumChunkLength + len > |raw| then None
      else
        var c := Chunk(raw[off + 4..off + 8], raw[off + 8..off + 8 + len], raw[off + 8 + len..off + 12 + len]);
        match ParseFrom(raw, off + MinimumChunkLength + len)
        case None => None
        case Some(rest) => Some([c] + rest)
  }

  /** A buffer that, after the signature bytes, is an exact sequence of chunks. */
  predicate WellFormed(raw: seq<byte>)
  {
    |raw| >= PayloadOffset && ParseFrom(raw, PayloadOffset).Some?
  }

  function Chunks(raw: seq<byte>): seq<Chunk>
    requires WellFormed(raw)
  {
    ParseFrom(raw, PayloadOffset).value
  }

  /** A successful parse at `off < |raw|` starts with the chunk whose fields are at `off`,
      and continues with the parse of the bytes after it. */
  lemma ParseFromFirst(raw: seq<byte>, off: int)
    requires 0 <= off < |raw| && ParseFrom(raw, off).Some?
    ensures off + MinimumChunkLength <= |raw|
    ensures var cs, len := ParseFrom(raw, off).value, LengthAt(raw, off) as int;
      && cs != [] && 0 <= len && off + MinimumChunkLength + len <= |raw|
      && ValidChunk(cs[0]) && |cs[0].data| == len && cs[0].tag == raw[off + 4..off + 8]
      && raw[off..off + MinimumChunkLength + len] == Bytes(cs[0])
      && ParseFrom(raw, off + MinimumChunkLength + len) == Some(cs[1..])
  {
    var cs, len := ParseFrom(raw, off).value, LengthAt(raw, off) as int;
    var next := off + MinimumChunkLength + len;
    var c := cs[0];
    Int32RoundTrip(len as int32, raw[off..off + 4]);
    assert raw[off..next] == raw[off..off + 4] + raw[off + 4..off + 8] + raw[off + 8..off + 8 + len]
      + raw[off + 8 + len..next];
  }

  /** The kind read at a chunk's offset is the kind of its type field. */
  lemma TypeAtTag(raw: seq<byte>, off: int, c: Chunk)
    requires 0 <= off && off + 8 <= |raw| && c.tag == raw[off + 4..off + 8]
    ensures TypeAt(raw, off) == Kind(c)
  {
  }

  /** What parsing finds is valid and serialises back to the parsed bytes. */
  lemma {:induction false} ParseFromSerializes(raw: seq<byte>, off: int)
    requires 0 <= off <= |raw|
    requires ParseFrom(raw, off).Some?
    ensures AllValid(ParseFrom(raw, off).value)
    ensures Serialize(ParseFrom(raw, off).value) == raw[off..]
    decreases |raw| - off
  {
    if off < |raw| {
      ParseFromFirst(raw, off);
      var next := off + MinimumChunkLength + LengthAt(raw, off) as int;
      ParseFromSerializes(raw, next);
      var cs := ParseFrom(raw, off).value;
      assert forall i :: 1 <= i < |cs| ==> cs[i] == cs[1..][i - 1];
      assert AllValid(cs);
      assert Serialize(cs) == Bytes(cs[0]) + Serialize(cs[1..]);
      assert raw[off..] == raw[off..next] + raw[next..];
    }
  }

  /** Serialised valid chunks parse back to the same chunks, whatever precedes them. */
  lemma {:induction false} SerializeParses(raw: seq<byte>, off: int, cs: seq<Chunk>)
    requires AllValid(cs) && 0 <= off <= |raw|
    requires raw[off..] == Serialize(cs)
    ensures ParseFrom(raw, off) == Some(cs)
    decreases |cs|
  {
    if cs != [] {
      var next := SerializeParsesStep(raw, off, cs);
      SerializeParses(raw, next, cs[1..]);
    }
  }

  /** The inductive step of `SerializeParses`: where the first chunk ends, the rest is
      serialised, and parsing the rest gives parsing the whole. */
  lemma SerializeParsesStep(raw: seq<byte>, off: int, cs: seq<Chunk>) returns (next: int)
    requires AllValid(cs) && cs != [] && 0 <= off <= |raw|
    requires raw[off..] == Serialize(cs)
    ensures off < next <= |raw| && raw[next..] == Serialize(cs[1..]) && AllValid(cs[1..])
    ensures ParseFrom(raw, next) == Some(cs[1..]) ==> ParseFrom(raw, off) == Some(cs)
  {
    SplitFirst(raw, off, cs);
    next := off + |Bytes(cs[0])|;
    if ParseFrom(raw, next) == Some(cs[1..]) {
      ParseFromCons(raw, off, cs);
    }
  }

  lemma SplitFirst(raw: seq<byte>, off: int, cs: seq<Chunk>)
    requires AllValid(cs) && cs != [] && 0 <= off <= |raw|
    requires raw[off..] == Serialize(cs)
    ensures off + |Bytes(cs[0])| <= |raw|
    ensures raw[off..off + |Bytes(cs[0])|] == Bytes(cs[0])
    ensures raw[off + |Bytes(cs[0])|..] == Serialize(cs[1..])
  {
    var b := Bytes(cs[0]);
    assert raw[off..] == b + Serialize(cs[1..]);
    assert raw[off..off + |b|] == raw[off..][..|b|];
    assert raw[off + |b|..] == raw[off..][|b|..];
  }

  /** Parsing at the start of a chunk's bytes yields that chunk, then whatever follows parses to. */
  lemma ParseFromCons(raw: seq<byte>, off: int, cs: seq<Chunk>)
    requires cs != [] && ValidChunk(cs[0]) && 0 <= off && off + |Bytes(cs[0])| <= |raw|
    requires raw[off..off + |Bytes(cs[0])|] == Bytes(cs[0])
    requires ParseFrom(raw, off + |Bytes(cs[0])|) == Some(cs[1..])
    ensures ParseFrom(raw, off) == Some(cs)
  {
    FieldsOfBytes(raw, off, cs[0]);
    assert [cs[0]] + cs[1..] == cs;
  }

  /** The fields of a chunk's bytes, read back where they were written. */
  lemma FieldsOfBytes(raw: seq<byte>, off: int, c: Chunk)
    requires ValidChunk(c) && 0 <= off && off + |Bytes(c)| <= |raw|
    requires raw[off..off + |Bytes(c)|] == Bytes(c)
    ensures LengthAt(raw, off) as int == |c.data|
    ensures raw[off + 4..off + 8] == c.tag
    ensures raw[off + 8..off + 8 + |c.data|] == c.data
    ensures raw[off + 8 + |c.data|..off + 12 + |c.data|] == c.crc
  {
    var len, b := |c.data|, Bytes(c);
    LengthFieldOfBytes(raw, off, c);
    assert b[4..8] == c.tag && b[8..8 + len] == c.data && b[8 + len..] == c.crc;
    SliceOfSlice(raw, off, off + |b|, 4, 8);
    SliceOfSlice(raw, off, off + |b|, 8, 8 + len);
    SliceOfSlice(raw, off, off + |b|, 8 + len, |b|);
  }

  lemma LengthFieldOfBytes(raw: seq<byte>, off: int, c: Chunk)
    requires ValidChunk(c) && 0 <= off && off + |Bytes(c)| <= |raw|
    requires raw[off..off + |Bytes(c)|] == Bytes(c)
    ensures LengthAt(raw, off) as int == |c.data|
  {
    var b := Bytes(c);
    assert b[..4] == Int32Bytes(|c.data| as int32);
    SliceOfSlice(raw, off, off + |b|, 0, 4);
    Int32RoundTrip(|c.data| as int32, raw[off..off + 4]);
  }

  lemma SliceOfSlice(s: seq<byte>, lo: int, hi: int, i: int, j: int)
    requires 0 <= lo <= hi <= |s| && 0 <= i <= j <= hi - lo
    ensures s[lo..hi][i..j] == s[lo + i..lo + j]
  {
    assert forall k :: 0 <= k < j - i ==> s[lo..hi][i..j][k] == s[lo + i..lo + j][k];
  }

  /** A signature followed by serialised chunks is a well-formed buffer with those chunks. */
  lemma WellFormedOfSerialize(header: seq<byte>, cs: seq<Chunk>)
    requires |header| == PayloadOffset && AllValid(cs)
    ensures WellFormed(header + Serialize(cs)) && Chunks(header + Serialize(cs)) == cs
  {
    SerializeParses(header + Serialize(cs), |header|, cs);
  }

  lemma {:induction false} SerializeAppend(a: seq<Chunk>, b: seq<Chunk>)
    requires AllValid(a) && AllValid(b)
    ensures AllValid(a + b)
    ensures Serialize(a + b) == Serialize(a) + Serialize(b)
    decreases |a|
  {
    assert forall i :: 0 <= i < |a + b| ==> (a + b)[i] == if i < |a| then a[i] else b[i - |a|];
    if a != [] {
      var ab := a + b;
      assert ab != [] && ab[0] == a[0] && ab[1..] == a[1..] + b;
      SerializeAppend(a[1..], b);
      assert Serialize(ab) == Bytes(a[0]) + Serialize(a[1..] + b);
      assert Serialize(a) == Bytes(a[0]) + Serialize(a[1..]);
    } else {
      assert a + b == b;
    }
  }

  // ---------------------------------------------------------------------------
  // Removing every chunk of one kind

  /** The chunks of `cs` whose kind is not `k`, in their original order. */
  function Without(cs: seq<Chunk>, k: ChunkType): (r: seq<Chunk>)
    ensures |r| <= |cs|
    ensures AllValid(cs) ==> AllValid(r) && |Serialize(r)| <= |Serialize(cs)|
  {
    if cs == [] then []
    else if Kind(cs[0]) != k then [cs[0]] + Without(cs[1..], k)
    else Without(cs[1..], k)
  }

  /** A chunk survives if and only if it was there and is not of the removed kind. */
  lemma {:induction false} WithoutMembers(cs: seq<Chunk>, k: ChunkType)
    ensures forall c :: c in Without(cs, k) <==> c in cs && Kind(c) != k
    decreases |cs|
  {
    if cs != [] {
      WithoutMembers(cs[1..], k);
      assert forall c :: c in cs <==> c == cs[0] || c in cs[1..];
    }
  }

  /** Nothing is removed when no chunk has the kind. */
  lemma {:induction false} WithoutAbsent(cs: seq<Chunk>, k: ChunkType)
    requires forall i :: 0 <= i < |cs| ==> Kind(cs[i]) != k
    ensures Without(cs, k) == cs
    decreases |cs|
  {
    if cs != [] {
      WithoutAbsent(cs[1..], k);
    }
  }

  /** Removing a kind twice is removing it once. */
  lemma WithoutIdempotent(cs: seq<Chunk>, k: ChunkType)
    ensures Without(Without(cs, k), k) == Without(cs, k)
  {
    var r := Without(cs, k);
    WithoutMembers(cs, k);
    assert forall i :: 0 <= i < |r| ==> r[i] in r;
    WithoutAbsent(r, k);
  }

  // ---------------------------------------------------------------------------
  // Inserting one chunk after the leading IHDR chunks

  /** The number of IHDR chunks at the front of the list. */
  function LeadingHeaders(cs: seq<Chunk>): (n: nat)
    ensures n <= |cs|
    ensures forall i :: 0 <= i < n ==> Kind(cs[i]) == ImageHeader
    ensures n < |cs| ==> Kind(cs[n]) != ImageHeader
  {
    if cs != [] && Kind(cs[0]) == ImageHeader then 1 + LeadingHeaders(cs[1..]) else 0
  }

  /** A chunk with the given type and data whose CRC field is correct. */
  function NewChunk(tag: seq<byte>, data: seq<byte>): (c: Chunk)
    requires |tag| == 4 && |data| < 0x8000_0000
    ensures ValidChunk(c) && CrcMatches(c) && c.tag == tag && c.data == data
  {
    Chunk(tag, data, CrcBytes(PngCrc(tag + data)))
  }

  /** The CRC field of a new chunk is the bit-at-a-time reference CRC-32 of its type and data. */
  lemma NewChunkCrc(tag: seq<byte>, data: seq<byte>)
    requires |tag| == 4 && |data| < 0x8000_0000
    ensures NewChunk(tag, data).crc == CrcBytes(BitwiseCrc(0xFFFF_FFFF, tag + data) ^ 0xFFFF_FFFF)
  {
    CrcIsBitwise(0xFFFF_FFFF, tag + data);
    assert PngCrc(tag + data) == BitwiseCrc(0xFFFF_FFFF, tag + data) ^ 0xFFFF_FFFF;
  }

  /** The list with `c` placed right after the leading IHDR chunks, or the list
      unchanged when every chunk is an IHDR chunk. */
  function InsertAfterHeaders(cs: seq<Chunk>, c: Chunk): (r: seq<Chunk>)
    ensures LeadingHeaders(cs) < |cs| ==>
              |r| == |cs| + 1 && r[LeadingHeaders(cs)] == c
              && r[..LeadingHeaders(cs)] == cs[..LeadingHeaders(cs)]
              && r[LeadingHeaders(cs) + 1..] == cs[LeadingHeaders(cs)..]
    ensures LeadingHeaders(cs) == |cs| ==> r == cs
  {
    var n := LeadingHeaders(cs);
    if n < |cs| then cs[..n] + [c] + cs[n..] else cs
  }

  /** Inserting adds exactly one copy of the chunk, or nothing for a list of IHDR chunks
      only; a chunk that is not IHDR becomes the first chunk other than IHDR. */
  lemma InsertAfterHeadersContents(cs: seq<Chunk>, c: Chunk)
    ensures multiset(InsertAfterHeaders(cs, c))
            == if LeadingHeaders(cs) < |cs| then multiset(cs) + multiset{c} else multiset(cs)
    ensures LeadingHeaders(cs) < |cs| && Kind(c) != ImageHeader ==>
              LeadingHeaders(InsertAfterHeaders(cs, c)) == LeadingHeaders(cs)
  {
    var n := LeadingHeaders(cs);
    if n < |cs| {
      MultisetOfInsert(cs, n, c);
      LeadingHeadersOfInsert(cs, n, c);
    }
  }

  lemma MultisetOfInsert(cs: seq<Chunk>, n: nat, c: Chunk)
    requires n <= |cs|
    ensures multiset(cs[..n] + [c] + cs[n..]) == multiset(cs) + multiset{c}
  {
    assert cs == cs[..n] + cs[n..];
  }

  /** A non-IHDR chunk placed after the `n` leading IHDR chunks is the first non-IHDR chunk. */
  lemma {:induction false} LeadingHeadersOfInsert(cs: seq<Chunk>, n: nat, c: Chunk)
    requires n == LeadingHeaders(cs) < |cs|
    ensures Kind(c) != ImageHeader ==> LeadingHeaders(cs[..n] + [c] + cs[n..]) == n
    decreases n
  {
    var r := cs[..n] + [c] + cs[n..];
    if n > 0 {
      LeadingHeadersOfInsert(cs[1..], n - 1, c);
      assert r[1..] == cs[1..][..n - 1] + [c] + cs[1..][n - 1..];
    }
  }

  // ---------------------------------------------------------------------------
  // Replacing every chunk of one kind

  /** The list with every chunk of kind `k` replaced by `r`. */
  function Replace(cs: seq<Chunk>, k: ChunkType, r: Chunk): (out: seq<Chunk>)
    ensures |out| == |cs|
    ensures forall i :: 0 <= i < |cs| ==> out[i] == if Kind(cs[i]) == k then r else cs[i]
  {
    if cs == [] then [] else [if Kind(cs[0]) == k then r else cs[0]] + Replace(cs[1..], k, r)
  }

  /** Replacing is idempotent when the replacement has the replaced kind, and
      leaves no chunk of that kind when it has another. */
  lemma ReplaceTwice(cs: seq<Chunk>, k: ChunkType, r: Chunk)
    ensures Kind(r) == k ==> Replace(Replace(cs, k, r), k, r) == Replace(cs, k, r)
    ensures Kind(r) != k ==> forall i :: 0 <= i < |cs| ==> Kind(Replace(cs, k, r)[i]) != k
  {
  }

  lemma ReplaceValid(cs: seq<Chunk>, k: ChunkType, r: Chunk)
    requires AllValid(cs) && ValidChunk(r)
    ensures AllValid(Replace(cs, k, r))
  {
  }

  /** Replacing a kind no chunk has changes nothing. */
  lemma ReplaceAbsent(cs: seq<Chunk>, k: ChunkType, r: Chunk)
    requires forall i :: 0 <= i < |cs| ==> Kind(cs[i]) != k
    ensures Replace(cs, k, r) == cs
  {
  }
}
