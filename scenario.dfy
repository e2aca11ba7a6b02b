/**
 * What the image editor does to a PNG file it has just written: it opens the file,
 * removes every sRGB chunk, inserts a gAMA chunk holding 389 (in units of 1/100000, a
 * gamma of 0.00389) after the IHDR chunk, and saves the buffer back.
 */
module Editor {
  import opened Encoding
  import opened Crc
  import opened PngFormat
  import opened ChunkWalk
  import opened PngBinary

  /** The gAMA chunk the editor inserts. */
  function GammaChunk(): (c: Chunk)
    ensures ValidChunk(c) && CrcMatches(c) && Kind(c) == Gamma && c.data == [0, 0, 1, 0x85]
  {
    assert AsciiString([103, 65, 77, 65]) == "gAMA";
    assert Int32Bytes(389) == [0, 0, 1, 0x85];
    NewChunk([103, 65, 77, 65], Int32Bytes(389))
  }

  /** On a well-formed file, removing the sRGB chunks and then inserting gAMA both
      succeed; the result is well formed, keeps the signature, holds no sRGB chunk, and
      its chunks are the original ones without sRGB, with the gAMA chunk (whose CRC is
      correct) right after the leading IHDR chunks. */
  lemma RemoveColorSpaceInsertGamma(raw: seq<byte>)
    requires WellFormed(raw) && |raw| + 16 < StreamLimit
    ensures RemoveResult(raw, RgbColorSpace).Done?
    ensures var removed := RemoveResult(raw, RgbColorSpace).output;
      && WellFormed(removed) && |removed| <= |raw|
      && InsertResult(removed, "gAMA", 4, 389).Done?
      && var out := InsertResult(removed, "gAMA", 4, 389).output;
         && WellFormed(out) && out[..PayloadOffset] == raw[..PayloadOffset]
         && Chunks(out) == InsertAfterHeaders(Without(Chunks(raw), RgbColorSpace), GammaChunk())
         && (forall i :: 0 <= i < |Chunks(out)| ==> Kind(Chunks(out)[i]) != RgbColorSpace)
  {
    RemoveChunkWellFormed(raw, RgbColorSpace);
    var removed := RemoveResult(raw, RgbColorSpace).output;
    assert AsciiBytes("gAMA")[..4] == [103, 65, 77, 65];
    InsertChunkWellFormed(removed, "gAMA", 389);
    var kept := Without(Chunks(raw), RgbColorSpace);
    WithoutMembers(Chunks(raw), RgbColorSpace);
    InsertKeepsKinds(kept, GammaChunk(), RgbColorSpace);
  }

  /** Inserting a chunk not of kind `k` into a list without kind `k` leaves none. */
  lemma InsertKeepsKinds(cs: seq<Chunk>, c: Chunk, k: ChunkType)
    requires forall d :: d in cs ==> Kind(d) != k
    requires Kind(c) != k
    ensures forall i :: 0 <= i < |InsertAfterHeaders(cs, c)| ==> Kind(InsertAfterHeaders(cs, c)[i]) != k
  {
    var r := InsertAfterHeaders(cs, c);
    var n := LeadingHeaders(cs);
    forall i | 0 <= i < |r|
      ensures Kind(r[i]) != k
    {
      if n == |cs| {
        assert r[i] in cs;
      } else if i < n {
        assert r[i] == r[..n][i] == cs[i];
      } else if i > n {
        assert r[i] == r[n + 1..][i - n - 1] == cs[n..][i - n - 1];
      }
    }
  }

  /** Lines 146-150 of MainWindow.xaml.cs: opens the file, removes sRGB, inserts
      gAMA and returns the bytes `Save` writes back. `None` when opening or an edit
      throws, which on a well-formed file happens only when the signature is wrong. */
  method SaveWithGamma(g: Global, contents: seq<byte>) returns (saved: Option<seq<byte>>)
    requires g.Valid() && WellFormed(contents) && |contents| + 16 < StreamLimit
    ensures saved.Some? <==> contents[..PayloadOffset] == Signature
    ensures saved.Some? ==>
      && WellFormed(saved.value) && saved.value[..PayloadOffset] == Signature
      && Chunks(saved.value) == InsertAfterHeaders(Without(Chunks(contents), RgbColorSpace), GammaChunk())
  {
    var png := Png.Open(Some(contents));
    if png.None? {
      return None;
    }
    var p := png.value;
    RemoveColorSpaceInsertGamma(contents);
    var thrown := p.RemoveChunk(RgbColorSpace);
    if thrown {
      return None;
    }
    thrown := p.InsertChunk(g, "gAMA", 4, 389);
    if thrown {
      return None;
    }
    return Some(p.rawImageData);
  }
}
