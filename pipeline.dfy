/**
 * `extract_cpio` and `rpm2cpio`: walk the package, pick the transform the compressor
 * name selects, and produce the bytes written to the output, or the reason none are.
 * An `Ok(bytes)` result stands for the single write of `bytes`; an `Err` for no write.
 */
module Pipeline {

  import opened Bytes
  import opened Errors
  import opened Cursor
  import opened Header
  import opened Registry

  /** The outcome of `extract_cpio` over an image whose cursor is at `p`, just past the magic. */
  function Extract(data: seq<byte>, p: nat, codecs: Codecs): Result<seq<byte>>
  {
    match Walk(data, p)
    case Err(e) => Err(e)
    case Ok(w) => Decompress(w.compressor, codecs, w.payload)
  }

  /** The outcome of `rpm2cpio` over an image whose cursor starts at `p`. */
  function Convert(data: seq<byte>, p: nat, codecs: Codecs): Result<seq<byte>>
  {
    if HasMagic(data, p) then Extract(data, p + 4, codecs) else Err(NotAnRpm)
  }

  /** The lead fields after the magic (versions, type, architecture, name, OS, signature type, reserved), read and dropped. */
  method SkipLead(r: Reader)
    modifies r
    ensures r.pos == Advance(r.data, old(r.pos), 92)
  {
    ghost var p := r.pos;
    var major := r.Read(1);
    var minor := r.Read(1);
    AdvanceAdd(r.data, p, 1, 1);
    var rpmType := r.Read(2);
    AdvanceAdd(r.data, p, 2, 2);
    var arch := r.Read(2);
    AdvanceAdd(r.data, p, 4, 2);
    var name := r.Read(66);
    AdvanceAdd(r.data, p, 6, 66);
    var os := r.Read(2);
    AdvanceAdd(r.data, p, 72, 2);
    var sigType := r.Read(2);
    AdvanceAdd(r.data, p, 74, 2);
    var reserved := r.Read(16);
    AdvanceAdd(r.data, p, 76, 16);
  }

  /**
   * The 16-byte preamble shared by the signature and the metadata header: magic,
   * version and reserved bytes are dropped; the index count and data length are returned.
   */
  method ReadPreamble(r: Reader) returns (idxLen: seq<byte>, dataLen: seq<byte>)
    modifies r
    ensures idxLen == Window(r.data, old(r.pos) + 8, 4)
    ensures dataLen == Window(r.data, old(r.pos) + 12, 4)
    ensures r.pos == Advance(r.data, old(r.pos), 16)
  {
    ghost var p := r.pos;
    var magic := r.Read(3);
    var version := r.Read(1);
    AdvanceAdd(r.data, p, 3, 1);
    var reserved := r.Read(4);
    AdvanceAdd(r.data, p, 4, 4);
    WindowAfterAdvance(r.data, p, 8, 0, 4);
    idxLen := r.Read(4);
    AdvanceAdd(r.data, p, 8, 4);
    WindowAfterAdvance(r.data, p, 12, 0, 4);
    dataLen := r.Read(4);
    AdvanceAdd(r.data, p, 12, 4);
  }

  /** One tag entry: identifier, data type, offset and count; the identifier and the offset are returned. */
  method ReadTagEntry(r: Reader) returns (tagId: nat, tagOffset: nat)
    modifies r
    ensures tagId == B2I(Window(r.data, old(r.pos), 4))
    ensures tagOffset == B2I(Window(r.data, old(r.pos) + 8, 4))
    ensures r.pos == Advance(r.data, old(r.pos), 16)
  {
    ghost var p := r.pos;
    var id := r.Read(4);
    tagId := B2I(id);
    var dataType := r.Read(4);
    AdvanceAdd(r.data, p, 4, 4);
    WindowAfterAdvance(r.data, p, 8, 0, 4);
    var offset := r.Read(4);
    tagOffset := B2I(offset);
    AdvanceAdd(r.data, p, 8, 4);
    var dataCount := r.Read(4);
    AdvanceAdd(r.data, p, 12, 4);
  }

  /**
   * One pass of the tag loop: reads entry `tag`; for a payload-compressor entry it
   * reads the name at `dataOffsetBase` plus the entry's offset and returns the
   * cursor to the next entry.
   */
  method VisitTag(r: Reader, ghost here: nat, dataOffsetBase: nat, ghost tag: nat, compressor: Option<seq<byte>>)
    returns (res: Result<Option<seq<byte>>>)
    requires r.pos == Advance(r.data, here, 16 * tag)
    requires ScanTags(r.data, here, dataOffsetBase, tag) == Ok(compressor)
    modifies r
    ensures res == ScanTags(r.data, here, dataOffsetBase, tag + 1)
    ensures res.Ok? ==> r.pos == Advance(r.data, here, 16 * (tag + 1))
  {
    TagEntryFields(r.data, here, tag, r.pos);
    var tagId, tagOffset := ReadTagEntry(r);
    ScanStep(r.data, here, dataOffsetBase, tag, compressor);
    res := Ok(compressor);
    if tagId == PAYLOAD_COMPRESSOR_TAG {
      var posBackup := r.Tell();
      r.Seek(dataOffsetBase + tagOffset);
      var found := ReadCString(r);
      if found.None? {
        return Err(UnterminatedName);
      }
      res := Ok(found);
      r.Seek(posBackup);
    }
  }

  /**
   * The tag loop: reads one fewer entry than the header declares, starting at the
   * cursor, and keeps the name of the last payload-compressor entry.
   */
  method ScanTagTable(r: Reader, idxLen: nat, dataOffsetBase: nat) returns (res: Result<Option<seq<byte>>>)
    modifies r
    ensures res == ScanTags(r.data, old(r.pos), dataOffsetBase, if idxLen >= 1 then idxLen - 1 else 0)
    ensures res.Ok? ==> r.pos == Advance(r.data, old(r.pos), 16 * (if idxLen >= 1 then idxLen - 1 else 0))
  {
    ghost var here := r.pos;
    var compressor: Option<seq<byte>> := None;
    var count := idxLen - 1;
    var tag := 0;
    while tag < count
      invariant 0 <= tag <= if count >= 0 then count else 0
      invariant r.pos == Advance(r.data, here, 16 * tag)
      invariant ScanTags(r.data, here, dataOffsetBase, tag) == Ok(compressor)
      decreases count - tag
    {
      var visited := VisitTag(r, here, dataOffsetBase, tag, compressor);
      if visited.Err? {
        ScanErrorPersists(r.data, here, dataOffsetBase, tag + 1, if idxLen >= 1 then idxLen - 1 else 0);
        return visited;
      }
      compressor := visited.value;
      tag := tag + 1;
    }
    res := Ok(compressor);
  }

  /** The lead and the signature preamble, then the seek to the metadata header. */
  method SkipSignature(r: Reader) returns (headerPos: nat)
    modifies r
    ensures headerPos == HeaderPos(r.data, old(r.pos)) && r.pos == headerPos
  {
    ghost var p := r.pos;
    SkipLead(r);
    var sigIdxLen, sigDataLen := ReadPreamble(r);
    WindowAfterAdvance(r.data, p, 92, 8, 4);
    WindowAfterAdvance(r.data, p, 92, 12, 4);
    headerPos := B2I(sigIdxLen) * 16 + B2I(sigDataLen) + 96 + 16 + 4;
    r.Seek(headerPos);
  }

  /** The walk up to the tag table: the lead and signature skip, then the metadata header preamble. */
  method ReadLayout(r: Reader) returns (idxLen: nat, dataLen: nat, here: nat)
    modifies r
    ensures idxLen == HeaderIndexCount(r.data, old(r.pos)) && dataLen == HeaderDataLength(r.data, old(r.pos))
    ensures here == TableStart(r.data, old(r.pos)) && r.pos == here
  {
    ghost var p := r.pos;
    var headerPos := SkipSignature(r);
    var hdrIdxLen, hdrDataLen := ReadPreamble(r);
    here := r.Tell();
    LayoutFromFields(r.data, p, headerPos, hdrIdxLen, hdrDataLen, here);
    idxLen, dataLen := B2I(hdrIdxLen), B2I(hdrDataLen);
  }

  /** `extract_cpio`: the lead and signature skip, the tag scan, the payload read and the dispatch. */
  method ExtractCpio(r: Reader, codecs: Codecs) returns (res: Result<seq<byte>>)
    modifies r
    ensures res == Extract(r.data, old(r.pos), codecs)
  {
    ghost var p, data := r.pos, r.data;
    var idxLen, dataLen, here := ReadLayout(r);
    var dataOffsetBase := here + idxLen * 16;
    assert dataOffsetBase == DataBase(data, p) && dataLen == HeaderDataLength(data, p);
    var scanned := ScanTagTable(r, idxLen, dataOffsetBase);
    assert scanned == ScanTags(data, TableStart(data, p), DataBase(data, p), TagsVisited(data, p));
    if scanned.Err? {
      ExtractFromParts(data, p, codecs, scanned, Payload(data, p));
      return Err(scanned.error);
    }
    r.Seek(dataOffsetBase + dataLen);
    var compressedData := r.ReadRest();
    assert compressedData == Payload(data, p);
    res := Decompress(scanned.value, codecs, compressedData);
    ExtractFromParts(data, p, codecs, scanned, compressedData);
  }

  lemma ExtractFromParts(data: seq<byte>, p: nat, codecs: Codecs, scanned: Result<Option<seq<byte>>>, payload: seq<byte>)
    requires scanned == ScanTags(data, TableStart(data, p), DataBase(data, p), TagsVisited(data, p))
    requires payload == Payload(data, p)
    ensures Extract(data, p, codecs) ==
      match scanned
      case Err(e) => Err(e)
      case Ok(name) => Decompress(name, codecs, payload)
  {
  }

  /** `rpm2cpio`, less the choice of streams: the magic check, then the extraction. */
  method Rpm2Cpio(r: Reader, codecs: Codecs) returns (out: Result<seq<byte>>)
    modifies r
    ensures out == Convert(r.data, old(r.pos), codecs)
    ensures !HasMagic(r.data, old(r.pos)) ==> r.pos == Advance(r.data, old(r.pos), 4)
  {
    var ok := IsRpm(r);
    if !ok {
      return Err(NotAnRpm);
    }
    out := ExtractCpio(r, codecs);
  }

  // ---------------------------------------------------------------- outcomes

  /** An image that does not start with the magic is refused, whatever follows. */
  lemma NotAnRpmRefused(data: seq<byte>, codecs: Codecs)
    requires !(|data| >= 4 && data[..4] == RPM_MAGIC)
    ensures Convert(data, 0, codecs) == Err(NotAnRpm)
  {
    HasMagicIff(data, 0);
  }

  /** With no compressor entry among the visited ones, the payload is output unchanged. */
  lemma UncompressedPassesThrough(data: seq<byte>, codecs: Codecs)
    requires HasMagic(data, 0)
    requires forall k :: 0 <= k < TagsVisited(data, 4) ==> TagId(data, TableStart(data, 4), k) != PAYLOAD_COMPRESSOR_TAG
    ensures Convert(data, 0, codecs) == Ok(Payload(data, 4))
  {
    var scanned := ScanTags(data, TableStart(data, 4), DataBase(data, 4), TagsVisited(data, 4));
    ScanFindsNothingIff(data, TableStart(data, 4), DataBase(data, 4), TagsVisited(data, 4));
    ExtractFromParts(data, 4, codecs, scanned, Payload(data, 4));
  }

  /** Otherwise the name of the last visited compressor entry chooses the transform applied to the payload. */
  lemma LastCompressorChooses(data: seq<byte>, codecs: Codecs, k: nat)
    requires HasMagic(data, 0)
    requires k < TagsVisited(data, 4) && TagId(data, TableStart(data, 4), k) == PAYLOAD_COMPRESSOR_TAG
    requires forall j :: k < j < TagsVisited(data, 4) ==> TagId(data, TableStart(data, 4), j) != PAYLOAD_COMPRESSOR_TAG
    requires NamesTerminated(data, TableStart(data, 4), DataBase(data, 4), TagsVisited(data, 4))
    ensures CString(data, DataBase(data, 4) + TagOffset(data, TableStart(data, 4), k)).Some?
    ensures Convert(data, 0, codecs) ==
      Decompress(CString(data, DataBase(data, 4) + TagOffset(data, TableStart(data, 4), k)), codecs, Payload(data, 4))
  {
    var scanned := ScanTags(data, TableStart(data, 4), DataBase(data, 4), TagsVisited(data, 4));
    ScanFindsLast(data, TableStart(data, 4), DataBase(data, 4), TagsVisited(data, 4), k);
    ExtractFromParts(data, 4, codecs, scanned, Payload(data, 4));
  }

  /** Every successful conversion started with the magic and either passed the payload through or decoded it with a registered transform. */
  lemma ConversionOutputs(data: seq<byte>, codecs: Codecs, out: seq<byte>)
    requires Convert(data, 0, codecs) == Ok(out)
    ensures HasMagic(data, 0)
    ensures out == Payload(data, 4) ||
      exists t :: Apply(t, codecs, Payload(data, 4)) == Some(out)
  {
    var w := Walk(data, 4).value;
    if w.compressor.Some? {
      var t := Table[w.compressor.value];
      assert Apply(t, codecs, Payload(data, 4)) == Some(out);
    }
  }

  // ---------------------------------------------------------------- concrete images

  /** `n` zero bytes. */
  function Zeros(n: nat): (z: seq<byte>)
    ensures |z| == n && forall i :: 0 <= i < n ==> z[i] == 0
  {
    seq(n, i => 0)
  }

  /** The preamble of a signature or metadata header with the given index count and data length. */
  function Preamble(idxLen: nat, dataLen: nat): (h: seq<byte>)
    requires idxLen < 0x1_0000_0000 && dataLen < 0x1_0000_0000
    ensures |h| == 16
  {
    [0x8E, 0xAD, 0xE8, 0x01] + Zeros(4) + Encode(idxLen, 4) + Encode(dataLen, 4)
  }

  const RAWDATA: seq<byte> := [0x72, 0x61, 0x77, 0x64, 0x61, 0x74, 0x61] // "rawdata"

  /** A slice of a concatenation that lies within one of its parts is a slice of that part. */
  lemma SliceOfConcat(u: seq<byte>, v: seq<byte>, p: nat, q: nat)
    requires p <= q <= |u| + |v|
    ensures q <= |u| ==> (u + v)[p..q] == u[p..q]
    ensures |u| <= p ==> (u + v)[p..q] == v[p - |u|..q - |u|]
  {
    if q <= |u| {
      assert forall k :: p <= k < q ==> (u + v)[k] == u[k];
    }
    if |u| <= p {
      assert forall k :: p <= k < q ==> (u + v)[k] == v[k - |u|];
    }
  }

  /** The index count and data length of a preamble are where a reader finds them. */
  lemma PreambleFields(idxLen: nat, dataLen: nat)
    requires idxLen < 0x1_0000_0000 && dataLen < 0x1_0000_0000
    ensures B2I(Preamble(idxLen, dataLen)[8..12]) == idxLen
    ensures B2I(Preamble(idxLen, dataLen)[12..16]) == dataLen
  {
    var h := Preamble(idxLen, dataLen);
    assert h[8..12] == Encode(idxLen, 4) && h[12..16] == Encode(dataLen, 4);
    DecodeEncode(idxLen, 4);
    DecodeEncode(dataLen, 4);
  }

  /** The signature and header of an image laid out part by part are found where the parts say. */
  lemma PartsLayout(lead: seq<byte>, sig: seq<byte>, pad: seq<byte>, header: seq<byte>, rest: seq<byte>)
    requires |lead| == 96 && lead[..4] == RPM_MAGIC
    requires |sig| == 16 && B2I(sig[8..12]) == 0 && B2I(sig[12..16]) == 0
    requires |pad| == 4 && |header| == 16
    ensures var image := lead + (sig + (pad + (header + rest)));
      HasMagic(image, 0) && HeaderPos(image, 4) == 116 &&
      Window(image, 124, 4) == header[8..12] && Window(image, 128, 4) == header[12..16] &&
      Rest(image, 132) == rest
  {
    var image := lead + (sig + (pad + (header + rest)));
    SliceOfConcat(lead, sig + (pad + (header + rest)), 0, 4);
    assert Window(image, 0, 4) == image[0..4];
    SliceOfConcat(lead, sig + (pad + (header + rest)), 104, 108);
    SliceOfConcat(lead, sig + (pad + (header + rest)), 108, 112);
    SliceOfConcat(sig, pad + (header + rest), 8, 12);
    SliceOfConcat(sig, pad + (header + rest), 12, 16);
    assert Window(image, 104, 4) == sig[8..12];
    assert Window(image, 108, 4) == sig[12..16];
    SliceOfConcat(lead, sig + (pad + (header + rest)), 124, 132);
    SliceOfConcat(sig, pad + (header + rest), 28, 36);
    SliceOfConcat(pad, header + rest, 12, 20);
    SliceOfConcat(header, rest, 8, 16);
    assert image[124..132] == header[8..16];
    assert image[132..] == rest;
  }

  /** A package with an empty signature and a metadata header declaring one payload-compressor entry. */
  function RawImage(): seq<byte>
  {
    (RPM_MAGIC + Zeros(92)) + (Preamble(0, 0) + (Zeros(4) + (Preamble(1, 0)
    + ((Encode(PAYLOAD_COMPRESSOR_TAG, 4) + Zeros(12)) + RAWDATA))))
  }

  /**
   * In that package the walk reads no tag entry at all, so the payload is output as it
   * is although the one entry is a payload-compressor entry.
   */
  lemma RawPayloadScenario(codecs: Codecs)
    ensures Convert(RawImage(), 0, codecs) == Ok(RAWDATA)
  {
    var lead, tag := RPM_MAGIC + Zeros(92), Encode(PAYLOAD_COMPRESSOR_TAG, 4) + Zeros(12);
    var header := Preamble(1, 0);
    assert lead[..4] == RPM_MAGIC;
    PreambleFields(0, 0);
    PreambleFields(1, 0);
    PartsLayout(lead, Preamble(0, 0), Zeros(4), header, tag + RAWDATA);
    var image := RawImage();
    assert HeaderIndexCount(image, 4) == 1 && HeaderDataLength(image, 4) == 0;
    assert Rest(image, 132) == tag + RAWDATA;
    assert Payload(image, 4) == RAWDATA;
    SoleEntryIgnored(image, 4);
  }

  /** An image holding nothing but the magic converts to an empty payload: short reads are not an error. */
  lemma MagicOnlyGivesEmptyOutput(codecs: Codecs)
    ensures Convert(RPM_MAGIC, 0, codecs) == Ok([])
  {
    assert Window(RPM_MAGIC, 0, 4) == RPM_MAGIC;
    assert SigIndexCount(RPM_MAGIC, 4) == 0 && SigDataLength(RPM_MAGIC, 4) == 0;
  }
}
