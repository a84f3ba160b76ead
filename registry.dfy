/**
 * The compressor registry: which transform a payload compressor name selects.
 * Names are compared as byte strings against the ASCII spelling of each name.
 */
module Registry {

  import opened Bytes
  import opened Errors

  const LZMA: seq<byte> := [0x6C, 0x7A, 0x6D, 0x61]        // "lzma"
  const XZ: seq<byte> := [0x78, 0x7A]                      // "xz"
  const GZIP: seq<byte> := [0x67, 0x7A, 0x69, 0x70]        // "gzip"
  const ZSTD: seq<byte> := [0x7A, 0x73, 0x74, 0x64]        // "zstd"
  const BZIP2: seq<byte> := [0x62, 0x7A, 0x69, 0x70, 0x32] // "bzip2"

  /** The available decompression transforms. */
  datatype Transform = Xz | Gzip | Zstd | Bzip2

  /**
   * The codecs themselves, supplied from outside: each maps the compressed bytes
   * to the decompressed ones, or to None when the codec raises.
   */
  datatype Codecs = Codecs(
    xz: seq<byte> -> Option<seq<byte>>,
    gzip: seq<byte> -> Option<seq<byte>>,
    zstd: seq<byte> -> Option<seq<byte>>,
    bzip2: seq<byte> -> Option<seq<byte>>)

  /** The registry as a table: both `lzma` and `xz` select the xz transform. */
  const Table: map<seq<byte>, Transform> :=
    map[LZMA := Xz, XZ := Xz, GZIP := Gzip, ZSTD := Zstd, BZIP2 := Bzip2]

  /** The chain of name comparisons made for a present compressor name. */
  function Lookup(name: seq<byte>): (t: Option<Transform>)
    ensures t.Some? <==> name in Table
    ensures t.Some? ==> t.value == Table[name]
  {
    if name == LZMA || name == XZ then Some(Xz)
    else if name == GZIP then Some(Gzip)
    else if name == ZSTD then Some(Zstd)
    else if name == BZIP2 then Some(Bzip2)
    else None
  }

  function Apply(t: Transform, codecs: Codecs, payload: seq<byte>): Option<seq<byte>>
  {
    match t
    case Xz => codecs.xz(payload)
    case Gzip => codecs.gzip(payload)
    case Zstd => codecs.zstd(payload)
    case Bzip2 => codecs.bzip2(payload)
  }

  /**
   * The dispatch at the end of the walk: no compressor name means the payload is
   * returned as it is; a known name hands the payload to its transform; any other
   * name is refused.
   */
  function Decompress(name: Option<seq<byte>>, codecs: Codecs, payload: seq<byte>): (r: Result<seq<byte>>)
    ensures name.None? ==> r == Ok(payload)
    ensures name.Some? && name.value !in Table ==> r == Err(UnsupportedCompressor(name.value))
    ensures name.Some? && name.value in Table ==>
      r == match Apply(Table[name.value], codecs, payload)
           case Some(out) => Ok(out)
           case None => Err(DecompressionFailed)
  {
    match name
    case None => Ok(payload)
    case Some(n) =>
      match Lookup(n)
      case None => Err(UnsupportedCompressor(n))
      case Some(t) =>
        match Apply(t, codecs, payload)
        case Some(out) => Ok(out)
        case None => Err(DecompressionFailed)
  }

  /** `lzma` and `xz` are one transform, and the other three names each have their own. */
  lemma NamesSelectTransforms(codecs: Codecs, payload: seq<byte>)
    ensures Decompress(Some(LZMA), codecs, payload) == Decompress(Some(XZ), codecs, payload)
    ensures Lookup(LZMA) == Lookup(XZ) == Some(Xz)
    ensures Lookup(GZIP) == Some(Gzip)
    ensures Lookup(ZSTD) == Some(Zstd)
    ensures Lookup(BZIP2) == Some(Bzip2)
  {
  }

  /** Only the five registered names are accepted. */
  lemma UnknownNameRefused(name: seq<byte>, codecs: Codecs, payload: seq<byte>)
    ensures Decompress(Some(name), codecs, payload).Err? && Decompress(Some(name), codecs, payload).error.UnsupportedCompressor?
      <==> name != LZMA && name != XZ && name != GZIP && name != ZSTD && name != BZIP2
  {
  }
}
