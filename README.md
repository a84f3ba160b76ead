# rpm2cpio, modelled in Dafny

`rpm2cpio.py` turns an RPM package into the CPIO archive it carries. It checks
the four-byte RPM magic and skips the 96-byte lead and the signature (at a fixed
`+ 96 + 16 + 4` from the signature's counts). It then reads the metadata header's
preamble and scans its tag table for the payload-compressor entry (tag 1125). That
entry's NUL-terminated name is followed into the data section. The walker then reads
everything after the data section as the payload, and hands it to the gzip, xz/lzma,
zstd or bzip2 decompressor the name selects. With no name, the payload is output as it is.

This project models that walk over an in-memory image and proves what it computes.

- `errors.dfy`, module `Errors`: `Option`, `Result` and the ways a conversion ends
  without output.
- `bytes.dfy`, module `Bytes`: bytes and `b2i`, the unsigned big-endian value of a byte
  string (`B2I`). It also holds a reference positional-sum definition and the encoding
  that inverts `B2I`.
- `cursor.dfy`, module `Cursor`: the seekable stream, as a class `Reader` with the image
  and a cursor. It behaves like a seekable stream (a regular file or an in-memory
  buffer). A read near the end returns fewer bytes, a read beyond the end returns none, and a
  seek past the end is allowed. The pure functions `Window`, `Rest` and `Advance` say what each read
  returns and where the cursor ends up.
- `header.dfy`, module `Header`:
  - the methods `IsRpm` and `ReadCString` (`b2s`);
  - the position arithmetic of the walk, as functions of the image. `HeaderPos`,
    `TableStart`, `DataBase`, `TagsVisited`, `TagId` and `TagOffset` give the cursor
    positions and fields; `Payload` gives the payload;
  - the fold `ScanTags`, which says what the tag loop yields;
  - `Walk`, which combines the two.
- `registry.dfy`, module `Registry`: the name comparisons that choose a decompressor.
  The decompressors themselves are supplied from outside as functions (`Codecs`).
- `pipeline.dfy`, module `Pipeline`:
  - `ExtractCpio` and `Rpm2Cpio` as imperative methods over a `Reader`, each proved
    equal to a specification function (`Extract`, `Convert`);
  - lemmas about what a conversion outputs;
  - two concrete packages.

A conversion result `Ok(bytes)` stands for the single `writer.write(bytes)`. An
`Err(e)` stands for the exception or endless loop that prevents it.

Three quirks of the code are kept as written:
- the header position `idx * 16 + len + 96 + 16 + 4`;
- the tag loop reads `idx_len - 1` entries, so it never reads the last declared entry
  and reads none when one or none is declared;
- when several entries carry tag 1125, the last one read decides the compressor.

What the code does with an unusual package:
- Reads and seeks past the end are never errors, so a truncated package yields a
  partial or empty payload. That payload is output as it is only when no compressor name
  is found (`MagicOnlyGivesEmptyOutput`). A visited compressor entry whose name runs past
  the end makes the source's name reader loop forever, which the model reports as
  `Err(UnterminatedName)` (`ScanFailsIff`). A truncated compressed payload is handed to
  its codec, which may fail.
- When several entries carry tag 1125, the last one read wins (`ScanFindsLast`).
- A package declaring one entry never has that entry read, even when it is a compressor
  entry, so its payload passes through unchanged (`SoleEntryIgnored`, `RawPayloadScenario`).

## Model

| member | source | states |
|---|---|---|
| Bytes.B2IIsPlaceValue | rpm2cpio.py:77-81 | `B2I` is the big-endian positional sum of the bytes, each byte weighted by 256 to the power of the bytes after it |
| Bytes.B2IBound | rpm2cpio.py:77-81 | an `n`-byte string decodes to a value below 256^n |
| Bytes.DecodeEncode | rpm2cpio.py:77-81 | decoding the `n`-byte big-endian encoding of any value below 256^n gives the value back |
| Bytes.EncodeDecode | rpm2cpio.py:77-81 | encoding a decoded byte string at its own length gives the byte string back |
| Bytes.U32RoundTrip | rpm2cpio.py:108-109 | a four-byte header field is an unsigned 32-bit number, and both round trips hold for it |
| Cursor.Reader.constructor | rpm2cpio.py:157-160 | the stream holds the package image with its cursor at 0 |
| Cursor.Reader.Read | rpm2cpio.py:97-103 | `read(n)` returns the up-to-`n` bytes at the cursor, fewer near or past the end, and moves the cursor past exactly those |
| Cursor.Reader.ReadRest | rpm2cpio.py:134 | `read()` returns every byte from the cursor on, and leaves the cursor at the end or where it was beyond it |
| Cursor.Reader.Seek | rpm2cpio.py:112 | `seek(p)` sets the cursor to `p`, beyond the end included |
| Cursor.Reader.Tell | rpm2cpio.py:119 | `tell()` returns the cursor and changes nothing |
| Header.HasMagicIff | rpm2cpio.py:41 | the magic check holds exactly when four bytes exist at the cursor and they are `ED AB EE DB` |
| Header.IsRpm | rpm2cpio.py:73-74 | the result is true exactly when the four-byte read yields the magic, and the cursor moves past the bytes read |
| Header.ReadCString | rpm2cpio.py:84-93 | the byte-at-a-time loop returns the name `CString` defines, and leaves the cursor just past its NUL |
| Header.CStringFound | rpm2cpio.py:88-92 | a name found is the run of non-NUL bytes at the position, followed by a NUL in the image |
| Header.CStringOfTerminated | rpm2cpio.py:88-92 | conversely, any NUL-free run followed by a NUL is the name found at its start |
| Header.CStringMissing | rpm2cpio.py:89-93 | no name is found exactly when no NUL lies at or after the position |
| Header.SignatureFieldsAfterLead | rpm2cpio.py:105-111 | from the start of a package, the signature's counts are the big-endian words at offsets 104 and 108, and the header position is 16 times the first, plus the second, plus 116 |
| Header.SignatureSkipMatchesPadding | rpm2cpio.py:111 | the fixed `+ 4` lands on the 8-byte-aligned end of the signature exactly when the signature data length is 4 modulo 8 |
| Header.HeaderLayout | rpm2cpio.py:114-119 | with the whole header preamble present, the counts are the big-endian words at offsets 8 and 12 of the header, the table starts 16 bytes in, the data base is 16 bytes per declared entry further on, and entry `k`'s id is the word 16k bytes into the table |
| Header.PayloadIsSuffix | rpm2cpio.py:133-134 | the payload is the image from the end of the declared data section on, or empty if that lies beyond the end |
| Header.PayloadIgnoresTagTable | rpm2cpio.py:119-134 | two packages that differ only inside the tag table have the same table position, data base and payload, and a successful walk of either carries that payload |
| Header.ScanErrorPersists | rpm2cpio.py:122-131 | once the scan has failed, reading further entries keeps that failure |
| Header.ScanFailsIff | rpm2cpio.py:127-130 | the scan fails exactly when some visited compressor entry points at a name without a NUL after it |
| Header.ScanFindsNothingIff | rpm2cpio.py:121-131 | the scan yields no name exactly when no visited entry has tag 1125 |
| Header.ScanFindsLast | rpm2cpio.py:127-130 | when every visited compressor name is terminated, the scan yields the name of the last visited entry with tag 1125 |
| Header.ScanResultIsLastMatch | rpm2cpio.py:127-130 | any name the scan yields belongs to a visited entry with tag 1125 after which no visited entry has tag 1125 |
| Header.SoleEntryIgnored | rpm2cpio.py:122 | a package declaring one tag entry or none has no compressor, whatever that entry holds, and its whole payload is passed on |
| Registry.Lookup | rpm2cpio.py:139-146 | a name selects a transform exactly when it is one of `lzma`, `xz`, `gzip`, `zstd`, `bzip2`, and the one the registry table gives it |
| Registry.Decompress | rpm2cpio.py:136-148 | no name passes the payload through; a registered name applies its transform, and a codec failure is an error; any other name is refused with that name |
| Registry.NamesSelectTransforms | rpm2cpio.py:139-146 | `lzma` and `xz` select the same transform, and `gzip`, `zstd` and `bzip2` each select their own |
| Registry.UnknownNameRefused | rpm2cpio.py:139-148 | the dispatch refuses a name as unsupported exactly when it is none of the five registered names |
| Pipeline.SkipLead | rpm2cpio.py:97-103 | the eight lead reads after the magic move the cursor as one read of 92 bytes |
| Pipeline.ReadPreamble | rpm2cpio.py:105-109 | the preamble reads return the index count and data length words at offsets 8 and 12 and move the cursor as one read of 16 bytes |
| Pipeline.SkipSignature | rpm2cpio.py:97-112 | after the lead and the signature preamble, the cursor is seeked to `HeaderPos` |
| Pipeline.ReadLayout | rpm2cpio.py:114-119 | the header preamble reads return the header's index count and data length and stop the cursor at the start of the tag table |
| Pipeline.ReadTagEntry | rpm2cpio.py:123-126 | the four field reads return the entry's id and offset and move the cursor as one read of 16 bytes |
| Pipeline.VisitTag | rpm2cpio.py:123-131 | one loop pass yields the scan over one more entry; after a compressor entry the cursor is back at the next entry |
| Pipeline.ScanTagTable | rpm2cpio.py:121-131 | the loop over `idx_len - 1` entries (none for a count of 0) yields `ScanTags` over exactly that many entries, and on success the cursor is 16 bytes per entry further on |
| Pipeline.ExtractCpio | rpm2cpio.py:96-148 | `extract_cpio` yields exactly `Extract`: the walk's error, or the payload put through the dispatch on the name the scan yields |
| Pipeline.Rpm2Cpio | rpm2cpio.py:162-167 | `rpm2cpio` yields exactly `Convert`: refusal without the magic, and only the four-byte magic read in that case; otherwise the extraction |
| Pipeline.NotAnRpmRefused | rpm2cpio.py:162-163 | an image not starting with the magic is refused as not an RPM, whatever follows |
| Pipeline.UncompressedPassesThrough | rpm2cpio.py:136-137 | with no visited entry of tag 1125, the output is the payload unchanged |
| Pipeline.LastCompressorChooses | rpm2cpio.py:127-146 | otherwise the name of the last visited entry with tag 1125 chooses what is done with the payload |
| Pipeline.ConversionOutputs | rpm2cpio.py:164-167 | every output written started with the magic and is either the payload itself or a registered transform's output on it |
| Pipeline.RawPayloadScenario | rpm2cpio.py:96-137 | a package with an empty signature and one declared entry, itself a compressor entry, outputs its raw payload `rawdata` unchanged |
| Pipeline.MagicOnlyGivesEmptyOutput | rpm2cpio.py:96-137 | an image holding only the magic converts to empty output: short reads are not errors |

## Left out

- The decompressor bodies (`gzip_decompress`, `xz_decompress`, `zstd_decompress`,
  `bzip2_decompress`, rpm2cpio.py:44-70) call library codecs or external programs.
  They are parameters of type `Codecs`. A codec returning `None` stands for the
  exception it raises, which is `Err(DecompressionFailed)` in the model.
- The choice between the `lzma` module, its backport and the `unxz` program
  (rpm2cpio.py:31-38, 51-56) is part of the codec supplied for `xz`.
- The choice of standard input and output or the given streams (rpm2cpio.py:151-161), `main`, the opening of the
  file, the error messages, the exit codes and the `KeyboardInterrupt` handler
  (rpm2cpio.py:170-201). `Rpm2Cpio` takes the stream as a `Reader`, and returns what would
  be written instead of writing it.
- Header.ReadCString: the UTF-8 decoding of each byte is not modelled, because the
  model has no text. A name is a byte string compared with the ASCII spelling of each
  registered name. In the source, a byte that does not decode raises at once. In the
  model such a name is only an unregistered one, so a later compressor entry can
  still replace it.
- Header.ReadCString: at the end of the stream the source's loop reads empty
  strings forever. The model stops and reports `UnterminatedName` instead, so the
  endless loop becomes an error result.
- Pipeline.ExtractCpio: for an unregistered name the source returns `None`, and
  `rpm2cpio` then raises. The model returns `Err(UnsupportedCompressor(name))` straight
  from the extraction. `Rpm2Cpio`'s result, no output, is the same.
- A non-seekable input such as a pipe is not modelled. On one, the first `seek`
  (rpm2cpio.py:112) raises, and the model has no such outcome: its `Reader` can
  always seek.
- The fields the walker reads and drops (versions, type, architecture, name, OS,
  signature type, the reserved bytes, the preamble magics, the entries' type and count)
  are modelled as cursor advances only. Their values are never checked.
- A concrete package whose compressor entry is read and names `gzip` is not built. The
  general lemma `Pipeline.LastCompressorChooses` covers that case for every image.
