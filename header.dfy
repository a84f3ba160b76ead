/**
 * The RPM container walk: the magic check, the NUL-terminated name reader, and the
 * position arithmetic that skips the lead and the signature, scans the metadata
 * header's tag table for the payload compressor, and finds the payload.
 *
 * Every position below is an absolute offset into the package image. The walk
 * starts at `p`, the cursor just after the four magic bytes (4 for a package read
 * from its start). Reads that run past the end of the image return short or empty
 * byte strings, exactly as the walked stream does, and a short field decodes to a
 * smaller number: no read or seek fails. A truncated image can still end the walk
 * without output when a visited compressor entry's name runs past the end
 * (`ScanFailsIff`).
 */
module Header {

  import opened Bytes
  import opened Errors
  import opened Cursor

  const RPM_MAGIC: seq<byte> := [0xED, 0xAB, 0xEE, 0xDB]

  /** RPMTAG_PAYLOADCOMPRESSOR. */
  const PAYLOAD_COMPRESSOR_TAG: nat := 1125

  // ---------------------------------------------------------------- magic

  /** A four-byte read at `p` yields the RPM magic. */
  predicate HasMagic(data: seq<byte>, p: nat)
  {
    Window(data, p, 4) == RPM_MAGIC
  }

  /** The magic check succeeds exactly when the four bytes at `p` exist and are the magic. */
  lemma HasMagicIff(data: seq<byte>, p: nat)
    ensures HasMagic(data, p) <==> p + 4 <= |data| && data[p..p + 4] == RPM_MAGIC
  {
    if p + 4 <= |data| {
      assert Window(data, p, 4) == data[p..p + 4];
    }
  }

  /** `is_rpm`: reads four bytes and compares them with the magic. */
  method IsRpm(r: Reader) returns (ok: bool)
    modifies r
    ensures ok <==> HasMagic(r.data, old(r.pos))
    ensures r.pos == if old(r.pos) < |r.data| then old(r.pos) + Min(4, |r.data| - old(r.pos)) else old(r.pos)
  {
    var m := r.Read(4);
    ok := m == RPM_MAGIC;
  }

  // ---------------------------------------------------------------- names

  /**
   * The NUL-terminated byte string at `p`: the bytes before the first 0 at or after
   * `p`, or None when no 0 follows `p` (the source's reader would then loop forever
   * on empty reads).
   */
  function CString(data: seq<byte>, p: nat): Option<seq<byte>>
    decreases |data| - p
  {
    if p >= |data| then None
    else if data[p] == 0 then Some([])
    else Prefixed([data[p]], CString(data, p + 1))
  }

  function Prefixed(chars: seq<byte>, rest: Option<seq<byte>>): Option<seq<byte>>
  {
    match rest
    case None => None
    case Some(s) => Some(chars + s)
  }

  lemma PrefixedNothing(rest: Option<seq<byte>>)
    ensures Prefixed([], rest) == rest
  {
    if rest.Some? {
      assert [] + rest.value == rest.value;
    }
  }

  lemma PrefixedTwice(a: seq<byte>, b: seq<byte>, rest: Option<seq<byte>>)
    ensures Prefixed(a, Prefixed(b, rest)) == Prefixed(a + b, rest)
  {
    if rest.Some? {
      assert a + (b + rest.value) == (a + b) + rest.value;
    }
  }

  /** A name found at `p` is the run of non-NUL bytes there, and a NUL follows it. */
  lemma {:induction false} CStringFound(data: seq<byte>, p: nat, s: seq<byte>)
    requires CString(data, p) == Some(s)
    ensures p + |s| < |data| && data[p..p + |s|] == s && data[p + |s|] == 0
    ensures forall i :: 0 <= i < |s| ==> s[i] != 0
    decreases |data| - p
  {
    if data[p] != 0 {
      var t := CString(data, p + 1).value;
      CStringFound(data, p + 1, t);
      assert s == [data[p]] + t;
      assert data[p..p + |s|] == [data[p]] + data[p + 1..p + 1 + |t|];
    }
  }

  /** Conversely, a run of non-NUL bytes followed by a NUL is the name found at its start. */
  lemma {:induction false} CStringOfTerminated(data: seq<byte>, p: nat, s: seq<byte>)
    requires p + |s| < |data| && data[p..p + |s|] == s && data[p + |s|] == 0
    requires forall i :: 0 <= i < |s| ==> s[i] != 0
    ensures CString(data, p) == Some(s)
    decreases |s|
  {
    if s != [] {
      assert data[p] == s[0];
      assert data[p + 1..p + 1 + |s[1..]|] == s[1..];
      CStringOfTerminated(data, p + 1, s[1..]);
      assert [s[0]] + s[1..] == s;
    }
  }

  /** No name is found exactly when no NUL lies at or after `p`. */
  lemma {:induction false} CStringMissing(data: seq<byte>, p: nat)
    ensures CString(data, p).None? <==> forall i :: p <= i < |data| ==> data[i] != 0
    decreases |data| - p
  {
    if p < |data| && data[p] != 0 {
      CStringMissing(data, p + 1);
    }
  }

  /**
   * `b2s`: reads one byte at a time until a NUL is consumed and returns the bytes
   * before it. Where the source would read past the end forever, this returns None.
   */
  method ReadCString(r: Reader) returns (name: Option<seq<byte>>)
    modifies r
    ensures name == CString(r.data, old(r.pos))
    ensures name.Some? ==> r.pos == old(r.pos) + |name.value| + 1
  {
    ghost var start := r.pos;
    var chars: seq<byte> := [];
    PrefixedNothing(CString(r.data, start));
    while true
      invariant r.pos == start + |chars|
      invariant CString(r.data, start) == Prefixed(chars, CString(r.data, r.pos))
      decreases |r.data| - r.pos
    {
      ghost var q := r.pos;
      var c := r.Read(1);
      if c == [0] {
        assert chars + [] == chars;
        return Some(chars);
      }
      if c == [] {
        return None;
      }
      assert c == [r.data[q]] && r.pos == q + 1;
      assert CString(r.data, q) == Prefixed(c, CString(r.data, r.pos));
      PrefixedTwice(chars, c, CString(r.data, r.pos));
      chars := chars + c;
    }
  }

  // ---------------------------------------------------------------- layout

  /** The signature's index count: after the 92 remaining lead bytes and the signature's magic, version and reserved bytes. */
  function SigIndexCount(data: seq<byte>, p: nat): nat
  {
    B2I(Window(data, p + 92 + 8, 4))
  }

  /** The signature's data length, the next four bytes. */
  function SigDataLength(data: seq<byte>, p: nat): nat
  {
    B2I(Window(data, p + 92 + 12, 4))
  }

  /** Where the walk seeks to for the metadata header. */
  function HeaderPos(data: seq<byte>, p: nat): nat
  {
    SigIndexCount(data, p) * 16 + SigDataLength(data, p) + 96 + 16 + 4
  }

  /** The metadata header's index count, after its magic, version and reserved bytes. */
  function HeaderIndexCount(data: seq<byte>, p: nat): nat
  {
    B2I(Window(data, HeaderPos(data, p) + 8, 4))
  }

  /** The metadata header's data length. */
  function HeaderDataLength(data: seq<byte>, p: nat): nat
  {
    B2I(Window(data, HeaderPos(data, p) + 12, 4))
  }

  /** The cursor after the 16-byte header preamble: where the tag table begins. */
  function TableStart(data: seq<byte>, p: nat): nat
  {
    Advance(data, HeaderPos(data, p), 16)
  }

  /** The base that tag offsets are relative to: the end of the declared tag table. */
  function DataBase(data: seq<byte>, p: nat): nat
  {
    TableStart(data, p) + HeaderIndexCount(data, p) * 16
  }

  /** How many tag entries the scan reads: one fewer than declared, none for a count of 0. */
  function TagsVisited(data: seq<byte>, p: nat): nat
  {
    if HeaderIndexCount(data, p) >= 1 then HeaderIndexCount(data, p) - 1 else 0
  }

  /** The identifier of tag entry `k` of a table starting at `t`. */
  function TagId(data: seq<byte>, t: nat, k: nat): nat
  {
    B2I(Window(data, t + 16 * k, 4))
  }

  /** The data offset of tag entry `k`, the third field of the entry. */
  function TagOffset(data: seq<byte>, t: nat, k: nat): nat
  {
    B2I(Window(data, t + 16 * k + 8, 4))
  }

  /** The layout functions, given the fields as the walk reads them. */
  lemma LayoutFromFields(data: seq<byte>, p: nat, headerPos: nat, idx: seq<byte>, len: seq<byte>, here: nat)
    requires headerPos == HeaderPos(data, p)
    requires idx == Window(data, headerPos + 8, 4) && len == Window(data, headerPos + 12, 4)
    requires here == Advance(data, headerPos, 16)
    ensures HeaderIndexCount(data, p) == B2I(idx) && HeaderDataLength(data, p) == B2I(len)
    ensures TableStart(data, p) == here && DataBase(data, p) == here + B2I(idx) * 16
    ensures TagsVisited(data, p) == if B2I(idx) >= 1 then B2I(idx) - 1 else 0
  {
  }

  /** The payload: everything after the declared data section of the metadata header. */
  function Payload(data: seq<byte>, p: nat): seq<byte>
  {
    Rest(data, DataBase(data, p) + HeaderDataLength(data, p))
  }

  /**
   * The scan of the first `n` tag entries: each payload-compressor entry replaces the
   * name found so far with the name at `base` plus its offset; an unterminated name
   * ends the scan.
   */
  function ScanTags(data: seq<byte>, t: nat, base: nat, n: nat): Result<Option<seq<byte>>>
  {
    if n == 0 then Ok(None)
    else
      match ScanTags(data, t, base, n - 1)
      case Err(e) => Err(e)
      case Ok(found) =>
        if TagId(data, t, n - 1) == PAYLOAD_COMPRESSOR_TAG then
          match CString(data, base + TagOffset(data, t, n - 1))
          case None => Err(UnterminatedName)
          case Some(name) => Ok(Some(name))
        else Ok(found)
  }

  /** What the walk yields: the compressor name, if any, and the payload bytes. */
  datatype Walked = Walked(compressor: Option<seq<byte>>, payload: seq<byte>)

  function Walk(data: seq<byte>, p: nat): Result<Walked>
  {
    match ScanTags(data, TableStart(data, p), DataBase(data, p), TagsVisited(data, p))
    case Err(e) => Err(e)
    case Ok(name) => Ok(Walked(name, Payload(data, p)))
  }

  // ---------------------------------------------------------------- the tag scan

  /** Every payload-compressor entry among the first `n` has a terminated name. */
  ghost predicate NamesTerminated(data: seq<byte>, t: nat, base: nat, n: nat)
  {
    forall k :: 0 <= k < n && TagId(data, t, k) == PAYLOAD_COMPRESSOR_TAG ==>
      CString(data, base + TagOffset(data, t, k)).Some?
  }

  /** Entry `k` as read from the cursor reached after `k` entries. */
  lemma TagEntryFields(data: seq<byte>, t: nat, k: nat, pos: nat)
    requires pos == Advance(data, t, 16 * k)
    ensures B2I(Window(data, pos, 4)) == TagId(data, t, k)
    ensures B2I(Window(data, pos + 8, 4)) == TagOffset(data, t, k)
    ensures Advance(data, pos, 16) == Advance(data, t, 16 * (k + 1))
  {
    WindowAfterAdvance(data, t, 16 * k, 0, 4);
    WindowAfterAdvance(data, t, 16 * k, 8, 4);
    AdvanceAdd(data, t, 16 * k, 16);
    assert 16 * k + 16 == 16 * (k + 1);
  }

  /** One more entry: a compressor entry replaces the name found so far, any other entry leaves it. */
  lemma ScanStep(data: seq<byte>, t: nat, base: nat, k: nat, found: Option<seq<byte>>)
    requires ScanTags(data, t, base, k) == Ok(found)
    ensures TagId(data, t, k) != PAYLOAD_COMPRESSOR_TAG ==> ScanTags(data, t, base, k + 1) == Ok(found)
    ensures TagId(data, t, k) == PAYLOAD_COMPRESSOR_TAG ==>
      ScanTags(data, t, base, k + 1) ==
      (match CString(data, base + TagOffset(data, t, k))
       case None => Err(UnterminatedName)
       case Some(name) => Ok(Some(name)))
  {
  }

  /** Once the scan has failed, reading more entries does not change the failure. */
  lemma {:induction false} ScanErrorPersists(data: seq<byte>, t: nat, base: nat, k: nat, n: nat)
    requires k <= n && ScanTags(data, t, base, k).Err?
    ensures ScanTags(data, t, base, n) == ScanTags(data, t, base, k)
    decreases n - k
  {
    if k < n {
      ScanErrorPersists(data, t, base, k, n - 1);
    }
  }

  /** The scan fails exactly when some visited compressor entry points at an unterminated name. */
  lemma {:induction false} ScanFailsIff(data: seq<byte>, t: nat, base: nat, n: nat)
    ensures ScanTags(data, t, base, n).Err? <==> !NamesTerminated(data, t, base, n)
  {
    if n > 0 {
      ScanFailsIff(data, t, base, n - 1);
    }
  }

  /** The scan finds nothing exactly when no visited entry is a compressor entry. */
  lemma {:induction false} ScanFindsNothingIff(data: seq<byte>, t: nat, base: nat, n: nat)
    ensures ScanTags(data, t, base, n) == Ok(None) <==>
      forall k :: 0 <= k < n ==> TagId(data, t, k) != PAYLOAD_COMPRESSOR_TAG
  {
    if n > 0 {
      ScanFindsNothingIff(data, t, base, n - 1);
      if ScanTags(data, t, base, n - 1).Err? {
        ScanFailsIff(data, t, base, n - 1);
        ScanFailsIff(data, t, base, n);
      }
    }
  }

  /** When no name is unterminated, the scan yields the name of the LAST compressor entry. */
  lemma {:induction false} ScanFindsLast(data: seq<byte>, t: nat, base: nat, n: nat, k: nat)
    requires k < n && TagId(data, t, k) == PAYLOAD_COMPRESSOR_TAG
    requires forall j :: k < j < n ==> TagId(data, t, j) != PAYLOAD_COMPRESSOR_TAG
    requires NamesTerminated(data, t, base, n)
    ensures ScanTags(data, t, base, n) == Ok(CString(data, base + TagOffset(data, t, k)))
  {
    if k < n - 1 {
      assert NamesTerminated(data, t, base, n - 1);
      ScanFindsLast(data, t, base, n - 1, k);
    } else {
      assert NamesTerminated(data, t, base, n - 1);
      ScanFailsIff(data, t, base, n - 1);
    }
  }

  /** Entry `k` is a compressor entry naming `name`, and no later one of the first `n` is a compressor entry. */
  ghost predicate LastMatch(data: seq<byte>, t: nat, base: nat, n: nat, k: nat, name: seq<byte>)
  {
    k < n && TagId(data, t, k) == PAYLOAD_COMPRESSOR_TAG
    && CString(data, base + TagOffset(data, t, k)) == Some(name)
    && forall j :: k < j < n ==> TagId(data, t, j) != PAYLOAD_COMPRESSOR_TAG
  }

  /** Any name the scan yields is that of a visited compressor entry with no compressor entry after it. */
  lemma {:induction false} ScanResultIsLastMatch(data: seq<byte>, t: nat, base: nat, n: nat, name: seq<byte>)
    requires ScanTags(data, t, base, n) == Ok(Some(name))
    ensures exists k :: LastMatch(data, t, base, n, k, name)
  {
    var last := n - 1;
    var before := ScanTags(data, t, base, last);
    assert before.Ok?;
    ScanStep(data, t, base, last, before.value);
    if TagId(data, t, last) != PAYLOAD_COMPRESSOR_TAG {
      ScanResultIsLastMatch(data, t, base, last, name);
      var k :| LastMatch(data, t, base, last, k, name);
      assert LastMatch(data, t, base, n, k, name);
    } else {
      assert LastMatch(data, t, base, n, last, name);
    }
  }

  // ---------------------------------------------------------------- offsets

  /** From the start of a package, the signature's counts are the big-endian words at 104 and 108. */
  lemma SignatureFieldsAfterLead(data: seq<byte>)
    requires HasMagic(data, 0) && |data| >= 112
    ensures SigIndexCount(data, 4) == B2I(data[104..108])
    ensures SigDataLength(data, 4) == B2I(data[108..112])
    ensures HeaderPos(data, 4) == B2I(data[104..108]) * 16 + B2I(data[108..112]) + 116
  {
    assert Window(data, 104, 4) == data[104..108];
    assert Window(data, 108, 4) == data[108..112];
  }

  /**
   * With the whole header preamble present, the tag table starts right after it, the
   * data base lies `16 * count` past that, and entry `k` is read from `16 * k` into the table.
   */
  lemma HeaderLayout(data: seq<byte>, p: nat, k: nat)
    requires HeaderPos(data, p) + 16 <= |data|
    ensures TableStart(data, p) == HeaderPos(data, p) + 16
    ensures DataBase(data, p) == HeaderPos(data, p) + 16 + 16 * HeaderIndexCount(data, p)
    ensures HeaderIndexCount(data, p) == B2I(data[HeaderPos(data, p) + 8..HeaderPos(data, p) + 12])
    ensures HeaderDataLength(data, p) == B2I(data[HeaderPos(data, p) + 12..HeaderPos(data, p) + 16])
    ensures HeaderPos(data, p) + 16 + 16 * k + 16 <= |data| ==>
      TagId(data, TableStart(data, p), k) == B2I(data[HeaderPos(data, p) + 16 + 16 * k..HeaderPos(data, p) + 16 + 16 * k + 4])
  {
    var h := HeaderPos(data, p);
    assert Window(data, h + 8, 4) == data[h + 8..h + 12];
    assert Window(data, h + 12, 4) == data[h + 12..h + 16];
    if h + 16 + 16 * k + 16 <= |data| {
      assert Window(data, h + 16 + 16 * k, 4) == data[h + 16 + 16 * k..h + 16 + 16 * k + 4];
    }
  }

  /** The payload is the image from the end of the declared data section on, or nothing if that lies beyond the end. */
  lemma PayloadIsSuffix(data: seq<byte>, p: nat)
    ensures var start := DataBase(data, p) + HeaderDataLength(data, p);
      Payload(data, p) == if start <= |data| then data[start..] else []
  {
  }

  /** The walk never reads the last declared tag entry: a header declaring one entry yields no compressor, whatever that entry holds. */
  lemma SoleEntryIgnored(data: seq<byte>, p: nat)
    requires HeaderIndexCount(data, p) <= 1
    ensures Walk(data, p) == Ok(Walked(None, Payload(data, p)))
  {
  }

  /** Two images that agree everywhere except inside the tag table. */
  ghost predicate SameOutsideTable(data: seq<byte>, other: seq<byte>, p: nat)
  {
    |other| == |data| &&
    forall i :: 0 <= i < |data| && !(TableStart(data, p) <= i < DataBase(data, p)) ==> other[i] == data[i]
  }

  lemma WindowsAgree(data: seq<byte>, other: seq<byte>, q: nat, n: nat)
    requires |other| == |data|
    requires forall i :: q <= i < q + n && i < |data| ==> other[i] == data[i]
    ensures Window(other, q, n) == Window(data, q, n)
  {
  }

  /** The payload does not depend on what the tag table holds. */
  lemma {:induction false} PayloadIgnoresTagTable(data: seq<byte>, other: seq<byte>)
    requires SameOutsideTable(data, other, 4)
    ensures TableStart(other, 4) == TableStart(data, 4) && DataBase(other, 4) == DataBase(data, 4)
    ensures Payload(other, 4) == Payload(data, 4)
    ensures Walk(other, 4).Ok? ==> Walk(other, 4).value.payload == Payload(data, 4)
  {
    var t := TableStart(data, 4);
    assert HeaderPos(data, 4) <= t;
    WindowsAgree(data, other, 104, 4);
    WindowsAgree(data, other, 108, 4);
    var h := HeaderPos(data, 4);
    assert HeaderPos(other, 4) == h;
    WindowsAgree(data, other, h, 16);
    WindowsAgree(data, other, h + 8, 4);
    WindowsAgree(data, other, h + 12, 4);
    var start := DataBase(data, 4) + HeaderDataLength(data, 4);
    assert Rest(other, start) == Rest(data, start);
  }

  // ---------------------------------------------------------------- the signature skip

  function RoundUp8(n: nat): nat
  {
    if n % 8 == 0 then n else n + 8 - n % 8
  }

  /**
   * Where the metadata header starts in the Linux Standard Base package format: after the
   * 96-byte lead, the 16-byte signature preamble, its index and its data, padded to a
   * multiple of eight bytes.
   */
  function AlignedHeaderPos(data: seq<byte>, p: nat): nat
  {
    RoundUp8(96 + 16 + 16 * SigIndexCount(data, p) + SigDataLength(data, p))
  }

  /** The fixed `+ 4` of the walk agrees with the format's padding exactly when the signature data length is 4 modulo 8. */
  lemma SignatureSkipMatchesPadding(data: seq<byte>, p: nat)
    ensures HeaderPos(data, p) == AlignedHeaderPos(data, p) <==> SigDataLength(data, p) % 8 == 4
  {
    var idx, len := SigIndexCount(data, p), SigDataLength(data, p);
    var n := 96 + 16 + 16 * idx + len;
    assert n == len + 8 * (14 + 2 * idx);
    EightsDropOut(len, 14 + 2 * idx);
    assert HeaderPos(data, p) == n + 4;
  }

  /** Adding whole multiples of eight leaves the remainder modulo eight alone. */
  lemma {:induction false} EightsDropOut(a: nat, m: nat)
    ensures (a + 8 * m) % 8 == a % 8
  {
    if m > 0 {
      EightsDropOut(a, m - 1);
      assert a + 8 * m == (a + 8 * (m - 1)) + 8;
    }
  }
}
