/**
 * The seekable byte stream the walker reads from (a regular file or an in-memory
 * buffer): a read of `n` bytes returns fewer near the end of the data and nothing
 * beyond it, and a seek past the end is allowed.
 */
module Cursor {

  import opened Bytes

  function Min(a: int, b: int): int
  {
    if a <= b then a else b
  }

  /** The bytes a read of up to `n` bytes at position `p` returns. */
  function Window(data: seq<byte>, p: nat, n: nat): (w: seq<byte>)
    ensures |w| == if p < |data| then Min(n, |data| - p) else 0
  {
    data[Min(p, |data|)..Min(p + n, |data|)]
  }

  /** The bytes a read without a size at position `p` returns: everything from `p` on. */
  function Rest(data: seq<byte>, p: nat): (w: seq<byte>)
    ensures |w| == if p < |data| then |data| - p else 0
  {
    data[Min(p, |data|)..]
  }

  /** The position after a read of up to `n` bytes at `p`. */
  function Advance(data: seq<byte>, p: nat, n: nat): (q: nat)
    ensures p <= q <= p + n
    ensures q < p + n ==> q == p || q == |data|
  {
    p + |Window(data, p, n)|
  }

  /** Two reads in a row move the cursor as one read of their combined size. */
  lemma AdvanceAdd(data: seq<byte>, p: nat, m: nat, n: nat)
    ensures Advance(data, Advance(data, p, m), n) == Advance(data, p, m + n)
  {
  }

  /** A read `j` bytes after a read of `m` bytes at `p` sees the bytes at `p + m + j`, clipped to the data. */
  lemma WindowAfterAdvance(data: seq<byte>, p: nat, m: nat, j: nat, n: nat)
    ensures Window(data, Advance(data, p, m) + j, n) == Window(data, p + m + j, n)
  {
  }

  class Reader {
    /** The whole input image. */
    const data: seq<byte>
    /** The cursor (`tell()`); it may lie beyond the end after a seek. */
    var pos: nat

    constructor (image: seq<byte>)
      ensures data == image && pos == 0
    {
      data := image;
      pos := 0;
    }

    /** `read(n)`: up to `n` bytes from the cursor, which moves past them. */
    method Read(n: nat) returns (r: seq<byte>)
      modifies this
      ensures r == Window(data, old(pos), n)
      ensures pos == Advance(data, old(pos), n)
    {
      r := Window(data, pos, n);
      pos := pos + |r|;
    }

    /** `read()`: every byte from the cursor on; the cursor ends at the end of the data or stays beyond it. */
    method ReadRest() returns (r: seq<byte>)
      modifies this
      ensures r == Rest(data, old(pos))
      ensures pos == if old(pos) < |data| then |data| else old(pos)
    {
      r := Rest(data, pos);
      pos := pos + |r|;
    }

    /** `seek(p)`: moves the cursor to the absolute position `p`. */
    method Seek(p: nat)
      modifies this
      ensures pos == p
    {
      pos := p;
    }

    /** `tell()`: the cursor. */
    method Tell() returns (p: nat)
      ensures p == pos
    {
      p := pos;
    }
  }
}
