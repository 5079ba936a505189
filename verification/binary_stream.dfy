/** The seekable stream that values are written into and parsed from. */
module BinaryStreams {
  import opened Bytes
  import opened Hashing
  import opened Layouts

  /** The state of a client that streams share: the complex classes it knows and the footer
      style of the first complex object it decoded, if any. */
  class Client {
    var registry: Registry
    var style: Option<bool>

    constructor (registry: Registry, style: Option<bool>)
      ensures this.registry == registry && this.style == style
    {
      this.registry := registry;
      this.style := style;
    }

    /** The style used for writing: compact until a full footer has been decoded. */
    predicate CompactFooter()
      reads this
    {
      style != Some(false)
    }
  }

  function Max(a: nat, b: nat): nat {
    if a > b then a else b
  }

  /** `BytesIO.write`: bytes are replaced from `pos` on, a gap before `pos` is filled with zeros,
      and an empty write changes nothing. */
  function Overlay(buf: bytes, pos: nat, b: bytes): (r: bytes)
    ensures |r| == if b == [] then |buf| else Max(|buf|, pos + |b|)
  {
    seq(if b == [] then |buf| else Max(|buf|, pos + |b|),
        i requires 0 <= i => if pos <= i < pos + |b| then b[i - pos] else if i < |buf| then buf[i] else 0)
  }

  lemma OverlayAppend(buf: bytes, pos: nat, a: bytes, b: bytes)
    ensures Overlay(Overlay(buf, pos, a), pos + |a|, b) == Overlay(buf, pos, a + b)
  {}

  lemma OverlayNothing(buf: bytes, pos: nat)
    ensures Overlay(buf, pos, []) == buf
  {}

  lemma OverlayAt(buf: bytes, pos: nat, b: bytes)
    requires b != []
    ensures At(Overlay(buf, pos, b), pos, b)
  {
    assert Overlay(buf, pos, b)[pos..pos + |b|] == b;
  }

  lemma OverlaySlice(buf: bytes, pos: nat, b: bytes)
    ensures Slice(Overlay(buf, pos, b), pos, |b|) == b
  {
    if b != [] { OverlayAt(buf, pos, b); }
  }

  /** Body first, then the header in front of it, then the footer behind it: one write of all three. */
  lemma OverlayPatch(buf: bytes, pos: nat, header: bytes, body: bytes, footer: bytes)
    requires header != []
    ensures Overlay(Overlay(Overlay(buf, pos + |header|, body), pos, header), pos + |header| + |body|, footer)
         == Overlay(buf, pos, header + body + footer)
  {
    var l := Overlay(Overlay(Overlay(buf, pos + |header|, body), pos, header), pos + |header| + |body|, footer);
    var r := Overlay(buf, pos, header + body + footer);
    assert |l| == |r|;
    forall i | 0 <= i < |l| ensures l[i] == r[i] {}
  }

  class BinaryStream {
    const client: Client
    var data: bytes
    var pos: nat
    /** A memory view of the whole buffer is kept in `_buffer`. */
    var viewHeld: bool

    constructor (client: Client, data: bytes)
      ensures this.client == client && this.data == data && pos == 0 && !viewHeld
    {
      this.client := client;
      this.data := data;
      pos := 0;
      viewHeld := false;
    }

    /** A held view of an empty buffer is falsy, so it is never released, and while it is
        held the buffer cannot be written. */
    predicate Stuck()
      reads this
    {
      viewHeld && data == []
    }

    method Tell() returns (p: nat)
      ensures p == pos
    {
      p := pos;
    }

    method Seek(p: nat)
      modifies this`pos
      ensures pos == p
    {
      pos := p;
    }

    /** Fails with `BufferError` exactly on a stuck stream. */
    method Write(b: bytes) returns (ok: bool)
      modifies this
      ensures ok <==> !old(Stuck())
      ensures ok ==> data == Overlay(old(data), old(pos), b) && pos == old(pos) + |b| && !viewHeld
      ensures !ok ==> data == old(data) && pos == old(pos) && Stuck()
    {
      ReleaseBuffer();
      if viewHeld { return false; }
      data := Overlay(data, pos, b);
      pos := pos + |b|;
      ok := true;
    }

    method ReleaseBuffer()
      modifies this`viewHeld
      ensures viewHeld == old(Stuck())
    {
      if viewHeld && data != [] { viewHeld := false; }
    }

    method GetSlice(start: nat, n: nat) returns (b: bytes)
      modifies this`viewHeld
      ensures b == Slice(data, start, n) && viewHeld
    {
      viewHeld := true;
      b := Slice(data, start, n);
    }

    method Hashcode(start: nat, n: nat) returns (h: int)
      modifies this`viewHeld
      ensures h == BytesHash(Slice(data, start, n)) && viewHeld
    {
      viewHeld := true;
      h := PyBytesHash(Slice(data, start, n));
    }

    /** `read_ctype` of a structure of `size` bytes in the backward direction. */
    method ReadBack(size: nat) returns (r: Result<bytes>)
      requires size <= pos
      modifies this`viewHeld
      ensures r == if pos > |data| then Err(BufferTooSmall) else Ok(data[pos - size..pos])
      ensures viewHeld
    {
      viewHeld := true;
      r := if pos > |data| then Err(BufferTooSmall) else Ok(data[pos - size..pos]);
    }
  }
}
