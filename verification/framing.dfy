/** Frame reassembly on the asyncio side: arbitrary chunks in, whole frames out, connected to request correlation. */
module Framing {
  import opened Bytes
  import opened Multiplexing

  /** The length field of a frame. */
  function LengthField(buf: bytes): int
    requires |buf| >= 4
  {
    FromSignedLE(buf[..4])
  }

  predicate HasFullResponse(buf: bytes) {
    |buf| > 4 && LengthField(buf) + 4 <= |buf|
  }

  /** Where Python cuts: a negative packet size counts from the other end. */
  function PacketEnd(buf: bytes): nat
    requires |buf| >= 4
  {
    var n := LengthField(buf) + 4;
    if n >= 0 then n else if |buf| + n > 0 then |buf| + n else 0
  }

  /** The packets that the loop cuts off the front of a buffer, and what is left. */
  function Drain(buf: bytes): (r: (seq<bytes>, bytes))
    decreases |buf|
  {
    if HasFullResponse(buf) && PacketEnd(buf) > 0 then
      var n := PacketEnd(buf);
      var rest := Drain(buf[n..]);
      ([buf[..n]] + rest.0, rest.1)
    else ([], buf)
  }

  /** The loop ends: no length field met on the way makes it cut nothing off. */
  predicate Ends(buf: bytes)
    decreases |buf|
  {
    HasFullResponse(buf) ==> PacketEnd(buf) > 0 && Ends(buf[PacketEnd(buf)..])
  }

  /** Every length field met on the way cuts from the front. */
  predicate Progressing(buf: bytes)
    decreases |buf|
  {
    HasFullResponse(buf) ==> LengthField(buf) > -4 && Progressing(buf[LengthField(buf) + 4..])
  }

  /** A length field below -4 makes Python's slice count from the end of what has arrived, or cut off nothing. */
  lemma NegativeLengthCutsFromTheEnd(buf: bytes)
    requires |buf| > 4 && FromSignedLE(buf[..4]) < -4
    ensures var n := |buf| + FromSignedLE(buf[..4]) + 4;
      if n > 0 then Drain(buf) == ([buf[..n]] + Drain(buf[n..]).0, Drain(buf[n..]).1) else Drain(buf) == ([], buf)
  {
    hide FromSignedLE;
  }

  function Concat(chunks: seq<bytes>): bytes {
    if chunks == [] then [] else Concat(chunks[..|chunks| - 1]) + chunks[|chunks| - 1]
  }

  // ---- feeding

  lemma LengthFieldPrefix(a: bytes, b: bytes)
    requires |a| >= 4
    ensures LengthField(a + b) == LengthField(a)
  {
    assert (a + b)[..4] == a[..4];
  }

  /** Feeding `a` and then `b` gives the frames and the rest that feeding `a + b` gives. */
  lemma {:induction false} DrainAppend(a: bytes, b: bytes)
    requires Progressing(a + b)
    ensures Progressing(a) && Progressing(Drain(a).1 + b)
    ensures Drain(a + b) == (Drain(a).0 + Drain(Drain(a).1 + b).0, Drain(Drain(a).1 + b).1)
    decreases |a|
  {
    hide LengthField, Progressing, Drain;
    if HasFullResponse(a) {
      LengthFieldPrefix(a, b);
      DrainFirst(a + b);
      var n := LengthField(a) + 4;
      CutAppend(a, b, n);
      DrainAppend(a[n..], b);
      DrainFirst(a);
      Regroup(a[..n], Drain(a[n..]).0, Drain(Drain(a).1 + b).0);
    } else {
      NothingDrained(a);
      assert [] + Drain(a + b).0 == Drain(a + b).0;
    }
  }

  lemma CutAppend(a: bytes, b: bytes, n: nat)
    requires n <= |a|
    ensures (a + b)[n..] == a[n..] + b && (a + b)[..n] == a[..n]
  {}

  lemma Regroup(f: bytes, p: seq<bytes>, q: seq<bytes>)
    ensures [f] + (p + q) == [f] + p + q
  {}

  lemma NothingDrained(buf: bytes)
    requires !HasFullResponse(buf)
    ensures Drain(buf) == ([], buf) && Progressing(buf)
  {}

  lemma DrainFirst(buf: bytes)
    requires HasFullResponse(buf)
    ensures Progressing(buf) <==> LengthField(buf) > -4 && Progressing(buf[LengthField(buf) + 4..])
    ensures LengthField(buf) > -4 ==> var n := LengthField(buf) + 4; (Drain(buf) == ([buf[..n]] + Drain(buf[n..]).0, Drain(buf[n..]).1))
  {}

  // ---- frames and tails

  /** A frame as a server sends it: its length field counts the payload behind it. */
  ghost predicate IsFrame(f: bytes) {
    |f| >= 4 && LengthField(f) == |f| - 4
  }

  /** A buffer that holds no complete frame. */
  ghost predicate IsTail(t: bytes) {
    !HasFullResponse(t)
  }

  function ConcatFrames(frames: seq<bytes>): bytes {
    if frames == [] then [] else frames[0] + ConcatFrames(frames[1..])
  }

  /** Frames followed by an incomplete one: exactly the frames come out and exactly the tail stays, provided
      that no frame is followed by nothing while its own payload is empty. */
  lemma {:induction false} DrainFrames(frames: seq<bytes>, tail: bytes)
    requires (forall f :: f in frames ==> IsFrame(f)) && IsTail(tail)
    requires frames != [] && tail == [] ==> |frames[|frames| - 1]| > 4
    ensures Progressing(ConcatFrames(frames) + tail)
    ensures Drain(ConcatFrames(frames) + tail) == (frames, tail)
    decreases |frames|
  {
    if frames == [] {
      assert ConcatFrames(frames) + tail == tail;
    } else {
      var f, rest := frames[0], frames[1..];
      assert f in frames && IsFrame(f);
      var more := ConcatFrames(rest) + tail;
      assert ConcatFrames(frames) + tail == f + more;
      DrainFrames(rest, tail);
      LengthFieldPrefix(f, more);
      assert (f + more)[..|f|] == f && (f + more)[|f|..] == more;
      if rest != [] {
        assert rest[0] in frames;
        assert |more| >= |rest[0]| >= 4;
      } else {
        assert more == tail;
      }
      assert frames == [f] + rest;
    }
  }

  /** A sequence of frames is delivered completely exactly when the last one has a payload:
      a frame of four bytes waits for the next byte. */
  lemma DeliveredExactly(frames: seq<bytes>)
    requires frames != [] && forall f :: f in frames ==> IsFrame(f)
    ensures Drain(ConcatFrames(frames)) == (frames, []) <==> |frames[|frames| - 1]| > 4
  {
    var n := |frames| - 1;
    var last := frames[n];
    assert last in frames && IsFrame(last);
    assert ConcatFrames(frames) + [] == ConcatFrames(frames);
    if |last| > 4 {
      DrainFrames(frames, []);
    } else {
      ConcatFramesSplit(frames, n);
      DrainFrames(frames[..n], last);
    }
  }

  lemma {:induction false} ConcatFramesSplit(frames: seq<bytes>, n: nat)
    requires n < |frames|
    ensures n == |frames| - 1 ==> ConcatFrames(frames) == ConcatFrames(frames[..n]) + frames[n]
    decreases |frames|
  {
    if n == |frames| - 1 {
      if n == 0 {
        assert frames == [frames[0]] && frames[1..] == [];
      } else {
        ConcatFramesSplit(frames[1..], n - 1);
        assert frames[..n][1..] == frames[1..][..n - 1];
      }
    }
  }

  // ---- the protocol object

  /** One transport's protocol: buffered bytes, the handshake reply, and the connection behind it. */
  datatype Link = Link(buffer: bytes, handshake: Option<bytes>, conn: Conn)

  /** The first frame completes the handshake, later ones are messages. */
  function Dispatch(link: Link, frame: bytes): (r: Link)
    requires Tracked(link.conn)
    ensures Tracked(r.conn)
  {
    if link.handshake.None? then link.(handshake := Some(frame))
    else link.(conn := Step(link.conn, Message(frame)))
  }

  function DispatchAll(link: Link, frames: seq<bytes>): (r: Link)
    requires Tracked(link.conn)
    ensures Tracked(r.conn)
    decreases |frames|
  {
    if frames == [] then link else DispatchAll(Dispatch(link, frames[0]), frames[1..])
  }

  function Receive(link: Link, chunk: bytes): (r: Link)
    requires Tracked(link.conn)
    ensures Tracked(r.conn)
  {
    var d := Drain(link.buffer + chunk);
    DispatchAll(link, d.0).(buffer := d.1)
  }

  function ReceiveAll(link: Link, chunks: seq<bytes>): (r: Link)
    requires Tracked(link.conn)
    ensures Tracked(r.conn)
  {
    if chunks == [] then link
    else Receive(ReceiveAll(link, chunks[..|chunks| - 1]), chunks[|chunks| - 1])
  }

  lemma {:induction false} DispatchAppend(link: Link, a: seq<bytes>, b: seq<bytes>)
    requires Tracked(link.conn)
    ensures DispatchAll(link, a + b) == DispatchAll(DispatchAll(link, a), b)
    decreases |a|
  {
    if a == [] {
      assert a + b == b;
    } else {
      hide Dispatch;
      DispatchAppend(Dispatch(link, a[0]), a[1..], b);
      assert (a + b)[1..] == a[1..] + b && (a + b)[0] == a[0];
    }
  }

  lemma DispatchOne(link: Link, frame: bytes)
    requires Tracked(link.conn)
    ensures DispatchAll(link, [frame]) == Dispatch(link, frame)
  {
    var one: seq<bytes> := [frame];
    assert one[1..] == [];
  }

  lemma {:induction false} DispatchKeepsBuffer(link: Link, frames: seq<bytes>, buffer: bytes)
    requires Tracked(link.conn)
    ensures DispatchAll(link.(buffer := buffer), frames) == DispatchAll(link, frames).(buffer := buffer)
    decreases |frames|
  {
    if frames != [] { DispatchKeepsBuffer(Dispatch(link, frames[0]), frames[1..], buffer); }
  }

  lemma ReceiveTwice(link: Link, a: bytes, b: bytes)
    requires Tracked(link.conn) && Progressing(link.buffer + (a + b))
    ensures Receive(Receive(link, a), b) == Receive(link, a + b)
    ensures Progressing(link.buffer + a) && Progressing(Receive(link, a).buffer + b)
  {
    assert link.buffer + (a + b) == (link.buffer + a) + b;
    DrainAppend(link.buffer + a, b);
    var first := Drain(link.buffer + a);
    var second := Drain(first.1 + b);
    DispatchAppend(link, first.0, second.0);
    DispatchKeepsBuffer(DispatchAll(link, first.0), second.0, first.1);
  }

  /** However the incoming bytes are cut into chunks, the handshake, the futures and the kept tail come out the same. */
  lemma {:induction false} ChunkingIsIrrelevant(link: Link, chunks: seq<bytes>)
    requires Tracked(link.conn) && Progressing(link.buffer + Concat(chunks)) && chunks != []
    ensures ReceiveAll(link, chunks) == Receive(link, Concat(chunks))
    decreases |chunks|
  {
    var n := |chunks| - 1;
    var before := chunks[..n];
    if n == 0 {
      assert Concat(chunks) == chunks[0] by { assert Concat(before) == []; }
      assert ReceiveAll(link, before) == link;
    } else {
      ReceiveTwice(link, Concat(before), chunks[n]);
      ChunkingIsIrrelevant(link, before);
    }
  }

  /** A whole session: however the server's bytes are cut, the first frame is the handshake, the others reach
      the connection in order, and the incomplete tail is kept. */
  lemma SessionDelivers(conn: Conn, frames: seq<bytes>, tail: bytes, chunks: seq<bytes>)
    requires Tracked(conn) && frames != [] && chunks != []
    requires (forall f :: f in frames ==> IsFrame(f)) && IsTail(tail)
    requires tail == [] ==> |frames[|frames| - 1]| > 4
    requires Concat(chunks) == ConcatFrames(frames) + tail
    ensures ReceiveAll(Link([], None, conn), chunks)
         == Link(tail, Some(frames[0]), Run(conn, seq(|frames| - 1, i requires 0 <= i < |frames| - 1 => Message(frames[i + 1]))))
  {
    hide Drain, Concat, ConcatFrames, Progressing, Step, Run, IsFrame, ReceiveAll;
    var link := Link([], None, conn);
    assert [] + Concat(chunks) == Concat(chunks);
    DrainFrames(frames, tail);
    ChunkingIsIrrelevant(link, chunks);
    MessagesInOrder(Link([], Some(frames[0]), conn), frames[1..]);
    var events := seq(|frames| - 1, i requires 0 <= i < |frames| - 1 => Message(frames[i + 1]));
    assert events == Messages(frames[1..]);
  }

  function Messages(frames: seq<bytes>): (events: seq<Event>)
    ensures |events| == |frames|
  {
    seq(|frames|, i requires 0 <= i < |frames| => Message(frames[i]))
  }

  lemma {:induction false} MessagesInOrder(link: Link, frames: seq<bytes>)
    requires Tracked(link.conn) && link.handshake.Some?
    ensures DispatchAll(link, frames) == link.(conn := Run(link.conn, Messages(frames)))
    decreases |frames|
  {
    if frames != [] {
      var n := |frames| - 1;
      MessagesInOrder(link, frames[..n]);
      assert frames == frames[..n] + [frames[n]];
      DispatchAppend(link, frames[..n], [frames[n]]);
      var link' := DispatchAll(link, frames[..n]);
      assert DispatchAll(link', [frames[n]]) == Dispatch(link', frames[n]) by {
        DispatchOne(link', frames[n]);
      }
      assert Messages(frames)[..n] == Messages(frames[..n]);
    }
  }

  class BaseProtocol {
    var buffer: bytes
    var handshake: Option<bytes>
    const conn: AioConnection

    constructor (conn: AioConnection)
      ensures this.conn == conn && buffer == [] && handshake == None
    {
      this.conn := conn;
      buffer := [];
      handshake := None;
    }

    function View(): Link
      reads this, conn
    {
      Link(buffer, handshake, conn.View())
    }

    /** `data_received`, for all data on which its loop ends. */
    method DataReceived(data: bytes)
      requires conn.Valid() && Ends(buffer + data)
      modifies this, conn
      ensures conn.Valid() && View() == Receive(old(View()), data)
    {
      ghost var link, all := View(), Drain(buffer + data);
      ghost var sent: seq<bytes> := [];
      hide RequestId, FromSignedLE, LengthField, Resolved;
      buffer := buffer + data;
      assert sent + all.0 == all.0;
      while HasFullResponse(buffer)
        invariant conn.Valid() && Ends(buffer)
        invariant all == (sent + Drain(buffer).0, Drain(buffer).1)
        invariant View() == DispatchAll(link, sent).(buffer := buffer)
        decreases |buffer|
      {
        var n := PacketEnd(buffer);
        hide PacketEnd;
        var packet := buffer[0..n];
        assert packet == buffer[..n];
        ghost var rest := Drain(buffer[n..]).0;
        assert sent + ([packet] + rest) == (sent + [packet]) + rest;
        DispatchAppend(link, sent, [packet]);
        assert DispatchAll(DispatchAll(link, sent), [packet]) == Dispatch(DispatchAll(link, sent), packet) by {
          DispatchOne(DispatchAll(link, sent), packet);
        }
        if handshake == None {
          handshake := Some(packet);
        } else {
          conn.ProcessMessage(packet);
        }
        assert buffer[n..|buffer|] == buffer[n..];
        buffer := buffer[n..|buffer|];
        sent := sent + [packet];
      }
      assert sent + [] == sent;
    }
  }
}
