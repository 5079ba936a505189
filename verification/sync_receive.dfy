/** The blocking receive loop: one frame into a buffer that grows once its length is known. */
module SyncReceive {
  import opened Bytes
  import opened Framing

  const DEFAULT_INITIAL_BUF_SIZE: nat := 1024

  datatype Received = Data(data: bytes) | Broken

  /** The peer's bytes arrive in pieces of any size; after the last one the connection is broken. */
  class Socket {
    const wire: bytes
    var read: nat

    constructor (wire: bytes)
      ensures this.wire == wire && read == 0
    {
      this.wire := wire;
      read := 0;
    }

    function Unread(): bytes
      requires read <= |wire|
      reads this
    {
      wire[read..]
    }

    /** `recv_into` a buffer of `room` bytes. */
    method RecvInto(room: nat) returns (piece: bytes)
      requires read <= |wire|
      modifies this
      ensures old(read) <= read <= |wire| && |piece| == read - old(read) <= room
      ensures piece == wire[old(read)..read]
      ensures piece == [] <==> room == 0 || old(read) == |wire|
    {
      if room == 0 || read == |wire| { return []; }
      var n: nat :| 1 <= n <= room && read + n <= |wire|;
      piece := wire[read..read + n];
      read := read + n;
    }
  }

  /** The unread bytes start with a frame that the loop can recognise. */
  predicate StartsWithFrame(w: bytes) {
    HasFullResponse(w) && LengthField(w) > -4
  }

  /** `data[start:start + len(piece)] = piece`. */
  function Filled(data: bytes, start: nat, piece: bytes): (r: bytes)
    requires start + |piece| <= |data|
    ensures |r| == |data|
  {
    data[..start] + piece + data[start + |piece|..]
  }

  function Zeros(n: nat): (r: bytes)
    ensures |r| == n
  {
    seq(n, _ => 0)
  }

  /** `Connection.recv`. It succeeds exactly when a frame with at least one payload byte is on the wire, whatever
      pieces it comes in, and the result begins with that frame; a frame longer than the first buffer is
      consumed to the byte. */
  method Recv(socket: Socket) returns (r: Received)
    requires socket.read <= |socket.wire|
    modifies socket
    ensures old(socket.read) <= socket.read <= |socket.wire|
    ensures r.Data? <==> StartsWithFrame(old(socket.Unread()))
    ensures r.Data? ==>
      var w, n, consumed := old(socket.Unread()), LengthField(old(socket.Unread())) + 4, socket.read - old(socket.read);
      n <= consumed <= |r.data| && r.data[..consumed] == w[..consumed]
      && |r.data| == (if n > DEFAULT_INITIAL_BUF_SIZE then n else DEFAULT_INITIAL_BUF_SIZE)
  {
    ghost var w := socket.Unread();
    var data := Zeros(DEFAULT_INITIAL_BUF_SIZE);
    var bufferStart := 0; // the view handed to the socket is data[bufferStart..]
    var totalRcvd, packetLen := 0, 0;
    while true
      invariant bufferStart == totalRcvd == socket.read - old(socket.read) <= |data|
      invariant socket.read <= |socket.wire| && totalRcvd <= |w|
      invariant data[..totalRcvd] == w[..totalRcvd]
      invariant totalRcvd <= 4 ==> packetLen == 0
      invariant totalRcvd > 4 ==> packetLen == LengthField(w) + 4
      invariant |data| == if packetLen > DEFAULT_INITIAL_BUF_SIZE then packetLen else DEFAULT_INITIAL_BUF_SIZE
      invariant !(0 < packetLen <= totalRcvd)
      decreases |socket.wire| - socket.read
    {
      ghost var before := totalRcvd;
      var piece := socket.RecvInto(|data| - bufferStart);
      if piece == [] {
        return Broken;
      }
      data := Filled(data, bufferStart, piece);
      totalRcvd := totalRcvd + |piece|;
      assert data[..totalRcvd] == w[..totalRcvd] by {
        assert piece == w[before..totalRcvd];
        assert data[..totalRcvd] == w[..before] + piece;
      }
      if packetLen == 0 && totalRcvd > 4 {
        assert data[..4] == data[..totalRcvd][..4] == w[..4];
        packetLen := LengthField(data) + 4;
        if packetLen > |data| {
          data := data + Zeros(packetLen - |data|);
          bufferStart := totalRcvd;
          continue;
        }
      }
      if 0 < packetLen <= totalRcvd {
        break;
      }
      bufferStart := bufferStart + |piece|;
    }
    r := Data(data);
  }
}
