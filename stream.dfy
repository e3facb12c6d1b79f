/** The client socket as `handle_client` and `receive_all` see it: `recv`
    calls that deliver chunks of the TCP byte stream, time out, or report
    the peer's orderly close; and `send` calls. */
module Sockets {
  import opened Bytes
  import opened Avl

  /** What the peer does next: deliver a chunk (`Data([])` is the orderly
      close `recv` reports as `b''`), or stay silent past the socket timeout. */
  datatype Event = Data(chunk: seq<byte>) | Timeout

  /** The result of one `recv` call: the bytes returned, or `socket.timeout`. */
  datatype Received = Chunk(bytes: seq<byte>) | TimedOut

  /** `recv(n)` against the events still to come: at most `n` bytes of the
      next chunk, the rest of it left for the next call. Once the events are
      used up the peer has closed the connection. */
  function RecvEvent(es: seq<Event>, n: nat): (r: (Received, seq<Event>))
    requires n > 0
    ensures r.0.Chunk? ==> |r.0.bytes| <= n
  {
    if es == [] then (Chunk([]), [])
    else
      match es[0]
      case Timeout => (TimedOut, es[1..])
      case Data(c) =>
        if |c| <= n then (Chunk(c), es[1..])
        else (Chunk(c[..n]), [Data(c[n..])] + es[1..])
  }

  /** The bytes the peer delivers before it closes the connection or lets
      the socket time out. */
  function Available(es: seq<Event>): seq<byte>
  {
    if es == [] then []
    else
      match es[0]
      case Timeout => []
      case Data(c) => if c == [] then [] else c + Available(es[1..])
  }

  /** `receive_all(sock, length)` with `acc` already received: `recv` for the
      bytes still missing until there are `length` of them; `None` on a
      timeout or an orderly close. */
  function ReadExact(es: seq<Event>, length: nat, acc: seq<byte>): (r: (Option<seq<byte>>, seq<Event>))
    requires |acc| <= length
    ensures r.0.Some? ==> |r.0.value| == length && r.0.value[..|acc|] == acc
    decreases length - |acc|
  {
    if |acc| >= length then (Some(acc), es)
    else
      var (m, rest) := RecvEvent(es, length - |acc|);
      match m
      case TimedOut => (None, rest)
      case Chunk(c) => if c == [] then (None, rest) else ReadExact(rest, length, acc + c)
  }

  /** The connected client socket. */
  class Socket {
    /** What the peer does from now on. */
    var incoming: seq<Event>
    /** Every buffer passed to `send`, in order. */
    var sent: seq<seq<byte>>
    var closed: bool

    constructor(es: seq<Event>)
      ensures incoming == es && sent == [] && !closed
    {
      incoming := es;
      sent := [];
      closed := false;
    }

    /** `recv(n)`. */
    method Recv(n: nat) returns (r: Received)
      requires n > 0
      modifies this
      ensures (r, incoming) == RecvEvent(old(incoming), n)
      ensures sent == old(sent) && closed == old(closed)
    {
      var step := RecvEvent(incoming, n);
      r := step.0;
      incoming := step.1;
    }

    /** `send(b)`; the whole buffer is taken. */
    method Send(b: seq<byte>)
      modifies this
      ensures sent == old(sent) + [b]
      ensures incoming == old(incoming) && closed == old(closed)
    {
      sent := sent + [b];
    }

    method Close()
      modifies this
      ensures closed
      ensures incoming == old(incoming) && sent == old(sent)
    {
      closed := true;
    }
  }

  /** `receive_all(sock, length)`: exactly the next `length` bytes of the
      stream, or `None` when fewer arrive before a timeout or a close. */
  method ReceiveAll(sock: Socket, length: nat) returns (r: Option<seq<byte>>)
    modifies sock
    ensures (r, sock.incoming) == ReadExact(old(sock.incoming), length, [])
    ensures r.Some? <==> |Available(old(sock.incoming))| >= length
    ensures r.Some? ==> && r.value == Available(old(sock.incoming))[..length]
                        && Available(sock.incoming) == Available(old(sock.incoming))[length..]
    ensures sock.sent == old(sock.sent) && sock.closed == old(sock.closed)
  {
    ReadExactAvailable(sock.incoming, length, []);
    assert [] + Available(sock.incoming) == Available(sock.incoming);
    var data: seq<byte> := [];
    while |data| < length
      invariant |data| <= length
      invariant ReadExact(old(sock.incoming), length, []) == ReadExact(sock.incoming, length, data)
      invariant sock.sent == old(sock.sent) && sock.closed == old(sock.closed)
      decreases length - |data|
    {
      var more := sock.Recv(length - |data|);
      if more.TimedOut? {
        return None;
      }
      if more.bytes == [] {
        return None;
      }
      data := data + more.bytes;
    }
    return Some(data);
  }

  /** One `recv` takes a prefix of the available bytes: a non-empty chunk
      is followed by the rest, and a timeout or a close means nothing more
      is available. */
  lemma {:induction false} RecvAvailable(es: seq<Event>, n: nat)
    requires n > 0
    ensures var (m, rest) := RecvEvent(es, n);
            if m.Chunk? && m.bytes != [] then Available(es) == m.bytes + Available(rest)
            else Available(es) == []
  {
    if es != [] && es[0].Data? && |es[0].chunk| > n {
      var c := es[0].chunk;
      assert c == c[..n] + c[n..];
      assert ([Data(c[n..])] + es[1..])[1..] == es[1..];
    }
  }

  /** `receive_all` returns exactly `length` bytes, the next ones the peer
      sends in the order it sends them, when that many arrive before a
      timeout or a close, and `None` otherwise; what it leaves is the rest
      of the stream. */
  lemma {:induction false} ReadExactAvailable(es: seq<Event>, length: nat, acc: seq<byte>)
    requires |acc| <= length
    ensures var (r, rest) := ReadExact(es, length, acc);
            && (r.Some? <==> |acc| + |Available(es)| >= length)
            && (r.Some? ==> |r.value| == length && r.value == (acc + Available(es))[..length]
                             && Available(rest) == Available(es)[length - |acc|..])
    decreases length - |acc|
  {
    if |acc| < length {
      var (m, rest) := RecvEvent(es, length - |acc|);
      RecvAvailable(es, length - |acc|);
      if m.Chunk? && m.bytes != [] {
        var c := m.bytes;
        ReadExactAvailable(rest, length, acc + c);
        Assoc(acc, c, Available(rest));
        if |acc + c| + |Available(rest)| >= length {
          DropPrefix(c, Available(rest), length - |acc + c|);
        }
      }
    }
  }

  lemma {:induction false} DropPrefix(c: seq<byte>, y: seq<byte>, k: nat)
    requires k <= |y|
    ensures (c + y)[|c| + k..] == y[k..]
  {
  }
}
