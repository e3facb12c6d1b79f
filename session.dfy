/** `handle_client`: the handshake, then length-prefixed AVL packets, each
    acknowledged with the number of records it carried. */
module Session {
  import opened Bytes
  import opened Avl
  import opened Records
  import opened Sockets

  /** What the session does with the bytes of one packet (`process_avl_data`). */
  type FrameDecoder = seq<byte> -> Result<Frame>

  /** `struct.pack('!B', 0x01)`: the acknowledgement of the IMEI. */
  const ImeiAck: seq<byte> := [0x01]

  // ---------------------------------------------------------------------
  // The session as a function of the bytes the device sends

  /** The acknowledgements sent for the bytes `s` that follow the handshake:
      the packet loop of `handle_client`. */
  function Frames(proc: FrameDecoder, s: seq<byte>): (r: seq<seq<byte>>)
    ensures forall i :: 0 <= i < |r| ==> |r[i]| == 4
    decreases |s|, 1
  {
    if |s| < 4 then [] else NextFrame(proc, s)
  }

  /** One turn of the packet loop: the big-endian u32 length at `s[..4]`
      (0 is a keep-alive: nothing is sent and the loop goes on), then that
      many bytes of packet. A short packet, a packet the decoder rejects, or a
      record count `struct.pack('!I')` cannot write ends the session. */
  function NextFrame(proc: FrameDecoder, s: seq<byte>): (r: seq<seq<byte>>)
    requires |s| >= 4
    ensures forall i :: 0 <= i < |r| ==> |r[i]| == 4
    decreases |s|, 0
  {
    var len := BeUint(s[..4]);
    if len == 0 then Frames(proc, s[4..])
    else if |s| < 4 + len then []
    else
      match proc(s[4 .. 4 + len])
      case Fail(_) => []
      case Ok(f) =>
        if |f.records| >= 0x1_0000_0000 then []
        else [U32Be(|f.records|)] + Frames(proc, s[4 + len..])
  }

  /** Everything `handle_client` sends for the bytes `s` the device delivers
      before it closes or goes silent: the preamble's second byte is the IMEI
      length, the IMEI follows, then 0x01 and the packets' acknowledgements.
      An IMEI length of 0 makes `receive_all` return `b''`, which the code
      treats as a missing IMEI. */
  function Session(proc: FrameDecoder, s: seq<byte>): (r: seq<seq<byte>>)
    ensures r != [] ==> r[0] == ImeiAck && forall i :: 1 <= i < |r| ==> |r[i]| == 4
  {
    if |s| < 2 then []
    else
      var n: nat := s[1];
      if n == 0 || |s| < 2 + n then []
      else [ImeiAck] + Frames(proc, s[2 + n..])
  }

  // ---------------------------------------------------------------------
  // The imperative session of main.py

  /** `handle_client(client_socket, addr)`: everything it sends is what
      `Session` says for the bytes the device delivers, and the socket is
      closed on every path. */
  method HandleClient(sock: Socket)
    modifies sock
    ensures sock.sent == old(sock.sent) + Session(DecodeFrame, Available(old(sock.incoming)))
    ensures sock.closed
  {
    ghost var s := Available(sock.incoming);
    var ok := Handshake(sock);
    if !ok {
      AppendEmpty(sock.sent);
      sock.Close();
      return;
    }
    while true
      invariant sock.sent + Frames(DecodeFrame, Available(sock.incoming))
             == old(sock.sent) + Session(DecodeFrame, s)
      decreases |Available(sock.incoming)|
    {
      var stop := ServeFrame(sock);
      if stop {
        break;
      }
    }
    sock.Close();
  }

  /** The preamble and the IMEI of `handle_client`, and the 0x01 that
      acknowledges them; `ok` is false when the session ends there. */
  method Handshake(sock: Socket) returns (ok: bool)
    modifies sock
    ensures sock.closed == old(sock.closed)
    ensures var s := Available(old(sock.incoming));
            && (ok <==> (|s| >= 2 && s[1] > 0 && |s| >= 2 + s[1] as int))
            && (ok ==> && sock.sent == old(sock.sent) + [ImeiAck]
                       && Available(sock.incoming) == s[2 + s[1] as int..])
    ensures !ok ==> sock.sent == old(sock.sent) && Session(DecodeFrame, Available(old(sock.incoming))) == []
    ensures ok ==> (sock.sent + Frames(DecodeFrame, Available(sock.incoming))
                    == old(sock.sent) + Session(DecodeFrame, Available(old(sock.incoming))))
  {
    ghost var s := Available(sock.incoming);
    var preamble := ReceiveAll(sock, 2);
    if preamble.None? || preamble.value == [] || |preamble.value| < 2 {
      return false;
    }
    var imeiLength: nat := preamble.value[1];
    var imei := ReceiveAll(sock, imeiLength);
    if imei.None? || imei.value == [] || |imei.value| < imeiLength {
      return false;
    }
    assert s[2..][imeiLength..] == s[2 + imeiLength..];
    ghost var sent := sock.sent;
    sock.Send(ImeiAck);
    Assoc(sent, [ImeiAck], Frames(DecodeFrame, Available(sock.incoming)));
    return true;
  }

  /** How one length-prefixed read of the packet loop ends. */
  datatype PacketRead = Packet(bytes: seq<byte>) | KeepAlive | Ended

  /** The four-byte length and the packet it announces, as `handle_client`
      reads them: a zero length is a keep-alive, and a stream that ends
      before the length or the packet is complete ends the session. */
  method ReadPacket(sock: Socket) returns (p: PacketRead)
    modifies sock
    ensures sock.sent == old(sock.sent) && sock.closed == old(sock.closed)
    ensures var a := Available(old(sock.incoming));
            match p
            case Ended =>
              |a| < 4 || (BeUint(a[..4]) > 0 && |a| < 4 + BeUint(a[..4]))
            case KeepAlive =>
              |a| >= 4 && BeUint(a[..4]) == 0 && Available(sock.incoming) == a[4..]
            case Packet(b) =>
              && |a| >= 4 && BeUint(a[..4]) > 0 && |a| >= 4 + BeUint(a[..4])
              && b == a[4 .. 4 + BeUint(a[..4])]
              && Available(sock.incoming) == a[4 + BeUint(a[..4])..]
  {
    ghost var a := Available(sock.incoming);
    var lengthBytes := ReceiveAll(sock, 4);
    if lengthBytes.None? || lengthBytes.value == [] || |lengthBytes.value| < 4 {
      return Ended;
    }
    var dataLength := BeUint(lengthBytes.value);
    if dataLength == 0 {
      return KeepAlive;
    }
    var data := ReceiveAll(sock, dataLength);
    if data.None? || data.value == [] || |data.value| < dataLength {
      return Ended;
    }
    assert a[4..][..dataLength] == a[4 .. 4 + dataLength];
    assert a[4..][dataLength..] == a[4 + dataLength..];
    return Packet(data.value);
  }

  /** One turn of the packet loop of `handle_client`; `stop` reports a
      `break` (or an exception that ends the session). */
  method ServeFrame(sock: Socket) returns (stop: bool)
    modifies sock
    ensures sock.closed == old(sock.closed)
    ensures stop ==> sock.sent == old(sock.sent)
    ensures stop ==> sock.sent == old(sock.sent) + Frames(DecodeFrame, Available(old(sock.incoming)))
    ensures !stop ==>
              var a := Available(old(sock.incoming));
              && |a| >= 4
              && (var len := BeUint(a[..4]);
                  && |a| >= 4 + len
                  && Available(sock.incoming) == a[4 + len..]
                  && (len > 0 ==> DecodeFrame(a[4 .. 4 + len]).Ok?)
                  && sock.sent == old(sock.sent) +
                       (if len == 0 then [] else [U32Be(|DecodeFrame(a[4 .. 4 + len]).value.records|)]))
    ensures var a := Available(old(sock.incoming));
            stop <==> (|a| < 4 || (BeUint(a[..4]) > 0 && (|a| < 4 + BeUint(a[..4])
                                     || DecodeFrame(a[4 .. 4 + BeUint(a[..4])]).Fail?)))
    ensures !stop ==> (&& sock.sent + Frames(DecodeFrame, Available(sock.incoming))
                          == old(sock.sent) + Frames(DecodeFrame, Available(old(sock.incoming)))
                       && |Available(sock.incoming)| < |Available(old(sock.incoming))|)
  {
    ghost var a := Available(sock.incoming);
    var p := ReadPacket(sock);
    match p
    case Ended =>
      EndedTurn(DecodeFrame, a);
      AppendEmpty(sock.sent);
      return true;
    case KeepAlive =>
      KeepAliveTurn(DecodeFrame, a);
      return false;
    case Packet(data) =>
      stop := ServePacket(sock, data, a);
  }

  /** The packet branch of one turn: `data` is the packet `ReadPacket` took
      from the front of `a`. */
  method ServePacket(sock: Socket, data: seq<byte>, ghost a: seq<byte>) returns (stop: bool)
    requires |a| >= 4 && BeUint(a[..4]) > 0 && |a| >= 4 + BeUint(a[..4])
    requires data == a[4 .. 4 + BeUint(a[..4])] && Available(sock.incoming) == a[4 + BeUint(a[..4])..]
    modifies sock
    ensures sock.incoming == old(sock.incoming) && sock.closed == old(sock.closed)
    ensures stop <==> DecodeFrame(data).Fail?
    ensures stop ==> sock.sent == old(sock.sent)
    ensures stop ==> sock.sent == old(sock.sent) + Frames(DecodeFrame, a)
    ensures !stop ==> sock.sent == old(sock.sent) + [U32Be(|DecodeFrame(data).value.records|)]
    ensures !stop ==> sock.sent + Frames(DecodeFrame, Available(sock.incoming))
                      == old(sock.sent) + Frames(DecodeFrame, a)
  {
    ghost var sent := sock.sent;
    stop := AcknowledgePacket(sock, data);
    PacketTurn(DecodeFrame, a);
    if stop {
      AppendEmpty(sock.sent);
    } else {
      Assoc(sent, [U32Be(|DecodeFrame(data).value.records|)], Frames(DecodeFrame, Available(sock.incoming)));
    }
  }

  /** `process_avl_data(data)` and the acknowledgement of its records:
      a packet that decodes gets its record count as one big-endian u32,
      and one that does not ends the session with nothing sent. */
  method AcknowledgePacket(sock: Socket, data: seq<byte>) returns (stop: bool)
    modifies sock
    ensures sock.incoming == old(sock.incoming) && sock.closed == old(sock.closed)
    ensures stop <==> DecodeFrame(data).Fail?
    ensures stop ==> sock.sent == old(sock.sent)
    ensures !stop ==> sock.sent == old(sock.sent) + [U32Be(|DecodeFrame(data).value.records|)]
  {
    var frame := ProcessAvlData(data);
    if frame.Fail? {
      return true;
    }
    sock.Send(U32Be(|frame.value.records|));
    return false;
  }

  // ---------------------------------------------------------------------
  // Properties of the session

  /** A preamble whose second byte is the length of a non-empty IMEI, then
      that IMEI: 0x01 is sent, and the packet loop reads the bytes right
      after the IMEI. */
  lemma {:induction false} ImeiAcknowledged(proc: FrameDecoder, p0: byte, imei: seq<byte>, rest: seq<byte>)
    requires 0 < |imei| < 0x100
    ensures Session(proc, [p0, |imei|] + imei + rest) == [ImeiAck] + Frames(proc, rest)
  {
    var d := [p0, |imei|] + imei + rest;
    assert d[1] == |imei| && d[2 + |imei|..] == rest;
  }

  /** A short preamble, an IMEI length of 0, or an IMEI cut short by the end
      of the stream: nothing at all is sent. */
  lemma {:induction false} ImeiRefused(proc: FrameDecoder, p0: byte, n: byte, imei: seq<byte>)
    ensures Session(proc, []) == [] && Session(proc, [p0]) == []
    ensures Session(proc, [p0, 0] + imei) == []
    ensures |imei| < n ==> Session(proc, [p0, n] + imei) == []
  {
    assert ([p0, 0] + imei)[1] == 0;
    assert ([p0, n] + imei)[1] == n;
  }

  /** A zero length is a keep-alive: nothing is sent for it and the loop
      reads on. */
  lemma {:induction false} KeepAliveSilent(proc: FrameDecoder, s: seq<byte>)
    ensures Frames(proc, U32Be(0) + s) == Frames(proc, s)
  {
    var d := U32Be(0) + s;
    assert d[..4] == U32Be(0);
    assert d[4..] == s;
    FrameStep(proc, d);
  }

  /** A packet of `|f| > 0` bytes is acknowledged, when the decoder accepts
      it, with its record count as one big-endian u32, and the loop reads on
      after it; a packet the decoder rejects ends the session with nothing
      sent. */
  lemma {:induction false} PacketAcknowledged(proc: FrameDecoder, f: seq<byte>, s: seq<byte>)
    requires 0 < |f| < 0x1_0000_0000
    ensures proc(f).Fail? ==> Frames(proc, U32Be(|f|) + f + s) == []
    ensures proc(f).Ok? && |proc(f).value.records| < 0x1_0000_0000 ==>
              Frames(proc, U32Be(|f|) + f + s) == [U32Be(|proc(f).value.records|)] + Frames(proc, s)
  {
    var d := U32Be(|f|) + f + s;
    assert d[..4] == U32Be(|f|);
    assert d[4 .. 4 + |f|] == f;
    assert d[4 + |f|..] == s;
    FrameStep(proc, d);
  }

  /** `a` is the acknowledgement of some packet within `s`: the record count,
      as a big-endian u32, of a stretch of `s` the decoder accepts. */
  ghost predicate AckOf(proc: FrameDecoder, s: seq<byte>, a: seq<byte>)
  {
    exists lo: nat, hi: nat ::
      && lo <= hi <= |s| && proc(s[lo..hi]).Ok?
      && |proc(s[lo..hi]).value.records| < 0x1_0000_0000
      && a == U32Be(|proc(s[lo..hi]).value.records|)
  }

  lemma {:induction false} AckOfShift(proc: FrameDecoder, s: seq<byte>, k: nat, a: seq<byte>)
    requires k <= |s| && AckOf(proc, s[k..], a)
    ensures AckOf(proc, s, a)
  {
    var lo: nat, hi: nat :| && lo <= hi <= |s[k..]| && proc(s[k..][lo..hi]).Ok?
                            && |proc(s[k..][lo..hi]).value.records| < 0x1_0000_0000
                            && a == U32Be(|proc(s[k..][lo..hi]).value.records|);
    assert s[k..][lo..hi] == s[k + lo .. k + hi];
  }

  /** Every acknowledgement of the packet loop is the record count of a
      packet the decoder accepted, as one four-byte big-endian u32. */
  lemma {:induction false} AcknowledgementsAreCounts(proc: FrameDecoder, s: seq<byte>)
    ensures forall i :: 0 <= i < |Frames(proc, s)| ==> AckOf(proc, s, Frames(proc, s)[i])
    decreases |s|
  {
    FrameStep(proc, s);
    if |s| >= 4 {
      var len := BeUint(s[..4]);
      if len == 0 {
        AcknowledgementsAreCounts(proc, s[4..]);
        forall i | 0 <= i < |Frames(proc, s)| ensures AckOf(proc, s, Frames(proc, s)[i]) {
          AckOfShift(proc, s, 4, Frames(proc, s)[i]);
        }
      } else if |s| >= 4 + len && proc(s[4 .. 4 + len]).Ok?
                && |proc(s[4 .. 4 + len]).value.records| < 0x1_0000_0000 {
        var rest := s[4 + len..];
        AcknowledgementsAreCounts(proc, rest);
        var acks := Frames(proc, s);
        assert acks == [U32Be(|proc(s[4 .. 4 + len]).value.records|)] + Frames(proc, rest);
        forall i | 0 <= i < |acks| ensures AckOf(proc, s, acks[i]) {
          if i == 0 {
            assert AckOf(proc, s, acks[0]) by {
              assert s[4 .. 4 + len] == s[4 .. 4 + len];
            }
          } else {
            assert acks[i] == Frames(proc, rest)[i - 1];
            AckOfShift(proc, s, 4 + len, acks[i]);
          }
        }
      }
    }
  }

  /** Packets the length prefix can announce. */
  predicate Framable(fs: seq<seq<byte>>)
  {
    forall i :: 0 <= i < |fs| ==> 0 < |fs[i]| < 0x1_0000_0000
  }

  /** The bytes a device sends for the packets `fs`: each after its length. */
  function Packets(fs: seq<seq<byte>>): seq<byte>
    requires Framable(fs)
  {
    if fs == [] then [] else U32Be(|fs[0]|) + fs[0] + Packets(fs[1..])
  }

  /** Packets the decoder accepts, with counts `struct.pack('!I')` can write. */
  predicate Accepted(proc: FrameDecoder, fs: seq<seq<byte>>)
  {
    forall i :: 0 <= i < |fs| ==> proc(fs[i]).Ok? && |proc(fs[i]).value.records| < 0x1_0000_0000
  }

  /** The record counts of accepted packets, each as a big-endian u32. */
  function Counts(proc: FrameDecoder, fs: seq<seq<byte>>): (r: seq<seq<byte>>)
    requires Accepted(proc, fs)
    ensures |r| == |fs|
    ensures forall i :: 0 <= i < |fs| ==> r[i] == U32Be(|proc(fs[i]).value.records|)
  {
    if fs == [] then [] else [U32Be(|proc(fs[0]).value.records|)] + Counts(proc, fs[1..])
  }

  /** A run of accepted packets is acknowledged packet by packet, in order. */
  lemma {:induction false} PacketsAcknowledged(proc: FrameDecoder, fs: seq<seq<byte>>, s: seq<byte>)
    requires Framable(fs) && Accepted(proc, fs)
    ensures Frames(proc, Packets(fs) + s) == Counts(proc, fs) + Frames(proc, s)
    decreases |fs|
  {
    if fs == [] {
      assert Packets(fs) + s == s;
    } else {
      var rest := Packets(fs[1..]) + s;
      assert Packets(fs) + s == U32Be(|fs[0]|) + fs[0] + rest;
      PacketAcknowledged(proc, fs[0], rest);
      PacketsAcknowledged(proc, fs[1..], s);
      Assoc([U32Be(|proc(fs[0]).value.records|)], Counts(proc, fs[1..]), Frames(proc, s));
    }
  }

  /** One AVL packet as a device sends it: a frame of records and the bytes
      after the records (the CRC field, which nothing reads). */
  datatype AvlPacket = AvlPacket(codec: byte, blocks: seq<RecordBlock>, trailer: seq<byte>)

  predicate PacketFits(p: AvlPacket)
  {
    && SupportedCodec(p.codec) && AllFit(p.blocks, p.codec)
    && |p.blocks| < (if p.codec == Codec8 then 0x100 else 0x1_0000)
    && |EncodeFrame(p.codec, p.blocks)| + |p.trailer| < 0x1_0000_0000
  }

  function Wire(p: AvlPacket): (r: seq<byte>)
    requires PacketFits(p)
    ensures 0 < |r| < 0x1_0000_0000
  {
    EncodeFrame(p.codec, p.blocks) + p.trailer
  }

  function Wires(ps: seq<AvlPacket>): (r: seq<seq<byte>>)
    requires forall i :: 0 <= i < |ps| ==> PacketFits(ps[i])
    ensures |r| == |ps| && forall i :: 0 <= i < |ps| ==> r[i] == Wire(ps[i])
  {
    if ps == [] then [] else [Wire(ps[0])] + Wires(ps[1..])
  }

  /** The acknowledgements a device expects: each packet's record count. */
  function RecordCounts(ps: seq<AvlPacket>): (r: seq<seq<byte>>)
    requires forall i :: 0 <= i < |ps| ==> |ps[i].blocks| < 0x1_0000
    ensures |r| == |ps|
  {
    if ps == [] then [] else [U32Be(|ps[0].blocks|)] + RecordCounts(ps[1..])
  }

  /** An encoded packet decodes to its records. */
  lemma {:induction false} WireDecodes(p: AvlPacket)
    requires PacketFits(p)
    ensures DecodeFrame(Wire(p)) == Ok(Frame(p.codec, RecordsOfBlocks(p.blocks)))
  {
    FrameRoundTrip(p.codec, p.blocks, p.trailer);
  }

  /** After the handshake, a run of packets the decoder accepts is
      acknowledged with 0x01 and then each packet's record count. */
  lemma {:induction false} SessionAcknowledged(proc: FrameDecoder, p0: byte, imei: seq<byte>, fs: seq<seq<byte>>)
    requires 0 < |imei| < 0x100
    requires Framable(fs) && Accepted(proc, fs)
    ensures Session(proc, [p0, |imei|] + imei + Packets(fs)) == [ImeiAck] + Counts(proc, fs)
  {
    PacketsAcknowledged(proc, fs, []);
    var d := [p0, |imei|] + imei + Packets(fs);
    assert d[2 + |imei|..] == Packets(fs) + [];
    assert Counts(proc, fs) + Frames(proc, []) == Counts(proc, fs);
    ImeiAcknowledged(proc, p0, imei, Packets(fs));
  }

  /** Encoded packets are accepted, each acknowledged with its number of
      records. */
  lemma {:induction false} WiresAccepted(ps: seq<AvlPacket>)
    requires forall i :: 0 <= i < |ps| ==> PacketFits(ps[i])
    ensures Accepted(DecodeFrame, Wires(ps)) && Counts(DecodeFrame, Wires(ps)) == RecordCounts(ps)
  {
    var fs := Wires(ps);
    forall i | 0 <= i < |fs|
      ensures DecodeFrame(fs[i]).Ok? && |DecodeFrame(fs[i]).value.records| == |ps[i].blocks|
    {
      WireDecodes(ps[i]);
    }
    CountsMatch(ps, fs);
  }

  /** A device that sends a preamble, a non-empty IMEI and well-formed AVL
      packets gets 0x01 and then, for each packet in order, its record count
      as a big-endian u32. */
  lemma {:induction false} SessionRoundTrip(p0: byte, imei: seq<byte>, ps: seq<AvlPacket>)
    requires 0 < |imei| < 0x100
    requires forall i :: 0 <= i < |ps| ==> PacketFits(ps[i])
    ensures Session(DecodeFrame, [p0, |imei|] + imei + Packets(Wires(ps))) == [ImeiAck] + RecordCounts(ps)
  {
    WiresAccepted(ps);
    SessionAcknowledged(DecodeFrame, p0, imei, Wires(ps));
  }

  lemma {:induction false} CountsMatch(ps: seq<AvlPacket>, fs: seq<seq<byte>>)
    requires |fs| == |ps| && Accepted(DecodeFrame, fs)
    requires forall i :: 0 <= i < |fs| ==> |DecodeFrame(fs[i]).value.records| == |ps[i].blocks|
    ensures Counts(DecodeFrame, fs) == RecordCounts(ps)
    decreases |ps|
  {
    if ps != [] {
      CountsMatch(ps[1..], fs[1..]);
    }
  }

  /** One turn of the packet loop, by how the length-prefixed read ends. */
  lemma {:induction false} FrameStep(proc: FrameDecoder, a: seq<byte>)
    ensures |a| < 4 ==> Frames(proc, a) == []
    ensures |a| >= 4 ==>
              var len := BeUint(a[..4]);
              && (len == 0 ==> Frames(proc, a) == Frames(proc, a[4..]))
              && (len > 0 && |a| < 4 + len ==> Frames(proc, a) == [])
              && (len > 0 && |a| >= 4 + len && proc(a[4 .. 4 + len]).Fail? ==> Frames(proc, a) == [])
              && (len > 0 && |a| >= 4 + len && proc(a[4 .. 4 + len]).Ok?
                  && |proc(a[4 .. 4 + len]).value.records| < 0x1_0000_0000 ==>
                    Frames(proc, a) == [U32Be(|proc(a[4 .. 4 + len]).value.records|)] + Frames(proc, a[4 + len..]))
  {
    if |a| >= 4 {
      assert Frames(proc, a) == NextFrame(proc, a);
    }
  }

  /** A turn whose read ends the stream sends nothing more. */
  lemma EndedTurn(proc: FrameDecoder, a: seq<byte>)
    requires |a| < 4 || (BeUint(a[..4]) > 0 && |a| < 4 + BeUint(a[..4]))
    ensures Frames(proc, a) == []
  {
    FrameStep(proc, a);
  }

  /** A keep-alive sends nothing and the loop goes on. */
  lemma KeepAliveTurn(proc: FrameDecoder, a: seq<byte>)
    requires |a| >= 4 && BeUint(a[..4]) == 0
    ensures Frames(proc, a) == Frames(proc, a[4..])
  {
    FrameStep(proc, a);
  }

  /** A whole packet is acknowledged with its record count if it decodes,
      and ends the session otherwise. */
  lemma PacketTurn(proc: FrameDecoder, a: seq<byte>)
    requires |a| >= 4 && BeUint(a[..4]) > 0 && |a| >= 4 + BeUint(a[..4])
    ensures var len := BeUint(a[..4]);
            && (proc(a[4 .. 4 + len]).Fail? ==> Frames(proc, a) == [])
            && (proc(a[4 .. 4 + len]).Ok? && |proc(a[4 .. 4 + len]).value.records| < 0x1_0000_0000 ==>
                  Frames(proc, a) == [U32Be(|proc(a[4 .. 4 + len]).value.records|)] + Frames(proc, a[4 + len..]))
  {
    FrameStep(proc, a);
  }
}
