/** `parse_record` and `process_avl_data`: AVL records decoded back to back
    after the frame header. */
module Records {
  import opened Bytes
  import opened Avl
  import opened GpsElement
  import opened IoElement

  /** Timestamp, priority and GPS element: 8 + 1 + 15 bytes. */
  const RecordPrefix: nat := 24

  /** Milliseconds from the epoch to 10000-01-01T00:00:00Z, the first instant
      `datetime.utcfromtimestamp` cannot represent. */
  const UtcLimit: nat := 253_402_300_800_000

  function Min(a: nat, b: nat): nat
  {
    if a <= b then a else b
  }

  /** Python's `data[offset:]`: empty once `offset` passes the end
      (`TailDrop` relates it to Dafny's slice). */
  function Tail(d: seq<byte>, off: nat): seq<byte>
    decreases off
  {
    if off == 0 || d == [] then d else Tail(d[1..], off - 1)
  }

  lemma {:induction false} TailDrop(d: seq<byte>, off: nat)
    ensures off <= |d| ==> Tail(d, off) == d[off..]
    ensures off > |d| ==> Tail(d, off) == []
    decreases off
  {
    if off > 0 && d != [] {
      TailDrop(d[1..], off - 1);
      if off <= |d| {
        assert d[1..][off - 1..] == d[off..];
      }
    }
  }

  // ---------------------------------------------------------------------
  // Specification

  /** One record decoded from the start of `d`, and the bytes it consumed. */
  function DecodeRecord(d: seq<byte>, codec: byte): (r: Result<Parsed>)
    ensures r.Ok? ==> && |d| >= RecordPrefix && r.value.size >= RecordPrefix
                      && r.value.record.timestamp < UtcLimit
  {
    if |d| < 8 then Fail(OutOfRange)
    else
      var timestamp := BeAt(d, 0, 8);
      if timestamp >= UtcLimit then Fail(TimestampRange)
      else if |d| < 9 then Fail(OutOfRange)
      else
        var gps :- ParseGps(d[9 .. Min(RecordPrefix, |d|)]);
        var io :- DecodeIo(Tail(d, RecordPrefix), codec);
        Ok(Parsed(Record(timestamp, d[8], gps, io.0), RecordPrefix + io.1))
  }

  /** A decoder of one item from the front of a byte string, reporting the
      bytes it consumed. */
  type Decoder = seq<byte> -> Result<Parsed>

  /** `dec` applied `k` times back to back, item `j + 1` parsed from the
      position where item `j` ended: the record loop of `process_avl_data`. */
  function DecodeRecords(dec: Decoder, d: seq<byte>, off: nat, k: nat): (r: Result<seq<Parsed>>)
    ensures r.Ok? ==> |r.value| == k
    decreases k
  {
    if k == 0 then Ok([])
    else
      var p :- dec(Tail(d, off));
      var rest :- DecodeRecords(dec, d, off + p.size, k - 1);
      Ok([p] + rest)
  }

  /** `parse_record` with the codec of the frame fixed. */
  function RecordDecoder(codec: byte): Decoder
  {
    t => DecodeRecord(t, codec)
  }

  function RecordsOf(ps: seq<Parsed>): (r: seq<Record>)
    ensures |r| == |ps|
  {
    if ps == [] then [] else [ps[0].record] + RecordsOf(ps[1..])
  }

  /** Bytes before the first record: the codec tag and the record count. */
  function HeaderSize(codec: byte): nat
  {
    if codec == Codec8 then 2 else 3
  }

  /** The record count of the header: one byte for Codec 8, two for Codec 8E. */
  function DeclaredCount(d: seq<byte>): (r: nat)
    requires |d| >= 1 && SupportedCodec(d[0]) && |d| >= HeaderSize(d[0])
    ensures r < 0x1_0000
  {
    if d[0] == Codec8 then d[1]
    else
      BeAtSlice(d, 1, 2);
      BeUintBound(d[1..3]);
      BeAt(d, 1, 2)
  }

  function FrameOf(codec: byte, r: Result<seq<Parsed>>): Result<Frame>
  {
    var ps :- r;
    Ok(Frame(codec, RecordsOf(ps)))
  }

  /** `process_avl_data(data)`: the codec tag at 0, the record count, then
      that many records. */
  function DecodeFrame(d: seq<byte>): (r: Result<Frame>)
    ensures r.Ok? ==> && |d| >= 1 && SupportedCodec(d[0]) && |d| >= HeaderSize(d[0])
                      && r.value.codec == d[0] && |r.value.records| == DeclaredCount(d)
  {
    if |d| == 0 then Fail(OutOfRange)
    else if !SupportedCodec(d[0]) then Fail(UnsupportedCodec(d[0]))
    else if |d| < HeaderSize(d[0]) then Fail(OutOfRange)
    else FrameOf(d[0], DecodeRecords(RecordDecoder(d[0]), d, HeaderSize(d[0]), DeclaredCount(d)))
  }

  // ---------------------------------------------------------------------
  // The imperative decoders of main.py

  /** `parse_record(data, codec_id)`. */
  method ParseRecord(d: seq<byte>, codec: byte) returns (r: Result<Parsed>)
    ensures r == DecodeRecord(d, codec)
  {
    var offset: nat := 0;
    if |d| < offset + 8 {
      return Fail(OutOfRange);
    }
    var timestamp := BeAt(d, offset, 8);
    offset := offset + 8;
    if timestamp >= UtcLimit {
      return Fail(TimestampRange);
    }
    if offset >= |d| {
      return Fail(OutOfRange);
    }
    var priority := d[offset];
    offset := offset + 1;
    var gps := ParseGps(d[offset .. Min(offset + GpsSize, |d|)]);
    if gps.Fail? {
      return Fail(gps.error);
    }
    offset := offset + GpsSize;
    TailDrop(d, offset);
    var io := ParseIoElement(d[offset..], codec);
    if io.Fail? {
      return Fail(io.error);
    }
    offset := offset + io.value.1;
    return Ok(Parsed(Record(timestamp, priority, gps.value, io.value.0), offset));
  }

  /** `ps` are the items `dec` decodes back to back from `off`, the next one
      starting at `end`. */
  ghost predicate Chain(dec: Decoder, d: seq<byte>, off: nat, ps: seq<Parsed>, end: nat)
    decreases |ps|, 1
  {
    if ps == [] then off == end
    else Link(dec, d, off, ps, end)
  }

  /** A non-empty chain: its first item decoded at `off`, the rest chained
      on from where that item ends. */
  ghost predicate Link(dec: Decoder, d: seq<byte>, off: nat, ps: seq<Parsed>, end: nat)
    requires ps != []
    decreases |ps|, 0
  {
    dec(Tail(d, off)) == Ok(ps[0]) && Chain(dec, d, off + ps[0].size, ps[1..], end)
  }

  /** One turn of the record loop of `process_avl_data`: the record parsed
      from `data[offset:]` after the `done` records already decoded. */
  method NextRecord(d: seq<byte>, ghost start: nat, ghost count: nat, codec: byte, ghost done: seq<Parsed>, off: nat)
    returns (p: Result<Parsed>)
    requires |done| < count && Chain(RecordDecoder(codec), d, start, done, off)
    ensures p.Fail? ==> DecodeRecords(RecordDecoder(codec), d, start, count) == Fail(p.error)
    ensures p.Ok? ==> Chain(RecordDecoder(codec), d, start, done + [p.value], off + p.value.size)
  {
    TailDrop(d, off);
    var rest := if off <= |d| then d[off..] else [];
    p := ParseRecord(rest, codec);
    assert RecordDecoder(codec)(Tail(d, off)) == p;
    ChainNext(RecordDecoder(codec), d, start, done, off, count, p);
  }

  /** `process_avl_data(data)`. */
  method ProcessAvlData(d: seq<byte>) returns (r: Result<Frame>)
    ensures r == DecodeFrame(d)
  {
    var offset: nat := 0;
    if offset >= |d| {
      return Fail(OutOfRange);
    }
    var codec := d[offset];
    offset := offset + 1;
    var count: nat;
    if codec == Codec8 {
      if offset >= |d| {
        return Fail(OutOfRange);
      }
      count := d[offset];
      offset := offset + 1;
    } else if codec == Codec8E {
      if offset + 2 > |d| {
        return Fail(OutOfRange);
      }
      count := BeAt(d, offset, 2);
      offset := offset + 2;
    } else {
      return Fail(UnsupportedCodec(codec));
    }
    r := ReadRecords(d, offset, count, codec);
  }

  /** The record loop of `process_avl_data`: `count` records parsed back to
      back from `data[offset:]`. */
  method ReadRecords(d: seq<byte>, offset: nat, count: nat, codec: byte) returns (r: Result<Frame>)
    ensures r == FrameOf(codec, DecodeRecords(RecordDecoder(codec), d, offset, count))
  {
    ghost var done: seq<Parsed> := [];
    var records: seq<Record> := [];
    var cursor: nat := offset;
    var i := 0;
    while i < count
      invariant i == |done| <= count
      invariant records == RecordsOf(done)
      invariant Chain(RecordDecoder(codec), d, offset, done, cursor)
    {
      var p := NextRecord(d, offset, count, codec, done, cursor);
      if p.Fail? {
        return Fail(p.error);
      }
      RecordsOfSnoc(done, p.value);
      records := records + [p.value.record];
      done := done + [p.value];
      cursor := cursor + p.value.size;
      i := i + 1;
    }
    ChainDecodes(RecordDecoder(codec), d, offset, done, cursor);
    return Ok(Frame(codec, records));
  }

  /** Decoding one more item extends the chain. */
  lemma {:induction false} ChainSnoc(dec: Decoder, d: seq<byte>, off: nat, ps: seq<Parsed>, end: nat, p: Parsed)
    requires Chain(dec, d, off, ps, end) && dec(Tail(d, end)) == Ok(p)
    ensures Chain(dec, d, off, ps + [p], end + p.size)
    decreases |ps|
  {
    if ps != [] {
      ChainSnoc(dec, d, off + ps[0].size, ps[1..], end, p);
      assert (ps + [p])[1..] == ps[1..] + [p];
    }
  }

  /** The outcome of the next item after a chain: the chain grows by it, or
      the whole decode fails with its error. */
  lemma {:induction false} ChainNext(dec: Decoder, d: seq<byte>, off: nat, ps: seq<Parsed>, end: nat, count: nat,
                                     p: Result<Parsed>)
    requires |ps| < count && Chain(dec, d, off, ps, end) && dec(Tail(d, end)) == p
    ensures p.Fail? ==> DecodeRecords(dec, d, off, count) == Fail(p.error)
    ensures p.Ok? ==> Chain(dec, d, off, ps + [p.value], end + p.value.size)
  {
    if p.Ok? {
      ChainSnoc(dec, d, off, ps, end, p.value);
    } else {
      ChainFails(dec, d, off, ps, end, count);
    }
  }

  /** A chain of `|ps|` items is exactly what `DecodeRecords` yields. */
  lemma {:induction false} ChainDecodes(dec: Decoder, d: seq<byte>, off: nat, ps: seq<Parsed>, end: nat)
    requires Chain(dec, d, off, ps, end)
    ensures DecodeRecords(dec, d, off, |ps|) == Ok(ps)
    decreases |ps|
  {
    if ps != [] {
      ChainDecodes(dec, d, off + ps[0].size, ps[1..], end);
      assert [ps[0]] + ps[1..] == ps;
    }
  }

  /** An item that fails to decode after a chain of fewer than `count`
      items makes the whole decode fail with its error. */
  lemma {:induction false} ChainFails(dec: Decoder, d: seq<byte>, off: nat, ps: seq<Parsed>, end: nat, count: nat)
    requires |ps| < count && Chain(dec, d, off, ps, end) && dec(Tail(d, end)).Fail?
    ensures DecodeRecords(dec, d, off, count) == Fail(dec(Tail(d, end)).error)
    decreases |ps|
  {
    if ps != [] {
      ChainFails(dec, d, off + ps[0].size, ps[1..], end, count - 1);
    }
  }

  lemma {:induction false} RecordsOfSnoc(ps: seq<Parsed>, p: Parsed)
    ensures RecordsOf(ps + [p]) == RecordsOf(ps) + [p.record]
    decreases |ps|
  {
    if ps != [] {
      assert (ps + [p])[1..] == ps[1..] + [p];
      RecordsOfSnoc(ps[1..], p);
    }
  }

  // ---------------------------------------------------------------------
  // One record

  /** Where `parse_record` finds the fields: the timestamp is the big-endian
      u64 at 0-7, the priority byte 8, the GPS element bytes 9-23 and the IO
      element everything from 24 on; the size is 24 plus the IO element's. */
  lemma {:induction false} RecordLayout(d: seq<byte>, codec: byte)
    ensures DecodeRecord(d, codec).Ok? <==>
              |d| >= RecordPrefix && BeUint(d[0..8]) < UtcLimit && DecodeIo(d[RecordPrefix..], codec).Ok?
    ensures DecodeRecord(d, codec).Ok? ==>
              var p := DecodeRecord(d, codec).value;
              var io := DecodeIo(d[RecordPrefix..], codec).value;
              && p.record.timestamp == BeUint(d[0..8])
              && p.record.priority == d[8]
              && p.record.gps == ParseGps(d[9..RecordPrefix]).value
              && p.record.io == io.0
              && p.size == RecordPrefix + io.1
  {
    if |d| >= 8 {
      BeAtSlice(d, 0, 8);
    }
    TailDrop(d, RecordPrefix);
  }

  /** How `parse_record` fails: a record shorter than its timestamp is an
      out-of-range read, a timestamp past the year 9999 is the error of
      `utcfromtimestamp`, and every later failure is an out-of-range read. */
  lemma {:induction false} RecordErrors(d: seq<byte>, codec: byte)
    ensures |d| < 8 ==> DecodeRecord(d, codec) == Fail(OutOfRange)
    ensures |d| >= 8 && BeUint(d[0..8]) >= UtcLimit ==> DecodeRecord(d, codec) == Fail(TimestampRange)
    ensures |d| >= 8 && BeUint(d[0..8]) < UtcLimit && DecodeRecord(d, codec).Fail? ==>
              DecodeRecord(d, codec).error == OutOfRange
  {
    if |d| >= 8 {
      BeAtSlice(d, 0, 8);
    }
  }

  /** The fields of a record as a device writes them; `io` is the IO
      element's wire structure. */
  datatype RecordBlock = RecordBlock(timestamp: nat, priority: byte, gps: Gps, io: IoBlock)

  /** A record the decoder accepts under `codec`: a representable instant,
      fields within their wire widths and an IO element of that codec. */
  predicate RecordFits(b: RecordBlock, codec: byte)
  {
    b.timestamp < UtcLimit && InRange(b.gps) && WellFormed(b.io) && b.io.CodecTag() == codec
  }

  /** The wire form of a record: timestamp, priority, GPS element, IO element. */
  function EncodeRecord(b: RecordBlock): (r: seq<byte>)
    requires InRange(b.gps) && WellFormed(b.io)
    ensures |r| == RecordPrefix + |EncodeIo(b.io)|
  {
    BeBytes(b.timestamp, 8) + [b.priority] + EncodeGps(b.gps) + EncodeIo(b.io)
  }

  /** The record the decoder is meant to produce from `b`. */
  function RecordOf(b: RecordBlock): Record
  {
    Record(b.timestamp, b.priority, b.gps, BlockMap(b.io))
  }

  lemma {:induction false} TailAfter(pre: seq<byte>, x: seq<byte>)
    ensures Tail(pre + x, |pre|) == x
  {
    TailDrop(pre + x, |pre|);
    assert (pre + x)[|pre|..] == x;
  }

  /** Where the fields of `ts + [p] + g + rest` sit. */
  lemma {:induction false} RecordParts(ts: seq<byte>, p: byte, g: seq<byte>, rest: seq<byte>)
    requires |ts| == 8 && |g| == GpsSize
    ensures var d := ts + [p] + g + rest;
            && |d| >= RecordPrefix && d[0..8] == ts && d[8] == p
            && d[9..RecordPrefix] == g && d[RecordPrefix..] == rest
  {
    Assoc(ts, [p] + g, rest);
    Assoc(ts, [p], g);
  }

  /** A record decodes back to itself, whatever follows it, and consumes
      exactly its own bytes. */
  lemma {:induction false} RecordRoundTrip(b: RecordBlock, codec: byte, tail: seq<byte>)
    requires RecordFits(b, codec)
    ensures DecodeRecord(EncodeRecord(b) + tail, codec) == Ok(Parsed(RecordOf(b), |EncodeRecord(b)|))
  {
    var ts := BeBytes(b.timestamp, 8);
    var head := ts + [b.priority] + EncodeGps(b.gps);
    Assoc(head, EncodeIo(b.io), tail);
    RecordParts(ts, b.priority, EncodeGps(b.gps), EncodeIo(b.io) + tail);
    assert Pow256(8) == 0x1_0000_0000_0000_0000;
    BeBytesRoundTrip(b.timestamp, 8);
    GpsRoundTrip(b.gps);
    IoRoundTrip(b.io, tail);
    RecordLayout(EncodeRecord(b) + tail, codec);
  }

  // ---------------------------------------------------------------------
  // Records back to back

  /** Bytes consumed by the items `ps`. */
  function SizeSum(ps: seq<Parsed>): nat
  {
    if ps == [] then 0 else ps[0].size + SizeSum(ps[1..])
  }

  /** A successful decode of `k` items is a chain of exactly `k` items that
      ends after all their bytes. */
  lemma {:induction false} DecodedChain(dec: Decoder, d: seq<byte>, off: nat, k: nat)
    requires DecodeRecords(dec, d, off, k).Ok?
    ensures var ps := DecodeRecords(dec, d, off, k).value;
            |ps| == k && Chain(dec, d, off, ps, off + SizeSum(ps))
    decreases k
  {
    if k > 0 {
      var p := dec(Tail(d, off)).value;
      DecodedChain(dec, d, off + p.size, k - 1);
      var ps := DecodeRecords(dec, d, off, k).value;
      assert ps[0] == p && ps[1..] == DecodeRecords(dec, d, off + p.size, k - 1).value;
    }
  }

  /** In a chain, item `j` is decoded from the position `off` plus the sizes
      of the items before it. */
  lemma {:induction false} ChainAt(dec: Decoder, d: seq<byte>, off: nat, ps: seq<Parsed>, end: nat, j: nat)
    requires Chain(dec, d, off, ps, end) && j < |ps|
    ensures dec(Tail(d, off + SizeSum(ps[..j]))) == Ok(ps[j])
    decreases j
  {
    if j > 0 {
      ChainAt(dec, d, off + ps[0].size, ps[1..], end, j - 1);
      assert ps[..j][1..] == ps[1..][..j - 1];
    }
  }

  /** An item that never fails with `e` cannot make the whole decode fail with `e`. */
  lemma {:induction false} DecodeRecordsAvoids(dec: Decoder, d: seq<byte>, off: nat, k: nat, e: DecodeError)
    requires forall t :: dec(t) != Fail(e)
    ensures DecodeRecords(dec, d, off, k) != Fail(e)
    decreases k
  {
    if k > 0 && dec(Tail(d, off)).Ok? {
      DecodeRecordsAvoids(dec, d, off + dec(Tail(d, off)).value.size, k - 1, e);
    }
  }

  /** `dec` reads every `es[i]` back as `ps[i]`, whatever follows it, and
      consumes exactly `es[i]`. */
  ghost predicate ReadsBack(dec: Decoder, es: seq<seq<byte>>, ps: seq<Parsed>)
  {
    && |es| == |ps|
    && (forall i, t :: 0 <= i < |es| ==> dec(es[i] + t) == Ok(ps[i]))
    && (forall i :: 0 <= i < |es| ==> ps[i].size == |es[i]|)
  }

  function Concat(es: seq<seq<byte>>): seq<byte>
  {
    if es == [] then [] else es[0] + Concat(es[1..])
  }

  /** Items written one after the other after any prefix decode back, in
      order, from the position where the prefix ends. */
  lemma {:induction false} ItemsRoundTrip(dec: Decoder, es: seq<seq<byte>>, ps: seq<Parsed>, pre: seq<byte>, tail: seq<byte>)
    requires ReadsBack(dec, es, ps)
    ensures DecodeRecords(dec, pre + Concat(es) + tail, |pre|, |es|) == Ok(ps)
    decreases |es|
  {
    if es != [] {
      var e, rest := es[0], Concat(es[1..]);
      Assoc(pre, e + rest, tail);
      Assoc(e, rest, tail);
      Assoc(pre, e, rest);
      TailAfter(pre, e + (rest + tail));
      assert dec(e + (rest + tail)) == Ok(ps[0]);
      assert ReadsBack(dec, es[1..], ps[1..]) by {
        forall i, t | 0 <= i < |es| - 1 ensures dec(es[1..][i] + t) == Ok(ps[1..][i]) {
          assert es[1..][i] == es[i + 1];
        }
      }
      ItemsRoundTrip(dec, es[1..], ps[1..], pre + e, tail);
      assert [ps[0]] + ps[1..] == ps;
    }
  }

  /** Records a frame may carry under `codec`. */
  predicate AllFit(bs: seq<RecordBlock>, codec: byte)
  {
    forall i :: 0 <= i < |bs| ==> RecordFits(bs[i], codec)
  }

  /** Each record's wire form. */
  function Encodings(bs: seq<RecordBlock>, codec: byte): (r: seq<seq<byte>>)
    requires AllFit(bs, codec)
    ensures |r| == |bs| && forall i :: 0 <= i < |bs| ==> r[i] == EncodeRecord(bs[i])
  {
    if bs == [] then [] else [EncodeRecord(bs[0])] + Encodings(bs[1..], codec)
  }

  function EncodeRecords(bs: seq<RecordBlock>, codec: byte): seq<byte>
    requires AllFit(bs, codec)
  {
    Concat(Encodings(bs, codec))
  }

  /** The records with the sizes of their wire forms. */
  function ParsedOf(bs: seq<RecordBlock>, codec: byte): (r: seq<Parsed>)
    requires AllFit(bs, codec)
    ensures |r| == |bs|
    ensures forall i :: 0 <= i < |bs| ==> r[i] == Parsed(RecordOf(bs[i]), |EncodeRecord(bs[i])|)
  {
    if bs == [] then [] else [Parsed(RecordOf(bs[0]), |EncodeRecord(bs[0])|)] + ParsedOf(bs[1..], codec)
  }

  function RecordsOfBlocks(bs: seq<RecordBlock>): (r: seq<Record>)
    ensures |r| == |bs|
  {
    if bs == [] then [] else [RecordOf(bs[0])] + RecordsOfBlocks(bs[1..])
  }

  lemma {:induction false} RecordsOfParsed(bs: seq<RecordBlock>, codec: byte)
    requires AllFit(bs, codec)
    ensures RecordsOf(ParsedOf(bs, codec)) == RecordsOfBlocks(bs)
    decreases |bs|
  {
    if bs != [] {
      RecordsOfParsed(bs[1..], codec);
    }
  }

  lemma {:induction false} RecordsReadBack(bs: seq<RecordBlock>, codec: byte)
    requires AllFit(bs, codec)
    ensures ReadsBack(RecordDecoder(codec), Encodings(bs, codec), ParsedOf(bs, codec))
  {
    forall i, t | 0 <= i < |bs|
      ensures RecordDecoder(codec)(Encodings(bs, codec)[i] + t) == Ok(ParsedOf(bs, codec)[i])
    {
      RecordRoundTrip(bs[i], codec, t);
    }
  }

  /** Encoded records after any prefix decode back, in order, from the
      position where the prefix ends. */
  lemma {:induction false} RecordsRoundTrip(bs: seq<RecordBlock>, codec: byte, pre: seq<byte>, tail: seq<byte>)
    requires AllFit(bs, codec)
    ensures var r := DecodeRecords(RecordDecoder(codec), pre + EncodeRecords(bs, codec) + tail, |pre|, |bs|);
            r.Ok? && RecordsOf(r.value) == RecordsOfBlocks(bs)
  {
    RecordsReadBack(bs, codec);
    ItemsRoundTrip(RecordDecoder(codec), Encodings(bs, codec), ParsedOf(bs, codec), pre, tail);
    RecordsOfParsed(bs, codec);
  }

  // ---------------------------------------------------------------------
  // Frames

  /** The record count as the header writes it. */
  function EncodeCount(codec: byte, n: nat): (r: seq<byte>)
    requires n < (if codec == Codec8 then 0x100 else 0x1_0000)
    ensures |r| == HeaderSize(codec) - 1
  {
    if codec == Codec8 then [n] else BeBytes(n, 2)
  }

  /** The records of a frame as a device writes them, after the codec tag
      and the record count. */
  function EncodeFrame(codec: byte, bs: seq<RecordBlock>): seq<byte>
    requires SupportedCodec(codec) && AllFit(bs, codec)
    requires |bs| < (if codec == Codec8 then 0x100 else 0x1_0000)
  {
    [codec] + EncodeCount(codec, |bs|) + EncodeRecords(bs, codec)
  }

  /** Where `process_avl_data` finds the header: the codec tag at 0, then
      the record count as byte 1 (Codec 8) or as the big-endian u16 at bytes
      1-2 (Codec 8E), and the records from byte 2 or 3. */
  lemma {:induction false} FrameHeader(d: seq<byte>)
    requires |d| >= 1 && SupportedCodec(d[0]) && |d| >= HeaderSize(d[0])
    ensures d[0] == Codec8 ==> HeaderSize(d[0]) == 2 && DeclaredCount(d) == d[1]
    ensures d[0] == Codec8E ==> HeaderSize(d[0]) == 3 && DeclaredCount(d) == BeUint(d[1..3])
    ensures DecodeFrame(d) == FrameOf(d[0], DecodeRecords(RecordDecoder(d[0]), d, HeaderSize(d[0]), DeclaredCount(d)))
  {
    if d[0] == Codec8E {
      BeAtSlice(d, 1, 2);
    }
  }

  /** A decode of `k` items yields exactly `k` of them, item `j` decoded from
      `off` plus the sizes of the items before it. */
  lemma {:induction false} DecodedAt(dec: Decoder, d: seq<byte>, off: nat, k: nat)
    requires DecodeRecords(dec, d, off, k).Ok?
    ensures var ps := DecodeRecords(dec, d, off, k).value;
            && |ps| == k
            && forall j :: 0 <= j < |ps| ==> dec(Tail(d, off + SizeSum(ps[..j]))) == Ok(ps[j])
  {
    var ps := DecodeRecords(dec, d, off, k).value;
    DecodedChain(dec, d, off, k);
    forall j | 0 <= j < |ps| ensures dec(Tail(d, off + SizeSum(ps[..j]))) == Ok(ps[j]) {
      ChainAt(dec, d, off, ps, off + SizeSum(ps), j);
    }
  }

  /** `process_avl_data` returns `None` exactly when the codec tag is neither
      0x08 nor 0x8E; the records it may have parsed are then none. */
  lemma {:induction false} FrameUnsupported(d: seq<byte>)
    ensures (DecodeFrame(d).Fail? && DecodeFrame(d).error.UnsupportedCodec?) <==>
            (|d| >= 1 && !SupportedCodec(d[0]))
    ensures |d| >= 1 && !SupportedCodec(d[0]) ==> DecodeFrame(d) == Fail(UnsupportedCodec(d[0]))
  {
    if |d| >= 1 && SupportedCodec(d[0]) && |d| >= HeaderSize(d[0]) {
      var dec := RecordDecoder(d[0]);
      forall c | true ensures DecodeRecords(dec, d, HeaderSize(d[0]), DeclaredCount(d)) != Fail(UnsupportedCodec(c)) {
        forall t ensures dec(t) != Fail(UnsupportedCodec(c)) {
          RecordErrors(t, d[0]);
        }
        DecodeRecordsAvoids(dec, d, HeaderSize(d[0]), DeclaredCount(d), UnsupportedCodec(c));
      }
    }
  }

  /** An encoded frame, followed by any trailing bytes (the CRC the server
      does not check), decodes to its codec and its records in order. */
  lemma {:induction false} FrameRoundTrip(codec: byte, bs: seq<RecordBlock>, tail: seq<byte>)
    requires SupportedCodec(codec) && AllFit(bs, codec)
    requires |bs| < (if codec == Codec8 then 0x100 else 0x1_0000)
    ensures DecodeFrame(EncodeFrame(codec, bs) + tail) == Ok(Frame(codec, RecordsOfBlocks(bs)))
  {
    var pre := [codec] + EncodeCount(codec, |bs|);
    var d := EncodeFrame(codec, bs) + tail;
    assert d[0] == codec;
    if codec == Codec8E {
      assert Pow256(2) == 0x1_0000;
      BeBytesRoundTrip(|bs|, 2);
      assert d[1..3] == BeBytes(|bs|, 2);
      BeAtSlice(d, 1, 2);
    }
    assert DeclaredCount(d) == |bs|;
    RecordsRoundTrip(bs, codec, pre, tail);
  }

  // ---------------------------------------------------------------------
  // The unchecked Codec 8E skip

  /** A Codec 8E record whose IO element holds one entry of unsupported
      length decodes, on any data, with a size of 28 plus that declared
      length: more than the data holds whenever the declared bytes are
      missing. */
  lemma {:induction false} RecordSkipPastEnd(d: seq<byte>)
    requires |d| >= 28 && BeUint(d[0..8]) < UtcLimit && d[25] == 1 && !SupportedWidth(d[27])
    ensures DecodeRecord(d, Codec8E).Ok? && DecodeRecord(d, Codec8E).value.size == 28 + d[27] as int
  {
    var e := d[24..];
    SkipAny(e, 2, 1, map[]);
    assert DecodeIo(e, Codec8E) == Ok((map[], 4 + d[27] as int));
    RecordLayout(d, Codec8E);
  }

  /** So a Codec 8E frame of one such record is accepted even when the
      record's declared bytes, and the bytes after it, are not there. */
  lemma {:induction false} FrameSkipPastEnd(d: seq<byte>)
    requires |d| >= 31 && d[0] == Codec8E && d[1] == 0 && d[2] == 1
    requires BeUint(d[3..11]) < UtcLimit && d[28] == 1 && !SupportedWidth(d[30])
    ensures DecodeFrame(d).Ok? && |DecodeFrame(d).value.records| == 1
  {
    FrameHeader(d);
    assert d[1..3] == [0, 1] && [0, 1][..1] == [0];
    assert DeclaredCount(d) == 1;
    var t := d[3..];
    assert t[0..8] == d[3..11];
    RecordSkipPastEnd(t);
    TailDrop(d, 3);
    var dec := RecordDecoder(Codec8E);
    assert dec(Tail(d, 3)) == DecodeRecord(t, Codec8E);
    assert DecodeRecords(dec, d, 3 + DecodeRecord(t, Codec8E).value.size, 0) == Ok([]);
  }
}
