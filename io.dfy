/** `parse_io_element`: the IO block that follows the GPS element of a record.
    Codec 8 groups entries into four width buckets (1, 2, 4, 8-byte values);
    Codec 8E, as this server reads it, tags every entry with a 1-byte id and a
    1-byte value length. */
module IoElement {
  import opened Bytes
  import opened Avl

  /** The value lengths a Codec 8E entry may declare and have decoded. */
  predicate SupportedWidth(len: nat)
  {
    len == 1 || len == 2 || len == 4 || len == 8
  }

  // ---------------------------------------------------------------------
  // The decoder, as the cursor arithmetic of the code performs it

  /** `k` more entries of one Codec 8 bucket, the next at `off`: each a 1-byte
      id and a `w`-byte big-endian value written into `m`. */
  function Bucket(d: seq<byte>, off: nat, k: nat, w: nat, m: IoMap): (r: Result<(IoMap, nat)>)
    requires off <= |d|
    ensures r.Ok? ==> off <= r.value.1 <= |d|
    ensures r.Fail? ==> r.error == OutOfRange
    decreases k
  {
    if k == 0 then Ok((m, off))
    else if off + 1 + w > |d| then Fail(OutOfRange)
    else Bucket(d, off + 1 + w, k - 1, w, m[d[off] := BeAt(d, off + 1, w)])
  }

  /** A Codec 8 bucket with its leading count byte at `off`. */
  function CountedBucket(d: seq<byte>, off: nat, w: nat, m: IoMap): (r: Result<(IoMap, nat)>)
    requires off <= |d|
    ensures r.Ok? ==> off < r.value.1 <= |d|
    ensures r.Fail? ==> r.error == OutOfRange
  {
    if off >= |d| then Fail(OutOfRange) else Bucket(d, off + 1, d[off], w, m)
  }

  /** `k` more Codec 8E entries, the next at `off`. An entry whose declared
      length is not supported moves the cursor by that length, unchecked, and
      writes nothing. */
  function Props(d: seq<byte>, off: nat, k: nat, m: IoMap): (r: Result<(IoMap, nat)>)
    ensures r.Fail? ==> r.error == OutOfRange
    decreases k
  {
    if k == 0 then Ok((m, off))
    else if off + 2 > |d| then Fail(OutOfRange)
    else
      var id, len := d[off], d[off + 1];
      if SupportedWidth(len) then
        if off + 2 + len > |d| then Fail(OutOfRange)
        else Props(d, off + 2 + len, k - 1, m[id := BeAt(d, off + 2, len)])
      else Props(d, off + 2 + len, k - 1, m)
  }

  /** Value widths of the four Codec 8 buckets, in wire order. */
  const Widths: seq<nat> := [1, 2, 4, 8]

  /** The Codec 8 buckets, one per width of `ws`, read one after the other
      from `off`, each into the map the previous one left. */
  function Buckets(d: seq<byte>, off: nat, ws: seq<nat>, m: IoMap): (r: Result<(IoMap, nat)>)
    requires off <= |d|
    ensures r.Ok? ==> off <= r.value.1 <= |d|
    ensures r.Fail? ==> r.error == OutOfRange
    decreases ws
  {
    if ws == [] then Ok((m, off))
    else
      var r :- CountedBucket(d, off, ws[0], m);
      Buckets(d, r.1, ws[1..], r.0)
  }

  /** The IO block decoded from the start of `d` under `codec`: the map and
      the number of bytes consumed. An unknown codec yields an empty map
      and size 0. */
  function DecodeIo(d: seq<byte>, codec: byte): (r: Result<(IoMap, nat)>)
    ensures r.Fail? ==> r.error == OutOfRange
    ensures !SupportedCodec(codec) ==> r == Ok((map[], 0))
  {
    if codec == Codec8 then
      if |d| < 2 then Fail(OutOfRange)
      else Buckets(d, 2, Widths, map[])
    else if codec == Codec8E then
      if |d| < 2 then Fail(OutOfRange)
      else Props(d, 2, d[1], map[])
    else Ok((map[], 0))
  }

  // ---------------------------------------------------------------------
  // The imperative decoder of main.py

  /** One bucket loop of the Codec 8 branch: reads the count byte at `off`
      and then that many (id, value) entries. */
  method ReadBucket(d: seq<byte>, off: nat, w: nat, io: IoMap) returns (r: Result<(IoMap, nat)>)
    requires off <= |d|
    ensures r == CountedBucket(d, off, w, io)
  {
    if off >= |d| {
      return Fail(OutOfRange);
    }
    var n := d[off];
    var offset: nat := off + 1;
    var m: IoMap := io;
    var i := 0;
    while i < n
      invariant 0 <= i <= n && offset <= |d|
      invariant Bucket(d, off + 1, n, w, io) == Bucket(d, offset, n - i, w, m)
    {
      if offset >= |d| {
        return Fail(OutOfRange);
      }
      var id := d[offset];
      offset := offset + 1;
      if offset + w > |d| {
        return Fail(OutOfRange);
      }
      var value := BeAt(d, offset, w);
      offset := offset + w;
      m := m[id := value];
      i := i + 1;
    }
    return Ok((m, offset));
  }

  /** `parse_io_element(data, codec_id)`. */
  method ParseIoElement(d: seq<byte>, codec: byte) returns (r: Result<(IoMap, nat)>)
    ensures r == DecodeIo(d, codec)
  {
    if codec == Codec8 {
      if |d| < 2 {
        return Fail(OutOfRange);
      }
      // event id at 0 and element count at 1 are read and not used
      assert Widths[1..] == [2, 4, 8] && [2, 4, 8][1..] == [4, 8] && [4, 8][1..] == [8];
      var b1 := ReadBucket(d, 2, 1, map[]);
      if b1.Fail? {
        return Fail(b1.error);
      }
      var b2 := ReadBucket(d, b1.value.1, 2, b1.value.0);
      if b2.Fail? {
        return Fail(b2.error);
      }
      var b4 := ReadBucket(d, b2.value.1, 4, b2.value.0);
      if b4.Fail? {
        return Fail(b4.error);
      }
      r := ReadBucket(d, b4.value.1, 8, b4.value.0);
      assert Buckets(d, b4.value.1, [8], b4.value.0) == r;
      assert Buckets(d, b2.value.1, [4, 8], b2.value.0) == r;
      assert Buckets(d, b1.value.1, [2, 4, 8], b1.value.0) == r;
    } else if codec == Codec8E {
      if |d| < 2 {
        return Fail(OutOfRange);
      }
      var count := d[1];
      var offset: nat := 2;
      var m: IoMap := map[];
      var i := 0;
      while i < count
        invariant 0 <= i <= count
        invariant Props(d, 2, count, map[]) == Props(d, offset, count - i, m)
      {
        if offset >= |d| {
          return Fail(OutOfRange);
        }
        var id := d[offset];
        offset := offset + 1;
        if offset >= |d| {
          return Fail(OutOfRange);
        }
        var len := d[offset];
        offset := offset + 1;
        if SupportedWidth(len) {
          if offset + len > |d| {
            return Fail(OutOfRange);
          }
          m := m[id := BeAt(d, offset, len)];
        }
        offset := offset + len;
        i := i + 1;
      }
      return Ok((m, offset));
    } else {
      return Ok((map[], 0));
    }
  }

  // ---------------------------------------------------------------------
  // The wire layout, written forwards

  datatype IoPair = IoPair(id: byte, value: nat)

  /** One Codec 8E entry: its id and its raw value bytes (whose length is the
      declared length). */
  datatype Property = Property(id: byte, raw: Raw)

  /** A value whose length fits the 1-byte length field. */
  type Raw = s: seq<byte> | |s| < 256

  datatype IoBlock =
    | Io8(eventId: byte, elementCount: byte, b1: seq<IoPair>, b2: seq<IoPair>, b4: seq<IoPair>, b8: seq<IoPair>)
    | Io8E(eventId: byte, props: seq<Property>)
  {
    function CodecTag(): byte
    {
      if Io8? then Codec8 else Codec8E
    }

    /** The four Codec 8 buckets, in the order of `Widths`. */
    function BucketList(): (r: seq<seq<IoPair>>)
      requires Io8?
      ensures |r| == |Widths|
    {
      [b1, b2, b4, b8]
    }
  }

  /** Every value of `es` fits in `w` bytes. */
  predicate ValuesFit(es: seq<IoPair>, w: nat)
  {
    es == [] || (es[0].value < Pow256(w) && ValuesFit(es[1..], w))
  }

  predicate PairsFit(es: seq<IoPair>, w: nat)
  {
    |es| < 256 && ValuesFit(es, w)
  }

  /** Every bucket of `bs` has a count that fits its count byte and values
      that fit the width `ws` gives it. */
  predicate BucketsFit(bs: seq<seq<IoPair>>, ws: seq<nat>)
    decreases bs
  {
    |bs| == |ws| && (bs == [] || (PairsFit(bs[0], ws[0]) && BucketsFit(bs[1..], ws[1..])))
  }

  predicate WellFormed(b: IoBlock)
  {
    match b
    case Io8(_, _, b1, b2, b4, b8) => PairsFit(b1, 1) && PairsFit(b2, 2) && PairsFit(b4, 4) && PairsFit(b8, 8)
    case Io8E(_, ps) => |ps| < 256
  }

  function EncodePairs(es: seq<IoPair>, w: nat): (r: seq<byte>)
  {
    if es == [] then [] else [es[0].id] + BeBytes(es[0].value, w) + EncodePairs(es[1..], w)
  }

  /** A Codec 8 bucket on the wire: its count byte, then its entries. */
  function EncodeBucket(es: seq<IoPair>, w: nat): (r: seq<byte>)
    requires |es| < 256
  {
    [|es|] + EncodePairs(es, w)
  }

  function EncodeBuckets(bs: seq<seq<IoPair>>, ws: seq<nat>): (r: seq<byte>)
    requires BucketsFit(bs, ws)
    decreases bs
  {
    if bs == [] then [] else EncodeBucket(bs[0], ws[0]) + EncodeBuckets(bs[1..], ws[1..])
  }

  function EncodeProps(ps: seq<Property>): (r: seq<byte>)
    ensures |r| == PropsLength(ps)
  {
    if ps == [] then [] else [ps[0].id, |ps[0].raw|] + ps[0].raw + EncodeProps(ps[1..])
  }

  /** Declared bytes of the Codec 8E entries: the sum of 2 + len over entries. */
  function PropsLength(ps: seq<Property>): nat
  {
    if ps == [] then 0 else 2 + |ps[0].raw| + PropsLength(ps[1..])
  }

  function EncodeIo(b: IoBlock): seq<byte>
    requires WellFormed(b)
  {
    match b
    case Io8(ev, n, _, _, _, _) =>
      WellFormedFits(b);
      [ev, n] + EncodeBuckets(b.BucketList(), Widths)
    case Io8E(ev, ps) => [ev, |ps|] + EncodeProps(ps)
  }

  /** Writing the entries into `m` in order, a later entry overwriting an
      earlier one with the same id. */
  function Assign(m: IoMap, es: seq<IoPair>): IoMap
    decreases es
  {
    if es == [] then m else Assign(m[es[0].id := es[0].value], es[1..])
  }

  /** The buckets written into `m` one after the other. */
  function AssignAll(m: IoMap, bs: seq<seq<IoPair>>): IoMap
    decreases bs
  {
    if bs == [] then m else AssignAll(Assign(m, bs[0]), bs[1..])
  }

  /** The entries a Codec 8E block actually stores: those of supported width. */
  function SupportedPairs(ps: seq<Property>): seq<IoPair>
  {
    if ps == [] then []
    else if SupportedWidth(|ps[0].raw|) then [IoPair(ps[0].id, BeUint(ps[0].raw))] + SupportedPairs(ps[1..])
    else SupportedPairs(ps[1..])
  }

  /** The map a block stands for: its entries written in wire order. */
  function BlockMap(b: IoBlock): IoMap
  {
    match b
    case Io8(_, _, _, _, _, _) => AssignAll(map[], b.BucketList())
    case Io8E(_, ps) => Assign(map[], SupportedPairs(ps))
  }

  function Ids(es: seq<IoPair>): set<byte>
  {
    set i | 0 <= i < |es| :: es[i].id
  }

  // ---------------------------------------------------------------------
  // Properties

  lemma {:induction false} AssignConcat(m: IoMap, xs: seq<IoPair>, ys: seq<IoPair>)
    ensures Assign(m, xs + ys) == Assign(Assign(m, xs), ys)
    decreases xs
  {
    if xs == [] {
      assert xs + ys == ys;
    } else {
      assert (xs + ys)[0] == xs[0] && (xs + ys)[1..] == xs[1..] + ys;
      AssignConcat(m[xs[0].id := xs[0].value], xs[1..], ys);
    }
  }

  /** Bytes taken by `k` entries of `w`-byte values: `k * (1 + w)`, written
      as a sum so that the proofs about it stay linear (`SpanWidths`). */
  function Span(k: nat, w: nat): nat
  {
    if k == 0 then 0 else 1 + w + Span(k - 1, w)
  }

  lemma {:induction false} SpanWidths(k: nat)
    ensures Span(k, 1) == 2 * k && Span(k, 2) == 3 * k && Span(k, 4) == 5 * k && Span(k, 8) == 9 * k
  {
    if k > 0 {
      SpanWidths(k - 1);
    }
  }

  lemma {:induction false} EncodePairsLength(es: seq<IoPair>, w: nat)
    ensures |EncodePairs(es, w)| == Span(|es|, w)
  {
    if es != [] {
      EncodePairsLength(es[1..], w);
    }
  }

  /** The bucket decoder succeeds exactly when its `k` entries fit, and then
      moves the cursor by `k * (1 + w)` bytes. */
  lemma {:induction false} BucketSize(d: seq<byte>, off: nat, k: nat, w: nat, m: IoMap)
    requires off <= |d|
    ensures Bucket(d, off, k, w, m).Ok? <==> off + Span(k, w) <= |d|
    ensures Bucket(d, off, k, w, m).Ok? ==> Bucket(d, off, k, w, m).value.1 == off + Span(k, w)
    decreases k
  {
    if k > 0 {
      if off + 1 + w <= |d| {
        BucketSize(d, off + 1 + w, k - 1, w, m[d[off] := BeAt(d, off + 1, w)]);
      }
    }
  }

  lemma {:induction false} AssignCons(m: IoMap, e: IoPair, es: seq<IoPair>)
    ensures Assign(m, [e] + es) == Assign(m[e.id := e.value], es)
  {
    assert ([e] + es)[0] == e && ([e] + es)[1..] == es;
  }

  /** The map holds exactly the ids it started with and every id written. */
  lemma {:induction false} AssignKeys(m: IoMap, es: seq<IoPair>)
    ensures Assign(m, es).Keys == m.Keys + Ids(es)
    decreases es
  {
    if es != [] {
      AssignKeys(m[es[0].id := es[0].value], es[1..]);
      assert Ids(es) == {es[0].id} + Ids(es[1..]) by {
        forall x | x in Ids(es) ensures x in {es[0].id} + Ids(es[1..]) {
          var i :| 0 <= i < |es| && es[i].id == x;
          if i > 0 { assert es[1..][i - 1].id == x; }
        }
        forall x | x in Ids(es[1..]) ensures x in Ids(es) {
          var i :| 0 <= i < |es[1..]| && es[1..][i].id == x;
          assert es[i + 1].id == x;
        }
      }
    }
  }

  /** An id that no entry writes keeps its old value. */
  lemma {:induction false} AssignUntouched(m: IoMap, es: seq<IoPair>, k: byte)
    requires k in m
    requires forall i | 0 <= i < |es| :: es[i].id != k
    ensures k in Assign(m, es) && Assign(m, es)[k] == m[k]
    decreases es
  {
    if es != [] {
      AssignUntouched(m[es[0].id := es[0].value], es[1..], k);
    }
  }

  /** Last write wins: the entry at `i` decides its id's value when no later
      entry has the same id. */
  lemma {:induction false} AssignLastWins(m: IoMap, es: seq<IoPair>, i: nat)
    requires i < |es|
    requires forall j | i < j < |es| :: es[j].id != es[i].id
    ensures es[i].id in Assign(m, es) && Assign(m, es)[es[i].id] == es[i].value
    decreases es
  {
    if i == 0 {
      AssignUntouched(m[es[0].id := es[0].value], es[1..], es[0].id);
    } else {
      AssignLastWins(m[es[0].id := es[0].value], es[1..], i - 1);
    }
  }

  /** The entries `es` stand in `d` from `off`, each as a 1-byte id followed
      by its `w`-byte big-endian value. */
  predicate PairsAt(d: seq<byte>, off: nat, es: seq<IoPair>, w: nat)
    decreases es
  {
    es == [] ||
    (&& off + 1 + w <= |d|
     && d[off] == es[0].id
     && BeAt(d, off + 1, w) == es[0].value
     && PairsAt(d, off + 1 + w, es[1..], w))
  }

  /** A Codec 8 bucket holding `es` stands in `d` at `off`: its count byte,
      then its entries. */
  predicate BucketAt(d: seq<byte>, off: nat, es: seq<IoPair>, w: nat)
  {
    off < |d| && d[off] == |es| && PairsAt(d, off + 1, es, w)
  }

  lemma {:induction false} PairsDecode(d: seq<byte>, off: nat, es: seq<IoPair>, w: nat, m: IoMap)
    requires off <= |d| && PairsAt(d, off, es, w)
    ensures Bucket(d, off, |es|, w, m) == Ok((Assign(m, es), off + Span(|es|, w)))
    decreases es
  {
    if es != [] {
      PairsDecode(d, off + 1 + w, es[1..], w, m[es[0].id := es[0].value]);
    }
  }

  lemma {:induction false} CountedDecode(d: seq<byte>, off: nat, es: seq<IoPair>, w: nat, m: IoMap)
    requires BucketAt(d, off, es, w)
    ensures CountedBucket(d, off, w, m) == Ok((Assign(m, es), off + 1 + Span(|es|, w)))
  {
    PairsDecode(d, off + 1, es, w, m);
  }

  /** Bytes taken by the buckets `bs`: a count byte and `Span` per bucket. */
  function BucketsSpan(bs: seq<seq<IoPair>>, ws: seq<nat>): nat
    requires |bs| == |ws|
    decreases bs
  {
    if bs == [] then 0 else 1 + Span(|bs[0]|, ws[0]) + BucketsSpan(bs[1..], ws[1..])
  }

  /** The buckets `bs` stand in `d` one after the other from `off`. */
  predicate BucketsAt(d: seq<byte>, off: nat, bs: seq<seq<IoPair>>, ws: seq<nat>)
    decreases bs
  {
    |bs| == |ws| &&
    (bs == [] ||
     (BucketAt(d, off, bs[0], ws[0]) && BucketsAt(d, off + 1 + Span(|bs[0]|, ws[0]), bs[1..], ws[1..])))
  }

  lemma {:induction false} BucketsDecode(d: seq<byte>, off: nat, bs: seq<seq<IoPair>>, ws: seq<nat>, m: IoMap)
    requires off <= |d| && BucketsAt(d, off, bs, ws)
    ensures Buckets(d, off, ws, m) == Ok((AssignAll(m, bs), off + BucketsSpan(bs, ws)))
    decreases bs
  {
    if bs != [] {
      CountedDecode(d, off, bs[0], ws[0], m);
      BucketsDecode(d, off + 1 + Span(|bs[0]|, ws[0]), bs[1..], ws[1..], Assign(m, bs[0]));
    }
  }

  lemma {:induction false} PairsAtAppend(d: seq<byte>, t: seq<byte>, off: nat, es: seq<IoPair>, w: nat)
    requires PairsAt(d, off, es, w)
    ensures PairsAt(d + t, off, es, w)
    decreases es
  {
    if es != [] {
      BeAtAppend(d, t, off + 1, w);
      PairsAtAppend(d, t, off + 1 + w, es[1..], w);
    }
  }

  /** A bucket found in `d` is still found once more bytes follow. */
  lemma {:induction false} BucketAtAppend(d: seq<byte>, t: seq<byte>, off: nat, es: seq<IoPair>, w: nat)
    requires BucketAt(d, off, es, w)
    ensures BucketAt(d + t, off, es, w)
  {
    PairsAtAppend(d, t, off + 1, es, w);
  }

  /** The bytes `EncodePairs` writes after `pre` hold the entries it was given. */
  lemma {:induction false} EncodedPairsAt(pre: seq<byte>, es: seq<IoPair>, w: nat)
    requires ValuesFit(es, w)
    ensures PairsAt(pre + EncodePairs(es, w), |pre|, es, w)
    decreases es
  {
    if es != [] {
      var v := BeBytes(es[0].value, w);
      var head := pre + [es[0].id] + v;
      var rest := EncodePairs(es[1..], w);
      assert pre + EncodePairs(es, w) == head + rest;
      EncodedPairsAt(head, es[1..], w);
      BeAtPrefix(pre + [es[0].id], v);
      BeAtAppend(head, rest, |pre| + 1, w);
      BeBytesRoundTrip(es[0].value, w);
      assert (head + rest)[|pre|] == es[0].id;
    }
  }

  lemma {:induction false} EncodedBucketAt(pre: seq<byte>, es: seq<IoPair>, w: nat)
    requires PairsFit(es, w)
    ensures BucketAt(pre + EncodeBucket(es, w), |pre|, es, w)
  {
    assert pre + EncodeBucket(es, w) == (pre + [|es|]) + EncodePairs(es, w);
    EncodedPairsAt(pre + [|es|], es, w);
  }

  lemma {:induction false} BucketsAtAppend(d: seq<byte>, t: seq<byte>, off: nat, bs: seq<seq<IoPair>>, ws: seq<nat>)
    requires BucketsAt(d, off, bs, ws)
    ensures BucketsAt(d + t, off, bs, ws)
    decreases bs
  {
    if bs != [] {
      BucketAtAppend(d, t, off, bs[0], ws[0]);
      BucketsAtAppend(d, t, off + 1 + Span(|bs[0]|, ws[0]), bs[1..], ws[1..]);
    }
  }

  lemma {:induction false} EncodedBucketsAt(pre: seq<byte>, bs: seq<seq<IoPair>>, ws: seq<nat>)
    requires BucketsFit(bs, ws)
    ensures BucketsAt(pre + EncodeBuckets(bs, ws), |pre|, bs, ws)
    ensures |EncodeBuckets(bs, ws)| == BucketsSpan(bs, ws)
    decreases bs
  {
    if bs != [] {
      var e := EncodeBucket(bs[0], ws[0]);
      var rest := EncodeBuckets(bs[1..], ws[1..]);
      assert pre + EncodeBuckets(bs, ws) == (pre + e) + rest;
      EncodePairsLength(bs[0], ws[0]);
      EncodedBucketAt(pre, bs[0], ws[0]);
      BucketAtAppend(pre + e, rest, |pre|, bs[0], ws[0]);
      EncodedBucketsAt(pre + e, bs[1..], ws[1..]);
    }
  }

  /** The Codec 8E entries `ps` stand in `d` from `off`, each as its id, its
      length and its raw bytes. */
  predicate PropsAt(d: seq<byte>, off: nat, ps: seq<Property>)
    decreases ps
  {
    ps == [] ||
    (&& off + 2 + |ps[0].raw| <= |d|
     && d[off] == ps[0].id && d[off + 1] == |ps[0].raw|
     && BeAt(d, off + 2, |ps[0].raw|) == BeUint(ps[0].raw)
     && PropsAt(d, off + 2 + |ps[0].raw|, ps[1..]))
  }

  lemma {:induction false} PropsDecode(d: seq<byte>, off: nat, ps: seq<Property>, m: IoMap)
    requires PropsAt(d, off, ps)
    ensures Props(d, off, |ps|, m) == Ok((Assign(m, SupportedPairs(ps)), off + PropsLength(ps)))
    decreases ps
  {
    if ps != [] {
      var p := ps[0];
      var m' := if SupportedWidth(|p.raw|) then m[p.id := BeUint(p.raw)] else m;
      PropsDecode(d, off + 2 + |p.raw|, ps[1..], m');
      if SupportedWidth(|p.raw|) {
        AssignCons(m, IoPair(p.id, BeUint(p.raw)), SupportedPairs(ps[1..]));
      }
    }
  }

  lemma {:induction false} PropsAtAppend(d: seq<byte>, t: seq<byte>, off: nat, ps: seq<Property>)
    requires PropsAt(d, off, ps)
    ensures PropsAt(d + t, off, ps)
    decreases ps
  {
    if ps != [] {
      BeAtAppend(d, t, off + 2, |ps[0].raw|);
      PropsAtAppend(d, t, off + 2 + |ps[0].raw|, ps[1..]);
    }
  }

  lemma {:induction false} EncodedPropsAt(pre: seq<byte>, ps: seq<Property>)
    ensures PropsAt(pre + EncodeProps(ps), |pre|, ps)
    decreases ps
  {
    if ps != [] {
      var p := ps[0];
      var head := pre + [p.id, |p.raw|] + p.raw;
      var rest := EncodeProps(ps[1..]);
      assert pre + EncodeProps(ps) == head + rest;
      EncodedPropsAt(head, ps[1..]);
      BeAtPrefix(pre + [p.id, |p.raw|], p.raw);
      BeAtAppend(head, rest, |pre| + 2, |p.raw|);
      assert (head + rest)[|pre|] == p.id && (head + rest)[|pre| + 1] == |p.raw|;
    }
  }

  /** The four buckets of a well-formed Codec 8 block fit their widths. */
  lemma {:induction false} WellFormedFits(b: IoBlock)
    requires WellFormed(b) && b.Io8?
    ensures BucketsFit(b.BucketList(), Widths)
  {
    var bs := b.BucketList();
    assert bs[1..] == [b.b2, b.b4, b.b8] && bs[1..][1..] == [b.b4, b.b8] && bs[1..][1..][1..] == [b.b8];
    assert Widths[1..] == [2, 4, 8] && [2, 4, 8][1..] == [4, 8] && [4, 8][1..] == [8];
    assert BucketsFit([b.b8], [8]);
    assert BucketsFit([b.b4, b.b8], [4, 8]);
    assert BucketsFit([b.b2, b.b4, b.b8], [2, 4, 8]);
  }

  lemma {:induction false} Io8RoundTrip(b: IoBlock, tail: seq<byte>)
    requires WellFormed(b) && b.Io8?
    ensures DecodeIo(EncodeIo(b) + tail, Codec8) == Ok((BlockMap(b), |EncodeIo(b)|))
  {
    var h := [b.eventId, b.elementCount];
    var bs := b.BucketList();
    WellFormedFits(b);
    EncodedBucketsAt(h, bs, Widths);
    BucketsAtAppend(h + EncodeBuckets(bs, Widths), tail, 2, bs, Widths);
    BucketsDecode(EncodeIo(b) + tail, 2, bs, Widths, map[]);
  }

  /** Size of an encoded Codec 8 block: 2 + (1 + 2 n1) + (1 + 3 n2) + (1 + 5 n4) + (1 + 9 n8). */
  lemma {:induction false} Io8Length(b: IoBlock)
    requires WellFormed(b) && b.Io8?
    ensures |EncodeIo(b)| == 2 + (1 + 2 * |b.b1|) + (1 + 3 * |b.b2|) + (1 + 5 * |b.b4|) + (1 + 9 * |b.b8|)
  {
    var bs := b.BucketList();
    WellFormedFits(b);
    EncodedBucketsAt([], bs, Widths);
    assert bs[1..] == [b.b2, b.b4, b.b8] && bs[1..][1..] == [b.b4, b.b8] && bs[1..][1..][1..] == [b.b8];
    assert Widths[1..] == [2, 4, 8] && [2, 4, 8][1..] == [4, 8] && [4, 8][1..] == [8];
    assert BucketsSpan([b.b8], [8]) == 1 + Span(|b.b8|, 8);
    assert BucketsSpan([b.b4, b.b8], [4, 8]) == 1 + Span(|b.b4|, 4) + 1 + Span(|b.b8|, 8);
    assert BucketsSpan([b.b2, b.b4, b.b8], [2, 4, 8]) == 1 + Span(|b.b2|, 2) + 1 + Span(|b.b4|, 4) + 1 + Span(|b.b8|, 8);
    SpanWidths(|b.b1|);
    SpanWidths(|b.b2|);
    SpanWidths(|b.b4|);
    SpanWidths(|b.b8|);
  }

  lemma {:induction false} Io8ERoundTrip(b: IoBlock, tail: seq<byte>)
    requires WellFormed(b) && b.Io8E?
    ensures DecodeIo(EncodeIo(b) + tail, Codec8E) == Ok((BlockMap(b), |EncodeIo(b)|))
  {
    var h := [b.eventId, |b.props|];
    EncodedPropsAt(h, b.props);
    PropsAtAppend(h + EncodeProps(b.props), tail, 2, b.props);
    PropsDecode(EncodeIo(b) + tail, 2, b.props, map[]);
  }

  /** Decoding a well-formed encoded block, whatever follows it, gives the
      block's map and consumes exactly the block's bytes; for Codec 8 that is
      2 + (1 + 2 n1) + (1 + 3 n2) + (1 + 5 n4) + (1 + 9 n8), for Codec 8E it
      is 2 plus the sum of 2 + len over all entries, skipped ones included. */
  lemma {:induction false} IoRoundTrip(b: IoBlock, tail: seq<byte>)
    requires WellFormed(b)
    ensures DecodeIo(EncodeIo(b) + tail, b.CodecTag()) == Ok((BlockMap(b), |EncodeIo(b)|))
    ensures b.Io8? ==> |EncodeIo(b)| == 2 + (1 + 2 * |b.b1|) + (1 + 3 * |b.b2|) + (1 + 5 * |b.b4|) + (1 + 9 * |b.b8|)
    ensures b.Io8E? ==> |EncodeIo(b)| == 2 + PropsLength(b.props)
  {
    if b.Io8? {
      Io8RoundTrip(b, tail);
      Io8Length(b);
    } else {
      Io8ERoundTrip(b, tail);
    }
  }

  /** The map of a Codec 8 block: the four buckets written in turn. */
  lemma {:induction false} BlockMapBuckets(b: IoBlock)
    requires b.Io8?
    ensures BlockMap(b) == Assign(Assign(Assign(Assign(map[], b.b1), b.b2), b.b4), b.b8)
  {
    var bs := b.BucketList();
    assert bs[1..] == [b.b2, b.b4, b.b8] && bs[1..][1..] == [b.b4, b.b8] && bs[1..][1..][1..] == [b.b8];
    assert [b.b8][1..] == [];
    var m := Assign(Assign(Assign(map[], b.b1), b.b2), b.b4);
    assert AssignAll(m, [b.b8]) == Assign(m, b.b8);
    assert AssignAll(Assign(Assign(map[], b.b1), b.b2), [b.b4, b.b8]) == Assign(m, b.b8);
    assert AssignAll(Assign(map[], b.b1), [b.b2, b.b4, b.b8]) == Assign(m, b.b8);
  }

  /** Codec 8: the decoded map holds exactly the ids of all four buckets, and
      each id holds the value of its last entry in bucket order 1, 2, 4, 8. */
  lemma {:induction false} Codec8Map(b: IoBlock)
    requires b.Io8?
    ensures BlockMap(b).Keys == Ids(b.b1 + b.b2 + b.b4 + b.b8)
    ensures var es := b.b1 + b.b2 + b.b4 + b.b8;
      forall i | 0 <= i < |es| && (forall j | i < j < |es| :: es[j].id != es[i].id) ::
        BlockMap(b)[es[i].id] == es[i].value
  {
    var es := b.b1 + b.b2 + b.b4 + b.b8;
    assert BlockMap(b) == Assign(map[], es) by {
      BlockMapBuckets(b);
      AssignConcat(map[], b.b1, b.b2);
      AssignConcat(map[], b.b1 + b.b2, b.b4);
      AssignConcat(map[], b.b1 + b.b2 + b.b4, b.b8);
    }
    AssignKeys(map[], es);
    forall i | 0 <= i < |es| && (forall j | i < j < |es| :: es[j].id != es[i].id)
      ensures BlockMap(b)[es[i].id] == es[i].value
    {
      AssignLastWins(map[], es, i);
    }
  }

  /** Codec 8E: an entry of unsupported width contributes no key; the map
      holds exactly the ids of supported-width entries. */
  lemma {:induction false} Codec8EKeys(ps: seq<Property>)
    ensures Assign(map[], SupportedPairs(ps)).Keys
         == set i | 0 <= i < |ps| && SupportedWidth(|ps[i].raw|) :: ps[i].id
  {
    AssignKeys(map[], SupportedPairs(ps));
    SupportedIds(ps);
  }

  lemma {:induction false} SupportedIds(ps: seq<Property>)
    ensures Ids(SupportedPairs(ps)) == set i | 0 <= i < |ps| && SupportedWidth(|ps[i].raw|) :: ps[i].id
  {
    if ps != [] {
      SupportedIds(ps[1..]);
      var rest := set i | 0 <= i < |ps[1..]| && SupportedWidth(|ps[1..][i].raw|) :: ps[1..][i].id;
      var all := set i | 0 <= i < |ps| && SupportedWidth(|ps[i].raw|) :: ps[i].id;
      assert all == (if SupportedWidth(|ps[0].raw|) then {ps[0].id} else {}) + rest by {
        forall x | x in all ensures x in (if SupportedWidth(|ps[0].raw|) then {ps[0].id} else {}) + rest {
          var i :| 0 <= i < |ps| && SupportedWidth(|ps[i].raw|) && ps[i].id == x;
          if i > 0 { assert ps[1..][i - 1] == ps[i]; }
        }
        forall x | x in rest ensures x in all {
          var i :| 0 <= i < |ps[1..]| && SupportedWidth(|ps[1..][i].raw|) && ps[1..][i].id == x;
          assert ps[i + 1] == ps[1..][i];
        }
      }
      var sp := SupportedPairs(ps);
      if SupportedWidth(|ps[0].raw|) {
        assert sp == [IoPair(ps[0].id, BeUint(ps[0].raw))] + SupportedPairs(ps[1..]);
        IdsCons(IoPair(ps[0].id, BeUint(ps[0].raw)), SupportedPairs(ps[1..]));
      }
    }
  }

  lemma {:induction false} IdsCons(e: IoPair, es: seq<IoPair>)
    ensures Ids([e] + es) == {e.id} + Ids(es)
  {
    var s := [e] + es;
    assert s[0] == e;
    forall x | x in Ids(s) ensures x in {e.id} + Ids(es) {
      var i :| 0 <= i < |s| && s[i].id == x;
      if i > 0 { assert es[i - 1] == s[i]; }
    }
    forall x | x in Ids(es) ensures x in Ids(s) {
      var i :| 0 <= i < |es| && es[i].id == x;
      assert s[i + 1] == es[i];
    }
  }

  /** Codec 8: the decode succeeds exactly when the four buckets, at the
      positions their count bytes imply, fit in the data. */
  predicate Codec8Fits(d: seq<byte>)
  {
    && |d| >= 3
    && var p2: int := 3 + 2 * (d[2] as int);
      (&& p2 < |d|
       && var p4: int := p2 + 1 + 3 * (d[p2] as int);
         (&& p4 < |d|
          && var p8: int := p4 + 1 + 5 * (d[p4] as int);
            (&& p8 < |d|
             && p8 + 1 + 9 * (d[p8] as int) <= |d|)))
  }

  /** The Codec 8 bucket with its count byte at `off` succeeds exactly when
      its entries fit, and ends `1 + (1 + w) * count` bytes later. */
  lemma {:induction false} CountedBucketSize(d: seq<byte>, off: nat, w: nat, m: IoMap)
    requires off <= |d|
    ensures CountedBucket(d, off, w, m).Ok? <==> off < |d| && off + 1 + Span(d[off], w) <= |d|
    ensures CountedBucket(d, off, w, m).Ok? ==> CountedBucket(d, off, w, m).value.1 == off + 1 + Span(d[off], w)
  {
    if off < |d| {
      BucketSize(d, off + 1, d[off], w, m);
    }
  }

  lemma {:induction false} Codec8Layout(d: seq<byte>)
    ensures DecodeIo(d, Codec8).Ok? <==> Codec8Fits(d)
    ensures DecodeIo(d, Codec8).Ok? ==>
      var n1: int := d[2];
      var n2: int := d[3 + 2 * n1];
      var n4: int := d[4 + 2 * n1 + 3 * n2];
      var n8: int := d[5 + 2 * n1 + 3 * n2 + 5 * n4];
      DecodeIo(d, Codec8).value.1 == 2 + (1 + 2 * n1) + (1 + 3 * n2) + (1 + 5 * n4) + (1 + 9 * n8)
  {
    assert Widths[1..] == [2, 4, 8] && [2, 4, 8][1..] == [4, 8] && [4, 8][1..] == [8] && [8][1..] == [];
    if |d| >= 2 {
      var r1 := CountedBucket(d, 2, 1, map[]);
      CountedBucketSize(d, 2, 1, map[]);
      if |d| > 2 {
        SpanWidths(d[2]);
      }
      if r1.Ok? {
        var o2 := r1.value.1;
        var r2 := CountedBucket(d, o2, 2, r1.value.0);
        CountedBucketSize(d, o2, 2, r1.value.0);
        if o2 < |d| {
          SpanWidths(d[o2]);
        }
        if r2.Ok? {
          var o4 := r2.value.1;
          var r4 := CountedBucket(d, o4, 4, r2.value.0);
          CountedBucketSize(d, o4, 4, r2.value.0);
          if o4 < |d| {
            SpanWidths(d[o4]);
          }
          if r4.Ok? {
            var o8 := r4.value.1;
            CountedBucketSize(d, o8, 8, r4.value.0);
            if o8 < |d| {
              SpanWidths(d[o8]);
            }
            assert Buckets(d, o8, [8], r4.value.0) == CountedBucket(d, o8, 8, r4.value.0);
            assert Buckets(d, o4, [4, 8], r2.value.0) == Buckets(d, o8, [8], r4.value.0);
          } else {
            assert Buckets(d, o4, [4, 8], r2.value.0) == Fail(r4.error);
          }
          assert Buckets(d, o2, [2, 4, 8], r1.value.0) == Buckets(d, o4, [4, 8], r2.value.0);
        } else {
          assert Buckets(d, o2, [2, 4, 8], r1.value.0) == Fail(r2.error);
        }
      }
    }
  }

  /** On any data, a Codec 8E entry whose length byte is not 1, 2, 4 or 8
      writes nothing and moves the cursor past its id, its length byte and
      the declared number of bytes, whether or not those bytes are there;
      when it is the last entry, the loop ends there. */
  lemma {:induction false} SkipAny(d: seq<byte>, off: nat, k: nat, m: IoMap)
    requires k > 0 && off + 2 <= |d| && !SupportedWidth(d[off + 1])
    ensures Props(d, off, k, m) == Props(d, off + 2 + d[off + 1], k - 1, m)
    ensures k == 1 ==> Props(d, off, k, m) == Ok((m, off + 2 + d[off + 1]))
  {
    assert Props(d, off + 2 + d[off + 1], 0, m) == Ok((m, off + 2 + d[off + 1]));
  }

  /** A Codec 8E entry of unsupported length that runs past the data still
      succeeds: the cursor moves by the declared length without a bounds
      check, so the reported size can exceed the bytes available. */
  lemma {:induction false} SkipPastEnd()
    ensures DecodeIo([0, 1, 5, 16], Codec8E) == Ok((map[], 20))
  {
  }

  /** An entry declaring 16 bytes is skipped whole and the next entry is
      still decoded. */
  lemma {:induction false} SkipThenDecode()
    ensures DecodeIo([0, 2, 7, 16] + seq(16, _ => 0) + [9, 1, 42], Codec8E) == Ok((map[9 := 42], 23))
  {
  }
}
