/** `parse_gps_element`: the fixed 15-byte GPS element of a record. */
module GpsElement {
  import opened Bytes
  import opened Avl

  /** Size of the GPS element on the wire. */
  const GpsSize: nat := 15

  /** Every field within the width the wire gives it. */
  predicate InRange(g: Gps)
  {
    && -0x8000_0000 <= g.longitude < 0x8000_0000
    && -0x8000_0000 <= g.latitude < 0x8000_0000
    && -0x8000 <= g.altitude < 0x8000
    && g.angle < 0x1_0000
    && g.speed < 0x1_0000
  }

  /** Decodes the slice `data[offset:offset+15]` that `parse_record` passes in.
      A slice shorter than 15 bytes makes one of the unpacks fail. No range
      check is applied to any field. */
  function ParseGps(g: seq<byte>): (r: Result<Gps>)
    ensures r.Ok? <==> |g| >= GpsSize
    ensures r.Ok? ==> InRange(r.value)
    ensures r.Fail? ==> r.error == OutOfRange
  {
    if |g| < GpsSize then Fail(OutOfRange)
    else
      BeUintBound(g[0..4]);
      BeUintBound(g[4..8]);
      BeUintBound(g[8..10]);
      BeUintBound(g[10..12]);
      BeUintBound(g[13..15]);
      assert Pow256(2) == 0x1_0000 && Pow256(4) == 0x1_0000_0000;
      Ok(Gps(
      longitude := Int32(BeUint(g[0..4])),
      latitude := Int32(BeUint(g[4..8])),
      altitude := Int16(BeUint(g[8..10])),
      angle := BeUint(g[10..12]),
      satellites := g[12],
      speed := BeUint(g[13..15])))
  }

  /** The wire form of a GPS element: longitude 0-3, latitude 4-7,
      altitude 8-9, angle 10-11, satellites 12, speed 13-14, big-endian. */
  function EncodeGps(g: Gps): (r: seq<byte>)
    requires InRange(g)
    ensures |r| == GpsSize
  {
    BeBytes(Uint32Of(g.longitude), 4) + BeBytes(Uint32Of(g.latitude), 4)
      + BeBytes(Uint16Of(g.altitude), 2) + BeBytes(g.angle, 2)
      + [g.satellites] + BeBytes(g.speed, 2)
  }

  /** Decoding an encoded GPS element gives back every field. */
  lemma {:induction false} GpsRoundTrip(g: Gps)
    requires InRange(g)
    ensures ParseGps(EncodeGps(g)) == Ok(g)
  {
    var e := EncodeGps(g);
    assert e[0..4] == BeBytes(Uint32Of(g.longitude), 4);
    assert e[4..8] == BeBytes(Uint32Of(g.latitude), 4);
    assert e[8..10] == BeBytes(Uint16Of(g.altitude), 2);
    assert e[10..12] == BeBytes(g.angle, 2);
    assert e[13..15] == BeBytes(g.speed, 2);
    BeBytesRoundTrip(Uint32Of(g.longitude), 4);
    BeBytesRoundTrip(Uint32Of(g.latitude), 4);
    BeBytesRoundTrip(Uint16Of(g.altitude), 2);
    BeBytesRoundTrip(g.angle, 2);
    BeBytesRoundTrip(g.speed, 2);
    Int32RoundTrip(g.longitude);
    Int32RoundTrip(g.latitude);
    Int16RoundTrip(g.altitude);
  }

  /** Every 15-byte string is the encoding of the element decoded from it:
      the decoder loses no bit of the GPS element. */
  lemma {:induction false} GpsBytesRoundTrip(b: seq<byte>)
    requires |b| == GpsSize
    ensures ParseGps(b).Ok? && EncodeGps(ParseGps(b).value) == b
  {
    Signed32RoundTrip(b[0..4]);
    Signed32RoundTrip(b[4..8]);
    Signed16RoundTrip(b[8..10]);
    BeUintRoundTrip(b[10..12]);
    BeUintRoundTrip(b[13..15]);
    GpsSplit(b);
  }

  /** A 4-byte field read as a signed integer writes back unchanged. */
  lemma {:induction false} Signed32RoundTrip(s: seq<byte>)
    requires |s| == 4
    ensures -0x8000_0000 <= Int32(BeUint(s)) < 0x8000_0000
    ensures BeBytes(Uint32Of(Int32(BeUint(s))), 4) == s
  {
    BeUintBound(s);
    assert Pow256(4) == 0x1_0000_0000;
    BeUintRoundTrip(s);
  }

  /** A 2-byte field read as a signed integer writes back unchanged. */
  lemma {:induction false} Signed16RoundTrip(s: seq<byte>)
    requires |s| == 2
    ensures -0x8000 <= Int16(BeUint(s)) < 0x8000
    ensures BeBytes(Uint16Of(Int16(BeUint(s))), 2) == s
  {
    BeUintBound(s);
    assert Pow256(2) == 0x1_0000;
    BeUintRoundTrip(s);
  }

  lemma {:induction false} GpsSplit(b: seq<byte>)
    requires |b| == GpsSize
    ensures b == b[0..4] + b[4..8] + b[8..10] + b[10..12] + [b[12]] + b[13..15]
  {
  }
}
