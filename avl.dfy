/** The values the AVL decoder produces, and the outcomes of decoding. */
module Avl {
  import opened Bytes

  datatype Option<+T> = None | Some(value: T)

  /** How a decode of `main.py` ends when it does not produce a value:
      `OutOfRange` is any `IndexError` from `data[offset]` or `struct.error`
      from unpacking a short slice; `TimestampRange` is the error
      `datetime.utcfromtimestamp` raises for an instant past the year 9999;
      `UnsupportedCodec` is the `None` that `process_avl_data` returns for an
      unknown codec tag. */
  datatype DecodeError = OutOfRange | TimestampRange | UnsupportedCodec(codec: byte)

  datatype Result<+T> = Ok(value: T) | Fail(error: DecodeError) {
    predicate IsFailure() { Fail? }

    function PropagateFailure<U>(): Result<U>
      requires Fail?
    {
      Fail(error)
    }

    function Extract(): T
      requires Ok?
    {
      value
    }
  }

  /** Codec 8 ("standard") and Codec 8 Extended tags. */
  const Codec8: byte := 0x08
  const Codec8E: byte := 0x8E

  predicate SupportedCodec(codec: byte)
  {
    codec == Codec8 || codec == Codec8E
  }

  /** IO id to unsigned value; Python's `io_element` dictionary. */
  type IoMap = map<byte, nat>

  /** The GPS element with longitude and latitude kept as the raw signed
      32-bit integers (degrees times 10^7). */
  datatype Gps = Gps(
    longitude: int,
    latitude: int,
    altitude: int,
    angle: nat,
    satellites: byte,
    speed: nat)

  /** One AVL record; `timestamp` is the raw milliseconds since the epoch. */
  datatype Record = Record(timestamp: nat, priority: byte, gps: Gps, io: IoMap)

  /** A decoded record together with the number of bytes it consumed
      (`parse_record`'s second result). */
  datatype Parsed = Parsed(record: Record, size: nat)

  /** What `process_avl_data` returns on success: the records and the codec tag. */
  datatype Frame = Frame(codec: byte, records: seq<Record>)
}
