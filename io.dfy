/**
 * The I/O vocabulary the reader speaks (errors, results) and the inner reader it wraps:
 * a byte slice read from a cursor, as `&[u8]` behaves, which may also be told to misreport
 * its byte counts or to fail.
 */
module Io {
  import opened Bytes

  /** The kinds of `std::io::Error` that matter here. */
  datatype ErrorKind = Other | Interrupted | InvalidData | UnexpectedEof

  datatype IoError = IoError(kind: ErrorKind, message: string)

  /** `std::io::Result`. */
  datatype Result<T> = Ok(value: T) | Err(error: IoError)

  /** How the inner reader answers a copy-read. */
  datatype Behaviour =
    | Honest                 // copies as many bytes as fit and reports that count
    | Misreports(count: nat) // writes nothing and reports `count`, which may exceed the buffer
    | Fails(error: IoError)  // every read and every peek fails with `error`

  class Source {
    const data: seq<byte>
    var pos: nat
    const behaviour: Behaviour

    ghost predicate Valid()
      reads this
    {
      pos <= |data|
    }

    /** The bytes not yet consumed. */
    function Remaining(): (rest: seq<byte>)
      reads this
      requires Valid()
    {
      data[pos..]
    }

    /** What a copy-read into a buffer of `len` bytes reports. */
    function ReadCount(len: nat): (r: Result<nat>)
      reads this
      requires Valid()
    {
      match behaviour
      case Honest => Ok(Min(len, |data| - pos))
      case Misreports(count) => Ok(count)
      case Fails(e) => Err(e)
    }

    /** What a peek exposes: everything not yet consumed. */
    function Available(): (r: Result<seq<byte>>)
      reads this
      requires Valid()
    {
      if behaviour.Fails? then Err(behaviour.error) else Ok(Remaining())
    }

    constructor (data: seq<byte>, behaviour: Behaviour)
      ensures Valid()
      ensures this.data == data && pos == 0 && this.behaviour == behaviour
    {
      this.data := data;
      this.pos := 0;
      this.behaviour := behaviour;
    }

    method Read(buf: array<byte>) returns (r: Result<nat>)
      requires Valid()
      modifies this, buf
      ensures Valid()
      ensures r == old(ReadCount(buf.Length))
      ensures behaviour.Honest? ==>
                r.value <= buf.Length && pos == old(pos) + r.value &&
                buf[..r.value] == data[old(pos)..pos] && buf[r.value..] == old(buf[r.value..])
      ensures !behaviour.Honest? ==> pos == old(pos) && buf[..] == old(buf[..])
    {
      match behaviour
      case Honest =>
        var k := Min(buf.Length, |data| - pos);
        forall j | 0 <= j < k {
          buf[j] := data[pos + j];
        }
        pos := pos + k;
        r := Ok(k);
      case Misreports(count) =>
        r := Ok(count);
      case Fails(e) =>
        r := Err(e);
    }

    method FillBuf() returns (r: Result<seq<byte>>)
      requires Valid()
      ensures r == Available()
    {
      if behaviour.Fails? {
        r := Err(behaviour.error);
      } else {
        r := Ok(data[pos..]);
      }
    }

    /** Rust's `<&[u8]>::consume` slices off `amount` bytes and panics when there are fewer. */
    method Consume(amount: nat)
      requires Valid() && amount <= |Remaining()|
      modifies this
      ensures Valid() && pos == old(pos) + amount
    {
      pos := pos + amount;
    }
  }
}
