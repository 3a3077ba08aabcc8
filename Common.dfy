/** Types shared by every mutator: bytes, the error codes of the fuzzer's
    runtime exception, the outcome of one mutation call and the source
    buffer a mutator reads. */
module Common {

  type Byte = bv8

  /** The error codes a mutator raises through its runtime exception. */
  datatype ErrorCode = UsageError | IndexOutOfRange | UnexpectedError | ConfigurationError

  /** What one mutation call does: it writes a destination buffer, raises an
      error, or returns without allocating any destination buffer. */
  datatype Outcome = Written(data: seq<Byte>) | Raised(error: ErrorCode) | NoOutput

  /** The source buffer as the storage entry reports it: a pointer that may be
      null (with whatever size the entry reports) or the bytes themselves. */
  datatype Source = NullPointer(reportedSize: nat) | Bytes(data: seq<Byte>)
  {
    function Size(): nat
    {
      match this
      case NullPointer(n) => n
      case Bytes(d) => |d|
    }
  }

  datatype Option<T> = None | Some(value: T)

  /** `n` zero bytes: what `memset(buffer, 0, n)` leaves behind. */
  function Zeros(n: nat): (z: seq<Byte>)
    ensures |z| == n
    ensures forall i :: 0 <= i < n ==> z[i] == 0
  {
    seq(n, _ => 0)
  }

  /** `memcpy(&buf[d], &data[start], end - start)`. */
  method CopyBlock(buf: array<Byte>, d: nat, data: seq<Byte>, start: nat, end: nat)
    requires start <= end <= |data| && d + (end - start) <= buf.Length
    modifies buf
    ensures forall i :: d <= i < d + (end - start) ==> buf[i] == data[start + (i - d)]
    ensures forall i :: 0 <= i < buf.Length && !(d <= i < d + (end - start)) ==> buf[i] == old(buf[i])
  {
    forall j | 0 <= j < end - start {
      buf[d + j] := data[start + j];
    }
  }
}
