/** RadamsaWidenCodePointMutator: a randomly chosen printable ASCII byte is
    replaced by the two bytes `0xC0, byte | 0x80`, so the test case grows by
    one byte (two with the terminating zero). */
module WidenCodePoint {
  import opened Common
  import ByteMutatorBase

  const LEAD: Byte := 0xC0
  const CONTINUATION: Byte := 0x80

  /** Printable ASCII, `32..126`. */
  predicate Printable(b: Byte)
  {
    32 <= b <= 126
  }

  /** Every draw is an index of the buffer (`randBetween(0, size - 1)`). */
  predicate DrawsFit(data: seq<Byte>, draws: seq<nat>)
  {
    |data| <= |draws| && forall k :: 0 <= k < |draws| ==> draws[k] < |data|
  }

  /** The index hit by the first of the draws `attempt, attempt + 1, ...,
      |data| - 1` that lands on a printable byte, if any does. */
  function FirstPrintable(data: seq<Byte>, draws: seq<nat>, attempt: nat): (r: Option<nat>)
    requires DrawsFit(data, draws) && attempt <= |data|
    ensures r.Some? ==> r.value < |data| && Printable(data[r.value])
    ensures r.Some? ==> exists k :: attempt <= k < |data| && draws[k] == r.value
    ensures r.None? <==> forall k :: attempt <= k < |data| ==> !Printable(data[draws[k]])
    decreases |data| - attempt
  {
    if attempt == |data| then None
    else if Printable(data[draws[attempt]]) then Some(draws[attempt])
    else FirstPrintable(data, draws, attempt + 1)
  }

  /** The retry loop: at most `data.size()` draws, stopping at the first
      printable byte. */
  method FindPrintable(data: seq<Byte>, draws: seq<nat>) returns (found: Option<nat>)
    requires DrawsFit(data, draws)
    ensures found == FirstPrintable(data, draws, 0)
  {
    var maxAttempts := |data|;
    var attempts := 0;
    var index := 0;
    while true
      invariant attempts <= maxAttempts
      invariant FirstPrintable(data, draws, attempts) == FirstPrintable(data, draws, 0)
      decreases maxAttempts - attempts
    {
      attempts := attempts + 1;
      if attempts > maxAttempts {
        return None;
      }
      index := draws[attempts - 1];
      var codePoint := data[index];
      if Printable(codePoint) {
        break;
      }
    }
    return Some(index);
  }

  /** The buffer with byte `i` widened, and a terminating zero. */
  function Widened(data: seq<Byte>, i: nat): (r: seq<Byte>)
    requires i < |data|
    ensures |r| == |data| + 2
    ensures r[i] == LEAD && r[i + 1] == data[i] | CONTINUATION
    ensures forall k :: 0 <= k < i ==> r[k] == data[k]
    ensures forall k :: i < k < |data| ==> r[k + 1] == data[k]
    ensures r[|r| - 1] == 0
  {
    data[..i] + [LEAD, data[i] | CONTINUATION] + data[i + 1..] + [0]
  }

  /** `mutateTestCase`. `buffer` is `None` when the storage entry holds no
      buffer for the key; `draws` are the successive `randBetween(0,
      size - 1)` results. Every early exit returns without output, including
      the one where no draw hits a printable byte. */
  method WidenCodePoint(buffer: Option<Source>, draws: seq<nat>) returns (r: Outcome)
    requires buffer.Some? && buffer.value.Bytes? ==> DrawsFit(buffer.value.data, draws)
    ensures buffer.None? || buffer.value.NullPointer? || |buffer.value.data| < 1 ==> r == NoOutput
    ensures buffer.Some? && buffer.value.Bytes? ==>
              var data := buffer.value.data;
              match FirstPrintable(data, draws, 0)
              case None => r == NoOutput
              case Some(i) => r == Written(Widened(data, i))
    ensures r.Written? ==> |r.data| == buffer.value.Size() + 2
  {
    if buffer.None? {
      return NoOutput;
    }
    var src := buffer.value;
    if src.NullPointer? {
      return NoOutput;
    }
    var data := src.data;
    if |data| < 1 {
      return NoOutput;
    }
    var found := FindPrintable(data, draws);
    if found.None? {
      return NoOutput;
    }
    var out := Widened(data, found.value);
    return Written(out);
  }

  /** The second byte is a UTF-8 continuation byte exactly when the widened
      byte is below 64; from 64 up it has the `11xxxxxx` form of a lead
      byte. */
  lemma ContinuationOnlyBelow64(b: Byte)
    requires Printable(b)
    ensures ByteMutatorBase.IsTail(b | CONTINUATION) <==> b < 64
    ensures b >= 64 ==> (b | CONTINUATION) & 0xC0 == 0xC0
  {
  }

  /** Read as two-byte UTF-8, the pair carries the low six bits of the
      byte; a strict decoder refuses it either way (an overlong form, or no
      continuation byte). */
  lemma WidenedPairRejected(b: Byte)
    requires Printable(b)
    ensures ByteMutatorBase.Value2(LEAD, b | CONTINUATION) == (b & 0x3F) as bv32
    ensures ByteMutatorBase.DecodeUtf8([LEAD, b | CONTINUATION]) == None
  {
    PairValue(b);
  }

  lemma PairValue(b: Byte)
    ensures ByteMutatorBase.Value2(LEAD, b | CONTINUATION) == (b & 0x3F) as bv32
    ensures ByteMutatorBase.Value2(LEAD, b | CONTINUATION) < 0x80
  {
  }
}
