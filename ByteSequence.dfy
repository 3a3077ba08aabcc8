/** Radamsa's byte-sequence repetition: a slice `[start, end)` of the buffer
    is repeated `reps` times in front of position `end`, and a zero
    terminator is appended. */
module ByteSequence {
  import opened Common

  /** `std::clamp(v, lo, hi)` for `lo <= hi`. */
  function Clamp(v: nat, lo: nat, hi: nat): (r: nat)
    requires lo <= hi
    ensures lo <= r <= hi
    ensures lo <= v <= hi ==> r == v
    ensures v > hi ==> r == hi
  {
    if v < lo then lo else if v > hi then hi else v
  }

  /** The start index: the first draw, shifted by the minimum seed index
      and clamped to the buffer. */
  function StartIndex(size: nat, minSeed: nat, draw1: nat): nat
    requires size >= 1
  {
    Clamp(draw1 + minSeed, 0, size - 1)
  }

  /** The end index, computed the same way from the second draw. */
  function EndIndex(size: nat, minSeed: nat, draw2: nat): nat
    requires size >= 1
  {
    Clamp(draw2 + minSeed, 0, size - 1)
  }

  /** Given a second draw not below `start + 1`, the two indices lie in the
      buffer, the end is not before the start, and they coincide only when
      both sit on the last byte. */
  lemma IndicesOrdered(size: nat, minSeed: nat, draw1: nat, draw2: nat)
    requires size >= 1
    requires draw2 >= StartIndex(size, minSeed, draw1) + 1
    ensures StartIndex(size, minSeed, draw1) <= EndIndex(size, minSeed, draw2) <= size - 1
    ensures StartIndex(size, minSeed, draw1) == EndIndex(size, minSeed, draw2)
            ==> EndIndex(size, minSeed, draw2) == size - 1
  {
  }

  /** `n` copies of `x`, one after the other. */
  function Rep(x: seq<Byte>, n: nat): seq<Byte>
  {
    if n == 0 then [] else Rep(x, n - 1) + x
  }

  lemma {:induction false} RepLength(x: seq<Byte>, n: nat)
    ensures |Rep(x, n)| == n * |x|
  {
    if n > 0 {
      RepLength(x, n - 1);
    }
  }

  /** `n >= 1` copies of a non-empty sequence are at least `n + |x| - 1`
      long: the bound that keeps every write of the as-written copy loop
      inside the buffer. */
  lemma {:induction false} RepGrowth(x: seq<Byte>, n: nat)
    requires n >= 1 && |x| >= 1
    ensures |Rep(x, n)| >= n + |x| - 1
  {
    if n > 1 {
      RepGrowth(x, n - 1);
    }
  }

  /** The number of bytes the repetitions add. */
  function Extra(data: seq<Byte>, start: nat, end: nat, reps: nat): (r: nat)
    requires start <= end <= |data|
    ensures start == end ==> r == 0
    ensures start < end && reps >= 1 ==> r >= reps + (end - start) - 1
  {
    RepLength(data[start..end], reps);
    if start < end && reps >= 1 then RepGrowth(data[start..end], reps); |Rep(data[start..end], reps)|
    else |Rep(data[start..end], reps)|
  }

  lemma {:induction false} RepAt(x: seq<Byte>, n: nat, k: nat, j: nat)
    requires k < n && j < |x|
    ensures k * |x| + j < |Rep(x, n)|
    ensures Rep(x, n)[k * |x| + j] == x[j]
  {
    RepLength(x, n - 1);
    assert Rep(x, n) == Rep(x, n - 1) + x;
    if k == n - 1 {
    } else {
      RepAt(x, n - 1, k, j);
    }
  }

  lemma {:induction false} RepLengthMono(x: seq<Byte>, k: nat, n: nat)
    requires k <= n
    ensures |Rep(x, k)| <= |Rep(x, n)|
  {
    if k < n {
      RepLengthMono(x, k, n - 1);
    }
  }

  /** What the repetition is evidently meant to produce: the bytes before
      `end`, then `reps` copies of `data[start..end]`, then the bytes from
      `end` on, then one zero terminator. */
  function Repeated(data: seq<Byte>, start: nat, end: nat, reps: nat): (r: seq<Byte>)
    requires start <= end < |data|
    ensures |r| == |data| + Extra(data, start, end, reps) + 1
  {
    data[..end] + Rep(data[start..end], reps) + data[end..] + [0]
  }

  /** The output grows by exactly `reps * (end - start) + 1` bytes. */
  lemma RepeatedLength(data: seq<Byte>, start: nat, end: nat, reps: nat)
    requires start <= end < |data|
    ensures |Repeated(data, start, end, reps)| == |data| + reps * (end - start) + 1
  {
    RepLength(data[start..end], reps);
  }

  /** Where every byte of the intended output comes from. */
  lemma RepeatedCells(data: seq<Byte>, start: nat, end: nat, reps: nat)
    requires start <= end < |data|
    ensures forall i :: 0 <= i < end ==> Repeated(data, start, end, reps)[i] == data[i]
    ensures forall m :: 0 <= m < Extra(data, start, end, reps) ==>
              Repeated(data, start, end, reps)[end + m] == Rep(data[start..end], reps)[m]
    ensures forall k :: end <= k < |data| ==>
              Repeated(data, start, end, reps)[k + Extra(data, start, end, reps)] == data[k]
    ensures Repeated(data, start, end, reps)[|data| + Extra(data, start, end, reps)] == 0
  {
    RepeatedParts(data, start, end, reps);
    RepeatedBack(data, start, end, reps);
  }

  lemma RepeatedParts(data: seq<Byte>, start: nat, end: nat, reps: nat)
    requires start <= end < |data|
    ensures forall i :: 0 <= i < end ==> Repeated(data, start, end, reps)[i] == data[i]
    ensures forall m :: 0 <= m < Extra(data, start, end, reps) ==>
              Repeated(data, start, end, reps)[end + m] == Rep(data[start..end], reps)[m]
  {
    var p, q, t := data[..end], Rep(data[start..end], reps), data[end..];
    Pieces(p, q, t, [0]);
    assert Repeated(data, start, end, reps) == p + q + t + [0];
  }

  lemma RepeatedBack(data: seq<Byte>, start: nat, end: nat, reps: nat)
    requires start <= end < |data|
    ensures forall k :: end <= k < |data| ==>
              Repeated(data, start, end, reps)[k + Extra(data, start, end, reps)] == data[k]
    ensures Repeated(data, start, end, reps)[|data| + Extra(data, start, end, reps)] == 0
  {
    var r := Repeated(data, start, end, reps);
    var b := Extra(data, start, end, reps);
    var pq := data[..end] + Rep(data[start..end], reps);
    var t := data[end..];
    var t0 := t + [0];
    assert |pq| == end + b;
    assert r == pq + t0;
    forall k | end <= k < |data|
      ensures r[k + b] == data[k]
    {
      assert r[k + b] == t0[k - end] == t[k - end];
    }
    assert r[|data| + b] == t0[|t|];
  }

  /** Where each part of a four-part concatenation lands. */
  lemma Pieces<T>(p: seq<T>, q: seq<T>, t: seq<T>, z: seq<T>)
    ensures forall i :: 0 <= i < |p| ==> (p + q + t + z)[i] == p[i]
    ensures forall m :: 0 <= m < |q| ==> (p + q + t + z)[|p| + m] == q[m]
    ensures forall k :: 0 <= k < |t| ==> (p + q + t + z)[|p| + |q| + k] == t[k]
    ensures forall k :: 0 <= k < |z| ==> (p + q + t + z)[|p| + |q| + |t| + k] == z[k]
  {
  }

  /** The bytes before `end` keep their place, the bytes from `end` on move
      up by `reps * (end - start)`, and the last byte is the terminator. */
  lemma RepeatedKeepsRest(data: seq<Byte>, start: nat, end: nat, reps: nat)
    requires start <= end < |data|
    ensures |Repeated(data, start, end, reps)| == |data| + reps * (end - start) + 1
    ensures forall i :: 0 <= i < end ==> Repeated(data, start, end, reps)[i] == data[i]
    ensures forall k :: end <= k < |data| ==>
              Repeated(data, start, end, reps)[k + reps * (end - start)] == data[k]
    ensures Repeated(data, start, end, reps)[|data| + reps * (end - start)] == 0
  {
    RepLength(data[start..end], reps);
    RepeatedCells(data, start, end, reps);
  }

  /** With no repetitions the output is the input plus the terminator. */
  lemma RepeatedNone(data: seq<Byte>, start: nat, end: nat)
    requires start <= end < |data|
    ensures Repeated(data, start, end, 0) == data + [0]
  {
    assert data[..end] + data[end..] == data;
  }

  /** `Rep(x, k + 1)` extends `Rep(x, k)` by one copy of `x`. */
  lemma RepStep(x: seq<Byte>, k: nat, m: nat)
    requires m < |Rep(x, k + 1)|
    ensures m < |Rep(x, k)| ==> Rep(x, k + 1)[m] == Rep(x, k)[m]
    ensures m >= |Rep(x, k)| ==> Rep(x, k + 1)[m] == x[m - |Rep(x, k)|]
  {
  }

  /** The repetitions of the corrected loop: `reps` copies of
      `data[start..end]` written back to back from `d0` over zeros, the
      destination advancing by the sequence length each time. */
  method WriteRepetitions(buf: array<Byte>, d0: nat, data: seq<Byte>, start: nat, end: nat, reps: nat)
    returns (d: nat)
    requires start <= end <= |data|
    requires d0 + Extra(data, start, end, reps) <= buf.Length
    requires forall i :: d0 <= i < buf.Length ==> buf[i] == 0
    modifies buf
    ensures d == d0 + Extra(data, start, end, reps)
    ensures forall i :: 0 <= i < d0 ==> buf[i] == old(buf[i])
    ensures forall i :: d0 <= i < d ==> buf[i] == Rep(data[start..end], reps)[i - d0]
    ensures forall i :: d <= i < buf.Length ==> buf[i] == 0
  {
    ghost var x := data[start..end];
    d := d0;
    var k := 0;
    while k < reps
      invariant 0 <= k <= reps
      invariant d == d0 + |Rep(x, k)| && d <= d0 + |Rep(x, reps)|
      invariant forall i :: 0 <= i < d0 ==> buf[i] == old(buf[i])
      invariant forall i :: d0 <= i < d ==> buf[i] == Rep(x, k)[i - d0]
      invariant forall i :: d <= i < buf.Length ==> buf[i] == 0
    {
      RepLengthMono(x, k + 1, reps);
      CopyBlock(buf, d, data, start, end);
      forall i | d0 <= i < d + (end - start)
        ensures buf[i] == Rep(x, k + 1)[i - d0]
      {
        RepStep(x, k, i - d0);
      }
      d := d + (end - start);
      k := k + 1;
    }
  }

  /** The copy loop of `RepeatByteSequence`, corrected: every repetition
      advances the destination by the sequence length, and `data[end]` is
      copied after the repetitions like every other byte. */
  method CopyRepeating(data: seq<Byte>, start: nat, end: nat, reps: nat) returns (out: seq<Byte>)
    requires start <= end < |data|
    ensures out == Repeated(data, start, end, reps)
  {
    RepLength(data[start..end], reps);
    var n := |data| + reps * (end - start) + 1;
    var buf := new Byte[n](_ => 0);
    out := CopyLoop(buf, data, start, end, reps);
  }

  /** The loop of `CopyRepeating`, on a zeroed buffer of the output size. */
  method CopyLoop(buf: array<Byte>, data: seq<Byte>, start: nat, end: nat, reps: nat) returns (out: seq<Byte>)
    requires start <= end < |data|
    requires buf.Length == |data| + Extra(data, start, end, reps) + 1
    requires forall i :: 0 <= i < buf.Length ==> buf[i] == 0
    modifies buf
    ensures out == Repeated(data, start, end, reps)
  {
    ghost var r := Repeated(data, start, end, reps);
    ghost var b := Extra(data, start, end, reps);
    RepeatedCells(data, start, end, reps);
    var s := 0;
    var d := 0;
    while s < |data|
      invariant 0 <= s <= |data|
      invariant d == if s <= end then s else s + b
      invariant forall i :: 0 <= i < d ==> buf[i] == r[i]
      invariant forall i :: d <= i < buf.Length ==> buf[i] == 0
    {
      if s == end {
        d := WriteRepetitions(buf, d, data, start, end, reps);
        forall i | end <= i < d
          ensures buf[i] == r[i]
        {
          assert r[end + (i - end)] == Rep(data[start..end], reps)[i - end];
        }
      }
      assert r[d] == data[s];
      buf[d] := data[s];
      d := d + 1;
      s := s + 1;
    }
    out := buf[..];
    assert out == r;
  }

  /** The copy loop of `RepeatByteSequence` as written: each of the `reps`
      `memcpy` calls writes the whole sequence but the destination index
      then advances by one, and the byte at `end` is never copied. Cell `i`
      of the buffer after `s` source bytes and `k` repetitions. */
  function Cell(data: seq<Byte>, start: nat, end: nat, s: nat, k: nat, i: nat): Byte
    requires start <= end < |data|
  {
    var len := end - start;
    if i < end then (if i < s then data[i] else 0)
    else if i < end + k then (if len >= 1 then data[start] else 0)
    else if i + 1 < s + k && i + 1 - k < |data| then data[i + 1 - k]
    else if k >= 1 && i + 1 < end + k + len then data[start + (i + 1 - (end + k))]
    else 0
  }

  /** The buffer the as-written loop leaves behind. The prefix before `end`,
      the bytes after `end` shifted by `reps - 1` and the zero terminator
      are as intended; the repeated block is not. */
  function AsWritten(data: seq<Byte>, start: nat, end: nat, reps: nat): (r: seq<Byte>)
    requires start <= end < |data|
    requires start < end || end == |data| - 1
    ensures |r| == |Repeated(data, start, end, reps)|
    ensures forall i :: 0 <= i < end ==> r[i] == data[i]
    ensures forall k :: end < k < |data| ==> r[k + reps - 1] == data[k]
    ensures r[|r| - 1] == 0
  {
    var n := |data| + Extra(data, start, end, reps) + 1;
    LastCellZero(data, start, end, reps);
    seq(n, i requires 0 <= i < n => Cell(data, start, end, |data|, reps, i))
  }

  /** No write of the as-written loop reaches the last byte. */
  lemma LastCellZero(data: seq<Byte>, start: nat, end: nat, reps: nat)
    requires start <= end < |data|
    requires start < end || end == |data| - 1
    ensures Cell(data, start, end, |data|, reps, |data| + Extra(data, start, end, reps)) == 0
  {
  }

  /** One `memcpy` of the as-written repetition loop, at `end + k`. */
  lemma CellAfterBlock(data: seq<Byte>, start: nat, end: nat, k: nat, i: nat)
    requires start <= end < |data|
    ensures Cell(data, start, end, end, k + 1, i)
            == if end + k <= i < end + k + (end - start) then data[start + (i - (end + k))]
               else Cell(data, start, end, end, k, i)
  {
  }

  /** One byte copy of the as-written loop, for a source index other than
      `end`: it lands at `s` before `end` and at `s + reps - 1` after it. */
  lemma CellAfterByte(data: seq<Byte>, start: nat, end: nat, reps: nat, s: nat, i: nat)
    requires start <= end < |data| && s < |data| && s != end
    ensures Cell(data, start, end, s + 1, if s + 1 <= end then 0 else reps, i)
            == if i == (if s < end then s else s + reps - 1) then data[s]
               else Cell(data, start, end, s, if s <= end then 0 else reps, i)
  {
  }

  /** Leaving the source index `end` after the repetitions writes nothing. */
  lemma CellPastEnd(data: seq<Byte>, start: nat, end: nat, reps: nat, i: nat)
    requires start <= end < |data|
    ensures Cell(data, start, end, end + 1, reps, i) == Cell(data, start, end, end, reps, i)
  {
  }

  /** The repetition loop as written: `reps` `memcpy` calls, the destination
      advancing by one byte after each. */
  method WriteRepetitionsAsWritten(buf: array<Byte>, data: seq<Byte>, start: nat, end: nat, reps: nat)
    requires start <= end < |data|
    requires start < end || end == |data| - 1
    requires buf.Length == |data| + Extra(data, start, end, reps) + 1
    requires forall i :: 0 <= i < buf.Length ==> buf[i] == Cell(data, start, end, end, 0, i)
    modifies buf
    ensures forall i :: 0 <= i < buf.Length ==> buf[i] == Cell(data, start, end, end, reps, i)
  {
    var d := end;
    var k := 0;
    while k < reps
      invariant 0 <= k <= reps
      invariant d == end + k
      invariant forall i :: 0 <= i < buf.Length ==> buf[i] == Cell(data, start, end, end, k, i)
    {
      if start < end {
        CopyBlock(buf, d, data, start, end);
      }
      forall i | 0 <= i < buf.Length
        ensures buf[i] == Cell(data, start, end, end, k + 1, i)
      {
        CellAfterBlock(data, start, end, k, i);
      }
      d := d + 1;
      k := k + 1;
    }
  }

  method CopyRepeatingAsWritten(data: seq<Byte>, start: nat, end: nat, reps: nat) returns (out: seq<Byte>)
    requires start <= end < |data|
    requires start < end || end == |data| - 1
    ensures out == AsWritten(data, start, end, reps)
  {
    RepLength(data[start..end], reps);
    var n := |data| + reps * (end - start) + 1;
    var buf := new Byte[n](_ => 0);
    out := CopyLoopAsWritten(buf, data, start, end, reps);
  }

  /** The loop of `CopyRepeatingAsWritten`, on a zeroed buffer of the output
      size. */
  method CopyLoopAsWritten(buf: array<Byte>, data: seq<Byte>, start: nat, end: nat, reps: nat)
    returns (out: seq<Byte>)
    requires start <= end < |data|
    requires start < end || end == |data| - 1
    requires buf.Length == |data| + Extra(data, start, end, reps) + 1
    requires forall i :: 0 <= i < buf.Length ==> buf[i] == 0
    modifies buf
    ensures out == AsWritten(data, start, end, reps)
  {
    var n := buf.Length;
    var s := 0;
    var d := 0;
    while s < |data|
      invariant 0 <= s <= |data|
      invariant d == if s <= end then s else s + reps - 1
      invariant forall i :: 0 <= i < n ==> buf[i] == Cell(data, start, end, s, if s <= end then 0 else reps, i)
    {
      if s == end {
        WriteRepetitionsAsWritten(buf, data, start, end, reps);
        forall i | 0 <= i < n
          ensures buf[i] == Cell(data, start, end, s + 1, reps, i)
        {
          CellPastEnd(data, start, end, reps, i);
        }
        d := d + reps;
      } else {
        buf[d] := data[s];
        forall i | 0 <= i < n
          ensures buf[i] == Cell(data, start, end, s + 1, if s + 1 <= end then 0 else reps, i)
        {
          CellAfterByte(data, start, end, reps, s, i);
        }
        d := d + 1;
      }
      s := s + 1;
    }
    out := buf[..];
  }

  /** The discrepancy on a concrete input: repeating "ab" of "abc" twice
      should give "abababc" and a terminator; the loop as written leaves
      "abaab" followed by three zeros, losing the final 'c'. */
  lemma AsWrittenLosesEndByte()
    ensures AsWritten([0x61, 0x62, 0x63], 0, 2, 2) == [0x61, 0x62, 0x61, 0x61, 0x62, 0, 0, 0]
    ensures Repeated([0x61, 0x62, 0x63], 0, 2, 2) == [0x61, 0x62, 0x61, 0x62, 0x61, 0x62, 0x63, 0]
  {
    var a := AsWritten([0x61, 0x62, 0x63], 0, 2, 2);
    assert a[2] == 0x61 && a[3] == 0x61 && a[4] == 0x62 && a[5] == 0;
    var x: seq<Byte> := [0x61, 0x62];
    assert Rep(x, 2) == Rep(x, 1) + x;
    assert Rep(x, 1) == [] + x;
  }

  /** ByteSequenceMutations::RepeatByteSequence, with its copy loop as
      written. `reps` is the repetition count and `draw1`, `draw2` the two
      results of `GetRandomValueWithinBounds`; the second is taken to be no
      smaller than its lower bound `start + 1`, even when that bound exceeds
      the upper one. */
  method RepeatByteSequence(src: Source, minSeed: nat, reps: nat, draw1: nat, draw2: nat) returns (r: Outcome)
    requires src.Size() >= 2 && minSeed <= src.Size() - 2
             ==> draw2 >= StartIndex(src.Size(), minSeed, draw1) + 1
    ensures src.Size() < 2 ==> r == Raised(UsageError)
    ensures src.Size() >= 2 && minSeed > src.Size() - 2 ==> r == Raised(IndexOutOfRange)
    ensures src.Size() >= 2 && minSeed <= src.Size() - 2 && src.NullPointer?
            ==> r == Raised(UnexpectedError)
    ensures src.Size() >= 2 && minSeed <= src.Size() - 2 && src.Bytes? ==>
              var start := StartIndex(src.Size(), minSeed, draw1);
              var end := EndIndex(src.Size(), minSeed, draw2);
              start <= end && (start < end || end == src.Size() - 1)
              && r == Written(AsWritten(src.data, start, end, reps))
              && |r.data| == src.Size() + reps * (end - start) + 1
    ensures r.Written? ==> |r.data| >= src.Size() + 1
  {
    var size := src.Size();
    if size < 2 {
      return Raised(UsageError);
    }
    if minSeed > size - 2 {
      return Raised(IndexOutOfRange);
    }
    if src.NullPointer? {
      return Raised(UnexpectedError);
    }
    var start := Clamp(draw1 + minSeed, 0, size - 1);
    var end := Clamp(draw2 + minSeed, 0, size - 1);
    IndicesOrdered(size, minSeed, draw1, draw2);
    var out := CopyRepeatingAsWritten(src.data, start, end, reps);
    RepeatedLength(src.data, start, end, reps);
    return Written(out);
  }

  /** RepeatByteSequence as its size computation and comments intend: the
      same checks and indices, with the corrected copy loop. */
  method RepeatByteSequenceIntended(src: Source, minSeed: nat, reps: nat, draw1: nat, draw2: nat)
    returns (r: Outcome)
    requires src.Size() >= 2 && minSeed <= src.Size() - 2
             ==> draw2 >= StartIndex(src.Size(), minSeed, draw1) + 1
    ensures src.Size() < 2 ==> r == Raised(UsageError)
    ensures src.Size() >= 2 && minSeed > src.Size() - 2 ==> r == Raised(IndexOutOfRange)
    ensures src.Size() >= 2 && minSeed <= src.Size() - 2 && src.NullPointer?
            ==> r == Raised(UnexpectedError)
    ensures src.Size() >= 2 && minSeed <= src.Size() - 2 && src.Bytes? ==>
              var start := StartIndex(src.Size(), minSeed, draw1);
              var end := EndIndex(src.Size(), minSeed, draw2);
              start <= end && r == Written(Repeated(src.data, start, end, reps))
              && |r.data| == src.Size() + reps * (end - start) + 1
    ensures r.Written? ==> |r.data| >= src.Size() + 1
  {
    var size := src.Size();
    if size < 2 {
      return Raised(UsageError);
    }
    if minSeed > size - 2 {
      return Raised(IndexOutOfRange);
    }
    if src.NullPointer? {
      return Raised(UnexpectedError);
    }
    var start := Clamp(draw1 + minSeed, 0, size - 1);
    var end := Clamp(draw2 + minSeed, 0, size - 1);
    IndicesOrdered(size, minSeed, draw1, draw2);
    var out := CopyRepeating(src.data, start, end, reps);
    RepeatedLength(src.data, start, end, reps);
    return Written(out);
  }
}
