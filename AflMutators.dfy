/** The AFL-style leaf mutators: four-byte flip, interesting 8/16/32-bit
    values and block overwrite-copy.  Each copies the source buffer into a
    destination of the same size and then edits a few bytes of the copy in
    place.  Multi-byte stores are little-endian (the host byte order is fixed
    to little-endian by assumption). */
module AflMutators {
  import opened Common

  // ---------------------------------------------------------------------------
  // Byte-level specifications

  /** A byte with every bit inverted: `b ^ 0xFF`. */
  function Inverted(b: Byte): (r: Byte)
    ensures r ^ 0xFF == b
  {
    b ^ 0xFF
  }

  /** `s` with the four bytes starting at `b` inverted. */
  function FlipFourAt(s: seq<Byte>, b: nat): (r: seq<Byte>)
    requires b + 4 <= |s|
    ensures |r| == |s|
    ensures forall i :: b <= i < b + 4 ==> r[i] == Inverted(s[i])
    ensures forall i :: 0 <= i < |s| && !(b <= i < b + 4) ==> r[i] == s[i]
  {
    seq(|s|, i requires 0 <= i < |s| => if b <= i < b + 4 then Inverted(s[i]) else s[i])
  }

  /** Flipping the same four bytes twice gives the input back. */
  lemma FlipFourAtTwiceRestores(s: seq<Byte>, b: nat)
    requires b + 4 <= |s|
    ensures FlipFourAt(FlipFourAt(s, b), b) == s
  {
    var t := FlipFourAt(FlipFourAt(s, b), b);
    forall i | 0 <= i < |s| ensures t[i] == s[i] {
      if b <= i < b + 4 {
        assert t[i] == Inverted(Inverted(s[i]));
      }
    }
  }

  /** `s` with the bytes `w` stored at offset `o`. */
  function StoreAt(s: seq<Byte>, o: nat, w: seq<Byte>): (r: seq<Byte>)
    requires o + |w| <= |s|
    ensures |r| == |s|
    ensures forall j :: 0 <= j < |w| ==> r[o + j] == w[j]
    ensures forall i :: 0 <= i < |s| && !(o <= i < o + |w|) ==> r[i] == s[i]
  {
    s[..o] + w + s[o + |w|..]
  }

  /** The two bytes of a 16-bit store, least significant first. */
  function Le16(v: bv16): (w: seq<Byte>)
    ensures |w| == 2
  {
    [(v & 0xFF) as Byte, (v >> 8) as Byte]
  }

  /** Reads a 16-bit value back from its two stored bytes. */
  function FromLe16(w: seq<Byte>): bv16
    requires |w| == 2
  {
    (w[0] as bv16) | ((w[1] as bv16) << 8)
  }

  /** The four bytes of a 32-bit store, least significant first. */
  function Le32(v: bv32): (w: seq<Byte>)
    ensures |w| == 4
  {
    [(v & 0xFF) as Byte, ((v >> 8) & 0xFF) as Byte, ((v >> 16) & 0xFF) as Byte, (v >> 24) as Byte]
  }

  /** Reads a 32-bit value back from its four stored bytes. */
  function FromLe32(w: seq<Byte>): bv32
    requires |w| == 4
  {
    (w[0] as bv32) | ((w[1] as bv32) << 8) | ((w[2] as bv32) << 16) | ((w[3] as bv32) << 24)
  }

  /** The stored bytes of a 16-bit value read back as that value. */
  lemma Le16RoundTrip(v: bv16)
    ensures FromLe16(Le16(v)) == v
  {
  }

  /** The stored bytes of a 32-bit value read back as that value. */
  lemma Le32RoundTrip(v: bv32)
    ensures FromLe32(Le32(v)) == v
  {
  }

  /** Sign extension of the signed table entries to wider signed entries:
      an `int8_t` initialiser in an `int16_t`/`int32_t` array keeps its value. */
  function Widen8To16(v: bv8): (w: bv16)
    ensures (w & 0xFF) as bv8 == v
    ensures w >> 8 == (if v & 0x80 == 0 then 0 else 0xFF)
  {
    if v & 0x80 == 0 then v as bv16 else (v as bv16) | 0xFF00
  }

  function Widen8To32(v: bv8): (w: bv32)
    ensures (w & 0xFF) as bv8 == v
    ensures w >> 8 == (if v & 0x80 == 0 then 0 else 0xFF_FFFF)
  {
    if v & 0x80 == 0 then v as bv32 else (v as bv32) | 0xFFFF_FF00
  }

  function Widen16To32(v: bv16): (w: bv32)
    ensures (w & 0xFFFF) as bv16 == v
    ensures w >> 16 == (if v & 0x8000 == 0 then 0 else 0xFFFF)
  {
    if v & 0x8000 == 0 then v as bv32 else (v as bv32) | 0xFFFF_0000
  }

  /** The table `{INTERESTING_8, INTERESTING_16}` as 16-bit entries. */
  function Interesting16Table(i8: seq<bv8>, i16: seq<bv16>): (t: seq<bv16>)
    ensures |t| == |i8| + |i16|
    ensures forall k :: 0 <= k < |i8| ==> t[k] == Widen8To16(i8[k])
    ensures forall k :: 0 <= k < |i16| ==> t[|i8| + k] == i16[k]
  {
    seq(|i8|, k requires 0 <= k < |i8| => Widen8To16(i8[k])) + i16
  }

  /** The table `{INTERESTING_8, INTERESTING_16, INTERESTING_32}` as 32-bit entries. */
  function Interesting32Table(i8: seq<bv8>, i16: seq<bv16>, i32: seq<bv32>): (t: seq<bv32>)
    ensures |t| == |i8| + |i16| + |i32|
    ensures forall k :: 0 <= k < |i8| ==> t[k] == Widen8To32(i8[k])
    ensures forall k :: 0 <= k < |i16| ==> t[|i8| + k] == Widen16To32(i16[k])
    ensures forall k :: 0 <= k < |i32| ==> t[|i8| + |i16| + k] == i32[k]
  {
    seq(|i8|, k requires 0 <= k < |i8| => Widen8To32(i8[k]))
    + seq(|i16|, k requires 0 <= k < |i16| => Widen16To32(i16[k]))
    + i32
  }

  /** `s` after `memmove(s + to, s + from, len)`: the block as it was before
      the move lands at `to`, whatever the overlap. */
  function MoveBlock(s: seq<Byte>, from: nat, to: nat, len: nat): (r: seq<Byte>)
    requires from + len <= |s| && to + len <= |s|
    ensures |r| == |s|
    ensures forall i :: to <= i < to + len ==> r[i] == s[from + (i - to)]
    ensures forall i :: 0 <= i < |s| && !(to <= i < to + len) ==> r[i] == s[i]
  {
    StoreAt(s, to, s[from..from + len])
  }

  /** Moving a block onto itself changes nothing. */
  lemma MoveBlockOntoItself(s: seq<Byte>, from: nat, len: nat)
    requires from + len <= |s|
    ensures MoveBlock(s, from, from, len) == s
  {
    assert s[..from] + s[from..from + len] + s[from + len..] == s;
  }

  // ---------------------------------------------------------------------------
  // The mutators

  /** The copy of the source buffer into a freshly allocated destination. */
  method CopyOf(input: seq<Byte>) returns (a: array<Byte>)
    ensures fresh(a) && a[..] == input
  {
    a := new Byte[|input|](i requires 0 <= i < |input| => input[i]);
  }

  /** AFLFlip4ByteMutator::mutateTestCase; `draw` is `randBelow(size - 3)`. */
  method Flip4Byte(input: seq<Byte>, draw: nat) returns (r: Outcome)
    requires |input| >= 4 ==> draw < |input| - 3
    ensures |input| == 0 ==> r == Raised(UsageError)
    ensures 0 < |input| < 4 ==> r == Written(input)
    ensures |input| >= 4 ==> r == Written(FlipFourAt(input, draw))
    ensures r.Written? ==> |r.data| == |input|
  {
    if |input| == 0 {
      return Raised(UsageError);
    }
    var newBuff := CopyOf(input);
    if |input| < 4 {
      return Written(newBuff[..]);
    }
    var b := draw;
    newBuff[b] := Inverted(newBuff[b]);
    newBuff[b + 1] := Inverted(newBuff[b + 1]);
    newBuff[b + 2] := Inverted(newBuff[b + 2]);
    newBuff[b + 3] := Inverted(newBuff[b + 3]);
    assert newBuff[..] == FlipFourAt(input, b);
    return Written(newBuff[..]);
  }

  /** AFLInteresting8Mutator::mutateTestCase; `item` is `randBelow(|table|)`
      and `pos` is `randBelow(size)`. */
  method Interesting8(input: seq<Byte>, table: seq<bv8>, item: nat, pos: nat) returns (r: Outcome)
    requires |input| > 0 ==> item < |table| && pos < |input|
    ensures |input| == 0 ==> r == Raised(UsageError)
    ensures |input| > 0 ==> r == Written(input[pos := table[item]])
    ensures r.Written? ==> |r.data| == |input| && r.data[pos] == table[item]
    ensures r.Written? ==> forall i :: 0 <= i < |input| && i != pos ==> r.data[i] == input[i]
  {
    if |input| == 0 {
      return Raised(UsageError);
    }
    var newBuff := CopyOf(input);
    newBuff[pos] := table[item];
    return Written(newBuff[..]);
  }

  /** AFLInteresting16Mutator::createTestCase; `item` is
      `afl_rand_below(|table|)` and `offset` is `afl_rand_below(size - 1)`. */
  method Interesting16(input: seq<Byte>, i8: seq<bv8>, i16: seq<bv16>, item: nat, offset: nat)
    returns (r: Outcome)
    requires |input| >= 2 ==> item < |i8| + |i16| && offset < |input| - 1
    ensures |input| == 0 ==> r == Raised(UsageError)
    ensures |input| == 1 ==> r == Written(input)
    ensures |input| >= 2 ==> r == Written(StoreAt(input, offset, Le16(Interesting16Table(i8, i16)[item])))
    ensures r.Written? ==> |r.data| == |input|
  {
    if |input| == 0 {
      return Raised(UsageError);
    }
    var newBuff := CopyOf(input);
    if |input| < 2 {
      return Written(newBuff[..]);
    }
    var table := Interesting16Table(i8, i16);
    var w := Le16(table[item]);
    newBuff[offset], newBuff[offset + 1] := w[0], w[1];
    assert newBuff[..] == StoreAt(input, offset, w);
    return Written(newBuff[..]);
  }

  /** AFLInteresting32Mutator::createTestCase; `item` is
      `afl_rand_below(|table|)` and `offset` is `afl_rand_below(size - 3)`. */
  method Interesting32(input: seq<Byte>, i8: seq<bv8>, i16: seq<bv16>, i32: seq<bv32>, item: nat, offset: nat)
    returns (r: Outcome)
    requires |input| >= 4 ==> item < |i8| + |i16| + |i32| && offset < |input| - 3
    ensures |input| == 0 ==> r == Raised(UsageError)
    ensures 0 < |input| < 4 ==> r == Written(input)
    ensures |input| >= 4 ==> r == Written(StoreAt(input, offset, Le32(Interesting32Table(i8, i16, i32)[item])))
    ensures r.Written? ==> |r.data| == |input|
  {
    if |input| == 0 {
      return Raised(UsageError);
    }
    var newBuff := CopyOf(input);
    if |input| < 4 {
      return Written(newBuff[..]);
    }
    var table := Interesting32Table(i8, i16, i32);
    var w := Le32(table[item]);
    newBuff[offset], newBuff[offset + 1], newBuff[offset + 2], newBuff[offset + 3] := w[0], w[1], w[2], w[3];
    assert newBuff[..] == StoreAt(input, offset, w);
    return Written(newBuff[..]);
  }

  /** `memmove(a + to, a + from, len)` on the destination buffer: every byte of
      the target block receives the byte the source block held before the move. */
  method Memmove(a: array<Byte>, to: nat, from: nat, len: nat)
    requires from + len <= a.Length && to + len <= a.Length
    modifies a
    ensures a[..] == MoveBlock(old(a[..]), from, to, len)
  {
    var block := a[from..from + len];
    forall k | 0 <= k < len {
      a[to + k] := block[k];
    }
    assert a[..] == MoveBlock(old(a[..]), from, to, len);
  }

  /** AFLOverwriteCopyMutator::createTestCase; `copyLen` is
      `choose_block_len(size - 1)`, `from` and `to` are
      `afl_rand_below(size - copyLen + 1)`. */
  method OverwriteCopy(input: seq<Byte>, copyLen: nat, from: nat, to: nat) returns (r: Outcome)
    requires |input| >= 2 ==> 1 <= copyLen <= |input| - 1
    requires |input| >= 2 ==> from <= |input| - copyLen && to <= |input| - copyLen
    ensures |input| == 0 ==> r == Raised(UsageError)
    ensures |input| == 1 ==> r == Written(input)
    ensures |input| >= 2 ==> r == Written(MoveBlock(input, from, to, copyLen))
    ensures |input| >= 2 && from == to ==> r == Written(input)
    ensures r.Written? ==> |r.data| == |input|
  {
    if |input| == 0 {
      return Raised(UsageError);
    }
    var newBuff := CopyOf(input);
    if |input| < 2 {
      return Written(newBuff[..]);
    }
    if from != to {
      Memmove(newBuff, to, from, copyLen);
    } else {
      MoveBlockOntoItself(input, from, copyLen);
    }
    return Written(newBuff[..]);
  }
}
