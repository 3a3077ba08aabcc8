/** Helpers shared by Radamsa's byte mutators: the random repetition length
    and the UTF-8 encoder. */
module ByteMutatorBase {
  import opened Common

  const MINIMUM_UPPER_LIMIT: nat := 0x2
  const MAXIMUM_UPPER_LIMIT: nat := 0x20000

  function Pow2(e: nat): (p: nat)
    ensures p >= 1
  {
    if e == 0 then 1 else 2 * Pow2(e - 1)
  }

  lemma {:induction false} Pow2Below(e: nat, f: nat)
    requires e < f
    ensures Pow2(e) < Pow2(f)
  {
    if e < f - 1 {
      Pow2Below(e, f - 1);
    }
  }

  lemma Pow2Cap()
    ensures Pow2(1) == MINIMUM_UPPER_LIMIT
    ensures Pow2(17) == MAXIMUM_UPPER_LIMIT
  {
    assert Pow2(4) == 16;
    assert Pow2(8) == 256;
    assert Pow2(12) == 4096;
    assert Pow2(16) == 0x10000;
  }

  /** The exponent of the upper limit the doubling loop stops at, when the
      limit `2^e` has been reached and `stops[e - 1]` is the stop draw made at
      that limit: the first `e` whose draw is zero, or 17 (the cap). */
  function LimitExponent(stops: seq<nat>, e: nat): (r: nat)
    requires 1 <= e <= 17 && |stops| >= 17
    ensures e <= r <= 17
    ensures r < 17 ==> stops[r - 1] == 0
    ensures forall j :: e - 1 <= j < r - 1 ==> stops[j] != 0
    decreases 17 - e
  {
    if stops[e - 1] == 0 || e == 17 then e else LimitExponent(stops, e + 1)
  }

  /** The doubling loop of `GetRandomRepetitionLength`: `stops` are the
      successive `randBetween(0, 2)` draws. The loop makes at most 16
      doublings and ends on the first zero draw or at the cap. */
  method UpperLimit(stops: seq<nat>) returns (randomUpperLimit: nat)
    requires |stops| >= 17
    ensures randomUpperLimit == Pow2(LimitExponent(stops, 1))
    ensures MINIMUM_UPPER_LIMIT <= randomUpperLimit <= MAXIMUM_UPPER_LIMIT
  {
    Pow2Cap();
    var randomStop := stops[0];
    randomUpperLimit := MINIMUM_UPPER_LIMIT;
    var e: nat := 1;
    while randomStop != 0
      invariant 1 <= e <= 17
      invariant randomUpperLimit == Pow2(e) && randomStop == stops[e - 1]
      invariant LimitExponent(stops, e) == LimitExponent(stops, 1)
      decreases 17 - e
    {
      if e < 17 {
        Pow2Below(e, 17);
      }
      if randomUpperLimit == MAXIMUM_UPPER_LIMIT {
        break;
      }
      randomUpperLimit := randomUpperLimit * 2;
      e := e + 1;
      randomStop := stops[e - 1];
    }
    if e < 17 {
      Pow2Below(e, 17);
    }
    if 1 < e {
      Pow2Below(1, e);
    }
  }

  /** RadamsaByteMutatorBase::GetRandomRepetitionLength; `pick` is the final
      `randBetween(0, randomUpperLimit)` draw. */
  method GetRandomRepetitionLength(stops: seq<nat>, pick: nat) returns (r: nat)
    requires |stops| >= 17
    requires pick <= Pow2(LimitExponent(stops, 1))
    ensures r == pick + 1
    ensures 1 <= r <= MAXIMUM_UPPER_LIMIT + 1
  {
    var randomUpperLimit := UpperLimit(stops);
    r := pick + 1;
  }

  /** The byte held by the low eight bits of `v`, as `push_back` into a
      `std::vector<uint8_t>` truncates it. */
  function Low8(v: bv32): Byte
  {
    (v & 0xFF) as Byte
  }

  /** A continuation byte carrying the low six bits of `v`. */
  function Tail(v: bv32): Byte
  {
    Low8(0x80 | (v & 0x3F))
  }

  /** RadamsaByteMutatorBase::encode_utf8. */
  function EncodeUtf8(cp: bv32): (r: seq<Byte>)
    ensures |r| == if cp <= 0x7F then 1 else if cp <= 0x7FF then 2 else if cp <= 0xFFFF then 3 else 4
  {
    if cp <= 0x7F then [Low8(cp)]
    else if cp <= 0x7FF then [Low8(0xC0 | (cp >> 6)), Tail(cp)]
    else if cp <= 0xFFFF then [Low8(0xE0 | (cp >> 12)), Tail(cp >> 6), Tail(cp)]
    else [Low8(0xF0 | (cp >> 18)), Tail(cp >> 12), Tail(cp >> 6), Tail(cp)]
  }

  /** A continuation byte `10xxxxxx`. */
  predicate IsTail(b: Byte)
  {
    b & 0xC0 == 0x80
  }

  /** The lead byte carries the prefix of its length (`0xxxxxxx`, `110xxxxx`,
      `1110xxxx`, `11110xxx`), as section 3 of RFC 3629 lays out, and every
      later byte is a continuation byte. Past 0x1FFFFF the four-byte lead is
      truncated and loses its prefix. */
  lemma EncodeUtf8Prefixes(cp: bv32)
    requires cp <= 0x1F_FFFF
    ensures var r := EncodeUtf8(cp);
            (|r| == 1 ==> r[0] & 0x80 == 0)
            && (|r| == 2 ==> r[0] & 0xE0 == 0xC0)
            && (|r| == 3 ==> r[0] & 0xF0 == 0xE0)
            && (|r| == 4 ==> r[0] & 0xF8 == 0xF0)
            && forall k :: 1 <= k < |r| ==> IsTail(r[k])
  {
  }

  /** A Unicode scalar value: at most 0x10FFFF and not a surrogate. */
  predicate IsScalar(cp: bv32)
  {
    cp <= 0x10_FFFF && !(0xD800 <= cp <= 0xDFFF)
  }

  function Bits(b: Byte, mask: bv32): bv32
  {
    (b as bv32) & mask
  }

  function Value2(b0: Byte, b1: Byte): bv32
  {
    (Bits(b0, 0x1F) << 6) | Bits(b1, 0x3F)
  }

  function Value3(b0: Byte, b1: Byte, b2: Byte): bv32
  {
    (Bits(b0, 0x0F) << 12) | (Bits(b1, 0x3F) << 6) | Bits(b2, 0x3F)
  }

  function Value4(b0: Byte, b1: Byte, b2: Byte, b3: Byte): bv32
  {
    (Bits(b0, 0x07) << 18) | (Bits(b1, 0x3F) << 12) | (Bits(b2, 0x3F) << 6) | Bits(b3, 0x3F)
  }

  /** Decoding per RFC 3629: one well-formed sequence of one to four bytes,
      no overlong form, no surrogate, nothing past 0x10FFFF. */
  function DecodeUtf8(b: seq<Byte>): (r: Option<bv32>)
    ensures r.Some? ==> IsScalar(r.value)
  {
    if |b| == 1 && b[0] & 0x80 == 0 then Some(b[0] as bv32)
    else if |b| == 2 && b[0] & 0xE0 == 0xC0 && IsTail(b[1]) then
      var v := Value2(b[0], b[1]);
      if v >= 0x80 then Some(v) else None
    else if |b| == 3 && b[0] & 0xF0 == 0xE0 && IsTail(b[1]) && IsTail(b[2]) then
      var v := Value3(b[0], b[1], b[2]);
      if v >= 0x800 && !(0xD800 <= v <= 0xDFFF) then Some(v) else None
    else if |b| == 4 && b[0] & 0xF8 == 0xF0 && IsTail(b[1]) && IsTail(b[2]) && IsTail(b[3]) then
      var v := Value4(b[0], b[1], b[2], b[3]);
      if 0x1_0000 <= v <= 0x10_FFFF then Some(v) else None
    else None
  }

  lemma Encode1(cp: bv32)
    requires cp <= 0x7F
    ensures Low8(cp) & 0x80 == 0 && Low8(cp) as bv32 == cp
  {
  }

  lemma Encode2(cp: bv32)
    requires 0x80 <= cp <= 0x7FF
    ensures Low8(0xC0 | (cp >> 6)) & 0xE0 == 0xC0 && IsTail(Tail(cp))
    ensures Value2(Low8(0xC0 | (cp >> 6)), Tail(cp)) == cp
  {
  }

  lemma Encode3(cp: bv32)
    requires 0x800 <= cp <= 0xFFFF
    ensures Low8(0xE0 | (cp >> 12)) & 0xF0 == 0xE0 && IsTail(Tail(cp >> 6)) && IsTail(Tail(cp))
    ensures Value3(Low8(0xE0 | (cp >> 12)), Tail(cp >> 6), Tail(cp)) == cp
  {
  }

  lemma Encode4(cp: bv32)
    requires 0x1_0000 <= cp <= 0x1F_FFFF
    ensures Low8(0xF0 | (cp >> 18)) & 0xF8 == 0xF0
    ensures IsTail(Tail(cp >> 12)) && IsTail(Tail(cp >> 6)) && IsTail(Tail(cp))
    ensures Value4(Low8(0xF0 | (cp >> 18)), Tail(cp >> 12), Tail(cp >> 6), Tail(cp)) == cp
  {
  }

  /** Decoding the encoder's output recovers every scalar value. */
  lemma DecodeEncode(cp: bv32)
    requires IsScalar(cp)
    ensures DecodeUtf8(EncodeUtf8(cp)) == Some(cp)
  {
    if cp <= 0x7F {
      Encode1(cp);
    } else if cp <= 0x7FF {
      Encode2(cp);
    } else if cp <= 0xFFFF {
      Encode3(cp);
    } else {
      Encode4(cp);
    }
  }

  // Each byte of a decoded sequence is what the encoder writes for that
  // position of the decoded value.

  lemma Lead2(b0: Byte, b1: Byte)
    requires b0 & 0xE0 == 0xC0
    ensures Low8(0xC0 | (Value2(b0, b1) >> 6)) == b0
  {
  }

  lemma Tail2(b0: Byte, b1: Byte)
    requires IsTail(b1)
    ensures Tail(Value2(b0, b1)) == b1
  {
  }

  lemma Lead3(b0: Byte, b1: Byte, b2: Byte)
    requires b0 & 0xF0 == 0xE0
    ensures Low8(0xE0 | (Value3(b0, b1, b2) >> 12)) == b0
  {
  }

  lemma Tails3(b0: Byte, b1: Byte, b2: Byte)
    requires IsTail(b1) && IsTail(b2)
    ensures Tail(Value3(b0, b1, b2) >> 6) == b1
    ensures Tail(Value3(b0, b1, b2)) == b2
  {
  }

  lemma Lead4(b0: Byte, b1: Byte, b2: Byte, b3: Byte)
    requires b0 & 0xF8 == 0xF0
    ensures Low8(0xF0 | (Value4(b0, b1, b2, b3) >> 18)) == b0
  {
  }

  lemma Tail41(b0: Byte, b1: Byte, b2: Byte, b3: Byte)
    requires IsTail(b1)
    ensures Tail(Value4(b0, b1, b2, b3) >> 12) == b1
  {
  }

  lemma Tail42(b0: Byte, b1: Byte, b2: Byte, b3: Byte)
    requires IsTail(b2)
    ensures Tail(Value4(b0, b1, b2, b3) >> 6) == b2
  {
  }

  lemma Tail43(b0: Byte, b1: Byte, b2: Byte, b3: Byte)
    requires IsTail(b3)
    ensures Tail(Value4(b0, b1, b2, b3)) == b3
  {
  }

  lemma EncodeDecode1(b: seq<Byte>)
    requires |b| == 1 && DecodeUtf8(b).Some?
    ensures EncodeUtf8(DecodeUtf8(b).value) == b
  {
    assert DecodeUtf8(b) == Some(b[0] as bv32);
    assert Low8(b[0] as bv32) == b[0];
  }

  lemma EncodeDecode2(b: seq<Byte>)
    requires |b| == 2 && DecodeUtf8(b).Some?
    ensures EncodeUtf8(DecodeUtf8(b).value) == b
  {
    assert DecodeUtf8(b) == Some(Value2(b[0], b[1]));
    Lead2(b[0], b[1]);
    Tail2(b[0], b[1]);
    assert b == [b[0], b[1]];
  }

  lemma EncodeDecode3(b: seq<Byte>)
    requires |b| == 3 && DecodeUtf8(b).Some?
    ensures EncodeUtf8(DecodeUtf8(b).value) == b
  {
    assert DecodeUtf8(b) == Some(Value3(b[0], b[1], b[2]));
    Lead3(b[0], b[1], b[2]);
    Tails3(b[0], b[1], b[2]);
    assert b == [b[0], b[1], b[2]];
  }

  lemma EncodeValue4(b0: Byte, b1: Byte, b2: Byte, b3: Byte)
    requires b0 & 0xF8 == 0xF0 && IsTail(b1) && IsTail(b2) && IsTail(b3)
    requires 0x1_0000 <= Value4(b0, b1, b2, b3)
    ensures EncodeUtf8(Value4(b0, b1, b2, b3)) == [b0, b1, b2, b3]
  {
    Lead4(b0, b1, b2, b3);
    Tail41(b0, b1, b2, b3);
    Tail42(b0, b1, b2, b3);
    Tail43(b0, b1, b2, b3);
  }

  lemma EncodeDecode4(b: seq<Byte>)
    requires |b| == 4 && DecodeUtf8(b).Some?
    ensures EncodeUtf8(DecodeUtf8(b).value) == b
  {
    assert DecodeUtf8(b) == Some(Value4(b[0], b[1], b[2], b[3]));
    EncodeValue4(b[0], b[1], b[2], b[3]);
    assert b == [b[0], b[1], b[2], b[3]];
  }

  /** Every well-formed sequence is the encoder's output for the value it
      decodes to. */
  lemma EncodeDecode(b: seq<Byte>)
    requires DecodeUtf8(b).Some?
    ensures EncodeUtf8(DecodeUtf8(b).value) == b
  {
    if |b| == 1 {
      EncodeDecode1(b);
    } else if |b| == 2 {
      EncodeDecode2(b);
    } else if |b| == 3 {
      EncodeDecode3(b);
    } else {
      EncodeDecode4(b);
    }
  }

  /** The encoder does not reject surrogates: it writes three bytes that no
      RFC 3629 decoder accepts. */
  lemma SurrogatesEncoded(cp: bv32)
    requires 0xD800 <= cp <= 0xDFFF
    ensures |EncodeUtf8(cp)| == 3
    ensures DecodeUtf8(EncodeUtf8(cp)) == None
  {
    Encode3(cp);
  }
}
