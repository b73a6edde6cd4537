/**
 The acct(5) `comp_t` codec of ext/pacct/pacct_c.c: a 16-bit value whose low
 13 bits are a mantissa and whose top 3 bits are a base-8 exponent.

 Decoding (`comp_t_to_ulong`) is exact. Encoding (`ulong_to_comp_t`) is
 modelled as the code is written, which differs from a consistent truncating
 encoder in two ways:
 - the mantissa is the input shifted right by the raw excess
   `e = bitlen - 13`, while the exponent field is `e` rounded UP to a multiple
   of 3 (divided by 3); when `e % 3 != 0` the two disagree and decoding gives
   back more than was encoded;
 - the overflow test looks at `e / 3` before the round-up, so bit lengths 35
   and 36 pass it and get exponent `8 & 7 == 0`.
 The lemmas at the end of the module pin down both.
 */
module CompT {
  import opened Errors

  /** A 16-bit comp_t. */
  type CompT = c: nat | c < 0x1_0000

  /** Width of the mantissa field. */
  const MANTISSA_BITS: nat := 13

  /** 2^13: one more than the largest mantissa (the mask 0x1fff is this minus one). */
  const MANTISSA_LIMIT: nat := 0x2000

  // ---------------------------------------------------------------------------
  // Powers of two, shifts and bit lengths on naturals.
  // ---------------------------------------------------------------------------

  function Pow2(n: nat): (r: nat)
    ensures r >= 1
  {
    if n == 0 then 1 else 2 * Pow2(n - 1)
  }

  lemma {:induction false} Pow2Monotone(a: nat, b: nat)
    requires a <= b
    ensures Pow2(a) <= Pow2(b)
  {
    if a < b {
      Pow2Monotone(a, b - 1);
    }
  }

  /** The powers of two the codec's statements mention. */
  lemma Pow2Values()
    ensures Pow2(3) == 8 && Pow2(9) == 512 && Pow2(12) == 0x1000 && Pow2(13) == 0x2000
    ensures Pow2(22) == 0x40_0000 && Pow2(34) == 0x4_0000_0000 && Pow2(36) == 0x10_0000_0000
  {
    assert Pow2(1) == 2 && Pow2(2) == 4 && Pow2(3) == 8 && Pow2(4) == 16;
    assert Pow2(5) == 32 && Pow2(6) == 64 && Pow2(7) == 128 && Pow2(8) == 256;
    assert Pow2(9) == 512 && Pow2(10) == 1024 && Pow2(11) == 2048 && Pow2(12) == 4096;
    assert Pow2(13) == 0x2000 && Pow2(14) == 0x4000 && Pow2(15) == 0x8000 && Pow2(16) == 0x1_0000;
    assert Pow2(17) == 0x2_0000 && Pow2(18) == 0x4_0000 && Pow2(19) == 0x8_0000 && Pow2(20) == 0x10_0000;
    assert Pow2(21) == 0x20_0000 && Pow2(22) == 0x40_0000 && Pow2(23) == 0x80_0000 && Pow2(24) == 0x100_0000;
    assert Pow2(25) == 0x200_0000 && Pow2(26) == 0x400_0000 && Pow2(27) == 0x800_0000 && Pow2(28) == 0x1000_0000;
    assert Pow2(29) == 0x2000_0000 && Pow2(30) == 0x4000_0000 && Pow2(31) == 0x8000_0000 && Pow2(32) == 0x1_0000_0000;
    assert Pow2(33) == 0x2_0000_0000 && Pow2(34) == 0x4_0000_0000 && Pow2(35) == 0x8_0000_0000;
  }

  /** `x << n` */
  function ShiftLeft(x: nat, n: nat): nat
  {
    if n == 0 then x else 2 * ShiftLeft(x, n - 1)
  }

  /** `x >> n` */
  function ShiftRight(x: nat, n: nat): nat
  {
    if n == 0 then x else ShiftRight(x / 2, n - 1)
  }

  /** The low `n` bits of `x` are all zero, i.e. `x` is a multiple of `2^n`. */
  predicate LowBitsClear(x: nat, n: nat)
  {
    n == 0 || (x % 2 == 0 && LowBitsClear(x / 2, n - 1))
  }

  /** Number of significant bits of `v`; 0 for 0. */
  function BitLength(v: nat): (n: nat)
    ensures v < Pow2(n)
    ensures v > 0 ==> n >= 1 && Pow2(n - 1) <= v
  {
    if v == 0 then 0 else 1 + BitLength(v / 2)
  }

  /** `v` fits in `n` bits exactly when its bit length is at most `n`. */
  lemma BitLengthBelow(v: nat, n: nat)
    ensures v < Pow2(n) <==> BitLength(v) <= n
  {
    if BitLength(v) <= n {
      Pow2Monotone(BitLength(v), n);
    } else if v > 0 {
      Pow2Monotone(n, BitLength(v) - 1);
    }
  }

  /** A shorter number is a smaller number. */
  lemma BitLengthOrder(a: nat, b: nat)
    requires BitLength(a) < BitLength(b)
    ensures a < b
  {
    Pow2Monotone(BitLength(a), BitLength(b) - 1);
  }

  lemma {:induction false} BitLengthShiftRight(x: nat, n: nat)
    ensures BitLength(ShiftRight(x, n)) == if n <= BitLength(x) then BitLength(x) - n else 0
  {
    if n > 0 {
      BitLengthShiftRight(x / 2, n - 1);
    }
  }

  lemma {:induction false} BitLengthShiftLeft(x: nat, n: nat)
    requires x > 0
    ensures BitLength(ShiftLeft(x, n)) == BitLength(x) + n
  {
    if n > 0 {
      BitLengthShiftLeft(x, n - 1);
      var y := ShiftLeft(x, n - 1);
      assert y > 0;
      assert (2 * y) / 2 == y;
    }
  }

  lemma {:induction false} ShiftLeftGrows(x: nat, n: nat)
    ensures x <= ShiftLeft(x, n)
    ensures x == 0 ==> ShiftLeft(x, n) == 0
  {
    if n > 0 {
      ShiftLeftGrows(x, n - 1);
    }
  }

  /** Shifting an `a`-bit number left by `n` gives an `(a + n)`-bit number. */
  lemma {:induction false} ShiftLeftBelow(x: nat, a: nat, n: nat)
    requires x < Pow2(a)
    ensures ShiftLeft(x, n) < Pow2(a + n)
  {
    if n > 0 {
      ShiftLeftBelow(x, a, n - 1);
    }
  }

  lemma {:induction false} ShiftLeftIsMultiply(x: nat, n: nat)
    ensures ShiftLeft(x, n) == x * Pow2(n)
  {
    if n > 0 {
      ShiftLeftIsMultiply(x, n - 1);
      assert 2 * (x * Pow2(n - 1)) == x * (2 * Pow2(n - 1));
    }
  }

  lemma {:induction false} ShiftRightUndoesShiftLeft(x: nat, n: nat)
    ensures ShiftRight(ShiftLeft(x, n), n) == x
  {
    if n > 0 {
      ShiftRightUndoesShiftLeft(x, n - 1);
      assert (2 * ShiftLeft(x, n - 1)) / 2 == ShiftLeft(x, n - 1);
    }
  }

  lemma ModSmall(x: nat, k: nat)
    requires x < k
    ensures x % k == x
  {
  }

  /** `(x >> n) << n` clears the low `n` bits of `x`: it loses less than `2^n`,
      and nothing exactly when those bits were already clear. */
  lemma {:induction false} TruncateShift(x: nat, n: nat)
    ensures ShiftLeft(ShiftRight(x, n), n) <= x < ShiftLeft(ShiftRight(x, n), n) + Pow2(n)
    ensures ShiftLeft(ShiftRight(x, n), n) == x <==> LowBitsClear(x, n)
  {
    if n > 0 {
      TruncateShift(x / 2, n - 1);
      assert ShiftLeft(ShiftRight(x, n), n) == 2 * ShiftLeft(ShiftRight(x / 2, n - 1), n - 1);
    }
  }

  // ---------------------------------------------------------------------------
  // Fields of a comp_t.
  // ---------------------------------------------------------------------------

  /** `c & 0x1fff` */
  function Mantissa(c: CompT): (m: nat)
    ensures m < MANTISSA_LIMIT
  {
    c % MANTISSA_LIMIT
  }

  /** `(c >> 13) & 0x7`; for a 16-bit value the mask removes nothing. */
  function Exponent(c: CompT): (x: nat)
    ensures x < 8
  {
    c / MANTISSA_LIMIT
  }

  /** `mantissa | (exponent << 13)`, the two fields being disjoint. */
  function Pack(mantissa: nat, exponent: nat): (c: CompT)
    requires mantissa < MANTISSA_LIMIT && exponent < 8
    ensures Mantissa(c) == mantissa && Exponent(c) == exponent
  {
    mantissa + exponent * MANTISSA_LIMIT
  }

  // ---------------------------------------------------------------------------
  // comp_t_to_ulong
  // ---------------------------------------------------------------------------

  /** The mantissa shifted left by three bits per unit of exponent. */
  function Decode(c: CompT): (v: nat)
    ensures Mantissa(c) <= v < Pow2(34)
    ensures c < MANTISSA_LIMIT ==> v == c
  {
    var shift := 3 * Exponent(c);
    ShiftLeftGrows(Mantissa(c), shift);
    Pow2Values();
    ShiftLeftBelow(Mantissa(c), MANTISSA_BITS, shift);
    Pow2Monotone(MANTISSA_BITS + shift, 34);
    ShiftLeft(Mantissa(c), shift)
  }

  /** Every comp_t is the packing of its two fields. */
  lemma PackFields(c: CompT)
    ensures Pack(Mantissa(c), Exponent(c)) == c
  {
  }

  /** Decoding scales the mantissa by `8^exponent`. */
  lemma DecodeIsScaledMantissa(c: CompT)
    ensures Decode(c) == Mantissa(c) * Pow2(3 * Exponent(c))
  {
    ShiftLeftIsMultiply(Mantissa(c), 3 * Exponent(c));
  }

  /** The three conversions the Ruby specs check. */
  lemma DecodeExamples()
    ensures Decode(1) == 1
    ensures Decode(Pack(1, 1)) == 8           // (1 << 13) | 1   gives 1 << 3
    ensures Decode(Pack(20, 3)) == 10240      // (3 << 13) | 20  gives 20 << 9
  {
    Pow2Values();
    ShiftLeftIsMultiply(1, 3);
    ShiftLeftIsMultiply(20, 9);
  }

  /** The loop of ulong_to_comp_t that counts the bits of its argument. */
  method CountBits(l: nat) returns (bits: nat)
    ensures bits == BitLength(l)
    ensures l < Pow2(bits)
    ensures l > 0 ==> Pow2(bits - 1) <= l
  {
    bits := 0;
    var l2 := l;
    if l2 != 0 {
      bits := 1;
      l2 := l2 / 2;
      while l2 != 0
        invariant bits + BitLength(l2) == BitLength(l)
        decreases l2
      {
        bits := bits + 1;
        l2 := l2 / 2;
      }
    }
  }

  // ---------------------------------------------------------------------------
  // ulong_to_comp_t
  // ---------------------------------------------------------------------------

  /** Bits beyond the mantissa's 13 (0 when there are none). */
  function Excess(v: nat): nat
  {
    if BitLength(v) > MANTISSA_BITS then BitLength(v) - MANTISSA_BITS else 0
  }

  /** The exponent field before masking: `e / 3`, plus one when `e` is not a
      multiple of 3. */
  function RoundedExponent(excess: nat): (x: nat)
    ensures 3 * x - 2 <= excess <= 3 * x
  {
    var exponent := excess / 3;
    if excess - exponent * 3 != 0 then exponent + 1 else exponent
  }

  /** The encoder as written: the overflow test runs on `e / 3` before the
      round-up, and the mantissa is shifted by `e` itself. */
  function Encode(v: nat): (r: Result<CompT>)
    ensures r.Err? <==> BitLength(v) > 36
    ensures r.Err? ==> r.error == RangeError
    ensures BitLength(v) <= MANTISSA_BITS ==> r == Ok(v)
  {
    BitLengthBelow(v, MANTISSA_BITS);
    Pow2Values();
    var bits := BitLength(v);
    if bits <= MANTISSA_BITS then
      ModSmall(v, MANTISSA_LIMIT);
      Ok(v % MANTISSA_LIMIT)
    else
      var excess := bits - MANTISSA_BITS;
      var exponent := excess / 3;
      if exponent >= 8 then
        Err(RangeError)
      else
        Ok(Pack(ShiftRight(v, excess) % MANTISSA_LIMIT, RoundedExponent(excess) % 8))
  }

  /** Values that survive an encode/decode round trip unchanged: the small
      ones, and those of at most 34 bits whose excess is a multiple of 3 and
      whose low `e` bits are clear. */
  predicate ExactlyRepresentable(v: nat)
  {
    v < MANTISSA_LIMIT
    || (v < Pow2(34) && Excess(v) % 3 == 0 && LowBitsClear(v, Excess(v)))
  }

  /** Small values are stored verbatim, so they round-trip. */
  lemma EncodeSmall(v: nat)
    requires v < MANTISSA_LIMIT
    ensures Encode(v) == Ok(v)
    ensures Decode(Encode(v).value) == v
  {
    Pow2Values();
    BitLengthBelow(v, MANTISSA_BITS);
    assert BitLength(v) <= MANTISSA_BITS;
    ModSmall(v, MANTISSA_LIMIT);
    assert Encode(v) == Ok(v);
  }

  /** The encoder raises RangeError exactly for values of 37 bits or more. */
  lemma EncodeOverflow(v: nat)
    ensures Encode(v).Err? <==> v >= Pow2(36)
    ensures Encode(v).Err? ==> Encode(v).error == RangeError
  {
    Pow2Values();
    BitLengthBelow(v, 36);
    BitLengthBelow(v, 13);
  }

  /** The exponent field for each excess the encoder lets through. */
  lemma ExponentField(e: nat)
    requires 1 <= e <= 23
    ensures e % 3 == 0 ==> 3 * (RoundedExponent(e) % 8) == e
    ensures e % 3 != 0 && e <= 21 ==> e < 3 * (RoundedExponent(e) % 8) <= 21
    ensures e >= 22 ==> RoundedExponent(e) % 8 == 0
  {
  }

  /** The encoder's result on a value of 14 or more bits that passes the
      overflow test. */
  lemma EncodeShape(v: nat)
    requires MANTISSA_BITS < BitLength(v)
    requires (BitLength(v) - MANTISSA_BITS) / 3 < 8
    ensures Encode(v) == Ok(Pack(ShiftRight(v, Excess(v)) % MANTISSA_LIMIT, RoundedExponent(Excess(v)) % 8))
  {
  }

  /** For 14 to 36 bits: the mantissa is `v >> e`, a full 13-bit mantissa, and
      the exponent is `e / 3` rounded up, modulo 8. */
  lemma EncodeLarge(v: nat)
    requires Pow2(13) <= v < Pow2(36)
    ensures 1 <= Excess(v) <= 23
    ensures BitLength(v) == Excess(v) + 13
    ensures Encode(v).Ok?
    ensures Mantissa(Encode(v).value) == ShiftRight(v, Excess(v))
    ensures Pow2(12) <= ShiftRight(v, Excess(v)) < Pow2(13)
    ensures Exponent(Encode(v).value) == RoundedExponent(Excess(v)) % 8
  {
    BitLengthBelow(v, 13);
    BitLengthBelow(v, 36);
    var bits := BitLength(v);
    assert 13 < bits <= 36;
    var e := Excess(v);
    assert e == bits - 13 && (bits - 13) / 3 < 8;
    BitLengthShiftRight(v, e);
    var m := ShiftRight(v, e);
    assert BitLength(m) == 13;
    assert m < Pow2(13) && Pow2(12) <= m;
    assert m < MANTISSA_LIMIT by { Pow2Values(); }
    ModSmall(m, MANTISSA_LIMIT);
    EncodeShape(v);
    assert Encode(v) == Ok(Pack(m, RoundedExponent(e) % 8));
  }

  /** When the excess is a multiple of 3 the code agrees with a truncating
      reference encoder: decoding clears the low `e` bits, losing less than `2^e`. */
  lemma RoundTripTruncates(v: nat)
    requires Pow2(13) <= v < Pow2(36)
    requires Excess(v) % 3 == 0
    ensures Excess(v) <= 21
    ensures Encode(v).Ok?
    ensures Decode(Encode(v).value) == ShiftLeft(ShiftRight(v, Excess(v)), Excess(v))
    ensures Decode(Encode(v).value) <= v < Decode(Encode(v).value) + Pow2(Excess(v))
  {
    EncodeLarge(v);
    ExponentField(Excess(v));
    TruncateShift(v, Excess(v));
  }

  /** When the excess is not a multiple of 3 (up to 34 bits), the mantissa is
      shifted less than the exponent says, so decoding overshoots. */
  lemma RoundTripOvershoots(v: nat)
    requires Pow2(13) <= v < Pow2(34)
    requires Excess(v) % 3 != 0
    ensures Encode(v).Ok?
    ensures Decode(Encode(v).value) > v
  {
    Pow2Monotone(34, 36);
    EncodeLarge(v);
    BitLengthBelow(v, 34);
    var e := Excess(v);
    ExponentField(e);
    var c := Encode(v).value;
    var m, x := Mantissa(c), Exponent(c);
    assert e < 3 * x;
    assert m > 0 && BitLength(m) == 13 by {
      Pow2Values();
      BitLengthIs(m, 13);
    }
    BitLengthShiftLeft(m, 3 * x);
    assert Decode(c) == ShiftLeft(m, 3 * x);
    assert BitLength(v) < BitLength(Decode(c));
    BitLengthOrder(v, Decode(c));
  }

  /** 35- and 36-bit values pass the overflow test but their exponent wraps
      to 0, so only the bare mantissa `v >> e` comes back. */
  lemma ExponentWraps(v: nat)
    requires Pow2(34) <= v < Pow2(36)
    ensures Excess(v) == 22 || Excess(v) == 23
    ensures Encode(v).Ok?
    ensures Exponent(Encode(v).value) == 0
    ensures Decode(Encode(v).value) == ShiftRight(v, Excess(v))
    ensures Decode(Encode(v).value) < v
  {
    Pow2Values();
    EncodeLarge(v);
    BitLengthBelow(v, 34);
    ExponentField(Excess(v));
  }

  /** An encode/decode round trip is exact precisely for the representable values. */
  lemma RoundTripExactIff(v: nat)
    ensures (Encode(v).Ok? && Decode(Encode(v).value) == v) <==> ExactlyRepresentable(v)
  {
    Pow2Values();
    EncodeOverflow(v);
    if v < MANTISSA_LIMIT {
      EncodeSmall(v);
    } else if v < Pow2(36) {
      if v >= Pow2(34) {
        ExponentWraps(v);
      } else if Excess(v) % 3 == 0 {
        RoundTripTruncates(v);
        TruncateShift(v, Excess(v));
      } else {
        RoundTripOvershoots(v);
      }
    }
  }

  /** `v` has bit length `n` when it lies in `[2^(n-1), 2^n)`. */
  lemma BitLengthIs(v: nat, n: nat)
    requires n >= 1 && Pow2(n - 1) <= v < Pow2(n)
    ensures BitLength(v) == n
  {
    BitLengthBelow(v, n);
    BitLengthBelow(v, n - 1);
  }

  /** The first departure on a concrete input: 8192 (excess 1) encodes to
      0x3000, which decodes to 32768. */
  lemma OvershootExample()
    ensures Encode(8192) == Ok(0x3000) && Decode(0x3000) == 32768
  {
    Pow2Values();
    assert Pow2(14) == 2 * Pow2(13);
    BitLengthIs(8192, 14);
    EncodeShape(8192);
    assert ShiftRight(8192, 1) == 4096;
    ModSmall(4096, MANTISSA_LIMIT);
    assert Decode(0x3000) == ShiftLeft(4096, 3) == 32768;
  }

  /** The second departure on a concrete input: 2^34 (excess 22) encodes with
      exponent 0 and decodes to 4096. */
  lemma WrapExample()
    ensures Encode(0x4_0000_0000) == Ok(0x1000) && Decode(0x1000) == 4096
  {
    Pow2Values();
    assert Pow2(35) == 2 * Pow2(34);
    BitLengthIs(0x4_0000_0000, 35);
    ShiftLeftIsMultiply(4096, 22);
    ShiftRightUndoesShiftLeft(4096, 22);
    ModSmall(4096, MANTISSA_LIMIT);
    EncodeShape(0x4_0000_0000);
  }

  // ---------------------------------------------------------------------------
  // A truncating reference encoder, consistent in its shift and exponent.
  // (The kernel's own encoder rounds to nearest and saturates; this one is
  // the closest consistent reading of the code above.)
  // ---------------------------------------------------------------------------

  /** Shift by the excess rounded up to a multiple of 3, and overflow when the
      rounded exponent exceeds 7. */
  function TruncatingEncode(v: nat): Result<CompT>
  {
    if v < MANTISSA_LIMIT then Ok(v)
    else
      var exponent := RoundedExponent(Excess(v));
      if exponent > 7 then Err(RangeError)
      else Ok(Pack(ShiftRight(v, 3 * exponent) % MANTISSA_LIMIT, exponent))
  }

  /** The reference encoder overflows from 35 bits on, and its decoded result
      never exceeds the input: precision is lost by truncation only. */
  lemma TruncatingEncodeFloor(v: nat)
    ensures TruncatingEncode(v).Err? <==> v >= Pow2(34)
    ensures TruncatingEncode(v).Ok? ==> Decode(TruncatingEncode(v).value) <= v
  {
    Pow2Values();
    BitLengthBelow(v, 34);
    BitLengthBelow(v, 13);
    if v >= MANTISSA_LIMIT && RoundedExponent(Excess(v)) <= 7 {
      var shift := 3 * RoundedExponent(Excess(v));
      var m := ShiftRight(v, shift);
      BitLengthShiftRight(v, shift);
      BitLengthBelow(m, 13);
      ModSmall(m, MANTISSA_LIMIT);
      TruncateShift(v, shift);
    }
  }

  /** With an excess that is a multiple of 3 the two encoders coincide. */
  lemma TruncatingAgreesOnMultiples(v: nat)
    requires Pow2(13) <= v < Pow2(36)
    requires Excess(v) % 3 == 0
    ensures Encode(v) == TruncatingEncode(v)
  {
    Pow2Values();
    EncodeLarge(v);
    var e := Excess(v);
    ExponentField(e);
    ModSmall(RoundedExponent(e), 8);
    EncodeShape(v);
  }

  /** With any other excess up to 21 the reference mantissa is shifted further
      and is shorter than the code's full 13-bit one. */
  lemma TruncatingDiffersOffMultiples(v: nat)
    requires Pow2(13) <= v < Pow2(34)
    requires Excess(v) % 3 != 0
    ensures Encode(v) != TruncatingEncode(v)
  {
    Pow2Values();
    EncodeLarge(v);
    BitLengthBelow(v, 34);
    var e := Excess(v);
    ExponentField(e);
    var shift := 3 * RoundedExponent(e);
    var m := ShiftRight(v, shift);
    BitLengthShiftRight(v, shift);
    BitLengthBelow(m, 12);
    ModSmall(m, MANTISSA_LIMIT);
    assert Mantissa(TruncatingEncode(v).value) < Pow2(12);
  }

  /** The code's encoder and the reference one agree exactly when the value is
      small, too large for either, or has an excess that is a multiple of 3. */
  lemma EncodeAgreesWithTruncatingIff(v: nat)
    ensures Encode(v) == TruncatingEncode(v)
        <==> v < MANTISSA_LIMIT || v >= Pow2(36) || Excess(v) % 3 == 0
  {
    Pow2Values();
    EncodeOverflow(v);
    TruncatingEncodeFloor(v);
    if v < MANTISSA_LIMIT {
      EncodeSmall(v);
    } else if v < Pow2(36) {
      if Excess(v) % 3 == 0 {
        TruncatingAgreesOnMultiples(v);
      } else if v < Pow2(34) {
        TruncatingDiffersOffMultiples(v);
      }
    }
  }
}
