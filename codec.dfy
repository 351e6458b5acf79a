/** Big-endian conversion between byte strings and non-negative integers, as
    int.from_bytes(b, 'big') and x.to_bytes(len, 'big') do it, and the
    minimal output length (x.bit_length() + 7) // 8 that every copy of the
    decoder uses. A Python str is represented by its UTF-8 encoding; whether a
    byte string is valid UTF-8 is left to a predicate supplied by the caller. */
module Codec {
  import opened NumberTheory
  import opened Outcomes

  type byte = b: int | 0 <= b < 256

  /** int.from_bytes(b, 'big'). */
  function FromBytes(b: seq<byte>): (v: nat)
    ensures v < Pow(256, |b|)
  {
    if b == [] then 0
    else
      var init := b[..|b| - 1];
      var v0 := FromBytes(init);
      DigitBound(v0, b[|b| - 1], Pow(256, |init|));
      v0 * 256 + b[|b| - 1]
  }

  /** Appending a base-256 digit to a number below P keeps it below 256·P. */
  lemma DigitBound(v: int, digit: int, p: int)
    requires 0 <= v < p && 0 <= digit < 256
    ensures v * 256 + digit < p * 256
  {
    assert (p - 1) * 256 == p * 256 - 256;
    MulLeft(256, v, p - 1);
  }

  /** x.to_bytes(len, 'big'): to_bytes raises OverflowError unless x < 256^len. */
  function ToBytes(x: nat, len: nat): (r: seq<byte>)
    requires x < Pow(256, len)
    ensures |r| == len
  {
    if len == 0 then []
    else
      assert x / 256 < Pow(256, len - 1);
      ToBytes(x / 256, len - 1) + [x % 256]
  }

  lemma {:induction false} FromToBytes(x: nat, len: nat)
    requires x < Pow(256, len)
    ensures FromBytes(ToBytes(x, len)) == x
  {
    if len > 0 {
      assert x / 256 < Pow(256, len - 1);
      FromToBytes(x / 256, len - 1);
      var r := ToBytes(x, len);
      assert r[..|r| - 1] == ToBytes(x / 256, len - 1);
    }
  }

  lemma {:induction false} ToFromBytes(b: seq<byte>)
    ensures ToBytes(FromBytes(b), |b|) == b
  {
    if b != [] {
      var init := b[..|b| - 1];
      ToFromBytes(init);
      var v := FromBytes(b);
      assert v / 256 == FromBytes(init) && v % 256 == b[|b| - 1];
      assert b == init + [b[|b| - 1]];
    }
  }

  /** The leading byte carries weight 256^(|b| - 1). */
  lemma {:induction false} FromBytesLeading(b: seq<byte>)
    requires b != []
    ensures FromBytes(b) == b[0] * Pow(256, |b| - 1) + FromBytes(b[1..])
  {
    if |b| > 1 {
      var init := b[..|b| - 1];
      FromBytesLeading(init);
      assert init[0] == b[0] && |init| - 1 == |b| - 2;
      assert init[1..] == b[1..][..|b| - 2];
      LeadingStep(b[0], Pow(256, |b| - 2), FromBytes(init[1..]), b[|b| - 1]);
    }
  }

  lemma LeadingStep(lead: int, p: int, rest: int, last: int)
    ensures (lead * p + rest) * 256 + last == lead * (256 * p) + (rest * 256 + last)
  {
  }

  /** A byte string has a nonzero first byte exactly when its value reaches
      256^(|b| - 1). */
  lemma LeadingByteNonzero(b: seq<byte>)
    requires b != []
    ensures b[0] != 0 <==> FromBytes(b) >= Pow(256, |b| - 1)
  {
    FromBytesLeading(b);
    var p := Pow(256, |b| - 1);
    assert FromBytes(b[1..]) < p;
    MulLeft(p, 1, b[0]);
  }

  // ---------------------------------------------------------------------
  // Minimal length

  /** int.bit_length() of a non-negative integer. */
  function BitLength(x: nat): (len: nat)
    ensures x < Pow(2, len)
    ensures x > 0 ==> len >= 1 && Pow(2, len - 1) <= x
    ensures x == 0 ==> len == 0
  {
    if x == 0 then 0 else 1 + BitLength(x / 2)
  }

  /** (x.bit_length() + 7) // 8: the fewest bytes that hold x. */
  function ByteLength(x: nat): nat
  {
    (BitLength(x) + 7) / 8
  }

  lemma {:induction false} PowMonotone(b: int, i: nat, j: nat)
    requires b >= 1 && i <= j
    ensures Pow(b, i) <= Pow(b, j)
    decreases j
  {
    if i < j {
      PowMonotone(b, i, j - 1);
      PowPositive(b, j - 1);
      MulLeft(Pow(b, j - 1), 1, b);
    }
  }

  lemma ByteIsEightBits(k: nat)
    ensures Pow(2, 8 * k) == Pow(256, k)
  {
    PowMul(2, 8, k);
    assert Pow(2, 8) == 256;
  }

  /** 8 * ((len + 7) / 8) rounds len up to a whole number of bytes. */
  lemma ByteCeil(len: nat)
    ensures len <= 8 * ((len + 7) / 8)
    ensures len >= 1 ==> (len + 7) / 8 >= 1 && 8 * ((len + 7) / 8 - 1) <= len - 1
  {
  }

  /** ByteLength(x) is the number of base-256 digits of x. */
  lemma ByteLengthBounds(x: nat)
    ensures x < Pow(256, ByteLength(x))
    ensures x > 0 ==> ByteLength(x) >= 1 && Pow(256, ByteLength(x) - 1) <= x
    ensures x == 0 ==> ByteLength(x) == 0
  {
    ByteCeil(BitLength(x));
    ByteLengthUpper(x, BitLength(x), ByteLength(x));
    if x > 0 {
      ByteLengthLower(x, BitLength(x), ByteLength(x));
    }
  }

  lemma ByteLengthUpper(x: nat, len: nat, k: nat)
    requires x < Pow(2, len) && len <= 8 * k
    ensures x < Pow(256, k)
  {
    ByteIsEightBits(k);
    PowMonotone(2, len, 8 * k);
  }

  lemma ByteLengthLower(x: nat, len: nat, k: nat)
    requires len >= 1 && Pow(2, len - 1) <= x && k >= 1 && 8 * (k - 1) <= len - 1
    ensures Pow(256, k - 1) <= x
  {
    ByteIsEightBits(k - 1);
    PowMonotone(2, 8 * (k - 1), len - 1);
  }

  /** The digit count is the only k with 256^(k-1) <= x < 256^k. */
  lemma ByteLengthUnique(x: nat, k: nat)
    requires k >= 1 && Pow(256, k - 1) <= x < Pow(256, k)
    ensures ByteLength(x) == k
  {
    ByteLengthBounds(x);
    DigitCountUnique(x, ByteLength(x), k);
  }

  /** Two digit counts of the same x agree. */
  lemma DigitCountUnique(x: nat, m: nat, k: nat)
    requires m >= 1 && Pow(256, m - 1) <= x < Pow(256, m)
    requires k >= 1 && Pow(256, k - 1) <= x < Pow(256, k)
    ensures m == k
  {
    if m < k {
      PowMonotone(256, m, k - 1);
    } else if m > k {
      PowMonotone(256, k, m - 1);
    }
  }

  /** x.to_bytes((x.bit_length() + 7) // 8, 'big'): never overflows, is empty
      only for 0, never starts with a zero byte, and reads back as x. */
  function MinimalBytes(x: nat): (r: seq<byte>)
    ensures |r| == ByteLength(x)
    ensures FromBytes(r) == x
    ensures r == [] <==> x == 0
    ensures r != [] ==> r[0] != 0
  {
    ByteLengthBounds(x);
    var r := ToBytes(x, ByteLength(x));
    FromToBytes(x, ByteLength(x));
    if r != [] then
      LeadingByteNonzero(r);
      r
    else
      r
  }

  /** A value below 256^k needs at most k bytes. */
  lemma ShorterThan(v: nat, k: nat)
    requires v < Pow(256, k)
    ensures |MinimalBytes(v)| <= k
  {
    ByteLengthAtMost(v, k);
  }

  /** A value below 256^k has at most k base-256 digits. */
  lemma ByteLengthAtMost(v: nat, k: nat)
    requires v < Pow(256, k)
    ensures ByteLength(v) <= k
  {
    ByteLengthBounds(v);
    if v > 0 {
      DigitsAtMost(v, ByteLength(v), k);
    }
  }

  /** m digits, 256^(m-1) <= v < 256^k, means m <= k. */
  lemma DigitsAtMost(v: nat, m: nat, k: nat)
    requires m >= 1 && Pow(256, m - 1) <= v < Pow(256, k)
    ensures m <= k
  {
    if m > k {
      PowMonotone(256, k, m - 1);
    }
  }

  /** The minimal encoding inverts int.from_bytes exactly on the byte strings
      without a leading zero byte. */
  lemma MinimalBytesRoundTrip(b: seq<byte>)
    ensures MinimalBytes(FromBytes(b)) == b <==> b == [] || b[0] != 0
  {
    var v := FromBytes(b);
    if b != [] {
      LeadingByteNonzero(b);
      if b[0] != 0 {
        ByteLengthUnique(v, |b|);
        ToFromBytes(b);
      } else {
        ShorterThan(v, |b| - 1);
      }
    }
  }

  // ---------------------------------------------------------------------
  // Text

  /** The UTF-8 bytes of an ASCII literal. */
  function Ascii(s: string): (r: seq<byte>)
    requires forall i :: 0 <= i < |s| ==> s[i] as int < 128
    ensures |r| == |s| && forall i :: 0 <= i < |s| ==> r[i] == s[i] as int
  {
    if s == [] then [] else [s[0] as int] + Ascii(s[1..])
  }

  /** bytes.decode('utf-8'): the text, represented by its UTF-8 bytes, when
      the bytes are valid; None stands for UnicodeDecodeError. The empty byte
      string always decodes to "". */
  function Decode(b: seq<byte>, valid: seq<byte> -> bool): (r: Option<seq<byte>>)
    ensures r.Some? <==> b == [] || valid(b)
    ensures r.Some? ==> r.value == b
  {
    if b == [] || valid(b) then Some(b) else None
  }

  /** The validity predicate accepts every ASCII byte string, as UTF-8 does. */
  ghost predicate AcceptsAscii(valid: seq<byte> -> bool)
  {
    forall b: seq<byte> :: (forall i :: 0 <= i < |b| ==> b[i] < 128) ==> valid(b)
  }
}
