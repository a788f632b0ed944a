/**
  Byte strings and the textual encodings the ledger uses on them: lowercase
  Base16 text as `fmt.Sprintf("%x", ...)` and `hex.EncodeToString` print it,
  `hex.DecodeString`, the `%x` numeral of an integer, the bytewise order
  of `bytes.Compare` and the big-endian reading of `big.Int.SetBytes`.
*/
module Bytes {
  import opened Wrappers

  type byte = x: int | 0 <= x < 256
  type Bytes = seq<byte>

  /** ASCII text as the bytes of its Go string; every character is one byte. */
  predicate IsAscii(s: string) {
    forall i | 0 <= i < |s| :: s[i] as int < 128
  }

  function AsciiBytes(s: string): (r: Bytes)
    requires IsAscii(s)
    ensures |r| == |s|
    ensures forall i | 0 <= i < |s| :: r[i] == s[i] as int
  {
    seq(|s|, i requires 0 <= i < |s| => s[i] as int)
  }

  // ---------------------------------------------------------------------
  // Base16 (section 8 of RFC 4648), lowercase, as Go's fmt and encoding/hex write it

  /** The lowercase hexadecimal digit of a nibble. */
  function HexDigit(n: int): char
    requires 0 <= n < 16
  {
    if n < 10 then ('0' as int + n) as char else ('a' as int + n - 10) as char
  }

  /** The value of one hexadecimal digit; `hex.DecodeString` accepts either case. */
  function DigitValue(ch: char): (r: Option<int>)
    ensures r.Some? ==> 0 <= r.value < 16
  {
    if '0' <= ch <= '9' then Some(ch as int - '0' as int)
    else if 'a' <= ch <= 'f' then Some(ch as int - 'a' as int + 10)
    else if 'A' <= ch <= 'F' then Some(ch as int - 'A' as int + 10)
    else None
  }

  lemma DigitValueOfHexDigit(n: int)
    requires 0 <= n < 16
    ensures DigitValue(HexDigit(n)) == Some(n)
  {
  }

  lemma HexDigitIsZeroChar(n: int)
    requires 0 <= n < 16
    ensures HexDigit(n) == '0' <==> n == 0
  {
  }

  /** Two lowercase digits per byte, high nibble first. */
  function Hex(bs: Bytes): (s: string)
    ensures |s| == 2 * |bs|
  {
    if bs == [] then "" else [HexDigit(bs[0] / 16), HexDigit(bs[0] % 16)] + Hex(bs[1..])
  }

  /** `hex.DecodeString`: fails on odd length or on a character that is not a digit. */
  function HexDecode(s: string): Option<Bytes>
    decreases |s|
  {
    if s == [] then Some([])
    else if |s| == 1 then None
    else
      match (DigitValue(s[0]), DigitValue(s[1]), HexDecode(s[2..]))
      case (Some(hi), Some(lo), Some(rest)) => Some([hi * 16 + lo] + rest)
      case _ => None
  }

  /** Decoding undoes encoding, so distinct byte strings have distinct hex keys. */
  lemma {:induction false} HexRoundTrip(bs: Bytes)
    ensures HexDecode(Hex(bs)) == Some(bs)
  {
    if bs != [] {
      var s := Hex(bs);
      assert s[2..] == Hex(bs[1..]);
      DigitValueOfHexDigit(bs[0] / 16);
      DigitValueOfHexDigit(bs[0] % 16);
      HexRoundTrip(bs[1..]);
      assert [bs[0] / 16 * 16 + bs[0] % 16] + bs[1..] == bs;
    }
  }

  lemma HexInjective(a: Bytes, b: Bytes)
    requires Hex(a) == Hex(b)
    ensures a == b
  {
    HexRoundTrip(a);
    HexRoundTrip(b);
  }

  // ---------------------------------------------------------------------
  // `fmt.Sprintf("%x", n)` for a non-negative integer

  /** Lowercase hexadecimal numeral without leading zeros ("0" for zero). */
  function HexNumeral(n: nat): (s: string)
    ensures |s| >= 1 && IsAscii(s)
    decreases n
  {
    if n < 16 then [HexDigit(n)] else HexNumeral(n / 16) + [HexDigit(n % 16)]
  }

  /** Reads a numeral back, most significant digit first. */
  function ParseHexNumeral(s: string): Option<nat>
  {
    if s == [] then Some(0)
    else
      match (ParseHexNumeral(s[..|s| - 1]), DigitValue(s[|s| - 1]))
      case (Some(high), Some(d)) => Some(high * 16 + d)
      case _ => None
  }

  lemma {:induction false} HexNumeralRoundTrip(n: nat)
    ensures ParseHexNumeral(HexNumeral(n)) == Some(n)
    decreases n
  {
    var s := HexNumeral(n);
    if n < 16 {
      assert s[..|s| - 1] == [];
      DigitValueOfHexDigit(n);
    } else {
      assert s[..|s| - 1] == HexNumeral(n / 16);
      HexNumeralRoundTrip(n / 16);
      DigitValueOfHexDigit(n % 16);
    }
  }

  /** Distinct nonces are printed as distinct numerals. */
  lemma HexNumeralInjective(m: nat, n: nat)
    requires HexNumeral(m) == HexNumeral(n)
    ensures m == n
  {
    HexNumeralRoundTrip(m);
    HexNumeralRoundTrip(n);
  }

  // ---------------------------------------------------------------------
  // Bytewise order of `bytes.Compare`, the key order of the storage bucket

  /** `bytes.Compare(a, b) < 0`. */
  predicate Below(a: Bytes, b: Bytes) {
    if a == [] then b != []
    else if b == [] then false
    else if a[0] != b[0] then a[0] < b[0]
    else Below(a[1..], b[1..])
  }

  lemma {:induction false} BelowIrreflexive(a: Bytes)
    ensures !Below(a, a)
  {
    if a != [] {
      BelowIrreflexive(a[1..]);
    }
  }

  lemma {:induction false} BelowTotal(a: Bytes, b: Bytes)
    ensures a == b || Below(a, b) || Below(b, a)
  {
    if a != [] && b != [] && a[0] == b[0] {
      BelowTotal(a[1..], b[1..]);
      if a[1..] == b[1..] {
        assert a == [a[0]] + a[1..] && b == [b[0]] + b[1..];
      }
    }
  }

  lemma {:induction false} BelowAsymmetric(a: Bytes, b: Bytes)
    requires Below(a, b)
    ensures !Below(b, a)
  {
    if a != [] && b != [] && a[0] == b[0] {
      BelowAsymmetric(a[1..], b[1..]);
    }
  }

  lemma {:induction false} BelowTransitive(a: Bytes, b: Bytes, c: Bytes)
    requires Below(a, b) && Below(b, c)
    ensures Below(a, c)
  {
    if a != [] && a[0] == b[0] && b[0] == c[0] {
      BelowTransitive(a[1..], b[1..], c[1..]);
    }
  }

  // ---------------------------------------------------------------------

  /** `new(big.Int).SetBytes(bs)`: the unsigned big-endian value of a byte string. */
  function BigEndian(bs: Bytes): nat
  {
    if bs == [] then 0 else BigEndian(bs[..|bs| - 1]) * 256 + bs[|bs| - 1]
  }

  /** 256 to the power `k`: one more than the largest number `k` bytes hold. */
  function Pow256(k: nat): nat {
    if k == 0 then 1 else 256 * Pow256(k - 1)
  }

  /** A byte string of length `k` holds a number below 256^k. */
  lemma {:induction false} BigEndianBelow(bs: Bytes)
    ensures BigEndian(bs) < Pow256(|bs|)
  {
    if bs != [] {
      BigEndianBelow(bs[..|bs| - 1]);
    }
  }

  /** A byte string with a non-zero first byte holds at least 256^(k-1). */
  lemma {:induction false} BigEndianLeadingByte(bs: Bytes)
    requires bs != [] && bs[0] != 0
    ensures BigEndian(bs) >= Pow256(|bs| - 1)
  {
    if |bs| > 1 {
      BigEndianLeadingByte(bs[..|bs| - 1]);
    }
  }

  /** Reading a concatenation shifts the first part left by the length of the second. */
  lemma {:induction false} BigEndianAppend(a: Bytes, b: Bytes)
    ensures BigEndian(a + b) == BigEndian(a) * Pow256(|b|) + BigEndian(b)
    decreases |b|
  {
    if b == [] {
      assert a + b == a;
    } else {
      var b' := b[..|b| - 1];
      assert (a + b)[..|a + b| - 1] == a + b';
      BigEndianAppend(a, b');
      ShiftByte(BigEndian(a), Pow256(|b'|), BigEndian(b'), b[|b| - 1]);
    }
  }

  lemma ShiftByte(x: nat, p: nat, y: nat, z: nat)
    ensures (x * p + y) * 256 + z == x * (256 * p) + (y * 256 + z)
  {
  }

  /** Powers of 256 grow with the exponent. */
  lemma {:induction false} Pow256Monotone(j: nat, k: nat)
    requires j <= k
    ensures Pow256(j) <= Pow256(k)
    decreases k
  {
    if j < k {
      Pow256Monotone(j, k - 1);
    }
  }

  /**
    `big.Int.Bytes()`: the minimal big-endian encoding of a number, with no
    leading zero byte; zero encodes as the empty string.
  */
  function MinimalBytes(n: nat): Bytes
    decreases n
  {
    if n == 0 then [] else MinimalBytes(n / 256) + [n % 256]
  }

  /** The minimal encoding reads back as the number and has no leading zero byte. */
  lemma {:induction false} MinimalBytesReadsBack(n: nat)
    ensures BigEndian(MinimalBytes(n)) == n
    ensures MinimalBytes(n) == [] || MinimalBytes(n)[0] != 0
    decreases n
  {
    if n > 0 {
      MinimalBytesReadsBack(n / 256);
      var r := MinimalBytes(n);
      assert r[..|r| - 1] == MinimalBytes(n / 256);
    }
  }

  /** The big-endian encoding of a number below 256^width in exactly `width` bytes, zero-padded on the left. */
  function FixedBytes(n: nat, width: nat): (r: Bytes)
    requires n < Pow256(width)
    ensures |r| == width && BigEndian(r) == n
    decreases width
  {
    if width == 0 then []
    else
      var r := FixedBytes(n / 256, width - 1) + [n % 256];
      assert r[..|r| - 1] == FixedBytes(n / 256, width - 1);
      r
  }
}
