/** Byte-level encodings the core relies on: Go's 64-bit integers, the big-endian
    reading of a digest (`big.Int.SetBytes`), the fixed-width integer encoding
    `utils.IntToHex`, decimal formatting (`strconv.FormatInt(n, 10)`) and base16
    decoding (`hex.DecodeString`). */
module Encoding {
  import opened Wrappers

  newtype byte = x: int | 0 <= x < 256

  /** Go's int64, and Go's int on a 64-bit platform. */
  newtype int64 = x: int | -0x8000_0000_0000_0000 <= x < 0x8000_0000_0000_0000

  const MaxInt64: int64 := 0x7FFF_FFFF_FFFF_FFFF
  const TwoTo63: nat := 0x8000_0000_0000_0000
  const TwoTo64: nat := 0x1_0000_0000_0000_0000

  /** A SHA-256 digest: `[32]byte`. */
  type Digest = s: seq<byte> | |s| == 32 witness seq(32, _ => 0)

  function Pow2(k: nat): (r: nat)
    ensures r > 0
  {
    if k == 0 then 1 else 2 * Pow2(k - 1)
  }

  function Pow256(k: nat): (r: nat)
    ensures r > 0
  {
    if k == 0 then 1 else 256 * Pow256(k - 1)
  }

  lemma {:induction false} Pow2Add(a: nat, b: nat)
    ensures Pow2(a + b) == Pow2(a) * Pow2(b)
  {
    if a > 0 {
      Pow2Add(a - 1, b);
      assert Pow2(a + b) == 2 * Pow2(a - 1 + b);
    }
  }

  /** Eight bits make a byte: 2^(8k) == 256^k. */
  lemma {:induction false} Pow2Bytes(k: nat)
    ensures Pow2(8 * k) == Pow256(k)
  {
    if k > 0 {
      Pow2Bytes(k - 1);
      Pow2Add(8, 8 * (k - 1));
      assert Pow2(8) == 256 by {
        assert Pow2(4) == 16;
      }
      assert 8 * k == 8 + 8 * (k - 1);
    }
  }

  lemma Pow256Eight()
    ensures Pow256(8) == TwoTo64
  {
    assert Pow256(4) == 0x1_0000_0000;
  }

  /** Unsigned big-endian value of a byte string, as `big.Int.SetBytes` reads it. */
  function BigEndian(s: seq<byte>): nat {
    if s == [] then 0 else BigEndian(s[..|s| - 1]) * 256 + s[|s| - 1] as nat
  }

  /** A k-byte string holds a value below 256^k. */
  lemma {:induction false} BigEndianBound(s: seq<byte>)
    ensures BigEndian(s) < Pow256(|s|)
  {
    if s != [] {
      BigEndianBound(s[..|s| - 1]);
      var h := BigEndian(s[..|s| - 1]);
      assert h * 256 <= (Pow256(|s| - 1) - 1) * 256;
    }
  }

  /** The value of a concatenation: the high part shifted past the low part. */
  lemma {:induction false} BigEndianAppend(a: seq<byte>, b: seq<byte>)
    ensures BigEndian(a + b) == BigEndian(a) * Pow256(|b|) + BigEndian(b)
  {
    if b == [] {
      assert a + b == a;
    } else {
      var b' := b[..|b| - 1];
      assert (a + b)[..|a + b| - 1] == a + b';
      BigEndianAppend(a, b');
      var x := b[|b| - 1] as nat;
      assert BigEndian(a + b) == BigEndian(a + b') * 256 + x;
      assert BigEndian(b) == BigEndian(b') * 256 + x;
      Regroup(BigEndian(a), Pow256(|b'|), BigEndian(b'), x);
    }
  }

  lemma Regroup(h: int, p: int, l: int, x: int)
    ensures (h * p + l) * 256 + x == h * (p * 256) + (l * 256 + x)
  {
  }

  /** The `len`-byte big-endian encoding of `v`. */
  function ToBigEndian(v: nat, len: nat): (r: seq<byte>)
    requires v < Pow256(len)
    ensures |r| == len && BigEndian(r) == v
  {
    if len == 0 then []
    else
      var prefix := ToBigEndian(v / 256, len - 1);
      assert (prefix + [(v % 256) as byte])[..len - 1] == prefix;
      prefix + [(v % 256) as byte]
  }

  /** Two's-complement reading of an 8-byte big-endian string. */
  function Int64FromBytes(s: seq<byte>): int64
    requires |s| == 8
  {
    Pow256Eight();
    BigEndianBound(s);
    var v := BigEndian(s);
    if v < TwoTo63 then v as int64 else (v - TwoTo64) as int64
  }

  /** `utils.IntToHex`: the 8-byte big-endian two's-complement encoding of an int64
      (the name notwithstanding, no hexadecimal digits are produced). */
  function IntToHex(n: int64): (r: seq<byte>)
    ensures |r| == 8 && Int64FromBytes(r) == n
  {
    Pow256Eight();
    ToBigEndian(if n >= 0 then n as nat else (n as int + TwoTo64) as nat, 8)
  }

  /** Different integers have different encodings. */
  lemma IntToHexInjective(m: int64, n: int64)
    requires m != n
    ensures IntToHex(m) != IntToHex(n)
  {
    assert Int64FromBytes(IntToHex(m)) != Int64FromBytes(IntToHex(n));
  }

  // ---- decimal formatting, strconv.FormatInt(n, 10) ----

  const Zero: byte := 0x30
  const Minus: byte := 0x2D

  predicate IsDigit(b: byte) {
    Zero <= b <= Zero + 9
  }

  /** The value of a string of ASCII decimal digits. */
  function ParseDigits(s: seq<byte>): int {
    if s == [] then 0 else ParseDigits(s[..|s| - 1]) * 10 + (s[|s| - 1] as int - Zero as int)
  }

  /** The shortest decimal spelling of `n`. */
  function Digits(n: nat): (r: seq<byte>)
    ensures |r| > 0 && forall i :: 0 <= i < |r| ==> IsDigit(r[i])
    ensures ParseDigits(r) == n
    ensures |r| > 1 ==> r[0] != Zero
  {
    if n < 10 then [Zero + n as byte]
    else
      var high := Digits(n / 10);
      assert (high + [Zero + (n % 10) as byte])[..|high|] == high;
      high + [Zero + (n % 10) as byte]
  }

  /** `strconv.FormatInt(n, 10)`: a minus sign for negative numbers, then the digits of |n|. */
  function FormatInt(n: int): (r: seq<byte>)
    ensures |r| > 0 && (r[0] == Minus <==> n < 0)
    ensures n < 0 ==> |r| > 1 && ParseDigits(r[1..]) == -n
    ensures n >= 0 ==> ParseDigits(r) == n
    ensures var start := if n < 0 then 1 else 0;
            && start < |r|
            && (forall i :: start <= i < |r| ==> IsDigit(r[i]))
            && (|r| > start + 1 ==> r[start] != Zero)
  {
    if n < 0 then [Minus] + Digits(-n) else Digits(n)
  }

  // ---- base16, hex.DecodeString / hex.EncodeToString (section 8 of RFC 4648) ----

  /** The value of one hexadecimal digit; either case is accepted. */
  function HexDigitValue(c: char): (r: Option<byte>)
    ensures r.Some? ==> r.value < 16
  {
    if '0' <= c <= '9' then Some((c as int - '0' as int) as byte)
    else if 'a' <= c <= 'f' then Some((c as int - 'a' as int + 10) as byte)
    else if 'A' <= c <= 'F' then Some((c as int - 'A' as int + 10) as byte)
    else None
  }

  /** `hex.DecodeString`: `None` for an odd length or a character that is not a
      hexadecimal digit, the case in which the Go function returns an error. */
  function DecodeHex(s: string): (r: Option<seq<byte>>)
    ensures r.Some? ==> |s| == 2 * |r.value|
    decreases |s|
  {
    if |s| == 0 then Some([])
    else if |s| == 1 then None
    else
      match (HexDigitValue(s[0]), HexDigitValue(s[1]), DecodeHex(s[2..]))
      case (Some(hi), Some(lo), Some(rest)) => Some([(hi as int * 16 + lo as int) as byte] + rest)
      case _ => None
  }

  /** Decoding succeeds exactly on strings of even length made of hexadecimal digits. */
  lemma {:induction false} DecodeHexSucceedsIff(s: string)
    ensures DecodeHex(s).Some? <==> |s| % 2 == 0 && forall i :: 0 <= i < |s| ==> HexDigitValue(s[i]).Some?
    decreases |s|
  {
    if |s| >= 2 {
      DecodeHexSucceedsIff(s[2..]);
      assert forall i :: 2 <= i < |s| ==> s[2..][i - 2] == s[i];
    }
  }

  /** One step of decoding: a valid digit pair in front of a decodable string. */
  lemma DecodeHexCons(c0: char, c1: char, t: string)
    requires HexDigitValue(c0).Some? && HexDigitValue(c1).Some? && DecodeHex(t).Some?
    ensures DecodeHex([c0, c1] + t)
         == Some([(HexDigitValue(c0).value as int * 16 + HexDigitValue(c1).value as int) as byte] + DecodeHex(t).value)
  {
    var s := [c0, c1] + t;
    assert s[0] == c0 && s[1] == c1 && s[2..] == t;
  }

  /** Byte `i` of a decoded string is the value of the digit pair at positions 2i and
      2i + 1, high nibble first. */
  lemma {:induction false} DecodeHexAt(s: string, i: nat)
    requires DecodeHex(s).Some? && i < |DecodeHex(s).value|
    ensures && HexDigitValue(s[2 * i]).Some? && HexDigitValue(s[2 * i + 1]).Some?
            && DecodeHex(s).value[i] as int
               == HexDigitValue(s[2 * i]).value as int * 16 + HexDigitValue(s[2 * i + 1]).value as int
  {
    var t := s[2..];
    if i > 0 {
      DecodeHexAt(t, i - 1);
      assert s[2 * i] == t[2 * (i - 1)] && s[2 * i + 1] == t[2 * (i - 1) + 1];
      assert DecodeHex(s).value[i] == DecodeHex(t).value[i - 1];
    }
  }

  /** All bytes at once. */
  lemma DecodeHexValues(s: string)
    requires DecodeHex(s).Some?
    ensures forall i :: 0 <= i < |DecodeHex(s).value| ==>
              && HexDigitValue(s[2 * i]).Some? && HexDigitValue(s[2 * i + 1]).Some?
              && DecodeHex(s).value[i] as int
                 == HexDigitValue(s[2 * i]).value as int * 16 + HexDigitValue(s[2 * i + 1]).value as int
  {
    forall i | 0 <= i < |DecodeHex(s).value|
      ensures && HexDigitValue(s[2 * i]).Some? && HexDigitValue(s[2 * i + 1]).Some?
              && DecodeHex(s).value[i] as int
                 == HexDigitValue(s[2 * i]).value as int * 16 + HexDigitValue(s[2 * i + 1]).value as int
    {
      DecodeHexAt(s, i);
    }
  }

  const HexAlphabet: string := "0123456789abcdef"

  /** `hex.EncodeToString`: two lower-case digits per byte, high nibble first. */
  function EncodeHex(b: seq<byte>): (s: string)
    ensures |s| == 2 * |b|
  {
    if b == [] then ""
    else [HexAlphabet[b[0] as int / 16], HexAlphabet[b[0] as int % 16]] + EncodeHex(b[1..])
  }

  lemma HexAlphabetValues(d: int)
    requires 0 <= d < 16
    ensures HexDigitValue(HexAlphabet[d]) == Some(d as byte)
  {
  }

  /** Decoding undoes encoding, so a transaction id survives the round trip
      through the string keys of the spendable-output map. */
  lemma {:induction false} DecodeEncodeHex(b: seq<byte>)
    ensures DecodeHex(EncodeHex(b)) == Some(b)
  {
    if b != [] {
      var hi, lo := b[0] as int / 16, b[0] as int % 16;
      var c0, c1, t := HexAlphabet[hi], HexAlphabet[lo], EncodeHex(b[1..]);
      assert EncodeHex(b) == [c0, c1] + t;
      DecodeEncodeHex(b[1..]);
      HexAlphabetValues(hi);
      HexAlphabetValues(lo);
      DecodeHexCons(c0, c1, t);
      assert (hi * 16 + lo) as byte == b[0];
      assert [b[0]] + b[1..] == b;
    }
  }

}
