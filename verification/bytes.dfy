/** Bytes, fixed-width integers and big-endian encodings. */
module Bytes {

  type byte = x: int | 0 <= x < 256

  const TWO_TO_31: nat := 0x8000_0000
  const TWO_TO_32: nat := 0x1_0000_0000
  const TWO_TO_63: nat := 0x8000_0000_0000_0000
  const TWO_TO_64: nat := 0x1_0000_0000_0000_0000

  /** Values of Go's `int` / `int64` on a 64-bit platform. */
  predicate InInt64(x: int) {
    -(TWO_TO_63 as int) <= x < TWO_TO_63
  }

  const MAX_INT64: int := TWO_TO_63 - 1

  /** Go's `int` on a 64-bit platform, and `int64`. */
  type int64 = x: int | InInt64(x)

  /** Go's integer division, which truncates toward zero. */
  function GoDiv(a: int, b: int): (q: int)
    requires b != 0
    ensures a >= 0 && b > 0 ==> q == a / b
  {
    var m := (if a < 0 then -a else a) / (if b < 0 then -b else b);
    if (a < 0) != (b < 0) then -m else m
  }

  /** Go's `%`: the remainder of truncating division, which takes the sign of the dividend. */
  function GoRem(a: int, b: int): (r: int)
    requires b != 0
    ensures a == b * GoDiv(a, b) + r
    ensures a >= 0 ==> 0 <= r < (if b < 0 then -b else b)
    ensures a < 0 ==> -(if b < 0 then -b else b) < r <= 0
  {
    var m := (if a < 0 then -a else a) % (if b < 0 then -b else b);
    if a < 0 then -m else m
  }

  /** Go's conversion of a signed 64-bit value to `uint64` (two's complement reinterpretation). */
  function ToUint64(x: int64): (r: nat)
    ensures r < TWO_TO_64
    ensures r % TWO_TO_64 == x % TWO_TO_64
    ensures x >= 0 ==> r == x
    ensures x < 0 ==> r == x + TWO_TO_64 >= TWO_TO_63
  {
    assert InInt64(x);
    if x < 0 then x + TWO_TO_64 else x
  }

  /** Go's wrap-around of a mathematical integer into `int64`. */
  function WrapInt64(x: int): (r: int)
    ensures InInt64(r)
    ensures InInt64(x) ==> r == x
    ensures x == TWO_TO_63 ==> r == -(TWO_TO_63 as int)
  {
    (x + TWO_TO_63) % TWO_TO_64 - TWO_TO_63
  }

  function Pow256(n: nat): (r: nat)
    ensures r >= 1
  {
    if n == 0 then 1 else 256 * Pow256(n - 1)
  }

  /** The `n` low bytes of `x`, most significant first (Go's binary.BigEndian.PutUintN). */
  function BigEndian(x: nat, n: nat): (r: seq<byte>)
    ensures |r| == n
  {
    if n == 0 then [] else BigEndian(x / 256, n - 1) + [x % 256]
  }

  /** The unsigned integer a big-endian byte string denotes (Go's binary.BigEndian.UintN). */
  function BigEndianValue(s: seq<byte>): (v: nat)
    ensures v < Pow256(|s|)
  {
    if |s| == 0 then 0 else BigEndianValue(s[..|s| - 1]) * 256 + s[|s| - 1]
  }

  /** Decoding a big-endian encoding gives back every value that fits in its width. */
  lemma {:induction false} BigEndianRoundTrip(x: nat, n: nat)
    requires x < Pow256(n)
    ensures BigEndianValue(BigEndian(x, n)) == x
  {
    if n > 0 {
      var q, r := x / 256, x % 256;
      var p := Pow256(n - 1);
      assert x == q * 256 + r;
      assert q < p;
      var s := BigEndian(x, n);
      assert s == BigEndian(q, n - 1) + [r];
      assert s[..n - 1] == BigEndian(q, n - 1);
      BigEndianRoundTrip(q, n - 1);
      assert BigEndianValue(s) == BigEndianValue(s[..n - 1]) * 256 + s[n - 1];
    }
  }

  /** Encoding the value of a byte string reproduces the string. */
  lemma {:induction false} BigEndianOfValue(s: seq<byte>)
    ensures BigEndian(BigEndianValue(s), |s|) == s
  {
    if |s| > 0 {
      var v := BigEndianValue(s);
      var init := s[..|s| - 1];
      assert v / 256 == BigEndianValue(init);
      assert v % 256 == s[|s| - 1];
      BigEndianOfValue(init);
      assert s == init + [s[|s| - 1]];
    }
  }
}
