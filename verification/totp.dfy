/**
 * TOTP code generation (section 4 of RFC 6238) on top of HOTP's dynamic truncation
 * (section 5.3 of RFC 4226), as src/pkg/totp/totp.go computes it. HMAC itself (RFC 2104)
 * is an uninterpreted function whose only known property is the digest length.
 */
module Totp {
  import opened Wrappers
  import opened Bytes
  import Text
  import Decimal
  import Base32
  import Arith

  /** The hash functions the code can build HMAC on. */
  datatype HashAlg = SHA1 | SHA256 | SHA512

  function DigestSize(h: HashAlg): nat {
    match h
    case SHA1 => 20
    case SHA256 => 32
    case SHA512 => 64
  }

  /** HMAC over a hash function, keyed by the secret and applied to a message. */
  type Mac = (HashAlg, seq<byte>, seq<byte>) -> seq<byte>

  /** The one property of HMAC the model relies on: the digest length of the hash. */
  ghost predicate ValidMac(hmac: Mac) {
    forall h, key, msg :: |hmac(h, key, msg)| == DigestSize(h)
  }

  /** The decoder's error (Go's base32.CorruptInputError). */
  datatype GenerateError = CorruptSecret

  // ---------------------------------------------------------------------------
  // The steps of Generate.

  /**
   * The secret as it is handed to the Base32 decoder: trimmed, upper-cased, and padded with '='
   * to a multiple of eight UTF-8 bytes.
   */
  function NormalizeSecret(secret: string): (r: string)
    ensures var t := Text.ToUpper(Text.TrimSpace(secret));
      && |Text.Utf8(r)| % 8 == 0 && |Text.Utf8(t)| <= |Text.Utf8(r)| < |Text.Utf8(t)| + 8
      && |t| <= |r| && r[..|t|] == t
      && forall i :: |t| <= i < |r| ==> r[i] == Base32.PAD
  {
    Base32.Pad(Text.ToUpper(Text.TrimSpace(secret)))
  }

  /**
   * The time step: both operands are converted to uint64 before dividing, so a negative
   * timestamp or period is read as its two's complement.
   */
  function Counter(unix: int64, period: int64): (c: nat)
    requires period != 0
    ensures c < TWO_TO_64
    ensures unix >= 0 && period > 0 ==> c == unix / period
  {
    var u, d := ToUint64(unix), ToUint64(period);
    QuotientFits(u, d);
    u / d
  }

  /** A quotient of a uint64 by a positive divisor is again a uint64 and at most the dividend. */
  lemma QuotientFits(u: nat, d: nat)
    requires u < TWO_TO_64 && d >= 1
    ensures 0 <= u / d <= u < TWO_TO_64
  {
    Arith.DivLe(u, d);
  }

  /** The counter as the eight-byte big-endian message HMAC is applied to. */
  function CounterBytes(counter: nat): (m: seq<byte>)
    requires counter < TWO_TO_64
    ensures |m| == 8 && BigEndianValue(m) == counter
  {
    Pow256Eight();
    BigEndianRoundTrip(counter, 8);
    BigEndian(counter, 8)
  }

  lemma Pow256Eight()
    ensures Pow256(8) == TWO_TO_64
  {
    assert Pow256(4) == 0x1_0000_0000;
    assert Pow256(8) == Pow256(4) * Pow256(4) by {
      assert Pow256(8) == 256 * 256 * 256 * 256 * Pow256(4);
    }
  }

  /** The hash named by the algorithm, compared case-insensitively; anything unknown is SHA-1. */
  function SelectHash(algorithm: string): (h: HashAlg)
    ensures h == SHA256 <==> Text.ToUpper(algorithm) == "SHA256"
    ensures h == SHA512 <==> Text.ToUpper(algorithm) == "SHA512"
  {
    var name := Text.ToUpper(algorithm);
    if name == "SHA256" then SHA256
    else if name == "SHA512" then SHA512
    else SHA1
  }

  /** Dynamic truncation written as section 5.3 of RFC 4226 defines it, byte by byte. */
  function DynamicTruncation(sum: seq<byte>): nat
    requires |sum| >= 20
  {
    var offset := sum[|sum| - 1] % 16;
    (sum[offset] % 128) * 0x100_0000 + (sum[offset + 1] as nat) * 0x1_0000 + (sum[offset + 2] as nat) * 0x100 + sum[offset + 3]
  }

  /**
   * The source's truncation: the big-endian uint32 at the offset the low nibble of the last
   * byte names, masked to 31 bits. The slice must lie inside the digest.
   */
  function Truncate(sum: seq<byte>): (code: nat)
    requires |sum| > 0 && sum[|sum| - 1] % 16 + 4 <= |sum|
    ensures code < TWO_TO_31
    ensures |sum| >= 20 ==> code == DynamicTruncation(sum)
  {
    var offset := sum[|sum| - 1] % 16;
    var word := sum[offset..offset + 4];
    BigEndianFour(word);
    MaskHighBit(word[0], (word[1] as nat) * 0x1_0000 + (word[2] as nat) * 0x100 + word[3]);
    BigEndianValue(word) % TWO_TO_31
  }

  lemma BigEndianFour(w: seq<byte>)
    requires |w| == 4
    ensures BigEndianValue(w) == (w[0] as nat) * 0x100_0000 + (w[1] as nat) * 0x1_0000 + (w[2] as nat) * 0x100 + w[3]
  {
    assert w[..1][..0] == [] && w[..2][..1] == w[..1] && w[..3][..2] == w[..2] && w[..4][..3] == w[..3];
    assert BigEndianValue(w[..1]) == w[0];
    assert BigEndianValue(w[..2]) == (w[0] as nat) * 0x100 + w[1];
    assert BigEndianValue(w[..3]) == (w[0] as nat) * 0x1_0000 + (w[1] as nat) * 0x100 + w[2];
    assert w[..4] == w;
  }

  /** Masking with 0x7fffffff clears the top bit of the first byte only. */
  lemma MaskHighBit(hi: nat, lo: nat)
    requires hi < 256 && lo < 0x100_0000
    ensures (hi * 0x100_0000 + lo) % TWO_TO_31 == (hi % 128) * 0x100_0000 + lo
  {
    var q := hi / 128;
    var r := (hi % 128) * 0x100_0000 + lo;
    assert hi * 0x100_0000 + lo == q * TWO_TO_31 + r;
    assert 0 <= r < TWO_TO_31;
  }

  /** The modulus the source builds by multiplying a uint32 by ten `digits` times. */
  function Modulus(digits: int64): (m: nat)
    ensures m < TWO_TO_32
    ensures digits <= 0 ==> m == 1
  {
    if digits <= 0 then 1 else Uint32Pow10(digits)
  }

  /** 10^n as uint32 arithmetic computes it, wrapping at every step. */
  function Uint32Pow10(n: nat): (m: nat)
    ensures m < TWO_TO_32
    ensures m == Decimal.Pow10(n) % TWO_TO_32
  {
    if n == 0 then 1
    else
      var prev := Uint32Pow10(n - 1);
      Arith.MulMod(Decimal.Pow10(n - 1), 10, TWO_TO_32);
      (prev * 10) % TWO_TO_32
  }

  /** Up to nine digits the uint32 modulus is exact, and never zero. */
  lemma ModulusExact(digits: int64)
    ensures 1 <= digits <= 9 ==> Modulus(digits) == Decimal.Pow10(digits) && Modulus(digits) != 0
  {
    if 1 <= digits <= 9 {
      var p := Decimal.Pow10(digits);
      PowBound(digits);
      Arith.DivModUnique(p, 0, TWO_TO_32, p);
      assert Modulus(digits) == Uint32Pow10(digits as nat) == p % TWO_TO_32;
    }
  }

  /**
   * From ten digits on the wrapped modulus is no longer a power of ten: ten digits reduce the
   * code modulo 10^10 mod 2^32 = 1410065408, not modulo 10^10.
   */
  lemma TenDigitModulus()
    ensures Modulus(10) == 1_410_065_408 != Decimal.Pow10(10)
  {
    PowNine();
    var p := Decimal.Pow10(10);
    assert p == 10 * Decimal.Pow10(9) == 10_000_000_000;
    Arith.DivModUnique(p, 2, TWO_TO_32, 1_410_065_408);
    assert Modulus(10) == Uint32Pow10(10) == p % TWO_TO_32;
  }

  lemma FitsWidth(code: nat, width: nat)
    ensures 1 <= width && code < Decimal.Pow10(width) ==> |Decimal.NatToString(code)| <= width
  {
    if 1 <= width && code < Decimal.Pow10(width) {
      Decimal.NatToStringLength(code, width);
    }
  }

  lemma PowBound(n: nat)
    requires n <= 9
    ensures Decimal.Pow10(n) <= 1_000_000_000
  {
    PowGrows(n, 9);
    PowNine();
  }

  lemma PowNine()
    ensures Decimal.Pow10(9) == 1_000_000_000
  {
    assert Decimal.Pow10(3) == 1000;
    assert Decimal.Pow10(6) == 1000 * Decimal.Pow10(3);
    assert Decimal.Pow10(9) == 1000 * Decimal.Pow10(6);
  }

  /**
   * `fmt.Sprintf("%0<digits>d", code)`: zero padded to `digits` when it is positive. A zero
   * width prints the bare number; a negative one reads as the '-' flag, which left-justifies
   * with spaces (and then the code is always 0, since the modulus is 1). fmt reads that width
   * with parsenum: a width it gives up on leaves the format without a verb, and the code is
   * reported as an extra argument.
   */
  function Format(code: nat, digits: int64): (s: string)
    ensures digits >= 1 ==> Decimal.AllDigits(s) && Decimal.Value(s) == code
    ensures digits >= 1 && code < Decimal.Pow10(digits) ==> |s| == digits
    ensures digits <= 0 && -(digits as int) < Decimal.FMT_WIDTH_LIMIT ==>
      var t := Decimal.NatToString(code);
      && |s| == (if |t| < -(digits as int) then -(digits as int) else |t|)
      && s[..|t|] == t
      && forall i :: |t| <= i < |s| ==> s[i] == ' '
    ensures digits <= 0 && -(digits as int) >= Decimal.FMT_WIDTH_LIMIT ==> s == NoVerb(code)
  {
    if digits >= 1 then
      FitsWidth(code, digits);
      Decimal.ZeroPad(code, digits)
    else
      var text := Decimal.NatToString(code);
      var width := -(digits as int);
      Decimal.ParseWidth(width);
      match Decimal.ParseNum(Decimal.NatToString(width), 0, 0)
      case None => NoVerb(code)
      case Some(w) => if |text| < w then text + Text.Repeat(' ', w - |text|) else text
  }

  /** What fmt prints for a format without a verb and one uint32 argument left over. */
  function NoVerb(code: nat): string {
    "%!(NOVERB)%!(EXTRA uint32=" + Decimal.NatToString(code) + ")"
  }

  // ---------------------------------------------------------------------------
  // Generate and its reference.

  /** HOTP of section 5.3 of RFC 4226: truncation of the MAC of the counter, reduced to `digits` digits. */
  function Hotp(hmac: Mac, h: HashAlg, key: seq<byte>, counter: nat, digits: nat): nat
    requires ValidMac(hmac) && counter < TWO_TO_64
  {
    var sum := hmac(h, key, BigEndian(counter, 8));
    DynamicTruncation(sum) % Decimal.Pow10(digits)
  }

  /** The code before formatting: the truncated MAC of the counter, reduced by the uint32 modulus. */
  function Code(hmac: Mac, h: HashAlg, key: seq<byte>, counter: nat, digits: int64): (code: nat)
    requires ValidMac(hmac) && counter < TWO_TO_64 && Modulus(digits) != 0
    ensures code < TWO_TO_31
    ensures 1 <= digits <= 9 ==> code < Decimal.Pow10(digits) && code == Hotp(hmac, h, key, counter, digits)
    ensures digits >= 10 ==> code == DynamicTruncation(hmac(h, key, BigEndian(counter, 8))) % Modulus(digits)
    ensures digits <= 0 ==> code == 0
  {
    var sum := hmac(h, key, CounterBytes(counter));
    assert |sum| == DigestSize(h);
    ReduceCode(Truncate(sum), digits);
    Truncate(sum) % Modulus(digits)
  }

  lemma ReduceCode(t: nat, digits: int64)
    requires t < TWO_TO_31 && Modulus(digits) != 0
    ensures t % Modulus(digits) <= t
    ensures 1 <= digits <= 9 ==> t % Modulus(digits) == t % Decimal.Pow10(digits) < Decimal.Pow10(digits)
    ensures digits <= 0 ==> t % Modulus(digits) == 0
  {
    ModulusExact(digits);
    Arith.ModLe(t, Modulus(digits));
  }

  /**
   * totp.Generate. Go panics when `period` is zero or when the uint32 modulus wraps to zero
   * (32 or more digits); both are preconditions here.
   */
  function Generate(secret: string, unix: int64, digits: int64, period: int64, algorithm: string, hmac: Mac)
    : (r: Result<string, GenerateError>)
    requires ValidMac(hmac) && period != 0 && Modulus(digits) != 0
    ensures r.Failure? <==> Base32.DecodeString(NormalizeSecret(secret)).None?
    ensures r.Success? && digits >= 1 ==> |r.value| == digits && Decimal.AllDigits(r.value)
    ensures r.Success? && 1 <= digits <= 9 ==>
      var key := Base32.DecodeString(NormalizeSecret(secret)).value;
      Decimal.Value(r.value) == Hotp(hmac, SelectHash(algorithm), key, Counter(unix, period), digits)
    ensures r.Success? && digits >= 10 ==>
      var key := Base32.DecodeString(NormalizeSecret(secret)).value;
      var sum := hmac(SelectHash(algorithm), key, BigEndian(Counter(unix, period), 8));
      Decimal.Value(r.value) == DynamicTruncation(sum) % Modulus(digits)
    ensures r.Success? && digits <= 0 && -(digits as int) < Decimal.FMT_WIDTH_LIMIT ==>
      && |r.value| == (if digits < 0 then -(digits as int) else 1) && r.value[0] == '0'
      && forall i :: 1 <= i < |r.value| ==> r.value[i] == ' '
    ensures r.Success? && -(digits as int) >= Decimal.FMT_WIDTH_LIMIT ==>
      r.value == "%!(NOVERB)%!(EXTRA uint32=0)"
  {
    match Base32.DecodeString(NormalizeSecret(secret))
    case None => Failure(CorruptSecret)
    case Some(key) =>
      var code := Code(hmac, SelectHash(algorithm), key, Counter(unix, period), digits);
      GenerateShape(code, digits);
      if digits <= 0 then
        ZeroCodeShape(digits);
        Success(Format(code, digits))
      else
        Success(Format(code, digits))
  }

  /** With no digits requested the code is 0, written left-aligned in the width -digits. */
  lemma ZeroCodeShape(digits: int64)
    requires digits <= 0
    ensures -(digits as int) < Decimal.FMT_WIDTH_LIMIT ==>
      var s := Format(0, digits);
      && |s| == (if digits < 0 then -(digits as int) else 1) && s[0] == '0'
      && forall i :: 1 <= i < |s| ==> s[i] == ' '
    ensures -(digits as int) >= Decimal.FMT_WIDTH_LIMIT ==> Format(0, digits) == "%!(NOVERB)%!(EXTRA uint32=0)"
  {
    assert Decimal.NatToString(0) == "0";
  }

  lemma GenerateShape(code: nat, digits: int64)
    requires code < TWO_TO_31
    requires 1 <= digits <= 9 ==> code < Decimal.Pow10(digits)
    requires digits <= 0 ==> code == 0
    ensures digits >= 1 ==> |Format(code, digits)| == digits
    ensures digits <= 0 ==> Decimal.NatToString(code) == "0"
  {
    if digits >= 10 {
      PowGrows(10, digits);
      TenDigits(code);
    }
  }

  lemma TenDigits(code: nat)
    requires code < TWO_TO_31
    ensures code < Decimal.Pow10(10)
  {
    PowNine();
    assert Decimal.Pow10(10) == 10 * Decimal.Pow10(9);
  }

  lemma {:induction false} PowGrows(a: nat, b: nat)
    requires a <= b
    ensures Decimal.Pow10(a) <= Decimal.Pow10(b)
    decreases b
  {
    if a < b {
      PowGrows(a, b - 1);
    }
  }

  /** totp.RemainingSeconds with the clock reading as a parameter. */
  function RemainingSeconds(period: int64, now: int64): (r: int64)
    requires period != 0
    ensures period > 0 && now >= 0 ==> 1 <= r <= period
    ensures period > 0 && now >= 0 ==> (now + r) % period == 0 && (now + r) / period == now / period + 1
  {
    NextBoundary(period, now);
    assert period > 0 && now >= 0 ==> 0 <= GoRem(now, period) < period && InInt64(period);
    WrapInt64(period - GoRem(now, period))
  }

  lemma NextBoundary(period: int64, now: int64)
    requires period != 0
    ensures period > 0 && now >= 0 ==>
      var rem := GoRem(now, period);
      && 0 <= rem < period
      && (now + period - rem) % period == 0 && (now + period - rem) / period == now / period + 1
  {
    if period > 0 && now >= 0 {
      var rem := GoRem(now, period);
      var q := now / period;
      assert now == period * q + rem;
      assert now + period - rem == (q + 1) * period;
      Arith.MultipleOf(period, q + 1);
    }
  }

  // ---------------------------------------------------------------------------
  // Properties.

  /** The algorithm name is compared case-insensitively. */
  lemma SelectHashIgnoresCase(algorithm: string)
    ensures SelectHash(algorithm) == SelectHash(Text.ToUpper(algorithm))
  {
    Text.ToUpperFixes(algorithm);
    Text.ToUpperFixes(Text.ToUpper(algorithm));
  }

  /** Two instants in the same time step yield the same code. */
  lemma SameWindowSameCode(secret: string, t1: int64, t2: int64, digits: int64, period: int64, algorithm: string, hmac: Mac)
    requires ValidMac(hmac) && period > 0 && Modulus(digits) != 0
    requires 0 <= t1 && 0 <= t2 && t1 / period == t2 / period
    ensures Generate(secret, t1, digits, period, algorithm, hmac) == Generate(secret, t2, digits, period, algorithm, hmac)
  {
  }

  /**
   * The unpadded Base32 encoding the migration import stores is a valid secret: normalising
   * and decoding it gives back the raw secret bytes.
   */
  lemma NormalizedEncodingDecodes(b: seq<byte>)
    ensures Base32.DecodeString(NormalizeSecret(Base32.EncodeNoPad(b))) == Some(b)
  {
    var e := Base32.EncodeNoPad(b);
    SymbolsArePlain(e);
    Text.TrimSpaceNoSpace(e);
    Text.ToUpperFixes(e);
    assert NormalizeSecret(e) == Base32.Pad(e);
    Base32.DecodePadEncode(b);
  }

  /**
   * Padding counts bytes. Seven symbols, '=', seven newlines and a non-space character of three
   * UTF-8 bytes (such as '€') are 16 characters but 18 bytes, so six '=' are added. Once the newlines
   * are dropped, the first '=' has nine bytes after it, too many for padding, and decoding fails.
   */
  lemma MultiByteSecretRejected(v: seq<nat>, c: char)
    requires Base32.Quintets(v) && |v| == 7 && Text.RuneLen(c) == 3 && !Text.IsSpace(c)
    ensures var secret := Base32.Symbols(v) + [Base32.PAD] + Text.Repeat('\n', 7) + [c];
      && NormalizeSecret(secret) == secret + Text.Repeat(Base32.PAD, 6)
      && Base32.DecodeString(NormalizeSecret(secret)) == None
  {
    var head := Base32.Symbols(v) + [Base32.PAD] + Text.Repeat('\n', 7);
    var rest := Text.RuneBytes(c) + Text.Repeat(Base32.PAD, 6);
    SecretHeadPlain(v);
    MultiBytePadded(head, c);
    MultiByteStripped(v, c);
    Base32.PadWithDataAfter(v, rest);
  }

  /** The padded secret's bytes, once the newlines are dropped: '=' then nine more bytes. */
  lemma MultiByteStripped(v: seq<nat>, c: char)
    requires Base32.Quintets(v) && |v| == 7 && Text.RuneLen(c) == 3
    ensures var syms := Base32.Symbols(v) + [Base32.PAD];
      var pads := Text.Repeat(Base32.PAD, 6);
      Base32.StripNewlines(Text.Utf8(syms + Text.Repeat('\n', 7) + [c] + pads))
        == syms + (Text.RuneBytes(c) + pads)
  {
    var syms := Base32.Symbols(v) + [Base32.PAD];
    var nl := Text.Repeat('\n', 7);
    var rest := Text.RuneBytes(c) + Text.Repeat(Base32.PAD, 6);
    SecretHeadPlain(v);
    assert Text.IsAscii(Text.Repeat(Base32.PAD, 6));
    Text.Utf8AsciiAround(syms + nl, c, Text.Repeat(Base32.PAD, 6));
    assert syms + nl + Text.RuneBytes(c) + Text.Repeat(Base32.PAD, 6) == syms + nl + rest;
    assert forall k :: 0 <= k < |syms| ==> Base32.IsSymbol(syms[k]) || syms[k] == Base32.PAD;
    assert forall k :: 0 <= k < |rest| ==> rest[k] as int >= 0x80 || rest[k] == Base32.PAD;
    Base32.StripAround(syms, 7, rest);
  }

  /** Seven symbols, '=' and seven newlines: ASCII, starting with a symbol, nothing lower-case. */
  lemma SecretHeadPlain(v: seq<nat>)
    requires Base32.Quintets(v) && |v| == 7
    ensures var head := Base32.Symbols(v) + [Base32.PAD] + Text.Repeat('\n', 7);
      && Text.IsAscii(head) && |head| == 15 && !Text.IsSpace(head[0]) && Text.NoLower(head)
  {
    var head := Base32.Symbols(v) + [Base32.PAD] + Text.Repeat('\n', 7);
    forall k | 0 <= k < 15
      ensures head[k] as int < 0x80 && !Text.IsLower(head[k])
    {
      if k < 7 {
        assert head[k] == Base32.Symbols(v)[k];
      }
    }
  }

  lemma MultiBytePadded(head: string, c: char)
    requires Text.IsAscii(head) && |head| == 15 && Text.RuneLen(c) == 3 && !Text.IsSpace(c)
    requires !Text.IsSpace(head[0]) && Text.NoLower(head)
    ensures NormalizeSecret(head + [c]) == head + [c] + Text.Repeat(Base32.PAD, 6)
  {
    var s := head + [c];
    Text.Utf8AsciiAround(head, c, "");
    assert head + [c] + "" == s;
    assert !Text.IsSpace(s[|s| - 1]) && !Text.IsLower(s[|s| - 1]);
    assert forall k :: 0 <= k < |s| ==> !Text.IsLower(s[k]);
    NormalizeUntouched(s);
    Base32.PadCount(s, 18);
  }

  /** Text without surrounding spaces or lower-case letters is only padded. */
  lemma NormalizeUntouched(s: string)
    requires |s| > 0 && !Text.IsSpace(s[0]) && !Text.IsSpace(s[|s| - 1]) && Text.NoLower(s)
    ensures NormalizeSecret(s) == Base32.Pad(s)
  {
    Text.TrimSpaceKeepsInner(s);
    Text.ToUpperFixes(s);
  }

  /** Base32 symbols are neither spaces nor lower-case letters. */
  lemma SymbolsArePlain(e: string)
    requires forall i :: 0 <= i < |e| ==> Base32.IsSymbol(e[i])
    ensures Text.NoSpace(e) && Text.NoLower(e)
  {
  }

  /** A string that starts with t agrees with t before and at every position of t. */
  lemma PrefixAgrees(s: string, t: string, i: nat)
    requires |t| <= |s| && s[..|t|] == t && i < |t|
    ensures s[i] == t[i] && s[..i] == t[..i]
  {
    assert s[i] == s[..|t|][i];
    assert s[..i] == s[..|t|][..i];
  }

  /**
   * A secret that, once trimmed and upper-cased, holds a character outside the Base32 alphabet
   * before any '=' is rejected, e.g. "invalid!@#$".
   */
  lemma GenerateRejectsForeign(secret: string, i: nat, unix: int64, digits: int64, period: int64, algorithm: string, hmac: Mac)
    requires ValidMac(hmac) && period != 0 && Modulus(digits) != 0
    requires var t := Text.ToUpper(Text.TrimSpace(secret));
      && i < |t| && !Base32.IsSymbol(t[i]) && t[i] !in "=\r\n" && Base32.PAD !in t[..i]
    ensures Generate(secret, unix, digits, period, algorithm, hmac) == Failure(CorruptSecret)
  {
    var t := Text.ToUpper(Text.TrimSpace(secret));
    var s := NormalizeSecret(secret);
    PrefixAgrees(s, t, i);
    Base32.DecodeStringRejectsForeign(s, i);
  }
}
