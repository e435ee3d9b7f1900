/** Decimal digits: Go's strconv.Itoa / strconv.Atoi and the zero padding of fmt's `%0Nd`. */
module Decimal {
  import opened Wrappers
  import opened Bytes
  import Text
  import Arith

  predicate IsDigit(c: char) { '0' <= c <= '9' }

  predicate AllDigits(s: string) {
    forall i :: 0 <= i < |s| ==> IsDigit(s[i])
  }

  function DigitValue(c: char): (d: nat)
    requires IsDigit(c)
    ensures d < 10
  {
    c as int - '0' as int
  }

  function DigitChar(d: nat): (c: char)
    requires d < 10
    ensures IsDigit(c) && DigitValue(c) == d
  {
    ('0' as int + d) as char
  }

  function Pow10(n: nat): (r: nat)
    ensures r >= 1
  {
    if n == 0 then 1 else 10 * Pow10(n - 1)
  }

  /** The number a string of decimal digits denotes, most significant digit first. */
  function Value(s: string): (v: nat)
    requires AllDigits(s)
    ensures v < Pow10(|s|)
  {
    if |s| == 0 then 0 else Value(s[..|s| - 1]) * 10 + DigitValue(s[|s| - 1])
  }

  /** The canonical decimal spelling of a natural number: no leading zero except for 0 itself. */
  function NatToString(n: nat): (s: string)
    ensures |s| >= 1 && AllDigits(s)
    ensures Value(s) == n
    ensures s[0] == '0' <==> n == 0
    ensures n == 0 ==> s == "0"
  {
    if n < 10 then [DigitChar(n)]
    else
      var init := NatToString(n / 10);
      var s := init + [DigitChar(n % 10)];
      assert s[..|s| - 1] == init;
      s
  }

  /** A number below 10^k is spelled with at most k digits. */
  lemma {:induction false} NatToStringLength(n: nat, k: nat)
    requires 1 <= k && n < Pow10(k)
    ensures |NatToString(n)| <= k
  {
    if n >= 10 {
      NatToStringLength(n / 10, k - 1);
    }
  }

  /** strconv.Itoa. */
  function Itoa(n: int): (s: string)
    ensures |s| >= 1
  {
    if n < 0 then "-" + NatToString(-n) else NatToString(n)
  }

  /** strconv.Atoi: an optional sign and at least one decimal digit, whose value must fit in int64. */
  function Atoi(s: string): (r: Option<int>)
    ensures r.Some? ==> InInt64(r.value)
    ensures r.Some? ==> |s| >= 1
  {
    var signed := |s| > 0 && (s[0] == '+' || s[0] == '-');
    var digits := if signed then s[1..] else s;
    if |digits| == 0 || !AllDigits(digits) then None
    else
      var v: int := if signed && s[0] == '-' then -(Value(digits) as int) else Value(digits);
      if InInt64(v) then Some(v) else None
  }

  /** Atoi reads back what Itoa writes, for every int64. */
  lemma AtoiItoa(n: int)
    requires InInt64(n)
    ensures Atoi(Itoa(n)) == Some(n)
  {
    var s := Itoa(n);
    if n < 0 {
      assert s[1..] == NatToString(-n);
    }
  }

  /** Atoi rejects every string that is not a signed run of digits. */
  lemma AtoiRejectsNonNumeric(s: string)
    requires |s| == 0 || !(IsDigit(s[0]) || s[0] == '+' || s[0] == '-')
    ensures Atoi(s) == None
  {
  }

  /** The first run of decimal digits of `s`. */
  function LeadingDigits(s: string): (p: string)
    ensures |p| <= |s| && p == s[..|p|]
    ensures AllDigits(p)
    ensures |p| < |s| ==> !IsDigit(s[|p|])
  {
    if |s| > 0 && IsDigit(s[0]) then [s[0]] + LeadingDigits(s[1..]) else ""
  }

  /** fmt's `%0Nd` of a non-negative value: its digits, left-padded with '0' up to `width`. */
  function ZeroPad(n: nat, width: nat): (s: string)
    ensures AllDigits(s) && Value(s) == n
    ensures |s| == if |NatToString(n)| < width then width else |NatToString(n)|
  {
    var digits := NatToString(n);
    if |digits| < width then
      var s := Text.Repeat('0', width - |digits|) + digits;
      ValueLeadingZeros(width - |digits|, digits);
      s
    else digits
  }

  /** Leading zeros do not change a decimal value. */
  lemma {:induction false} ValueLeadingZeros(k: nat, s: string)
    requires AllDigits(s)
    ensures AllDigits(Text.Repeat('0', k) + s)
    ensures Value(Text.Repeat('0', k) + s) == Value(s)
  {
    var t := Text.Repeat('0', k) + s;
    if |s| == 0 {
      assert t == Text.Repeat('0', k);
      ZerosValue(k);
    } else {
      var init := s[..|s| - 1];
      ValueLeadingZeros(k, init);
      assert t[..|t| - 1] == Text.Repeat('0', k) + init;
    }
  }

  lemma {:induction false} ZerosValue(k: nat)
    ensures AllDigits(Text.Repeat('0', k))
    ensures Value(Text.Repeat('0', k)) == 0
  {
    if k > 0 {
      var z := Text.Repeat('0', k);
      assert z[..k - 1] == Text.Repeat('0', k - 1);
      ZerosValue(k - 1);
    }
  }

  // ---------------------------------------------------------------------------
  // fmt's reading of a width from a format string.

  /** fmt's tooLarge: a number being read that exceeds this bound is abandoned. */
  const FMT_NUM_MAX: nat := 1_000_000

  /** The smallest width that fmt's parsenum gives up on (see ParseWidth). */
  const FMT_WIDTH_LIMIT: nat := 10_000_010

  /**
   * fmt's parsenum over the digits s[k..], `num` being the value read so far: before each further
   * digit it gives up (None) when `num` already exceeds FMT_NUM_MAX.
   */
  function ParseNum(s: string, k: nat, num: nat): (r: Option<nat>)
    requires k <= |s| && AllDigits(s)
    decreases |s| - k
  {
    if k == |s| then Some(num)
    else if num > FMT_NUM_MAX then None
    else ParseNum(s, k + 1, num * 10 + DigitValue(s[k]))
  }

  /** One more digit of a prefix multiplies its value by ten and adds the digit. */
  lemma ValueStep(s: string, k: nat)
    requires AllDigits(s) && k < |s|
    ensures Value(s[..k + 1]) == Value(s[..k]) * 10 + DigitValue(s[k])
  {
    assert s[..k + 1][..k] == s[..k];
  }

  /** A longer prefix of a digit string has a value at least as large. */
  lemma {:induction false} PrefixValueMono(s: string, j: nat, m: nat)
    requires AllDigits(s) && j <= m <= |s|
    ensures Value(s[..j]) <= Value(s[..m])
    decreases m - j
  {
    if j < m {
      PrefixValueMono(s, j, m - 1);
      ValueStep(s, m - 1);
    }
  }

  /**
   * Reading on from a prefix: parsenum gives up exactly when the value of all digits but the last
   * exceeds the bound, and otherwise reads the whole number.
   */
  lemma {:induction false} ParseNumFrom(s: string, k: nat)
    requires AllDigits(s) && k < |s|
    ensures ParseNum(s, k, Value(s[..k])) ==
      if Value(s[..|s| - 1]) > FMT_NUM_MAX then None else Some(Value(s))
    decreases |s| - k
  {
    PrefixValueMono(s, k, |s| - 1);
    if Value(s[..k]) <= FMT_NUM_MAX {
      ValueStep(s, k);
      if k + 1 == |s| {
        assert s[..k + 1] == s;
      } else {
        ParseNumFrom(s, k + 1);
      }
    }
  }

  /** fmt reads a width written in decimal back as itself, unless it is FMT_WIDTH_LIMIT or more. */
  lemma ParseWidth(w: nat)
    ensures ParseNum(NatToString(w), 0, 0) == if w >= FMT_WIDTH_LIMIT then None else Some(w)
  {
    var s := NatToString(w);
    assert s[..0] == "";
    ParseNumFrom(s, 0);
    var v := Value(s[..|s| - 1]);
    var d := DigitValue(s[|s| - 1]);
    assert s[..|s|] == s;
    assert w == v * 10 + d;
    Arith.DivModUnique(w, v, 10, d);
  }
}
