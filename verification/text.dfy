/** The string operations of Go's `strings` package that the core relies on. */
module Text {
  import opened Wrappers

  /** Go's unicode.IsSpace: the Latin-1 spaces plus the Unicode White_Space property. */
  predicate IsSpace(c: char) {
    var n := c as int;
    || (0x09 <= n <= 0x0D) || n == 0x20 || n == 0x85 || n == 0xA0
    || n == 0x1680 || (0x2000 <= n <= 0x200A) || n == 0x2028 || n == 0x2029
    || n == 0x202F || n == 0x205F || n == 0x3000
  }

  predicate IsLower(c: char) { 'a' <= c <= 'z' }

  function UpperChar(c: char): (u: char)
    ensures !IsLower(u)
    ensures !IsLower(c) ==> u == c
  {
    if IsLower(c) then (c as int - 32) as char else c
  }

  /** strings.ToUpper restricted to ASCII letters. */
  function ToUpper(s: string): (r: string)
    ensures |r| == |s|
    ensures forall i :: 0 <= i < |s| ==> r[i] == UpperChar(s[i])
  {
    if |s| == 0 then [] else [UpperChar(s[0])] + ToUpper(s[1..])
  }

  predicate NoLower(s: string) {
    forall i :: 0 <= i < |s| ==> !IsLower(s[i])
  }

  /** Upper-casing leaves an upper-case string alone and always yields one. */
  lemma ToUpperFixes(s: string)
    ensures NoLower(ToUpper(s))
    ensures NoLower(s) ==> ToUpper(s) == s
  {
  }

  /** The end of the run of spaces that starts at i. */
  function SpacesFrom(s: string, i: nat): (n: nat)
    requires i <= |s|
    ensures i <= n <= |s|
    ensures forall k :: i <= k < n ==> IsSpace(s[k])
    ensures n < |s| ==> !IsSpace(s[n])
    decreases |s| - i
  {
    if i < |s| && IsSpace(s[i]) then SpacesFrom(s, i + 1) else i
  }

  /** The start of the run of spaces that ends at j, not going below lo. */
  function SpacesBefore(s: string, lo: nat, j: nat): (m: nat)
    requires lo <= j <= |s|
    ensures lo <= m <= j
    ensures forall k :: m <= k < j ==> IsSpace(s[k])
    ensures m > lo ==> !IsSpace(s[m - 1])
  {
    if j > lo && IsSpace(s[j - 1]) then SpacesBefore(s, lo, j - 1) else j
  }

  /** strings.TrimSpace: the longest infix that neither starts nor ends with a space. */
  function TrimSpace(s: string): (r: string)
    ensures var i := SpacesFrom(s, 0);
      && i + |r| <= |s| && r == s[i..i + |r|]
      && (forall k :: 0 <= k < i ==> IsSpace(s[k]))
      && (forall k :: i + |r| <= k < |s| ==> IsSpace(s[k]))
    ensures |r| > 0 ==> !IsSpace(r[0]) && !IsSpace(r[|r| - 1])
  {
    var i := SpacesFrom(s, 0);
    var j := SpacesBefore(s, i, |s|);
    s[i..j]
  }

  predicate NoSpace(s: string) {
    forall i :: 0 <= i < |s| ==> !IsSpace(s[i])
  }

  /** A string free of spaces is its own trimming. */
  lemma TrimSpaceNoSpace(s: string)
    requires NoSpace(s)
    ensures TrimSpace(s) == s
  {
    if |s| > 0 {
      assert !IsSpace(s[0]) && !IsSpace(s[|s| - 1]);
    }
  }

  /** Trimming only looks at the ends: text that neither starts nor ends with a space is kept. */
  lemma TrimSpaceKeepsInner(s: string)
    requires |s| > 0 && !IsSpace(s[0]) && !IsSpace(s[|s| - 1])
    ensures TrimSpace(s) == s
  {
  }

  /** The first position of `c` in `s` (strings.IndexByte). */
  function IndexOf(s: string, c: char): (r: Option<nat>)
    ensures r.None? <==> c !in s
    ensures r.Some? ==> r.value < |s| && s[r.value] == c && c !in s[..r.value]
  {
    if |s| == 0 then None
    else if s[0] == c then Some(0)
    else match IndexOf(s[1..], c)
      case None => None
      case Some(i) => assert s[1..][..i] == s[1..i + 1]; Some(i + 1)
  }

  /** strings.SplitN(s, sep, 2) for a separator that occurs: the parts around its first occurrence. */
  function SplitFirst(s: string, sep: char): (parts: (string, string))
    requires sep in s
    ensures s == parts.0 + [sep] + parts.1
    ensures sep !in parts.0
  {
    var i := IndexOf(s, sep).value;
    assert s == s[..i] + [sep] + s[i + 1..];
    (s[..i], s[i + 1..])
  }

  /** Splitting is determined by the separator-free prefix: the two parts are unique. */
  lemma SplitFirstUnique(a: string, b: string, sep: char)
    requires sep !in a
    ensures SplitFirst(a + [sep] + b, sep) == (a, b)
  {
    var s := a + [sep] + b;
    var p := SplitFirst(s, sep);
    var i := IndexOf(s, sep).value;
    assert forall k :: 0 <= k < |a| ==> s[k] == a[k];
    assert s[|a|] == sep;
    assert i == |a|;
    assert p.0 == s[..|a|] == a;
    assert p.1 == s[|a| + 1..] == b;
  }

  predicate HasPrefix(s: string, prefix: string) {
    |prefix| <= |s| && s[..|prefix|] == prefix
  }

  function Repeat(c: char, n: nat): (r: string)
    ensures |r| == n
    ensures forall i :: 0 <= i < n ==> r[i] == c
  {
    if n == 0 then [] else [c] + Repeat(c, n - 1)
  }

  function Count(s: string, c: char): (n: nat)
    ensures n <= |s|
  {
    if |s| == 0 then 0 else (if s[0] == c then 1 else 0) + Count(s[1..], c)
  }

  /** strings.Split(s, sep) for a one-character separator. */
  function Split(s: string, sep: char): (parts: seq<string>)
    ensures |parts| == Count(s, sep) + 1
    ensures forall k :: 0 <= k < |parts| ==> sep !in parts[k]
    ensures Join(parts, sep) == s
    decreases |s|
  {
    match IndexOf(s, sep)
    case None =>
      CountAbsent(s, sep);
      [s]
    case Some(i) =>
      var (head, tail) := SplitFirst(s, sep);
      assert s == head + ([sep] + tail);
      CountAppend(head, [sep] + tail, sep);
      CountAppend([sep], tail, sep);
      CountAbsent(head, sep);
      [head] + Split(tail, sep)
  }

  /** The inverse of Split: the parts with the separator between each neighbouring pair. */
  function Join(parts: seq<string>, sep: char): string
  {
    if |parts| == 0 then "" else if |parts| == 1 then parts[0]
    else parts[0] + [sep] + Join(parts[1..], sep)
  }

  lemma CountAbsent(s: string, c: char)
    requires c !in s
    ensures Count(s, c) == 0
  {
    if |s| > 0 {
      CountAbsent(s[1..], c);
    }
  }

  lemma {:induction false} CountAppend(a: string, b: string, c: char)
    ensures Count(a + b, c) == Count(a, c) + Count(b, c)
  {
    if |a| > 0 {
      assert (a + b)[1..] == a[1..] + b;
      CountAppend(a[1..], b, c);
    } else {
      assert a + b == b;
    }
  }

  // ---------------------------------------------------------------------------
  // Go strings are UTF-8 bytes: len(s) counts them, and []byte(s) hands them to byte-level
  // decoders. The model carries each byte as the char of the same value.

  predicate IsAscii(s: string) {
    forall i :: 0 <= i < |s| ==> s[i] as int < 0x80
  }

  /** The number of bytes UTF-8 uses for a code point (section 3 of RFC 3629). */
  function RuneLen(c: char): (n: nat)
    ensures 1 <= n <= 4
  {
    var v := c as int;
    if v < 0x80 then 1 else if v < 0x800 then 2 else if v < 0x10000 then 3 else 4
  }

  /**
   * The UTF-8 bytes of one code point: a lead byte carrying the high bits, then continuation
   * bytes 10xxxxxx carrying six bits each. Only an ASCII character is a byte below 0x80.
   */
  function RuneBytes(c: char): (b: string)
    ensures |b| == RuneLen(c)
    ensures forall k :: 0 <= k < |b| ==> b[k] as int < 0x100
    ensures c as int < 0x80 ==> b == [c]
    ensures c as int >= 0x80 ==> forall k :: 0 <= k < |b| ==> b[k] as int >= 0x80
    ensures forall k :: 1 <= k < |b| ==> 0x80 <= b[k] as int < 0xC0
  {
    var v := c as int;
    if v < 0x80 then [c]
    else if v < 0x800 then [(0xC0 + v / 0x40) as char, (0x80 + v % 0x40) as char]
    else if v < 0x10000 then
      [(0xE0 + v / 0x1000) as char, (0x80 + v / 0x40 % 0x40) as char, (0x80 + v % 0x40) as char]
    else
      [(0xF0 + v / 0x40000) as char, (0x80 + v / 0x1000 % 0x40) as char,
       (0x80 + v / 0x40 % 0x40) as char, (0x80 + v % 0x40) as char]
  }

  /** Reading a code point back from its bytes: the lead byte's payload, then six bits per byte. */
  function RuneValue(b: string): int
    requires 1 <= |b| <= 4
  {
    var lead := b[0] as int;
    if |b| == 1 then lead
    else if |b| == 2 then (lead - 0xC0) * 0x40 + (b[1] as int - 0x80)
    else if |b| == 3 then ((lead - 0xE0) * 0x40 + (b[1] as int - 0x80)) * 0x40 + (b[2] as int - 0x80)
    else (((lead - 0xF0) * 0x40 + (b[1] as int - 0x80)) * 0x40 + (b[2] as int - 0x80)) * 0x40 + (b[3] as int - 0x80)
  }

  /** A code point's bytes read back as that code point. */
  lemma RuneRoundTrip(c: char)
    ensures RuneValue(RuneBytes(c)) == c as int
  {
    var v := c as int;
    if v >= 0x10000 {
      assert v / 0x40000 * 0x40 + v / 0x1000 % 0x40 == v / 0x1000;
      assert v / 0x1000 * 0x40 + v / 0x40 % 0x40 == v / 0x40;
    } else if v >= 0x800 {
      assert v / 0x1000 * 0x40 + v / 0x40 % 0x40 == v / 0x40;
    }
  }

  /** Go's []byte(s), each byte carried as the char of the same value; its length is len(s). */
  function Utf8(s: string): (b: string)
    ensures |s| <= |b|
    ensures forall k :: 0 <= k < |b| ==> b[k] as int < 0x100
  {
    if |s| == 0 then [] else RuneBytes(s[0]) + Utf8(s[1..])
  }

  /** ASCII text is its own byte sequence. */
  lemma {:induction false} Utf8Ascii(s: string)
    requires IsAscii(s)
    ensures Utf8(s) == s
  {
    if |s| > 0 {
      Utf8Ascii(s[1..]);
      assert s == [s[0]] + s[1..];
    }
  }

  lemma {:induction false} Utf8Append(a: string, b: string)
    ensures Utf8(a + b) == Utf8(a) + Utf8(b)
  {
    if |a| == 0 {
      assert a + b == b;
    } else {
      assert (a + b)[1..] == a[1..] + b;
      Utf8Append(a[1..], b);
    }
  }

  /** One character between ASCII text: only that character widens. */
  lemma Utf8AsciiAround(head: string, c: char, tail: string)
    requires IsAscii(head) && IsAscii(tail)
    ensures Utf8(head + [c] + tail) == head + RuneBytes(c) + tail
  {
    assert Utf8([c]) == RuneBytes(c) by {
      assert [c][1..] == [];
    }
    assert Utf8(head + [c]) == head + RuneBytes(c) by {
      Utf8Append(head, [c]);
      Utf8Ascii(head);
    }
    assert Utf8(head + [c] + tail) == Utf8(head + [c]) + tail by {
      Utf8Append(head + [c], tail);
      Utf8Ascii(tail);
    }
  }

  /** An ASCII character occurs among the bytes only where the text holds it. */
  lemma {:induction false} Utf8KeepsAbsentAscii(s: string, c: char)
    requires c as int < 0x80 && c !in s
    ensures c !in Utf8(s)
  {
    if |s| > 0 {
      Utf8KeepsAbsentAscii(s[1..], c);
    }
  }

  /** The i-th character starts at byte |Utf8(s[..i])|, and its lead byte is found there. */
  lemma Utf8At(s: string, i: nat)
    requires i < |s|
    ensures var j := |Utf8(s[..i])|;
      && j < |Utf8(s)| && Utf8(s)[..j] == Utf8(s[..i]) && Utf8(s)[j] == RuneBytes(s[i])[0]
  {
    assert s == s[..i] + s[i..];
    Utf8Append(s[..i], s[i..]);
    assert s[i..] == [s[i]] + s[i + 1..];
  }
}
