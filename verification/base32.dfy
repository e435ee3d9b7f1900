/**
 * Base 32 encoding of section 6 of RFC 4648, as Go's encoding/base32 StdEncoding implements it:
 * unpadded encoding (WithPadding(NoPadding)) and padded decoding (DecodeString).
 */
module Base32 {
  import opened Wrappers
  import opened Bytes
  import Text
  import Arith

  const ALPHABET: string := "ABCDEFGHIJKLMNOPQRSTUVWXYZ234567"
  const PAD: char := '='

  predicate IsSymbol(c: char) {
    'A' <= c <= 'Z' || '2' <= c <= '7'
  }

  /** The symbol of a 5-bit value: ALPHABET[v]. */
  function SymbolChar(v: nat): (c: char)
    requires v < 32
    ensures IsSymbol(c)
  {
    if v < 26 then ('A' as int + v) as char else ('2' as int + v - 26) as char
  }

  /** The decode map: the 5-bit value of a symbol, or None where Go's map holds 0xFF. */
  function SymbolValue(c: char): (v: Option<nat>)
    ensures v.Some? <==> IsSymbol(c)
    ensures v.Some? ==> v.value < 32 && SymbolChar(v.value) == c
  {
    if 'A' <= c <= 'Z' then Some(c as int - 'A' as int)
    else if '2' <= c <= '7' then Some(c as int - '2' as int + 26)
    else None
  }

  /** The decode map inverts the symbol table. */
  lemma SymbolRoundTrip(v: nat)
    requires v < 32
    ensures SymbolValue(SymbolChar(v)) == Some(v)
  {
  }

  /** SymbolChar spells out the alphabet of section 6 of RFC 4648. */
  lemma SymbolCharIsAlphabet()
    ensures forall v :: 0 <= v < 32 ==> SymbolChar(v) == ALPHABET[v]
  {
  }

  predicate Quintets(v: seq<nat>) {
    forall i :: 0 <= i < |v| ==> v[i] < 32
  }

  function Symbols(v: seq<nat>): (s: string)
    requires Quintets(v)
    ensures |s| == |v|
    ensures forall i :: 0 <= i < |v| ==> IsSymbol(s[i]) && SymbolValue(s[i]) == Some(v[i])
  {
    if |v| == 0 then [] else [SymbolChar(v[0])] + Symbols(v[1..])
  }

  /** The eight 5-bit values of a 40-bit group of five bytes, most significant first. */
  function Split40(b: seq<byte>): (v: seq<nat>)
    requires |b| == 5
    ensures |v| == 8 && Quintets(v)
  {
    [ b[0] / 8,
      (b[0] % 8) * 4 + b[1] / 64,
      (b[1] / 2) % 32,
      (b[1] % 2) * 16 + b[2] / 16,
      (b[2] % 16) * 2 + b[3] / 128,
      (b[3] / 4) % 32,
      (b[3] % 4) * 8 + b[4] / 32,
      b[4] % 32 ]
  }

  /**
   * Go's packing of a quantum's eight 5-bit values into five bytes. Each `|` of the source
   * joins disjoint bit ranges, so it is a sum here, and each `<<` is truncated to a byte.
   */
  function Join40(v: seq<nat>): (b: seq<byte>)
    requires |v| == 8 && Quintets(v)
    ensures |b| == 5
  {
    [ v[0] * 8 + v[1] / 4,
      (v[1] % 4) * 64 + v[2] * 2 + v[3] / 16,
      (v[3] % 16) * 16 + v[4] / 2,
      (v[4] % 2) * 128 + v[5] * 4 + v[6] / 8,
      (v[6] % 8) * 32 + v[7] ]
  }

  function Zeros(n: nat): (z: seq<nat>)
    ensures |z| == n && Quintets(z)
    ensures forall i :: 0 <= i < n ==> z[i] == 0
  {
    if n == 0 then [] else [0] + Zeros(n - 1)
  }

  function ZeroBytes(n: nat): (z: seq<byte>)
    ensures |z| == n
    ensures forall i :: 0 <= i < n ==> z[i] == 0
  {
    if n == 0 then [] else [0] + ZeroBytes(n - 1)
  }

  /** Symbols written for a final group of n < 5 bytes when no padding is added. */
  function TailSymbols(n: nat): (k: nat)
    requires n < 5
    ensures k == (n * 8 + 4) / 5
  {
    match n
    case 0 => 0
    case 1 => 2
    case 2 => 4
    case 3 => 5
    case 4 => 7
  }

  /** Bytes produced by a quantum of `dlen` symbols (Go's fall-through switch over dlen). */
  function QuantumBytes(dlen: nat): nat {
    match dlen
    case 8 => 5
    case 7 => 4
    case 5 => 3
    case 4 => 2
    case 2 => 1
    case _ => 0
  }

  /** Unpadded encoding (StdEncoding.WithPadding(NoPadding).EncodeToString). */
  function EncodeNoPad(b: seq<byte>): (s: string)
    ensures |s| == |b| / 5 * 8 + TailSymbols(|b| % 5)
    ensures forall i :: 0 <= i < |s| ==> IsSymbol(s[i])
  {
    if |b| >= 5 then Symbols(Split40(b[..5])) + EncodeNoPad(b[5..])
    else if |b| == 0 then ""
    else Symbols(Split40(b + ZeroBytes(5 - |b|))[..TailSymbols(|b|)])
  }

  /**
   * totp.go's padding step: '=' up to the next multiple of eight bytes. Go's len counts the
   * UTF-8 bytes of the text, not its characters.
   */
  function Pad(s: string): (r: string)
    ensures |Text.Utf8(r)| % 8 == 0 && |Text.Utf8(s)| <= |Text.Utf8(r)| < |Text.Utf8(s)| + 8
    ensures |s| <= |r| && r[..|s|] == s
    ensures forall i :: |s| <= i < |r| ==> r[i] == PAD
  {
    var n := |Text.Utf8(s)|;
    if n % 8 == 0 then s
    else
      var pads := Text.Repeat(PAD, 8 - n % 8);
      Text.Utf8Append(s, pads);
      Text.Utf8Ascii(pads);
      s + pads
  }

  /** The number of '=' Pad adds depends only on the byte count. */
  lemma PadCount(s: string, n: nat)
    requires |Text.Utf8(s)| == n
    ensures Pad(s) == s + Text.Repeat(PAD, (8 - n % 8) % 8)
  {
    if n % 8 == 0 {
      assert s + Text.Repeat(PAD, 0) == s;
    }
  }

  /** Padding text whose characters are single bytes, as every Base32 encoding is. */
  function PadAscii(s: string): (r: string)
    ensures |r| % 8 == 0 && |s| <= |r| < |s| + 8
    ensures r[..|s|] == s
    ensures forall i :: |s| <= i < |r| ==> r[i] == PAD
  {
    if |s| % 8 == 0 then s else s + Text.Repeat(PAD, 8 - |s| % 8)
  }

  /** On ASCII text the two paddings agree. */
  lemma PadOfAscii(s: string)
    requires Text.IsAscii(s)
    ensures Pad(s) == PadAscii(s)
  {
    Text.Utf8Ascii(s);
  }

  /** A quantum read from the input: its symbol values, the unread input, and whether padding ended it. */
  datatype Quantum = Quantum(vals: seq<nat>, rest: string, end: bool)

  predicate AllPad(s: string) {
    forall i :: 0 <= i < |s| ==> s[i] == PAD
  }

  /**
   * Go's inner decoding loop: collect up to eight symbols. A '=' at position j >= 2 with fewer
   * than eight characters after it ends the data; it must be followed by 7 - j further '=', and
   * 1, 3 or 6 symbols cannot end a quantum. Input after the padding is not looked at.
   */
  function ReadQuantum(src: string, vals: seq<nat>): (q: Option<Quantum>)
    requires |vals| <= 8 && Quintets(vals)
    ensures q.Some? ==> |vals| <= |q.value.vals| <= 8 && Quintets(q.value.vals)
    ensures q.Some? ==> |q.value.rest| + |q.value.vals| - |vals| <= |src|
    ensures q.Some? && q.value.end ==> |q.value.rest| < |src|
    ensures q.Some? && |vals| == 0 ==> |q.value.vals| >= 2
    decreases |src|
  {
    if |vals| == 8 then Some(Quantum(vals, src, false))
    else if |src| == 0 then None
    else
      var c := src[0];
      var rest := src[1..];
      if c == PAD && |vals| >= 2 && |rest| < 8 then
        if |rest| + |vals| < 7 then None
        else if !AllPad(rest[..7 - |vals|]) then None
        else if |vals| == 1 || |vals| == 3 || |vals| == 6 then None
        else Some(Quantum(vals, rest, true))
      else match SymbolValue(c)
        case None => None
        case Some(v) => ReadQuantum(rest, vals + [v])
  }

  /** The bytes of one quantum: unread positions of Go's dbuf stay zero. */
  function Unpack(vals: seq<nat>): (b: seq<byte>)
    requires |vals| <= 8 && Quintets(vals)
    ensures |b| == QuantumBytes(|vals|)
  {
    Join40(vals + Zeros(8 - |vals|))[..QuantumBytes(|vals|)]
  }

  /** Go's decode loop over quanta, after newlines are stripped. */
  function Decode(s: string): (r: Option<seq<byte>>)
    decreases |s|
  {
    if |s| == 0 then Some([])
    else match ReadQuantum(s, [])
      case None => None
      case Some(q) =>
        var bytes := Unpack(q.vals);
        if q.end then Some(bytes)
        else match Decode(q.rest)
          case None => None
          case Some(tail) => Some(bytes + tail)
  }

  function StripNewlines(s: string): (r: string)
    ensures '\r' !in r && '\n' !in r
    ensures forall c :: c in r ==> c in s
  {
    if |s| == 0 then []
    else if s[0] == '\r' || s[0] == '\n' then StripNewlines(s[1..])
    else [s[0]] + StripNewlines(s[1..])
  }

  /** StdEncoding.DecodeString: take the bytes of the string, drop '\r' and '\n', then decode. */
  function DecodeString(s: string): Option<seq<byte>>
  {
    Decode(StripNewlines(Text.Utf8(s)))
  }

  // ---------------------------------------------------------------------------
  // Round trip: padding and decoding an unpadded encoding recovers the bytes.

  lemma Join40Split40(b: seq<byte>)
    requires |b| == 5
    ensures Join40(Split40(b)) == b
  {
    JoinedByte0(b);
    JoinedByte1(b);
    JoinedByte2(b);
    JoinedByte3(b);
    JoinedByte4(b);
  }

  /** JoinedByte0 to JoinedByte4: byte k of a group survives splitting into quintets and joining again. */
  lemma JoinedByte0(b: seq<byte>)
    requires |b| == 5
    ensures Join40(Split40(b))[0] == b[0]
  {
    JoinFirst(b[0], b[1]);
  }

  lemma JoinedByte1(b: seq<byte>)
    requires |b| == 5
    ensures Join40(Split40(b))[1] == b[1]
  {
    JoinSecond(b[0], b[1], b[2]);
  }

  lemma JoinedByte2(b: seq<byte>)
    requires |b| == 5
    ensures Join40(Split40(b))[2] == b[2]
  {
    JoinThird(b[1], b[2], b[3]);
  }

  lemma JoinedByte3(b: seq<byte>)
    requires |b| == 5
    ensures Join40(Split40(b))[3] == b[3]
  {
    JoinFourth(b[2], b[3], b[4]);
  }

  lemma JoinedByte4(b: seq<byte>)
    requires |b| == 5
    ensures Join40(Split40(b))[4] == b[4]
  {
    JoinFifth(b[3], b[4]);
  }

  lemma JoinFirst(x: nat, y: nat)
    requires x < 256 && y < 256
    ensures (x / 8) * 8 + ((x % 8) * 4 + y / 64) / 4 == x
  {
    Arith.DivModUnique((x % 8) * 4 + y / 64, x % 8, 4, y / 64);
  }

  lemma JoinSecond(w: nat, x: nat, y: nat)
    requires w < 256 && x < 256 && y < 256
    ensures (((w % 8) * 4 + x / 64) % 4) * 64 + ((x / 2) % 32) * 2 + ((x % 2) * 16 + y / 16) / 16 == x
  {
    var q, c := x / 2, x % 2;
    var top := q / 32;
    Arith.DivModUnique(x, top, 64, 2 * (q % 32) + c);
    Arith.DivModUnique((w % 8) * 4 + top, w % 8, 4, top);
    Arith.DivModUnique(c * 16 + y / 16, c, 16, y / 16);
  }

  lemma JoinThird(w: nat, x: nat, y: nat)
    requires w < 256 && x < 256 && y < 256
    ensures (((w % 2) * 16 + x / 16) % 16) * 16 + ((x % 16) * 2 + y / 128) / 2 == x
  {
    Arith.DivModUnique((w % 2) * 16 + x / 16, w % 2, 16, x / 16);
    Arith.DivModUnique((x % 16) * 2 + y / 128, x % 16, 2, y / 128);
  }

  lemma JoinFourth(w: nat, x: nat, y: nat)
    requires w < 256 && x < 256 && y < 256
    ensures (((w % 16) * 2 + x / 128) % 2) * 128 + ((x / 4) % 32) * 4 + ((x % 4) * 8 + y / 32) / 8 == x
  {
    var q := x / 4;
    Arith.DivModUnique(x, q / 32, 128, 4 * (q % 32) + x % 4);
    Arith.DivModUnique((w % 16) * 2 + x / 128, w % 16, 2, x / 128);
    Arith.DivModUnique((x % 4) * 8 + y / 32, x % 4, 8, y / 32);
  }

  lemma JoinFifth(w: nat, x: nat)
    requires w < 256 && x < 256
    ensures (((w % 4) * 8 + x / 32) % 8) * 32 + x % 32 == x
  {
    Arith.DivModUnique((w % 4) * 8 + x / 32, w % 4, 8, x / 32);
  }

  lemma ReadStep(c: char, rest: string, vals: seq<nat>)
    requires IsSymbol(c) && |vals| < 8 && Quintets(vals)
    ensures ReadQuantum([c] + rest, vals) == ReadQuantum(rest, vals + [SymbolValue(c).value])
  {
    assert ([c] + rest)[1..] == rest;
  }

  /** Reading symbols appends their values to the quantum being collected. */
  lemma {:induction false} ReadSymbols(v: seq<nat>, rest: string, vals: seq<nat>)
    requires Quintets(v) && Quintets(vals) && |vals| + |v| <= 8
    ensures ReadQuantum(Symbols(v) + rest, vals) == ReadQuantum(rest, vals + v)
    decreases |v|
  {
    if |v| > 0 {
      var c := SymbolChar(v[0]);
      var tail := Symbols(v[1..]) + rest;
      SymbolsCons(v, rest);
      ReadStep(c, tail, vals);
      ReadSymbols(v[1..], rest, vals + [v[0]]);
      ConsAppend(v, vals);
    } else {
      assert Symbols(v) + rest == rest;
      assert vals + v == vals;
    }
  }

  lemma SymbolsCons(v: seq<nat>, rest: string)
    requires Quintets(v) && |v| > 0
    ensures Symbols(v) + rest == [SymbolChar(v[0])] + (Symbols(v[1..]) + rest)
  {
  }

  lemma ConsAppend<T>(v: seq<T>, vals: seq<T>)
    requires |v| > 0
    ensures vals + [v[0]] + v[1..] == vals + v
  {
  }

  /** The padding that completes a short quantum of 2, 4, 5 or 7 symbols ends the data. */
  lemma ReadPadding(vals: seq<nat>)
    requires Quintets(vals) && |vals| in {2, 4, 5, 7}
    ensures ReadQuantum(Text.Repeat(PAD, 8 - |vals|), vals)
         == Some(Quantum(vals, Text.Repeat(PAD, 7 - |vals|), true))
  {
    var pads := Text.Repeat(PAD, 8 - |vals|);
    assert pads[1..] == Text.Repeat(PAD, 7 - |vals|);
    assert pads[1..][..7 - |vals|] == pads[1..];
  }

  /** The quintets that an unpadded tail leaves out are all zero. */
  predicate TailIsPadded(b: seq<byte>)
    requires 0 < |b| < 5
  {
    var full := Split40(b + ZeroBytes(5 - |b|));
    full[..TailSymbols(|b|)] + Zeros(8 - TailSymbols(|b|)) == full
  }

  lemma TailQuintets(b: seq<byte>)
    requires 0 < |b| < 5
    ensures TailIsPadded(b)
  {
    if |b| == 1 {
      TailOne(b);
    } else if |b| == 2 {
      TailTwo(b);
    } else if |b| == 3 {
      TailThree(b);
    } else {
      TailFour(b);
    }
  }

  lemma TailOne(b: seq<byte>)
    requires |b| == 1
    ensures TailIsPadded(b)
  {
    var full := Split40(b + ZeroBytes(4));
    assert b + ZeroBytes(4) == [b[0], 0, 0, 0, 0];
    assert forall i :: 0 <= i < 8 ==> (full[..2] + Zeros(6))[i] == full[i];
  }

  lemma TailTwo(b: seq<byte>)
    requires |b| == 2
    ensures TailIsPadded(b)
  {
    var full := Split40(b + ZeroBytes(3));
    assert b + ZeroBytes(3) == [b[0], b[1], 0, 0, 0];
    assert forall i :: 0 <= i < 8 ==> (full[..4] + Zeros(4))[i] == full[i];
  }

  lemma TailThree(b: seq<byte>)
    requires |b| == 3
    ensures TailIsPadded(b)
  {
    var full := Split40(b + ZeroBytes(2));
    assert b + ZeroBytes(2) == [b[0], b[1], b[2], 0, 0];
    assert forall i :: 0 <= i < 8 ==> (full[..5] + Zeros(3))[i] == full[i];
  }

  lemma TailFour(b: seq<byte>)
    requires |b| == 4
    ensures TailIsPadded(b)
  {
    var full := Split40(b + ZeroBytes(1));
    assert b + ZeroBytes(1) == [b[0], b[1], b[2], b[3], 0];
    assert forall i :: 0 <= i < 8 ==> (full[..7] + Zeros(1))[i] == full[i];
  }

  /** The symbols written for a short final group: the leading quintets of the zero-filled group. */
  function TailValues(b: seq<byte>): (v: seq<nat>)
    requires 0 < |b| < 5
    ensures |v| == TailSymbols(|b|) && Quintets(v)
  {
    Split40(b + ZeroBytes(5 - |b|))[..TailSymbols(|b|)]
  }

  lemma TailText(b: seq<byte>)
    requires 0 < |b| < 5
    ensures PadAscii(EncodeNoPad(b)) == Symbols(TailValues(b)) + Text.Repeat(PAD, 8 - TailSymbols(|b|))
  {
    EncodeShort(b);
    PadShort(Symbols(TailValues(b)));
  }

  lemma EncodeShort(b: seq<byte>)
    requires 0 < |b| < 5
    ensures EncodeNoPad(b) == Symbols(TailValues(b))
  {
  }

  /** A string shorter than a quantum is padded up to eight characters. */
  lemma PadShort(e: string)
    requires 0 < |e| < 8
    ensures PadAscii(e) == e + Text.Repeat(PAD, 8 - |e|)
  {
    Arith.DivModUnique(|e|, 0, 8, |e|);
  }

  lemma TailRead(b: seq<byte>)
    requires 0 < |b| < 5
    ensures var v := TailValues(b);
      ReadQuantum(Symbols(v) + Text.Repeat(PAD, 8 - |v|), [])
      == Some(Quantum(v, Text.Repeat(PAD, 7 - |v|), true))
  {
    var v := TailValues(b);
    ReadSymbols(v, Text.Repeat(PAD, 8 - |v|), []);
    assert [] + v == v;
    ReadPadding(v);
  }

  lemma TailUnpack(b: seq<byte>)
    requires 0 < |b| < 5
    ensures Unpack(TailValues(b)) == b
  {
    var z := b + ZeroBytes(5 - |b|);
    TailQuintets(b);
    Join40Split40(z);
    assert Unpack(TailValues(b)) == z[..|b|];
    assert z[..|b|] == b;
  }

  /** The final, padded quantum of a short group decodes to exactly that group. */
  lemma DecodeTail(b: seq<byte>)
    requires 0 < |b| < 5
    ensures Decode(PadAscii(EncodeNoPad(b))) == Some(b)
  {
    var v := TailValues(b);
    var src := Symbols(v) + Text.Repeat(PAD, 8 - |v|);
    TailText(b);
    assert PadAscii(EncodeNoPad(b)) == src;
    TailRead(b);
    assert ReadQuantum(src, []) == Some(Quantum(v, Text.Repeat(PAD, 7 - |v|), true));
    TailUnpack(b);
    assert |src| > 0;
  }

  /** Padding a string that starts with a whole quantum pads only its remainder. */
  lemma PadAfterQuantum(a: string, t: string)
    requires |a| == 8
    ensures PadAscii(a + t) == a + PadAscii(t)
  {
    if |t| % 8 != 0 {
      assert (a + t) + Text.Repeat(PAD, 8 - |t| % 8) == a + (t + Text.Repeat(PAD, 8 - |t| % 8));
    }
  }

  lemma HeadText(b: seq<byte>)
    requires |b| >= 5
    ensures PadAscii(EncodeNoPad(b)) == Symbols(Split40(b[..5])) + PadAscii(EncodeNoPad(b[5..]))
  {
    var a := Symbols(Split40(b[..5]));
    assert EncodeNoPad(b) == a + EncodeNoPad(b[5..]);
    PadAfterQuantum(a, EncodeNoPad(b[5..]));
  }

  /** A full quantum of eight symbols is read without looking at what follows. */
  lemma HeadRead(v: seq<nat>, t: string)
    requires |v| == 8 && Quintets(v)
    ensures ReadQuantum(Symbols(v) + t, []) == Some(Quantum(v, t, false))
  {
    ReadSymbols(v, t, []);
    assert [] + v == v;
  }

  /** A full quantum in front decodes to its five bytes followed by the decoding of the rest. */
  lemma DecodeHead(v: seq<nat>, t: string)
    requires |v| == 8 && Quintets(v)
    ensures Decode(Symbols(v) + t) == if Decode(t).None? then None else Some(Unpack(v) + Decode(t).value)
  {
    HeadRead(v, t);
    assert |Symbols(v) + t| > 0;
  }

  lemma HeadUnpack(b: seq<byte>)
    requires |b| == 5
    ensures Unpack(Split40(b)) == b
  {
    var v := Split40(b);
    assert v + Zeros(0) == v;
    Join40Split40(b);
  }

  /** Decoding the padded, unpadded encoding of any byte string gives back that string. */
  lemma {:induction false} DecodeEncode(b: seq<byte>)
    ensures Decode(PadAscii(EncodeNoPad(b))) == Some(b)
    decreases |b|
  {
    if |b| == 0 {
    } else if |b| < 5 {
      DecodeTail(b);
    } else {
      var v := Split40(b[..5]);
      var t := PadAscii(EncodeNoPad(b[5..]));
      HeadText(b);
      DecodeHead(v, t);
      HeadUnpack(b[..5]);
      DecodeEncode(b[5..]);
      assert b[..5] + b[5..] == b;
    }
  }

  lemma StripNewlinesIdentity(s: string)
    requires '\r' !in s && '\n' !in s
    ensures StripNewlines(s) == s
  {
  }

  /**
   * Section 6 of RFC 4648, as the migration import and TOTP generation use it together:
   * padding and decoding the unpadded encoding of any byte string gives back that string.
   */
  lemma DecodePadEncode(b: seq<byte>)
    ensures DecodeString(Pad(EncodeNoPad(b))) == Some(b)
  {
    EncodingBytes(EncodeNoPad(b));
    DecodeEncode(b);
  }

  /** An encoding is ASCII without newlines, so the decoder sees its padded text unchanged. */
  lemma EncodingBytes(e: string)
    requires forall i :: 0 <= i < |e| ==> IsSymbol(e[i])
    ensures StripNewlines(Text.Utf8(Pad(e))) == PadAscii(e)
  {
    var s := PadAscii(e);
    assert Pad(e) == s by {
      assert Text.IsAscii(e);
      PadOfAscii(e);
    }
    assert forall i :: 0 <= i < |s| ==> IsSymbol(s[i]) || s[i] == PAD;
    assert Text.Utf8(s) == s by {
      Text.Utf8Ascii(s);
    }
    StripNewlinesIdentity(s);
  }

  /**
   * A quantum leaves a suffix of its input unread. Before that suffix it consumed only symbols,
   * or, when padding ended it, only symbols and then the one '=' that ended it.
   */
  lemma {:induction false} ReadQuantumConsumes(src: string, vals: seq<nat>)
    requires |vals| <= 8 && Quintets(vals) && ReadQuantum(src, vals).Some?
    ensures var q := ReadQuantum(src, vals).value;
      var used := |src| - |q.rest|;
      && |q.rest| <= |src| && q.rest == src[used..]
      && (!q.end ==> forall k :: 0 <= k < used ==> IsSymbol(src[k]))
      && (q.end ==> 0 < used && src[used - 1] == PAD && forall k :: 0 <= k < used - 1 ==> IsSymbol(src[k]))
    decreases |src|
  {
    if |vals| < 8 && !(src[0] == PAD && |vals| >= 2 && |src| - 1 < 8) {
      var v := SymbolValue(src[0]).value;
      ReadQuantumConsumes(src[1..], vals + [v]);
    }
  }

  /**
   * A character outside the alphabet that no '=' precedes spoils the data: no quantum can end
   * before reaching it.
   */
  lemma {:induction false} DecodeRejectsForeign(s: string, i: nat)
    requires i < |s| && !IsSymbol(s[i]) && s[i] != PAD && PAD !in s[..i]
    ensures Decode(s) == None
    decreases |s|
  {
    match ReadQuantum(s, [])
    case None =>
    case Some(q) =>
      ReadQuantumConsumes(s, []);
      var used := |s| - |q.rest|;
      if q.end || i < used {
        assert false;
      }
      assert q.rest[i - used] == s[i];
      assert q.rest[..i - used] == s[used..i];
      DecodeRejectsForeign(q.rest, i - used);
  }

  /**
   * Decoding bytes fails when a byte outside the alphabet, other than '=', '\r' and '\n',
   * comes before any '='.
   */
  lemma StrippedRejectsForeign(t: string, j: nat)
    requires j < |t| && !IsSymbol(t[j]) && t[j] != PAD && t[j] != '\r' && t[j] != '\n'
    requires PAD !in t[..j]
    ensures Decode(StripNewlines(t)) == None
  {
    var head := StripNewlines(t[..j]);
    var u := StripNewlines(t);
    assert t == t[..j] + t[j..];
    StripNewlinesAppend(t[..j], t[j..]);
    assert u[|head|] == t[j];
    assert u[..|head|] == head;
    DecodeRejectsForeign(u, |head|);
  }

  /**
   * StdEncoding.DecodeString fails when a character outside the alphabet, other than '=', '\r'
   * and '\n', comes before any '='. A non-ASCII character qualifies: its lead byte is 0x80 or
   * more, which the decode map rejects.
   */
  lemma DecodeStringRejectsForeign(s: string, i: nat)
    requires i < |s| && !IsSymbol(s[i]) && s[i] != PAD && s[i] != '\r' && s[i] != '\n'
    requires PAD !in s[..i]
    ensures DecodeString(s) == None
  {
    var t := Text.Utf8(s);
    var j := |Text.Utf8(s[..i])|;
    Text.Utf8At(s, i);
    Text.Utf8KeepsAbsentAscii(s[..i], PAD);
    StrippedRejectsForeign(t, j);
  }

  /**
   * A '=' that eight or more bytes follow is not padding: it is read as a symbol, which the
   * decode map rejects.
   */
  lemma PadWithDataAfter(v: seq<nat>, rest: string)
    requires Quintets(v) && |v| < 8 && |rest| >= 8
    ensures Decode(Symbols(v) + [PAD] + rest) == None
  {
    assert Symbols(v) + [PAD] + rest == Symbols(v) + ([PAD] + rest);
    ReadSymbols(v, [PAD] + rest, []);
    assert [] + v == v;
    assert ([PAD] + rest)[1..] == rest;
  }

  /** Newlines in front of the text are dropped. */
  lemma {:induction false} StripLeadingNewlines(n: nat, b: string)
    ensures StripNewlines(Text.Repeat('\n', n) + b) == StripNewlines(b)
  {
    if n > 0 {
      var t := Text.Repeat('\n', n) + b;
      assert t[0] == '\n';
      assert t[1..] == Text.Repeat('\n', n - 1) + b;
      StripLeadingNewlines(n - 1, b);
    } else {
      assert Text.Repeat('\n', n) + b == b;
    }
  }

  /** A run of newlines between newline-free text disappears. */
  lemma StripAround(a: string, n: nat, b: string)
    requires '\r' !in a && '\n' !in a && '\r' !in b && '\n' !in b
    ensures StripNewlines(a + Text.Repeat('\n', n) + b) == a + b
  {
    var nl := Text.Repeat('\n', n);
    var rest := nl + b;
    assert a + nl + b == a + rest;
    StripLeadingNewlines(n, b);
    StripNewlinesIdentity(b);
    StripNewlinesAppend(a, rest);
    StripNewlinesIdentity(a);
  }

  /** Stripping newlines works piecewise. */
  lemma {:induction false} StripNewlinesAppend(a: string, b: string)
    ensures StripNewlines(a + b) == StripNewlines(a) + StripNewlines(b)
  {
    if |a| == 0 {
      assert a + b == b;
    } else {
      assert (a + b)[1..] == a[1..] + b;
      StripNewlinesAppend(a[1..], b);
    }
  }
}
