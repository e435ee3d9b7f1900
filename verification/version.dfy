/** Version strings and their ordering, from src/pkg/version/version.go. */
module Version {
  import opened Bytes
  import Text
  import Decimal

  /**
   * One dot-separated part: the value of its leading decimal digits, 0 when it has none.
   * strconv.Atoi reports an out-of-range value together with the largest int, and the error is
   * discarded, so a longer run of digits saturates at the int64 maximum.
   */
  function PartValue(part: string): (v: int)
    ensures 0 <= v <= MAX_INT64
    ensures (|part| == 0 || !Decimal.IsDigit(part[0])) ==> v == 0
    ensures Decimal.AllDigits(part) && Decimal.Value(part) <= MAX_INT64 ==> v == Decimal.Value(part)
  {
    var digits := Decimal.LeadingDigits(part);
    LeadingDigitsAll(part);
    if digits == "" then 0
    else if Decimal.Value(digits) <= MAX_INT64 then Decimal.Value(digits)
    else MAX_INT64
  }

  /**
   * A part made of a run of digits and a rest that does not start with a digit has the value of
   * that run, saturated at the int64 maximum: "12abc" is 12, and 20 nines are 2^63 - 1.
   */
  lemma PartValueOfDigits(digits: string, rest: string)
    requires |digits| > 0 && Decimal.AllDigits(digits)
    requires |rest| == 0 || !Decimal.IsDigit(rest[0])
    ensures PartValue(digits + rest) ==
      if Decimal.Value(digits) <= MAX_INT64 then Decimal.Value(digits) else MAX_INT64
  {
    LeadingDigitsStop(digits, rest);
  }

  /** Parse: one number per '.'-separated part. */
  function Parse(version: string): (r: seq<int>)
    ensures |r| == Text.Count(version, '.') + 1
    ensures forall k :: 0 <= k < |r| ==> 0 <= r[k] <= MAX_INT64
    ensures var parts := Text.Split(version, '.');
      |r| == |parts| && forall k :: 0 <= k < |r| ==> r[k] == PartValue(parts[k])
  {
    var parts := Text.Split(version, '.');
    seq(|parts|, k requires 0 <= k < |parts| => PartValue(parts[k]))
  }

  /**
   * The comparison loop of IsNewer: the first position where the two lists differ decides, and
   * when one list is a prefix of the other the longer one is newer.
   */
  function Newer(a: seq<int>, b: seq<int>): bool
  {
    if |a| == 0 || |b| == 0 then |a| > |b|
    else if a[0] > b[0] then true
    else if a[0] < b[0] then false
    else Newer(a[1..], b[1..])
  }

  /** The first difference between a and b is at i and favours a. */
  predicate GreaterAt(a: seq<int>, b: seq<int>, i: int) {
    0 <= i < |a| && i < |b| && a[..i] == b[..i] && a[i] > b[i]
  }

  /** b is a proper prefix of a. */
  predicate ExtendsProperly(a: seq<int>, b: seq<int>) {
    |a| > |b| && a[..|b|] == b
  }

  /** IsNewer: latest is newer than current. */
  function IsNewer(latest: string, current: string): (newer: bool)
    ensures var a, b := Parse(latest), Parse(current);
      newer <==> (exists i :: GreaterAt(a, b, i)) || ExtendsProperly(a, b)
  {
    NewerIsLexicographic(Parse(latest), Parse(current));
    Newer(Parse(latest), Parse(current))
  }

  // ---------------------------------------------------------------------------
  // Properties.

  /** The recursive loop is the lexicographic order: a first difference, or a proper prefix. */
  lemma {:induction false} NewerIsLexicographic(a: seq<int>, b: seq<int>)
    ensures Newer(a, b) <==> (exists i :: GreaterAt(a, b, i)) || ExtendsProperly(a, b)
  {
    if |a| == 0 || |b| == 0 {
      assert forall i :: !GreaterAt(a, b, i);
      if |b| == 0 {
        assert a[..|b|] == b;
      }
    } else if a[0] > b[0] {
      assert GreaterAt(a, b, 0);
    } else if a[0] < b[0] {
      HeadsDecide(a, b);
    } else {
      NewerIsLexicographic(a[1..], b[1..]);
      ShiftGreaterAt(a, b);
      ShiftExtends(a, b);
    }
  }

  /** A common prefix or a proper extension beyond the first position shares the heads. */
  lemma HeadsDecide(a: seq<int>, b: seq<int>)
    requires |a| > 0 && |b| > 0
    ensures forall i :: GreaterAt(a, b, i) && i > 0 ==> a[0] == b[0]
    ensures ExtendsProperly(a, b) ==> a[0] == b[0]
  {
    forall i | GreaterAt(a, b, i) && i > 0
      ensures a[0] == b[0]
    {
      assert a[..i][0] == b[..i][0];
    }
    if ExtendsProperly(a, b) {
      assert a[..|b|][0] == b[0];
    }
  }

  /** With equal heads, a first difference of the tails is one of the whole lists, one further on. */
  lemma ShiftGreaterAt(a: seq<int>, b: seq<int>)
    requires |a| > 0 && |b| > 0 && a[0] == b[0]
    ensures (exists i :: GreaterAt(a, b, i)) <==> (exists i :: GreaterAt(a[1..], b[1..], i))
  {
    if exists i :: GreaterAt(a, b, i) {
      var i :| GreaterAt(a, b, i);
      assert i > 0;
      assert a[1..][..i - 1] == a[1..i] == b[1..i] == b[1..][..i - 1] by {
        assert a[..i][1..] == a[1..i];
        assert b[..i][1..] == b[1..i];
      }
      assert GreaterAt(a[1..], b[1..], i - 1);
    }
    if exists i :: GreaterAt(a[1..], b[1..], i) {
      var i :| GreaterAt(a[1..], b[1..], i);
      assert a[..i + 1] == [a[0]] + a[1..][..i];
      assert b[..i + 1] == [b[0]] + b[1..][..i];
      assert GreaterAt(a, b, i + 1);
    }
  }

  /** With equal heads, one list properly extends the other exactly when their tails do. */
  lemma ShiftExtends(a: seq<int>, b: seq<int>)
    requires |a| > 0 && |b| > 0 && a[0] == b[0]
    ensures ExtendsProperly(a, b) <==> ExtendsProperly(a[1..], b[1..])
  {
    if |a| > |b| {
      assert a[..|b|] == [a[0]] + a[1..][..|b| - 1];
      assert b == [b[0]] + b[1..];
    }
  }

  /** No list is newer than itself. */
  lemma {:induction false} NewerIrreflexive(a: seq<int>)
    ensures !Newer(a, a)
  {
    if |a| > 0 {
      NewerIrreflexive(a[1..]);
    }
  }

  /** Of two lists, at most one is newer than the other. */
  lemma {:induction false} NewerAsymmetric(a: seq<int>, b: seq<int>)
    ensures !(Newer(a, b) && Newer(b, a))
  {
    if |a| > 0 && |b| > 0 && a[0] == b[0] {
      NewerAsymmetric(a[1..], b[1..]);
    }
  }

  /** Newer is transitive. */
  lemma {:induction false} NewerTransitive(a: seq<int>, b: seq<int>, c: seq<int>)
    requires Newer(a, b) && Newer(b, c)
    ensures Newer(a, c)
  {
    if |a| > 0 && |b| > 0 && |c| > 0 && a[0] == b[0] && b[0] == c[0] {
      NewerTransitive(a[1..], b[1..], c[1..]);
    }
  }

  /** Lists that differ only in trailing extra parts: the longer is newer, whatever the extra parts hold. */
  lemma LongerIsNewer(b: seq<int>, extra: seq<int>)
    requires |extra| > 0
    ensures Newer(b + extra, b) && !Newer(b, b + extra)
  {
    var a := b + extra;
    assert ExtendsProperly(a, b) by {
      assert a[..|b|] == b;
    }
    NewerIsLexicographic(a, b);
    NewerAsymmetric(a, b);
  }

  /** IsNewer is a strict order on version strings. */
  lemma IsNewerStrictOrder(v: string, w: string, x: string)
    ensures !IsNewer(v, v)
    ensures !(IsNewer(v, w) && IsNewer(w, v))
    ensures IsNewer(v, w) && IsNewer(w, x) ==> IsNewer(v, x)
  {
    NewerIrreflexive(Parse(v));
    NewerAsymmetric(Parse(v), Parse(w));
    if IsNewer(v, w) && IsNewer(w, x) {
      NewerTransitive(Parse(v), Parse(w), Parse(x));
    }
  }

  // ---------------------------------------------------------------------------
  // Parse reads back the version it is given.

  /** The leading digits of an all-digit string are the whole string. */
  lemma {:induction false} LeadingDigitsAll(s: string)
    ensures Decimal.AllDigits(s) ==> Decimal.LeadingDigits(s) == s
  {
    if |s| > 0 && Decimal.AllDigits(s) {
      LeadingDigitsAll(s[1..]);
    }
  }

  /** The version string of a list of numbers: their decimal forms joined by '.'. */
  function Format(vs: seq<nat>): (s: string)
  {
    Text.Join(Parts(vs), '.')
  }

  /** The decimal forms of a list of numbers. */
  function Parts(vs: seq<nat>): (parts: seq<string>)
    ensures |parts| == |vs|
    ensures forall k :: 0 <= k < |vs| ==> parts[k] == Decimal.NatToString(vs[k])
  {
    seq(|vs|, k requires 0 <= k < |vs| => Decimal.NatToString(vs[k]))
  }

  /** Splitting the join of '.'-free parts gives the parts back. */
  lemma {:induction false} SplitJoin(parts: seq<string>)
    requires |parts| > 0
    requires forall k :: 0 <= k < |parts| ==> '.' !in parts[k]
    ensures Text.Split(Text.Join(parts, '.'), '.') == parts
    decreases |parts|
  {
    if |parts| == 1 {
      assert Text.Join(parts, '.') == parts[0];
    } else {
      var rest := Text.Join(parts[1..], '.');
      var s := parts[0] + ['.'] + rest;
      assert Text.Join(parts, '.') == s;
      assert '.' in s by {
        assert s[|parts[0]|] == '.';
      }
      Text.SplitFirstUnique(parts[0], rest, '.');
      SplitJoin(parts[1..]);
      assert parts == [parts[0]] + parts[1..];
    }
  }

  /** A decimal form has no '.'. */
  lemma DigitsNoDot(s: string)
    requires Decimal.AllDigits(s)
    ensures '.' !in s
  {
    forall i | 0 <= i < |s|
      ensures s[i] != '.'
    {
      assert Decimal.IsDigit(s[i]);
    }
  }

  /** Parse reads back every list of numbers written by Format. */
  lemma ParseFormat(vs: seq<nat>)
    requires |vs| > 0
    requires forall k :: 0 <= k < |vs| ==> vs[k] <= MAX_INT64
    ensures Parse(Format(vs)) == vs
  {
    var parts := Parts(vs);
    forall k | 0 <= k < |parts|
      ensures '.' !in parts[k]
    {
      DigitsNoDot(parts[k]);
    }
    SplitJoin(parts);
  }

  /** Appending to the last part appends to the joined string. */
  lemma {:induction false} JoinExtendLast(parts: seq<string>, suffix: string)
    requires |parts| > 0
    ensures Text.Join(parts[|parts| - 1 := parts[|parts| - 1] + suffix], '.') == Text.Join(parts, '.') + suffix
    decreases |parts|
  {
    var ext := parts[|parts| - 1 := parts[|parts| - 1] + suffix];
    if |parts| > 1 {
      JoinExtendLast(parts[1..], suffix);
      assert ext[1..] == parts[1..][|parts| - 2 := parts[|parts| - 1] + suffix];
    }
  }

  /** Digits followed by a suffix that starts with a non-digit have just those digits in front. */
  lemma {:induction false} LeadingDigitsStop(digits: string, suffix: string)
    requires Decimal.AllDigits(digits)
    requires |suffix| == 0 || !Decimal.IsDigit(suffix[0])
    ensures Decimal.LeadingDigits(digits + suffix) == digits
  {
    if |digits| > 0 {
      assert (digits + suffix)[1..] == digits[1..] + suffix;
      LeadingDigitsStop(digits[1..], suffix);
    } else {
      assert digits + suffix == suffix;
    }
  }

  /**
   * A pre-release or build suffix that starts with neither a digit nor '.' and holds no '.'
   * does not change the parse: "1.0.0-beta" parses as 1, 0, 0.
   */
  lemma ParseIgnoresSuffix(vs: seq<nat>, suffix: string)
    requires |vs| > 0
    requires forall k :: 0 <= k < |vs| ==> vs[k] <= MAX_INT64
    requires '.' !in suffix && (|suffix| == 0 || !Decimal.IsDigit(suffix[0]))
    ensures Parse(Format(vs) + suffix) == vs
  {
    var parts := Parts(vs);
    var n := |parts| - 1;
    var ext := parts[n := parts[n] + suffix];
    SplitWithSuffix(vs, suffix);
    LeadingDigitsStop(parts[n], suffix);
    forall k | 0 <= k < |vs|
      ensures PartValue(ext[k]) == vs[k]
    {
      if k == n {
        assert Decimal.LeadingDigits(ext[k]) == parts[n];
      } else {
        assert ext[k] == parts[k];
      }
    }
  }

  /** Splitting a formatted version with a '.'-free suffix gives the parts, the last one extended. */
  lemma SplitWithSuffix(vs: seq<nat>, suffix: string)
    requires |vs| > 0 && '.' !in suffix
    ensures var parts := Parts(vs);
      Text.Split(Format(vs) + suffix, '.') == parts[|parts| - 1 := parts[|parts| - 1] + suffix]
  {
    var parts := Parts(vs);
    var n := |parts| - 1;
    var ext := parts[n := parts[n] + suffix];
    JoinExtendLast(parts, suffix);
    forall k | 0 <= k < |ext|
      ensures '.' !in ext[k]
    {
      DigitsNoDot(parts[k]);
    }
    SplitJoin(ext);
  }

  /** "1.0.0-beta" is version 1, 0, 0. */
  lemma PreReleaseExample()
    ensures Parse(Format([1, 0, 0]) + "-beta") == [1, 0, 0]
  {
    ParseIgnoresSuffix([1, 0, 0], "-beta");
  }
}
