/** Small string facilities of the .NET base library that the trade module
    relies on: String.Split(char), String.Join, String.Contains, String.Trim
    and the unsigned integer parsers. .NET strings are sequences of UTF-16
    code units, while a Dafny `char` is a Unicode scalar value, so a
    surrogate pair is one `char` here. No routine modelled is affected: every
    separator, label, digit and white-space character they compare against
    lies in the Basic Multilingual Plane, and every comparison is ordinal. */
module Text {

  datatype Option<+T> = None | Some(value: T)

  // ---------------------------------------------------------------------
  // String.Split(char)
  // ---------------------------------------------------------------------

  /** The pieces of `s` between occurrences of `sep`, empty pieces kept,
      exactly as String.Split(char) returns them ("" gives [""]). */
  function SplitOn(s: string, sep: char): (parts: seq<string>)
    ensures |parts| >= 1
    decreases |s|
  {
    if s == [] then [""]
    else if s[0] == sep then [""] + SplitOn(s[1..], sep)
    else
      var rest := SplitOn(s[1..], sep);
      [[s[0]] + rest[0]] + rest[1..]
  }

  /** String.Join(string, IEnumerable<string>) with a one-character separator. */
  function Join(parts: seq<string>, sep: char): string
    decreases |parts|
  {
    if parts == [] then ""
    else if |parts| == 1 then parts[0]
    else parts[0] + [sep] + Join(parts[1..], sep)
  }

  /** Number of occurrences of `c` in `s`. */
  function Occurrences(s: string, c: char): nat
    decreases |s|
  {
    if s == [] then 0 else (if s[0] == c then 1 else 0) + Occurrences(s[1..], c)
  }

  /** No piece of a split contains the separator. */
  lemma {:induction false} SplitOnPiecesLackSeparator(s: string, sep: char)
    ensures forall p :: p in SplitOn(s, sep) ==> sep !in p
    decreases |s|
  {
    if s != [] {
      SplitOnPiecesLackSeparator(s[1..], sep);
      var rest := SplitOn(s[1..], sep);
      if s[0] != sep {
        assert sep !in rest[0];
        assert sep !in [s[0]] + rest[0];
        forall p | p in SplitOn(s, sep) ensures sep !in p {
          if p != [s[0]] + rest[0] {
            assert p in rest[1..];
          }
        }
      }
    }
  }

  /** A string splits into one more piece than it has separators. */
  lemma {:induction false} SplitOnCount(s: string, sep: char)
    ensures |SplitOn(s, sep)| == Occurrences(s, sep) + 1
    decreases |s|
  {
    if s != [] {
      SplitOnCount(s[1..], sep);
    }
  }

  /** Joining the pieces of a split with the same separator gives the
      original string back. */
  lemma {:induction false} JoinSplitOn(s: string, sep: char)
    ensures Join(SplitOn(s, sep), sep) == s
    decreases |s|
  {
    if s != [] {
      JoinSplitOn(s[1..], sep);
      var rest := SplitOn(s[1..], sep);
      var parts := SplitOn(s, sep);
      assert s == [s[0]] + s[1..];
      if s[0] == sep {
        assert parts == [""] + rest;
        assert parts[1..] == rest;
        assert Join(parts, sep) == "" + [sep] + Join(rest, sep);
      } else if |rest| > 1 {
        assert parts == [[s[0]] + rest[0]] + rest[1..];
        assert parts[1..] == rest[1..];
        assert Join(rest, sep) == rest[0] + [sep] + Join(rest[1..], sep);
        assert Join(parts, sep) == [s[0]] + rest[0] + [sep] + Join(rest[1..], sep);
      } else {
        assert parts == [[s[0]] + rest[0]];
        assert Join(rest, sep) == rest[0];
      }
    }
  }

  /** Splitting a joined list gives the list back, provided the list is not
      empty and no element holds the separator. (An empty list joins to "",
      which splits to [""].) */
  lemma {:induction false} SplitOnJoin(parts: seq<string>, sep: char)
    requires |parts| >= 1
    requires forall p :: p in parts ==> sep !in p
    ensures SplitOn(Join(parts, sep), sep) == parts
    decreases |parts|
  {
    if |parts| == 1 {
      SplitOnWithoutSeparator(parts[0], sep);
    } else {
      SplitOnJoin(parts[1..], sep);
      SplitOnPrefix(parts[0], Join(parts[1..], sep), sep);
      assert [parts[0]] + parts[1..] == parts;
    }
  }

  /** A string without the separator is a single piece. */
  lemma {:induction false} SplitOnWithoutSeparator(p: string, sep: char)
    requires sep !in p
    ensures SplitOn(p, sep) == [p]
    decreases |p|
  {
    if p != [] {
      SplitOnWithoutSeparator(p[1..], sep);
      assert [p[0]] + p[1..] == p;
    }
  }

  /** A separator-free prefix followed by the separator becomes the first piece. */
  lemma {:induction false} SplitOnPrefix(p: string, t: string, sep: char)
    requires sep !in p
    ensures SplitOn(p + [sep] + t, sep) == [p] + SplitOn(t, sep)
    decreases |p|
  {
    if p == [] {
      assert p + [sep] + t == [sep] + t;
      assert ([sep] + t)[1..] == t;
    } else {
      SplitOnPrefix(p[1..], t, sep);
      assert (p + [sep] + t)[1..] == p[1..] + [sep] + t;
      assert [p[0]] + p[1..] == p;
    }
  }

  // ---------------------------------------------------------------------
  // String.Contains(string), ordinal
  // ---------------------------------------------------------------------

  /** `pat` occurs in `s` as a contiguous run of characters. */
  predicate Contains(s: string, pat: string)
    decreases |s|
  {
    pat <= s || (s != [] && Contains(s[1..], pat))
  }

  /** `pat` starts at position `i` of `s`. */
  predicate OccursAt(s: string, pat: string, i: int) {
    0 <= i <= |s| - |pat| && s[i..i + |pat|] == pat
  }

  /** Contains agrees with the definition by position. */
  lemma {:induction false} ContainsAt(s: string, pat: string)
    ensures Contains(s, pat) <==> exists i :: OccursAt(s, pat, i)
    decreases |s|
  {
    if pat <= s {
      assert OccursAt(s, pat, 0);
    }
    if s != [] {
      ContainsAt(s[1..], pat);
      if Contains(s[1..], pat) {
        var i :| OccursAt(s[1..], pat, i);
        assert s[i + 1..i + 1 + |pat|] == s[1..][i..i + |pat|];
        assert OccursAt(s, pat, i + 1);
      }
      if i :| OccursAt(s, pat, i) {
        if i > 0 {
          assert s[1..][i - 1..i - 1 + |pat|] == s[i..i + |pat|];
          assert OccursAt(s[1..], pat, i - 1);
        } else {
          assert s[..|pat|] == pat;
        }
      }
    } else if i :| OccursAt(s, pat, i) {
      assert pat == [];
    }
  }

  // ---------------------------------------------------------------------
  // String.Trim()
  // ---------------------------------------------------------------------

  /** Char.IsWhiteSpace: the Unicode space, line and paragraph separators,
      the controls U+0009 to U+000D, and U+0085. */
  predicate IsWhiteSpace(c: char) {
    || c == ' ' || ('\t' <= c <= '\r') || c == '\U{85}' || c == '\U{A0}'
    || c == '\U{1680}' || ('\U{2000}' <= c <= '\U{200A}')
    || c == '\U{2028}' || c == '\U{2029}' || c == '\U{202F}'
    || c == '\U{205F}' || c == '\U{3000}'
  }

  /** Every character of `s` from `lo` up to (not including) `hi` is white space. */
  predicate WhiteBetween(s: string, lo: int, hi: int)
    requires 0 <= lo <= hi <= |s|
  {
    forall j :: lo <= j < hi ==> IsWhiteSpace(s[j])
  }

  /** String.TrimStart(): `s` without its leading white space. */
  function TrimStart(s: string): (r: string)
    ensures |r| <= |s| && r == s[|s| - |r|..]
    ensures WhiteBetween(s, 0, |s| - |r|)
    ensures r == [] || !IsWhiteSpace(r[0])
    decreases |s|
  {
    if s != [] && IsWhiteSpace(s[0]) then
      var r := TrimStart(s[1..]);
      assert forall j :: 1 <= j < |s| - |r| ==> s[j] == s[1..][j - 1];
      r
    else s
  }

  /** String.TrimEnd(): `s` without its trailing white space. */
  function TrimEnd(s: string): (r: string)
    ensures |r| <= |s| && r == s[..|r|]
    ensures WhiteBetween(s, |r|, |s|)
    ensures r == [] || !IsWhiteSpace(r[|r| - 1])
    decreases |s|
  {
    if s != [] && IsWhiteSpace(s[|s| - 1]) then
      var r := TrimEnd(s[..|s| - 1]);
      assert forall j :: |r| <= j < |s| - 1 ==> s[j] == s[..|s| - 1][j];
      r
    else s
  }

  /** `r` is `s` with the white space `s[..i]` and `s[i + |r|..]` cut off. */
  predicate TrimmedAt(s: string, r: string, i: int) {
    0 <= i <= |s| - |r| && r == s[i..i + |r|]
    && WhiteBetween(s, 0, i) && WhiteBetween(s, i + |r|, |s|)
  }

  /** Cutting white space off the end of a string whose leading white space
      is already cut off trims the whole string. */
  lemma TrimmedInTwoSteps(s: string, a: string, r: string)
    requires |a| <= |s| && a == s[|s| - |a|..] && WhiteBetween(s, 0, |s| - |a|)
    requires |r| <= |a| && r == a[..|r|] && WhiteBetween(a, |r|, |a|)
    ensures TrimmedAt(s, r, |s| - |a|)
  {
    var i := |s| - |a|;
    forall j | i + |r| <= j < |s|
      ensures IsWhiteSpace(s[j])
    {
      assert s[j] == a[j - i];
    }
    assert s[i..i + |r|] == a[..|r|];
  }

  /** String.Trim(): `s` with its leading and trailing white space removed. */
  function Trim(s: string): (r: string)
    ensures TrimmedAt(s, r, |s| - |TrimStart(s)|)
    ensures r == [] || (!IsWhiteSpace(r[0]) && !IsWhiteSpace(r[|r| - 1]))
  {
    TrimmedInTwoSteps(s, TrimStart(s), TrimEnd(TrimStart(s)));
    TrimEnd(TrimStart(s))
  }

  // ---------------------------------------------------------------------
  // ushort.Parse / uint.Parse, restricted to plain decimal digits
  // ---------------------------------------------------------------------

  predicate IsDigit(c: char) { '0' <= c <= '9' }

  predicate AllDigits(s: string) {
    forall i :: 0 <= i < |s| ==> IsDigit(s[i])
  }

  /** The number written by a string of decimal digits, most significant first. */
  function DigitsValue(s: string): nat
    requires AllDigits(s)
    decreases |s|
  {
    if s == [] then 0
    else DigitsValue(s[..|s| - 1]) * 10 + DigitValue(s[|s| - 1])
  }

  /** The numeric value of a decimal digit. */
  function DigitValue(c: char): nat
    requires IsDigit(c)
  {
    c as int - '0' as int
  }

  /** The parse loop: digits are consumed left to right into `acc`
      (`acc * 10 + digit`), failing at the first non-digit or as soon as the
      accumulated value exceeds `max`. */
  function ParseDigits(s: string, max: nat, acc: nat): Option<nat>
    decreases |s|
  {
    if s == [] then Some(acc)
    else if !IsDigit(s[0]) then None
    else if acc * 10 + DigitValue(s[0]) > max then None
    else ParseDigits(s[1..], max, acc * 10 + DigitValue(s[0]))
  }

  /** A prefix of a digit string never has a larger value than the string. */
  lemma {:induction false} DigitsValuePrefix(s: string, j: nat)
    requires AllDigits(s) && j <= |s|
    ensures AllDigits(s[..j]) && DigitsValue(s[..j]) <= DigitsValue(s)
    decreases |s|
  {
    if j < |s| {
      var init := s[..|s| - 1];
      assert init[..j] == s[..j];
      DigitsValuePrefix(init, j);
    } else {
      assert s[..j] == s;
    }
  }

  /** Having consumed the digits `s[..k]` into their value, the parse loop
      ends with the value of the whole string when it is a digit string
      within `max`, and fails otherwise. */
  lemma {:induction false} ParseDigitsFrom(s: string, max: nat, k: nat)
    requires k <= |s| && AllDigits(s[..k]) && DigitsValue(s[..k]) <= max
    ensures ParseDigits(s[k..], max, DigitsValue(s[..k]))
            == if AllDigits(s) && DigitsValue(s) <= max then Some(DigitsValue(s)) else None
    decreases |s| - k
  {
    if k == |s| {
      assert s[..k] == s;
    } else if IsDigit(s[k]) {
      assert s[..k + 1][..k] == s[..k];
      assert AllDigits(s[..k + 1]);
      var acc := DigitsValue(s[..k + 1]);
      assert acc == DigitsValue(s[..k]) * 10 + DigitValue(s[k]);
      assert s[k..][1..] == s[k + 1..];
      if acc > max {
        if AllDigits(s) {
          DigitsValuePrefix(s, k + 1);
        }
      } else {
        ParseDigitsFrom(s, max, k + 1);
      }
    } else {
      assert !AllDigits(s);
    }
  }

  /** ushort.Parse / uint.Parse of an unsigned decimal number no larger than
      `max`; None where .NET throws (FormatException for an empty or
      non-digit string, OverflowException for a value above `max`). The
      result agrees with the most-significant-first value DigitsValue. */
  function ParseUnsigned(s: string, max: nat): (r: Option<nat>)
    ensures r.Some? <==> s != [] && AllDigits(s) && DigitsValue(s) <= max
    ensures r.Some? ==> r.value == DigitsValue(s) && r.value <= max
  {
    if s == [] then None
    else
      assert s[..0] == [];
      ParseDigitsFrom(s, max, 0);
      assert s[0..] == s;
      ParseDigits(s, max, 0)
  }

  /** The shortest decimal text of `n`. */
  function Decimal(n: nat): (s: string)
    ensures s != [] && AllDigits(s)
    decreases n
  {
    if n < 10 then [('0' as int + n) as char]
    else Decimal(n / 10) + [('0' as int + n % 10) as char]
  }

  lemma {:induction false} DecimalValue(n: nat)
    ensures DigitsValue(Decimal(n)) == n
    decreases n
  {
    if n >= 10 {
      DecimalValue(n / 10);
      var s := Decimal(n);
      assert s[..|s| - 1] == Decimal(n / 10);
    }
  }

  /** The decimal text of `v` parses back to `v` exactly when it is in range;
      out of range the parse overflows. */
  lemma ParseDecimal(v: nat, max: nat)
    ensures ParseUnsigned(Decimal(v), max) == if v <= max then Some(v) else None
  {
    DecimalValue(v);
  }

  predicate AllZeros(z: string) {
    forall i :: 0 <= i < |z| ==> z[i] == '0'
  }

  /** A digit string of value 0 is all zeros. */
  lemma {:induction false} ZeroValueIsZeros(s: string)
    requires AllDigits(s) && DigitsValue(s) == 0
    ensures AllZeros(s)
    decreases |s|
  {
    if s != [] {
      var init := s[..|s| - 1];
      ZeroValueIsZeros(init);
      forall i | 0 <= i < |s| ensures s[i] == '0' {
        if i < |s| - 1 {
          assert s[i] == init[i];
        }
      }
    }
  }

  /** Every non-empty digit string is some leading zeros followed by the
      shortest decimal text of its value. */
  lemma {:induction false} DigitsAreZerosThenDecimal(s: string)
    requires s != [] && AllDigits(s)
    ensures exists z :: AllZeros(z) && s == z + Decimal(DigitsValue(s))
    decreases |s|
  {
    var init := s[..|s| - 1];
    var n := DigitsValue(s);
    var d := s[|s| - 1];
    assert s == init + [d];
    assert n == DigitsValue(init) * 10 + DigitValue(d);
    if n < 10 {
      ZeroValueIsZeros(init);
      assert Decimal(n) == [d];
      assert s == init + Decimal(n);
    } else {
      DigitsAreZerosThenDecimal(init);
      var z :| AllZeros(z) && init == z + Decimal(DigitsValue(init));
      assert n / 10 == DigitsValue(init) && n % 10 == DigitValue(d);
      assert Decimal(n) == Decimal(DigitsValue(init)) + [d];
      assert s == z + Decimal(n);
    }
  }

  /** The converse round trip: whatever parses to `v` is the decimal text of
      `v`, possibly after leading zeros. */
  lemma ParsedTextIsDecimal(s: string, max: nat, v: nat)
    requires ParseUnsigned(s, max) == Some(v)
    ensures v <= max && exists z :: AllZeros(z) && s == z + Decimal(v)
  {
    DigitsAreZerosThenDecimal(s);
  }
}
