/**
 * The parts of .NET's `string` the domain relies on: `string.IsNullOrEmpty`,
 * `string.IsNullOrWhiteSpace`, `string.Trim` and `string.Length`.
 * A string is a sequence of Unicode scalar values; `Length` counts UTF-16
 * code units, as .NET does.
 */
module Text {
  import opened Wrappers

  /** `char.IsWhiteSpace`: the Unicode space separators, the line and
      paragraph separators, U+0009..U+000D and U+0085. */
  predicate IsWhite(c: char) {
    || ('\t' <= c <= '\r')
    || c == ' '
    || c == '\U{85}'
    || c == '\U{A0}'
    || c == '\U{1680}'
    || ('\U{2000}' <= c <= '\U{200A}')
    || c == '\U{2028}'
    || c == '\U{2029}'
    || c == '\U{202F}'
    || c == '\U{205F}'
    || c == '\U{3000}'
  }

  predicate AllWhite(s: string) {
    forall i | 0 <= i < |s| :: IsWhite(s[i])
  }

  /** `string.IsNullOrEmpty` */
  predicate IsNullOrEmpty(s: Option<string>) {
    s.None? || s.value == []
  }

  /** `string.IsNullOrWhiteSpace` */
  predicate IsNullOrWhiteSpace(s: Option<string>) {
    s.None? || AllWhite(s.value)
  }

  /** `s?.Trim()`: trims a string and keeps `null` as `null`. */
  function TrimNullable(s: Option<string>): (r: Option<string>)
    ensures r.Some? <==> s.Some?
    ensures r.Some? ==> r.value == Trim(s.value)
  {
    match s
    case None => None
    case Some(v) => Some(Trim(v))
  }

  /** Number of UTF-16 code units of one character. */
  function CodeUnits(c: char): nat {
    if c as int < 0x1_0000 then 1 else 2
  }

  /** `string.Length`: the number of UTF-16 code units. */
  function Utf16Length(s: string): (n: nat)
    ensures |s| <= n <= 2 * |s|
  {
    if s == [] then 0 else CodeUnits(s[0]) + Utf16Length(s[1..])
  }

  /** `string.TrimStart()`: drops the leading white characters. */
  function TrimStart(s: string): (r: string)
    ensures |r| <= |s|
  {
    if s != [] && IsWhite(s[0]) then TrimStart(s[1..]) else s
  }

  /** `string.TrimEnd()`: drops the trailing white characters. */
  function TrimEnd(s: string): (r: string)
    ensures |r| <= |s|
  {
    if s != [] && IsWhite(s[|s| - 1]) then TrimEnd(s[..|s| - 1]) else s
  }

  /** `string.Trim()`: drops the white characters at both ends. */
  function Trim(s: string): string {
    TrimEnd(TrimStart(s))
  }

  /** `TrimStart` removes the longest all-white prefix: the result is a
      suffix of `s`, what was cut off is white, and the result does not
      start with a white character. */
  lemma {:induction false} TrimStartSpec(s: string)
    ensures var r := TrimStart(s);
      && |r| <= |s| && r == s[|s| - |r|..]
      && AllWhite(s[..|s| - |r|])
      && (r == [] || !IsWhite(r[0]))
  {
    if s != [] && IsWhite(s[0]) {
      TrimStartSpec(s[1..]);
      var r := TrimStart(s[1..]);
      assert s[..|s| - |r|] == [s[0]] + s[1..][..|s| - 1 - |r|];
    }
  }

  /** `TrimEnd` removes the longest all-white suffix. */
  lemma {:induction false} TrimEndSpec(s: string)
    ensures var r := TrimEnd(s);
      && |r| <= |s| && r == s[..|r|]
      && AllWhite(s[|r|..])
      && (r == [] || !IsWhite(r[|r| - 1]))
  {
    if s != [] && IsWhite(s[|s| - 1]) {
      var p := s[..|s| - 1];
      TrimEndSpec(p);
      var r := TrimEnd(p);
      assert s[|r|..] == p[|r|..] + [s[|s| - 1]];
    }
  }

  /** `Trim` keeps the slice of `s` between its leading and trailing white
      runs: what is cut off is white, a non-empty result starts and ends
      with a non-white character, and only an all-white string trims to
      empty. */
  lemma TrimSpec(s: string)
    ensures var r := Trim(s); var k := |s| - |TrimStart(s)|;
      && k + |r| <= |s| && r == s[k..k + |r|]
      && AllWhite(s[..k]) && AllWhite(s[k + |r|..])
      && (r == [] || (!IsWhite(r[0]) && !IsWhite(r[|r| - 1])))
      && (r == [] <==> AllWhite(s))
  {
    var t := TrimStart(s);
    var r := TrimEnd(t);
    var k := |s| - |t|;
    TrimStartSpec(s);
    TrimEndSpec(t);
    assert t == s[k..];
    assert r == s[k..k + |r|];
    assert s[k + |r|..] == t[|r|..];
    if r == [] {
      assert s == s[..k] + t;
      AllWhiteConcat(s[..k], t);
    } else {
      assert r[0] == t[0] == s[k];
      assert !IsWhite(s[k]);
    }
  }

  lemma AllWhiteConcat(a: string, b: string)
    requires AllWhite(a) && AllWhite(b)
    ensures AllWhite(a + b)
  {
  }

  /** `Length` is additive over concatenation. */
  lemma {:induction false} Utf16LengthConcat(a: string, b: string)
    ensures Utf16Length(a + b) == Utf16Length(a) + Utf16Length(b)
  {
    if a == [] {
      assert a + b == b;
    } else {
      assert (a + b)[1..] == a[1..] + b;
      Utf16LengthConcat(a[1..], b);
    }
  }

  /** Trimming never lengthens a string, in UTF-16 code units either. */
  lemma Utf16LengthTrim(s: string)
    ensures Utf16Length(Trim(s)) <= Utf16Length(s)
  {
    TrimSpec(s);
    var k := |s| - |TrimStart(s)|;
    var r := Trim(s);
    assert s == s[..k] + (r + s[k + |r|..]);
    Utf16LengthConcat(s[..k], r + s[k + |r|..]);
    Utf16LengthConcat(r, s[k + |r|..]);
  }

  /** Trimming a trimmed string changes nothing. */
  lemma TrimIdempotent(s: string)
    ensures Trim(Trim(s)) == Trim(s)
  {
    TrimSpec(s);
    var r := Trim(s);
    if r != [] {
      assert TrimStart(r) == r;
      assert TrimEnd(r) == r;
    }
  }

  /** What a string is once trimmed, when it is not blank: not blank,
      trimmed, and no longer than before. */
  lemma TrimmedNonBlank(s: string)
    requires !AllWhite(s)
    ensures var r := Trim(s);
      !AllWhite(r) && Trim(r) == r && Utf16Length(r) <= Utf16Length(s)
  {
    TrimSpec(s);
    TrimIdempotent(s);
    Utf16LengthTrim(s);
    var r := Trim(s);
    assert !IsWhite(r[0]);
  }

  /** On characters of the Basic Multilingual Plane, `Length` is the
      number of characters. */
  lemma {:induction false} Utf16LengthBmp(s: string)
    requires forall i | 0 <= i < |s| :: s[i] as int < 0x1_0000
    ensures Utf16Length(s) == |s|
  {
    if s != [] {
      Utf16LengthBmp(s[1..]);
    }
  }
}
