/** Character classes, trimming, case folding and decimal rendering as the
    C++ standard library, Qt and SQLite perform them. */
module Text {
  import opened Options

  /** `std::isspace` in the "C" locale. */
  predicate IsCSpace(c: char) {
    c == ' ' || c == '\t' || c == '\n' || c == '\U{000B}' || c == '\U{000C}' || c == '\r'
  }

  /** `QChar::isSpace`: the C-locale blanks, NEL, and the Unicode separator
      categories (Zs, Zl, Zp). */
  predicate IsQtSpace(c: char) {
    IsCSpace(c) || c == '\U{0085}' || c == '\U{00A0}' || c == '\U{1680}'
    || ('\U{2000}' <= c <= '\U{200A}') || c == '\U{2028}' || c == '\U{2029}'
    || c == '\U{202F}' || c == '\U{205F}' || c == '\U{3000}'
  }

  /** True when every character of `s` is a Qt blank (the empty string included). */
  predicate IsQtBlank(s: string) {
    forall i :: 0 <= i < |s| ==> IsQtSpace(s[i])
  }

  function TrimStart(s: string): (r: string)
    ensures |r| <= |s| && r == s[|s| - |r|..]
    ensures r != [] ==> !IsQtSpace(r[0])
    ensures forall k :: 0 <= k < |s| - |r| ==> IsQtSpace(s[k])
  {
    if s != [] && IsQtSpace(s[0]) then TrimStart(s[1..]) else s
  }

  function TrimEnd(s: string): (r: string)
    ensures |r| <= |s| && r == s[..|r|]
    ensures r != [] ==> !IsQtSpace(r[|r| - 1])
    ensures forall k :: |r| <= k < |s| ==> IsQtSpace(s[k])
  {
    if s != [] && IsQtSpace(s[|s| - 1]) then TrimEnd(s[..|s| - 1]) else s
  }

  /** `QString::trimmed`: `s` without its leading and trailing Qt blanks.
      The result sits in `s` at the offset where its leading blanks end,
      and every character cut off on either side is blank. */
  function Trim(s: string): (r: string)
    ensures var i := |s| - |TrimStart(s)|;
            i + |r| <= |s| && s[i..i + |r|] == r
            && forall k :: 0 <= k < |s| && !(i <= k < i + |r|) ==> IsQtSpace(s[k])
    ensures r != [] ==> !IsQtSpace(r[0]) && !IsQtSpace(r[|r| - 1])
    ensures r == [] <==> IsQtBlank(s)
  {
    var left := TrimStart(s);
    var r := TrimEnd(left);
    TrimAssembles(s, left, r);
    r
  }

  /** Cutting blanks off the front, then off the back, leaves the middle
      of `s` with blanks on either side. */
  lemma TrimAssembles(s: string, left: string, r: string)
    requires |left| <= |s| && left == s[|s| - |left|..]
    requires left != [] ==> !IsQtSpace(left[0])
    requires forall k :: 0 <= k < |s| - |left| ==> IsQtSpace(s[k])
    requires |r| <= |left| && r == left[..|r|]
    requires r != [] ==> !IsQtSpace(r[|r| - 1])
    requires forall k :: |r| <= k < |left| ==> IsQtSpace(left[k])
    ensures var i := |s| - |left|;
            i + |r| <= |s| && s[i..i + |r|] == r
            && forall k :: 0 <= k < |s| && !(i <= k < i + |r|) ==> IsQtSpace(s[k])
    ensures r != [] ==> !IsQtSpace(r[0]) && !IsQtSpace(r[|r| - 1])
    ensures r == [] <==> IsQtBlank(s)
  {
    var i := |s| - |left|;
    assert forall k :: i <= k < |s| ==> s[k] == left[k - i];
    assert r == [] ==> IsQtBlank(left);
  }

  /** A string with no blank at either end is its own trimming. */
  lemma TrimUnpadded(s: string)
    requires s != [] ==> !IsQtSpace(s[0]) && !IsQtSpace(s[|s| - 1])
    ensures Trim(s) == s
  {
  }

  /** SQLite's built-in `lower()`: only the ASCII letters A-Z are folded. */
  function SqlLower(s: string): (r: string)
    ensures |r| == |s|
    ensures forall i :: 0 <= i < |s| ==> r[i] == LowerChar(s[i])
  {
    seq(|s|, i requires 0 <= i < |s| => LowerChar(s[i]))
  }

  function LowerChar(c: char): char {
    if 'A' <= c <= 'Z' then (c as int + 32) as char else c
  }

  predicate StartsWith(s: string, prefix: string) {
    |prefix| <= |s| && s[..|prefix|] == prefix
  }

  predicate EndsWith(s: string, suffix: string) {
    |suffix| <= |s| && s[|s| - |suffix|..] == suffix
  }

  /** Position of the first occurrence of `c` in `s`. */
  function IndexOf(s: string, c: char): (r: Option<nat>)
    ensures r.Some? ==> r.value < |s| && s[r.value] == c
    ensures r.Some? ==> forall k :: 0 <= k < r.value ==> s[k] != c
    ensures r.None? <==> forall k :: 0 <= k < |s| ==> s[k] != c
  {
    if s == [] then None
    else if s[0] == c then Some(0)
    else match IndexOf(s[1..], c)
      case None => None
      case Some(i) => Some(i + 1)
  }

  predicate IsDigit(c: char) { '0' <= c <= '9' }

  predicate AllDigits(s: string) {
    forall i :: 0 <= i < |s| ==> IsDigit(s[i])
  }

  function DigitChar(d: nat): char
    requires d < 10
  {
    ('0' as int + d) as char
  }

  function DigitValue(c: char): nat
    requires IsDigit(c)
  {
    c as int - '0' as int
  }

  /** Decimal rendering of a non-negative integer, as `std::to_string` and
      `QString::arg(int)` produce it: digits only, no leading zero. */
  function NatToString(n: nat): (r: string)
    ensures |r| > 0 && AllDigits(r)
    ensures r[0] == '0' ==> n == 0
    decreases n
  {
    if n < 10 then [DigitChar(n)] else NatToString(n / 10) + [DigitChar(n % 10)]
  }

  /** Reads back a string of decimal digits. */
  function ParseNat(s: string): nat
    requires AllDigits(s)
    decreases |s|
  {
    if s == [] then 0 else ParseNat(s[..|s| - 1]) * 10 + DigitValue(s[|s| - 1])
  }

  /** Rendering is inverted by reading back. */
  lemma {:induction false} ParseNatToString(n: nat)
    ensures ParseNat(NatToString(n)) == n
    decreases n
  {
    if n >= 10 {
      var s := NatToString(n);
      assert s[..|s| - 1] == NatToString(n / 10);
      ParseNatToString(n / 10);
    }
  }

  /** Distinct numbers render differently. */
  lemma NatToStringInjective(m: nat, n: nat)
    requires NatToString(m) == NatToString(n)
    ensures m == n
  {
    ParseNatToString(m);
    ParseNatToString(n);
  }
}
