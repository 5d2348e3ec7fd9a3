/**
 * Character and string helpers that the endpoint borrows from the C library
 * and GLib: ASCII case-insensitive comparison (g_ascii_strcasecmp), atoi,
 * decimal printing (printf "%u"), substring search (the effect of the
 * unanchored GRegex used for BUNDLE) and g_strsplit.
 */
module Text {

  datatype Option<+T> = None | Some(value: T)

  /** The C `guint` range: SSRCs, bandwidths and payload types are 32-bit unsigned. */
  type uint32 = x: int | 0 <= x < 0x1_0000_0000

  /** Concatenation is associative; stated once so that loops can use it cheaply. */
  lemma AppendThree<T>(a: seq<T>, b: seq<T>, c: seq<T>)
    ensures a + b + c == a + (b + c)
  {
  }

  /** Appending four pieces one after the other appends their concatenation. */
  lemma AppendFour<T>(a: seq<T>, b: seq<T>, c: seq<T>, d: seq<T>, e: seq<T>)
    ensures a + b + c + d + e == a + (b + c + d + e)
  {
  }

  /** Conversion of a C `int` to `guint` (two's complement wrap-around). */
  function ToUint32(x: int): (r: uint32)
    ensures 0 <= x < 0x1_0000_0000 ==> r == x
    ensures x < 0 && -0x1_0000_0000 <= x ==> r == x + 0x1_0000_0000
  {
    x % 0x1_0000_0000
  }

  // ---------------------------------------------------------------------------
  // ASCII case folding (g_ascii_tolower / g_ascii_strcasecmp)

  function AsciiLower(c: char): char
  {
    if 'A' <= c <= 'Z' then (c as int + 32) as char else c
  }

  /** g_ascii_strcasecmp (a, b) == 0 for two non-NULL strings. */
  predicate EqualsIgnoreCase(a: string, b: string)
  {
    |a| == |b| && forall i :: 0 <= i < |a| ==> AsciiLower(a[i]) == AsciiLower(b[i])
  }

  // ---------------------------------------------------------------------------
  // Decimal numbers: atoi and "%u"

  predicate IsDigit(c: char)
  {
    '0' <= c <= '9'
  }

  /** isspace in the "C" locale. */
  predicate IsSpace(c: char)
  {
    c == ' ' || c == '\t' || c == '\n' || c == '\U{B}' || c == '\U{C}' || c == '\r'
  }

  predicate AllDigits(s: string)
  {
    forall i :: 0 <= i < |s| ==> IsDigit(s[i])
  }

  function DigitValue(c: char): nat
    requires IsDigit(c)
  {
    c as int - '0' as int
  }

  function DigitChar(d: nat): (c: char)
    requires d < 10
    ensures IsDigit(c) && DigitValue(c) == d
  {
    ('0' as int + d) as char
  }

  /** The longest prefix of `s` made of decimal digits. */
  function LeadingDigits(s: string): (d: string)
    ensures |d| <= |s| && d == s[..|d|]
    ensures AllDigits(d)
    ensures |d| < |s| ==> !IsDigit(s[|d|])
  {
    if s == [] || !IsDigit(s[0]) then [] else [s[0]] + LeadingDigits(s[1..])
  }

  /** The value of a string of decimal digits, most significant first. */
  function DecimalValue(d: string): nat
    requires AllDigits(d)
  {
    if d == [] then 0 else 10 * DecimalValue(d[..|d| - 1]) + DigitValue(d[|d| - 1])
  }

  function SkipSpaces(s: string): (t: string)
    ensures |t| <= |s| && t == s[|s| - |t|..]
    ensures t != [] ==> !IsSpace(t[0])
  {
    if s != [] && IsSpace(s[0]) then SkipSpaces(s[1..]) else s
  }

  /**
   * atoi: leading white space, an optional sign, then the longest run of
   * digits; 0 when there are no digits. Overflow of the C `int` is not
   * modelled: the value is an unbounded integer.
   */
  function Atoi(s: string): int
  {
    var t := SkipSpaces(s);
    if t != [] && t[0] == '-' then -(DecimalValue(LeadingDigits(t[1..])) as int)
    else if t != [] && t[0] == '+' then DecimalValue(LeadingDigits(t[1..]))
    else DecimalValue(LeadingDigits(t))
  }

  /** printf ("%u", n): decimal digits without leading zeros. */
  function NatToString(n: nat): (s: string)
    ensures |s| >= 1 && AllDigits(s)
    ensures n >= 10 ==> s[0] != '0'
  {
    if n < 10 then [DigitChar(n)] else NatToString(n / 10) + [DigitChar(n % 10)]
  }

  lemma {:induction false} DecimalValueOfNatToString(n: nat)
    ensures DecimalValue(NatToString(n)) == n
  {
    var s := NatToString(n);
    if n >= 10 {
      DecimalValueOfNatToString(n / 10);
      assert s[..|s| - 1] == NatToString(n / 10);
    }
  }

  lemma {:induction false} LeadingDigitsOfDigitsThen(d: string, rest: string)
    requires AllDigits(d)
    requires rest == [] || !IsDigit(rest[0])
    ensures LeadingDigits(d + rest) == d
  {
    if d != [] {
      assert (d + rest)[1..] == d[1..] + rest;
      LeadingDigitsOfDigitsThen(d[1..], rest);
    }
  }

  /** atoi of a run of digits with no digit after it is the value of the run. */
  lemma AtoiOfDigits(d: string, rest: string)
    requires d != [] && AllDigits(d)
    requires rest == [] || !IsDigit(rest[0])
    ensures Atoi(d + rest) == DecimalValue(d)
  {
    var s := d + rest;
    assert s[0] == d[0];
    assert !IsSpace(s[0]) && s[0] != '-' && s[0] != '+';
    assert SkipSpaces(s) == s;
    LeadingDigitsOfDigitsThen(d, rest);
    assert Atoi(s) == DecimalValue(LeadingDigits(s));
  }

  /** atoi reads back a number printed with "%u" when no digit follows it. */
  lemma AtoiOfNatToString(n: nat, rest: string)
    requires rest == [] || !IsDigit(rest[0])
    ensures Atoi(NatToString(n) + rest) == n
  {
    AtoiOfDigits(NatToString(n), rest);
    DecimalValueOfNatToString(n);
  }

  // ---------------------------------------------------------------------------
  // Searching and splitting

  /** Index of the first occurrence of `c` in `s`, as strchr. */
  function IndexOf(s: string, c: char): (r: Option<nat>)
    ensures r.Some? ==> r.value < |s| && s[r.value] == c && c !in s[..r.value]
    ensures r.None? ==> c !in s
  {
    if s == [] then None
    else if s[0] == c then Some(0)
    else match IndexOf(s[1..], c)
      case None => None
      case Some(i) => Some(i + 1)
  }

  predicate OccursAt(s: string, pat: string, i: nat)
  {
    i + |pat| <= |s| && s[i..i + |pat|] == pat
  }

  /**
   * Index of the leftmost occurrence of `pat` in `s` at or after `from`: where
   * an unanchored regular expression starting with the literal `pat` matches.
   */
  function FindFrom(s: string, pat: string, from: nat): (r: Option<nat>)
    requires from <= |s|
    ensures r.Some? ==> from <= r.value && OccursAt(s, pat, r.value)
    ensures r.Some? ==> forall j :: from <= j < r.value ==> !OccursAt(s, pat, j)
    ensures r.None? ==> forall j :: from <= j <= |s| ==> !OccursAt(s, pat, j)
    decreases |s| - from
  {
    if OccursAt(s, pat, from) then Some(from)
    else if from == |s| then None
    else FindFrom(s, pat, from + 1)
  }

  function Find(s: string, pat: string): (r: Option<nat>)
    ensures r.Some? ==> OccursAt(s, pat, r.value)
    ensures r.Some? ==> forall j :: 0 <= j < r.value ==> !OccursAt(s, pat, j)
    ensures r.None? ==> forall j :: 0 <= j <= |s| ==> !OccursAt(s, pat, j)
  {
    FindFrom(s, pat, 0)
  }

  /**
   * g_strsplit (s, sep, maxTokens) for a one-character separator: an empty
   * string gives no tokens; otherwise at most `maxTokens` tokens (no limit
   * when `maxTokens` is 0), the last one holding the unsplit remainder.
   */
  function Split(s: string, sep: char, maxTokens: nat): (r: seq<string>)
    ensures r == [] <==> s == []
  {
    if s == [] then [] else SplitRemainder(s, sep, maxTokens)
  }

  function SplitRemainder(s: string, sep: char, maxTokens: nat): (r: seq<string>)
    ensures |r| >= 1
    decreases |s|
  {
    if maxTokens == 1 then [s]
    else match IndexOf(s, sep)
      case None => [s]
      case Some(i) =>
        [s[..i]] + SplitRemainder(s[i + 1..], sep, if maxTokens == 0 then 0 else maxTokens - 1)
  }

  /** Splitting into at most three tokens yields a second token iff the separator occurs. */
  lemma SplitThreeTokens(s: string, sep: char)
    ensures var r := Split(s, sep, 3);
      && (|r| >= 2 <==> sep in s)
      && (sep in s ==> r[0] == s[..IndexOf(s, sep).value])
  {
  }
}
