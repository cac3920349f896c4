/**
 * Small value types and string helpers shared by the navigation and the
 * private-settings models: an Option type, PHP's implode, decimal
 * rendering of integers, and the ASCII string functions the filter builder
 * compares operands with.
 */
module Common {

  datatype Option<T> = None | Some(value: T)

  predicate IsDigit(c: char) {
    '0' <= c <= '9'
  }

  /** PHP's implode(sep, parts). */
  function Join(sep: string, parts: seq<string>): string
  {
    if parts == [] then ""
    else if |parts| == 1 then parts[0]
    else parts[0] + sep + Join(sep, parts[1..])
  }

  /** A non-empty list whose first part starts with c joins to a string starting with c. */
  lemma {:induction false} JoinStartsWith(sep: string, parts: seq<string>, c: char)
    requires parts != [] && |parts[0]| > 0 && parts[0][0] == c
    ensures |Join(sep, parts)| > 0 && Join(sep, parts)[0] == c
  {
    if |parts| > 1 {
      assert Join(sep, parts) == parts[0] + (sep + Join(sep, parts[1..]));
    }
  }

  function DigitChar(d: nat): (c: char)
    requires d < 10
    ensures IsDigit(c)
  {
    "0123456789"[d]
  }

  function DigitValue(c: char): nat
    requires IsDigit(c)
  {
    (c as int - '0' as int) as nat
  }

  /** Decimal rendering of a natural number, as PHP writes it in "$n". */
  function NatToString(n: nat): (r: string)
    ensures |r| > 0
    ensures forall i :: 0 <= i < |r| ==> IsDigit(r[i])
    decreases n
  {
    if n < 10 then [DigitChar(n)] else NatToString(n / 10) + [DigitChar(n % 10)]
  }

  /** Reads a string of decimal digits back as a number. */
  function ParseNat(s: string): nat
    requires forall i :: 0 <= i < |s| ==> IsDigit(s[i])
  {
    if s == [] then 0 else ParseNat(s[..|s| - 1]) * 10 + DigitValue(s[|s| - 1])
  }

  /** Reading the decimal rendering back gives the number: the rendering is injective. */
  lemma {:induction false} NatToStringRoundTrip(n: nat)
    ensures ParseNat(NatToString(n)) == n
    decreases n
  {
    var s := NatToString(n);
    if n >= 10 {
      NatToStringRoundTrip(n / 10);
      assert s[..|s| - 1] == NatToString(n / 10);
    }
  }

  lemma NatToStringInjective(m: nat, n: nat)
    requires m != n
    ensures NatToString(m) != NatToString(n)
  {
    NatToStringRoundTrip(m);
    NatToStringRoundTrip(n);
  }

  /** Decimal rendering of an integer, with a leading '-' when negative. */
  function IntToString(i: int): string
  {
    if i < 0 then "-" + NatToString(-i) else NatToString(i)
  }

  /** PHP's strpos($s, $prefix) === 0 for a non-empty $prefix. */
  predicate StartsWith(s: string, prefix: string) {
    |prefix| <= |s| && s[..|prefix|] == prefix
  }

  lemma StartsWithSelf(s: string)
    ensures StartsWith(s, s)
  {
    assert s[..|s|] == s;
  }

  /** Whatever is appended, a string keeps its prefixes. */
  lemma StartsWithExtend(s: string, prefix: string, t: string)
    requires StartsWith(s, prefix)
    ensures StartsWith(s + t, prefix)
  {
    assert (s + t)[..|prefix|] == s[..|prefix|];
  }

  /** strtolower for the ASCII letters. */
  function Lower(s: string): (r: string)
    ensures |r| == |s|
    ensures forall i :: 0 <= i < |r| ==> !('A' <= r[i] <= 'Z')
    ensures forall i :: 0 <= i < |r| && !('A' <= s[i] <= 'Z') ==> r[i] == s[i]
  {
    if s == [] then []
    else
      var c := s[0];
      [if 'A' <= c <= 'Z' then (c as int + 32) as char else c] + Lower(s[1..])
  }

  /** The characters PHP's trim removes by default. */
  const TrimChars: string := " \t\n\r\0\U{0B}"

  /** What is left after the leading trim characters: a suffix that starts with none. */
  function TrimLeft(s: string): (r: string)
    ensures |r| <= |s| && r == s[|s| - |r|..]
    ensures r != [] ==> r[0] !in TrimChars
    ensures forall i :: 0 <= i < |s| - |r| ==> s[i] in TrimChars
  {
    if s != [] && s[0] in TrimChars then TrimLeft(s[1..]) else s
  }

  /** What is left before the trailing trim characters: a prefix that ends with none. */
  function TrimRight(s: string): (r: string)
    ensures |r| <= |s| && r == s[..|r|]
    ensures r != [] ==> r[|r| - 1] !in TrimChars
    ensures forall i :: |r| <= i < |s| ==> s[i] in TrimChars
  {
    if s != [] && s[|s| - 1] in TrimChars then TrimRight(s[..|s| - 1]) else s
  }

  /** PHP's trim with its default character list. */
  function Trim(s: string): (r: string)
    ensures r != [] ==> r[0] !in TrimChars && r[|r| - 1] !in TrimChars
  {
    TrimRight(TrimLeft(s))
  }
}
