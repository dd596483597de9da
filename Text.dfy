/**
 * Character-level helpers the CQL engine relies on: decimal digit strings
 * (Python's int(), str() of an int, and the integer cells float() accepts),
 * ASCII lower-casing (str.lower() on identifiers) and str.strip(chars).
 */
module Text {

  predicate IsDigit(c: char) { '0' <= c <= '9' }

  predicate AllDigits(s: string) { forall i :: 0 <= i < |s| ==> IsDigit(s[i]) }

  /** The value of a digit string, read most significant digit first. */
  function DigitsValue(s: string): nat
    requires AllDigits(s)
  {
    if s == [] then 0 else 10 * DigitsValue(s[..|s| - 1]) + (s[|s| - 1] as int - '0' as int)
  }

  function Digit(d: nat): (c: char)
    requires d < 10
    ensures IsDigit(c) && c as int - '0' as int == d
  {
    ('0' as int + d) as char
  }

  /** str() of a non-negative Python int: its shortest decimal form. */
  function NatToString(n: nat): (s: string)
    ensures |s| > 0 && AllDigits(s)
    ensures s[0] == '0' ==> n == 0
  {
    if n < 10 then [Digit(n)] else NatToString(n / 10) + [Digit(n % 10)]
  }

  /** str(n) reads back as n: the decimal form of a NUMBER literal is a number again. */
  lemma {:induction false} NatToStringRoundTrip(n: nat)
    ensures DigitsValue(NatToString(n)) == n
    ensures ParseInt(NatToString(n)) == Some(n)
  {
    var s := NatToString(n);
    if n >= 10 {
      NatToStringRoundTrip(n / 10);
      assert s[..|s| - 1] == NatToString(n / 10);
    }
  }

  datatype Option<T> = None | Some(value: T)

  /**
   * The integer a cell denotes when Python's float() reads it as a whole
   * number: an optional '+' or '-' followed by one or more decimal digits.
   * Any other text is None here.
   */
  function ParseInt(s: string): (r: Option<int>)
    ensures r.Some? ==> |s| > 0
    ensures r.Some? && AllDigits(s) ==> r.value == DigitsValue(s)
  {
    if |s| > 1 && (s[0] == '-' || s[0] == '+') && AllDigits(s[1..]) then
      var v: int := DigitsValue(s[1..]);
      Some(if s[0] == '-' then -v else v)
    else if |s| > 0 && AllDigits(s) then Some(DigitsValue(s))
    else None
  }

  /** ASCII str.lower(): the characters an identifier can hold. */
  function Lower(s: string): (r: string)
    ensures |r| == |s|
    ensures forall i :: 0 <= i < |s| ==> r[i] == (if 'A' <= s[i] <= 'Z' then (s[i] as int + 32) as char else s[i])
  {
    seq(|s|, i requires 0 <= i < |s| => if 'A' <= s[i] <= 'Z' then (s[i] as int + 32) as char else s[i])
  }

  /** The lowered text holds no capital, so lowering it again changes nothing. */
  lemma LowerIsLowerCase(s: string)
    ensures forall i :: 0 <= i < |s| ==> !('A' <= Lower(s)[i] <= 'Z')
    ensures Lower(Lower(s)) == Lower(s)
  {
  }

  /** s.lstrip(cs): the longest suffix of s that does not start with a character of cs. */
  function StripLeft(s: string, cs: set<char>): (r: string)
    ensures |r| <= |s| && r == s[|s| - |r|..]
    ensures forall i :: 0 <= i < |s| - |r| ==> s[i] in cs
    ensures r == [] || r[0] !in cs
  {
    if s != [] && s[0] in cs then StripLeft(s[1..], cs) else s
  }

  /** s.rstrip(cs): the longest prefix of s that does not end with a character of cs. */
  function StripRight(s: string, cs: set<char>): (r: string)
    ensures |r| <= |s| && r == s[..|r|]
    ensures forall i :: |r| <= i < |s| ==> s[i] in cs
    ensures r == [] || r[|r| - 1] !in cs
  {
    if s != [] && s[|s| - 1] in cs then StripRight(s[..|s| - 1], cs) else s
  }

  /** s.strip(cs). */
  function Strip(s: string, cs: set<char>): string
  {
    StripRight(StripLeft(s, cs), cs)
  }

  /** A text whose ends are outside cs is left whole by strip. */
  lemma StripUntouched(s: string, cs: set<char>)
    requires s == [] || (s[0] !in cs && s[|s| - 1] !in cs)
    ensures Strip(s, cs) == s
  {
    assert StripLeft(s, cs) == s;
  }

  /** lstrip removes a single character of cs at the front when the next one is outside cs. */
  lemma StripLeftOne(s: string, cs: set<char>)
    requires |s| >= 2 && s[0] in cs && s[1] !in cs
    ensures StripLeft(s, cs) == s[1..]
  {
  }

  /** rstrip removes a single character of cs at the back when the one before is outside cs. */
  lemma StripRightOne(s: string, cs: set<char>)
    requires |s| >= 2 && s[|s| - 1] in cs && s[|s| - 2] !in cs
    ensures StripRight(s, cs) == s[..|s| - 1]
  {
    assert StripRight(s[..|s| - 1], cs) == s[..|s| - 1];
  }

  /**
   * What strip leaves: the slice s[i..j] whose outside consists of characters
   * of cs only, and which neither starts nor ends with one of them.
   */
  lemma StripIsTrimmedSlice(s: string, cs: set<char>) returns (i: nat, j: nat)
    ensures i <= j <= |s| && Strip(s, cs) == s[i..j]
    ensures forall k :: 0 <= k < i ==> s[k] in cs
    ensures forall k :: j <= k < |s| ==> s[k] in cs
    ensures Strip(s, cs) == [] || (Strip(s, cs)[0] !in cs && Strip(s, cs)[|Strip(s, cs)| - 1] !in cs)
  {
    var l := StripLeft(s, cs);
    var r := StripRight(l, cs);
    i := |s| - |l|;
    j := i + |r|;
    assert r == s[i..j];
    forall k | j <= k < |s| ensures s[k] in cs {
      assert s[k] == l[k - i];
    }
  }
}
