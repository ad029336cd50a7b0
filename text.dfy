/** Character classes and string helpers with JavaScript's meaning: the `\s`
    class of regular expressions, `String.prototype.trim`, the `\d` class and
    `parseInt` applied to a string of decimal digits. */
module Text {

  /** JavaScript's white space and line terminators: the characters matched by
      `\s` and removed by `trim()`. */
  predicate IsSpace(c: char)
  {
    || c == ' ' || c == '\t' || c == '\n' || c == '\r' || c == '\U{B}' || c == '\U{C}'
    || c == '\U{A0}' || c == '\U{1680}' || ('\U{2000}' <= c <= '\U{200A}')
    || c == '\U{2028}' || c == '\U{2029}' || c == '\U{202F}' || c == '\U{205F}'
    || c == '\U{3000}' || c == '\U{FEFF}'
  }

  predicate IsAsciiLetter(c: char)
  {
    ('a' <= c <= 'z') || ('A' <= c <= 'Z')
  }

  /** The class `\d`: ASCII decimal digits only. */
  predicate IsDigit(c: char)
  {
    '0' <= c <= '9'
  }

  /** The regular expression `^\d+$`. */
  predicate AllDigits(s: string)
  {
    |s| > 0 && forall i :: 0 <= i < |s| ==> IsDigit(s[i])
  }

  /** `s` with its leading white space removed. */
  function TrimStart(s: string): (r: string)
    ensures |r| <= |s|
  {
    if s != [] && IsSpace(s[0]) then TrimStart(s[1..]) else s
  }

  /** `s` with its trailing white space removed. */
  function TrimEnd(s: string): (r: string)
    ensures |r| <= |s|
  {
    if s != [] && IsSpace(s[|s| - 1]) then TrimEnd(s[..|s| - 1]) else s
  }

  /** `String.prototype.trim`: white space removed at both ends. */
  function Trim(s: string): (r: string)
    ensures |r| <= |s|
  {
    TrimEnd(TrimStart(s))
  }

  /** What `TrimStart` removes is a prefix of white space, and what it keeps
      does not start with white space. */
  lemma {:induction false} TrimStartIsSuffix(s: string)
    ensures var r := TrimStart(s); r == s[|s| - |r|..]
    ensures var r := TrimStart(s); forall i :: 0 <= i < |s| - |r| ==> IsSpace(s[i])
    ensures var r := TrimStart(s); r != [] ==> !IsSpace(r[0])
  {
    if s != [] && IsSpace(s[0]) {
      TrimStartIsSuffix(s[1..]);
      var r := TrimStart(s);
      forall i | 0 <= i < |s| - |r| ensures IsSpace(s[i]) {
        if i > 0 {
          assert s[i] == s[1..][i - 1];
        }
      }
    }
  }

  /** What `TrimEnd` removes is a suffix of white space, and what it keeps
      does not end with white space. */
  lemma {:induction false} TrimEndIsPrefix(s: string)
    ensures var r := TrimEnd(s); r == s[..|r|]
    ensures var r := TrimEnd(s); forall i :: |r| <= i < |s| ==> IsSpace(s[i])
    ensures var r := TrimEnd(s); r != [] ==> !IsSpace(r[|r| - 1])
  {
    if s != [] && IsSpace(s[|s| - 1]) {
      TrimEndIsPrefix(s[..|s| - 1]);
      var r := TrimEnd(s);
      forall i | |r| <= i < |s| ensures IsSpace(s[i]) {
        if i < |s| - 1 {
          assert s[i] == s[..|s| - 1][i];
        }
      }
    }
  }

  /** The trimmed string is the infix of `s` left after dropping the leading
      white space, and it neither starts nor ends with white space. */
  lemma TrimIsInfix(s: string)
    ensures var k := |s| - |TrimStart(s)|; k + |Trim(s)| <= |s| && Trim(s) == s[k..k + |Trim(s)|]
    ensures Trim(s) != [] ==> !IsSpace(Trim(s)[0]) && !IsSpace(Trim(s)[|Trim(s)| - 1])
  {
    var a := TrimStart(s);
    var b := TrimEnd(a);
    TrimStartIsSuffix(s);
    TrimEndIsPrefix(a);
    assert a[..|b|] == s[|s| - |a|..|s| - |a| + |b|];
  }

  /** Trimming changes nothing in a string that holds no white space at all. */
  lemma TrimWithoutSpaces(s: string)
    requires forall i :: 0 <= i < |s| ==> !IsSpace(s[i])
    ensures Trim(s) == s
  {
    assert TrimStart(s) == s;
  }

  /** Trimming a string of digits gives the string itself, so the jersey the
      store keeps (`jersey_no.trim()`) is the one that was checked. */
  lemma TrimDigits(s: string)
    requires AllDigits(s)
    ensures Trim(s) == s
  {
    TrimWithoutSpaces(s);
  }

  function DigitValue(c: char): (d: nat)
    requires IsDigit(c)
    ensures d <= 9
  {
    (c as int - '0' as int) as nat
  }

  /** `parseInt(s)` for a string of decimal digits (leading zeros allowed). */
  function DecimalValue(s: string): (n: nat)
    requires forall i :: 0 <= i < |s| ==> IsDigit(s[i])
  {
    if s == [] then 0 else DecimalValue(s[..|s| - 1]) * 10 + DigitValue(s[|s| - 1])
  }

  /** A digit string whose value is at most 99 has at most two significant
      digits: every digit before the last two is a zero. */
  lemma {:induction false} SmallValueLeadingZeros(s: string)
    requires forall i :: 0 <= i < |s| ==> IsDigit(s[i])
    requires DecimalValue(s) <= 99
    ensures forall i :: 0 <= i < |s| - 2 ==> s[i] == '0'
  {
    if |s| > 2 {
      var p := s[..|s| - 1];
      assert DecimalValue(p) <= 9;
      SmallValueLeadingZeros(p);
      ZeroValueAllZeros(p[..|p| - 1]);
      forall i | 0 <= i < |s| - 2 ensures s[i] == '0' {
        assert s[i] == p[..|p| - 1][i];
      }
    }
  }

  /** A digit string with value 0 is made of zeros only. */
  lemma {:induction false} ZeroValueAllZeros(s: string)
    requires forall i :: 0 <= i < |s| ==> IsDigit(s[i])
    requires DecimalValue(s) == 0
    ensures forall i :: 0 <= i < |s| ==> s[i] == '0'
  {
    if s != [] {
      var p := s[..|s| - 1];
      ZeroValueAllZeros(p);
      forall i | 0 <= i < |s| ensures s[i] == '0' {
        if i < |s| - 1 {
          assert s[i] == p[i];
        }
      }
    }
  }

  /** JavaScript's `length`: the number of UTF-16 code units, two for a
      character outside the Basic Multilingual Plane and one otherwise. */
  function Utf16Length(s: string): (n: nat)
    ensures |s| <= n <= 2 * |s|
    ensures (forall i :: 0 <= i < |s| ==> s[i] as int <= 0xFFFF) ==> n == |s|
  {
    if s == [] then 0 else Utf16Length(s[..|s| - 1]) + (if s[|s| - 1] as int > 0xFFFF then 2 else 1)
  }

  /** Two emoji are four code units, although they are two characters. */
  lemma Utf16LengthOfEmoji()
    ensures |"\U{1F600}\U{1F600}"| == 2 && Utf16Length("\U{1F600}\U{1F600}") == 4
  {
    var s := "\U{1F600}\U{1F600}";
    assert s[..1][..0] == [];
    assert s[..|s| - 1] == s[..1];
  }

  function LowerChar(c: char): char
  {
    if 'A' <= c <= 'Z' then (c as int + 32) as char else c
  }

  /** `LOWER(s)` restricted to ASCII letters. */
  function ToLower(s: string): (r: string)
    ensures |r| == |s|
    ensures forall i :: 0 <= i < |s| ==> r[i] == LowerChar(s[i])
  {
    if s == [] then [] else [LowerChar(s[0])] + ToLower(s[1..])
  }

  /** `LOWER(a) = LOWER(b)`. */
  predicate SameIgnoringCase(a: string, b: string)
  {
    ToLower(a) == ToLower(b)
  }
}
