/** The JavaScript string operations the modelled code relies on, stated over
    `seq<char>`: case mapping, `trim`, `\s`, `includes`, `startsWith`,
    decimal printing and `parseInt`, and the code-unit ordering of strings. */
module Text {
  import opened Wrappers

  // ---------------------------------------------------------------------
  // Case mapping (ASCII letters; every string the model compares is ASCII)
  // ---------------------------------------------------------------------

  predicate IsUpper(c: char) { 'A' <= c <= 'Z' }

  predicate IsLower(c: char) { 'a' <= c <= 'z' }

  function LowerChar(c: char): char {
    if IsUpper(c) then (c as int + 32) as char else c
  }

  function UpperChar(c: char): char {
    if IsLower(c) then (c as int - 32) as char else c
  }

  /** `toLowerCase()` */
  function ToLower(s: string): string {
    seq(|s|, i requires 0 <= i < |s| => LowerChar(s[i]))
  }

  /** `toUpperCase()` */
  function ToUpper(s: string): string {
    seq(|s|, i requires 0 <= i < |s| => UpperChar(s[i]))
  }

  // ---------------------------------------------------------------------
  // White space: the class `\s` of JavaScript regular expressions, which is
  // also what `trim()` removes
  // ---------------------------------------------------------------------

  predicate IsWhitespace(c: char) {
    || c == ' ' || c == '\t' || c == '\n' || c == '\r'
    || c == '\U{000B}' || c == '\U{000C}' || c == '\U{00A0}' || c == '\U{1680}'
    || ('\U{2000}' <= c <= '\U{200A}')
    || c == '\U{2028}' || c == '\U{2029}' || c == '\U{202F}' || c == '\U{205F}'
    || c == '\U{3000}' || c == '\U{FEFF}'
  }

  predicate AllWhitespace(s: string) {
    forall i :: 0 <= i < |s| ==> IsWhitespace(s[i])
  }

  function TrimStart(s: string): (r: string)
    ensures |r| <= |s| && r == s[|s| - |r|..]
    ensures AllWhitespace(s[..|s| - |r|])
    ensures r == [] || !IsWhitespace(r[0])
  {
    if s != [] && IsWhitespace(s[0]) then
      var r := TrimStart(s[1..]);
      assert s[..|s| - |r|] == [s[0]] + s[1..][..|s[1..]| - |r|];
      r
    else s
  }

  function TrimEnd(s: string): (r: string)
    ensures |r| <= |s| && r == s[..|r|]
    ensures AllWhitespace(s[|r|..])
    ensures r == [] || !IsWhitespace(r[|r| - 1])
  {
    if s != [] && IsWhitespace(s[|s| - 1]) then
      var r := TrimEnd(s[..|s| - 1]);
      assert s[|r|..] == s[..|s| - 1][|r|..] + [s[|s| - 1]];
      r
    else s
  }

  /** `trim()`: the string without its leading and trailing white space. */
  function Trim(s: string): string {
    TrimEnd(TrimStart(s))
  }

  /** `trim()` yields the empty string exactly on white-space-only input. */
  lemma TrimEmptyIff(s: string)
    ensures Trim(s) == [] <==> AllWhitespace(s)
  {
    var t := TrimStart(s);
    if Trim(s) == [] {
      assert AllWhitespace(t[0..]);
      forall i | 0 <= i < |s| ensures IsWhitespace(s[i]) {
        if i < |s| - |t| {
          assert s[i] == s[..|s| - |t|][i];
        } else {
          assert s[i] == t[i - (|s| - |t|)];
        }
      }
    } else {
      var r := Trim(s);
      assert !IsWhitespace(r[0]);
      assert r[0] == t[0] == s[|s| - |t|];
    }
  }

  /** `replace(/\s+/g, '')`: every white-space character removed. */
  function RemoveWhitespace(s: string): (r: string)
    ensures forall i :: 0 <= i < |r| ==> !IsWhitespace(r[i])
    ensures |r| <= |s|
    ensures forall c :: c in r ==> c in s
  {
    if s == [] then []
    else if IsWhitespace(s[0]) then RemoveWhitespace(s[1..])
    else [s[0]] + RemoveWhitespace(s[1..])
  }

  lemma {:induction false} RemoveWhitespaceEmptyIff(s: string)
    ensures RemoveWhitespace(s) == [] <==> AllWhitespace(s)
  {
    if s != [] {
      RemoveWhitespaceEmptyIff(s[1..]);
      if !IsWhitespace(s[0]) {
        assert RemoveWhitespace(s)[0] == s[0];
      } else if AllWhitespace(s[1..]) {
        forall i | 0 <= i < |s| ensures IsWhitespace(s[i]) {
          if i > 0 { assert s[i] == s[1..][i - 1]; }
        }
      } else {
        var i :| 0 <= i < |s[1..]| && !IsWhitespace(s[1..][i]);
        assert s[i + 1] == s[1..][i];
      }
    }
  }

  /** Lower-casing keeps white space and makes every letter lower case. */
  lemma LowerKeepsWhitespace(s: string)
    ensures forall i :: 0 <= i < |s| ==> (IsWhitespace(ToLower(s)[i]) <==> IsWhitespace(s[i]))
    ensures forall i :: 0 <= i < |s| ==> !IsUpper(ToLower(s)[i])
  {
  }

  // ---------------------------------------------------------------------
  // Substrings
  // ---------------------------------------------------------------------

  /** `s.includes(sub)` */
  predicate Contains(s: string, sub: string) {
    exists i :: 0 <= i <= |s| - |sub| && OccursAt(s, sub, i)
  }

  predicate OccursAt(s: string, sub: string, i: int) {
    0 <= i <= |s| - |sub| && s[i..i + |sub|] == sub
  }

  /** `s.startsWith(p)` */
  predicate StartsWith(s: string, p: string) {
    |p| <= |s| && s[..|p|] == p
  }

  lemma ContainsTransitive(a: string, b: string, c: string)
    requires Contains(a, b) && Contains(b, c)
    ensures Contains(a, c)
  {
    var i :| 0 <= i <= |a| - |b| && OccursAt(a, b, i);
    var j :| 0 <= j <= |b| - |c| && OccursAt(b, c, j);
    assert a[i + j..i + j + |c|] == c by {
      forall k | 0 <= k < |c| ensures a[i + j..i + j + |c|][k] == c[k] {
        assert c[k] == b[j..j + |c|][k] == b[j + k];
        assert b[j + k] == a[i..i + |b|][j + k] == a[i + j + k];
      }
    }
    assert OccursAt(a, c, i + j);
  }

  // ---------------------------------------------------------------------
  // Decimal numbers: `toString()`, `padStart(2, '0')`, `parseInt`
  // ---------------------------------------------------------------------

  predicate IsDigit(c: char) { '0' <= c <= '9' }

  predicate AllDigits(s: string) {
    forall i :: 0 <= i < |s| ==> IsDigit(s[i])
  }

  function DigitChar(d: nat): (c: char)
    requires d < 10
    ensures IsDigit(c) && c as int == 48 + d
  {
    (48 + d) as char
  }

  function DigitValue(c: char): (d: nat)
    requires IsDigit(c)
    ensures d < 10 && DigitChar(d) == c
  {
    c as int - 48
  }

  /** `n.toString()` for a non-negative integer: no leading zeros. */
  function NatToDec(n: nat): string {
    if n < 10 then [DigitChar(n)] else NatToDec(n / 10) + [DigitChar(n % 10)]
  }

  /** The printed form is a non-empty string of digits without a leading zero. */
  lemma {:induction false} NatToDecDigits(n: nat)
    ensures |NatToDec(n)| >= 1 && AllDigits(NatToDec(n))
    ensures |NatToDec(n)| > 1 ==> NatToDec(n)[0] != '0'
  {
    if n >= 10 {
      NatToDecDigits(n / 10);
      assert NatToDec(n)[0] == NatToDec(n / 10)[0];
    }
  }

  /** `n.toString()` for any integer. */
  function IntToDec(n: int): string {
    if n < 0 then "-" + NatToDec(-n) else NatToDec(n)
  }

  /** The number a string of decimal digits denotes. */
  function DecValue(s: string): nat
    requires AllDigits(s)
  {
    if s == [] then 0 else DecValue(s[..|s| - 1]) * 10 + DigitValue(s[|s| - 1])
  }

  lemma {:induction false} DecValueOfNatToDec(n: nat)
    ensures AllDigits(NatToDec(n)) && DecValue(NatToDec(n)) == n
  {
    NatToDecDigits(n);
    if n >= 10 {
      var s := NatToDec(n);
      assert s[..|s| - 1] == NatToDec(n / 10);
      DecValueOfNatToDec(n / 10);
    }
  }

  /** Printing is injective: distinct numbers get distinct decimal strings. */
  lemma NatToDecInjective(m: nat, n: nat)
    requires NatToDec(m) == NatToDec(n)
    ensures m == n
  {
    DecValueOfNatToDec(m);
    DecValueOfNatToDec(n);
  }

  /** `n.toString().padStart(2, '0')` */
  function Pad2(n: nat): string {
    if n < 10 then ['0'] + NatToDec(n) else NatToDec(n)
  }

  lemma Pad2Digits(n: nat)
    ensures |Pad2(n)| >= 2 && AllDigits(Pad2(n))
  {
    NatToDecDigits(n);
    if n >= 10 {
      NatToDecDigits(n / 10);
    }
  }

  lemma Pad2TwoDigits(n: nat)
    requires n < 100
    ensures |Pad2(n)| == 2 && AllDigits(Pad2(n)) && DecValue(Pad2(n)) == n
  {
    var s := Pad2(n);
    NatToDecDigits(n);
    if n < 10 {
      assert s == ['0', DigitChar(n)];
      assert s[..|s| - 1] == ['0'];
      assert DecValue(['0']) == 0 by {
        assert ['0'][..0] == [];
      }
    } else {
      assert NatToDec(n / 10) == [DigitChar(n / 10)];
      assert s == [DigitChar(n / 10), DigitChar(n % 10)];
      assert s[..|s| - 1] == [DigitChar(n / 10)];
      assert DecValue([DigitChar(n / 10)]) == n / 10 by {
        assert [DigitChar(n / 10)][..0] == [];
      }
    }
  }

  /** How many decimal digits `s` starts with. */
  function LeadingDigits(s: string): (k: nat)
    ensures k <= |s| && AllDigits(s[..k])
    ensures k < |s| ==> !IsDigit(s[k])
  {
    if s != [] && IsDigit(s[0]) then
      var k := 1 + LeadingDigits(s[1..]);
      assert s[..k] == [s[0]] + s[1..][..k - 1];
      k
    else 0
  }

  /** `parseInt(s)` on a string that starts with a digit or with text that is
      neither white space, a sign nor a `0x` prefix: the value of the leading
      decimal digits, or NaN (None) when there are none. */
  function ParseInt(s: string): Option<nat> {
    var k := LeadingDigits(s);
    if k == 0 then None else Some(DecValue(s[..k]))
  }

  lemma {:induction false} LeadingDigitsOfDigitsThen(d: string, rest: string)
    requires AllDigits(d)
    requires rest == [] || !IsDigit(rest[0])
    ensures LeadingDigits(d + rest) == |d|
  {
    if d != [] {
      assert (d + rest)[1..] == d[1..] + rest;
      LeadingDigitsOfDigitsThen(d[1..], rest);
    } else {
      assert d + rest == rest;
    }
  }

  /** `parseInt` reads back what `toString` printed, whatever non-digit text follows. */
  lemma ParseIntOfNatToDec(n: nat, rest: string)
    requires rest == [] || !IsDigit(rest[0])
    ensures ParseInt(NatToDec(n) + rest) == Some(n)
  {
    var s := NatToDec(n);
    NatToDecDigits(n);
    LeadingDigitsOfDigitsThen(s, rest);
    assert (s + rest)[..|s|] == s;
    DecValueOfNatToDec(n);
  }

  // ---------------------------------------------------------------------
  // Ordering of strings by code unit (what `localeCompare` agrees with on
  // the week labels, which consist of digits, '-' and 'W')
  // ---------------------------------------------------------------------

  predicate LexLess(a: string, b: string) {
    if a == [] then b != []
    else if b == [] then false
    else if a[0] != b[0] then a[0] < b[0]
    else LexLess(a[1..], b[1..])
  }

  lemma {:induction false} LexLessIrreflexive(a: string)
    ensures !LexLess(a, a)
  {
    if a != [] { LexLessIrreflexive(a[1..]); }
  }

  lemma {:induction false} LexLessTransitive(a: string, b: string, c: string)
    requires LexLess(a, b) && LexLess(b, c)
    ensures LexLess(a, c)
  {
    if a != [] && b != [] && c != [] && a[0] == b[0] && b[0] == c[0] {
      LexLessTransitive(a[1..], b[1..], c[1..]);
    }
  }

  lemma {:induction false} LexLessTotal(a: string, b: string)
    requires a != b
    ensures LexLess(a, b) || LexLess(b, a)
  {
    if a != [] && b != [] && a[0] == b[0] {
      assert a == [a[0]] + a[1..] && b == [b[0]] + b[1..];
      LexLessTotal(a[1..], b[1..]);
    }
  }

  lemma {:induction false} LexLessAsymmetric(a: string, b: string)
    requires LexLess(a, b)
    ensures !LexLess(b, a)
  {
    if a != [] && b != [] && a[0] == b[0] {
      LexLessAsymmetric(a[1..], b[1..]);
    }
  }
}
