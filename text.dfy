/** Character classes and string operations the validators and formatters rely on:
    the `\d` character class, `IsNullOrWhiteSpace`, `Trim`, `PadRight`/`PadLeft`,
    anchored fixed-width patterns, ordinal string order and decimal integers. */
module Text {

  /** The regular-expression class `\d`, restricted to ASCII digits. */
  predicate IsDigit(c: char) {
    '0' <= c <= '9'
  }

  /** White space as `Trim` and `IsNullOrWhiteSpace` see it (the ASCII controls
      and the common Unicode spaces; see README for what is not listed). */
  predicate IsWhiteSpace(c: char) {
    c in WhiteSpaceChars
  }

  const WhiteSpaceChars: set<char> :=
    {' ', '\t', '\n', '\U{B}', '\U{C}', '\r', '\U{85}', '\U{A0}', '\U{2028}', '\U{2029}', '\U{3000}'}

  /** `Regex.IsMatch(s, @"\d")`: an unanchored search for one digit. */
  function ContainsDigit(s: string): (r: bool)
    ensures r <==> exists i :: 0 <= i < |s| && IsDigit(s[i])
  {
    if s == [] then false
    else if IsDigit(s[0]) then true
    else
      assert forall i :: 1 <= i < |s| ==> s[i] == s[1..][i - 1];
      ContainsDigit(s[1..])
  }

  /** `string.IsNullOrWhiteSpace` on a non-null string: empty or only white space. */
  function IsBlank(s: string): (r: bool)
    ensures r <==> forall i :: 0 <= i < |s| ==> IsWhiteSpace(s[i])
  {
    if s == [] then true
    else if !IsWhiteSpace(s[0]) then false
    else
      assert forall i :: 1 <= i < |s| ==> s[i] == s[1..][i - 1];
      IsBlank(s[1..])
  }

  /** How many white-space characters `s` starts with: the index of its first
      other character, or `|s|`. */
  function LeadingWhiteSpace(s: string): (n: nat)
    ensures n <= |s|
    ensures forall i :: 0 <= i < n ==> IsWhiteSpace(s[i])
    ensures n < |s| ==> !IsWhiteSpace(s[n])
  {
    if s != [] && IsWhiteSpace(s[0]) then
      assert forall i :: 1 <= i < |s| ==> s[i] == s[1..][i - 1];
      1 + LeadingWhiteSpace(s[1..])
    else 0
  }

  /** How many white-space characters `s` ends with. */
  function TrailingWhiteSpace(s: string): (n: nat)
    ensures n <= |s|
    ensures forall i :: |s| - n <= i < |s| ==> IsWhiteSpace(s[i])
    ensures n < |s| ==> !IsWhiteSpace(s[|s| - n - 1])
  {
    if s != [] && IsWhiteSpace(s[|s| - 1]) then 1 + TrailingWhiteSpace(s[..|s| - 1]) else 0
  }

  /** `Trim()`: scans past the white space at the start, then back past the
      white space at the end, and keeps what lies between. */
  function Trim(s: string): (r: string)
    ensures |r| <= |s|
    ensures r != [] ==> !IsWhiteSpace(r[0]) && !IsWhiteSpace(r[|r| - 1])
  {
    var t := s[LeadingWhiteSpace(s)..];
    t[..|t| - TrailingWhiteSpace(t)]
  }

  /** What `Trim` keeps is one slice of `s`, and everything it cuts off on either
      side is white space. */
  lemma TrimKeepsSlice(s: string)
    ensures var r, a := Trim(s), LeadingWhiteSpace(s);
            a + |r| <= |s| && r == s[a..a + |r|]
            && (forall i :: 0 <= i < a ==> IsWhiteSpace(s[i]))
            && (forall i :: a + |r| <= i < |s| ==> IsWhiteSpace(s[i]))
  {
    var a := LeadingWhiteSpace(s);
    var t := s[a..];
    SuffixOfSuffix(s, a, t, t[..|t| - TrailingWhiteSpace(t)]);
  }

  /** A prefix `r` of the suffix `t` of `s` starting at `a` is the slice of `s`
      starting at `a`; what follows `r` in `t` follows it in `s`. */
  lemma SuffixOfSuffix(s: string, a: nat, t: string, r: string)
    requires a <= |s| && t == s[a..] && |r| <= |t| && r == t[..|r|]
    requires forall i :: |r| <= i < |t| ==> IsWhiteSpace(t[i])
    ensures a + |r| <= |s| && r == s[a..a + |r|]
    ensures forall i :: a + |r| <= i < |s| ==> IsWhiteSpace(s[i])
  {
    forall i | a + |r| <= i < |s| ensures IsWhiteSpace(s[i]) {
      assert s[i] == t[i - a];
    }
  }

  /** Trimming a string whose ends are not white space leaves it unchanged, so
      trimming twice is trimming once. */
  lemma TrimIdempotent(s: string)
    ensures Trim(Trim(s)) == Trim(s)
  {
    var r := Trim(s);
    assert LeadingWhiteSpace(r) == 0;
    assert r[0..] == r;
    assert TrailingWhiteSpace(r) == 0;
  }

  /** A string trims to nothing exactly when it is blank. */
  lemma {:induction false} TrimEmptyIffBlank(s: string)
    ensures Trim(s) == [] <==> IsBlank(s)
  {
    var r := Trim(s);
    TrimKeepsSlice(s);
    if r != [] {
      assert s[LeadingWhiteSpace(s)] == r[0];
    }
  }

  /** Trimming white space around a string with non-white ends gives that
      string back: `Trim` removes exactly the surrounding white space. */
  lemma TrimSurrounded(w1: string, s: string, w2: string)
    requires forall i :: 0 <= i < |w1| ==> IsWhiteSpace(w1[i])
    requires forall i :: 0 <= i < |w2| ==> IsWhiteSpace(w2[i])
    requires s != [] && !IsWhiteSpace(s[0]) && !IsWhiteSpace(s[|s| - 1])
    ensures Trim(w1 + s + w2) == s
  {
    var x := w1 + s + w2;
    assert x[|w1|] == s[0];
    assert LeadingWhiteSpace(x) == |w1|;
    var t := x[|w1|..];
    assert t == s + w2;
    assert t[|s| - 1] == s[|s| - 1];
    assert TrailingWhiteSpace(t) == |w2|;
    assert t[..|s|] == s;
  }

  /** `count` copies of the character `c`. */
  function Repeat(c: char, count: nat): (r: string)
    ensures |r| == count && forall i :: 0 <= i < count ==> r[i] == c
  {
    if count == 0 then [] else [c] + Repeat(c, count - 1)
  }

  /** `PadRight(width)`: `s` followed by spaces up to `width`; never truncates. */
  function PadRight(s: string, width: int): (r: string)
    ensures |r| == if |s| < width then width else |s|
    ensures r[..|s|] == s
    ensures forall i :: |s| <= i < |r| ==> r[i] == ' '
  {
    if |s| < width then s + Repeat(' ', width - |s|) else s
  }

  /** `PadLeft(width)` with the pad character `c`: `s` right-aligned in `width`. */
  function PadLeft(s: string, width: int, c: char): (r: string)
    ensures |r| == if |s| < width then width else |s|
    ensures r[|r| - |s|..] == s
    ensures forall i :: 0 <= i < |r| - |s| ==> r[i] == c
  {
    if |s| < width then Repeat(c, width - |s|) + s else s
  }

  /** One element of an anchored fixed-width pattern such as `^\d{2}-\d{3}$`. */
  datatype Token = AnyDigit | Literal(c: char)

  predicate TokenMatches(t: Token, c: char) {
    match t
    case AnyDigit => IsDigit(c)
    case Literal(l) => c == l
  }

  /** Whether the whole of `s` matches `pattern`, token by token. */
  function MatchesExactly(pattern: seq<Token>, s: string): (r: bool)
  {
    if pattern == [] then s == []
    else s != [] && TokenMatches(pattern[0], s[0]) && MatchesExactly(pattern[1..], s[1..])
  }

  /** An anchored pattern matches exactly the strings of its length whose every
      character matches the token at the same position. */
  lemma {:induction false} MatchesExactlyIff(pattern: seq<Token>, s: string)
    ensures MatchesExactly(pattern, s)
        <==> |s| == |pattern| && forall i :: 0 <= i < |s| ==> TokenMatches(pattern[i], s[i])
  {
    if pattern != [] && s != [] {
      MatchesExactlyIff(pattern[1..], s[1..]);
      if |s| == |pattern| && forall i :: 0 <= i < |s| ==> TokenMatches(pattern[i], s[i]) {
        assert forall i :: 0 <= i < |s| - 1 ==> pattern[1..][i] == pattern[i + 1] && s[1..][i] == s[i + 1];
      }
    }
  }

  /** The value of a decimal digit. */
  function DigitValue(c: char): (r: nat)
    requires IsDigit(c)
    ensures r < 10
  {
    (c as int) - ('0' as int)
  }

  /** The digit of a value below ten. */
  function DigitChar(d: nat): (c: char)
    requires d < 10
    ensures IsDigit(c) && DigitValue(c) == d
  {
    (('0' as int) + d) as char
  }

  predicate AllDigits(s: string) {
    forall i :: 0 <= i < |s| ==> IsDigit(s[i])
  }

  /** The number a string of decimal digits denotes (leading zeros allowed). */
  function DigitsValue(s: string): (r: nat)
    requires AllDigits(s)
  {
    if s == [] then 0 else DigitsValue(s[..|s| - 1]) * 10 + DigitValue(s[|s| - 1])
  }

  /** Decimal notation of a natural number, without leading zeros. */
  function NatToString(n: nat): (r: string)
    ensures r != [] && AllDigits(r)
    ensures |r| > 1 ==> r[0] != '0'
  {
    if n < 10 then [DigitChar(n)] else NatToString(n / 10) + [DigitChar(n % 10)]
  }

  /** `10^k`. */
  function Pow10(k: nat): (r: nat)
    ensures r >= 1
  {
    if k == 0 then 1 else 10 * Pow10(k - 1)
  }

  /** A number below `10^width` takes at most `width` digits. */
  lemma {:induction false} NatToStringLength(n: nat, width: nat)
    requires 1 <= width && n < Pow10(width)
    ensures |NatToString(n)| <= width
  {
    if n >= 10 {
      assert width > 1;
      NatToStringLength(n / 10, width - 1);
    }
  }

  /** Reading back the notation of `n` gives `n`. */
  lemma {:induction false} NatToStringRoundTrip(n: nat)
    ensures DigitsValue(NatToString(n)) == n
  {
    var r := NatToString(n);
    if n >= 10 {
      NatToStringRoundTrip(n / 10);
      assert r[..|r| - 1] == NatToString(n / 10);
    }
  }

  /** Leading zeros do not change the value of a digit string. */
  lemma {:induction false} LeadingZerosIgnored(k: nat, s: string)
    requires AllDigits(s)
    ensures AllDigits(Repeat('0', k) + s)
    ensures DigitsValue(Repeat('0', k) + s) == DigitsValue(s)
  {
    var z := Repeat('0', k);
    if s == [] {
      assert z + s == z;
      if k > 0 {
        assert z[..k - 1] == Repeat('0', k - 1);
        LeadingZerosIgnored(k - 1, []);
        assert Repeat('0', k - 1) + [] == Repeat('0', k - 1);
      }
    } else {
      var p, zs := s[..|s| - 1], z + s;
      assert AllDigits(p);
      LeadingZerosIgnored(k, p);
      assert zs[..|zs| - 1] == z + p;
      assert zs[|zs| - 1] == s[|s| - 1];
      assert AllDigits(zs) by {
        forall i | 0 <= i < |zs| ensures IsDigit(zs[i]) {
          if i < k { assert zs[i] == z[i]; } else { assert zs[i] == s[i - k]; }
        }
      }
    }
  }

  /** The C# conversion of an `int` to text: a minus sign for negatives, then
      the decimal digits. */
  function IntToString(n: int): (r: string)
    ensures r != []
    ensures n >= 0 ==> AllDigits(r) && DigitsValue(r) == n
    ensures n < 0 ==> r[0] == '-' && AllDigits(r[1..]) && DigitsValue(r[1..]) == -n
    ensures n >= 0 && |r| > 1 ==> r[0] != '0'
    ensures n < 0 ==> |r| > 1 && r[1] != '0'
  {
    NatToStringRoundTrip(if n < 0 then -n else n);
    if n < 0 then "-" + NatToString(-n) else NatToString(n)
  }

  /** Ordinal (char-code) order on strings: a proper prefix comes first, otherwise
      the first differing character decides. */
  predicate StringLess(a: string, b: string) {
    if a == [] then b != []
    else if b == [] then false
    else if a[0] != b[0] then a[0] < b[0]
    else StringLess(a[1..], b[1..])
  }

  lemma {:induction false} StringLessIrreflexive(a: string)
    ensures !StringLess(a, a)
  {
    if a != [] { StringLessIrreflexive(a[1..]); }
  }

  lemma {:induction false} StringLessTransitive(a: string, b: string, c: string)
    requires StringLess(a, b) && StringLess(b, c)
    ensures StringLess(a, c)
  {
    if a != [] && b != [] && c != [] && a[0] == b[0] && b[0] == c[0] {
      StringLessTransitive(a[1..], b[1..], c[1..]);
    }
  }

  /** Any two different strings are ordered one way or the other. */
  lemma {:induction false} StringLessTotal(a: string, b: string)
    requires a != b
    ensures StringLess(a, b) || StringLess(b, a)
  {
    if a != [] && b != [] && a[0] == b[0] {
      assert a == [a[0]] + a[1..] && b == [b[0]] + b[1..];
      StringLessTotal(a[1..], b[1..]);
    }
  }

  lemma {:induction false} StringLessAsymmetric(a: string, b: string)
    requires StringLess(a, b)
    ensures !StringLess(b, a)
  {
    if a != [] && b != [] && a[0] == b[0] {
      StringLessAsymmetric(a[1..], b[1..]);
    }
  }
}
