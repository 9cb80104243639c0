/** The string operations of Python that the core relies on: `str.strip()`,
    `str.find`, `str.rfind`, `str.startswith`, `str.upper()`, substring
    containment, and zero-padded decimal rendering as `strftime` does it. */
module Text {

  /** Python's `str.isspace()`: the characters `str.strip()` removes. */
  predicate IsSpace(c: char) {
    || c == ' '
    || '\t' <= c <= '\r'
    || '\U{1C}' <= c <= '\U{1F}'
    || c == '\U{85}' || c == '\U{A0}' || c == '\U{1680}'
    || '\U{2000}' <= c <= '\U{200A}'
    || c == '\U{2028}' || c == '\U{2029}' || c == '\U{202F}'
    || c == '\U{205F}' || c == '\U{3000}'
  }

  /** Empty or made of whitespace only. */
  predicate IsBlank(s: string) {
    forall i :: 0 <= i < |s| ==> IsSpace(s[i])
  }

  /** Neither starts nor ends with whitespace. */
  predicate IsStripped(s: string) {
    s == [] || (!IsSpace(s[0]) && !IsSpace(s[|s| - 1]))
  }

  /** `s` occurs in `t` at some position. */
  ghost predicate IsInfix(s: string, t: string) {
    exists i :: OccursAt(s, t, i)
  }

  /** `s` occurs in `t` starting at index `i`. */
  predicate OccursAt(s: string, t: string, i: int) {
    0 <= i <= |t| - |s| && t[i..i + |s|] == s
  }

  predicate StartsWith(s: string, prefix: string) {
    |prefix| <= |s| && s[..|prefix|] == prefix
  }

  predicate EndsWith(s: string, suffix: string) {
    |suffix| <= |s| && s[|s| - |suffix|..] == suffix
  }

  /** The number of whitespace characters `str.lstrip()` removes. */
  function LeadingSpaces(s: string): (k: nat)
    ensures k <= |s|
  {
    if |s| > 0 && IsSpace(s[0]) then 1 + LeadingSpaces(s[1..]) else 0
  }

  /** The number of whitespace characters `str.rstrip()` removes. */
  function TrailingSpaces(s: string): (k: nat)
    ensures k <= |s|
  {
    if |s| > 0 && IsSpace(s[|s| - 1]) then 1 + TrailingSpaces(s[..|s| - 1]) else 0
  }

  /** `lstrip` removes the whitespace run at the start and stops at the first
      other character. */
  lemma {:induction false} LeadingSpacesSpec(s: string)
    ensures var k := LeadingSpaces(s);
      && (forall i :: 0 <= i < k ==> IsSpace(s[i]))
      && (k == |s| || !IsSpace(s[k]))
  {
    if |s| > 0 && IsSpace(s[0]) {
      LeadingSpacesSpec(s[1..]);
    }
  }

  /** `rstrip` removes the whitespace run at the end and stops at the last
      other character. */
  lemma {:induction false} TrailingSpacesSpec(s: string)
    ensures var k := TrailingSpaces(s);
      && (forall i :: |s| - k <= i < |s| ==> IsSpace(s[i]))
      && (k == |s| || !IsSpace(s[|s| - 1 - k]))
  {
    if |s| > 0 && IsSpace(s[|s| - 1]) {
      TrailingSpacesSpec(s[..|s| - 1]);
    }
  }

  /** The whitespace run at the start of a string is determined by where the
      first non-whitespace character stands. */
  lemma LeadingSpacesUnique(s: string, k: nat)
    requires k <= |s|
    requires forall i :: 0 <= i < k ==> IsSpace(s[i])
    requires k == |s| || !IsSpace(s[k])
    ensures LeadingSpaces(s) == k
  {
    LeadingSpacesSpec(s);
  }

  lemma TrailingSpacesUnique(s: string, k: nat)
    requires k <= |s|
    requires forall i :: |s| - k <= i < |s| ==> IsSpace(s[i])
    requires k == |s| || !IsSpace(s[|s| - 1 - k])
    ensures TrailingSpaces(s) == k
  {
    TrailingSpacesSpec(s);
  }

  /** `str.strip()`: `s` without its leading and trailing whitespace; what
      it keeps is a slice of `s` that neither starts nor ends with whitespace. */
  function Strip(s: string): (r: string)
    ensures IsStripped(r)
    ensures LeadingSpaces(s) + |r| <= |s| && r == s[LeadingSpaces(s)..LeadingSpaces(s) + |r|]
  {
    var k := LeadingSpaces(s);
    var rest := s[k..];
    var r := rest[..|rest| - TrailingSpaces(rest)];
    LeadingSpacesSpec(s);
    TrailingSpacesSpec(rest);
    assert r == s[k..k + |r|];
    r
  }

  /** What `str.strip()` removes is whitespace only. */
  lemma StripRemovesOnlyWhitespace(s: string)
    ensures var k, r := LeadingSpaces(s), Strip(s);
      && (forall i :: 0 <= i < k ==> IsSpace(s[i]))
      && (forall i :: k + |r| <= i < |s| ==> IsSpace(s[i]))
  {
    var k := LeadingSpaces(s);
    var rest := s[k..];
    var t := TrailingSpaces(rest);
    LeadingSpacesSpec(s);
    TrailingSpacesSpec(rest);
    forall i | k + |Strip(s)| <= i < |s| ensures IsSpace(s[i]) {
      assert s[i] == rest[i - k];
    }
  }

  /** `not s or not s.strip()`: the test for a blank company name. */
  lemma BlankIffStripEmpty(s: string)
    ensures IsBlank(s) <==> Strip(s) == []
  {
    StripRemovesOnlyWhitespace(s);
    if !IsBlank(s) {
      var i :| 0 <= i < |s| && !IsSpace(s[i]);
      assert Strip(s) != [];
    }
  }

  lemma StrippedIsFixpoint(s: string)
    requires IsStripped(s)
    ensures Strip(s) == s
  {
    assert LeadingSpaces(s) == 0;
    assert TrailingSpaces(s) == 0;
  }

  /** Before a non-whitespace character, a blank prefix is all stripped and
      a non-blank one keeps its own leading whitespace count. */
  lemma LeadingSpacesOfConcat(p: string, y: string)
    requires y != [] && !IsSpace(y[0])
    ensures LeadingSpaces(p + y) == if IsBlank(p) then |p| else LeadingSpaces(p)
  {
    var s := p + y;
    if IsBlank(p) {
      forall i | 0 <= i < |p| ensures IsSpace(s[i]) { assert s[i] == p[i]; }
      assert s[|p|] == y[0];
      LeadingSpacesUnique(s, |p|);
    } else {
      var k := LeadingSpaces(p);
      LeadingSpacesSpec(p);
      assert k < |p|;
      forall i | 0 <= i < k ensures IsSpace(s[i]) { assert s[i] == p[i]; }
      assert s[k] == p[k];
      LeadingSpacesUnique(s, k);
    }
  }

  lemma TrailingSpacesOfConcat(y: string, q: string)
    requires y != [] && !IsSpace(y[|y| - 1])
    ensures TrailingSpaces(y + q) == if IsBlank(q) then |q| else TrailingSpaces(q)
  {
    var s := y + q;
    if IsBlank(q) {
      forall i | |s| - |q| <= i < |s| ensures IsSpace(s[i]) { assert s[i] == q[i - |y|]; }
      assert s[|s| - 1 - |q|] == y[|y| - 1];
      TrailingSpacesUnique(s, |q|);
    } else {
      var k := TrailingSpaces(q);
      TrailingSpacesSpec(q);
      assert k < |q|;
      forall i | |s| - k <= i < |s| ensures IsSpace(s[i]) { assert s[i] == q[i - |y|]; }
      assert s[|s| - 1 - k] == q[|q| - 1 - k];
      TrailingSpacesUnique(s, k);
    }
  }

  /** `p + x + q` strips to `x` with what `p` and `q` keep of themselves, when
      `x` neither starts nor ends with whitespace: a blank `p` or `q` vanishes,
      otherwise only its outer whitespace goes. */
  lemma StripAround(p: string, x: string, q: string)
    requires x != [] && IsStripped(x)
    ensures Strip(p + x + q)
            == (if IsBlank(p) then [] else p[LeadingSpaces(p)..])
               + x
               + (if IsBlank(q) then [] else q[..|q| - TrailingSpaces(q)])
  {
    var k := if IsBlank(p) then |p| else LeadingSpaces(p);
    var t := if IsBlank(q) then |q| else TrailingSpaces(q);
    var y := p[k..] + x;
    assert LeadingSpaces(p + (x + q)) == k by {
      LeadingSpacesOfConcat(p, x + q);
    }
    assert TrailingSpaces(y + q) == t by {
      assert y[|y| - 1] == x[|x| - 1];
      TrailingSpacesOfConcat(y, q);
    }
    StripSplit(p, x, q, k, t);
  }

  lemma StripSplit(p: string, x: string, q: string, k: nat, t: nat)
    requires k <= |p| && t <= |q|
    requires LeadingSpaces(p + (x + q)) == k
    requires TrailingSpaces(p[k..] + x + q) == t
    ensures Strip(p + x + q) == p[k..] + x + q[..|q| - t]
  {
    var s := p + x + q;
    assert s == p + (x + q);
    var rest := s[k..];
    assert rest == p[k..] + (x + q) by { DropOfConcat(p, x + q, k); }
    assert rest == (p[k..] + x) + q;
    assert rest[..|rest| - t] == (p[k..] + x) + q[..|q| - t] by {
      TakeOfConcat(p[k..] + x, q, |q| - t);
    }
  }

  lemma DropOfConcat(a: string, b: string, k: nat)
    requires k <= |a|
    ensures (a + b)[k..] == a[k..] + b
  {
  }

  lemma TakeOfConcat(a: string, b: string, j: nat)
    requires j <= |b|
    ensures (a + b)[..|a| + j] == a + b[..j]
  {
  }

  /** `s.find(c)` for a one-character needle: the first index of `c`, or -1. */
  function Find(s: string, c: char): (r: int)
    ensures -1 <= r < |s|
    ensures r == -1 <==> c !in s
    ensures r >= 0 ==> s[r] == c && forall i :: 0 <= i < r ==> s[i] != c
  {
    if |s| == 0 then -1
    else if s[0] == c then 0
    else
      var k := Find(s[1..], c);
      assert c in s ==> c in s[1..] by {
        if c in s { var i :| 0 <= i < |s| && s[i] == c; assert s[1..][i - 1] == c; }
      }
      if k == -1 then -1 else k + 1
  }

  /** `s.rfind(c)` for a one-character needle: the last index of `c`, or -1. */
  function RFind(s: string, c: char): (r: int)
    ensures -1 <= r < |s|
    ensures r == -1 <==> c !in s
    ensures r >= 0 ==> s[r] == c && forall i :: r < i < |s| ==> s[i] != c
  {
    if |s| == 0 then -1
    else if s[|s| - 1] == c then |s| - 1
    else
      var k := RFind(s[..|s| - 1], c);
      assert c in s ==> c in s[..|s| - 1] by {
        if c in s { var i :| 0 <= i < |s| && s[i] == c; assert s[..|s| - 1][i] == c; }
      }
      k
  }

  /** The first `c` of `a + b` is the head of `b` when `a` holds none. */
  lemma FindAfterPrefix(a: string, b: string, c: char)
    requires c !in a && b != [] && b[0] == c
    ensures Find(a + b, c) == |a|
  {
    var s := a + b;
    assert s[|a|] == c;
  }

  /** The last `c` of `a + b` is the last character of `a` when `b` holds none. */
  lemma RFindBeforeSuffix(a: string, b: string, c: char)
    requires c !in b && a != [] && a[|a| - 1] == c
    ensures RFind(a + b, c) == |a| - 1
  {
    var s := a + b;
    assert s[|a| - 1] == c;
  }

  /** `sub in s` for strings: a substring test. */
  function HasInfix(s: string, sub: string): (r: bool)
    ensures r <==> IsInfix(sub, s)
    decreases |s|
  {
    if |s| < |sub| then false
    else if s[..|sub|] == sub then assert OccursAt(sub, s, 0); true
    else
      var r := HasInfix(s[1..], sub);
      assert r ==> IsInfix(sub, s) by {
        if r {
          var i :| OccursAt(sub, s[1..], i);
          assert s[1..][i..i + |sub|] == s[i + 1..i + 1 + |sub|];
          assert OccursAt(sub, s, i + 1);
        }
      }
      assert IsInfix(sub, s) ==> r by {
        if IsInfix(sub, s) {
          var i :| OccursAt(sub, s, i);
          assert i != 0;
          assert s[1..][i - 1..i - 1 + |sub|] == s[i..i + |sub|];
          assert OccursAt(sub, s[1..], i - 1);
        }
      }
      r
  }

  /** A string that occurs in `s` brings its first character with it. */
  lemma InfixHeadOccurs(sub: string, s: string)
    requires sub != [] && IsInfix(sub, s)
    ensures sub[0] in s
  {
    var i :| OccursAt(sub, s, i);
    assert s[i] == s[i..i + |sub|][0];
  }

  /** `str.upper()` on ASCII letters; every other character is kept. */
  function UpperChar(c: char): char {
    if 'a' <= c <= 'z' then (c as int - 32) as char else c
  }

  function Upper(s: string): (r: string)
    ensures |r| == |s|
    ensures forall i :: 0 <= i < |s| ==> r[i] == UpperChar(s[i])
    ensures forall i :: 0 <= i < |s| && 'a' <= s[i] <= 'z' ==> r[i] as int == s[i] as int - 32
    ensures forall i :: 0 <= i < |s| && !('a' <= s[i] <= 'z') ==> r[i] == s[i]
    ensures forall i :: 0 <= i < |r| ==> !('a' <= r[i] <= 'z')
  {
    seq(|s|, i requires 0 <= i < |s| => UpperChar(s[i]))
  }

  predicate IsDigit(c: char) { '0' <= c <= '9' }

  function DigitChar(d: int): (c: char)
    requires 0 <= d < 10
    ensures IsDigit(c)
  {
    ('0' as int + d) as char
  }

  function DigitValue(c: char): int
    requires IsDigit(c)
  {
    c as int - '0' as int
  }

  function Pow10(n: nat): (r: nat)
    ensures r >= 1
  {
    if n == 0 then 1 else 10 * Pow10(n - 1)
  }

  /** The value of a string of decimal digits, most significant first. */
  function DecimalValue(s: string): (v: nat)
    requires forall i :: 0 <= i < |s| ==> IsDigit(s[i])
  {
    if s == [] then 0 else 10 * DecimalValue(s[..|s| - 1]) + DigitValue(s[|s| - 1])
  }

  /** `n` written with exactly `width` decimal digits, zero-padded on the left,
      as `strftime` writes `%d`, `%m`, `%H`, `%M`, `%S` (width 2) and `%Y`
      (width 4 for years 1000 to 9999). Reading the digits back gives `n`. */
  function Decimal(n: nat, width: nat): (s: string)
    requires n < Pow10(width)
    ensures |s| == width
    ensures forall i :: 0 <= i < |s| ==> IsDigit(s[i])
    ensures DecimalValue(s) == n
  {
    if width == 0 then []
    else
      var s := Decimal(n / 10, width - 1) + [DigitChar(n % 10)];
      assert s[..|s| - 1] == Decimal(n / 10, width - 1);
      s
  }

  /** The digit of `n` at decimal place `place` (1, 10, 100, ...). */
  function DigitAt(n: nat, place: nat): (c: char)
    requires place >= 1
    ensures IsDigit(c)
  {
    DigitChar(n / place % 10)
  }

  /** Two zero-padded digits are the tens digit and the units digit. */
  lemma DecimalTwoDigits(n: nat)
    requires n < 100
    ensures Decimal(n, 2) == [DigitAt(n, 10), DigitAt(n, 1)]
  {
    assert Decimal(n, 2) == Decimal(n / 10, 1) + [DigitChar(n % 10)];
    assert Decimal(n / 10, 1) == Decimal(n / 10 / 10, 0) + [DigitChar(n / 10 % 10)];
  }

  /** Four zero-padded digits, thousands first. */
  lemma DecimalFourDigits(n: nat)
    requires n < 10000
    ensures Decimal(n, 4) == [DigitAt(n, 1000), DigitAt(n, 100), DigitAt(n, 10), DigitAt(n, 1)]
  {
    assert n / 10 / 10 == n / 100;
    assert n / 100 / 10 == n / 1000;
    DecimalTwoDigits(n / 100);
    assert Decimal(n, 4) == Decimal(n / 10, 3) + [DigitChar(n % 10)];
    assert Decimal(n / 10, 3) == Decimal(n / 100, 2) + [DigitChar(n / 10 % 10)];
  }

  /** Two characters of `s` holding the digits of `n` read as `Decimal(n, 2)`. */
  lemma TwoDigitsAt(s: string, i: nat, n: nat)
    requires n < 100 && i + 2 <= |s|
    requires s[i] == DigitAt(n, 10) && s[i + 1] == DigitAt(n, 1)
    ensures s[i..i + 2] == Decimal(n, 2)
  {
    DecimalTwoDigits(n);
    assert s[i..i + 2] == [s[i], s[i + 1]];
  }

  /** Four characters of `s` holding the digits of `n` read as `Decimal(n, 4)`. */
  lemma FourDigitsAt(s: string, i: nat, n: nat)
    requires n < 10000 && i + 4 <= |s|
    requires s[i] == DigitAt(n, 1000) && s[i + 1] == DigitAt(n, 100)
    requires s[i + 2] == DigitAt(n, 10) && s[i + 3] == DigitAt(n, 1)
    ensures s[i..i + 4] == Decimal(n, 4)
  {
    DecimalFourDigits(n);
    assert s[i..i + 4] == [s[i], s[i + 1], s[i + 2], s[i + 3]];
  }
}
