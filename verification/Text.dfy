/** Decimal printing of integers and cutting of strings at a separator, as used by every name the system builds. */
module Text {

  predicate IsDigit(c: char) {
    '0' <= c <= '9'
  }

  /** The white space of ASCII. */
  predicate IsSpace(c: char) {
    c == ' ' || '\t' <= c <= '\r'
  }

  predicate IsLetter(c: char) {
    'a' <= c <= 'z' || 'A' <= c <= 'Z'
  }

  function Digit(d: nat): (c: char)
    requires d < 10
    ensures IsDigit(c)
  {
    (d + '0' as int) as char
  }

  /** A number below a hundred with two digits. */
  function TwoDigits(n: nat): string
    requires n < 100
  {
    [Digit(n / 10), Digit(n % 10)]
  }

  lemma TwoDigitsInjective(m: nat, n: nat)
    requires m < 100 && n < 100 && TwoDigits(m) == TwoDigits(n)
    ensures m == n
  {
    assert TwoDigits(m)[0] == TwoDigits(n)[0] && TwoDigits(m)[1] == TwoDigits(n)[1];
  }

  /** str(n) for a non-negative n. */
  function Dec(n: nat): (s: string)
    ensures |s| > 0 && forall c :: c in s ==> IsDigit(c)
  {
    if n < 10 then [Digit(n)] else Dec(n / 10) + [Digit(n % 10)]
  }

  /** str(n) for any integer. */
  function DecInt(n: int): (s: string)
    ensures |s| > 0 && forall c :: c in s ==> IsDigit(c) || c == '-'
  {
    if n < 0 then "-" + Dec(-n) else Dec(n)
  }

  /** The number a string of digits denotes; other characters count as zero. */
  function Value(s: string): nat {
    if s == "" then 0
    else 10 * Value(s[..|s| - 1]) + (if IsDigit(s[|s| - 1]) then s[|s| - 1] as nat - '0' as nat else 0)
  }

  lemma {:induction false} ValueOfDec(n: nat)
    ensures Value(Dec(n)) == n
  {
    if n < 10 {
      assert Dec(n)[..0] == "";
    } else {
      ValueOfDec(n / 10);
      assert Dec(n)[..|Dec(n)| - 1] == Dec(n / 10);
    }
  }

  lemma TwoDigitsOf(s: string)
    requires |s| == 2 && IsDigit(s[0]) && IsDigit(s[1])
    ensures Value(s) == 10 * (s[0] as nat - '0' as nat) + (s[1] as nat - '0' as nat)
    ensures Value(s) < 100 && TwoDigits(Value(s)) == s
  {
    var first := s[..1];
    assert first[..|first| - 1] == "" && Value("") == 0;
    assert Value(first) == s[0] as nat - '0' as nat;
    assert Value(s) == 10 * Value(first) + (s[1] as nat - '0' as nat);
  }

  /** The white space characters, by their codes. */
  lemma SpacesExactly(c: char)
    ensures IsSpace(c) <==> c as int in {9, 10, 11, 12, 13, 32}
  {
  }

  lemma DecInjective(m: nat, n: nat)
    requires Dec(m) == Dec(n)
    ensures m == n
  {
    ValueOfDec(m);
    ValueOfDec(n);
  }

  lemma DecIntInjective(m: int, n: int)
    requires DecInt(m) == DecInt(n)
    ensures m == n
  {
    if m < 0 && n < 0 {
      assert DecInt(m)[1..] == Dec(-m) && DecInt(n)[1..] == Dec(-n);
      DecInjective(-m, -n);
    } else if m >= 0 && n >= 0 {
      DecInjective(m, n);
    } else {
      var p := if m < 0 then n else m;
      assert Dec(p)[0] in Dec(p);
      assert false;
    }
  }

  /** Only zero is printed with a leading '0'. */
  lemma {:induction false} DecLeading(n: nat)
    ensures Dec(n)[0] == '0' <==> n == 0
  {
    if n >= 10 {
      DecLeading(n / 10);
      assert Dec(n)[0] == Dec(n / 10)[0];
    }
  }

  lemma {:induction false} DecLengthMonotone(m: nat, n: nat)
    requires m <= n
    ensures |Dec(m)| <= |Dec(n)|
  {
    if m >= 10 {
      DecLengthMonotone(m / 10, n / 10);
    }
  }

  /** A string is cut at the first occurrence of a separator in one way only. */
  lemma CutUnique(a: string, x: string, b: string, y: string, sep: char)
    requires a + [sep] + x == b + [sep] + y
    requires sep !in a && sep !in b
    ensures a == b && x == y
  {
    var whole := a + [sep] + x;
    assert forall k :: 0 <= k < |a| ==> whole[k] == a[k] && a[k] in a;
    assert forall k :: 0 <= k < |b| ==> whole[k] == b[k] && b[k] in b;
    assert whole[|a|] == sep && whole[|b|] == sep;
    assert a == whole[..|a|] && b == whole[..|b|];
    assert x == whole[|a| + 1..] && y == whole[|b| + 1..];
  }

  /** The same, cutting at the last occurrence. */
  lemma CutLastUnique(a: string, x: string, b: string, y: string, sep: char)
    requires a + [sep] + x == b + [sep] + y
    requires sep !in x && sep !in y
    ensures a == b && x == y
  {
    var whole := a + [sep] + x;
    assert forall k :: |a| < k < |whole| ==> whole[k] == x[k - |a| - 1] && whole[k] in x;
    assert forall k :: |b| < k < |whole| ==> whole[k] == y[k - |b| - 1] && whole[k] in y;
    assert whole[|a|] == sep && whole[|b|] == sep;
    assert a == whole[..|a|] && b == whole[..|b|];
    assert x == whole[|a| + 1..] && y == whole[|b| + 1..];
  }
}
