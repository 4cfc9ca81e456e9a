/** How decimal numerals compare as strings: the order Python sorts the keys of a source table in. */
module LexKeys {
  import opened Text

  predicate LexLeq(a: string, b: string) {
    a == "" || (b != "" && (a[0] < b[0] || (a[0] == b[0] && LexLeq(a[1..], b[1..]))))
  }

  /** One string sorts before another: it is a beginning of it, or has the smaller character where they first differ. */
  lemma {:induction false} LexExactly(a: string, b: string)
    ensures LexLeq(a, b) <==>
        a <= b || exists n: nat :: n < |a| && n < |b| && a[..n] == b[..n] && a[n] < b[n]
  {
    if a != "" && b != "" {
      var c, d := a[1..], b[1..];
      assert a == [a[0]] + c && b == [b[0]] + d;
      LexExactly(c, d);
      if a[0] == b[0] {
        if n: nat :| n < |c| && n < |d| && c[..n] == d[..n] && c[n] < d[n] {
          assert a[..n + 1] == [a[0]] + c[..n] && b[..n + 1] == [b[0]] + d[..n];
          assert a[n + 1] < b[n + 1];
        }
        if n: nat :| n < |a| && n < |b| && a[..n] == b[..n] && a[n] < b[n] {
          assert c[..n - 1] == a[..n][1..] && d[..n - 1] == b[..n][1..];
          assert c[n - 1] < d[n - 1];
        }
      } else {
        DifferAtOnce(a, b);
      }
    }
  }

  lemma DifferAtOnce(a: string, b: string)
    requires a != "" && b != "" && a[0] != b[0]
    ensures !(a <= b)
    ensures a[0] < b[0] <==> exists n: nat :: n < |a| && n < |b| && a[..n] == b[..n] && a[n] < b[n]
  {
    assert a[..0] == b[..0];
    forall n: nat | 0 < n < |a| && n < |b| ensures a[..n] != b[..n] {
      assert a[..n][0] == a[0] && b[..n][0] == b[0];
    }
  }

  lemma {:induction false} LexTotal(a: string, b: string)
    ensures LexLeq(a, b) || LexLeq(b, a)
    ensures LexLeq(a, a)
    decreases |a|
  {
    if a != "" {
      if b != "" {
        LexTotal(a[1..], b[1..]);
      } else {
        LexTotal(a[1..], "");
      }
    }
  }

  lemma {:induction false} LexAntisymmetric(a: string, b: string)
    requires LexLeq(a, b) && LexLeq(b, a)
    ensures a == b
  {
    if a != "" {
      LexAntisymmetric(a[1..], b[1..]);
      assert a == [a[0]] + a[1..] && b == [b[0]] + b[1..];
    }
  }

  lemma {:induction false} LexTransitive(a: string, b: string, c: string)
    requires LexLeq(a, b) && LexLeq(b, c)
    ensures LexLeq(a, c)
  {
    if a != "" && a[0] == b[0] == c[0] {
      LexTransitive(a[1..], b[1..], c[1..]);
    }
  }

  /** sorted(keys)[-1] */
  method Greatest(keys: set<string>) returns (m: string)
    requires keys != {}
    ensures m in keys && forall k :: k in keys ==> LexLeq(k, m)
  {
    m :| m in keys;
    var rest := keys - {m};
    LexTotal(m, m);
    while rest != {}
      invariant rest <= keys && m in keys
      invariant forall k :: k in keys && k !in rest ==> LexLeq(k, m)
      decreases rest
    {
      var k :| k in rest;
      LexTotal(k, m);
      if !LexLeq(k, m) {
        forall j | j in keys && j !in rest ensures LexLeq(j, k) {
          LexTransitive(j, m, k);
        }
        LexTotal(k, k);
        m := k;
      }
      rest := rest - {k};
    }
  }

  /** e nines, and the number they denote. */
  function Nines(e: nat): (s: string)
    ensures |s| == e && forall i :: 0 <= i < e ==> s[i] == '9'
  {
    seq(e, _ => '9')
  }

  function AllNines(e: nat): nat {
    if e == 0 then 0 else 10 * AllNines(e - 1) + 9
  }

  lemma {:induction false} DecOfNines(e: nat)
    requires e > 0
    ensures Dec(AllNines(e)) == Nines(e)
  {
    assert AllNines(e) / 10 == AllNines(e - 1) && AllNines(e) % 10 == 9;
    if e == 1 {
      assert Dec(9) == "9";
    } else {
      DecOfNines(e - 1);
    }
  }

  /** A number with d digits is at most d nines, and more than d - 1 nines. */
  lemma {:induction false} DecBounds(n: nat)
    ensures n <= AllNines(|Dec(n)|)
    ensures n >= 10 ==> AllNines(|Dec(n)| - 1) < n
  {
    if n >= 10 {
      DecBounds(n / 10);
      if n < 100 {
        assert |Dec(n / 10)| == 1 && AllNines(1) == 9;
      }
    } else {
      assert AllNines(1) == 9;
    }
  }

  /** Every digit but the last is a nine. */
  predicate NinesButLast(n: nat) {
    forall i :: 0 <= i < |Dec(n)| - 1 ==> Dec(n)[i] == '9'
  }

  predicate Digits(s: string) {
    forall i :: 0 <= i < |s| ==> IsDigit(s[i])
  }

  /** Nothing sorts above a row of nines but its own extensions. */
  lemma {:induction false} AboveNines(t: string, e: nat)
    requires Digits(t)
    ensures LexLeq(t, Nines(e)) || (|t| > e && t[..e] == Nines(e))
  {
    if t != "" && e > 0 {
      assert Nines(e)[1..] == Nines(e - 1);
      AboveNines(t[1..], e - 1);
      if t[0] == '9' && |t| > e && t[1..][..e - 1] == Nines(e - 1) {
        assert t[..e] == [t[0]] + t[1..][..e - 1];
        assert Nines(e) == ['9'] + Nines(e - 1);
      }
    }
  }

  /** The last digit decides between numerals that agree up to it. */
  lemma {:induction false} LexSamePrefix(p: string, a: string, b: string)
    ensures LexLeq(p + a, p + b) <==> LexLeq(a, b)
  {
    if p == "" {
      assert p + a == a && p + b == b;
    } else {
      assert (p + a)[1..] == p[1..] + a && (p + b)[1..] == p[1..] + b;
      LexSamePrefix(p[1..], a, b);
    }
  }

  lemma {:induction false} LexPrefix(a: string, b: string)
    requires a <= b
    ensures LexLeq(a, b)
  {
    if a != "" {
      LexPrefix(a[1..], b[1..]);
    }
  }

  /** With nines in front, the numeral of n sorts last among the numerals up to n. */
  lemma TopAmongSmaller(i: nat, n: nat)
    requires i <= n && NinesButLast(n)
    ensures LexLeq(Dec(i), Dec(n))
  {
    var e := |Dec(n)| - 1;
    DecLengthMonotone(i, n);
    assert forall k :: 0 <= k < |Dec(i)| ==> Dec(i)[k] in Dec(i);
    AboveNines(Dec(i), e);
    assert Dec(n)[..e] == Nines(e);
    if LexLeq(Dec(i), Nines(e)) {
      LexPrefix(Nines(e), Dec(n));
      LexTransitive(Dec(i), Nines(e), Dec(n));
    } else if n >= 10 {
      assert Dec(i)[..e] == Dec(i / 10) && Dec(n)[..e] == Dec(n / 10);
      DecInjective(i / 10, n / 10);
      LexSamePrefix(Dec(n / 10), [Digit(i % 10)], [Digit(n % 10)]);
    }
  }

  /** Otherwise a shorter row of nines sorts last, and its successor is among the numerals already. */
  lemma NinesOnTop(i: nat, n: nat)
    requires i <= n && !NinesButLast(n)
    ensures |Dec(n)| >= 2 && LexLeq(Dec(i), Dec(AllNines(|Dec(n)| - 1))) && AllNines(|Dec(n)| - 1) < n
  {
    var e := |Dec(n)| - 1;
    DecBounds(n);
    DecOfNines(e);
    DecLengthMonotone(i, n);
    assert forall k :: 0 <= k < |Dec(i)| ==> Dec(i)[k] in Dec(i);
    AboveNines(Dec(i), e);
    if !LexLeq(Dec(i), Nines(e)) {
      assert Dec(i)[..e] == Dec(i / 10);
      DecInjective(i / 10, AllNines(e));
    }
  }

  /** The keys "0" to str(n - 1). */
  predicate IsKey(n: nat, k: string) {
    Value(k) < n && k == Dec(Value(k))
  }

  lemma KeyOfNumber(n: nat, i: nat)
    ensures IsKey(n, Dec(i)) <==> i < n
  {
    ValueOfDec(i);
  }

  lemma GreatestIsLast(n: nat, m: string)
    requires IsKey(n + 1, m) && LexLeq(Dec(n), m) && NinesButLast(n)
    ensures Value(m) == n
  {
    TopAmongSmaller(Value(m), n);
    LexAntisymmetric(m, Dec(n));
    ValueOfDec(n);
  }

  lemma GreatestIsNines(n: nat, m: string)
    requires IsKey(n + 1, m) && !NinesButLast(n) && forall k :: IsKey(n + 1, k) ==> LexLeq(k, m)
    ensures Value(m) < n
  {
    NinesOnTop(Value(m), n);
    var v := AllNines(|Dec(n)| - 1);
    KeyOfNumber(n + 1, v);
    LexAntisymmetric(m, Dec(v));
    ValueOfDec(v);
  }

  /**
   One more than the key that sorts last among "0" to "n" is a new key exactly when all digits of n but the last
   are nines.
   */
  lemma NextOfGreatestFreshExactly(n: nat, m: string)
    requires IsKey(n + 1, m) && forall k :: IsKey(n + 1, k) ==> LexLeq(k, m)
    ensures !IsKey(n + 1, Dec(Value(m) + 1)) <==> NinesButLast(n)
  {
    KeyOfNumber(n + 1, Value(m) + 1);
    KeyOfNumber(n + 1, n);
    if NinesButLast(n) {
      GreatestIsLast(n, m);
    } else {
      GreatestIsNines(n, m);
    }
  }
}
