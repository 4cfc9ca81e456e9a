/**
 Compact numerals for map snapshots: integers written in base 64 with a '$' sign
 (geonode/utils.py, num_encode and num_decode).
 */
module Numerals {
  import opened Lists

  const BASE := 64
  const SIGN := '$'

  /** The symbol of a digit: upper case, lower case, decimal digits, '-' and '_'. */
  function Symbol(d: nat): char
    requires d < BASE
  {
    if d < 26 then (d + 'A' as int) as char
    else if d < 52 then (d - 26 + 'a' as int) as char
    else if d < 62 then (d - 52 + '0' as int) as char
    else if d == 62 then '-' else '_'
  }

  /** The reverse dictionary; a character outside the alphabet has no entry. */
  function DigitOf(c: char): (d: Option<nat>)
    ensures d.Some? ==> d.value < BASE && Symbol(d.value) == c
  {
    if 'A' <= c <= 'Z' then Some(c as nat - 'A' as nat)
    else if 'a' <= c <= 'z' then Some(c as nat - 'a' as nat + 26)
    else if '0' <= c <= '9' then Some(c as nat - '0' as nat + 52)
    else if c == '-' then Some(62)
    else if c == '_' then Some(63)
    else None
  }

  function EncodeNat(n: nat): (s: string)
    ensures |s| > 0
  {
    if n < BASE then [Symbol(n)] else EncodeNat(n / BASE) + [Symbol(n % BASE)]
  }

  function Encode(n: int): string {
    if n < 0 then [SIGN] + EncodeNat(-n) else EncodeNat(n)
  }

  /** The value of an unsigned numeral, most significant digit first. */
  function DecodeNat(s: string): Option<nat> {
    if s == "" then Some(0)
    else
      match (DecodeNat(s[..|s| - 1]), DigitOf(s[|s| - 1]))
      case (Some(n), Some(d)) => Some(n * BASE + d)
      case _ => None
  }

  /** None stands for the IndexError on an empty numeral and the KeyError on an unknown symbol. */
  function Decode(s: string): Option<int> {
    if s == "" then None
    else if s[0] == SIGN then
      match Decode(s[1..])
      case Some(n) => Some(-n)
      case None => None
    else
      match DecodeNat(s)
      case Some(n) => Some(n)
      case None => None
  }

  function Reverse(s: string): (r: string)
    ensures |r| == |s|
  {
    if s == "" then "" else Reverse(s[1..]) + [s[0]]
  }

  method NumEncode(n: int) returns (s: string)
    ensures s == Encode(n)
    decreases n < 0
  {
    if n < 0 {
      var rest := NumEncode(-n);
      return [SIGN] + rest;
    }
    var q, r := n / BASE, n % BASE;
    var digits := [Symbol(r)];
    while q != 0
      invariant q >= 0
      invariant EncodeNat(n) == if q == 0 then Reverse(digits) else EncodeNat(q) + Reverse(digits)
      decreases q
    {
      ghost var before := digits;
      r, q := q % BASE, q / BASE;
      digits := digits + [Symbol(r)];
      ReverseSnoc(before, Symbol(r));
    }
    s := Reverse(digits);
  }

  lemma {:induction false} ReverseSnoc(s: string, c: char)
    ensures Reverse(s + [c]) == [c] + Reverse(s)
  {
    if s != "" {
      assert (s + [c])[1..] == s[1..] + [c];
      ReverseSnoc(s[1..], c);
    }
  }

  method NumDecode(s: string) returns (r: Option<int>)
    ensures r == Decode(s)
    decreases |s|
  {
    if s == "" {
      return None;
    }
    if s[0] == SIGN {
      var rest := NumDecode(s[1..]);
      return if rest.Some? then Some(-rest.value) else None;
    }
    var n: nat := 0;
    for i := 0 to |s|
      invariant DecodeNat(s[..i]) == Some(n)
    {
      var d := DigitOf(s[i]);
      assert s[..i + 1][..i] == s[..i];
      if d.None? {
        UndecodablePrefix(s, i + 1);
        return None;
      }
      n := n * BASE + d.value;
    }
    assert s[..|s|] == s;
    r := Some(n);
  }

  lemma {:induction false} UndecodablePrefix(s: string, i: nat)
    requires i <= |s| && DecodeNat(s[..i]) == None
    ensures DecodeNat(s) == None
  {
    if i == |s| {
      assert s[..i] == s;
    } else {
      assert s[..|s| - 1][..i] == s[..i];
      UndecodablePrefix(s[..|s| - 1], i);
    }
  }

  // ---- What the numerals mean ----

  function Pow64(k: nat): (p: nat)
    ensures p > 0
  {
    if k == 0 then 1 else BASE * Pow64(k - 1)
  }

  /** Every digit of a numeral stands for its multiple of a power of the base. */
  function PlaceSum(s: string): nat
    requires AllSymbols(s)
  {
    if s == "" then 0 else DigitOf(s[0]).value * Pow64(|s| - 1) + PlaceSum(s[1..])
  }

  predicate AllSymbols(s: string) {
    forall c :: c in s ==> DigitOf(c).Some?
  }

  lemma {:induction false} PlaceSumSnoc(s: string, c: char)
    requires AllSymbols(s) && DigitOf(c).Some?
    ensures AllSymbols(s + [c])
    ensures PlaceSum(s + [c]) == PlaceSum(s) * BASE + DigitOf(c).value
  {
    if s == "" {
      assert (s + [c])[1..] == "";
      assert Pow64(0) == 1;
    } else {
      assert (s + [c])[1..] == s[1..] + [c];
      PlaceSumSnoc(s[1..], c);
      var d, p := DigitOf(s[0]).value, Pow64(|s| - 1);
      assert Pow64(|s|) == BASE * p;
      assert d * (BASE * p) == (d * p) * BASE;
    }
  }

  /** Unsigned decoding is exactly positional notation over the 64 symbols. */
  lemma {:induction false} DecodeIsPositional(s: string)
    ensures DecodeNat(s).Some? <==> AllSymbols(s)
    ensures DecodeNat(s).Some? ==> DecodeNat(s).value == PlaceSum(s)
  {
    if s != "" {
      var init, last := s[..|s| - 1], s[|s| - 1];
      assert s == init + [last];
      assert forall c :: c in s <==> c in init || c == last;
      DecodeIsPositional(init);
      if DecodeNat(s).Some? {
        PlaceSumSnoc(init, last);
      }
    }
  }

  lemma {:induction false} NatRoundTrip(n: nat)
    ensures DecodeNat(EncodeNat(n)) == Some(n)
    ensures EncodeNat(n)[0] != SIGN
  {
    var s := EncodeNat(n);
    var init := s[..|s| - 1];
    if n < BASE {
      assert init == "";
    } else {
      NatRoundTrip(n / BASE);
      assert init == EncodeNat(n / BASE);
    }
  }

  /** Decoding undoes encoding, on every integer. */
  lemma RoundTrip(n: int)
    ensures Decode(Encode(n)) == Some(n)
  {
    if n < 0 {
      NatRoundTrip(-n);
      assert Encode(n)[1..] == EncodeNat(-n);
    } else {
      NatRoundTrip(n);
    }
  }

  /** The corners of the alphabet, the sign, and the order of digits. */
  lemma SampleNumerals()
    ensures Encode(0) == "A" && Encode(25) == "Z" && Encode(26) == "a" && Encode(51) == "z" && Encode(52) == "0"
    ensures Encode(61) == "9" && Encode(62) == "-" && Encode(63) == "_" && Encode(64) == "BA" && Encode(-64) == "$BA"
  {
    assert EncodeNat(64) == EncodeNat(1) + [Symbol(0)];
  }

  /** A number with d digits lies between two neighbouring powers of the base. */
  lemma {:induction false} DigitCount(n: nat)
    requires n > 0
    ensures Pow64(|EncodeNat(n)| - 1) <= n < Pow64(|EncodeNat(n)|)
  {
    if n >= BASE {
      DigitCount(n / BASE);
    }
  }

  /** Written without superfluous zeros: no leading 'A' except for zero itself, no signed zero, at most one sign. */
  predicate Canonical(s: string) {
    CanonicalNat(s) || (|s| > 1 && s[0] == SIGN && CanonicalNat(s[1..]) && s[1..] != "A")
  }

  predicate CanonicalNat(s: string) {
    |s| > 0 && AllSymbols(s) && (s[0] == 'A' ==> |s| == 1)
  }

  lemma {:induction false} EncodeNatCanonical(n: nat)
    ensures CanonicalNat(EncodeNat(n))
    ensures EncodeNat(n) == "A" <==> n == 0
    ensures EncodeNat(n)[0] == 'A' <==> n == 0
  {
    if n >= BASE {
      EncodeNatCanonical(n / BASE);
    }
  }

  lemma SingleSymbolRoundTrip(c: char)
    requires DigitOf(c).Some?
    ensures DecodeNat([c]) == DigitOf(c) && EncodeNat(DigitOf(c).value) == [c]
    ensures DigitOf(c).value == 0 <==> c == 'A'
  {
    assert "" + [c] == [c];
  }

  lemma SnocRoundTrip(s: string, c: char)
    requires DecodeNat(s).Some? && DecodeNat(s).value > 0 && EncodeNat(DecodeNat(s).value) == s && DigitOf(c).Some?
    ensures DecodeNat(s + [c]).Some? && DecodeNat(s + [c]).value > 0 && EncodeNat(DecodeNat(s + [c]).value) == s + [c]
  {
  }

  lemma {:induction false} CanonicalNatRoundTrip(s: string)
    requires CanonicalNat(s)
    ensures DecodeNat(s).Some? && EncodeNat(DecodeNat(s).value) == s
    ensures DecodeNat(s).value == 0 <==> s == "A"
  {
    var init, last := s[..|s| - 1], s[|s| - 1];
    assert s == init + [last] && last in s;
    if |s| == 1 {
      assert s == [last];
      SingleSymbolRoundTrip(last);
    } else {
      assert init[0] == s[0] && forall c :: c in init ==> c in s;
      CanonicalNatRoundTrip(init);
      SnocRoundTrip(init, last);
    }
  }

  lemma {:induction false} CanonicalComesBack(s: string)
    requires Canonical(s)
    ensures Decode(s).Some? && Encode(Decode(s).value) == s
    decreases |s|
  {
    if CanonicalNat(s) {
      assert s[0] in s;
      CanonicalNatRoundTrip(s);
    } else {
      var rest := s[1..];
      assert s == [SIGN] + rest;
      CanonicalComesBack(rest);
      CanonicalNatRoundTrip(rest);
    }
  }

  lemma EncodedIsCanonical(n: int)
    ensures Canonical(Encode(n))
  {
    if n < 0 {
      EncodeNatCanonical(-n);
      assert Encode(n)[1..] == EncodeNat(-n);
    } else {
      EncodeNatCanonical(n);
    }
  }

  /** The strings that encoding gives back after decoding are the canonical ones, and no others. */
  lemma CanonicalExactly(s: string)
    ensures Canonical(s) <==> Decode(s).Some? && Encode(Decode(s).value) == s
  {
    if Canonical(s) {
      CanonicalComesBack(s);
    } else if Decode(s).Some? {
      EncodedIsCanonical(Decode(s).value);
    }
  }
}
