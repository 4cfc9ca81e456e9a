/**
 Choosing a login name for an approved data request (geonode/datarequests/utils.py, create_login_credentials).
 The names are already transliterated to ASCII; the directory query is a list of entries.
 */
module Usernames {
  import opened Lists
  import opened Text

  const UNALLOWED := "\"[]:;|=+*?<>/\\,."

  predicate Allowed(c: char) {
    c !in UNALLOWED
  }

  function LowerChar(c: char): char {
    if 'A' <= c <= 'Z' then (c as int - 'A' as int + 'a' as int) as char else c
  }

  function Lower(s: string): string {
    seq(|s|, i requires 0 <= i < |s| => LowerChar(s[i]))
  }

  predicate NotSpace(c: char) {
    !IsSpace(c)
  }

  /** "".join(s.split()): the text without its white space. */
  function Squeeze(s: string): string {
    Filter(s, NotSpace)
  }

  /** The first character of every word of s.split(). */
  function Initials(s: string, inWord: bool := false): string {
    if s == "" then ""
    else if IsSpace(s[0]) then Initials(s[1..], false)
    else if inWord then Initials(s[1..], true)
    else [s[0]] + Initials(s[1..], true)
  }

  lemma {:induction false} InitialsFrom(s: string, inWord: bool)
    ensures forall c :: c in Initials(s, inWord) ==> c in s && !IsSpace(c)
  {
    if s != "" {
      InitialsFrom(s[1..], !IsSpace(s[0]));
      assert forall c :: c in s[1..] ==> c in s;
    }
  }

  predicate Word(w: string) {
    w != "" && forall c :: c in w ==> !IsSpace(c)
  }

  predicate Words(ws: seq<string>) {
    forall i :: 0 <= i < |ws| ==> Word(ws[i])
  }

  function Heads(ws: seq<string>): string
    requires Words(ws)
  {
    seq(|ws|, i requires 0 <= i < |ws| => ws[i][0])
  }

  function Joined(ws: seq<string>): string {
    if ws == [] then "" else ws[0] + Joined(ws[1..])
  }

  /** s.split(): the maximal runs without white space. */
  function SplitWords(s: string): (ws: seq<string>)
    ensures Words(ws)
    ensures s != "" && !IsSpace(s[0]) ==> ws != []
  {
    if s == "" then []
    else if IsSpace(s[0]) then SplitWords(s[1..])
    else
      var ws := SplitWords(s[1..]);
      if |s| > 1 && !IsSpace(s[1]) then [[s[0]] + ws[0]] + ws[1..] else [[s[0]]] + ws
  }

  lemma {:induction false} InitialsAreHeads(s: string, inWord: bool)
    ensures Initials(s, inWord)
         == if inWord && s != "" && !IsSpace(s[0]) then Heads(SplitWords(s))[1..] else Heads(SplitWords(s))
  {
    if s != "" {
      InitialsAreHeads(s[1..], !IsSpace(s[0]));
    }
  }

  lemma {:induction false} SqueezedIsJoined(s: string)
    ensures Squeeze(s) == Joined(SplitWords(s))
    ensures Squeeze(s) == "" <==> SplitWords(s) == []
    ensures SplitWords(s) != [] ==> Squeeze(s) != "" && Squeeze(s)[0] == SplitWords(s)[0][0]
  {
    if s != "" {
      SqueezedIsJoined(s[1..]);
      assert s == [s[0]] + s[1..];
      FilterCons(s[0], s[1..], NotSpace);
    }
  }

  lemma {:induction false} InitialsOfLower(s: string, inWord: bool)
    ensures Initials(Lower(s), inWord) == Lower(Initials(s, inWord))
  {
    if s != "" {
      var rest := s[1..];
      assert Lower(s)[0] == LowerChar(s[0]) && Lower(s)[1..] == Lower(rest);
      InitialsOfLower(rest, !IsSpace(s[0]));
      assert Lower([s[0]] + Initials(rest, true)) == [LowerChar(s[0])] + Lower(Initials(rest, true));
    }
  }

  lemma LowerTwice(a: string, c: char, b: string)
    ensures Lower(Lower(a) + [c] + b) == Lower(a + [c] + b)
  {
  }

  /** The initials of all first names, the middle initial and the last name in full. */
  function FullName(first: string, middle: string, last: string): string
    requires SplitWords(middle) != []
  {
    Heads(SplitWords(first)) + [SplitWords(middle)[0][0]] + Joined(SplitWords(last))
  }

  lemma BaseParts(first: string, middle: string, last: string)
    requires Squeeze(middle) != ""
    ensures SplitWords(middle) != []
    ensures Lower(Initials(Lower(first)) + [Squeeze(middle)[0]] + Squeeze(last)) == Lower(FullName(first, middle, last))
  {
    InitialsOfLower(first, false);
    InitialsAreHeads(first, false);
    SqueezedIsJoined(middle);
    SqueezedIsJoined(last);
    LowerTwice(Heads(SplitWords(first)), SplitWords(middle)[0][0], Joined(SplitWords(last)));
  }

  lemma BaseCharacters(first: string, middle: string, last: string)
    requires Squeeze(middle) != ""
    ensures forall c :: c in Lower(Initials(Lower(first)) + [Squeeze(middle)[0]] + Squeeze(last)) ==>
        !IsSpace(c) && !('A' <= c <= 'Z')
  {
    InitialsFrom(Lower(first), false);
    assert Squeeze(middle)[0] in Squeeze(middle);
    var whole := Initials(Lower(first)) + [Squeeze(middle)[0]] + Squeeze(last);
    assert forall i :: 0 <= i < |whole| ==> whole[i] in whole;
  }

  /**
   Initials, middle initial and last name without the disallowed characters; None is the IndexError without a
   middle name.
   */
  function BaseUsername(first: string, middle: string, last: string): (r: Option<string>)
    ensures r.None? <==> SplitWords(middle) == []
    ensures r.Some? ==> r.value == Filter(Lower(FullName(first, middle, last)), Allowed)
    ensures r.Some? ==> forall c :: c in r.value ==> Allowed(c) && !IsSpace(c) && !('A' <= c <= 'Z')
  {
    SqueezedIsJoined(middle);
    if Squeeze(middle) == "" then None
    else
      BaseCharacters(first, middle, last);
      BaseParts(first, middle, last);
      Some(Filter(Lower(Initials(Lower(first)) + [Squeeze(middle)[0]] + Squeeze(last)), Allowed))
  }

  lemma {:induction false} InitialOfWord(w: string, rest: string, inWord: bool)
    requires w != "" ==> Word(w)
    ensures Initials(w + " " + rest, inWord) == (if w == "" || inWord then "" else [w[0]]) + Initials(rest)
    ensures Initials(w, inWord) == if w == "" || inWord then "" else [w[0]]
  {
    var whole := w + " " + rest;
    if w == "" {
      assert whole[1..] == rest && IsSpace(' ');
    } else {
      assert w[0] in w && forall c :: c in w[1..] ==> c in w;
      InitialOfWord(w[1..], rest, true);
      assert whole[1..] == w[1..] + " " + rest;
    }
  }

  /** Words with a space between neighbours. */
  function Spaced(ws: seq<string>): string {
    if ws == [] then "" else if |ws| == 1 then ws[0] else ws[0] + " " + Spaced(ws[1..])
  }

  /**
   Any number of first names, a middle name and a last name of any number of words: the initials of all first names, the
   middle initial and the last name in full, in lower case and in this order.
   */
  lemma BaseOfWords(first: seq<string>, middle: seq<string>, last: seq<string>)
    requires Words(first) && Words(middle) && Words(last) && middle != []
    ensures BaseUsername(Spaced(first), Spaced(middle), Spaced(last))
         == Some(Filter(Lower(Heads(first) + [middle[0][0]] + Joined(last)), Allowed))
  {
    InitialsOfWords(first);
    SqueezeWords(middle);
    SqueezeWords(last);
    assert Joined(middle)[0] == middle[0][0];
    LowerTwice(Heads(first), middle[0][0], Joined(last));
  }

  /** The disallowed characters, and the capitals and their small letters. */
  lemma CharactersExactly(c: char)
    ensures !Allowed(c) <==> c in ['"', '[', ']', ':', ';', '|', '=', '+', '*', '?', '<', '>', '/', '\\', ',', '.']
    ensures LowerChar(c) as int == c as int + if 65 <= c as int <= 90 then 32 else 0
  {
  }

  /** Two first names, a middle name and a last name of two words. */
  lemma BaseOfFive(f: string, g: string, m: string, l: string, n: string)
    requires Words([f, g, m, l, n])
    ensures Word(f) && Word(g) && Word(m)
    ensures BaseUsername(f + " " + g, m, l + " " + n)
         == Some(Filter(Lower([f[0], g[0], m[0]] + l + n), Allowed))
  {
    FiveWords(f, g, m, l, n);
    SpacedTwo(f, g);
    SpacedTwo(l, n);
    BaseOfWords([f, g], [m], [l, n]);
    FivePieces(f, g, m, l, n);
  }

  lemma FiveWords(f: string, g: string, m: string, l: string, n: string)
    requires Words([f, g, m, l, n])
    ensures Word(f) && Word(g) && Word(m) && Words([f, g]) && Words([m]) && Words([l, n])
  {
    var ws := [f, g, m, l, n];
    assert Word(ws[0]) && Word(ws[1]) && Word(ws[2]) && Word(ws[3]) && Word(ws[4]);
  }

  lemma FivePieces(f: string, g: string, m: string, l: string, n: string)
    requires Words([f, g]) && Word(f) && Word(g) && Word(m)
    ensures Heads([f, g]) + [m[0]] + Joined([l, n]) == [f[0], g[0], m[0]] + l + n
  {
    JoinedTwo(l, n);
    assert Heads([f, g]) == [f[0], g[0]];
  }

  lemma JoinedTwo(v: string, w: string)
    ensures Joined([v, w]) == v + w
  {
    assert [v, w][1..] == [w] && [w][1..] == [];
    assert Joined([w]) == w;
  }

  lemma SpacedTwo(v: string, w: string)
    ensures Spaced([v, w]) == v + " " + w
  {
    assert [v, w][1..] == [w];
  }

  lemma {:induction false} InitialsOfWords(ws: seq<string>)
    requires Words(ws)
    ensures Initials(Lower(Spaced(ws))) == Lower(Heads(ws))
  {
    if ws != [] {
      var w, rest := ws[0], ws[1..];
      LowerWord(w);
      InitialOfWord(Lower(w), Lower(Spaced(rest)), false);
      InitialsOfWords(rest);
      assert Heads(ws) == [w[0]] + Heads(rest);
      assert Lower([w[0]] + Heads(rest)) == [LowerChar(w[0])] + Lower(Heads(rest));
      if |ws| > 1 {
        assert Lower(w + " " + Spaced(rest)) == Lower(w) + " " + Lower(Spaced(rest));
      } else {
        assert Lower(Heads(rest)) == "";
      }
    }
  }

  lemma LowerWord(w: string)
    requires Word(w)
    ensures Word(Lower(w)) && Lower(w)[0] == LowerChar(w[0])
  {
    assert forall i :: 0 <= i < |w| ==> w[i] in w;
  }

  lemma {:induction false} SqueezeWords(ws: seq<string>)
    requires Words(ws)
    ensures Squeeze(Spaced(ws)) == Joined(ws)
  {
    if ws != [] {
      var w, rest := ws[0], ws[1..];
      SqueezeWord(w);
      SqueezeWords(rest);
      if |ws| > 1 {
        assert w + " " + Spaced(rest) == w + (" " + Spaced(rest));
        FilterAppend(w, " " + Spaced(rest), NotSpace);
        FilterCons(' ', Spaced(rest), NotSpace);
      }
    }
  }

  lemma SqueezeWord(w: string)
    requires Word(w)
    ensures Squeeze(w) == w
  {
    FilterAll(w, NotSpace);
  }

  /** s.replace(x, '') */
  function Without(s: string, x: char): string {
    Filter(s, c => c != x)
  }

  lemma {:induction false} FilterTwice(s: string, p: char -> bool, q: char -> bool, both: char -> bool)
    requires forall c :: both(c) <==> p(c) && q(c)
    ensures Filter(Filter(s, p), q) == Filter(s, both)
  {
    if s != "" {
      FilterTwice(s[1..], p, q, both);
      var rest := Filter(s[1..], p);
      assert p(s[0]) ==> ([s[0]] + rest)[1..] == rest;
    }
  }

  /** The removal loop: it walks over the name as it was at the start while the name shrinks. */
  method RemoveDisallowed(name: string) returns (r: string)
    ensures r == Filter(name, Allowed)
  {
    r := name;
    ghost var seen := (c: char) => Allowed(c) || c !in name[..0];
    FilterAll(name, seen);
    for i := 0 to |name|
      invariant forall c :: seen(c) <==> Allowed(c) || c !in name[..i]
      invariant r == Filter(name, seen)
    {
      var x := name[i];
      ghost var next := (c: char) => Allowed(c) || c !in name[..i + 1];
      assert name[..i + 1] == name[..i] + [x];
      if x in UNALLOWED {
        r := Without(r, x);
        FilterTwice(name, seen, c => c != x, next);
      } else {
        FilterSame(name, seen, next);
      }
      seen := next;
    }
    assert name[..|name|] == name;
    FilterSame(name, seen, Allowed);
  }

  /** An entry of the directory's answer: a referral without a name, or an account. */
  datatype Entry = Referral | Account(name: string)

  /** base, base1, base12, base123, ...: every try appends the counter to the previous try. */
  function Candidate(base: string, k: nat): (s: string)
    ensures |s| >= |base| + k && base <= s
  {
    if k == 0 then base else Candidate(base, k - 1) + Dec(k)
  }

  /**
   The candidates: the base, then the base with 1, with 12, with 123; each is the last one with its own number
   behind.
   */
  lemma CandidatesExactly(base: string, k: nat)
    ensures Candidate(base, 0) == base && Candidate(base, 1) == base + "1" && Candidate(base, 2) == base + "12"
    ensures Candidate(base, 3) == base + "123"
    ensures Candidate(base, k + 1) == Candidate(base, k) + Dec(k + 1)
  {
    assert Dec(1) == "1" && Dec(2) == "2" && Dec(3) == "3";
    assert base + "1" + "2" == base + "12" && base + "12" + "3" == base + "123";
  }

  /** The variables of the search loop. */
  datatype Search = Search(final: string, counter: nat, unique: bool)

  /** One pass of the while loop over the listing. */
  function Pass(listing: seq<Entry>, st: Search): Search {
    var name := if st.counter > 0 then st.final + Dec(st.counter) else st.final;
    if Account(name) in listing then Search(name, st.counter + 1, false)
    else Search(name, st.counter, st.unique || listing != [])
  }

  /** At most n passes; the loop stops once the name is unique. */
  function Run(listing: seq<Entry>, st: Search, n: nat): Search
    decreases n
  {
    if n == 0 || st.unique then st else Run(listing, Pass(listing, st), n - 1)
  }

  function Longest(listing: seq<Entry>): (n: nat)
    ensures forall e :: e in listing && e.Account? ==> |e.name| <= n
  {
    if listing == [] then 0
    else
      var rest := Longest(listing[1..]);
      assert forall e :: e in listing <==> e == listing[0] || e in listing[1..];
      if listing[0].Account? && |listing[0].name| > rest then |listing[0].name| else rest
  }

  predicate Taken(base: string, listing: seq<Entry>, k: nat) {
    Account(Candidate(base, k)) in listing
  }

  predicate FirstFree(base: string, listing: seq<Entry>, k: nat) {
    !Taken(base, listing, k) && forall j: nat :: j < k ==> Taken(base, listing, j)
  }

  /** The candidates grow, so one of them is free whatever the directory holds. */
  lemma FreeCandidateExists(base: string, listing: seq<Entry>) returns (k: nat)
    ensures FirstFree(base, listing, k)
  {
    k := 0;
    while Taken(base, listing, k)
      invariant forall j: nat :: j < k ==> Taken(base, listing, j)
      decreases Longest(listing) - k
    {
      assert |Candidate(base, k)| <= Longest(listing);
      k := k + 1;
    }
  }

  /** What is chosen when the base, or the base with 1, or the base with 12 is free. */
  predicate FirstOfThree(base: string, listing: seq<Entry>, final: string) {
    if Account(base) !in listing then final == base
    else if Account(base + "1") !in listing then final == base + "1"
    else if Account(base + "12") !in listing then final == base + "12"
    else base + "123" <= final
  }

  lemma FirstThree(base: string, listing: seq<Entry>, k: nat)
    requires FirstFree(base, listing, k)
    ensures FirstOfThree(base, listing, Candidate(base, k))
  {
    CandidatesExactly(base, 0);
    assert k > 0 ==> Taken(base, listing, 0);
    assert k > 1 ==> Taken(base, listing, 1);
    assert k > 2 ==> Taken(base, listing, 2);
    if k > 2 {
      CandidatesGrow(base, 3, k);
    }
  }

  lemma {:induction false} CandidatesGrow(base: string, j: nat, k: nat)
    requires j <= k
    ensures Candidate(base, j) <= Candidate(base, k)
  {
    if j < k {
      CandidatesGrow(base, j, k - 1);
    }
  }

  /** The state at the head of pass c, after c collisions. */
  function AtPass(base: string, c: nat): Search {
    Search(if c == 0 then base else Candidate(base, c - 1), c, false)
  }

  lemma PassAt(base: string, listing: seq<Entry>, c: nat)
    requires listing != []
    ensures Pass(listing, AtPass(base, c))
         == if Taken(base, listing, c) then AtPass(base, c + 1) else Search(Candidate(base, c), c, true)
  {
  }

  lemma {:induction false} RunReaches(base: string, listing: seq<Entry>, k: nat, c: nat, n: nat)
    requires listing != [] && FirstFree(base, listing, k) && c <= k && n == k - c + 1
    ensures Run(listing, AtPass(base, c), n) == Search(Candidate(base, k), k, true)
    decreases n
  {
    PassAt(base, listing, c);
    if c < k {
      RunReaches(base, listing, k, c + 1, n - 1);
    }
  }

  lemma {:induction false} RunIdles(base: string, n: nat)
    ensures Run([], AtPass(base, 0), n) == AtPass(base, 0)
  {
    if n > 0 {
      RunIdles(base, n - 1);
    }
  }

  /** The loop comes to an end exactly when the directory's answer has an entry. */
  lemma TerminatesExactly(base: string, listing: seq<Entry>)
    ensures (exists n: nat :: Run(listing, AtPass(base, 0), n).unique) <==> listing != []
  {
    if listing == [] {
      forall n: nat ensures !Run(listing, AtPass(base, 0), n).unique {
        RunIdles(base, n);
      }
    } else {
      var k := FreeCandidateExists(base, listing);
      RunReaches(base, listing, k, 0, k + 1);
      assert Run(listing, AtPass(base, 0), k + 1).unique;
    }
  }

  /** The listing is a full answer for the prefix: it has every account of the directory that starts with it. */
  ghost predicate Answers(listing: seq<Entry>, directory: set<string>, prefix: string) {
    forall d :: d in directory && prefix <= d ==> Account(d) in listing
  }

  method CreateUsername(base: string, listing: seq<Entry>, ghost directory: set<string>) returns (final: string)
    requires listing != []
    requires Answers(listing, directory, base)
    ensures final !in directory
    ensures exists k: nat :: final == Candidate(base, k) && FirstFree(base, listing, k)
    ensures FirstOfThree(base, listing, final)
    ensures (forall c :: c in base ==> Allowed(c)) ==> forall c :: c in final ==> Allowed(c)
  {
    var unique, counter := false, 0;
    final := base;
    ghost var k := FreeCandidateExists(base, listing);
    while !unique
      invariant counter <= k
      invariant !unique ==> final == AtPass(base, counter).final
      invariant unique ==> counter == k && final == Candidate(base, k)
      decreases !unique, k - counter
    {
      if counter > 0 {
        final := final + Dec(counter);
      }
      assert final == Candidate(base, counter);
      var i := 0;
      while i < |listing|
        invariant i <= |listing|
        invariant Account(final) !in listing[..i]
        invariant i > 0 ==> unique
        decreases |listing| - i
      {
        match listing[i] {
          case Referral =>
            unique := true;
          case Account(name) =>
            if final == name {
              break;
            }
            unique := true;
        }
        i := i + 1;
      }
      assert listing[..|listing|] == listing;
      assert Taken(base, listing, counter) <==> i < |listing|;
      if i < |listing| {
        counter := counter + 1;
        unique := false;
      }
    }
    FirstThree(base, listing, k);
    if forall c :: c in base ==> Allowed(c) {
      CandidateAllowed(base, k);
    }
  }

  lemma {:induction false} CandidateAllowed(base: string, k: nat)
    requires forall c :: c in base ==> Allowed(c)
    ensures forall c :: c in Candidate(base, k) ==> Allowed(c)
  {
    if k > 0 {
      CandidateAllowed(base, k - 1);
      assert forall c :: IsDigit(c) ==> Allowed(c);
    }
  }

  /** Of the whole procedure: a name no account of the directory has, free of disallowed characters. */
  method CreateLoginCredentials(
      first: string, middle: string, last: string, listing: seq<Entry>, ghost directory: set<string>)
    returns (r: Option<string>)
    requires listing != []
    requires BaseUsername(first, middle, last).Some? ==>
        Answers(listing, directory, BaseUsername(first, middle, last).value)
    ensures r.None? <==> Squeeze(middle) == ""
    ensures r.Some? ==> r.value !in directory && forall c :: c in r.value ==> Allowed(c)
    ensures r.Some? ==> BaseUsername(first, middle, last).Some?
    ensures r.Some? ==> exists k: nat :: r.value == Candidate(BaseUsername(first, middle, last).value, k)
                                         && FirstFree(BaseUsername(first, middle, last).value, listing, k)
    ensures r.Some? ==> FirstOfThree(BaseUsername(first, middle, last).value, listing, r.value)
  {
    var m := Squeeze(middle);
    if m == "" {
      return None;
    }
    var base := RemoveDisallowed(Lower(Initials(Lower(first)) + [m[0]] + Squeeze(last)));
    var final := CreateUsername(base, listing, directory);
    r := Some(final);
  }
}
