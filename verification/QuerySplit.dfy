/**
 The search box's keyword splitter (geonode/utils.py, _split_query): words are separated by spaces,
 a block in double quotes stays together.
 */
module QuerySplit {
  import opened Lists
  import opened Text

  const QUOTE := '"'

  /** str.strip() */
  function Strip(s: string): (r: string)
    ensures |r| <= |s| && Stripped(r)
    ensures Stripped(s) ==> r == s
  {
    if s == "" then ""
    else if IsSpace(s[0]) then Strip(s[1..])
    else if IsSpace(s[|s| - 1]) then Strip(s[..|s| - 1])
    else s
  }

  predicate Stripped(s: string) {
    s != "" ==> !IsSpace(s[0]) && !IsSpace(s[|s| - 1])
  }

  /** A character in front of the pieces of a text: a space starts a new piece. */
  function PutBefore(c: char, pieces: seq<string>): (r: seq<string>)
    requires pieces != []
    ensures r != []
  {
    if c == ' ' then [""] + pieces else [[c] + pieces[0]] + pieces[1..]
  }

  /** query.split(' '): never empty, an empty piece between two neighbouring spaces. */
  function SplitSpaces(q: string): (pieces: seq<string>)
    ensures pieces != []
  {
    if q == "" then [""] else PutBefore(q[0], SplitSpaces(q[1..]))
  }

  lemma {:induction false} OnePiece(q: string)
    ensures |SplitSpaces(q)| == 1 <==> ' ' !in q
  {
    if q != "" {
      OnePiece(q[1..]);
    }
  }

  /** The keywords collected so far and the quoted block under construction, if one is open. */
  datatype Scanner = Scanner(keywords: seq<string>, accum: Option<string>)

  predicate Opens(kw: string) {
    kw != "" && kw[0] == QUOTE
  }

  predicate Closes(kw: string) {
    kw != "" && kw[|kw| - 1] == QUOTE
  }

  function Step(st: Scanner, kw: string): Scanner {
    match st.accum
    case None =>
      if Opens(kw) then st.(accum := Some(kw[1..]))
      else if kw != "" then st.(keywords := st.keywords + [kw])
      else st
    case Some(accum) =>
      var longer := accum + " " + kw;
      if Closes(kw) then Scanner(st.keywords + [longer[..|longer| - 1]], None)
      else st.(accum := Some(longer))
  }

  function Scan(st: Scanner, pieces: seq<string>): Scanner
    decreases |pieces|
  {
    if pieces == [] then st else Scan(Step(st, pieces[0]), pieces[1..])
  }

  /** A block still open at the end counts as a keyword. */
  function Finish(st: Scanner): seq<string> {
    match st.accum
    case None => st.keywords
    case Some(accum) => st.keywords + [accum]
  }

  /** [kw.strip() for kw in keywords if kw.strip()] */
  function Clean(keywords: seq<string>): (r: seq<string>)
    ensures forall k :: k in r ==> k != "" && Stripped(k)
  {
    if keywords == [] then []
    else
      var kw := Strip(keywords[0]);
      if kw != "" then [kw] + Clean(keywords[1..]) else Clean(keywords[1..])
  }

  function Keywords(query: string): (r: seq<string>)
    ensures forall k :: k in r ==> k != "" && Stripped(k)
  {
    Clean(Finish(Scan(Scanner([], None), SplitSpaces(query))))
  }

  method SplitQuery(query: string) returns (r: seq<string>)
    ensures r == Keywords(query)
    ensures forall k :: k in r ==> k != "" && Stripped(k)
  {
    var qq := SplitSpaces(query);
    var keywords: seq<string>, accum: Option<string> := [], None;
    for i := 0 to |qq|
      invariant Scan(Scanner([], None), qq) == Scan(Scanner(keywords, accum), qq[i..])
    {
      var kw := qq[i];
      assert qq[i..][1..] == qq[i + 1..];
      if accum.None? {
        if Opens(kw) {
          accum := Some(kw[1..]);
        } else if kw != "" {
          keywords := keywords + [kw];
        }
      } else {
        accum := Some(accum.value + " " + kw);
        if Closes(kw) {
          keywords := keywords + [accum.value[..|accum.value| - 1]];
          accum := None;
        }
      }
    }
    if accum.Some? {
      keywords := keywords + [accum.value];
    }
    r := StripAll(keywords);
  }

  method StripAll(keywords: seq<string>) returns (r: seq<string>)
    ensures r == Clean(keywords)
  {
    r := [];
    for i := 0 to |keywords|
      invariant Clean(keywords) == r + Clean(keywords[i..])
    {
      assert keywords[i..][1..] == keywords[i + 1..];
      if Strip(keywords[i]) != "" {
        r := r + [Strip(keywords[i])];
      }
    }
  }

  // ---- Printing keywords so that splitting gives them back ----

  /** A keyword with a space goes between quotes, any other is written as it is. */
  function Printed(k: string): string {
    if ' ' in k then [QUOTE] + k + [QUOTE] else k
  }

  function Print(ks: seq<string>): string {
    if ks == [] then ""
    else if |ks| == 1 then Printed(ks[0])
    else Printed(ks[0]) + " " + Print(ks[1..])
  }

  /** The keywords that survive printing and splitting. */
  predicate Printable(k: string) {
    && k != "" && Stripped(k)
    && if ' ' in k then forall i :: 0 < i < |SplitSpaces(k)| - 1 ==> !Closes(SplitSpaces(k)[i]) else !Opens(k)
  }

  lemma {:induction false} SplitConcat(a: string, b: string)
    ensures SplitSpaces(a + " " + b) == SplitSpaces(a) + SplitSpaces(b)
  {
    var whole := a + " " + b;
    if a == "" {
      assert whole[0] == ' ' && whole[1..] == b;
    } else {
      assert whole[0] == a[0] && whole[1..] == a[1..] + " " + b;
      SplitConcat(a[1..], b);
    }
  }

  lemma {:induction false} ScanConcat(st: Scanner, a: seq<string>, b: seq<string>)
    ensures Scan(st, a + b) == Scan(Scan(st, a), b)
    decreases |a|
  {
    if a == [] {
      assert a + b == b;
    } else {
      assert (a + b)[1..] == a[1..] + b;
      ScanConcat(Step(st, a[0]), a[1..], b);
    }
  }

  /** a followed by the pieces, each after a space. */
  function Glue(a: string, pieces: seq<string>): string
    decreases |pieces|
  {
    if pieces == [] then a else Glue(a + " " + pieces[0], pieces[1..])
  }

  /** The length the pieces add, each with its space. */
  function Total(pieces: seq<string>): nat {
    if pieces == [] then 0 else |pieces[0]| + 1 + Total(pieces[1..])
  }

  lemma {:induction false} GlueLength(a: string, pieces: seq<string>)
    ensures |Glue(a, pieces)| == |a| + Total(pieces)
    ensures a <= Glue(a, pieces)
    decreases |pieces|
  {
    if pieces != [] {
      GlueLength(a + " " + pieces[0], pieces[1..]);
    }
  }

  lemma {:induction false} GluePrepend(c: string, a: string, pieces: seq<string>)
    ensures Glue(c + a, pieces) == c + Glue(a, pieces)
    decreases |pieces|
  {
    if pieces != [] {
      assert c + a + " " + pieces[0] == c + (a + " " + pieces[0]);
      GluePrepend(c, a + " " + pieces[0], pieces[1..]);
    }
  }

  /** The text a list of pieces was split from. */
  function Whole(pieces: seq<string>): string
    requires pieces != []
  {
    Glue(pieces[0], pieces[1..])
  }

  lemma WholeOfPut(c: char, pieces: seq<string>)
    requires pieces != []
    ensures Whole(PutBefore(c, pieces)) == [c] + Whole(pieces)
  {
    if c == ' ' {
      assert ([""] + pieces)[1..] == pieces;
      assert "" + " " + pieces[0] == [c] + pieces[0];
      GluePrepend([c], pieces[0], pieces[1..]);
    } else {
      GluePrepend([c], pieces[0], pieces[1..]);
    }
  }

  /** Splitting at spaces loses nothing. */
  lemma {:induction false} WholeOfSplit(q: string)
    ensures Whole(SplitSpaces(q)) == q
  {
    if q != "" {
      WholeOfSplit(q[1..]);
      WholeOfPut(q[0], SplitSpaces(q[1..]));
    }
  }

  /** An open block runs up to the first piece that ends in a quote. */
  lemma {:induction false} ScanBlock(keywords: seq<string>, a: string, pieces: seq<string>, n: nat)
    requires n < |pieces| && Closes(pieces[n]) && forall i :: 0 <= i < n ==> !Closes(pieces[i])
    ensures |Glue(a, pieces[..n + 1])| > 0
    ensures var block := Glue(a, pieces[..n + 1]);
            Scan(Scanner(keywords, Some(a)), pieces)
            == Scan(Scanner(keywords + [block[..|block| - 1]], None), pieces[n + 1..])
    decreases |pieces|
  {
    var longer := a + " " + pieces[0];
    assert pieces[..n + 1][1..] == pieces[1..][..n];
    if n == 0 {
      assert pieces[..1][1..] == [];
    } else {
      ScanBlock(keywords, longer, pieces[1..], n - 1);
      assert pieces[1..][n..] == pieces[n + 1..];
    }
  }

  function LastQuoted(p: seq<string>): seq<string>
    requires p != []
  {
    p[..|p| - 1] + [p[|p| - 1] + [QUOTE]]
  }

  lemma PutBeforeQuoted(c: char, p: seq<string>)
    requires p != []
    ensures PutBefore(c, LastQuoted(p)) == LastQuoted(PutBefore(c, p))
  {
    if c == ' ' {
      assert [""] + LastQuoted(p) == LastQuoted([""] + p);
    } else if |p| == 1 {
      assert [c] + (p[0] + [QUOTE]) == [c] + p[0] + [QUOTE];
    } else {
      var first := [[c] + p[0]];
      assert LastQuoted(p)[0] == p[0] && LastQuoted(p)[1..] == LastQuoted(p[1..]);
      assert LastQuoted(first + p[1..]) == first + LastQuoted(p[1..]);
    }
  }

  lemma {:induction false} QuoteEnd(s: string)
    ensures SplitSpaces(s + [QUOTE]) == LastQuoted(SplitSpaces(s))
  {
    var whole := s + [QUOTE];
    if s == "" {
      assert whole[0] == QUOTE && whole[1..] == "";
      assert [QUOTE] + "" == "" + [QUOTE];
    } else {
      assert whole[0] == s[0] && whole[1..] == s[1..] + [QUOTE];
      QuoteEnd(s[1..]);
      PutBeforeQuoted(s[0], SplitSpaces(s[1..]));
    }
  }

  /** The pieces between the first and the last. */
  function Inner(p: seq<string>): seq<string>
    requires |p| >= 2
  {
    p[1..|p| - 1]
  }

  /** The pieces after the first one, once the last is followed by a quote. */
  function QuotedTail(p: seq<string>): (r: seq<string>)
    requires |p| >= 2
    ensures |r| == |p| - 1
  {
    Inner(p) + [p[|p| - 1] + [QUOTE]]
  }

  lemma LastQuotedTail(p: seq<string>)
    requires |p| >= 2
    ensures LastQuoted(p) == [p[0]] + QuotedTail(p)
  {
    assert p[..|p| - 1] == [p[0]] + Inner(p);
  }

  /** Between quotes, only the first and the last piece change. */
  lemma QuotedPieces(k: string)
    requires ' ' in k
    ensures |SplitSpaces(k)| >= 2
    ensures SplitSpaces(Printed(k)) == [[QUOTE] + SplitSpaces(k)[0]] + QuotedTail(SplitSpaces(k))
  {
    var p, inner := SplitSpaces(k), k + [QUOTE];
    OnePiece(k);
    QuoteEnd(k);
    LastQuotedTail(p);
    assert Printed(k)[0] == QUOTE && Printed(k)[1..] == inner;
    assert SplitSpaces(Printed(k)) == PutBefore(QUOTE, SplitSpaces(inner));
    assert ([p[0]] + QuotedTail(p))[1..] == QuotedTail(p);
  }

  lemma {:induction false} GlueSnoc(a: string, pieces: seq<string>, last: string)
    ensures Glue(a, pieces + [last]) == Glue(a, pieces) + " " + last
    decreases |pieces|
  {
    if pieces == [] {
      assert pieces + [last] == [last];
    } else {
      assert (pieces + [last])[1..] == pieces[1..] + [last];
      GlueSnoc(a + " " + pieces[0], pieces[1..], last);
    }
  }

  lemma GlueQuoted(p: seq<string>)
    requires |p| >= 2
    ensures Glue(p[0], QuotedTail(p)) == Whole(p) + [QUOTE]
  {
    var last := p[|p| - 1];
    GlueSnoc(p[0], Inner(p), last + [QUOTE]);
    GlueSnoc(p[0], Inner(p), last);
    assert p[1..] == Inner(p) + [last];
  }

  /** A quoted block whose inner pieces do not close it is read whole. */
  lemma ScanQuoted(keywords: seq<string>, p: seq<string>)
    requires |p| >= 2 && forall i :: 0 < i < |p| - 1 ==> !Closes(p[i])
    ensures Scan(Scanner(keywords, None), [[QUOTE] + p[0]] + QuotedTail(p)) == Scanner(keywords + [Whole(p)], None)
  {
    var tail, pieces := QuotedTail(p), [[QUOTE] + p[0]] + QuotedTail(p);
    ScanBlock(keywords, p[0], tail, |tail| - 1);
    GlueQuoted(p);
    assert tail[..|tail|] == tail && tail[|tail|..] == [];
    assert (Whole(p) + [QUOTE])[..|Whole(p)|] == Whole(p);
    assert ([QUOTE] + p[0])[1..] == p[0] && pieces[1..] == tail;
  }

  /** The scanner reads a printed keyword back and is then outside any block. */
  lemma ScanPrinted(keywords: seq<string>, k: string)
    requires Printable(k)
    ensures Scan(Scanner(keywords, None), SplitSpaces(Printed(k))) == Scanner(keywords + [k], None)
  {
    if ' ' in k {
      QuotedPieces(k);
      ScanQuoted(keywords, SplitSpaces(k));
      WholeOfSplit(k);
    } else {
      OnePiece(k);
      WholeOfSplit(k);
      assert SplitSpaces(k) == [k] && [k][1..] == [];
    }
  }

  lemma ScanFirst(keywords: seq<string>, k: string, rest: string)
    requires Printable(k)
    ensures Scan(Scanner(keywords, None), SplitSpaces(Printed(k) + " " + rest))
         == Scan(Scanner(keywords + [k], None), SplitSpaces(rest))
  {
    SplitConcat(Printed(k), rest);
    ScanConcat(Scanner(keywords, None), SplitSpaces(Printed(k)), SplitSpaces(rest));
    ScanPrinted(keywords, k);
  }

  lemma ScanNothing(keywords: seq<string>)
    ensures Scan(Scanner(keywords, None), SplitSpaces("")) == Scanner(keywords, None)
  {
    assert SplitSpaces("") == [""] && [""][1..] == [];
    assert Step(Scanner(keywords, None), "") == Scanner(keywords, None);
  }

  /** The scanner started outside any block. */
  function ReadAll(keywords: seq<string>, text: string): Scanner {
    Scan(Scanner(keywords, None), SplitSpaces(text))
  }

  lemma {:induction false} ScanPrint(keywords: seq<string>, ks: seq<string>)
    requires forall i :: 0 <= i < |ks| ==> Printable(ks[i])
    ensures ReadAll(keywords, Print(ks)) == Scanner(keywords + ks, None)
    decreases |ks|
  {
    if ks == [] {
      ScanNothing(keywords);
      assert keywords + ks == keywords;
    } else if |ks| == 1 {
      ScanPrinted(keywords, ks[0]);
      assert ks == [ks[0]];
    } else {
      var first, rest := ks[0], ks[1..];
      assert Print(ks) == Printed(first) + " " + Print(rest);
      ScanFirst(keywords, first, Print(rest));
      ScanPrint(keywords + [first], rest);
      assert keywords + [first] + rest == keywords + ks;
    }
  }

  lemma {:induction false} CleanKeeps(ks: seq<string>)
    requires forall k :: k in ks ==> k != "" && Stripped(k)
    ensures Clean(ks) == ks
  {
    if ks != [] {
      assert ks[0] in ks && forall k :: k in ks[1..] ==> k in ks;
      CleanKeeps(ks[1..]);
    }
  }

  /** Splitting the printed form of a list of printable keywords returns that list. */
  lemma RoundTrip(ks: seq<string>)
    requires forall k :: k in ks ==> Printable(k)
    ensures Keywords(Print(ks)) == ks
  {
    ScanPrint([], ks);
    assert [] + ks == ks;
    CleanKeeps(ks);
  }

  /** Keywords with any number of spaces, at least one, after each of them. */
  function PrintSpaced(ks: seq<string>, extra: seq<nat>): string
    requires |extra| == |ks|
  {
    if ks == [] then "" else Printed(ks[0]) + " " + Spaces(extra[0], PrintSpaced(ks[1..], extra[1..]))
  }

  /** n spaces in front of a text. */
  function Spaces(n: nat, text: string): string {
    if n == 0 then text else " " + Spaces(n - 1, text)
  }

  lemma {:induction false} ScanSpaces(keywords: seq<string>, n: nat, text: string)
    ensures ReadAll(keywords, Spaces(n, text)) == ReadAll(keywords, text)
  {
    if n > 0 {
      ScanSpaces(keywords, n - 1, text);
      var rest := Spaces(n - 1, text);
      SplitConcat("", rest);
      assert "" + " " + rest == Spaces(n, text);
      ScanConcat(Scanner(keywords, None), SplitSpaces(""), SplitSpaces(rest));
      ScanNothing(keywords);
    }
  }

  lemma {:induction false} ScanSpaced(keywords: seq<string>, ks: seq<string>, extra: seq<nat>)
    requires |extra| == |ks| && forall i :: 0 <= i < |ks| ==> Printable(ks[i])
    ensures ReadAll(keywords, PrintSpaced(ks, extra)) == Scanner(keywords + ks, None)
    decreases |ks|
  {
    if ks == [] {
      ScanNothing(keywords);
      assert keywords + ks == keywords;
    } else {
      var rest := PrintSpaced(ks[1..], extra[1..]);
      ScanFirst(keywords, ks[0], Spaces(extra[0], rest));
      ScanSpaces(keywords + [ks[0]], extra[0], rest);
      ScanSpaced(keywords + [ks[0]], ks[1..], extra[1..]);
      assert keywords + [ks[0]] + ks[1..] == keywords + ks;
    }
  }

  /** Spaces in front of and after the keywords make no difference. */
  lemma SpacedRoundTrip(ks: seq<string>, before: nat, extra: seq<nat>)
    requires |extra| == |ks| && forall k :: k in ks ==> Printable(k)
    ensures Keywords(Spaces(before, PrintSpaced(ks, extra))) == ks
  {
    ScanSpaces([], before, PrintSpaced(ks, extra));
    ScanSpaced([], ks, extra);
    assert [] + ks == ks;
    CleanKeeps(ks);
  }

  // ---- Which keywords are lost ----

  /** Scanning yields nothing longer than the text it reads. */
  lemma {:induction false} ScanShort(st: Scanner, pieces: seq<string>, bound: nat)
    requires forall k :: k in st.keywords ==> |k| < bound
    requires match st.accum case None => Total(pieces) <= bound case Some(a) => |a| + Total(pieces) < bound
    ensures forall k :: k in Finish(Scan(st, pieces)) ==> |k| < bound
    decreases |pieces|
  {
    if pieces != [] {
      ScanShort(Step(st, pieces[0]), pieces[1..], bound);
    }
  }

  lemma {:induction false} CleanShort(ks: seq<string>, bound: nat)
    requires forall k :: k in ks ==> |k| < bound
    ensures forall k :: k in Clean(ks) ==> |k| < bound
  {
    if ks != [] {
      CleanShort(ks[1..], bound);
    }
  }

  lemma {:induction false} TotalAppend(a: seq<string>, b: seq<string>)
    ensures Total(a + b) == Total(a) + Total(b)
  {
    if a == [] {
      assert a + b == b;
    } else {
      assert (a + b)[1..] == a[1..] + b;
      TotalAppend(a[1..], b);
    }
  }

  lemma FirstClosing(pieces: seq<string>, j: nat) returns (n: nat)
    requires j < |pieces| && Closes(pieces[j])
    ensures n <= j && Closes(pieces[n]) && forall i :: 0 <= i < n ==> !Closes(pieces[i])
  {
    n := 0;
    while !Closes(pieces[n])
      invariant n <= j && forall i :: 0 <= i < n ==> !Closes(pieces[i])
      decreases j - n
    {
      n := n + 1;
    }
  }

  lemma TotalWithClosing(front: seq<string>, closing: string, back: seq<string>)
    requires Closes(closing)
    ensures Total(front + [closing] + back) == Total(front + [closing]) + Total(back)
    ensures Total(front + [closing]) >= 2
  {
    TotalAppend(front + [closing], back);
    TotalAppend(front, [closing]);
  }

  lemma BlockAndRestShort(p: seq<string>, n: nat)
    requires |p| >= 2 && n < |p| - 2 && Closes(QuotedTail(p)[n])
    ensures |Glue(p[0], QuotedTail(p)[..n + 1])| <= |Whole(p)| && Total(QuotedTail(p)[n + 1..]) <= |Whole(p)|
  {
    var tail := QuotedTail(p);
    var front, rest := tail[..n + 1], tail[n + 1..];
    GlueLength(p[0], front);
    GlueQuoted(p);
    GlueLength(p[0], tail);
    assert front == tail[..n] + [tail[n]] && tail == tail[..n] + [tail[n]] + rest;
    TotalWithClosing(tail[..n], tail[n], rest);
  }

  /** A quoted block that closes early falls apart into shorter keywords. */
  lemma BlockFallsApart(p: seq<string>, i: nat)
    requires 0 < i < |p| - 1 && Closes(p[i])
    ensures forall k :: k in Finish(Scan(Scanner([], None), [[QUOTE] + p[0]] + QuotedTail(p))) ==> |k| < |Whole(p)|
  {
    var tail, pieces := QuotedTail(p), [[QUOTE] + p[0]] + QuotedTail(p);
    assert tail[i - 1] == p[i];
    var n := FirstClosing(tail, i - 1);
    ScanBlock([], p[0], tail, n);
    var front, rest := tail[..n + 1], tail[n + 1..];
    var block := Glue(p[0], front);
    var after := Scanner([] + [block[..|block| - 1]], None);
    assert ([QUOTE] + p[0])[1..] == p[0] && pieces[1..] == tail;
    assert Scan(Scanner([], None), pieces) == Scan(after, rest);
    BlockAndRestShort(p, n);
    ScanShort(after, rest, |Whole(p)|);
  }

  lemma EarlyClosing(k: string, i: nat)
    requires ' ' in k && 0 < i < |SplitSpaces(k)| - 1 && Closes(SplitSpaces(k)[i])
    ensures Keywords(Printed(k)) != [k]
  {
    QuotedPieces(k);
    WholeOfSplit(k);
    BlockFallsApart(SplitSpaces(k), i);
    CleanShort(Finish(Scan(Scanner([], None), SplitSpaces(Printed(k)))), |k|);
    assert k in [k];
  }

  /** A single keyword survives printing and splitting exactly when it is printable. */
  lemma PrintableExactly(k: string)
    ensures Printable(k) <==> Keywords(Print([k])) == [k]
  {
    if Printable(k) {
      RoundTrip([k]);
    } else if k != "" && Stripped(k) {
      if ' ' in k {
        var i :| 0 < i < |SplitSpaces(k)| - 1 && Closes(SplitSpaces(k)[i]);
        EarlyClosing(k, i);
      } else {
        LoneOpening(k);
      }
    } else {
      assert k in [k];
    }
  }

  /** A bare keyword loses a quote at its front. */
  lemma LoneOpening(k: string)
    requires ' ' !in k && Opens(k)
    ensures Keywords(k) != [k]
  {
    OnePiece(k);
    WholeOfSplit(k);
    assert SplitSpaces(k) == [k] && [k][1..] == [];
    var open := Scanner([], Some(k[1..]));
    assert Scan(Scanner([], None), [k]) == open;
    CleanShort(Finish(open), |k|);
    assert k in [k];
  }

  /** The closing quote of a quoted single word is not noticed, so the block swallows what follows. */
  lemma QuotedWordSwallows()
    ensures Keywords("\"a\" b") == ["a\" b"]
  {
    var first, open, done := "\"a\"", Scanner([], Some("a\"")), Scanner([], Some("a\" b"));
    SplitConcat(first, "b");
    OnePiece(first);
    WholeOfSplit(first);
    OnePiece("b");
    WholeOfSplit("b");
    assert first + " " + "b" == "\"a\" b";
    assert SplitSpaces("\"a\" b") == [first, "b"];
    assert first[1..] == "a\"" && "a\"" + " " + "b" == "a\" b";
    assert Scan(open, ["b"]) == done && [first, "b"][1..] == ["b"];
    assert Clean(["a\" b"]) == ["a\" b"];
  }
}
