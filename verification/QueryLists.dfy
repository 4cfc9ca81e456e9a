/** Which lists of keywords come back from the query splitter (geonode/utils.py, _split_query), exactly. */
module QueryLists {
  import opened Lists
  import opened Text
  import opened QuerySplit

  // ---- Stripping ----

  predicate Blank(s: string) {
    forall c :: c in s ==> IsSpace(c)
  }

  /** Stripping takes white space from both ends and nothing else. */
  lemma {:induction false} StripTrims(s: string) returns (x: string, y: string)
    ensures s == x + Strip(s) + y && Blank(x) && Blank(y)
    decreases |s|
  {
    x, y := "", "";
    if s != "" && IsSpace(s[0]) {
      var rest := s[1..];
      x, y := StripTrims(rest);
      assert s == [s[0]] + rest + "" && Strip(s) == Strip(rest);
      ConcatAround([s[0]], x, Strip(s), y, "");
      x := [s[0]] + x;
    } else if s != "" && IsSpace(s[|s| - 1]) {
      var rest := s[..|s| - 1];
      x, y := StripTrims(rest);
      assert s == "" + rest + [s[|s| - 1]] && Strip(s) == Strip(rest);
      ConcatAround("", x, Strip(s), y, [s[|s| - 1]]);
      y := y + [s[|s| - 1]];
    }
  }

  lemma ConcatAround(a: string, x: string, k: string, y: string, b: string)
    ensures a + (x + k + y) + b == (a + x) + k + (y + b)
    ensures "" + x == x && y + "" == y
  {
  }

  lemma BlankLead(x: string, s: string, i: nat)
    requires x <= s && Blank(x) && i < |s| && !IsSpace(s[i])
    ensures |x| <= i
  {
    assert forall j :: 0 <= j < |x| ==> IsSpace(x[j]);
  }

  lemma StripNonBlank(s: string, i: nat)
    requires i < |s| && !IsSpace(s[i])
    ensures Strip(s) != ""
  {
    var x, y := StripTrims(s);
    BlankLead(x, s, i);
    assert forall j :: 0 <= j < |y| ==> IsSpace(y[j]);
  }

  /** A word without its first character, followed by nothing or by a space, is not stripped to that word. */
  lemma StripMisses(k: string, s: string)
    requires |k| > 1 && Stripped(k) && ' ' !in k && (s == "" || s[0] == ' ')
    ensures Strip(k[1..] + s) != "" && Strip(k[1..] + s) != k
  {
    var raw, n := k[1..] + s, |k| - 1;
    assert raw[n - 1] == k[|k| - 1];
    StripNonBlank(raw, n - 1);
    var x, y := StripTrims(raw);
    var kept := Strip(raw);
    BlankLead(x, raw, n - 1);
    if |x| + |kept| > n {
      assert raw[n] == ' ' && kept[n - |x|] == raw[n];
      assert ' ' in kept;
    }
  }

  // ---- What a scan adds to what it had ----

  lemma {:induction false} ScanPrefix(p: seq<string>, st: Scanner, pieces: seq<string>)
    ensures Scan(Scanner(p + st.keywords, st.accum), pieces)
         == Scanner(p + Scan(st, pieces).keywords, Scan(st, pieces).accum)
    decreases |pieces|
  {
    if pieces != [] {
      var next := Step(st, pieces[0]);
      assert forall x: string :: p + st.keywords + [x] == p + (st.keywords + [x]);
      assert Step(Scanner(p + st.keywords, st.accum), pieces[0]) == Scanner(p + next.keywords, next.accum);
      ScanPrefix(p, next, pieces[1..]);
    }
  }

  lemma {:induction false} CleanConcat(a: seq<string>, b: seq<string>)
    ensures Clean(a + b) == Clean(a) + Clean(b)
  {
    if a == [] {
      assert a + b == b;
    } else {
      assert (a + b)[1..] == a[1..] + b;
      CleanConcat(a[1..], b);
    }
  }

  /** The keywords that come out of the rest of a scan. */
  function Out(accum: Option<string>, pieces: seq<string>): seq<string> {
    Clean(Finish(Scan(Scanner([], accum), pieces)))
  }

  lemma OutAfter(p: seq<string>, pieces: seq<string>)
    ensures Clean(Finish(Scan(Scanner(p, None), pieces))) == Clean(p) + Out(None, pieces)
  {
    var st := Scan(Scanner([], None), pieces);
    assert p + [] == p;
    ScanPrefix(p, Scanner([], None), pieces);
    match st.accum {
      case None =>
        CleanConcat(p, st.keywords);
      case Some(a) =>
        assert p + st.keywords + [a] == p + (st.keywords + [a]);
        CleanConcat(p, st.keywords + [a]);
    }
  }

  // ---- Weights: the length of a printed keyword, with the space after it ----

  function Heft(k: string): nat {
    |k| + 1 + if ' ' in k then 2 else 0
  }

  function Weight(ks: seq<string>): nat {
    if ks == [] then 0 else Heft(ks[0]) + Weight(ks[1..])
  }

  lemma {:induction false} WeightConcat(a: seq<string>, b: seq<string>)
    ensures Weight(a + b) == Weight(a) + Weight(b)
  {
    if a == [] {
      assert a + b == b;
    } else {
      assert (a + b)[1..] == a[1..] + b;
      WeightConcat(a[1..], b);
    }
  }

  lemma {:induction false} CleanWeight(ks: seq<string>)
    ensures Weight(Clean(ks)) <= Weight(ks)
  {
    if ks != [] {
      CleanWeight(ks[1..]);
      var x, y := StripTrims(ks[0]);
      assert Heft(Strip(ks[0])) <= Heft(ks[0]);
      var kw := Strip(ks[0]);
      assert ([kw] + Clean(ks[1..]))[1..] == Clean(ks[1..]);
    }
  }

  /** Pieces between spaces hold none. */
  lemma {:induction false} PiecesHoldNoSpace(q: string)
    ensures forall p :: p in SplitSpaces(q) ==> ' ' !in p
  {
    if q != "" {
      PiecesHoldNoSpace(q[1..]);
    }
  }

  lemma TotalOfSplit(q: string)
    ensures Total(SplitSpaces(q)) == |q| + 1
  {
    var p := SplitSpaces(q);
    WholeOfSplit(q);
    GlueLength(p[0], p[1..]);
  }

  lemma {:induction false} PrintWeight(ks: seq<string>)
    requires ks != []
    ensures Total(SplitSpaces(Print(ks))) == Weight(ks)
  {
    TotalOfSplit(Print(ks));
    if |ks| > 1 {
      PrintWeight(ks[1..]);
      TotalOfSplit(Print(ks[1..]));
    } else {
      assert ks[1..] == [];
    }
  }

  /** What a scan yields weighs no more than the pieces, a block left open apart. */
  lemma {:induction false} ScanWeight(st: Scanner, pieces: seq<string>)
    requires forall p :: p in pieces ==> ' ' !in p
    ensures Weight(Finish(Scan(st, pieces)))
         <= Weight(st.keywords) + Total(pieces) + match st.accum case None => 1 case Some(a) => |a| + 3
    decreases |pieces|
  {
    if pieces == [] {
      if st.accum.Some? {
        WeightConcat(st.keywords, [st.accum.value]);
        assert [st.accum.value][1..] == [];
      }
    } else {
      var next, rest := Step(st, pieces[0]), pieces[1..];
      assert pieces[0] in pieces && forall p :: p in rest ==> p in pieces;
      ScanWeight(next, rest);
      if next.keywords != st.keywords {
        var last := next.keywords[|st.keywords|];
        assert next.keywords == st.keywords + [last];
        WeightConcat(st.keywords, [last]);
        assert [last][1..] == [];
      }
    }
  }

  lemma OutWeight(pieces: seq<string>)
    requires forall p :: p in pieces ==> ' ' !in p
    ensures Weight(Out(None, pieces)) <= Total(pieces) + 1
  {
    ScanWeight(Scanner([], None), pieces);
    CleanWeight(Finish(Scan(Scanner([], None), pieces)));
  }

  // ---- A list that starts with a keyword that is not printable ----

  lemma {:induction false} ScanOpen(a: string, pieces: seq<string>)
    requires forall i :: 0 <= i < |pieces| ==> !Closes(pieces[i])
    ensures Scan(Scanner([], Some(a)), pieces) == Scanner([], Some(Glue(a, pieces)))
    decreases |pieces|
  {
    if pieces != [] {
      ScanOpen(a + " " + pieces[0], pieces[1..]);
    }
  }

  lemma CleanOne(kw: string)
    ensures Clean([kw]) == if Strip(kw) != "" then [Strip(kw)] else []
  {
    assert [kw][1..] == [];
  }

  /** A block that closes at the n-th piece, read without its closing quote. */
  lemma ClosedOut(a: string, pieces: seq<string>, n: nat) returns (raw: string)
    requires n < |pieces| && Closes(pieces[n]) && forall i :: 0 <= i < n ==> !Closes(pieces[i])
    ensures raw + [QUOTE] == Glue(a, pieces[..n + 1])
    ensures Out(Some(a), pieces) == Clean([raw]) + Out(None, pieces[n + 1..])
  {
    ScanBlock([], a, pieces, n);
    var block := Glue(a, pieces[..n + 1]);
    raw := block[..|block| - 1];
    GlueEnds(a, pieces[..n + 1]);
    assert [] + [raw] == [raw];
    OutAfter([raw], pieces[n + 1..]);
  }

  /** The block that opens before the pieces: it closes at the n-th of them, or not at all. */
  lemma BlockOut(a: string, pieces: seq<string>) returns (n: nat, raw: string)
    ensures n <= |pieces| && (n < |pieces| ==> Closes(pieces[n]))
    ensures n < |pieces| ==> raw + [QUOTE] == Glue(a, pieces[..n + 1])
    ensures n < |pieces| ==> Out(Some(a), pieces) == Clean([raw]) + Out(None, pieces[n + 1..])
    ensures n == |pieces| ==> raw == Glue(a, pieces) && Out(Some(a), pieces) == Clean([raw])
  {
    if j :| 0 <= j < |pieces| && Closes(pieces[j]) {
      n := FirstClosing(pieces, j);
      raw := ClosedOut(a, pieces, n);
    } else {
      n, raw := |pieces|, Glue(a, pieces);
      ScanOpen(a, pieces);
      assert [] + [raw] == [raw];
    }
  }

  lemma {:induction false} GlueEnds(a: string, pieces: seq<string>)
    requires pieces != [] && Closes(pieces[|pieces| - 1])
    ensures |Glue(a, pieces)| > 0 && Glue(a, pieces)[|Glue(a, pieces)| - 1] == QUOTE
    decreases |pieces|
  {
    if |pieces| > 1 {
      GlueEnds(a + " " + pieces[0], pieces[1..]);
    } else {
      assert pieces[1..] == [];
    }
  }

  /** The pieces of the rest of a printed list. */
  function RestPieces(rest: seq<string>): seq<string> {
    if rest == [] then [] else SplitSpaces(Print(rest))
  }

  lemma ListPieces(k: string, rest: seq<string>)
    ensures SplitSpaces(Print([k] + rest)) == SplitSpaces(Printed(k)) + RestPieces(rest)
  {
    assert ([k] + rest)[1..] == rest;
    if rest != [] {
      SplitConcat(Printed(k), Print(rest));
    }
  }

  lemma OutOpened(k: string, pieces: seq<string>)
    requires Opens(k)
    ensures Out(None, [k] + pieces) == Out(Some(k[1..]), pieces)
  {
    assert ([k] + pieces)[1..] == pieces;
  }

  /** A quoted keyword that closes early: the first keyword read is a part of it. */
  lemma EarlyFirst(k: string, rest: seq<string>, i: nat)
    requires Stripped(k) && ' ' in k && 0 < i < |SplitSpaces(k)| - 1 && Closes(SplitSpaces(k)[i])
    ensures Keywords(Print([k] + rest)) != [k] + rest
  {
    QuotedOut(k, rest);
    WholeOfSplit(k);
    var raw, back := EarlyPart(SplitSpaces(k), i, RestPieces(rest));
    PartIsNotWhole(raw, k, Out(None, back), rest);
  }

  /** A quoted keyword opens a block with its first piece. */
  lemma QuotedOut(k: string, rest: seq<string>)
    requires ' ' in k
    ensures |SplitSpaces(k)| >= 2
    ensures Keywords(Print([k] + rest)) == Out(Some(SplitSpaces(k)[0]), QuotedTail(SplitSpaces(k)) + RestPieces(rest))
  {
    ListPieces(k, rest);
    QuotedPieces(k);
    PiecesOut(SplitSpaces(k)[0], QuotedTail(SplitSpaces(k)), RestPieces(rest));
  }

  lemma PiecesOut(first: string, tail: seq<string>, more: seq<string>)
    ensures Out(None, [[QUOTE] + first] + tail + more) == Out(Some(first), tail + more)
  {
    var opening := [QUOTE] + first;
    assert [opening] + tail + more == [opening] + (tail + more);
    OutOpened(opening, tail + more);
    assert opening[1..] == first;
  }

  lemma PartIsNotWhole(raw: string, k: string, out: seq<string>, rest: seq<string>)
    requires 0 < |raw| < |k| && raw[0] == k[0] && Stripped(k)
    ensures Clean([raw]) + out != [k] + rest
  {
    StripNonBlank(raw, 0);
    CleanOne(raw);
    assert (Clean([raw]) + out)[0] == Strip(raw);
  }

  /** The part of a quoted block before its early closing. */
  lemma EarlyPart(p: seq<string>, i: nat, more: seq<string>) returns (raw: string, back: seq<string>)
    requires 0 < i < |p| - 1 && Closes(p[i]) && Whole(p) != "" && Whole(p)[0] != ' '
    ensures Out(Some(p[0]), QuotedTail(p) + more) == Clean([raw]) + Out(None, back)
    ensures 0 < |raw| < |Whole(p)| && raw[0] == Whole(p)[0]
  {
    var tail, pieces := QuotedTail(p), QuotedTail(p) + more;
    assert tail[i - 1] == p[i];
    var n := FirstClosing(tail, i - 1);
    assert forall j :: 0 <= j <= n ==> pieces[j] == tail[j];
    assert pieces[..n + 1] == tail[..n + 1];
    raw := ClosedOut(p[0], pieces, n);
    back := pieces[n + 1..];
    BlockAndRestShort(p, n);
    GlueLead(p[0], tail[..n + 1]);
    GlueLead(p[0], p[1..]);
  }

  /** A bare keyword that opens a block: the first keyword read lacks its quote. */
  lemma OpeningFirst(k: string, rest: seq<string>)
    requires |k| > 1 && Stripped(k) && ' ' !in k && Opens(k)
    ensures Keywords(Print([k] + rest)) != [k] + rest
  {
    var more, a := RestPieces(rest), k[1..];
    ListPieces(k, rest);
    BareIsOnePiece(k);
    OutOpened(k, more);
    var n, raw := BlockOut(a, more);
    GlueLead(a, if n < |more| then more[..n + 1] else more);
    LeadIsNotWhole(k, raw, if n < |more| then Out(None, more[n + 1..]) else [], rest);
    assert Clean([raw]) + [] == Clean([raw]);
  }

  lemma LeadIsNotWhole(k: string, raw: string, out: seq<string>, rest: seq<string>)
    requires |k| > 1 && Stripped(k) && ' ' !in k && k[1..] <= raw && (|raw| >= |k| ==> raw[|k| - 1] == ' ')
    ensures Clean([raw]) + out != [k] + rest
  {
    assert raw == k[1..] + raw[|k| - 1..];
    StripMisses(k, raw[|k| - 1..]);
    CleanOne(raw);
    assert (Clean([raw]) + out)[0] == Strip(raw);
  }

  lemma BareIsOnePiece(k: string)
    requires ' ' !in k
    ensures SplitSpaces(Printed(k)) == [k]
  {
    OnePiece(k);
    WholeOfSplit(k);
    assert SplitSpaces(k)[1..] == [];
  }

  lemma GlueLead(a: string, pieces: seq<string>)
    ensures a <= Glue(a, pieces) && (pieces != [] ==> |Glue(a, pieces)| > |a| && Glue(a, pieces)[|a|] == ' ')
  {
    GlueLength(a, pieces);
    if pieces != [] {
      GlueLength(a + " " + pieces[0], pieces[1..]);
      assert (a + " " + pieces[0])[|a|] == ' ';
    }
  }

  /** A single quote as a keyword: too little is left for the others. */
  lemma LoneQuoteFirst(rest: seq<string>)
    ensures Keywords(Print([[QUOTE]] + rest)) != [[QUOTE]] + rest
  {
    var k, more := [QUOTE], RestPieces(rest);
    ListPieces(k, rest);
    BareIsOnePiece(k);
    OutOpened(k, more);
    assert k[1..] == "" && Keywords(Print([k] + rest)) == Out(Some(""), more);
    LoneQuoteOut(k, rest);
  }

  lemma LoneQuoteOut(k: string, rest: seq<string>)
    ensures Out(Some(""), RestPieces(rest)) != [k] + rest
  {
    var more := RestPieces(rest);
    var n, raw := BlockOut("", more);
    CleanOne(raw);
    if n < |more| {
      TooLittleLeft(rest, n);
      LightIsShort(Clean([raw]), Out(None, more[n + 1..]), k, rest);
    } else if rest == [] {
      assert more == [] && Strip("") == "";
    }
  }

  lemma LightIsShort(first: seq<string>, out: seq<string>, k: string, rest: seq<string>)
    requires |first| <= 1 && Weight(out) < Weight(rest)
    ensures first + out != [k] + rest
  {
    WeightConcat([k], rest);
    assert |first| == 1 ==> (first + out)[1..] == out && ([k] + rest)[1..] == rest;
    assert first == [] ==> first + out == out;
  }

  lemma TooLittleLeft(rest: seq<string>, n: nat)
    requires n < |RestPieces(rest)| && Closes(RestPieces(rest)[n])
    ensures Weight(Out(None, RestPieces(rest)[n + 1..])) < Weight(rest)
  {
    var back := RestPieces(rest)[n + 1..];
    PiecesHoldNoSpace(Print(rest));
    PrintWeight(rest);
    OutWeight(back);
    BackTotal(RestPieces(rest), n);
  }

  lemma BackTotal(pieces: seq<string>, n: nat)
    requires n < |pieces| && Closes(pieces[n])
    ensures Total(pieces) >= Total(pieces[n + 1..]) + 2
  {
    assert pieces == pieces[..n] + [pieces[n]] + pieces[n + 1..];
    TotalWithClosing(pieces[..n], pieces[n], pieces[n + 1..]);
  }

  lemma {:induction false} OnlyPrintable(ks: seq<string>)
    requires Keywords(Print(ks)) == ks
    ensures forall k :: k in ks ==> Printable(k)
  {
    if ks != [] {
      var k, rest := ks[0], ks[1..];
      assert ks == [k] + rest && k in ks;
      if !Printable(k) {
        NotPrintableFirst(k, rest);
      } else if rest != [] {
        ScanFirst([], k, Print(rest));
        assert [] + [k] == [k];
        OutAfter([k], SplitSpaces(Print(rest)));
        CleanOne(k);
        OnlyPrintable(rest);
      }
    }
  }

  lemma NotPrintableFirst(k: string, rest: seq<string>)
    requires !Printable(k) && k != "" && Stripped(k)
    ensures Keywords(Print([k] + rest)) != [k] + rest
  {
    if ' ' in k {
      var i :| 0 < i < |SplitSpaces(k)| - 1 && Closes(SplitSpaces(k)[i]);
      EarlyFirst(k, rest, i);
    } else if |k| > 1 {
      OpeningFirst(k, rest);
    } else {
      assert k == [QUOTE];
      LoneQuoteFirst(rest);
    }
  }

  /** The lists that come back from printing and splitting are the lists of printable keywords, and no others. */
  lemma PrintableListsExactly(ks: seq<string>)
    ensures Keywords(Print(ks)) == ks <==> forall k :: k in ks ==> Printable(k)
  {
    if Keywords(Print(ks)) == ks {
      OnlyPrintable(ks);
    }
    if forall k :: k in ks ==> Printable(k) {
      RoundTrip(ks);
    }
  }
}
