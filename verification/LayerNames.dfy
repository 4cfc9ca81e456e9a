/** Cleaning and choosing the name of a new layer (geonode/layers/utils.py, _clean_string and get_valid_name). */
module LayerNames {
  import opened Lists
  import opened Text

  predicate Leads(c: char) {
    IsLetter(c) || c == '.' || c == '_'
  }

  predicate Safe(c: char) {
    Leads(c) || IsDigit(c)
  }

  /** The usable characters. */
  lemma CharsExactly(c: char)
    ensures Leads(c) <==> 'a' <= c <= 'z' || 'A' <= c <= 'Z' || c == '.' || c == '_'
    ensures Safe(c) <==> 'a' <= c <= 'z' || 'A' <= c <= 'Z' || '0' <= c <= '9' || c == '.' || c == '_'
  {
  }

  predicate AllSafe(s: string) {
    forall i :: 0 <= i < |s| ==> Safe(s[i])
  }

  predicate Unsafe(c: char) {
    !Safe(c)
  }

  predicate NotUnderscore(c: char) {
    c != '_'
  }

  /** Characters of the original that are recognised in the cleaned name. */
  predicate KeptText(c: char) {
    Safe(c) && c != '_'
  }

  function DropWhile(s: string, p: char -> bool): (r: string)
    ensures |r| <= |s| && r == s[|s| - |r|..]
    ensures r != "" ==> !p(r[0])
    ensures |r| < |s| <==> s != "" && p(s[0])
    ensures forall i :: 0 <= i < |s| - |r| ==> p(s[i])
  {
    if s != "" && p(s[0]) then DropWhile(s[1..], p) else s
  }

  /** Every maximal run of unsafe characters becomes one underscore (the second alternative of the pattern). */
  function SubRuns(s: string): string
    decreases |s|
  {
    if s == "" then ""
    else if Safe(s[0]) then [s[0]] + SubRuns(s[1..])
    else "_" + SubRuns(DropWhile(s, Unsafe))
  }

  /** A run of unsafe characters, whatever its length, becomes a single underscore; safe characters are kept. */
  lemma SubRunsExactly(word: string, run: string, rest: string)
    requires AllSafe(word) && run != "" && forall i :: 0 <= i < |run| ==> !Safe(run[i])
    requires rest == "" || Safe(rest[0])
    ensures SubRuns(word + run + rest) == word + "_" + SubRuns(rest)
    ensures SubRuns(word) == word
  {
    assert word + run + rest == word + (run + rest);
    SubRunsAfter(word, run + rest);
    SubRunsAfter(word, "");
    assert word + "" == word;
    RunDropped(run, rest);
    assert word + ("_" + SubRuns(rest)) == word + "_" + SubRuns(rest);
  }

  lemma {:induction false} SubRunsAfter(word: string, rest: string)
    requires AllSafe(word)
    ensures SubRuns(word + rest) == word + SubRuns(rest)
  {
    if word == "" {
      assert word + rest == rest;
    } else {
      assert (word + rest)[1..] == word[1..] + rest;
      SubRunsAfter(word[1..], rest);
    }
  }

  lemma RunDropped(run: string, rest: string)
    requires run != "" && forall i :: 0 <= i < |run| ==> !Safe(run[i])
    requires rest == "" || Safe(rest[0])
    ensures SubRuns(run + rest) == "_" + SubRuns(rest)
  {
    assert (run + rest)[0] == run[0];
    DropRun(run, rest, Unsafe);
  }

  lemma {:induction false} DropRun(run: string, rest: string, p: char -> bool)
    requires forall i :: 0 <= i < |run| ==> p(run[i])
    requires rest == "" || !p(rest[0])
    ensures DropWhile(run + rest, p) == rest
  {
    if run == "" {
      assert run + rest == rest;
    } else {
      assert (run + rest)[1..] == run[1..] + rest;
      DropRun(run[1..], rest, p);
    }
  }

  /** The part that survives at the front: a leading digit is protected by an underscore, an unsafe lead is dropped. */
  function Clean(s: string): Option<string> {
    if s == "" then None // IndexError: the first character is inspected
    else
      var t := if IsDigit(s[0]) then "_" + s else s;
      var rest := DropWhile(t, c => !Leads(c));
      Some(if |rest| < |t| then "_" + SubRuns(rest) else SubRuns(t))
  }

  /**
   A name is cleaned by its front: a digit gets an underscore before it, characters that cannot lead give one underscore
   together, and any other front is kept.
   */
  lemma CleanExactly(front: string, rest: string)
    requires forall i :: 0 <= i < |front| ==> !Leads(front[i])
    requires rest == "" || Leads(rest[0])
    requires front + rest != ""
    ensures Clean(front + rest)
         == Some(if front == "" then SubRuns(rest)
                 else if IsDigit(front[0]) then "_" + SubRuns(front + rest)
                 else "_" + SubRuns(rest))
  {
    var s := front + rest;
    var drop := (c: char) => !Leads(c);
    if IsDigit(s[0]) {
      assert front != "" && ("_" + s)[1..] == s;
    } else {
      DropRun(front, rest, drop);
    }
  }

  predicate ValidName(s: string) {
    s != "" && AllSafe(s) && !IsDigit(s[0])
  }

  lemma {:induction false} SubRunsSafe(s: string)
    ensures AllSafe(SubRuns(s))
    ensures s != "" ==> SubRuns(s) != "" && SubRuns(s)[0] == if Safe(s[0]) then s[0] else '_'
    decreases |s|
  {
    if s == "" {
    } else if Safe(s[0]) {
      SubRunsSafe(s[1..]);
    } else {
      SubRunsSafe(DropWhile(s, Unsafe));
    }
  }

  /** A cleaned name has safe characters only and does not start with a digit. */
  lemma CleanValid(s: string)
    requires s != ""
    ensures Clean(s).Some? && ValidName(Clean(s).value)
  {
    var t := if IsDigit(s[0]) then "_" + s else s;
    var rest := DropWhile(t, c => !Leads(c));
    if |rest| < |t| {
      SubRunsSafe(rest);
      assert Clean(s).value == "_" + SubRuns(rest);
    } else {
      SubRunsSafe(t);
    }
  }

  lemma {:induction false} SubRunsFixed(s: string)
    requires AllSafe(s)
    ensures SubRuns(s) == s
  {
    if s != "" {
      SubRunsFixed(s[1..]);
    }
  }

  /** The names that cleaning leaves alone are the valid ones, and no others. */
  lemma CleanFixedExactly(s: string)
    ensures Clean(s) == Some(s) <==> ValidName(s)
  {
    if ValidName(s) {
      SubRunsFixed(s);
    } else if s != "" {
      CleanValid(s);
    }
  }

  lemma CleanIdempotent(s: string)
    requires s != ""
    ensures Clean(s).Some? && Clean(Clean(s).value) == Clean(s)
  {
    CleanValid(s);
    CleanFixedExactly(Clean(s).value);
  }

  /**
   Without the underscores, the cleaned name is the original's safe characters in order, from its first usable one.
   */
  lemma CleanKeepsText(s: string)
    requires s != ""
    ensures var kept := if IsDigit(s[0]) then s else DropWhile(s, c => !Leads(c));
            Clean(s).Some? && Filter(Clean(s).value, NotUnderscore) == Filter(kept, KeptText)
  {
    if IsDigit(s[0]) {
      assert ("_" + s)[1..] == s;
      SubRunsKeepText("_" + s);
    } else {
      SubRunsKeepText(DropWhile(s, c => !Leads(c)));
      assert forall r: string :: ("_" + r)[1..] == r;
    }
  }

  lemma {:induction false} SubRunsKeepText(s: string)
    ensures Filter(SubRuns(s), NotUnderscore) == Filter(s, KeptText)
    decreases |s|
  {
    if s == "" {
    } else if Safe(s[0]) {
      var rest := s[1..];
      SubRunsKeepText(rest);
      assert s == [s[0]] + rest && SubRuns(s) == [s[0]] + SubRuns(rest);
    } else {
      var rest := DropWhile(s, Unsafe);
      var run := s[..|s| - |rest|];
      SubRunsKeepText(rest);
      assert s == run + rest && SubRuns(s) == "_" + SubRuns(rest);
      UnsafeRunDropped(run, rest, SubRuns(rest));
    }
  }

  lemma UnsafeRunDropped(run: string, rest: string, cleaned: string)
    requires forall i :: 0 <= i < |run| ==> Unsafe(run[i])
    requires Filter(cleaned, NotUnderscore) == Filter(rest, KeptText)
    ensures Filter("_" + cleaned, NotUnderscore) == Filter(run + rest, KeptText)
  {
    FilterCons('_', cleaned, NotUnderscore);
    FilterAppend(run, rest, KeptText);
    FilterNone(run, KeptText);
  }

  /** name, name_1, name_2, ... */
  function Numbered(name: string, k: nat): string {
    if k == 0 then name else name + "_" + Dec(k)
  }

  /** The k-th try is free and all before it are taken. */
  ghost predicate FirstFree(name: string, names: set<string>, k: nat) {
    Numbered(name, k) !in names && forall j: nat :: j < k ==> Numbered(name, j) in names
  }

  lemma NumberedInjective(name: string, i: nat, j: nat)
    requires Numbered(name, i) == Numbered(name, j)
    ensures i == j
  {
    if i != 0 && j != 0 {
      assert Dec(i) == Numbered(name, i)[|name| + 1..];
      assert Dec(j) == Numbered(name, j)[|name| + 1..];
      DecInjective(i, j);
    }
  }

  /** As long as every try is taken, the tries are no more than the layers. */
  lemma TriesBounded(name: string, names: set<string>, k: nat)
    requires forall j: nat :: j < k ==> Numbered(name, j) in names
    ensures k <= |names|
  {
    var tries := seq(k, j requires 0 <= j < k => Numbered(name, j));
    forall i, j | 0 <= i < j < k ensures tries[i] != tries[j] {
      if tries[i] == tries[j] {
        NumberedInjective(name, i, j);
      }
    }
    Pigeonhole(tries, names);
  }

  /** The numbered names, and what is chosen while the name, name_1 or name_2 is free. */
  lemma NumberedExactly(name: string, k: nat)
    ensures Numbered(name, 0) == name && Numbered(name, 1) == name + "_1"
    ensures Numbered(name, 2) == name + "_2" && Numbered(name, k + 1) == name + "_" + Dec(k + 1)
  {
    assert Dec(1) == "1" && name + "_" + "1" == name + "_1";
    assert Dec(2) == "2" && name + "_" + "2" == name + "_2";
  }

  predicate FirstOfThree(name: string, names: set<string>, chosen: string) {
    if name !in names then chosen == name
    else if name + "_1" !in names then chosen == name + "_1"
    else name + "_2" !in names ==> chosen == name + "_2"
  }

  lemma FirstThree(name: string, names: set<string>, k: nat)
    requires FirstFree(name, names, k)
    ensures FirstOfThree(name, names, Numbered(name, k))
  {
    NumberedExactly(name, 0);
    assert k > 0 ==> Numbered(name, 0) in names;
    assert k > 1 ==> Numbered(name, 1) in names;
    assert k > 2 ==> Numbered(name, 2) in names;
  }

  method GetValidName(layerName: string, names: set<string>) returns (r: Option<string>)
    ensures r.None? <==> layerName == ""
    ensures r.Some? ==> r.value !in names && ValidName(r.value)
    ensures r.Some? ==> FirstOfThree(Clean(layerName).value, names, r.value)
    ensures r.Some? ==> exists k: nat :: k <= |names| && FirstFree(Clean(layerName).value, names, k)
                                         && r.value == Numbered(Clean(layerName).value, k)
  {
    var cleaned := Clean(layerName);
    if cleaned.None? {
      return None;
    }
    CleanValid(layerName);
    var name := cleaned.value;
    var proposed, count := name, 1;
    while proposed in names
      invariant count > 0 && proposed == Numbered(name, count - 1)
      invariant forall j: nat :: j < count - 1 ==> Numbered(name, j) in names
      decreases |names| + 1 - count
    {
      TriesBounded(name, names, count);
      proposed := name + "_" + Dec(count);
      count := count + 1;
    }
    TriesBounded(name, names, count - 1);
    assert FirstFree(name, names, count - 1);
    FirstThree(name, names, count - 1);
    r := Some(proposed);
  }

  /** What the caller hands over: a layer, a name, or something else. */
  datatype Source = SavedLayer(name: string) | Name(text: string) | Other

  datatype Outcome = Chosen(name: string) | Rejected | EmptyName

  method GetValidLayerName(layer: Source, overwrite: bool, names: set<string>) returns (r: Outcome)
    ensures r.Rejected? <==> layer.Other?
    ensures r.EmptyName? <==> !overwrite && (layer == SavedLayer("") || layer == Name(""))
    ensures r.Chosen? && !overwrite ==> r.name !in names && ValidName(r.name)
    ensures r.Chosen? && overwrite ==> r.name == if layer.SavedLayer? then layer.name else layer.text
  {
    if layer.Other? {
      return Rejected;
    }
    var layerName := if layer.SavedLayer? then layer.name else layer.text;
    if overwrite {
      return Chosen(layerName);
    }
    var unused := GetValidName(layerName, names);
    r := if unused.Some? then Chosen(unused.value) else EmptyName;
  }
}
