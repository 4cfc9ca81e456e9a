/**
 Repairing the column names of an uploaded shapefile (geonode/utils.py, check_shp_columnnames):
 every name the pattern refuses is replaced by a slug, made unique by a numeric suffix,
 and the columns are then renamed one by one.
 */
module ColumnRenames {
  import opened Lists
  import opened Text

  // ---- The patterns ----

  /** [a-zA-Z,_] */
  predicate FirstChar(c: char) {
    IsLetter(c) || c == ',' || c == '_'
  }

  /** [a-zA-Z,_,#,:\d] */
  predicate NextChar(c: char) {
    FirstChar(c) || c == '#' || c == ':' || IsDigit(c)
  }

  predicate Word(s: string) {
    s != "" && FirstChar(s[0]) && forall i :: 1 <= i < |s| ==> NextChar(s[i])
  }

  /** The pattern ends in '$', which also matches before a newline at the very end. */
  predicate Valid(s: string) {
    Word(s) || (s != "" && s[|s| - 1] == '\n' && Word(s[..|s| - 1]))
  }

  predicate SlugChar(c: char) {
    IsLetter(c) || IsDigit(c) || c == '_'
  }

  /** The slug function gives letters, digits and underscores, possibly nothing at all. */
  ghost predicate Slugifier(slug: string -> string) {
    forall s, i :: 0 <= i < |slug(s)| ==> SlugChar(slug(s)[i])
  }

  /** The characters of a column name: letters, ',' and '_' at the front, then also '#', ':' and digits. */
  lemma CharsExactly(c: char)
    ensures FirstChar(c) <==> 'a' <= c <= 'z' || 'A' <= c <= 'Z' || c == ',' || c == '_'
    ensures NextChar(c) <==>
        'a' <= c <= 'z' || 'A' <= c <= 'Z' || c == ',' || c == '_' || c == '#' || c == ':' || '0' <= c <= '9'
  {
  }

  /** A name is accepted when, without a newline at its end, it is one first character and then next characters. */
  lemma ValidExactly(s: string)
    ensures Valid(s) <==>
        exists w: string :: (s == w || s == w + "\n") && w != "" && FirstChar(w[0])
                            && forall i :: 1 <= i < |w| ==> NextChar(w[i])
  {
    if s != "" && s[|s| - 1] == '\n' {
      assert s == s[..|s| - 1] + "\n";
    }
  }

  // ---- The suffix loop ----

  /** s.endswith(suffix) */
  predicate EndsWith(s: string, suffix: string) {
    |suffix| <= |s| && s[|s| - |suffix|..] == suffix
  }

  /** s[:-2] */
  function DropTwo(s: string): string {
    if |s| < 2 then "" else s[..|s| - 2]
  }

  /** One pass of the loop body: the name and the counter after it. */
  function NextTry(name: string, j: nat): (string, nat) {
    var n := if j == 0 then name + "_0" else name;
    if EndsWith(n, "_" + Dec(j)) then (DropTwo(n) + "_" + Dec(j + 1), j + 1) else (n, j)
  }

  /** The name after k passes. */
  function Try(start: string, k: nat): string {
    if k == 0 then start else NextTry(Try(start, k - 1), k - 1).0
  }

  predicate AllSlug(s: string) {
    forall i :: 0 <= i < |s| ==> SlugChar(s[i])
  }

  predicate Sound(s: string) {
    Word(s) && AllSlug(s)
  }

  /** A counter hung on the beginning of a sound name, or on nothing, gives a sound name. */
  lemma SuffixShape(kept: string, k: nat)
    requires AllSlug(kept) && (kept != "" ==> FirstChar(kept[0]))
    ensures Sound(kept + "_" + Dec(k)) && EndsWith(kept + "_" + Dec(k), "_" + Dec(k))
  {
    DigitsShape(kept, Dec(k));
  }

  lemma DigitsShape(kept: string, d: string)
    requires AllSlug(kept) && (kept != "" ==> FirstChar(kept[0])) && forall c :: c in d ==> IsDigit(c)
    ensures Sound(kept + "_" + d) && EndsWith(kept + "_" + d, "_" + d)
  {
    var s := kept + "_" + d;
    assert s[|kept|..] == "_" + d;
    forall i | 0 <= i < |s| ensures SlugChar(s[i]) {
      assert i > |kept| ==> s[i] == d[i - |kept| - 1];
    }
  }

  /** A pass over a name that ends in its counter strips and counts on. */
  lemma PassShape(name: string, j: nat)
    requires Sound(name) && (j > 0 ==> EndsWith(name, "_" + Dec(j)))
    ensures NextTry(name, j).1 == j + 1
    ensures Sound(NextTry(name, j).0) && EndsWith(NextTry(name, j).0, "_" + Dec(j + 1))
  {
    var n := if j == 0 then name + "_0" else name;
    if j == 0 {
      assert Dec(0) == "0" && name + "_" + "0" == name + "_0";
      SuffixShape(name, 0);
    }
    var kept := DropTwo(n);
    assert AllSlug(kept) && (kept != "" ==> kept[0] == n[0]);
    SuffixShape(kept, j + 1);
  }

  /** After k > 0 passes the counter is k and the name ends in "_k"; it is still a sound word. */
  lemma {:induction false} TryShape(start: string, k: nat)
    requires Sound(start)
    ensures Sound(Try(start, k)) && (k > 0 ==> EndsWith(Try(start, k), "_" + Dec(k)))
    ensures NextTry(Try(start, k), k).1 == k + 1
  {
    if k > 0 {
      TryShape(start, k - 1);
      PassShape(Try(start, k - 1), k - 1);
    }
    PassShape(Try(start, k), k);
  }

  /**
   The tries from a sound start: the start itself, the start with "_1", and from then on the last try without its last
   two characters, with the next counter after an underscore. The start is the beginning of each.
   */
  lemma {:induction false} TryExactly(start: string, k: nat)
    requires Sound(start)
    ensures k == 0 ==> Try(start, k) == start
    ensures k == 1 ==> Try(start, k) == start + "_1"
    ensures k > 1 ==> |Try(start, k - 1)| >= 2
                      && Try(start, k) == Try(start, k - 1)[..|Try(start, k - 1)| - 2] + "_" + Dec(k)
    ensures start <= Try(start, k) && (k > 0 ==> |Try(start, k)| >= |start| + 2)
  {
    if k == 1 {
      FirstPass(start);
    } else if k > 1 {
      TryExactly(start, k - 1);
      LaterPass(start, k);
      var kept := Try(start, k - 1)[..|Try(start, k - 1)| - 2];
      assert start <= kept;
      assert (kept + "_" + Dec(k))[..|start|] == start;
    }
  }

  lemma FirstPass(start: string)
    requires Sound(start)
    ensures Try(start, 1) == start + "_1"
  {
    assert Dec(0) == "0" && Dec(1) == "1" && start + "_" + "0" == start + "_0" && start + "_" + "1" == start + "_1";
    SuffixShape(start, 0);
    assert DropTwo(start + "_0") == start;
    assert Try(start, 1) == NextTry(Try(start, 0), 0).0;
  }

  lemma LaterPass(start: string, k: nat)
    requires Sound(start) && k > 1 && |Try(start, k - 1)| >= 2
    ensures Try(start, k) == Try(start, k - 1)[..|Try(start, k - 1)| - 2] + "_" + Dec(k)
  {
    TryShape(start, k - 1);
  }

  /** One more try, told by the last one without its last two characters. */
  lemma NextOf(start: string, k: nat, kept: string, tail: string)
    requires Sound(start) && k > 1 && Try(start, k - 1) == kept + tail && |tail| == 2
    ensures Try(start, k) == kept + "_" + Dec(k)
  {
    TryExactly(start, k);
    assert (kept + tail)[..|kept + tail| - 2] == kept;
  }

  function Underscores(n: nat): string {
    seq(n, _ => '_')
  }

  /** Up to ten the tries are numbered plainly; from then on each leaves one more underscore behind. */
  lemma {:induction false} TriesToHundred(start: string, k: nat)
    requires Sound(start) && 1 <= k <= 100
    ensures k <= 10 ==> Try(start, k) == start + "_" + Dec(k)
    ensures k > 10 ==> Try(start, k) == start + Underscores(k - 9) + Dec(k)
  {
    if k == 1 {
      TryExactly(start, 1);
    } else if k <= 10 {
      TriesToHundred(start, k - 1);
      assert start + "_" + Dec(k - 1) == start + ("_" + Dec(k - 1));
      NextOf(start, k, start, "_" + Dec(k - 1));
    } else {
      TriesToHundred(start, k - 1);
      var kept := start + Underscores(k - 10);
      assert k == 11 ==> kept == start + "_";
      assert |Dec(k - 1)| == 2;
      NextOf(start, k, kept, Dec(k - 1));
      assert kept + "_" == start + Underscores(k - 9);
    }
  }

  lemma CutSuffix(s: string, d: string) returns (kept: string)
    requires EndsWith(s, "_" + d)
    ensures s == kept + ['_'] + d
  {
    kept := s[..|s| - |d| - 1];
    assert s == kept + ("_" + d);
  }

  /** No try is ever repeated, although the two characters stripped are not always the whole suffix. */
  lemma TriesDiffer(start: string, i: nat, j: nat)
    requires Sound(start) && 0 < i && 0 < j && Try(start, i) == Try(start, j)
    ensures i == j
  {
    TryShape(start, i);
    TryShape(start, j);
    var a := CutSuffix(Try(start, i), Dec(i));
    var b := CutSuffix(Try(start, j), Dec(j));
    assert !IsDigit('_');
    CutLastUnique(a, Dec(i), b, Dec(j), '_');
    DecInjective(i, j);
  }

  lemma TriesBounded(start: string, taken: set<string>, k: nat)
    requires Sound(start) && forall j: nat :: 0 < j <= k ==> Try(start, j) in taken
    ensures k <= |taken|
  {
    var tries := seq(k, j requires 0 <= j < k => Try(start, j + 1));
    forall i, j | 0 <= i < j < k ensures tries[i] != tries[j] {
      if tries[i] == tries[j] {
        TriesDiffer(start, i + 1, j + 1);
      }
    }
    Pigeonhole(tries, taken);
  }

  /** The slug of a name, given an underscore in front when it does not start like a column name. */
  function Start(slug: string -> string, name: string): string {
    var s := slug(name);
    if s != "" && FirstChar(s[0]) then s else "_" + s
  }

  /** The start is sound, and is the slug itself if that has a first character, else the slug after an underscore. */
  lemma StartExactly(slug: string -> string, name: string)
    requires Slugifier(slug)
    ensures Sound(Start(slug, name))
    ensures Start(slug, name)
         == if slug(name) != "" && !IsDigit(slug(name)[0]) then slug(name) else "_" + slug(name)
  {
  }

  /** The k-th try is the first that is not taken. */
  ghost predicate FirstFree(start: string, taken: set<string>, name: string, k: nat) {
    name == Try(start, k) && name !in taken && forall i: nat :: i < k ==> Try(start, i) in taken
  }

  method FreshColumn(start: string, taken: set<string>) returns (name: string)
    requires Sound(start)
    ensures name !in taken && Sound(name)
    ensures exists k: nat :: FirstFree(start, taken, name, k)
  {
    name := start;
    var j := 0;
    while name in taken
      invariant name == Try(start, j) && Sound(name)
      invariant forall i: nat :: i < j ==> Try(start, i) in taken
      decreases |taken| - j
    {
      TriesBounded(start, taken, j);
      TryShape(start, j);
      TryShape(start, j + 1);
      ghost var next := NextTry(name, j);
      if j == 0 {
        name := name + "_0";
      }
      if EndsWith(name, "_" + Dec(j)) {
        name := DropTwo(name) + "_" + Dec(j + 1);
        j := j + 1;
      }
      assert (name, j) == next;
    }
    assert FirstFree(start, taken, name, j);
  }

  // ---- The renaming plan ----

  /** What the check reports: the file or a name cannot be read, nothing to do, or the renames made. */
  datatype Report = Unreadable | AlreadyValid | Renamed(plan: map<string, string>)

  /** A plan renames exactly the invalid columns, to sound names that are new and pairwise different. */
  ghost predicate GoodPlan(columns: seq<string>, plan: map<string, string>) {
    && (forall c :: c in plan <==> c in columns && !Valid(c))
    && (forall c :: c in plan ==> Sound(plan[c]) && plan[c] !in columns)
    && (forall c, d :: c in plan && d in plan && c != d ==> plan[c] != plan[d])
  }

  /** A name is in use for column i: a column has it and keeps it, or an earlier column is renamed to it. */
  ghost predicate Used(columns: seq<string>, plan: map<string, string>, i: nat, name: string) {
    (name in columns && Valid(name)) || exists h :: 0 <= h < i && h < |columns| && Gets(columns[h], plan, name)
  }

  predicate Gets(column: string, plan: map<string, string>, name: string) {
    column in plan && plan[column] == name
  }

  /** The new name is the first try from the column's own slug that is not in use. */
  ghost predicate FirstUnused(
      columns: seq<string>, slug: string -> string, plan: map<string, string>, i: nat, name: string, k: nat)
    requires i < |columns|
  {
    && name == Try(Start(slug, columns[i]), k) && !Used(columns, plan, i, name)
    && forall j: nat :: j < k ==> Used(columns, plan, i, Try(Start(slug, columns[i]), j))
  }

  ghost predicate FirstChoices(columns: seq<string>, slug: string -> string, plan: map<string, string>, n: nat)
    requires n <= |columns|
  {
    forall i :: 0 <= i < n && columns[i] in plan ==>
      exists k: nat :: FirstUnused(columns, slug, plan, i, plan[columns[i]], k)
  }

  /** The columns and the slugs leave no choice of the new names. */
  lemma {:induction false} PlanDetermined(
      columns: seq<string>, slug: string -> string, p: map<string, string>, q: map<string, string>, n: nat)
    requires n <= |columns| && forall c :: c in p <==> c in q
    requires FirstChoices(columns, slug, p, n) && FirstChoices(columns, slug, q, n)
    ensures forall i :: 0 <= i < n && columns[i] in p ==> p[columns[i]] == q[columns[i]]
  {
    if n > 0 {
      PlanDetermined(columns, slug, p, q, n - 1);
      var c := columns[n - 1];
      if c in p {
        var k: nat :| FirstUnused(columns, slug, p, n - 1, p[c], k);
        var m: nat :| FirstUnused(columns, slug, q, n - 1, q[c], m);
        NotEarlier(columns, slug, p, q, n - 1, k, m);
        NotEarlier(columns, slug, q, p, n - 1, m, k);
      }
    }
  }

  lemma NotEarlier(
      columns: seq<string>, slug: string -> string, p: map<string, string>, q: map<string, string>,
      i: nat, k: nat, m: nat)
    requires i < |columns| && columns[i] in p && columns[i] in q
    requires forall h :: 0 <= h < i ==> (columns[h] in p <==> columns[h] in q)
    requires forall h :: 0 <= h < i && columns[h] in p ==> p[columns[h]] == q[columns[h]]
    requires FirstUnused(columns, slug, p, i, p[columns[i]], k) && FirstUnused(columns, slug, q, i, q[columns[i]], m)
    ensures m <= k
  {
    var x := p[columns[i]];
    assert forall h :: 0 <= h < i ==> (Gets(columns[h], p, x) <==> Gets(columns[h], q, x));
  }

  /** The columns once the renames of the given keys have been carried out. */
  function After(columns: seq<string>, plan: map<string, string>, done: set<string>): seq<string> {
    seq(|columns|, i requires 0 <= i < |columns| =>
      if columns[i] in done && columns[i] in plan then plan[columns[i]] else columns[i])
  }

  /** Whichever renames have been done so far, no two columns share a name. */
  lemma NeverCollides(columns: seq<string>, plan: map<string, string>, done: set<string>)
    requires Distinct(columns) && GoodPlan(columns, plan) && done <= plan.Keys
    ensures Distinct(After(columns, plan, done))
    ensures forall c :: c in plan && c !in done ==> plan[c] !in After(columns, plan, done)
  {
    var now := After(columns, plan, done);
    assert forall i :: 0 <= i < |columns| ==> columns[i] in columns;
    forall c, i | c in plan && c !in done && 0 <= i < |now| ensures now[i] != plan[c] {
      assert columns[i] in done ==> columns[i] in plan && columns[i] != c;
    }
  }

  method MakePlan(columns: seq<string>, slug: string -> string, decodable: string -> bool)
    returns (ok: bool, plan: map<string, string>)
    requires Slugifier(slug) && Distinct(columns)
    ensures ok <==> forall c :: c in columns ==> decodable(c)
    ensures ok ==> GoodPlan(columns, plan) && FirstChoices(columns, slug, plan, |columns|)
  {
    var original := ValidOnes(columns);
    plan := map[];
    for i := 0 to |columns|
      invariant GoodSoFar(columns, plan, i)
      invariant forall k :: 0 <= k < i ==> decodable(columns[k])
      invariant FirstChoices(columns, slug, plan, i)
    {
      var field := columns[i];
      if !decodable(field) {
        return false, plan;
      }
      if !Valid(field) {
        StartExactly(slug, field);
        var taken := Elements(original) + plan.Values;
        var name := FreshColumn(Start(slug, field), taken);
        PlanStep(columns, slug, original, plan, i, name);
        plan := plan[field := name];
      } else {
        assert columns[..i + 1] == columns[..i] + [field];
        assert field !in plan;
      }
    }
    assert columns[..|columns|] == columns;
    ok := true;
  }

  /** The plan for the first i columns. */
  ghost predicate GoodSoFar(columns: seq<string>, plan: map<string, string>, i: nat)
    requires i <= |columns|
  {
    && (forall c :: c in plan <==> c in columns[..i] && !Valid(c))
    && (forall c :: c in plan ==> Sound(plan[c]) && plan[c] !in columns)
    && (forall c, d :: c in plan && d in plan && c != d ==> plan[c] != plan[d])
  }

  lemma GoodStep(columns: seq<string>, original: seq<string>, plan: map<string, string>, i: nat, name: string)
    requires i < |columns| && GoodSoFar(columns, plan, i) && !Valid(columns[i]) && Sound(name)
    requires name !in Elements(original) + plan.Values
    requires forall c :: c in original <==> c in columns && Valid(c)
    ensures GoodSoFar(columns, plan[columns[i] := name], i + 1)
  {
    assert columns[..i + 1] == columns[..i] + [columns[i]];
    assert forall c :: c in plan ==> plan[c] in plan.Values;
    assert name !in columns;
  }

  /** Both, for a sound first free try. */
  lemma PlanStep(
      columns: seq<string>, slug: string -> string, original: seq<string>, plan: map<string, string>, i: nat,
      name: string)
    requires i < |columns| && Distinct(columns) && GoodSoFar(columns, plan, i) && FirstChoices(columns, slug, plan, i)
    requires forall c :: c in original <==> c in columns && Valid(c)
    requires !Valid(columns[i]) && Sound(name)
    requires exists k: nat :: FirstFree(Start(slug, columns[i]), Elements(original) + plan.Values, name, k)
    ensures GoodSoFar(columns, plan[columns[i] := name], i + 1)
    ensures FirstChoices(columns, slug, plan[columns[i] := name], i + 1)
  {
    GoodStep(columns, original, plan, i, name);
    TakenIsUsed(columns, original, plan, i);
    Extended(columns, slug, plan, i, Elements(original) + plan.Values, name);
  }

  lemma TakenIsUsed(columns: seq<string>, original: seq<string>, plan: map<string, string>, i: nat)
    requires i <= |columns| && forall c :: c in plan ==> c in columns[..i]
    requires forall c :: c in original <==> c in columns && Valid(c)
    ensures forall x :: x in Elements(original) + plan.Values <==> Used(columns, plan, i, x)
  {
    forall x ensures x in plan.Values <==> exists h :: 0 <= h < i && h < |columns| && Gets(columns[h], plan, x) {
      if x in plan.Values {
        var c :| c in plan && plan[c] == x;
        var h :| 0 <= h < i && columns[..i][h] == c;
        assert Gets(columns[h], plan, x);
      }
    }
  }

  /** A plan for the first i columns and a first unused name for the next one. */
  lemma Extended(
      columns: seq<string>, slug: string -> string, plan: map<string, string>, i: nat, taken: set<string>, name: string)
    requires i < |columns| && Distinct(columns) && FirstChoices(columns, slug, plan, i)
    requires forall x :: x in taken <==> Used(columns, plan, i, x)
    requires exists k: nat :: FirstFree(Start(slug, columns[i]), taken, name, k)
    ensures FirstChoices(columns, slug, plan[columns[i] := name], i + 1)
  {
    var next := plan[columns[i] := name];
    forall h, x | 0 <= h < i ensures Gets(columns[h], next, x) <==> Gets(columns[h], plan, x) {
    }
    assert forall h, x | 0 <= h <= i :: Used(columns, next, h, x) <==> Used(columns, plan, h, x);
    forall h | 0 <= h < i && columns[h] in next
      ensures exists k: nat :: FirstUnused(columns, slug, next, h, next[columns[h]], k)
    {
      var k: nat :| FirstUnused(columns, slug, plan, h, next[columns[h]], k);
      assert FirstUnused(columns, slug, next, h, next[columns[h]], k);
    }
    var k: nat :| FirstFree(Start(slug, columns[i]), taken, name, k);
    assert FirstUnused(columns, slug, next, i, name, k);
  }

  method ValidOnes(columns: seq<string>) returns (original: seq<string>)
    ensures forall c :: c in original <==> c in columns && Valid(c)
  {
    original := [];
    for i := 0 to |columns|
      invariant forall c :: c in original <==> c in columns[..i] && Valid(c)
    {
      assert columns[..i + 1] == columns[..i] + [columns[i]];
      if Valid(columns[i]) {
        original := original + [columns[i]];
      }
    }
    assert columns[..|columns|] == columns;
  }

  /** The shapefile's table definition, renamed one column at a time. */
  class ShapeTable {
    var columns: seq<string>

    constructor (columns: seq<string>)
      ensures this.columns == columns
    {
      this.columns := columns;
    }

    /** ALTER TABLE ... RENAME COLUMN: the new name must not be in use. */
    method RenameColumn(name: string, target: string)
      requires target !in columns
      modifies this
      ensures columns == After(old(columns), map[name := target], {name})
    {
      columns := After(columns, map[name := target], {name});
    }

    /** Carries a plan out, in any order. */
    method RenameAll(plan: map<string, string>)
      requires Distinct(columns) && GoodPlan(columns, plan)
      modifies this
      ensures columns == After(old(columns), plan, plan.Keys) && Distinct(columns)
    {
      ghost var all := columns;
      var todo := plan.Keys;
      assert After(all, plan, {}) == all;
      while todo != {}
        invariant todo <= plan.Keys
        invariant columns == After(all, plan, plan.Keys - todo) && Distinct(columns)
        decreases todo
      {
        var key :| key in todo;
        ghost var done := plan.Keys - todo;
        NeverCollides(all, plan, done);
        RenameColumn(key, plan[key]);
        RenameStep(all, plan, done, key);
        NeverCollides(all, plan, done + {key});
        todo := todo - {key};
        assert plan.Keys - todo == done + {key};
      }
      assert plan.Keys - {} == plan.Keys;
    }

    method CheckColumnNames(slug: string -> string, decodable: string -> bool, readable: bool) returns (r: Report)
      requires Slugifier(slug)
      requires Distinct(columns)
      modifies this
      ensures r.Unreadable? <==> !readable || exists c :: c in old(columns) && !decodable(c)
      ensures !r.Renamed? ==> columns == old(columns)
      ensures r.AlreadyValid? ==> forall c :: c in old(columns) ==> Valid(c)
      ensures r.Renamed? ==> GoodPlan(old(columns), r.plan) && r.plan != map[]
      ensures r.Renamed? ==> FirstChoices(old(columns), slug, r.plan, |old(columns)|)
      ensures |columns| == |old(columns)|
      ensures r.Renamed? ==> forall i :: 0 <= i < |columns| ==>
          columns[i] == if Valid(old(columns)[i]) then old(columns)[i] else r.plan[old(columns)[i]]
      ensures Distinct(columns)
      ensures !r.Unreadable? ==> forall i :: 0 <= i < |columns| ==> Valid(columns[i])
    {
      if !readable {
        return Unreadable;
      }
      var ok, plan := MakePlan(columns, slug, decodable);
      if !ok {
        return Unreadable;
      }
      assert forall i :: 0 <= i < |columns| ==> columns[i] in columns;
      if plan == map[] {
        assert forall c :: c in columns ==> c !in plan;
        return AlreadyValid;
      }
      RenameAll(plan);
      r := Renamed(plan);
    }
  }

  /** Renaming one more column carries out the plan for one more key. */
  lemma RenameStep(columns: seq<string>, plan: map<string, string>, done: set<string>, key: string)
    requires Distinct(columns) && GoodPlan(columns, plan) && done <= plan.Keys && key in plan && key !in done
    ensures After(After(columns, plan, done), map[key := plan[key]], {key}) == After(columns, plan, done + {key})
  {
    assert forall i :: 0 <= i < |columns| ==> columns[i] in columns;
    assert key in columns;
  }
}
