/**
 The source table of a map viewer configuration (geonode/utils.py, GXPMapBase.viewer_json):
 the sources of the layers are made unique and numbered, the base layers' sources are added,
 and every layer is printed with the key of its source.
 */
module ViewerSources {
  import opened Lists
  import opened Text
  import opened Config
  import opened LexKeys

  type Sources = map<string, Cfg>

  // ---- Numbering the distinct sources ----

  /** uniqify: the first occurrence of every entry. */
  function Uniq(s: seq<Cfg>): (r: seq<Cfg>)
    ensures forall x :: x in r <==> x in s
  {
    if s == [] then []
    else
      var last := s[|s| - 1];
      var r := Uniq(s[..|s| - 1]);
      assert forall x :: x in s <==> x in s[..|s| - 1] || x == last;
      if last in r then r else r + [last]
  }

  /** The position of the first occurrence. */
  function First(s: seq<Cfg>, x: Cfg): (i: nat)
    requires x in s
    ensures i < |s| && s[i] == x && x !in s[..i]
  {
    if s[0] == x then 0
    else
      assert s == [s[0]] + s[1..];
      var i := First(s[1..], x);
      assert s[..i + 1] == [s[0]] + s[1..][..i];
      i + 1
  }

  /** The distinct sources come in the order in which they are first seen. */
  lemma {:induction false} UniqFirstSeen(s: seq<Cfg>)
    ensures Distinct(Uniq(s))
    ensures forall i, j :: 0 <= i < j < |Uniq(s)| ==> First(s, Uniq(s)[i]) < First(s, Uniq(s)[j])
  {
    if s != [] {
      var init, last := s[..|s| - 1], s[|s| - 1];
      UniqFirstSeen(init);
      forall x | x in init ensures x in s && First(s, x) == First(init, x) {
        FirstStays(init, last, x);
      }
      if last !in init {
        assert First(s, last) == |s| - 1;
      }
      assert forall i :: 0 <= i < |Uniq(init)| ==> Uniq(init)[i] in Uniq(init);
    }
  }

  lemma FirstStays(init: seq<Cfg>, last: Cfg, x: Cfg)
    requires x in init
    ensures x in init + [last] && First(init + [last], x) == First(init, x)
  {
    var s := init + [last];
    assert s[First(init, x)] == x;
    var i, j := First(init, x), First(s, x);
    assert forall k :: 0 <= k < i ==> init[k] in init[..i] by {
      assert forall k :: 0 <= k < i ==> init[..i][k] == init[k];
    }
    assert forall k :: 0 <= k < j ==> s[k] in s[..j] by {
      assert forall k :: 0 <= k < j ==> s[..j][k] == s[k];
    }
  }

  /** Keys "0", "1", ... in order. */
  function NumberUp(srcs: seq<Cfg>): Sources {
    if srcs == [] then map[] else NumberUp(srcs[..|srcs| - 1])[Dec(|srcs| - 1) := srcs[|srcs| - 1]]
  }

  /** The keys are "0" to str(n - 1). */
  ghost predicate IsNumbered(sources: Sources, n: nat) {
    forall k :: k in sources <==> IsKey(n, k)
  }

  lemma {:induction false} NumberUpShape(srcs: seq<Cfg>)
    ensures IsNumbered(NumberUp(srcs), |srcs|)
    ensures forall k :: k in NumberUp(srcs) ==> Value(k) < |srcs| && NumberUp(srcs)[k] == srcs[Value(k)]
  {
    if srcs != [] {
      NumberUpShape(srcs[..|srcs| - 1]);
      ValueOfDec(|srcs| - 1);
    }
  }

  lemma NumberUpAt(srcs: seq<Cfg>, i: nat)
    requires i < |srcs|
    ensures Dec(i) in NumberUp(srcs) && NumberUp(srcs)[Dec(i)] == srcs[i]
  {
    NumberUpShape(srcs);
    ValueOfDec(i);
  }

  method Uniqify(configs: seq<Cfg>) returns (results: seq<Cfg>)
    ensures results == Uniq(configs)
  {
    results := [];
    for i := 0 to |configs|
      invariant results == Uniq(configs[..i])
    {
      assert configs[..i + 1][..i] == configs[..i];
      if configs[i] !in results {
        results := results + [configs[i]];
      }
    }
    assert configs[..|configs|] == configs;
  }

  method NumberSources(configs: seq<Cfg>) returns (sources: Sources)
    ensures sources == NumberUp(Uniq(configs))
  {
    var unique := Uniqify(configs);
    sources := map[];
    var i := 0;
    for j := 0 to |unique|
      invariant sources == NumberUp(unique[..j]) && i <= j
    {
      NumberUpShape(unique[..j]);
      while Dec(i) in sources
        invariant i <= j
        decreases j - i
      {
        KeyOfNumber(j, i);
        i := i + 1;
      }
      KeyOfNumber(j, i);
      assert unique[..j + 1][..j] == unique[..j];
      sources := sources[Dec(i) := unique[j]];
    }
    assert unique[..|unique|] == unique;
  }

  // ---- The local server's source ----

  const LOCAL_TITLE := Str("Local Geoserver")

  /** source_urls */
  predicate HasUrl(sources: Sources, url: Json) {
    exists k :: k in sources && Url in sources[k] && sources[k][Url] == url
  }

  /** The key that sorts last as a string. */
  ghost predicate IsGreatest(sources: Sources, m: string) {
    m in sources && forall k :: k in sources ==> LexLeq(k, m)
  }

  /** The key chosen for the local server. */
  function NextKey(m: string): string {
    Dec(Value(m) + 1)
  }

  /** It is new exactly when all digits of the last number but its own last are nines. */
  lemma LocalKeyFreshExactly(sources: Sources, n: nat, m: string)
    requires n > 0 && IsNumbered(sources, n) && IsGreatest(sources, m)
    ensures NextKey(m) !in sources <==> NinesButLast(n - 1)
  {
    assert forall k :: IsKey(n, k) <==> k in sources;
    NextOfGreatestFreshExactly(n - 1, m);
  }

  /** Up to ten sources the key is always new. */
  lemma TenSourcesSuffice(n: nat)
    requires n < 10
    ensures NinesButLast(n)
  {
  }

  /** With eleven it is not: the local server replaces source 10. */
  lemma ElevenSourcesClash()
    ensures !NinesButLast(10)
  {
    assert Dec(10) == "10";
    assert Dec(10)[0] == '1';
  }

  /** No source disappears when the local server is added, exactly under that condition. */
  lemma NothingLostExactly(srcs: seq<Cfg>, m: string, local: Cfg)
    requires srcs != [] && Distinct(srcs) && IsGreatest(NumberUp(srcs), m) && local !in srcs
    ensures (forall c :: c in srcs ==> c in NumberUp(srcs)[NextKey(m) := local].Values) <==> NinesButLast(|srcs| - 1)
  {
    var key := NextKey(m);
    var after := NumberUp(srcs)[key := local];
    NumberUpShape(srcs);
    LocalKeyFreshExactly(NumberUp(srcs), |srcs|, m);
    if key !in NumberUp(srcs) {
      forall c | c in srcs ensures c in after.Values {
        var i: nat :| i < |srcs| && srcs[i] == c;
        NumberUpAt(srcs, i);
        assert Dec(i) in after && after[Dec(i)] == c;
      }
    } else {
      ReplacedIsLost(srcs, key, local);
    }
  }

  lemma ReplacedIsLost(srcs: seq<Cfg>, key: string, local: Cfg)
    requires Distinct(srcs) && key in NumberUp(srcs) && local !in srcs
    ensures exists c :: c in srcs && c !in NumberUp(srcs)[key := local].Values
  {
    NumberUpShape(srcs);
    var after := NumberUp(srcs)[key := local];
    var i := Value(key);
    assert srcs[i] in srcs;
    forall k | k in after ensures after[k] != srcs[i] {
      assert k != key ==> Value(k) != i;
    }
  }

  /** Two sources are the same to a base layer if they differ in nothing but id, baseParams and title. */
  lemma SameBaseExactly(c: Cfg, d: Cfg)
    ensures Base(c) == Base(d)
       <==> forall k :: k != Id && k != BaseParams && k != Title ==>
              (k in c <==> k in d) && (k in c && k in d ==> c[k] == d[k])
  {
    if Base(c) == Base(d) {
      forall k | k != Id && k != BaseParams && k != Title
        ensures (k in c <==> k in d) && (k in c && k in d ==> c[k] == d[k])
      {
        WithoutExactly(c, [Id, BaseParams, Title], k);
        WithoutExactly(d, [Id, BaseParams, Title], k);
      }
    }
  }

  // ---- The base layers' sources ----

  /** A source without its id, baseParams and title. */
  function Base(source: Cfg): Cfg {
    Without(source, [Id, BaseParams, Title])
  }

  predicate Present(sources: Sources, source: Cfg) {
    exists k :: k in sources && Base(sources[k]) == Base(source)
  }

  /** max(sources.keys(), key=int) */
  method GreatestNumber(keys: set<string>) returns (m: string)
    requires keys != {}
    ensures m in keys && forall k :: k in keys ==> Value(k) <= Value(m)
  {
    m :| m in keys;
    var rest := keys - {m};
    while rest != {}
      invariant rest <= keys && m in keys && forall k :: k in keys && k !in rest ==> Value(k) <= Value(m)
      decreases rest
    {
      var k :| k in rest;
      if Value(k) > Value(m) {
        m := k;
      }
      rest := rest - {k};
    }
  }

  /** Every entry of the one table is in the other. */
  ghost predicate Extends(small: Sources, large: Sources) {
    forall k :: k in small ==> k in large && large[k] == small[k]
  }

  lemma ReplaceExtendsExactly(sources: Sources, key: string, local: Cfg)
    requires key in sources ==> sources[key] != local
    ensures Extends(sources, sources[key := local]) <==> key !in sources
    ensures sources[key := local] != map[]
  {
    assert key in sources[key := local];
  }

  /** A base layer's source without a match in the table, the first of its kind up to position n. */
  predicate AddedBase(start: Sources, bases: seq<Cfg>, n: nat, c: Cfg)
    requires n <= |bases|
  {
    !Present(start, c) && exists i :: 0 <= i < n && bases[i] == c && forall j :: 0 <= j < i ==>
        Base(bases[j]) != Base(c)
  }

  ghost predicate Grown(start: Sources, bases: seq<Cfg>, n: nat, sources: Sources)
    requires n <= |bases|
  {
    forall c :: c in sources.Values <==> c in start.Values || AddedBase(start, bases, n, c)
  }

  method AddBaseSources(start: Sources, bases: seq<Cfg>) returns (sources: Sources)
    requires start != map[]
    ensures Extends(start, sources)
    ensures forall b :: b in bases ==> Present(sources, b)
    ensures Grown(start, bases, |bases|, sources)
    ensures forall k :: k in sources ==> sources[k] in start.Values || sources[k] in bases
    ensures forall k, h :: k in sources && k !in start && h in start ==> k == Dec(Value(k)) && Value(h) < Value(k)
  {
    sources := start;
    for i := 0 to |bases|
      invariant BasesDone(start, bases, i, sources)
    {
      if !Present(sources, bases[i]) {
        var m := GreatestNumber(sources.Keys);
        var key := Dec(Value(m) + 1);
        PlacedLast(start, sources, m, key, bases[i]);
        BaseAdded(start, bases, i, sources, key);
        sources := sources[key := bases[i]];
      } else {
        BaseKept(start, bases, i, sources);
      }
    }
    NumbersAbove(start, sources);
  }

  ghost predicate AllPresent(bases: seq<Cfg>, n: nat, sources: Sources)
    requires n <= |bases|
  {
    forall j :: 0 <= j < n ==> Present(sources, bases[j])
  }

  ghost predicate FromEither(start: Sources, bases: seq<Cfg>, sources: Sources) {
    forall k :: k in sources ==> sources[k] in start.Values || sources[k] in bases
  }

  /** The table after the first n base layers. */
  ghost predicate BasesDone(start: Sources, bases: seq<Cfg>, n: nat, sources: Sources)
    requires n <= |bases|
  {
    && sources != map[] && Extends(start, sources) && NumbersOnly(start, sources) && Grown(start, bases, n, sources)
    && AllPresent(bases, n, sources) && FromEither(start, bases, sources)
  }

  lemma BaseKept(start: Sources, bases: seq<Cfg>, n: nat, sources: Sources)
    requires n < |bases| && BasesDone(start, bases, n, sources) && Present(sources, bases[n])
    ensures BasesDone(start, bases, n + 1, sources)
  {
    PresentExactly(start, bases, n, sources);
    GrownNext(start, bases, n, sources, sources);
    PresentNext(bases, n, sources, sources);
  }

  lemma BaseAdded(start: Sources, bases: seq<Cfg>, n: nat, sources: Sources, key: string)
    requires n < |bases| && BasesDone(start, bases, n, sources) && !Present(sources, bases[n]) && key !in sources
    requires NumbersOnly(start, sources[key := bases[n]])
    ensures BasesDone(start, bases, n + 1, sources[key := bases[n]])
  {
    GrownAdded(start, bases, n, sources, key);
    NewIsPresent(sources, key, bases[n]);
    PresentNext(bases, n, sources, sources[key := bases[n]]);
    EitherNext(start, bases, n, sources, key);
  }

  lemma GrownAdded(start: Sources, bases: seq<Cfg>, n: nat, sources: Sources, key: string)
    requires n < |bases| && BasesDone(start, bases, n, sources) && !Present(sources, bases[n]) && key !in sources
    ensures Grown(start, bases, n + 1, sources[key := bases[n]]) && Extends(start, sources[key := bases[n]])
    ensures sources[key := bases[n]] != map[]
  {
    NewEntry(sources, key, bases[n]);
    PresentExactly(start, bases, n, sources);
    GrownNext(start, bases, n, sources, sources[key := bases[n]]);
    assert key in sources[key := bases[n]];
  }

  lemma NewIsPresent(sources: Sources, key: string, c: Cfg)
    ensures Present(sources[key := c], c)
  {
    assert key in sources[key := c] && Base(sources[key := c][key]) == Base(c);
  }

  lemma PresentNext(bases: seq<Cfg>, n: nat, before: Sources, after: Sources)
    requires n < |bases| && AllPresent(bases, n, before) && Extends(before, after) && Present(after, bases[n])
    ensures AllPresent(bases, n + 1, after)
  {
    forall j | 0 <= j < n ensures Present(after, bases[j]) {
      PresentStays(before, after, [bases[j]]);
      assert Present(after, [bases[j]][0]);
    }
  }

  lemma EitherNext(start: Sources, bases: seq<Cfg>, n: nat, sources: Sources, key: string)
    requires n < |bases| && FromEither(start, bases, sources)
    ensures FromEither(start, bases, sources[key := bases[n]])
  {
  }

  /** Every new key is a number above all old ones. */
  ghost predicate NumbersOnly(start: Sources, sources: Sources) {
    forall k :: k in sources && k !in start ==> k == Dec(Value(k)) && forall h :: h in start ==> Value(h) < Value(k)
  }

  lemma NumbersAbove(start: Sources, sources: Sources)
    requires NumbersOnly(start, sources)
    ensures forall k, h :: k in sources && k !in start && h in start ==> k == Dec(Value(k)) && Value(h) < Value(k)
  {
  }

  lemma PlacedLast(start: Sources, sources: Sources, m: string, key: string, c: Cfg)
    requires Extends(start, sources) && NumbersOnly(start, sources)
    requires m in sources && forall k :: k in sources ==> Value(k) <= Value(m)
    requires key == Dec(Value(m) + 1)
    ensures key !in sources && NumbersOnly(start, sources[key := c])
  {
    ValueOfDec(Value(m) + 1);
  }

  lemma NewEntry(sources: Sources, key: string, c: Cfg)
    requires key !in sources
    ensures sources[key := c].Values == sources.Values + {c}
  {
    forall x | x in sources.Values ensures x in sources[key := c].Values {
      var k :| k in sources && sources[k] == x;
      assert k in sources[key := c] && sources[key := c][k] == x;
    }
    assert key in sources[key := c];
  }

  lemma PresentExactly(start: Sources, bases: seq<Cfg>, n: nat, sources: Sources)
    requires n < |bases| && Grown(start, bases, n, sources) && Extends(start, sources)
    requires AllPresent(bases, n, sources)
    ensures Present(sources, bases[n])
        <==> Present(start, bases[n]) || exists j :: 0 <= j < n && Base(bases[j]) == Base(bases[n])
  {
    if Present(sources, bases[n]) {
      var k :| k in sources && Base(sources[k]) == Base(bases[n]);
      var c := sources[k];
      assert c in sources.Values;
      if c in start.Values {
        var h :| h in start && start[h] == c;
        assert Present(start, bases[n]);
      }
    }
    if Present(start, bases[n]) {
      PresentStays(start, sources, [bases[n]]);
      assert Present(sources, [bases[n]][0]);
    }
    if j :| 0 <= j < n && Base(bases[j]) == Base(bases[n]) {
      assert Present(sources, bases[j]);
    }
  }

  lemma GrownNext(start: Sources, bases: seq<Cfg>, n: nat, before: Sources, after: Sources)
    requires n < |bases| && Grown(start, bases, n, before)
    requires Present(before, bases[n])
        <==> Present(start, bases[n]) || exists j :: 0 <= j < n && Base(bases[j]) == Base(bases[n])
    requires if Present(before, bases[n]) then after == before else after.Values == before.Values + {bases[n]}
    ensures Grown(start, bases, n + 1, after)
  {
    forall c ensures AddedBase(start, bases, n + 1, c)
        <==> AddedBase(start, bases, n, c) || (c == bases[n] && !Present(before, bases[n])) {
    }
  }

  lemma PresentStays(before: Sources, after: Sources, bases: seq<Cfg>)
    requires Extends(before, after) && forall j :: 0 <= j < |bases| ==> Present(before, bases[j])
    ensures forall j :: 0 <= j < |bases| ==> Present(after, bases[j])
  {
    forall j | 0 <= j < |bases| ensures Present(after, bases[j]) {
      assert Present(before, bases[j]);
      var k :| k in before && Base(before[k]) == Base(bases[j]);
      assert k in after && Base(after[k]) == Base(bases[j]);
    }
  }

  // ---- The whole table ----

  /** Adding the local server leaves every layer source in its place. */
  predicate LocalFits(unique: seq<Cfg>, local: Cfg)
    requires Url in local && unique != []
  {
    HasUrl(NumberUp(unique), local[Url]) || NinesButLast(|unique| - 1)
  }

  function Titled(local: Cfg): Cfg {
    local[Title := LOCAL_TITLE]
  }

  /**
   The table with the local server: as it was if its url is known, else with an entry under the key after the
   greatest.
   */
  ghost predicate WithLocal(numbered: Sources, local: Cfg, sources: Sources)
    requires Url in local
  {
    if HasUrl(numbered, local[Url]) then sources == numbered
    else exists m :: HasLocalAfter(numbered, local, sources, m)
  }

  /**
   The table with the local server, in full: unchanged if an entry has the url, else with the titled source under the
   number after the key that sorts last.
   */
  lemma WithLocalExactly(numbered: Sources, local: Cfg, sources: Sources)
    requires Url in local
    ensures WithLocal(numbered, local, sources) <==>
        if exists k :: k in numbered && Url in numbered[k] && numbered[k][Url] == local[Url] then sources == numbered
        else exists m ::
          && m in numbered && (forall k :: k in numbered ==> LexLeq(k, m))
          && sources == numbered[Dec(Value(m) + 1) := local[Title := Str("Local Geoserver")]]
  {
    LocalAfterSome(numbered, local, sources);
  }

  lemma LocalAfterSome(numbered: Sources, local: Cfg, sources: Sources)
    ensures (exists m :: HasLocalAfter(numbered, local, sources, m)) <==>
        exists m :: && m in numbered && (forall k :: k in numbered ==> LexLeq(k, m))
                    && sources == numbered[Dec(Value(m) + 1) := local[Title := Str("Local Geoserver")]]
  {
    if m :| HasLocalAfter(numbered, local, sources, m) {
      LocalAfterExactly(numbered, local, sources, m);
    }
    if m :| m in numbered && (forall k :: k in numbered ==> LexLeq(k, m))
            && sources == numbered[Dec(Value(m) + 1) := local[Title := Str("Local Geoserver")]] {
      LocalAfterExactly(numbered, local, sources, m);
    }
  }

  lemma LocalAfterExactly(numbered: Sources, local: Cfg, sources: Sources, m: string)
    ensures HasLocalAfter(numbered, local, sources, m) <==>
        && m in numbered && (forall k :: k in numbered ==> LexLeq(k, m))
        && sources == numbered[Dec(Value(m) + 1) := local[Title := Str("Local Geoserver")]]
  {
  }

  ghost predicate HasLocalAfter(numbered: Sources, local: Cfg, sources: Sources, m: string) {
    IsGreatest(numbered, m) && sources == numbered[NextKey(m) := Titled(local)]
  }

  lemma LocalExtendsExactly(unique: seq<Cfg>, local: Cfg, sources: Sources)
    requires Url in local && unique != [] && WithLocal(NumberUp(unique), local, sources)
    ensures Extends(NumberUp(unique), sources) <==> LocalFits(unique, local)
  {
    var numbered := NumberUp(unique);
    if !HasUrl(numbered, local[Url]) {
      var m :| HasLocalAfter(numbered, local, sources, m);
      NumberUpNumbered(unique);
      LocalReplacesExactly(numbered, |unique|, local, sources, m);
    }
  }

  lemma NumberUpNumbered(srcs: seq<Cfg>)
    ensures IsNumbered(NumberUp(srcs), |srcs|)
  {
    NumberUpShape(srcs);
  }

  lemma LocalReplacesExactly(numbered: Sources, n: nat, local: Cfg, sources: Sources, m: string)
    requires n > 0 && IsNumbered(numbered, n) && HasLocalAfter(numbered, local, sources, m) && Url in local
    requires !HasUrl(numbered, local[Url])
    ensures Extends(numbered, sources) <==> NinesButLast(n - 1)
  {
    LocalKeyFreshExactly(numbered, n, m);
    NewUrlIsNoEntry(numbered, local, NextKey(m));
    ReplaceExtendsExactly(numbered, NextKey(m), Titled(local));
  }

  lemma NewUrlIsNoEntry(sources: Sources, local: Cfg, key: string)
    requires Url in local && !HasUrl(sources, local[Url])
    ensures key in sources ==> sources[key] != Titled(local)
  {
    assert Titled(local)[Url] == local[Url];
  }

  lemma LocalEntries(numbered: Sources, local: Cfg, sources: Sources)
    requires Url in local && numbered != map[] && WithLocal(numbered, local, sources)
    ensures sources != map[]
    ensures forall k :: k in sources ==>
        (k in numbered && sources[k] == numbered[k]) || (sources[k] == Titled(local) && !HasUrl(numbered, local[Url]))
  {
    if !HasUrl(numbered, local[Url]) {
      var m :| HasLocalAfter(numbered, local, sources, m);
      assert NextKey(m) in sources;
    }
  }

  lemma GreatestUnique(sources: Sources, m: string, n: string)
    requires IsGreatest(sources, m) && IsGreatest(sources, n)
    ensures m == n
  {
    LexAntisymmetric(m, n);
  }

  /** The layer source whose place the local server takes is added again, as the source of a base layer. */
  ghost predicate Restored(unique: seq<Cfg>, local: Cfg, bases: seq<Cfg>) {
    exists m, sources ::
      && HasLocalAfter(NumberUp(unique), local, sources, m) && NextKey(m) in NumberUp(unique)
      && AddedBase(sources, bases, |bases|, NumberUp(unique)[NextKey(m)])
  }

  /** A layer source is missing after the local server's turn exactly if the local server took its place. */
  lemma TakenPlace(unique: seq<Cfg>, local: Cfg, sources: Sources, m: string, c: Cfg)
    requires Url in local && !HasUrl(NumberUp(unique), local[Url]) && HasLocalAfter(NumberUp(unique), local, sources, m)
    requires Distinct(unique) && c in unique
    ensures c in sources.Values <==> !(NextKey(m) in NumberUp(unique) && NumberUp(unique)[NextKey(m)] == c)
  {
    var numbered := NumberUp(unique);
    var i: nat :| i < |unique| && unique[i] == c;
    NumberUpAt(unique, i);
    NewUrlIsNoEntry(numbered, local, Dec(i));
    forall k | k in numbered && numbered[k] == c ensures k == Dec(i) {
      KeyOfSource(unique, i, k);
    }
    if NextKey(m) != Dec(i) {
      assert Dec(i) in sources && sources[Dec(i)] == c;
    }
  }

  lemma KeyOfSource(unique: seq<Cfg>, i: nat, k: string)
    requires Distinct(unique) && i < |unique| && k in NumberUp(unique) && NumberUp(unique)[k] == unique[i]
    ensures k == Dec(i)
  {
    NumberUpShape(unique);
    assert IsKey(|unique|, k);
  }

  /**
   In the finished table every layer source is found, if and only if the local server leaves the layer sources in
   place or the one it replaces comes back.
   */
  lemma AllFoundExactly(unique: seq<Cfg>, local: Cfg, sources: Sources, bases: seq<Cfg>, done: Sources)
    requires Url in local && unique != [] && Distinct(unique) && WithLocal(NumberUp(unique), local, sources)
    requires Grown(sources, bases, |bases|, done)
    ensures (forall c :: c in unique ==>
        c in done.Values) <==> LocalFits(unique, local) || Restored(unique, local, bases)
  {
    var numbered := NumberUp(unique);
    if HasUrl(numbered, local[Url]) {
      forall c | c in unique ensures c in done.Values {
        var i: nat :| i < |unique| && unique[i] == c;
        NumberUpAt(unique, i);
      }
    } else {
      var m :| HasLocalAfter(numbered, local, sources, m);
      LocalFreshIsFit(unique, local, sources, m);
      AllFoundWithKey(unique, local, sources, bases, done, m);
      RestoredMeans(unique, local, sources, bases, m);
    }
  }

  lemma LocalFreshIsFit(unique: seq<Cfg>, local: Cfg, sources: Sources, m: string)
    requires Url in local && unique != [] && !HasUrl(NumberUp(unique), local[Url])
    requires HasLocalAfter(NumberUp(unique), local, sources, m)
    ensures LocalFits(unique, local) <==> NextKey(m) !in NumberUp(unique)
  {
    NumberUpNumbered(unique);
    LocalKeyFreshExactly(NumberUp(unique), |unique|, m);
  }

  lemma AllFoundWithKey(unique: seq<Cfg>, local: Cfg, sources: Sources, bases: seq<Cfg>, done: Sources, m: string)
    requires Url in local && !HasUrl(NumberUp(unique), local[Url]) && HasLocalAfter(NumberUp(unique), local, sources, m)
    requires Distinct(unique) && Grown(sources, bases, |bases|, done)
    ensures (forall c :: c in unique ==> c in done.Values)
       <==> NextKey(m) in NumberUp(unique) ==> AddedBase(sources, bases, |bases|, NumberUp(unique)[NextKey(m)])
  {
    forall c | c in unique ensures c in sources.Values
        <==> !(NextKey(m) in NumberUp(unique) && NumberUp(unique)[NextKey(m)] == c) {
      TakenPlace(unique, local, sources, m, c);
    }
    if NextKey(m) in NumberUp(unique) {
      ReplacedIsASource(unique, NextKey(m));
    }
  }

  lemma RestoredMeans(unique: seq<Cfg>, local: Cfg, sources: Sources, bases: seq<Cfg>, m: string)
    requires HasLocalAfter(NumberUp(unique), local, sources, m)
    ensures Restored(unique, local, bases)
       <==> NextKey(m) in NumberUp(unique) && AddedBase(sources, bases, |bases|, NumberUp(unique)[NextKey(m)])
  {
    if n, other :| HasLocalAfter(NumberUp(unique), local, other, n) && NextKey(n) in NumberUp(unique)
                   && AddedBase(other, bases, |bases|, NumberUp(unique)[NextKey(n)]) {
      GreatestUnique(NumberUp(unique), m, n);
    }
  }

  lemma ReplacedIsASource(unique: seq<Cfg>, key: string)
    requires key in NumberUp(unique)
    ensures NumberUp(unique)[key] in unique
  {
    NumberUpShape(unique);
    assert unique[Value(key)] in unique;
  }

  /** The site settings: the sources of the base layers. Building a table writes a title into the first one. */
  class MapSettings {
    var bases: seq<Cfg>
    const hasGeoserver: bool

    constructor (bases: seq<Cfg>, hasGeoserver: bool)
      ensures this.bases == bases && this.hasGeoserver == hasGeoserver
    {
      this.bases := bases;
      this.hasGeoserver := hasGeoserver;
    }

    /** False stands for an exception: no base layer, a first base layer without url, or an empty table. */
    method AddLocal(numbered: Sources) returns (ok: bool, sources: Sources)
      modifies this
      ensures ok <==> old(bases) != [] && Url in old(bases)[0] && numbered != map[]
      ensures ok ==> WithLocal(numbered, old(bases)[0], sources)
      ensures bases == if old(bases) != [] && Url in old(bases)[0] && !HasUrl(numbered, old(bases)[0][Url])
                       then old(bases)[0 := old(bases)[0][Title := Str("Local Geoserver")]] else old(bases)
    {
      sources := numbered;
      if bases == [] || Url !in bases[0] {
        return false, sources;
      }
      if !HasUrl(sources, bases[0][Url]) {
        bases := bases[0 := bases[0][Title := LOCAL_TITLE]];
        if sources == map[] {
          return false, sources;
        }
        var m := Greatest(sources.Keys);
        assert IsGreatest(sources, m);
        sources := sources[NextKey(m) := bases[0]];
        assert HasLocalAfter(numbered, old(bases)[0], sources, m);
      }
      ok := true;
    }

    /** None stands for the exceptions. */
    method BuildSources(configs: seq<Cfg>) returns (r: Option<Sources>)
      modifies this
      ensures r.None? <==> configs == [] || (hasGeoserver && (old(bases) == [] || Url !in old(bases)[0]))
      ensures bases == if hasGeoserver && old(bases) != [] && Url in old(bases)[0]
          && !HasUrl(NumberUp(Uniq(configs)), old(bases)[0][Url])
                       then old(bases)[0 := Titled(old(bases)[0])] else old(bases)
      ensures r.Some? ==> forall b :: b in bases ==> Present(r.value, b)
      ensures r.Some? ==> (Extends(NumberUp(Uniq(configs)), r.value)
          <==> !hasGeoserver || LocalFits(Uniq(configs), old(bases)[0]))
      ensures r.Some? ==> ((forall c :: c in configs ==> c in r.value.Values)
                           <==> !hasGeoserver || LocalFits(Uniq(configs), old(bases)[0])
                                || Restored(Uniq(configs), old(bases)[0], bases))
      ensures r.Some? ==> forall k :: k in r.value ==> r.value[k] in configs || r.value[k] in bases
    {
      var sources := NumberSources(configs);
      ghost var unique, numbered, first := Uniq(configs), NumberUp(Uniq(configs)), bases;
      NumberedFromConfigs(configs);
      if hasGeoserver {
        var ok;
        ok, sources := AddLocal(sources);
        if !ok {
          return None;
        }
        LocalExtendsExactly(unique, first[0], sources);
        LocalEntries(numbered, first[0], sources);
        assert bases[0] in bases;
      } else if sources == map[] {
        return None;
      }
      ghost var before := sources;
      assert forall k :: k in before ==> before[k] in configs || before[k] in bases;
      sources := AddBaseSources(sources, bases);
      assert Extends(numbered, sources) <==> Extends(numbered, before);
      UniqFirstSeen(configs);
      if hasGeoserver {
        AllFoundExactly(unique, first[0], before, bases, sources);
      } else {
        NumberedAreFound(unique, sources);
      }
      r := Some(sources);
    }
  }

  lemma NumberedAreFound(unique: seq<Cfg>, sources: Sources)
    requires Extends(NumberUp(unique), sources)
    ensures forall c :: c in unique ==> c in sources.Values
  {
    forall c | c in unique ensures c in sources.Values {
      var i: nat :| i < |unique| && unique[i] == c;
      NumberUpAt(unique, i);
      assert Dec(i) in sources && sources[Dec(i)] == c;
    }
  }

  lemma NumberedFromConfigs(configs: seq<Cfg>)
    ensures forall k :: k in NumberUp(Uniq(configs)) ==> NumberUp(Uniq(configs))[k] in configs
    ensures NumberUp(Uniq(configs)) == map[] <==> configs == []
    ensures Uniq(configs) == [] <==> configs == []
  {
    var unique := Uniq(configs);
    NumberUpShape(unique);
    assert forall k :: k in NumberUp(unique) ==> unique[Value(k)] in unique;
    if configs != [] {
      assert configs[0] in unique;
      NumberUpAt(unique, 0);
    }
  }

  /** source_lookup: the key of a source, in whatever order the table is searched. */
  method SourceLookup(sources: Sources, source: Cfg) returns (r: Option<string>)
    ensures r.Some? ==> r.value in sources && sources[r.value] == source
    ensures r.None? ==> source !in sources.Values
  {
    if k :| k in sources && sources[k] == source {
      return Some(k);
    }
    r := None;
  }

  /** A layer printed for the viewer, with the key of its source. */
  method EmittedLayer(l: Layer, sources: Sources) returns (cfg: Cfg, key: Option<string>)
    ensures cfg == PrintLayer(l) + if key.Some? then map[Source := Str(key.value)] else map[]
    ensures key.Some? ==> key.value in sources && sources[key.value] == PrintSource(l)
    ensures key.Some? <==> PrintSource(l) in sources.Values
  {
    cfg := LayerConfig(l);
    key := SourceLookup(sources, PrintSource(l));
    if key.Some? {
      cfg := cfg[Source := Str(key.value)];
    }
  }

  /** Every layer of the map finds its own source in a table that extends the numbered sources. */
  lemma EveryLayerFindsItsSource(layers: seq<Layer>, sources: Sources, l: Layer)
    requires l in layers
    requires Extends(NumberUp(Uniq(seq(|layers|, i requires 0 <= i < |layers| => PrintSource(layers[i])))), sources)
    ensures PrintSource(l) in sources.Values
  {
    var configs := seq(|layers|, i requires 0 <= i < |layers| => PrintSource(layers[i]));
    var i :| 0 <= i < |layers| && layers[i] == l;
    assert configs[i] in configs;
    NumberedAreFound(Uniq(configs), sources);
  }
}
