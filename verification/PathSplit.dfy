/**
 Splitting a path into its components (setup.py, fullsplit), over the POSIX rules of os.path.split and os.path.join.
 */
module PathSplit {

  /** The position just after the last slash, 0 without one (rfind('/') + 1). */
  function AfterLastSlash(p: string): (i: nat)
    ensures i <= |p| && '/' !in p[i..] && (i > 0 ==> p[i - 1] == '/')
  {
    if p == "" then 0
    else if p[|p| - 1] == '/' then |p|
    else
      assert forall i: nat :: i < |p| ==> p[i..] == p[..|p| - 1][i..] + [p[|p| - 1]];
      AfterLastSlash(p[..|p| - 1])
  }

  predicate OnlySlashes(p: string) {
    forall c :: c in p ==> c == '/'
  }

  function StripSlashes(p: string): (r: string)
    ensures r <= p && (r != "" ==> r[|r| - 1] != '/')
    ensures OnlySlashes(p[|r|..])
  {
    if p != "" && p[|p| - 1] == '/' then
      var r := StripSlashes(p[..|p| - 1]);
      assert p[|r|..] == p[..|p| - 1][|r|..] + ['/'];
      r
    else p
  }

  /** os.path.split: the part up to the last slash, trailing slashes removed unless there is nothing else; the rest. */
  function Split(p: string): (r: (string, string))
    ensures |r.0| <= |p| && '/' !in r.1
    ensures r.0 != p ==> |r.0| < |p|
  {
    var i := AfterLastSlash(p);
    var head := p[..i];
    if head != "" && !OnlySlashes(head) then
      assert StripSlashes(head)[|StripSlashes(head)| - 1..] != head[i - 1..];
      (StripSlashes(head), p[i..])
    else (head, p[i..])
  }

  function FullSplit(path: string, result: seq<string>): seq<string>
    decreases |path|
  {
    var (head, tail) := Split(path);
    if head == "" then [tail] + result
    else if head == path then result
    else FullSplit(head, [tail] + result)
  }

  predicate EndsWithSlash(p: string) {
    p != "" && p[|p| - 1] == '/'
  }

  /** One step of os.path.join. */
  function Extend(path: string, b: string): string {
    if b != "" && b[0] == '/' then b
    else if path == "" || EndsWithSlash(path) then path + b
    else path + "/" + b
  }

  function Join(parts: seq<string>): string
    requires parts != []
  {
    if |parts| == 1 then parts[0] else Extend(Join(parts[..|parts| - 1]), parts[|parts| - 1])
  }

  lemma {:induction false} Accumulates(path: string, result: seq<string>)
    ensures FullSplit(path, result) == FullSplit(path, []) + result
    decreases |path|
  {
    var (head, tail) := Split(path);
    if head != "" && head != path {
      Accumulates(head, [tail] + result);
      Accumulates(head, [tail]);
      assert [tail] + [] == [tail];
      assert FullSplit(head, []) + [tail] + result == FullSplit(head, []) + ([tail] + result);
    }
  }

  /** fullsplit without its accumulator. */
  lemma Unfold(p: string)
    ensures FullSplit(p, []) ==
            if Split(p).0 == "" then [Split(p).1]
            else if Split(p).0 == p then []
            else FullSplit(Split(p).0, []) + [Split(p).1]
  {
    assert [Split(p).1] + [] == [Split(p).1];
    Accumulates(Split(p).0, [Split(p).1]);
  }

  predicate Component(c: string) {
    c != "" && '/' !in c
  }

  /** What joining proper components builds: the last slash sits right before the last component. */
  lemma {:induction false} JoinShape(parts: seq<string>)
    requires parts != [] && forall c :: c in parts ==> Component(c)
    ensures Join(parts) != "" && !EndsWithSlash(Join(parts)) && Join(parts)[0] != '/'
  {
    assert parts[0] in parts;
    if |parts| > 1 {
      var init, last := parts[..|parts| - 1], parts[|parts| - 1];
      assert last in parts;
      JoinShape(init);
      assert last[0] in last && last[|last| - 1] in last;
    } else {
      assert parts[0][0] in parts[0] && parts[0][|parts[0]| - 1] in parts[0];
    }
  }

  lemma SplitAtLastSlash(x: string, t: string)
    requires x != "" && !EndsWithSlash(x) && '/' !in t
    ensures Split(x + "/" + t) == (x, t)
  {
    var p := x + "/" + t;
    var i := AfterLastSlash(p);
    assert p[|x|] == '/';
    assert forall k :: i <= k < |p| ==> p[k] in p[i..];
    assert forall k :: |x| < k < |p| ==> p[k] == t[k - |x| - 1] && p[k] in t;
    assert i == |x| + 1;
    assert p[..i] == x + "/" && p[i..] == t;
    assert !OnlySlashes(x + "/") by {
      assert x[|x| - 1] in x + "/";
    }
    assert (x + "/")[..|x|] == x;
    assert StripSlashes(x + "/") == StripSlashes(x) == x;
  }

  /** Splitting gives back the components that were joined. */
  lemma {:induction false} SplitOfJoin(parts: seq<string>)
    requires parts != [] && forall c :: c in parts ==> Component(c)
    ensures FullSplit(Join(parts), []) == parts
  {
    var init, last := parts[..|parts| - 1], parts[|parts| - 1];
    assert last in parts && parts == init + [last];
    if init == [] {
    } else {
      JoinShape(init);
      SplitOfJoin(init);
      assert last[0] in last;
      assert Join(parts) == Join(init) + "/" + last;
      SplitAtLastSlash(Join(init), last);
      Unfold(Join(parts));
    }
  }

  /** Neither absolute nor with an empty component in the middle. A trailing slash is allowed. */
  predicate Relative(p: string) {
    (p != "" ==> p[0] != '/') && forall i :: 0 <= i < |p| - 1 ==> !(p[i] == '/' && p[i + 1] == '/')
  }

  /** A relative path with a slash is cut at its last slash into a relative path and a slash-free rest. */
  lemma CutRelative(p: string) returns (x: string, t: string)
    requires Relative(p) && '/' in p
    ensures p == x + "/" + t && x != "" && !EndsWithSlash(x) && Relative(x) && '/' !in t
  {
    var i := AfterLastSlash(p);
    assert i > 0 by {
      assert p[0..] == p;
    }
    assert p[i - 1] == '/';
    x, t := p[..i - 1], p[i..];
    assert x != "" && !EndsWithSlash(x) by {
      assert i - 1 > 0 && p[i - 2 + 1] == '/';
      assert p[i - 2] != '/';
    }
    assert forall k :: 0 <= k < |x| ==> x[k] == p[k];
  }

  lemma {:induction false} JoinOfSplit(p: string)
    requires Relative(p)
    ensures FullSplit(p, []) != [] && Join(FullSplit(p, [])) == p
    decreases |p|
  {
    if '/' !in p {
    } else {
      var x, t := CutRelative(p);
      SplitAtLastSlash(x, t);
      JoinOfSplit(x);
      Unfold(p);
      assert t != "" ==> t[0] in t;
      var whole := FullSplit(x, []) + [t];
      assert whole[..|whole| - 1] == FullSplit(x, []);
      assert Join(whole) == Extend(x, t);
    }
  }

  predicate AllSlashFree(parts: seq<string>) {
    forall i :: 0 <= i < |parts| ==> '/' !in parts[i]
  }

  /** The first n entries are not empty. */
  predicate FilledUpTo(parts: seq<string>, n: int)
    requires n <= |parts|
  {
    forall i :: 0 <= i < n ==> parts[i] != ""
  }

  lemma SplitOnlySlashes(p: string)
    requires OnlySlashes(p)
    ensures Split(p) == (p, "")
  {
    assert p != "" ==> p[|p| - 1] in p;
    assert AfterLastSlash(p) == |p|;
    assert p[..|p|] == p && p[|p|..] == "";
  }

  /** No component of any path holds a slash, and only the last one can be empty. */
  lemma {:induction false} SplitShape(p: string)
    ensures AllSlashFree(FullSplit(p, []))
    ensures FilledUpTo(FullSplit(p, []), |FullSplit(p, [])| - 1)
    ensures p != "" && (OnlySlashes(p) || !EndsWithSlash(p)) ==> FilledUpTo(FullSplit(p, []), |FullSplit(p, [])|)
    decreases |p|
  {
    Unfold(p);
    if OnlySlashes(p) {
      SplitOnlySlashes(p);
    } else {
      SplitShape(Split(p).0);
    }
  }

  lemma {:induction false} JoinRelative(parts: seq<string>)
    requires parts != [] && AllSlashFree(parts) && FilledUpTo(parts, |parts| - 1)
    ensures Relative(Join(parts))
  {
    var init, last := parts[..|parts| - 1], parts[|parts| - 1];
    assert forall k :: 0 <= k < |last| ==> last[k] in last;
    if init != [] {
      JoinShape(init);
      JoinRelative(init);
    }
  }

  /** Joining the components gives the path back exactly for the relative paths without an empty inner component. */
  lemma RoundTripExactly(p: string)
    ensures Relative(p) <==> FullSplit(p, []) != [] && Join(FullSplit(p, [])) == p
  {
    if Relative(p) {
      JoinOfSplit(p);
    }
    if FullSplit(p, []) != [] && Join(FullSplit(p, [])) == p {
      SplitShape(p);
      JoinRelative(FullSplit(p, []));
    }
  }

  /** The leading slash of an absolute path is lost, so joining does not restore it. */
  lemma AbsoluteLosesRoot(a: string, b: string)
    requires Component(a) && Component(b)
    ensures FullSplit("/" + a + "/" + b, []) == [a, b]
    ensures Join([a, b]) == a + "/" + b != "/" + a + "/" + b
  {
    SplitAbsolute(a, b);
    assert b[0] in b && a[|a| - 1] in a;
    assert [a, b][..1] == [a];
    assert |a + "/" + b| < |"/" + a + "/" + b|;
  }

  lemma SplitAbsolute(a: string, b: string)
    requires Component(a) && Component(b)
    ensures FullSplit("/" + a + "/" + b, []) == [a, b]
  {
    var root := "/" + a;
    assert a[|a| - 1] in a;
    SplitAtLastSlash(root, b);
    Unfold(root + "/" + b);
    FullSplitUnderRoot(a);
    assert [a] + [b] == [a, b];
  }

  lemma FullSplitUnderRoot(a: string)
    requires Component(a)
    ensures FullSplit("/" + a, []) == [a]
  {
    Unfold("/" + a);
    SplitOnlySlashes("/");
    Unfold("/");
    assert [] + [a] == [a];
  }
}
