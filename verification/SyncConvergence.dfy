/** Runs of gs_slurp one after the other (geonode/geoserver/helpers.py), when nothing fails: they come to rest. */
module SyncConvergence {
  import opened Lists
  import opened CatalogueSync
  import opened SyncSafety
  import Styles

  lemma {:induction false} RowsKeepUnique(layers: seq<Layer>, looks: Styles.State)
    requires UniqueNames(layers)
    ensures UniqueNames(Rows(layers, looks))
  {
    if layers != [] {
      RowsKeepUnique(layers[1..], looks);
      var rest := Rows(layers[1..], looks);
      assert forall i :: 0 <= i < |rest| ==> rest[i] in rest;
    }
  }

  lemma {:induction false} SweepKeepsUnique(
      w: World, marked: seq<Layer>, fails: nat -> bool, kill: (Styles.State, nat) -> Styles.State, n: nat)
    requires UniqueNames(w.table.layers) && n <= |marked|
    ensures UniqueNames(SweepFirst(w, marked, fails, kill, n).table.layers)
  {
    if n > 0 {
      SweepKeepsUnique(w, marked, fails, kill, n - 1);
      var now := SweepFirst(w, marked, fails, kill, n - 1).table;
      RowsKeepUnique(now.layers, kill(now.looks, marked[n - 1].id));
    }
  }

  /** Every in-scope layer has a live resource with its name, workspace and store. */
  ghost predicate InAgreement(t: Table, server: Server, args: Args) {
    Fetch(server, args).Some? ==> forall l :: l in t.layers && InScope(server, args, l) ==>
        Matched(Live(Fetch(server, args).value, args), l)
  }

  /** After one run the in-scope layers agree with what the server reported, and the table is in order. */
  lemma FirstRunAgrees(t: Table, server: Server, args: Args, env: Env)
    requires ValidTable(t) && UniqueNames(t.layers) && args.removeDeleted && Smooth(env) && Styles.IsDeletion(env.kill)
    ensures var one := Slurp(t, server, args, env).table;
            InAgreement(one, server, args) && UniqueNames(one.layers) && ValidTable(one)
  {
    if Fetch(server, args).Some? {
      var rs, marked := Selected(Fetch(server, args).value, args, t.layers), Marked(t, server, args, env);
      var w := World(Registering(t, server, args, env).table, server);
      SmoothIngest(t, rs, env, args.ignoreErrors);
      IngestValid(t, rs, env, args.ignoreErrors);
      SweepKeepsUnique(w, marked, env.fails, env.kill, |marked|);
      SweepValid(w, marked, env.fails, env.kill);
      forall l | l in Slurp(t, server, args, env).table.layers && InScope(server, args, l)
        ensures Matched(Live(Fetch(server, args).value, args), l)
      {
        SlurpRows(t, server, args, env, l);
        DeletedIsMarked(t, server, args, env, l);
      }
    }
  }

  /** From agreement a run deletes nothing, here or on the server: it only registers, and agreement is kept. */
  lemma AgreedRunDeletesNothing(t: Table, server: Server, args: Args, env: Env)
    requires UniqueNames(t.layers) && Smooth(env) && InAgreement(t, server, args)
    ensures var two := Slurp(t, server, args, env);
            && two.server == server && t.layers <= two.table.layers && UniqueNames(two.table.layers)
                && InAgreement(two.table, server, args)
            && (Fetch(server, args).Some? ==>
                  two.table == Registering(t, server, args, env).table
                  && forall r :: r in Selected(Fetch(server, args).value, args, t.layers) ==>
                      HasName(two.table.layers, r.name))
  {
    if Fetch(server, args).Some? {
      var fetched := Fetch(server, args).value;
      var rs, mid := Selected(fetched, args, t.layers), Registering(t, server, args, env).table;
      SmoothIngest(t, rs, env, args.ignoreErrors);
      IngestAppends(t, rs, env, args.ignoreErrors);
      forall l | l in mid.layers && InScope(server, args, l) ensures Matched(Live(fetched, args), l) {
        if l !in t.layers {
          var r :| r in rs && l == NewLayer(l.id, r);
          assert r in Live(fetched, args);
        }
      }
      FilterNone(mid.layers, (l: Layer) => InScope(server, args, l) && !Matched(Live(fetched, args), l));
      assert Marked(t, server, args, env) == [];
    }
  }

  /** A run keeps all rows of a table if and only if the table agrees with the server. */
  lemma KeepsAllExactly(t: Table, server: Server, args: Args, env: Env)
    requires ValidTable(t) && UniqueNames(t.layers) && args.removeDeleted && Smooth(env) && Styles.IsDeletion(env.kill)
    ensures t.layers <= Slurp(t, server, args, env).table.layers <==> InAgreement(t, server, args)
  {
    if InAgreement(t, server, args) {
      AgreedRunDeletesNothing(t, server, args, env);
    } else {
      var l :| l in t.layers && InScope(server, args, l) && !Matched(Live(Fetch(server, args).value, args), l);
      var rs := Selected(Fetch(server, args).value, args, t.layers);
      SmoothIngest(t, rs, env, args.ignoreErrors);
      IngestAppends(t, rs, env, args.ignoreErrors);
      DeletedIsMarked(t, server, args, env, l);
      SlurpRows(t, server, args, env, l);
    }
  }

  /** The type name of a row speaks of a resource of the row's own name. */
  predicate NamedByType(l: Layer) {
    match TargetOf(l.typename)
    case Qualified(_, name) => name == l.name
    case Bare(name) => name == l.name
    case Malformed => true
  }

  /** A type name made of two names is read back, unless one of them has a colon of its own. */
  lemma TargetOfTypeName(r: Resource)
    ensures TargetOf(TypeName(r)) == if COLON in r.workspace
        || COLON in r.name then Malformed else Qualified(r.workspace, r.name)
  {
    var whole := TypeName(r);
    var w := UpToColon(whole);
    assert whole == r.workspace + ":" + r.name && whole[|r.workspace|] == COLON;
    assert forall k :: 0 <= k < |r.workspace| ==> whole[k] == r.workspace[k];
    assert forall k :: 0 <= k < |w| ==> whole[k] == w[k] && w[k] in w;
    if COLON in r.workspace {
      var rest := whole[|w| + 1..];
      assert |w| < |r.workspace| && rest[|r.workspace| - |w| - 1] == COLON;
    } else {
      assert |w| == |r.workspace|;
      assert whole[|w| + 1..] == r.name;
    }
  }

  lemma RowsNamedByType(t: Table, rs: seq<Resource>, env: Env, ignoreErrors: bool)
    requires forall l :: l in t.layers ==> NamedByType(l)
    ensures forall l :: l in Ingest(t, rs, env, ignoreErrors).table.layers ==> NamedByType(l)
  {
    IngestAppends(t, rs, env, ignoreErrors);
    forall l | l in Ingest(t, rs, env, ignoreErrors).table.layers ensures NamedByType(l) {
      if l !in t.layers {
        var r :| r in rs && l == NewLayer(l.id, r);
        TargetOfTypeName(r);
      }
    }
  }

  // ---- Agreement with the server as a run leaves it ----

  /** The store that was asked for is lost. */
  predicate StoreGone(server: Server, args: Args, loss: Loss) {
    && args.store.Some? && WorkspaceKnown(server, args)
    && (args.workspace.GetOr(server.defaultWorkspace), args.store.value) in loss.stores
  }

  /** One of the resources that match the layer is not lost. */
  predicate StillMatched(live: seq<Resource>, loss: Loss, l: Layer) {
    exists r :: r in live && r.name == l.name && r.workspace == l.workspace && r.store == l.store && Remains(loss, r)
  }

  predicate Remains(loss: Loss, r: Resource) {
    r !in loss.resources && (r.workspace, r.store) !in loss.stores
  }

  lemma FetchBereft(before: Server, loss: Loss, after: Server, args: Args)
    requires Bereft(before, loss, after) && Fetch(before, args).Some?
    ensures Fetch(after, args).None? <==> StoreGone(before, args, loss)
    ensures Fetch(after, args).Some? ==>
              forall r :: r in Fetch(after, args).value <==> r in Fetch(before, args).value && Remains(loss, r)
  {
  }

  /** Nothing left in scope has lost its resource, unless the store that was asked for is lost itself. */
  ghost predicate AsLeft(t: Table, server: Server, args: Args, env: Env) {
    var loss := RunLoss(t, server, args, env);
    Fetch(server, args).Some? && !StoreGone(server, args, loss) ==>
      forall l :: l in Slurp(t, server, args, env).table.layers && InScope(server, args, l) ==>
        StillMatched(Live(Fetch(server, args).value, args), loss, l)
  }

  /**
   After one run the layers agree with the server as the run leaves it, if and only if each of them keeps a
   matching resource.
   */
  lemma AgreesExactly(t: Table, server: Server, args: Args, env: Env)
    ensures InAgreement(Slurp(t, server, args, env).table, Slurp(t, server, args, env).server, args)
        <==> AsLeft(t, server, args, env)
  {
    var one, loss := Slurp(t, server, args, env), RunLoss(t, server, args, env);
    ServerLossExactly(t, server, args, env);
    if Fetch(server, args).Some? {
      FetchBereft(server, loss, one.server, args);
      if Fetch(one.server, args).Some? {
        var before, after := Live(Fetch(server, args).value, args), Live(Fetch(one.server, args).value, args);
        assert forall r :: r in after <==> r in before && Remains(loss, r);
        assert forall l :: Matched(after, l) <==> StillMatched(before, loss, l);
        assert forall l :: InScope(one.server, args, l) <==> InScope(server, args, l);
      }
    }
  }

  /** In particular they agree when the run leaves the server alone. */
  lemma QuietRunAgrees(t: Table, server: Server, args: Args, env: Env)
    requires ValidTable(t) && UniqueNames(t.layers) && args.removeDeleted && Smooth(env) && Styles.IsDeletion(env.kill)
    requires Slurp(t, server, args, env).server == server
    ensures AsLeft(t, server, args, env)
  {
    FirstRunAgrees(t, server, args, env);
    AgreesExactly(t, server, args, env);
  }

  /** What is taken bears the name of a row that goes, if rows are named by their type. */
  lemma {:induction false} PurgeLossNamed(server: Server, rows: seq<Layer>, looks: Styles.State)
    requires forall l :: l in rows ==> NamedByType(l)
    ensures forall r :: r in PurgeLoss(server, rows, looks).resources ==> HasName(rows, r.name)
    decreases |rows|
  {
    if rows != [] {
      var l, rest := rows[0], rows[1..];
      assert forall m :: m in rows <==> m == l || m in rest;
      ReachedIsNamed(server, l);
      PurgeLossNamed(PurgeOne(server, looks, l), rest, looks);
    }
  }

  lemma ReachedIsNamed(server: Server, l: Layer)
    requires NamedByType(l)
    ensures Reached(server, l).Some? ==>
        Reached(server, l).value in server.resources && Reached(server, l).value.name == l.name
  {
    var found := Candidates(server, TargetOf(l.typename));
    assert found != [] ==> found[0] in found;
  }

  /** Rows that were there before and are not any more. */
  ghost predicate WentWithName(before: seq<Layer>, after: seq<Layer>, name: string) {
    exists l :: l in before && l !in after && l.name == name
  }

  lemma {:induction false} SweepLossNamed(
      w: World, marked: seq<Layer>, fails: nat -> bool, kill: (Styles.State, nat) -> Styles.State, n: nat)
    requires n <= |marked| && forall l :: l in w.table.layers ==> NamedByType(l)
    ensures forall l :: l in SweepFirst(w, marked, fails, kill, n).table.layers ==> l in w.table.layers
    ensures forall r :: r in SweepLoss(w, marked, fails, kill, n).resources ==>
              WentWithName(w.table.layers, SweepFirst(w, marked, fails, kill, n).table.layers, r.name)
  {
    if n > 0 {
      SweepLossNamed(w, marked, fails, kill, n - 1);
      var now := SweepFirst(w, marked, fails, kill, n - 1);
      if !fails(n - 1) && marked[n - 1].id in now.table.looks.layers {
        var lost := LostRows(now.table.layers, kill(now.table.looks, marked[n - 1].id));
        PurgeLossNamed(now.server, lost, now.table.looks);
      }
    }
  }

  lemma NamesApart(layers: seq<Layer>, l: Layer)
    requires UniqueNames(layers) && l in layers
    ensures forall m :: m in layers && m != l ==> m.name != l.name
  {
    forall m | m in layers && m != l ensures m.name != l.name {
      var i, j :| 0 <= i < |layers| && 0 <= j < |layers| && layers[i] == l && layers[j] == m;
      assert i < j || j < i;
    }
  }

  /** No row that is left bears the name of a resource that was taken. */
  lemma LeftIsNotTaken(t: Table, server: Server, args: Args, env: Env, l: Layer)
    requires UniqueNames(t.layers) && Smooth(env) && Fetch(server, args).Some? && forall m :: m in t.layers ==>
        NamedByType(m)
    requires l in Slurp(t, server, args, env).table.layers
    ensures forall r :: r in RunLoss(t, server, args, env).resources ==> r.name != l.name
  {
    var rs, marked := Selected(Fetch(server, args).value, args, t.layers), Marked(t, server, args, env);
    var mid := Registering(t, server, args, env).table;
    SmoothIngest(t, rs, env, args.ignoreErrors);
    RowsNamedByType(t, rs, env, args.ignoreErrors);
    SweepLossNamed(World(mid, server), marked, env.fails, env.kill, |marked|);
    NamesApart(mid.layers, l);
  }

  /** No store of a layer that is left in scope is lost. */
  ghost predicate StoresLeft(t: Table, server: Server, args: Args, env: Env) {
    forall l :: l in Slurp(t, server, args, env).table.layers && InScope(server, args, l) ==>
      (l.workspace, l.store) !in RunLoss(t, server, args, env).stores
  }

  /**
   Where rows are named by their type, the layers agree after one run with the server as it is left, if and only if a
   store was asked for or no layer left in scope has lost its whole store.
   */
  lemma AgreesNamedExactly(t: Table, server: Server, args: Args, env: Env)
    requires ValidTable(t) && UniqueNames(t.layers) && args.removeDeleted && Smooth(env) && Styles.IsDeletion(env.kill)
    requires Fetch(server, args).Some? && forall l :: l in t.layers ==> NamedByType(l)
    ensures InAgreement(Slurp(t, server, args, env).table, Slurp(t, server, args, env).server, args)
       <==> args.store.Some? || StoresLeft(t, server, args, env)
  {
    var one, loss, live := Slurp(t, server, args, env), RunLoss(t, server, args, env),
        Live(Fetch(server, args).value, args);
    FirstRunAgrees(t, server, args, env);
    AgreesExactly(t, server, args, env);
    forall l | l in one.table.layers && InScope(server, args, l)
      ensures StillMatched(live, loss, l) <==> (l.workspace, l.store) !in loss.stores
    {
      LeftIsNotTaken(t, server, args, env, l);
      var r :| r in live && r.name == l.name && r.workspace == l.workspace && r.store == l.store;
      assert (l.workspace, l.store) !in loss.stores ==> Remains(loss, r);
    }
    if args.store.Some? && !StoreGone(server, args, loss) {
      forall l | l in one.table.layers && InScope(server, args, l) ensures StillMatched(live, loss, l) {
        var r :| r in live && r.name == l.name && r.workspace == l.workspace && r.store == l.store;
        assert r in Fetch(server, args).value;
      }
    }
  }

  /**
   The same told before the first deletion, for a run that strands no layer: over the rows that are not deleted
   themselves.
   */
  lemma AgreesUnstrandedExactly(t: Table, server: Server, args: Args, env: Env)
    requires ValidTable(t) && UniqueNames(t.layers) && args.removeDeleted && Smooth(env) && Styles.IsDeletion(env.kill)
    requires Fetch(server, args).Some? && forall l :: l in t.layers ==> NamedByType(l)
    requires Unstranded(t, server, args, env)
    ensures InAgreement(Slurp(t, server, args, env).table, Slurp(t, server, args, env).server, args)
       <==> args.store.Some?
            || forall l :: l in Registering(t, server, args, env).table.layers && InScope(server, args, l)
                           && !DeletedItself(t, server, args, env, l) ==>
                 (l.workspace, l.store) !in RunLoss(t, server, args, env).stores
  {
    AgreesNamedExactly(t, server, args, env);
    forall l ensures l in Slurp(t, server, args, env).table.layers
                <==> l in Registering(t, server, args, env).table.layers && !DeletedItself(t, server, args, env, l)
    {
      SurvivesExactly(t, server, args, env, l);
    }
  }

  // ---- Stores that are not shared ----

  predicate ShareCoverage(server: Server, q: Resource, r: Resource) {
    var place := (r.workspace, r.store);
    At(q, place) && place in server.stores && server.stores[place].Coverage?
  }

  /** Coverage stores do not hold resources of different names. */
  predicate NoSharedCoverage(server: Server) {
    forall q, r :: q in server.resources && r in server.resources && ShareCoverage(server, q, r) ==> q.name == r.name
  }

  /** A store is only lost over the head of a resource of another name if it is a coverage store they share. */
  ghost predicate OnlyShared(server: Server, loss: Loss, names: set<string>) {
    forall q :: q in server.resources && q.name !in names && (q.workspace, q.store) in loss.stores ==>
      exists r :: r in server.resources && r.name in names && ShareCoverage(server, q, r)
  }

  function NamesOf(rows: seq<Layer>): set<string> {
    set l | l in rows :: l.name
  }

  lemma {:induction false} PurgeLossShared(server: Server, rows: seq<Layer>, looks: Styles.State, names: set<string>)
    requires NamesOf(rows) <= names && forall l :: l in rows ==> NamedByType(l)
    ensures OnlyShared(server, PurgeLoss(server, rows, looks), names)
    decreases |rows|
  {
    if rows != [] {
      var l, rest := rows[0], rows[1..];
      assert l in rows && forall m :: m in rest ==> m in rows;
      var next, lost := PurgeOne(server, looks, l), LossOf(server, looks, l);
      PurgeLossShared(next, rest, looks, names);
      LossOfShared(server, looks, l, names);
      OnlySharedTwice(server, lost, next, PurgeLoss(next, rest, looks), names);
    }
  }

  lemma LossOfShared(server: Server, looks: Styles.State, l: Layer, names: set<string>)
    requires NamedByType(l) && l.name in names
    ensures Bereft(server, LossOf(server, looks, l), PurgeOne(server, looks, l))
    ensures forall r :: r in LossOf(server, looks, l).resources ==> r.name in names
    ensures OnlyShared(server, LossOf(server, looks, l), names)
  {
    ReachedIsNamed(server, l);
    if Reaches(server, looks, l) {
      PurgedExactly(server, Reached(server, l).value);
    }
  }

  lemma OnlySharedTwice(first: Server, a: Loss, second: Server, b: Loss, names: set<string>)
    requires Bereft(first, a, second) && forall r :: r in a.resources ==> r.name in names
    requires OnlyShared(first, a, names) && OnlyShared(second, b, names)
    ensures OnlyShared(first, Both(a, b), names)
  {
    forall q | q in first.resources && q.name !in names && (q.workspace, q.store) in a.stores + b.stores
      ensures exists r :: r in first.resources && r.name in names && ShareCoverage(first, q, r)
    {
      if (q.workspace, q.store) !in a.stores {
        assert q in second.resources;
        var r :| r in second.resources && r.name in names && ShareCoverage(second, q, r);
        assert r in first.resources && ShareCoverage(first, q, r);
      }
    }
  }

  lemma {:induction false} SweepLossShared(
      w: World, marked: seq<Layer>, fails: nat -> bool, kill: (Styles.State, nat) -> Styles.State, n: nat,
          names: set<string>)
    requires n <= |marked| && forall l :: l in w.table.layers ==> NamedByType(l)
    requires forall l :: l in w.table.layers && l !in SweepFirst(w, marked, fails, kill, n).table.layers ==>
        l.name in names
    ensures OnlyShared(w.server, SweepLoss(w, marked, fails, kill, n), names)
    ensures forall r :: r in SweepLoss(w, marked, fails, kill, n).resources ==> r.name in names
  {
    SweepLossNamed(w, marked, fails, kill, n);
    if n > 0 {
      var now := SweepFirst(w, marked, fails, kill, n - 1);
      SweepLossNamed(w, marked, fails, kill, n - 1);
      SweepLossShared(w, marked, fails, kill, n - 1, names);
      SweepLossExactly(w, marked, fails, kill, n - 1);
      if !fails(n - 1) && marked[n - 1].id in now.table.looks.layers {
        var lost := LostRows(now.table.layers, kill(now.table.looks, marked[n - 1].id));
        PurgeLossShared(now.server, lost, now.table.looks, names);
        OnlySharedTwice(w.server, SweepLoss(w, marked, fails, kill, n - 1), now.server,
            PurgeLoss(now.server, lost, now.table.looks), names);
      }
    }
  }

  /** In particular they agree when no coverage store is shared. */
  lemma AgreesAsLeft(t: Table, server: Server, args: Args, env: Env)
    requires ValidTable(t) && UniqueNames(t.layers) && args.removeDeleted && Smooth(env) && Styles.IsDeletion(env.kill)
    requires NoSharedCoverage(server) && forall l :: l in t.layers ==> NamedByType(l)
    ensures InAgreement(Slurp(t, server, args, env).table, Slurp(t, server, args, env).server, args)
  {
    if Fetch(server, args).Some? {
      AgreesNamedExactly(t, server, args, env);
      FirstRunAgrees(t, server, args, env);
      forall l | l in Slurp(t, server, args, env).table.layers && InScope(server, args, l)
        ensures (l.workspace, l.store) !in RunLoss(t, server, args, env).stores
      {
        var q :| q in Live(Fetch(server, args).value, args) && q.name == l.name && q.workspace == l.workspace
            && q.store == l.store;
        assert q in server.resources;
        UnsharedStoreStays(t, server, args, env, l, q);
      }
    }
  }

  lemma UnsharedStoreStays(t: Table, server: Server, args: Args, env: Env, l: Layer, q: Resource)
    requires UniqueNames(t.layers) && Smooth(env) && Fetch(server, args).Some? && forall m :: m in t.layers ==>
        NamedByType(m)
    requires NoSharedCoverage(server) && l in Slurp(t, server, args, env).table.layers && q in server.resources
    requires q.name == l.name
    ensures (q.workspace, q.store) !in RunLoss(t, server, args, env).stores
  {
    var rs, marked := Selected(Fetch(server, args).value, args, t.layers), Marked(t, server, args, env);
    var mid, left := Registering(t, server, args, env).table, Slurp(t, server, args, env).table.layers;
    SmoothIngest(t, rs, env, args.ignoreErrors);
    RowsNamedByType(t, rs, env, args.ignoreErrors);
    var names := set m | m in mid.layers && m !in left :: m.name;
    SweepLossShared(World(mid, server), marked, env.fails, env.kill, |marked|, names);
    SweepLossNamed(World(mid, server), marked, env.fails, env.kill, |marked|);
    NamesApart(mid.layers, l);
  }

  /**
   Three runs, each against the server as the one before left it. The second keeps what the first has left, if and only
   if each layer left in scope kept a matching resource. Then it deletes nothing and completes the registration, and the
   third changes nothing.
   */
  lemma Converges(t: Table, server: Server, args: Args, first: Env, second: Env, third: Env)
    requires ValidTable(t) && UniqueNames(t.layers) && args.removeDeleted && Smooth(first) && Smooth(second)
    requires Smooth(third)
    requires Styles.IsDeletion(first.kill) && Styles.IsDeletion(second.kill)
    ensures var one := Slurp(t, server, args, first);
            var two := Slurp(one.table, one.server, args, second);
            var three := Slurp(two.table, two.server, args, third);
            && (one.table.layers <= two.table.layers <==> AsLeft(t, server, args, first))
            && (AsLeft(t, server, args, first) ==>
                  two.server == one.server && three.table.layers == two.table.layers && three.server == two.server
                  && (Fetch(one.server, args).Some? ==>
                        forall r :: r in Selected(Fetch(one.server, args).value, args, one.table.layers) ==>
                          HasName(two.table.layers, r.name)))
  {
    var one := Slurp(t, server, args, first);
    FirstRunAgrees(t, server, args, first);
    AgreesExactly(t, server, args, first);
    KeepsAllExactly(one.table, one.server, args, second);
    if AsLeft(t, server, args, first) {
      ComesToRest(one, args, second, third);
    }
  }

  lemma ComesToRest(one: World, args: Args, second: Env, third: Env)
    requires UniqueNames(one.table.layers) && Smooth(second) && Smooth(third)
    requires InAgreement(one.table, one.server, args)
    ensures var two := Slurp(one.table, one.server, args, second);
            var three := Slurp(two.table, two.server, args, third);
            && two.server == one.server && three.table.layers == two.table.layers && three.server == two.server
            && (Fetch(one.server, args).Some? ==>
                  forall r :: r in Selected(Fetch(one.server, args).value, args, one.table.layers) ==>
                      HasName(two.table.layers, r.name))
  {
    var two := Slurp(one.table, one.server, args, second);
    AgreedRunDeletesNothing(one.table, one.server, args, second);
    AgreedRunDeletesNothing(two.table, one.server, args, third);
    if Fetch(one.server, args).Some? {
      ThirdRegistersNothing(one.table, two.table, Fetch(one.server, args).value, args, third);
    }
  }

  lemma ThirdRegistersNothing(one: Table, two: Table, fetched: seq<Resource>, args: Args, env: Env)
    requires UniqueNames(two.layers) && Smooth(env) && one.layers <= two.layers
    requires forall r :: r in Selected(fetched, args, one.layers) ==> HasName(two.layers, r.name)
    ensures Ingest(two, Selected(fetched, args, two.layers), env, args.ignoreErrors).table.layers == two.layers
  {
    forall r | r in Selected(fetched, args, two.layers) ensures HasName(two.layers, r.name) {
      assert Registered(one.layers, r) ==> Registered(two.layers, r);
      assert r in Selected(fetched, args, one.layers);
    }
    SmoothIngest(two, Selected(fetched, args, two.layers), env, args.ignoreErrors);
  }

  // ---- Runs that change the server ----

  const EVERYTHING := Args(None, None, None, false, false, true, true)

  /** A server with one resource, in the default data store. */
  function Holding(r: Resource): Server {
    Server({r.workspace}, map[(r.workspace, r.store) := Postgis], r.workspace, [r], Some(r.store), true)
  }

  lemma HeldIsReached(r: Resource, l: Layer)
    requires COLON !in r.workspace && COLON !in r.name && l.typename == TypeName(r)
    ensures Reached(Holding(r), l) == Some(r) && Purged(Holding(r), r).resources == []
  {
    TargetOfTypeName(r);
    assert Candidates(Holding(r), Qualified(r.workspace, r.name)) == [r];
  }

  /**
   A row of a live resource's name in another store is deleted, and the live resource goes with it: nothing is left
   to register.
   */
  lemma LiveResourceGoes(r: Resource, other: string, env: Env)
    requires r.enabled && COLON !in r.workspace && COLON !in r.name && other != r.store
    requires Smooth(env) && Styles.IsDeletion(env.kill)
    ensures var row := NewLayer(0, r).(store := other);
            var one := Slurp(Lone(row), Holding(r), EVERYTHING, env);
            one.table.layers == [] && one.server.resources == []
  {
    var row := NewLayer(0, r).(store := other);
    HeldRowMarked(r, row, env);
    OneRowGoes(World(Registering(Lone(row), Holding(r), EVERYTHING, env).table, Holding(r)), row, r, env);
  }

  lemma HeldRowMarked(r: Resource, row: Layer, env: Env)
    requires r.enabled && Smooth(env) && row.id == 0 && row.name == r.name && row.store != r.store
    ensures var mid := Registering(Lone(row), Holding(r), EVERYTHING, env).table;
            mid.layers == [row] && IsLocal(mid.looks, row) && Marked(Lone(row), Holding(r), EVERYTHING, env) == [row]
  {
    var t := Lone(row);
    assert row in t.layers && t.layers == [row] && HasName([row], r.name);
    assert Live([r], EVERYTHING) == [r];
    SmoothIngest(t, [r], env, true);
  }

  lemma OnePurged(server: Server, row: Layer, r: Resource, looks: Styles.State)
    requires IsLocal(looks, row) && Reached(server, row) == Some(r)
    ensures PurgeRows(server, [row], looks) == Purged(server, r)
  {
    assert [row][1..] == [] && PurgeRows(Purged(server, r), [], looks) == Purged(server, r);
  }

  lemma OneRowGoes(w: World, row: Layer, r: Resource, env: Env)
    requires w.table.layers == [row] && w.server == Holding(r) && IsLocal(w.table.looks, row) && !env.fails(0)
    requires Styles.IsDeletion(env.kill)
    requires COLON !in r.workspace && COLON !in r.name && row.typename == TypeName(r)
    ensures var one := SweepFirst(w, [row], env.fails, env.kill, 1);
            one.table.layers == [] && one.server.resources == []
  {
    Styles.DeletionShrinks(w.table.looks, row.id, env.kill);
    var looks := env.kill(w.table.looks, row.id);
    assert Rows([row], looks) == [] && LostRows([row], looks) == [row];
    HeldIsReached(r, row);
    OnePurged(w.server, row, r, w.table.looks);
  }

  /** Two resources in one coverage store. */
  function Sharing(q: Resource, r: Resource): Server {
    Holding(q).(resources := [q, r], stores := map[(q.workspace, q.store) := Coverage])
  }

  function Pair(a: Layer, b: Layer): Table {
    Table([a, b], 2, Styles.State(map[0 := Styles.LayerRow(None, {}, true), 1 := Styles.LayerRow(None, {}, true)], {}))
  }

  lemma PairMarked(q: Resource, r: Resource, gone: Layer, kept: Layer)
    requires q.enabled && r.enabled && q.name != r.name
    requires gone.name == q.name && gone.store != q.store && kept == NewLayer(1, r)
    ensures Registering(Pair(gone, kept), Sharing(q, r), EVERYTHING, PLAIN).table == Pair(gone, kept)
    ensures Marked(Pair(gone, kept), Sharing(q, r), EVERYTHING, PLAIN) == [gone]
  {
    var t, server := Pair(gone, kept), Sharing(q, r);
    var live, rs := Live([q, r], EVERYTHING), Selected([q, r], EVERYTHING, t.layers);
    assert t.layers[0] == gone && t.layers[1] == kept;
    forall x | x in rs ensures HasName(t.layers, x.name) {
      assert x == q || x == r;
    }
    SmoothIngest(t, rs, PLAIN, true);
    PlainKeepsLooks(t, rs, true);
    assert Matched(live, kept) && !Matched(live, gone) by {
      assert r in [q, r] && r in live && forall x :: x in live ==> x == q || x == r;
    }
    FilterTwo(gone, kept, (l: Layer) => InScope(server, EVERYTHING, l) && !Matched(live, l));
  }

  /** The deletion of a row that reaches one of the two takes the other from the server, and the layer of that stays. */
  lemma SharedCoverageUnsettles(q: Resource, r: Resource, other: string)
    requires q.enabled && r.enabled && At(q, (r.workspace, r.store)) && q.name != r.name && other != q.store
    requires COLON !in q.workspace && COLON !in q.name
    ensures var t := Pair(NewLayer(0, q).(store := other), NewLayer(1, r));
            var one := Slurp(t, Sharing(q, r), EVERYTHING, PLAIN);
            ValidTable(t) && UniqueNames(t.layers) && one.table.layers == [t.layers[1]]
                && !InAgreement(one.table, one.server, EVERYTHING)
  {
    var gone, kept := NewLayer(0, q).(store := other), NewLayer(1, r);
    PairValid(gone, kept);
    PairMarked(q, r, gone, kept);
    SharedStoreGoes(World(Pair(gone, kept), Sharing(q, r)), gone, kept, q, r);
    BareServerDisagrees(Slurp(Pair(gone, kept), Sharing(q, r), EVERYTHING, PLAIN), kept);
  }

  lemma PairValid(a: Layer, b: Layer)
    requires a.id == 0 && b.id == 1 && a.name != b.name
    ensures ValidTable(Pair(a, b)) && UniqueNames(Pair(a, b).layers)
  {
    assert a in Pair(a, b).layers && b in Pair(a, b).layers;
  }

  lemma BareServerDisagrees(w: World, l: Layer)
    requires w.table.layers == [l] && w.server.resources == []
    ensures !InAgreement(w.table, w.server, EVERYTHING)
  {
    assert l in [l] && Fetch(w.server, EVERYTHING) == Some([]);
  }

  /** Where nothing is new and no styles are saved, registering leaves the table as it is. */
  lemma {:induction false} PlainKeepsLooks(t: Table, rs: seq<Resource>, ignoreErrors: bool)
    requires UniqueNames(t.layers) && forall r :: r in rs ==> HasName(t.layers, r.name)
    ensures Ingest(t, rs, PLAIN, ignoreErrors).table == t
  {
    if rs != [] {
      var n := |rs| - 1;
      assert rs[n] in rs && forall r :: r in rs[..n] ==> r in rs;
      PlainKeepsLooks(t, rs[..n], ignoreErrors);
      SmoothIngest(t, rs[..n], PLAIN, ignoreErrors);
      NamedCount(t.layers, rs[n].name);
    }
  }

  lemma SharedStoreGoes(w: World, gone: Layer, kept: Layer, q: Resource, r: Resource)
    requires w.table.layers == [gone, kept] && w.table.looks.layers.Keys == {0, 1} && gone.id == 0 && kept.id == 1
    requires w.table.looks.layers[0] == w.table.looks.layers[1] == Styles.LayerRow(None, {}, true)
    requires w.server == Holding(q).(resources := [q, r], stores := map[(q.workspace, q.store) := Coverage])
    requires At(q, (r.workspace, r.store)) && q.name != r.name && COLON !in q.workspace && COLON !in q.name
    requires gone.typename == TypeName(q)
    ensures var one := SweepFirst(w, [gone], PLAIN.fails, PLAIN.kill, 1);
            one.table.layers == [kept] && one.server.resources == []
  {
    var looks := PLAIN.kill(w.table.looks, 0);
    assert !Styles.Hazardous(w.table.looks, 0);
    assert looks.layers.Keys == {1};
    FilterTwo(gone, kept, (m: Layer) => m.id in looks.layers);
    FilterTwo(gone, kept, (m: Layer) => m.id !in looks.layers);
    assert Rows([gone, kept], looks) == [kept] && LostRows([gone, kept], looks) == [gone];
    TargetOfTypeName(q);
    var found := Candidates(w.server, Qualified(q.workspace, q.name));
    assert q in w.server.resources && forall x :: x in found <==> x == q;
    OnePurged(w.server, gone, q, w.table.looks);
    assert Purged(w.server, q).resources == [];
  }
}
