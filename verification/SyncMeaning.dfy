/**
 What the parts of a gs_slurp run come to (geonode/geoserver/helpers.py), told by the fields of resources and rows:
 which resources are registered, with which status, which layers are marked, what a deletion reaches on the server.
 */
module SyncMeaning {
  import opened Lists
  import opened CatalogueSync
  import opened SyncSafety
  import Styles

  // ---- Which resources are looked at ----

  /** The store that was asked for, in its workspace or in the default one. */
  function AskedStore(server: Server, args: Args): (string, string)
    requires args.store.Some?
  {
    (args.workspace.GetOr(server.defaultWorkspace), args.store.value)
  }

  /** The server is asked in vain exactly for a store that is not there, unless it does not know the workspace. */
  lemma FetchFailsExactly(server: Server, args: Args)
    ensures Fetch(server, args).None?
       <==> args.store.Some? && (args.workspace.Some? ==> args.workspace.value in server.workspaces)
            && AskedStore(server, args) !in server.stores
  {
  }

  /** A resource is fetched exactly if it is in the workspace that was asked for, and in the store. */
  lemma FetchedExactly(server: Server, args: Args, r: Resource)
    requires Fetch(server, args).Some?
    ensures r in Fetch(server, args).value
       <==> && r in server.resources
            && (args.workspace.Some? ==>
                args.workspace.value in server.workspaces && r.workspace == args.workspace.value)
            && (args.store.Some? ==> (r.workspace, r.store) == AskedStore(server, args))
  {
  }

  predicate HasSlice(s: string, part: string) {
    exists i, j :: 0 <= i <= j <= |s| && s[i..j] == part
  }

  lemma {:induction false} ContainsExactly(s: string, part: string)
    ensures Contains(s, part) <==> HasSlice(s, part)
  {
    if part <= s {
      assert s[0..|part|] == part;
    } else if s != "" {
      ContainsExactly(s[1..], part);
      if i, j :| 0 <= i <= j <= |s[1..]| && s[1..][i..j] == part {
        assert s[i + 1..j + 1] == part;
      }
      assert forall j :: 0 <= j <= |s| ==> s[0..j] != part;
      if i, j :| 0 <= i <= j <= |s| && s[i..j] == part {
        assert s[1..][i - 1..j - 1] == part;
      }
    } else {
      assert forall i, j :: 0 <= i <= j <= |s| ==> s[i..j] == "";
    }
  }

  /**
   A resource is registered in a run exactly if it is fetched, enabled, advertised where that is asked, holds the filter
   text, if there is one, somewhere in its name, and, where registered ones are to be skipped, no layer has its
   type name.
   */
  lemma SelectedExactly(fetched: seq<Resource>, args: Args, layers: seq<Layer>, r: Resource)
    ensures r in Selected(fetched, args, layers)
       <==> && r in fetched && r.enabled && (args.skipUnadvertised ==> r.advertised)
            && (args.filter.Some? ==> exists i, j :: 0 <= i <= j <= |r.name| && r.name[i..j] == args.filter.value)
            && (args.skipRegistered ==> forall l :: l in layers ==> l.typename != r.workspace + ":" + r.name)
  {
    if args.filter.Some? {
      ContainsExactly(r.name, args.filter.value);
    }
  }

  // ---- What registering does with one resource ----

  /** How many rows have a name: none, one, or several. */
  lemma {:induction false} FilterOne<T(!new)>(s: seq<T>, keep: T -> bool)
    ensures |Filter(s, keep)| == 0 <==> forall i :: 0 <= i < |s| ==> !keep(s[i])
    ensures |Filter(s, keep)| <= 1 <==> forall i, j :: 0 <= i < j < |s| ==> !(keep(s[i]) && keep(s[j]))
  {
    if s != [] {
      var rest := s[1..];
      FilterOne(rest, keep);
      assert forall i :: 0 <= i < |rest| ==> rest[i] == s[i + 1];
      if keep(s[0]) && forall i, j :: 0 <= i < j < |s| ==> !(keep(s[i]) && keep(s[j])) {
        forall i | 0 <= i < |rest| ensures !keep(rest[i]) {
          assert rest[i] == s[i + 1];
        }
      }
      if |Filter(s, keep)| <= 1 {
        forall i, j | 0 <= i < j < |s| ensures !(keep(s[i]) && keep(s[j])) {
          assert s[j] == rest[j - 1] && (i > 0 ==> s[i] == rest[i - 1]);
        }
      }
    }
  }

  predicate NoRow(layers: seq<Layer>, name: string) {
    forall i :: 0 <= i < |layers| ==> layers[i].name != name
  }

  predicate TwoRows(layers: seq<Layer>, name: string) {
    exists i, j :: 0 <= i < j < |layers| && layers[i].name == name && layers[j].name == name
  }

  /** The status of a resource, told by the rows of its name at its turn, and the rows and styles afterwards. */
  lemma RegisterExactly(t: Table, r: Resource, fault: Fault, look: Option<Look>)
    ensures var (after, status) := Register(t, r, fault, look);
            && (status == Created <==> fault == Fine && NoRow(t.layers, r.name))
            && (status == Updated <==> fault == Fine && !NoRow(t.layers, r.name) && !TwoRows(t.layers, r.name))
            && (status == Failed <==> fault != Fine || TwoRows(t.layers, r.name))
            && after.layers == t.layers +
                 (if fault != Early && NoRow(t.layers, r.name)
                  then [Layer(t.nextId, r.name, r.workspace, r.store, r.workspace + ":" + r.name)] else [])
            && after.nextId == t.nextId + |after.layers| - |t.layers|
  {
    FilterOne(t.layers, (l: Layer) => l.name == r.name);
  }

  /** A new row has no default style and is local; then the styles saved with it apply. */
  lemma NewRowLooks(t: Table, r: Resource, fault: Fault, look: Option<Look>)
    requires fault != Early && NoRow(t.layers, r.name)
    ensures var after := Register(t, r, fault, look).0.looks;
            && t.nextId in after.layers && after.layers[t.nextId].local
            && after.layers[t.nextId].default
                == (if look.Some? && look.value.saved then Some(look.value.default) else None)
            && after.layers[t.nextId].styles
                == (if look.Some? then {look.value.default} + look.value.alternates else {})
            && forall id :: id in t.looks.layers && id != t.nextId ==>
                id in after.layers && after.layers[id] == t.looks.layers[id]
  {
    FilterOne(t.layers, (l: Layer) => l.name == r.name);
  }

  /** The one old row of a name gets the styles saved with it, and keeps its own where none are. */
  lemma OldRowLooks(t: Table, r: Resource, fault: Fault, look: Option<Look>, l: Layer)
    requires fault != Early && l in t.layers && l.name == r.name && !TwoRows(t.layers, r.name)
    requires l.id in t.looks.layers
    ensures var after, row := Register(t, r, fault, look).0.looks, t.looks.layers[l.id];
            && l.id in after.layers && after.layers[l.id].local == row.local
            && after.layers[l.id].default
                == (if look.Some? && look.value.saved then Some(look.value.default) else row.default)
            && after.layers[l.id].styles
                == (if look.Some? then {look.value.default} + look.value.alternates else row.styles)
            && forall id :: id in t.looks.layers && id != l.id ==>
                id in after.layers && after.layers[id] == t.looks.layers[id]
  {
    FilterOne(t.layers, (k: Layer) => k.name == r.name);
    var found := Filter(t.layers, (k: Layer) => k.name == r.name);
    assert l in found && found == [found[0]];
  }

  /** The table when the i-th resource's turn comes. */
  function AtTurn(t: Table, rs: seq<Resource>, env: Env, ignoreErrors: bool, i: nat): Table
    requires i <= |rs|
  {
    Ingest(t, rs[..i], env, ignoreErrors).table
  }

  lemma {:induction false} StatusAtTurn(t: Table, rs: seq<Resource>, env: Env, ignoreErrors: bool, i: nat)
    requires i < |Ingest(t, rs, env, ignoreErrors).statuses|
    ensures i < |rs|
    ensures Ingest(t, rs, env, ignoreErrors).statuses[i]
         == Register(AtTurn(t, rs, env, ignoreErrors, i), rs[i], env.faults(i), env.looks(i)).1
  {
    var n := |rs| - 1;
    StatusCount(t, rs[..n], env, ignoreErrors);
    if i < |Ingest(t, rs[..n], env, ignoreErrors).statuses| {
      StatusAtTurn(t, rs[..n], env, ignoreErrors, i);
      assert rs[..n][..i] == rs[..i];
    }
  }

  lemma {:induction false} StatusCount(t: Table, rs: seq<Resource>, env: Env, ignoreErrors: bool)
    ensures var p := Ingest(t, rs, env, ignoreErrors);
            |p.statuses| <= |rs| && (!p.stopped ==> |p.statuses| == |rs|)
  {
    if rs != [] {
      StatusCount(t, rs[..|rs| - 1], env, ignoreErrors);
    }
  }

  /**
   Which status is reported: created if the name is new at the resource's turn, updated if one row has it, failed
   otherwise.
   */
  lemma StatusExactly(t: Table, rs: seq<Resource>, env: Env, ignoreErrors: bool, i: nat)
    requires i < |Ingest(t, rs, env, ignoreErrors).statuses|
    ensures i < |rs|
    ensures var status, now := Ingest(t, rs, env, ignoreErrors).statuses[i], AtTurn(t, rs, env, ignoreErrors, i);
            && (status == Created <==> env.faults(i) == Fine && NoRow(now.layers, rs[i].name))
            && (status == Updated <==>
                  env.faults(i) == Fine && !NoRow(now.layers, rs[i].name) && !TwoRows(now.layers, rs[i].name))
            && (status == Failed <==> env.faults(i) != Fine || TwoRows(now.layers, rs[i].name))
  {
    StatusAtTurn(t, rs, env, ignoreErrors, i);
    RegisterExactly(AtTurn(t, rs, env, ignoreErrors, i), rs[i], env.faults(i), env.looks(i));
  }

  /** A run stops at its first failure unless errors are ignored; otherwise it has a status for every resource. */
  lemma {:induction false} StopsExactly(t: Table, rs: seq<Resource>, env: Env, ignoreErrors: bool)
    ensures var p := Ingest(t, rs, env, ignoreErrors);
            && (p.stopped <==> !ignoreErrors && Failed in p.statuses)
            && (!p.stopped ==> |p.statuses| == |rs|)
            && (p.stopped ==> forall i :: 0 <= i < |p.statuses| && p.statuses[i] == Failed ==> i == |p.statuses| - 1)
  {
    if rs != [] {
      StopsExactly(t, rs[..|rs| - 1], env, ignoreErrors);
    }
  }

  /** After a run a name has a row exactly if it had one, or a resource of that name came up without failing early. */
  lemma {:induction false} NamesExactly(t: Table, rs: seq<Resource>, env: Env, ignoreErrors: bool, name: string)
    ensures |Ingest(t, rs, env, ignoreErrors).statuses| <= |rs|
    ensures !NoRow(Ingest(t, rs, env, ignoreErrors).table.layers, name)
       <==> !NoRow(t.layers, name)
            || exists i :: 0 <= i < |Ingest(t, rs, env, ignoreErrors).statuses|
                           && rs[i].name == name && env.faults(i) != Early
  {
    StatusCount(t, rs, env, ignoreErrors);
    if rs != [] {
      var n := |rs| - 1;
      StatusCount(t, rs[..n], env, ignoreErrors);
      NamesExactly(t, rs[..n], env, ignoreErrors, name);
      var p, after := Ingest(t, rs[..n], env, ignoreErrors), Ingest(t, rs, env, ignoreErrors);
      assert forall i :: 0 <= i < n ==> rs[..n][i] == rs[i];
      if !p.stopped {
        RegisterNames(p.table, rs[n], env.faults(n), env.looks(n), name);
        assert |after.statuses| == n + 1 && |p.statuses| == n;
      }
    }
  }

  lemma RegisterNames(t: Table, r: Resource, fault: Fault, look: Option<Look>, name: string)
    ensures !NoRow(Register(t, r, fault, look).0.layers, name)
       <==> !NoRow(t.layers, name) || (r.name == name && fault != Early)
  {
    RegisterExactly(t, r, fault, look);
    var after := Register(t, r, fault, look).0.layers;
    assert forall i :: 0 <= i < |t.layers| ==> after[i] == t.layers[i];
    if fault != Early && NoRow(t.layers, r.name) {
      assert after[|t.layers|].name == r.name;
    }
  }

  // ---- What a run adds and reports ----

  /** Every row a run adds copies a resource that the run was asked for, and its name holds the filter text. */
  lemma AddedExactly(t: Table, server: Server, args: Args, env: Env, l: Layer) returns (r: Resource)
    requires Fetch(server, args).Some? && l in Registering(t, server, args, env).table.layers && l !in t.layers
    ensures r in server.resources && r.enabled && (args.skipUnadvertised ==> r.advertised)
    ensures args.filter.Some? ==> exists i, j :: 0 <= i <= j <= |l.name| && l.name[i..j] == args.filter.value
    ensures l.name == r.name && l.workspace == r.workspace && l.store == r.store
    ensures l.typename == r.workspace + ":" + r.name
  {
    var fetched := Fetch(server, args).value;
    var rs := Selected(fetched, args, t.layers);
    IngestAppends(t, rs, env, args.ignoreErrors);
    r :| r in rs && l == NewLayer(l.id, r);
    SelectedExactly(fetched, args, t.layers, r);
    FetchedExactly(server, args, r);
  }

  /** Every line of a report is that of such a resource. */
  lemma LinesExactly(report: Outcome, t: Table, server: Server, args: Args, env: Env, k: nat) returns (r: Resource)
    requires report.Done? && Fetch(server, args).Some? && Reports(report, t, server, args, env) && k < |report.layers|
    ensures r in server.resources && r.enabled && (args.skipUnadvertised ==> r.advertised)
    ensures report.layers[k].0 == r.name
    ensures args.filter.Some? ==>
              exists i, j :: 0 <= i <= j <= |report.layers[k].0| && report.layers[k].0[i..j] == args.filter.value
  {
    var fetched := Fetch(server, args).value;
    var rs := Selected(fetched, args, t.layers);
    r := rs[k];
    assert r in rs;
    SelectedExactly(fetched, args, t.layers, r);
    FetchedExactly(server, args, r);
  }

  // ---- The counts of a report ----

  function StatusesOf(lines: seq<(string, Status)>): seq<Status> {
    seq(|lines|, i requires 0 <= i < |lines| => lines[i].1)
  }

  function FlagsOf(lines: seq<(string, bool)>): seq<bool> {
    seq(|lines|, i requires 0 <= i < |lines| => lines[i].1)
  }

  lemma {:induction false} CountIsMultiplicity(statuses: seq<Status>, s: Status)
    ensures Count(statuses, s) == multiset(statuses)[s]
  {
    if statuses != [] {
      CountIsMultiplicity(statuses[1..], s);
      assert statuses == [statuses[0]] + statuses[1..];
    }
  }

  lemma {:induction false} FailuresAreMultiplicity(lines: seq<(string, bool)>)
    ensures DeleteFailures(lines) == multiset(FlagsOf(lines))[false]
    ensures |lines| == multiset(FlagsOf(lines))[false] + multiset(FlagsOf(lines))[true]
  {
    if lines != [] {
      FailuresAreMultiplicity(lines[1..]);
      assert FlagsOf(lines) == [lines[0].1] + FlagsOf(lines[1..]);
    }
  }

  /** Each number of a report is the number of its lines with that status. */
  lemma CountsExactly(report: Outcome, t: Table, server: Server, args: Args, env: Env)
    requires report.Done? && Fetch(server, args).Some? && Reports(report, t, server, args, env)
    requires report.deleted + DeleteFailures(report.deletedLayers) == |report.deletedLayers|
    ensures report.stats.created == multiset(StatusesOf(report.layers))[Created]
    ensures report.stats.updated == multiset(StatusesOf(report.layers))[Updated]
    ensures report.stats.failed == multiset(StatusesOf(report.layers))[Failed]
    ensures report.deleted == multiset(FlagsOf(report.deletedLayers))[true]
  {
    var statuses := Registering(t, server, args, env).statuses;
    assert StatusesOf(report.layers) == statuses;
    CountIsMultiplicity(statuses, Created);
    CountIsMultiplicity(statuses, Updated);
    CountIsMultiplicity(statuses, Failed);
    FailuresAreMultiplicity(report.deletedLayers);
  }

  // ---- Which layers are marked ----

  /** A layer is marked exactly if it is in the scope asked for and no fetched, live resource has its name and place. */
  lemma MarkedExactly(t: Table, server: Server, args: Args, env: Env, l: Layer)
    requires Fetch(server, args).Some?
    ensures var p := Registering(t, server, args, env);
            l in Marked(t, server, args, env)
            <==> && !p.stopped && args.removeDeleted && l in p.table.layers
                 && (args.workspace.Some? && args.workspace.value in server.workspaces ==>
                     l.workspace == args.workspace.value)
                 && (args.store.Some? ==> l.store == args.store.value)
                 && forall r :: r in Fetch(server, args).value && r.enabled && (args.skipUnadvertised ==> r.advertised)
                      ==> !(r.name == l.name && r.workspace == l.workspace && r.store == l.store)
  {
    var live := Live(Fetch(server, args).value, args);
    if l in Marked(t, server, args, env) {
      forall r | r in Fetch(server, args).value && r.enabled && (args.skipUnadvertised ==> r.advertised)
        ensures !(r.name == l.name && r.workspace == l.workspace && r.store == l.store)
      {
        assert r in live;
      }
    }
  }

  /** Each line about a deletion is that of a marked layer, and says whether its deletion went through. */
  lemma DeletionsExactly(report: Outcome, t: Table, server: Server, args: Args, env: Env, k: nat) returns (l: Layer)
    requires report.Done? && Fetch(server, args).Some? && Reports(report, t, server, args, env)
    requires k < |report.deletedLayers|
    ensures args.removeDeleted && l in Registering(t, server, args, env).table.layers
    ensures args.store.Some? ==> l.store == args.store.value
    ensures report.deletedLayers[k].0 == l.name && (report.deletedLayers[k].1 <==> !env.fails(k))
    ensures forall r :: r in Fetch(server, args).value && r.enabled && (args.skipUnadvertised ==> r.advertised) ==>
              !(r.name == l.name && r.workspace == l.workspace && r.store == l.store)
  {
    l := Marked(t, server, args, env)[k];
    assert l in Marked(t, server, args, env);
    MarkedExactly(t, server, args, env, l);
  }

  // ---- What a deletion reaches on the server ----

  /** The resource of a qualified type name: in the store of its own name, or else in the default data store. */
  lemma ReachedExactly(server: Server, l: Layer, w: string, name: string)
    requires COLON !in w && COLON !in name && l.typename == w + ":" + name
    ensures var own, default := (w, name), (w, server.datastore.GetOr(""));
            var place := if own in server.stores then own else default;
            && (Reached(server, l).Some?
                <==> && server.writable && w in server.workspaces
                     && (own in server.stores || (server.datastore.Some? && default in server.stores))
                     && exists r :: r in server.resources && r.name == name && (r.workspace, r.store) == place)
            && (Reached(server, l).Some? ==>
                  && Reached(server, l).value in server.resources && Reached(server, l).value.name == name
                  && (Reached(server, l).value.workspace, Reached(server, l).value.store) == place)
  {
    TargetExactly(l.typename, w, name);
    var found := Candidates(server, TargetOf(l.typename));
    assert found != [] ==> found[0] in found;
    if r :| r in server.resources && r.name == name && r.workspace == w && StoreFor(server, w, name) == Some(r.store) {
      assert w in server.workspaces ==> r in found;
    }
  }

  lemma TargetExactly(typename: string, w: string, name: string)
    requires COLON !in w && COLON !in name && typename == w + ":" + name
    ensures TargetOf(typename) == Qualified(w, name)
  {
    var lead := UpToColon(typename);
    assert typename[|w|] == COLON;
    assert forall k :: 0 <= k < |w| ==> typename[k] == w[k];
    assert forall k :: 0 <= k < |lead| ==> typename[k] == lead[k] && lead[k] in lead;
    assert |lead| == |w| && lead == w;
    assert typename[|lead| + 1..] == name;
  }
}
