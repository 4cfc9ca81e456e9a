/**
 Bringing the catalogue's layer table into agreement with the map server (geonode/geoserver/helpers.py, gs_slurp):
 the server's resources are registered by name, then in-scope layers without a live resource are removed.
 A removal takes along what the deletion handlers take: other layers through shared styles, and resources on the server.
 */
module CatalogueSync {
  import opened Lists
  import Styles

  /** A row of the layer table. */
  datatype Layer = Layer(id: nat, name: string, workspace: string, store: string, typename: string)

  /** The rows, and by row id their styles and whether they are local. */
  datatype Table = Table(layers: seq<Layer>, nextId: nat, looks: Styles.State)

  /** A resource of the map server; its workspace is that of its store. */
  datatype Resource = Resource(name: string, workspace: string, store: string, enabled: bool, advertised: bool)

  datatype Kind = Postgis | GeoGig | Coverage | OtherKind

  /**
   What the server answers with: its workspaces, its stores by workspace and name, and all resources.
   Of the settings: the name of the default data store, and whether the catalogue may write to the server.
   */
  datatype Server = Server(
    workspaces: set<string>, stores: map<(string, string), Kind>, defaultWorkspace: string, resources: seq<Resource>,
    datastore: Option<string>, writable: bool)

  datatype Args = Args(
    workspace: Option<string>, store: Option<string>, filter: Option<string>,
    skipUnadvertised: bool, skipRegistered: bool, removeDeleted: bool, ignoreErrors: bool)

  // ---- Which resources a run looks at ----

  /** None stands for the exception on an unknown store. An unknown workspace gives no resources. */
  function Fetch(server: Server, args: Args): Option<seq<Resource>> {
    match (args.workspace, args.store)
    case (Some(w), Some(s)) =>
      if w !in server.workspaces then Some([])
      else if (w, s) !in server.stores then None
      else Some(Filter(server.resources, (r: Resource) => r.workspace == w && r.store == s))
    case (Some(w), None) =>
      if w !in server.workspaces then Some([])
      else Some(Filter(server.resources, (r: Resource) => r.workspace == w))
    case (None, Some(s)) =>
      if (server.defaultWorkspace, s) !in server.stores then None
      else Some(Filter(server.resources, (r: Resource) => r.workspace == server.defaultWorkspace && r.store == s))
    case (None, None) => Some(server.resources)
  }

  /** The resources layers are compared with before anything is deleted. */
  function Live(fetched: seq<Resource>, args: Args): seq<Resource> {
    Filter(fetched, (r: Resource) => r.enabled && (args.skipUnadvertised ==> r.advertised))
  }

  predicate Contains(s: string, part: string) {
    part <= s || (s != "" && Contains(s[1..], part))
  }

  function TypeName(r: Resource): string {
    r.workspace + ":" + r.name
  }

  predicate Registered(layers: seq<Layer>, r: Resource) {
    exists l :: l in layers && l.typename == TypeName(r)
  }

  /** The resources that are registered in this run. */
  function Selected(fetched: seq<Resource>, args: Args, layers: seq<Layer>): seq<Resource> {
    Filter(Live(fetched, args), (r: Resource) =>
      (args.filter.Some? ==> Contains(r.name, args.filter.value)) && !(args.skipRegistered && Registered(layers, r)))
  }

  // ---- Registering ----

  /** Where the processing of a resource fails, if it does: before its row exists or after. */
  datatype Fault = Fine | Early | Late

  datatype Status = Created | Updated | Failed

  /** The styles the server names for a layer that is saved, and whether the default is stored as well. */
  datatype Look = Look(default: string, alternates: set<string>, saved: bool)

  /**
   What a run meets: faults and saved styles by the position of the resource, failing deletions by the position of the
   marked layer, and what one deletion does to the styles and to other layers.
   */
  datatype Env = Env(faults: nat -> Fault, looks: nat -> Option<Look>, fails: nat -> bool,
      kill: (Styles.State, nat) -> Styles.State)

  function Named(layers: seq<Layer>, name: string): seq<Layer> {
    Filter(layers, (l: Layer) => l.name == name)
  }

  function NewLayer(id: nat, r: Resource): Layer {
    Layer(id, r.name, r.workspace, r.store, TypeName(r))
  }

  function Restyled(t: Table, id: nat, look: Option<Look>): Table {
    if look.None? || id !in t.looks.layers then t
    else t.(looks := Styles.SetStyles(t.looks, id, look.value.default, look.value.alternates, look.value.saved))
  }

  function Extended(t: Table, r: Resource): Table {
    Table(t.layers + [NewLayer(t.nextId, r)], t.nextId + 1, Styles.AddLayer(t.looks, t.nextId, true))
  }

  /**
   One resource: the row is looked up by its name alone, and an ambiguous name is an error. Saving the row stores
   its styles.
   */
  function Register(t: Table, r: Resource, fault: Fault, look: Option<Look>): (Table, Status) {
    var found := Named(t.layers, r.name);
    if fault == Early || |found| > 1 then (t, Failed)
    else if found == [] then (Restyled(Extended(t, r), t.nextId, look), if fault == Late then Failed else Created)
    else (Restyled(t, found[0].id, look), if fault == Late then Failed else Updated)
  }

  datatype Progress = Progress(table: Table, statuses: seq<Status>, stopped: bool)

  /** One more resource; without ignoreErrors the first failure stops the run. */
  function Next(p: Progress, r: Resource, fault: Fault, look: Option<Look>, ignoreErrors: bool): Progress {
    if p.stopped then p
    else
      var (after, status) := Register(p.table, r, fault, look);
      Progress(after, p.statuses + [status], status == Failed && !ignoreErrors)
  }

  function Ingest(t: Table, rs: seq<Resource>, env: Env, ignoreErrors: bool): Progress {
    if rs == [] then Progress(t, [], false)
    else
      var n := |rs| - 1;
      Next(Ingest(t, rs[..n], env, ignoreErrors), rs[n], env.faults(n), env.looks(n), ignoreErrors)
  }

  // ---- Removing ----

  /** The layers the deletion step looks at. An unknown workspace has been forgotten by then. */
  predicate InScope(server: Server, args: Args, l: Layer) {
    && (args.workspace.Some? && args.workspace.value in server.workspaces ==> l.workspace == args.workspace.value)
    && (args.store.Some? ==> l.store == args.store.value)
  }

  predicate Matched(live: seq<Resource>, l: Layer) {
    exists r :: r in live && r.name == l.name && r.workspace == l.workspace && r.store == l.store
  }

  function Stale(server: Server, args: Args, live: seq<Resource>, layers: seq<Layer>): seq<Layer> {
    Filter(layers, (l: Layer) => InScope(server, args, l) && !Matched(live, l))
  }

  // ---- What the server loses with a row (cascading_delete) ----

  /** How a type name is read: with a workspace, as a bare name, or not at all. */
  datatype Target = Qualified(workspace: string, name: string) | Bare(name: string) | Malformed

  const COLON := ':'

  function UpToColon(s: string): (r: string)
    ensures COLON !in r && r <= s
    ensures COLON in s ==> |r| < |s| && s[|r|] == COLON
  {
    if s == "" || s[0] == COLON then "" else [s[0]] + UpToColon(s[1..])
  }

  function TargetOf(typename: string): Target {
    if COLON !in typename then Bare(typename)
    else
      var w := UpToColon(typename);
      var name := typename[|w| + 1..];
      if COLON in name then Malformed else Qualified(w, name)
  }

  /** A store of the layer's own name, else the default data store. */
  function StoreFor(server: Server, workspace: string, name: string): Option<string> {
    if (workspace, name) in server.stores then Some(name)
    else if server.datastore.Some? && (workspace, server.datastore.value) in server.stores then server.datastore
    else None
  }

  function Candidates(server: Server, target: Target): seq<Resource> {
    match target
    case Malformed => []
    case Bare(name) => Filter(server.resources, (r: Resource) => r.name == name)
    case Qualified(w, name) =>
      if w !in server.workspaces then []
      else
        match StoreFor(server, w, name)
        case None => []
        case Some(store) => Filter(server.resources, (r: Resource) => r.name == name && r.workspace == w
            && r.store == store)
  }

  /** The resource on the server that goes when the row is deleted. */
  function Reached(server: Server, l: Layer): Option<Resource> {
    var found := Candidates(server, TargetOf(l.typename));
    if !server.writable || found == [] then None else Some(found[0])
  }

  predicate At(r: Resource, place: (string, string)) {
    (r.workspace, r.store) == place
  }

  /** A coverage store goes with all its resources, another file store when it is empty. */
  function Purged(server: Server, r: Resource): Server {
    var place := (r.workspace, r.store);
    var rest := Filter(server.resources, (q: Resource) => q != r);
    if place !in server.stores || server.stores[place].Postgis?
        || server.stores[place].GeoGig? then server.(resources := rest)
    else if server.stores[place].Coverage? then
      server.(resources := Filter(rest, (q: Resource) => !At(q, place)), stores := server.stores - {place})
    else if exists q :: q in rest && At(q, place) then server.(resources := rest)
    else server.(resources := rest, stores := server.stores - {place})
  }

  predicate IsLocal(looks: Styles.State, l: Layer) {
    l.id in looks.layers && looks.layers[l.id].local
  }

  function PurgeRows(server: Server, rows: seq<Layer>, looks: Styles.State): Server
    decreases |rows|
  {
    if rows == [] then server
    else
      var reached := if IsLocal(looks, rows[0]) then Reached(server, rows[0]) else None;
      PurgeRows(if reached.Some? then Purged(server, reached.value) else server, rows[1..], looks)
  }

  // ---- Deleting the marked layers ----

  datatype World = World(table: Table, server: Server)

  /** The rows whose ids a style store has, or has not. */
  function Rows(layers: seq<Layer>, looks: Styles.State): seq<Layer> {
    Filter(layers, (m: Layer) => m.id in looks.layers)
  }

  function LostRows(layers: seq<Layer>, looks: Styles.State): seq<Layer> {
    Filter(layers, (m: Layer) => m.id !in looks.layers)
  }

  /** One deletion that goes through, with all it takes along. A row that is gone already is passed over. */
  function Strike(w: World, l: Layer, kill: (Styles.State, nat) -> Styles.State): World {
    if l.id !in w.table.looks.layers then w
    else
      var t, looks := w.table, kill(w.table.looks, l.id);
      World(Table(Rows(t.layers, looks), t.nextId, looks), PurgeRows(w.server, LostRows(t.layers, looks), t.looks))
  }

  /** The first n deletions; fails(i) tells which fail. */
  function SweepFirst(
      w: World, marked: seq<Layer>, fails: nat -> bool, kill: (Styles.State, nat) -> Styles.State, n: nat): World
    requires n <= |marked|
  {
    if n == 0 then w
    else
      var now := SweepFirst(w, marked, fails, kill, n - 1);
      if fails(n - 1) then now else Strike(now, marked[n - 1], kill)
  }

  // ---- The run ----

  function Count(statuses: seq<Status>, s: Status): nat {
    if statuses == [] then 0 else (if statuses[0] == s then 1 else 0) + Count(statuses[1..], s)
  }

  function Bumped(stats: Stats, s: Status): Stats {
    match s
    case Created => stats.(created := stats.created + 1)
    case Updated => stats.(updated := stats.updated + 1)
    case Failed => stats.(failed := stats.failed + 1)
  }

  /** The entries reported as delete_failed. */
  function DeleteFailures(info: seq<(string, bool)>): nat {
    if info == [] then 0 else (if info[0].1 then 0 else 1) + DeleteFailures(info[1..])
  }

  datatype Stats = Stats(created: int, updated: int, failed: int)

  /** How many resources were created, updated and failed. */
  predicate Tallied(stats: Stats, statuses: seq<Status>) {
    stats == Stats(Count(statuses, Created), Count(statuses, Updated), Count(statuses, Failed))
  }

  /** One entry for every resource, with its status. */
  predicate Noted(info: seq<(string, Status)>, rs: seq<Resource>, statuses: seq<Status>) {
    |info| == |rs| == |statuses| && forall i :: 0 <= i < |rs| ==> info[i] == (rs[i].name, statuses[i])
  }

  /** An exception before anything happened, an exception in the middle, or a report. */
  datatype Outcome = Unreachable | Stopped | Done(stats: Stats, deleted: nat, layers: seq<(string, Status)>,
      deletedLayers: seq<(string, bool)>)

  /** The registering part of a run. */
  function Registering(t: Table, server: Server, args: Args, env: Env): Progress
    requires Fetch(server, args).Some?
  {
    Ingest(t, Selected(Fetch(server, args).value, args, t.layers), env, args.ignoreErrors)
  }

  /** The layers a run marks for deletion. */
  function Marked(t: Table, server: Server, args: Args, env: Env): seq<Layer>
    requires Fetch(server, args).Some?
  {
    var p := Registering(t, server, args, env);
    if p.stopped || !args.removeDeleted then []
        else Stale(server, args, Live(Fetch(server, args).value, args), p.table.layers)
  }

  /** The table and the server after a whole run. */
  function Slurp(t: Table, server: Server, args: Args, env: Env): World {
    if Fetch(server, args).None? then World(t, server)
    else
      var marked := Marked(t, server, args, env);
      SweepFirst(World(Registering(t, server, args, env).table, server), marked, env.fails, env.kill, |marked|)
  }

  /** The report has one line for every selected resource and every marked layer, and counts them by status. */
  predicate Reports(r: Outcome, t: Table, server: Server, args: Args, env: Env)
    requires r.Done? && Fetch(server, args).Some?
  {
    var statuses, marked := Registering(t, server, args, env).statuses, Marked(t, server, args, env);
    && Noted(r.layers, Selected(Fetch(server, args).value, args, t.layers), statuses)
    && Tallied(r.stats, statuses)
    && |r.deletedLayers| == |marked|
    && forall i :: 0 <= i < |marked| ==> r.deletedLayers[i] == (marked[i].name, !env.fails(i))
  }

  /** The catalogue's tables and the server they are compared with. */
  class Catalogue {
    var layers: seq<Layer>
    var nextId: nat
    var looks: Styles.State
    var server: Server

    constructor (w: World)
      ensures State() == w
    {
      layers, nextId, looks, server := w.table.layers, w.table.nextId, w.table.looks, w.server;
    }

    function Get(): Table
      reads this
    {
      Table(layers, nextId, looks)
    }

    function State(): World
      reads this
    {
      World(Get(), server)
    }

    /** Layer.objects.get_or_create(name=...): None stands for the exception on an ambiguous name. */
    method GetOrCreate(r: Resource) returns (id: Option<nat>, created: bool)
      modifies this
      ensures id.None? <==> |Named(old(layers), r.name)| > 1
      ensures created <==> |Named(old(layers), r.name)| == 0
      ensures id.Some? ==> id.value == if created then old(nextId) else Named(old(layers), r.name)[0].id
      ensures Get() == (if created then Extended(old(Get()), r) else old(Get())) && server == old(server)
    {
      var found := Named(layers, r.name);
      if |found| > 1 {
        return None, false;
      }
      created := found == [];
      id := Some(if created then nextId else found[0].id);
      if created {
        layers, looks := layers + [NewLayer(nextId, r)], Styles.AddLayer(looks, nextId, true);
        nextId := nextId + 1;
      }
    }

    /** One resource: the status it is reported with. */
    method Process(r: Resource, fault: Fault, look: Option<Look>) returns (status: Status)
      modifies this
      ensures (Get(), status) == Register(old(Get()), r, fault, look) && server == old(server)
    {
      status := Failed;
      if fault != Early {
        var id, isNew := GetOrCreate(r);
        if id.Some? {
          if look.Some? && id.value in looks.layers {
            looks := Styles.SetStyles(looks, id.value, look.value.default, look.value.alternates, look.value.saved);
          }
          if fault == Fine {
            status := if isNew then Created else Updated;
          }
        }
      }
    }

    method IngestAll(rs: seq<Resource>, env: Env, ignoreErrors: bool)
      returns (stopped: bool, stats: Stats, info: seq<(string, Status)>)
      modifies this
      ensures Get() == Ingest(old(Get()), rs, env, ignoreErrors).table && server == old(server)
      ensures stopped <==> Ingest(old(Get()), rs, env, ignoreErrors).stopped
      ensures !stopped ==> Noted(info, rs, Ingest(old(Get()), rs, env, ignoreErrors).statuses)
      ensures !stopped ==> Tallied(stats, Ingest(old(Get()), rs, env, ignoreErrors).statuses)
    {
      stats, info := Stats(0, 0, 0), [];
      ghost var start := Get();
      ghost var p := Progress(start, [], false);
      for i := 0 to |rs|
        invariant p == Ingest(start, rs[..i], env, ignoreErrors) && p.table == Get() && !p.stopped
            && server == old(server)
        invariant Noted(info, rs[..i], p.statuses) && Tallied(stats, p.statuses)
      {
        var status := Process(rs[i], env.faults(i), env.looks(i));
        IngestSnoc(start, rs, i, env, ignoreErrors);
        if status == Failed && !ignoreErrors {
          StaysStopped(start, rs, i + 1, env, ignoreErrors);
          return true, stats, info;
        }
        TalliedSnoc(stats, p.statuses, status);
        NotedSnoc(info, rs, i, p.statuses, status);
        p := Progress(Get(), p.statuses + [status], false);
        stats := Bumped(stats, status);
        info := info + [(rs[i].name, status)];
      }
      assert rs[..|rs|] == rs;
      stopped := false;
    }

    /** geoserver_pre_delete and cascading_delete, for every row that goes. */
    method PurgeAll(rows: seq<Layer>, before: Styles.State)
      modifies this`server
      ensures server == PurgeRows(old(server), rows, before)
    {
      for i := 0 to |rows|
        invariant PurgeRows(server, rows[i..], before) == PurgeRows(old(server), rows, before)
      {
        assert rows[i..][1..] == rows[i + 1..];
        if IsLocal(before, rows[i]) {
          var reached := Reached(server, rows[i]);
          if reached.Some? {
            server := Purged(server, reached.value);
          }
        }
      }
    }

    method RemoveStale(marked: seq<Layer>, env: Env) returns (deleted: nat, info: seq<(string, bool)>)
      modifies this
      ensures State() == SweepFirst(old(State()), marked, env.fails, env.kill, |marked|)
      ensures |info| == |marked| && forall i :: 0 <= i < |marked| ==> info[i] == (marked[i].name, !env.fails(i))
      ensures deleted + DeleteFailures(info) == |marked|
    {
      deleted, info := 0, [];
      for i := 0 to |marked|
        invariant State() == SweepFirst(old(State()), marked, env.fails, env.kill, i)
        invariant |info| == i && forall k :: 0 <= k < i ==> info[k] == (marked[k].name, !env.fails(k))
        invariant deleted + DeleteFailures(info) == i
      {
        if !env.fails(i) {
          if marked[i].id in looks.layers {
            var before, after := looks, env.kill(looks, marked[i].id);
            PurgeAll(LostRows(layers, after), before);
            layers, looks := Rows(layers, after), after;
          }
          deleted := deleted + 1;
        }
        DeleteFailuresSnoc(info, (marked[i].name, !env.fails(i)));
        info := info + [(marked[i].name, !env.fails(i))];
      }
    }

    method GsSlurp(args: Args, env: Env) returns (r: Outcome)
      modifies this
      ensures State() == Slurp(old(Get()), old(server), args, env)
      ensures r.Unreachable? <==> Fetch(old(server), args).None?
      ensures r.Stopped? <==> Fetch(old(server), args).Some? && Registering(old(Get()), old(server), args, env).stopped
      ensures r.Done? ==> Reports(r, old(Get()), old(server), args, env)
      ensures r.Done? ==> r.stats.created + r.stats.updated + r.stats.failed == |r.layers|
      ensures r.Done? ==> r.deleted + DeleteFailures(r.deletedLayers) == |r.deletedLayers|
    {
      var fetched := Fetch(server, args);
      if fetched.None? {
        return Unreachable;
      }
      var live := Live(fetched.value, args);
      var resources := Selected(fetched.value, args, layers);
      var stopped, stats, info := IngestAll(resources, env, args.ignoreErrors);
      if stopped {
        return Stopped;
      }
      CountTotal(Ingest(old(Get()), resources, env, args.ignoreErrors).statuses);
      var deleted, deletedInfo := 0, [];
      if args.removeDeleted {
        deleted, deletedInfo := RemoveStale(Stale(server, args, live, layers), env);
      }
      r := Done(stats, deleted, info, deletedInfo);
    }
  }

  lemma IngestSnoc(t: Table, rs: seq<Resource>, i: nat, env: Env, ignoreErrors: bool)
    requires i < |rs|
    ensures Ingest(t, rs[..i + 1], env, ignoreErrors)
         == Next(Ingest(t, rs[..i], env, ignoreErrors), rs[i], env.faults(i), env.looks(i), ignoreErrors)
  {
    assert rs[..i + 1][..i] == rs[..i];
  }

  lemma {:induction false} CountSnoc(statuses: seq<Status>, last: Status, s: Status)
    ensures Count(statuses + [last], s) == Count(statuses, s) + if last == s then 1 else 0
  {
    if statuses == [] {
      assert statuses + [last] == [last] && [last][1..] == [];
    } else {
      assert (statuses + [last])[1..] == statuses[1..] + [last];
      CountSnoc(statuses[1..], last, s);
    }
  }

  lemma TalliedSnoc(stats: Stats, statuses: seq<Status>, s: Status)
    requires Tallied(stats, statuses)
    ensures Tallied(Bumped(stats, s), statuses + [s])
  {
    CountSnoc(statuses, s, Created);
    CountSnoc(statuses, s, Updated);
    CountSnoc(statuses, s, Failed);
  }

  lemma {:induction false} DeleteFailuresSnoc(info: seq<(string, bool)>, last: (string, bool))
    ensures DeleteFailures(info + [last]) == DeleteFailures(info) + if last.1 then 0 else 1
  {
    if info == [] {
      assert info + [last] == [last] && [last][1..] == [];
    } else {
      assert (info + [last])[1..] == info[1..] + [last];
      DeleteFailuresSnoc(info[1..], last);
    }
  }

  /** Every processed resource is counted under exactly one status. */
  lemma {:induction false} CountTotal(statuses: seq<Status>)
    ensures Count(statuses, Created) + Count(statuses, Updated) + Count(statuses, Failed) == |statuses|
  {
    if statuses != [] {
      CountTotal(statuses[1..]);
    }
  }

  lemma NotedSnoc(info: seq<(string, Status)>, rs: seq<Resource>, i: nat, statuses: seq<Status>, s: Status)
    requires i < |rs| && Noted(info, rs[..i], statuses)
    ensures Noted(info + [(rs[i].name, s)], rs[..i + 1], statuses + [s])
  {
  }

  lemma {:induction false} StaysStopped(t: Table, rs: seq<Resource>, i: nat, env: Env, ignoreErrors: bool)
    requires i <= |rs| && Ingest(t, rs[..i], env, ignoreErrors).stopped
    ensures Ingest(t, rs, env, ignoreErrors) == Ingest(t, rs[..i], env, ignoreErrors)
  {
    if i == |rs| {
      assert rs[..i] == rs;
    } else {
      assert rs[..|rs| - 1][..i] == rs[..i];
      StaysStopped(t, rs[..|rs| - 1], i, env, ignoreErrors);
    }
  }
}
