/**
 What every run of gs_slurp keeps (geonode/geoserver/helpers.py): which layers it leaves, which it takes along with
 others, and whether it leaves the map server as it is.
 */
module SyncSafety {
  import opened Lists
  import opened CatalogueSync
  import Styles

  // ---- Every run, with any failures ----

  /** A row that registering may add: it copies name, workspace and store of a resource. */
  predicate Copies(l: Layer, rs: seq<Resource>) {
    exists r :: r in rs && l == NewLayer(l.id, r)
  }

  /** Registering only appends rows, and each of them copies a resource. */
  lemma {:induction false} IngestAppends(t: Table, rs: seq<Resource>, env: Env, ignoreErrors: bool)
    ensures t.layers <= Ingest(t, rs, env, ignoreErrors).table.layers
    ensures forall l :: l in Ingest(t, rs, env, ignoreErrors).table.layers ==> l in t.layers || Copies(l, rs)
  {
    if rs != [] {
      var init := rs[..|rs| - 1];
      IngestAppends(t, init, env, ignoreErrors);
      assert forall r :: r in init ==> r in rs;
      assert rs[|rs| - 1] in rs;
      assert forall l :: Copies(l, init) ==> Copies(l, rs);
    }
  }

  /** A layer created in a run is not marked for deletion by it, whatever fails. */
  lemma NewIsNeverStale(t: Table, server: Server, args: Args, env: Env, l: Layer)
    requires Fetch(server, args).Some? && l in Registering(t, server, args, env).table.layers && l !in t.layers
    ensures l !in Marked(t, server, args, env)
  {
    var fetched := Fetch(server, args).value;
    IngestAppends(t, Selected(fetched, args, t.layers), env, args.ignoreErrors);
    assert forall r :: r in Selected(fetched, args, t.layers) ==> r in Live(fetched, args);
  }

  /** Row ids identify rows, and every row has its styles. */
  ghost predicate ValidTable(t: Table) {
    && (forall l :: l in t.layers ==> l.id < t.nextId && l.id in t.looks.layers)
    && (forall l, m :: l in t.layers && m in t.layers && l.id == m.id ==> l == m)
    && (forall id :: id in t.looks.layers ==> exists l :: l in t.layers && l.id == id)
  }

  lemma RegisterValid(t: Table, r: Resource, fault: Fault, look: Option<Look>)
    requires ValidTable(t)
    ensures ValidTable(Register(t, r, fault, look).0)
  {
    if Named(t.layers, r.name) == [] {
      assert NewLayer(t.nextId, r) in Extended(t, r).layers;
    }
  }

  lemma {:induction false} IngestValid(t: Table, rs: seq<Resource>, env: Env, ignoreErrors: bool)
    requires ValidTable(t)
    ensures ValidTable(Ingest(t, rs, env, ignoreErrors).table)
  {
    if rs != [] {
      var n := |rs| - 1;
      IngestValid(t, rs[..n], env, ignoreErrors);
      RegisterValid(Ingest(t, rs[..n], env, ignoreErrors).table, rs[n], env.faults(n), env.looks(n));
    }
  }

  // ---- Registering, when nothing fails ----

  predicate UniqueNames(layers: seq<Layer>) {
    forall i, j :: 0 <= i < j < |layers| ==> layers[i].name != layers[j].name
  }

  predicate HasName(layers: seq<Layer>, name: string) {
    exists l :: l in layers && l.name == name
  }

  ghost predicate Smooth(env: Env) {
    forall i: nat :: env.faults(i) == Fine && !env.fails(i)
  }

  lemma {:induction false} NamedCount(layers: seq<Layer>, name: string)
    requires UniqueNames(layers)
    ensures |Named(layers, name)| == if HasName(layers, name) then 1 else 0
  {
    if layers != [] {
      var first, rest := layers[0], layers[1..];
      assert layers == [first] + rest;
      NamedCount(rest, name);
      if first.name == name {
        assert first in layers && !HasName(rest, name);
      } else if HasName(rest, name) {
        var l :| l in rest && l.name == name;
        assert l in layers;
      }
    }
  }

  lemma RegisterUnique(t: Table, r: Resource, look: Option<Look>)
    requires UniqueNames(t.layers)
    ensures var (after, status) := Register(t, r, Fine, look);
            UniqueNames(after.layers) && status != Failed && HasName(after.layers, r.name) && t.layers <= after.layers
            && (HasName(t.layers, r.name) ==> after.layers == t.layers)
  {
    NamedCount(t.layers, r.name);
    var after := Register(t, r, Fine, look).0;
    if !HasName(t.layers, r.name) {
      assert forall i :: 0 <= i < |t.layers| ==> t.layers[i] in t.layers;
      assert after.layers == t.layers + [NewLayer(t.nextId, r)];
      assert after.layers[|t.layers|] in after.layers;
    }
  }

  /** Starting from unique names nothing fails; names stay unique, and every resource's name is in the table. */
  lemma {:induction false} SmoothIngest(t: Table, rs: seq<Resource>, env: Env, ignoreErrors: bool)
    requires UniqueNames(t.layers) && Smooth(env)
    ensures var p := Ingest(t, rs, env, ignoreErrors);
            !p.stopped && UniqueNames(p.table.layers) && (forall r :: r in rs ==> HasName(p.table.layers, r.name))
    ensures (forall r :: r in rs ==> HasName(t.layers, r.name)) ==>
        Ingest(t, rs, env, ignoreErrors).table.layers == t.layers
  {
    if rs != [] {
      var n := |rs| - 1;
      var init, last := rs[..n], rs[n];
      assert rs == init + [last] && last in rs && forall r :: r in init ==> r in rs;
      SmoothIngest(t, init, env, ignoreErrors);
      var p := Ingest(t, init, env, ignoreErrors);
      RegisterUnique(p.table, last, env.looks(n));
      var after := Register(p.table, last, Fine, env.looks(n)).0;
      forall r | r in init ensures HasName(after.layers, r.name) {
        var l :| l in p.table.layers && l.name == r.name;
        assert l in after.layers;
      }
    }
  }

  /** No other resource has its name. */
  predicate OnlyNamed(rs: seq<Resource>, r: Resource) {
    forall q :: q in rs && q.name == r.name ==> q == r
  }

  /**
   Registering gives every selected resource a layer of its name, and a copy of itself where the name was new and
   comes once.
   */
  lemma RegistersAll(t: Table, server: Server, args: Args, env: Env)
    requires UniqueNames(t.layers) && Smooth(env) && Fetch(server, args).Some? && !args.removeDeleted
    ensures forall r :: r in Selected(Fetch(server, args).value, args, t.layers) ==>
        HasName(Slurp(t, server, args, env).table.layers, r.name)
    ensures forall r :: r in Selected(Fetch(server, args).value, args, t.layers) && !HasName(t.layers, r.name)
                        && OnlyNamed(Selected(Fetch(server, args).value, args, t.layers), r) ==>
              exists id: nat :: NewLayer(id, r) in Slurp(t, server, args, env).table.layers
  {
    var rs, after := Selected(Fetch(server, args).value, args, t.layers), Slurp(t, server, args, env).table.layers;
    SmoothIngest(t, rs, env, args.ignoreErrors);
    IngestAppends(t, rs, env, args.ignoreErrors);
    forall r | r in rs && !HasName(t.layers, r.name) && (forall q :: q in rs && q.name == r.name ==> q == r)
      ensures exists id: nat :: NewLayer(id, r) in after
    {
      var l :| l in after && l.name == r.name;
      assert NewLayer(l.id, r) in after;
    }
  }

  // ---- Which rows a sweep leaves ----

  function Ids(rows: seq<Layer>): seq<nat> {
    seq(|rows|, i requires 0 <= i < |rows| => rows[i].id)
  }

  /** The styles go through the deletions of the ids, and the rows left are those of the ids left. */
  lemma {:induction false} SweepLooks(
      w: World, marked: seq<Layer>, fails: nat -> bool, kill: (Styles.State, nat) -> Styles.State, n: nat)
    requires ValidTable(w.table) && Styles.IsDeletion(kill) && n <= |marked|
    ensures var after := SweepFirst(w, marked, fails, kill, n).table;
            && after.looks == Styles.DeleteFirst(w.table.looks, Ids(marked), fails, kill, n)
            && after.nextId == w.table.nextId
            && forall l :: l in after.layers <==> l in w.table.layers && l.id in after.looks.layers
  {
    if n > 0 {
      SweepLooks(w, marked, fails, kill, n - 1);
      Styles.DeletionShrinks(SweepFirst(w, marked, fails, kill, n - 1).table.looks, marked[n - 1].id, kill);
    }
  }

  lemma SweepValid(w: World, marked: seq<Layer>, fails: nat -> bool, kill: (Styles.State, nat) -> Styles.State)
    requires ValidTable(w.table) && Styles.IsDeletion(kill)
    ensures ValidTable(SweepFirst(w, marked, fails, kill, |marked|).table)
  {
    SweepLooks(w, marked, fails, kill, |marked|);
    Styles.DeleteFirstShrinks(w.table.looks, Ids(marked), fails, kill, |marked|);
    var after := SweepFirst(w, marked, fails, kill, |marked|).table;
    forall id | id in after.looks.layers ensures exists l :: l in after.layers && l.id == id {
      var l :| l in w.table.layers && l.id == id;
      assert l in after.layers;
    }
  }

  /** The run strands no layer by deleting others: seen from the styles as they are before the first deletion. */
  ghost predicate Unstranded(t: Table, server: Server, args: Args, env: Env)
    requires Fetch(server, args).Some?
  {
    Styles.Harmless(Registering(t, server, args, env).table.looks, Ids(Marked(t, server, args, env)), env.fails)
  }

  /** The row is marked, and its deletion goes through. */
  predicate DeletedItself(t: Table, server: Server, args: Args, env: Env, l: Layer)
    requires Fetch(server, args).Some?
  {
    exists k :: 0 <= k < |Marked(t, server, args, env)| && !env.fails(k) && Marked(t, server, args, env)[k] == l
  }

  lemma StruckIsDeleted(t: Table, server: Server, args: Args, env: Env, l: Layer)
    requires ValidTable(t) && Fetch(server, args).Some? && l in Registering(t, server, args, env).table.layers
    ensures Styles.Struck(Ids(Marked(t, server, args, env)), env.fails, |Ids(Marked(t, server, args, env))|, l.id)
       <==> DeletedItself(t, server, args, env, l)
  {
    var marked := Marked(t, server, args, env);
    IngestValid(t, Selected(Fetch(server, args).value, args, t.layers), env, args.ignoreErrors);
    assert forall k :: 0 <= k < |marked| ==> marked[k] in marked && Ids(marked)[k] == marked[k].id;
  }

  lemma SlurpRows(t: Table, server: Server, args: Args, env: Env, l: Layer)
    requires ValidTable(t) && Fetch(server, args).Some? && Styles.IsDeletion(env.kill)
    ensures l in Slurp(t, server, args, env).table.layers ==> l in Registering(t, server, args, env).table.layers
    ensures l in Slurp(t, server, args, env).table.layers ==> !DeletedItself(t, server, args, env, l)
    ensures Unstranded(t, server, args, env) ==>
              (l in Slurp(t, server, args, env).table.layers
               <==> l in Registering(t, server, args, env).table.layers && !DeletedItself(t, server, args, env, l))
  {
    var mid, marked := Registering(t, server, args, env).table, Marked(t, server, args, env);
    IngestValid(t, Selected(Fetch(server, args).value, args, t.layers), env, args.ignoreErrors);
    SweepLooks(World(mid, server), marked, env.fails, env.kill, |marked|);
    Styles.DeleteFirstShrinks(mid.looks, Ids(marked), env.fails, env.kill, |marked|);
    if l in mid.layers {
      StruckIsDeleted(t, server, args, env, l);
      if Unstranded(t, server, args, env) {
        Styles.LeftExactly(mid.looks, Ids(marked), env.fails, env.kill, l.id);
      }
    }
  }

  /** What is left of the table after any run that strands no layer: all rows but those deleted themselves. */
  lemma SurvivesExactly(t: Table, server: Server, args: Args, env: Env, l: Layer)
    requires ValidTable(t) && Fetch(server, args).Some? && Styles.IsDeletion(env.kill)
    requires Unstranded(t, server, args, env)
    ensures l in Slurp(t, server, args, env).table.layers
       <==> l in Registering(t, server, args, env).table.layers && !DeletedItself(t, server, args, env, l)
  {
    SlurpRows(t, server, args, env, l);
  }

  /** Every deletion of a run takes its own row and no other, if and only if the run strands no layer. */
  lemma NothingElseGoesExactly(t: Table, server: Server, args: Args, env: Env)
    requires ValidTable(t) && Fetch(server, args).Some? && Styles.IsDeletion(env.kill)
    ensures var ids, looks := Ids(Marked(t, server, args, env)), Registering(t, server, args, env).table.looks;
            Unstranded(t, server, args, env) <==>
            forall i: nat :: i < |ids| ==> Styles.TakesItsOwn(looks, ids, env.fails, env.kill, i)
  {
    Styles.EachTakesItsOwnExactly(Registering(t, server, args, env).table.looks, Ids(Marked(t, server, args, env)),
        env.fails, env.kill);
  }

  /** With every default among its layer's styles no run strands a layer. */
  lemma SoundIsUnstranded(t: Table, server: Server, args: Args, env: Env)
    requires Fetch(server, args).Some? && Styles.Sound(Registering(t, server, args, env).table.looks)
    ensures Unstranded(t, server, args, env)
  {
    Styles.SoundIsHarmlessForAll(Registering(t, server, args, env).table.looks, Ids(Marked(t, server, args, env)),
        env.fails);
  }

  /** The styles saved with a resource's row leave its stored default among them. */
  predicate KeepsDefault(t: Table, r: Resource, look: Option<Look>) {
    forall l :: l in Named(t.layers, r.name) && look.Some? ==>
      Styles.KeepsDefault(t.looks, Styles.Update(l.id, look.value.default, look.value.alternates, look.value.saved))
  }

  lemma RegisterSound(t: Table, r: Resource, fault: Fault, look: Option<Look>)
    requires Styles.Sound(t.looks) && KeepsDefault(t, r, look)
    ensures Styles.Sound(Register(t, r, fault, look).0.looks)
  {
    var found := Named(t.layers, r.name);
    var before, id := if found == [] then Extended(t, r) else t, if found == [] then t.nextId else found[0].id;
    assert Styles.Sound(before.looks);
    if look.Some? && id in before.looks.layers {
      Styles.SetStylesSoundExactly(before.looks, id, look.value.default, look.value.alternates, look.value.saved);
      assert found != [] ==> found[0] in found;
    }
  }

  /** Registering keeps every default among its layer's styles if every save does. */
  lemma {:induction false} IngestSound(t: Table, rs: seq<Resource>, env: Env, ignoreErrors: bool)
    requires Styles.Sound(t.looks)
    requires forall i :: 0 <= i < |rs| ==>
        KeepsDefault(Ingest(t, rs[..i], env, ignoreErrors).table, rs[i], env.looks(i))
    ensures Styles.Sound(Ingest(t, rs, env, ignoreErrors).table.looks)
  {
    if rs != [] {
      var n := |rs| - 1;
      forall i | 0 <= i < n ensures KeepsDefault(Ingest(t, rs[..n][..i], env, ignoreErrors).table, rs[..n][i],
          env.looks(i)) {
        assert rs[..n][..i] == rs[..i];
      }
      IngestSound(t, rs[..n], env, ignoreErrors);
      RegisterSound(Ingest(t, rs[..n], env, ignoreErrors).table, rs[n], env.faults(n), env.looks(n));
    }
  }

  /** A layer created in a run is still there when the run ends, unless a layer is stranded. */
  lemma NewSurvives(t: Table, server: Server, args: Args, env: Env, l: Layer)
    requires ValidTable(t) && Fetch(server, args).Some? && Styles.IsDeletion(env.kill)
    requires Unstranded(t, server, args, env)
    requires l in Registering(t, server, args, env).table.layers && l !in t.layers
    ensures l in Slurp(t, server, args, env).table.layers
  {
    NewIsNeverStale(t, server, args, env, l);
    DeletedIsMarked(t, server, args, env, l);
    SurvivesExactly(t, server, args, env, l);
  }

  /** What the caller asked for. */
  predicate Requested(args: Args, l: Layer) {
    && (args.workspace.Some? ==> l.workspace == args.workspace.value)
    && (args.store.Some? ==> l.store == args.store.value)
  }

  predicate WorkspaceKnown(server: Server, args: Args) {
    args.workspace.Some? ==> args.workspace.value in server.workspaces
  }

  /** A deletion does what deletions do, and the run strands no layer. */
  ghost predicate Proper(t: Table, server: Server, args: Args, env: Env) {
    ValidTable(t) && Styles.IsDeletion(env.kill) && (Fetch(server, args).Some? ==> Unstranded(t, server, args, env))
  }

  /** A layer survives every run that strands none, unless it is in scope and has no live resource. */
  lemma SurvivesUnlessStale(t: Table, server: Server, args: Args, env: Env, l: Layer)
    requires Proper(t, server, args, env) && l in t.layers
    requires Fetch(server, args).Some? ==>
        !InScope(server, args, l) || Matched(Live(Fetch(server, args).value, args), l)
    ensures l in Slurp(t, server, args, env).table.layers
  {
    if Fetch(server, args).Some? {
      IngestAppends(t, Selected(Fetch(server, args).value, args, t.layers), env, args.ignoreErrors);
      DeletedIsMarked(t, server, args, env, l);
      SurvivesExactly(t, server, args, env, l);
    }
  }

  lemma DeletedIsMarked(t: Table, server: Server, args: Args, env: Env, l: Layer)
    requires Fetch(server, args).Some?
    ensures DeletedItself(t, server, args, env, l) ==> l in Marked(t, server, args, env)
    ensures l in Marked(t, server, args, env) && Smooth(env) ==> DeletedItself(t, server, args, env, l)
  {
  }

  ghost predicate SparesOthers(server: Server, args: Args) {
    forall t, env, l :: Proper(t, server, args, env) && l in t.layers && !Requested(args, l) ==>
        l in Slurp(t, server, args, env).table.layers
  }

  /** Nothing fails, no styles are saved, and a deletion takes along what it strands. */
  const PLAIN: Env := Env((i: nat) => Fine, (i: nat) => None, (i: nat) => false, Styles.Cascade)

  /** A table of one row without styles. */
  function Lone(l: Layer): Table {
    Table([l], l.id + 1, Styles.State(map[l.id := Styles.LayerRow(None, {}, true)], {}))
  }

  lemma LoneIsProper(l: Layer, server: Server, args: Args)
    requires Fetch(server, args).Some?
    ensures Proper(Lone(l), server, args, PLAIN)
  {
    var rs := Selected(Fetch(server, args).value, args, [l]);
    Styles.CascadeIsDeletion();
    assert l in Lone(l).layers;
    forall i | 0 <= i < |rs| ensures KeepsDefault(Ingest(Lone(l), rs[..i], PLAIN, args.ignoreErrors).table, rs[i],
        PLAIN.looks(i)) {
    }
    IngestSound(Lone(l), rs, PLAIN, args.ignoreErrors);
    SoundIsUnstranded(Lone(l), server, args, PLAIN);
  }

  lemma LoneStaleGoes(l: Layer, server: Server, args: Args)
    requires args.removeDeleted && Fetch(server, args).Some? && InScope(server, args, l)
    requires !Matched(Live(Fetch(server, args).value, args), l)
    ensures Proper(Lone(l), server, args, PLAIN) && l !in Slurp(Lone(l), server, args, PLAIN).table.layers
  {
    var t, rs := Lone(l), Selected(Fetch(server, args).value, args, [l]);
    LoneIsProper(l, server, args);
    IngestAppends(t, rs, PLAIN, args.ignoreErrors);
    SmoothIngest(t, rs, PLAIN, args.ignoreErrors);
    assert l in t.layers;
    DeletedIsMarked(t, server, args, PLAIN, l);
    SlurpRows(t, server, args, PLAIN, l);
  }

  /**
   Runs that delete and strand no layer leave layers outside the requested workspace and store alone exactly if the
   workspace is known to the server.
   */
  lemma SparesOthersExactly(server: Server, args: Args)
    requires args.removeDeleted
    ensures SparesOthers(server, args) <==> WorkspaceKnown(server, args)
  {
    if WorkspaceKnown(server, args) {
      forall t, env, l | Proper(t, server, args, env) && l in t.layers && !Requested(args, l)
        ensures l in Slurp(t, server, args, env).table.layers
      {
        SurvivesUnlessStale(t, server, args, env, l);
      }
    } else {
      var l := UnknownWorkspaceWipes(server, args, args.workspace.value + "x");
      assert l in Lone(l).layers && !Requested(args, l);
    }
  }

  /** With an unknown workspace a run deletes a layer of any workspace (in the given store, if any). */
  lemma UnknownWorkspaceWipes(server: Server, args: Args, other: string) returns (l: Layer)
    requires args.removeDeleted && !WorkspaceKnown(server, args)
    ensures l.workspace == other
    ensures Proper(Lone(l), server, args, PLAIN) && l !in Slurp(Lone(l), server, args, PLAIN).table.layers
  {
    l := Layer(0, "roads", other, args.store.GetOr("s"), other + ":roads");
    assert Fetch(server, args) == Some([]);
    LoneStaleGoes(l, server, args);
  }

  /** Layers that copy a live resource of the server, fetched or not, survive. */
  ghost predicate SparesLive(server: Server, args: Args) {
    forall t, env, l :: Proper(t, server, args, env) && l in t.layers && Matched(Live(server.resources, args), l) ==>
      l in Slurp(t, server, args, env).table.layers
  }

  /** No live resource is in scope for deletion without having been fetched. */
  predicate ScopeFetched(server: Server, args: Args) {
    Fetch(server, args).Some? ==>
      forall r :: r in Live(server.resources, args) && InScope(server, args, NewLayer(0, r)) ==>
          r in Fetch(server, args).value
  }

  /**
   Layers of live resources are spared by such runs exactly if the scope was fetched: not so for a store name that
   several workspaces share.
   */
  lemma SparesLiveExactly(server: Server, args: Args)
    requires args.removeDeleted
    ensures SparesLive(server, args) <==> ScopeFetched(server, args)
  {
    if ScopeFetched(server, args) {
      forall t, env, l | Proper(t, server, args, env) && l in t.layers && Matched(Live(server.resources, args), l)
        ensures l in Slurp(t, server, args, env).table.layers
      {
        var r :| r in Live(server.resources, args) && r.name == l.name && r.workspace == l.workspace
            && r.store == l.store;
        SurvivesUnlessStale(t, server, args, env, l);
      }
    } else {
      var r :| r in Live(server.resources, args) && InScope(server, args, NewLayer(0, r))
          && r !in Fetch(server, args).value;
      var l := NewLayer(0, r);
      assert !Matched(Live(Fetch(server, args).value, args), l);
      LoneStaleGoes(l, server, args);
      assert l in Lone(l).layers && Matched(Live(server.resources, args), l);
    }
  }

  // ---- A layer taken along through a style ----

  /** A server that has lost all its resources, asked for its one workspace. */
  const EMPTIED := Server({"w2"}, map[], "w2", [], None, true)
  const CLEAN_W2 := Args(Some("w2"), None, None, false, false, true, true)

  /** Layer 1 of another workspace has a stored default that is not among its styles; stale layer 2 is its only user. */
  function Entangled(p: string): Table {
    Table([Layer(1, "a", "w1", "s", "w1:a"), Layer(2, "b", "w2", "s", "w2:b")], 3,
          Styles.State(map[1 := Styles.LayerRow(Some(p), {}, true), 2 := Styles.LayerRow(None, {p}, true)], {p}))
  }

  /** Asked for one workspace the server knows, a run deletes a layer of another one with it. */
  lemma StrandedLayerGoes(p: string, env: Env)
    requires Styles.IsDeletion(env.kill) && !env.fails(0)
    ensures ValidTable(Entangled(p)) && WorkspaceKnown(EMPTIED, CLEAN_W2)
    ensures !Requested(CLEAN_W2, Entangled(p).layers[0])
    ensures Slurp(Entangled(p), EMPTIED, CLEAN_W2, env).table.layers == []
    ensures !Unstranded(Entangled(p), EMPTIED, CLEAN_W2, env)
  {
    var t := Entangled(p);
    var one, two := t.layers[0], t.layers[1];
    assert forall l :: l in t.layers <==> l == one || l == two;
    assert Fetch(EMPTIED, CLEAN_W2) == Some([]);
    assert Registering(t, EMPTIED, CLEAN_W2, env) == Progress(t, [], false);
    assert Marked(t, EMPTIED, CLEAN_W2, env) == [two] by {
      var stale := Stale(EMPTIED, CLEAN_W2, [], t.layers);
      assert t.layers == [one] + [two];
      assert !InScope(EMPTIED, CLEAN_W2, one) && InScope(EMPTIED, CLEAN_W2, two) && !Matched([], two);
    }
    Styles.EndangeredPair(t.looks, p, env.kill);
    assert SweepFirst(World(t, EMPTIED), [two], env.fails, env.kill, 1).table.layers
        == Rows(t.layers, env.kill(t.looks, 2));
    EntangledStrands(p, env.fails);
  }

  lemma EntangledStrands(p: string, fails: nat -> bool)
    requires !fails(0)
    ensures !Styles.Harmless(Entangled(p).looks, Ids([Entangled(p).layers[1]]), fails)
  {
    var looks, ids := Entangled(p).looks, Ids([Entangled(p).layers[1]]);
    assert Styles.Users(looks.layers, p) == {2};
    assert Styles.Struck(ids, fails, 1, 2);
    assert Styles.Strands(looks, ids, fails, 0, p, 1);
    assert Styles.StrandsSome(looks, ids, fails, 0);
  }

  // ---- What the server loses in a run ----

  lemma PurgedIsLess(server: Server, r: Resource)
    requires r in server.resources
    ensures |Purged(server, r).resources| < |server.resources|
    ensures forall q :: q in Purged(server, r).resources ==> q in server.resources
  {
    FilterLess(server.resources, r);
  }

  lemma {:induction false} FilterLess(rs: seq<Resource>, r: Resource)
    requires r in rs
    ensures |Filter(rs, (q: Resource) => q != r)| < |rs|
  {
    if rs[0] != r {
      FilterLess(rs[1..], r);
    }
  }

  lemma ReachedIsThere(server: Server, l: Layer)
    ensures Reached(server, l).Some? ==> Reached(server, l).value in server.resources
  {
    var found := Candidates(server, TargetOf(l.typename));
    assert found != [] ==> found[0] in found;
  }

  /** The server keeps or loses resources; it is left as it is exactly if no local row reaches one. */
  lemma {:induction false} PurgeLeavesExactly(server: Server, rows: seq<Layer>, looks: Styles.State)
    ensures var after := PurgeRows(server, rows, looks);
            && (after == server || |after.resources| < |server.resources|)
            && (after == server <==> forall l :: l in rows && IsLocal(looks, l) ==> Reached(server, l).None?)
    decreases |rows|
  {
    if rows != [] {
      var l, rest := rows[0], rows[1..];
      assert forall m :: m in rows <==> m == l || m in rest;
      ReachedIsThere(server, l);
      if IsLocal(looks, l) && Reached(server, l).Some? {
        var next := Purged(server, Reached(server, l).value);
        PurgedIsLess(server, Reached(server, l).value);
        PurgeLeavesExactly(next, rest, looks);
      } else {
        PurgeLeavesExactly(server, rest, looks);
      }
    }
  }

  /** No row that is lost on the way reaches a resource. */
  ghost predicate NothingReached(w: World, layers: seq<Layer>) {
    forall l :: l in w.table.layers && l !in layers && IsLocal(w.table.looks, l) ==> Reached(w.server, l).None?
  }

  lemma {:induction false} SweepLeavesExactly(
      w: World, marked: seq<Layer>, fails: nat -> bool, kill: (Styles.State, nat) -> Styles.State, n: nat)
    requires ValidTable(w.table) && Styles.IsDeletion(kill) && n <= |marked|
    ensures var after := SweepFirst(w, marked, fails, kill, n);
            && (after.server == w.server || |after.server.resources| < |w.server.resources|)
            && (after.server == w.server <==> NothingReached(w, after.table.layers))
  {
    if n > 0 {
      SweepLeavesExactly(w, marked, fails, kill, n - 1);
      var now := SweepFirst(w, marked, fails, kill, n - 1);
      SweepLooks(w, marked, fails, kill, n - 1);
      Styles.DeleteFirstShrinks(w.table.looks, Ids(marked), fails, kill, n - 1);
      if !fails(n - 1) {
        StrikeLeavesExactly(w, now, marked[n - 1], kill);
      }
    }
  }

  /** One more deletion, after some that were made in the world w. */
  lemma StrikeLeavesExactly(w: World, now: World, l: Layer, kill: (Styles.State, nat) -> Styles.State)
    requires forall m :: m in now.table.layers ==>
        m in w.table.layers && IsLocal(now.table.looks, m) == IsLocal(w.table.looks, m)
    requires now.server == w.server || |now.server.resources| < |w.server.resources|
    requires now.server == w.server <==> NothingReached(w, now.table.layers)
    ensures var after := Strike(now, l, kill);
            && (after.server == w.server || |after.server.resources| < |w.server.resources|)
            && (after.server == w.server <==> NothingReached(w, after.table.layers))
  {
    if l.id in now.table.looks.layers {
      var looks := kill(now.table.looks, l.id);
      var lost, left := LostRows(now.table.layers, looks), Rows(now.table.layers, looks);
      PurgeLeavesExactly(now.server, lost, now.table.looks);
    }
  }

  /** A run leaves the server as it is if and only if no local row it loses reaches a resource there. */
  lemma LeavesServerExactly(t: Table, server: Server, args: Args, env: Env)
    requires ValidTable(t) && Fetch(server, args).Some? && Styles.IsDeletion(env.kill)
    ensures Slurp(t, server, args, env).server == server
       <==> NothingReached(World(Registering(t, server, args, env).table, server),
           Slurp(t, server, args, env).table.layers)
  {
    var marked := Marked(t, server, args, env);
    IngestValid(t, Selected(Fetch(server, args).value, args, t.layers), env, args.ignoreErrors);
    SweepLeavesExactly(World(Registering(t, server, args, env).table, server), marked, env.fails, env.kill, |marked|);
  }

  /** The row is local, and the resource it reaches on the server would go with it. */
  predicate Reaches(server: Server, looks: Styles.State, l: Layer) {
    IsLocal(looks, l) && Reached(server, l).Some?
  }

  /**
   Told before the first deletion: a run that strands no layer leaves the server alone exactly if no local row it
   deletes reaches a resource.
   */
  lemma LeavesServerUnstranded(t: Table, server: Server, args: Args, env: Env)
    requires ValidTable(t) && Fetch(server, args).Some? && Styles.IsDeletion(env.kill)
    requires Unstranded(t, server, args, env)
    ensures Slurp(t, server, args, env).server == server
       <==> forall l :: DeletedItself(t, server, args, env, l) ==>
           !Reaches(server, Registering(t, server, args, env).table.looks, l)
  {
    var mid := Registering(t, server, args, env).table;
    LeavesServerExactly(t, server, args, env);
    forall l ensures DeletedItself(t, server, args, env, l)
                <==> l in mid.layers && l !in Slurp(t, server, args, env).table.layers
    {
      DeletedIsMarked(t, server, args, env, l);
      SurvivesExactly(t, server, args, env, l);
    }
  }

  // ---- What exactly the server loses ----

  /** The resources taken one by one, and the stores that go. */
  datatype Loss = Loss(resources: set<Resource>, stores: set<(string, string)>)

  function Both(a: Loss, b: Loss): Loss {
    Loss(a.resources + b.resources, a.stores + b.stores)
  }

  /** A coverage store goes with its resource, another file store if it holds no other. */
  function StoresOf(server: Server, r: Resource): set<(string, string)> {
    var place := (r.workspace, r.store);
    if place !in server.stores then {}
    else
      match server.stores[place]
      case Coverage => {place}
      case OtherKind => if exists q :: q in server.resources && q != r && At(q, place) then {} else {place}
      case _ => {}
  }

  function LossOf(server: Server, looks: Styles.State, l: Layer): Loss {
    var reached := if IsLocal(looks, l) then Reached(server, l) else None;
    if reached.None? then Loss({}, {}) else Loss({reached.value}, StoresOf(server, reached.value))
  }

  function PurgeOne(server: Server, looks: Styles.State, l: Layer): Server {
    var reached := if IsLocal(looks, l) then Reached(server, l) else None;
    if reached.None? then server else Purged(server, reached.value)
  }

  /** The losses of rows that go one after the other, each told by the server as it is then. */
  function PurgeLoss(server: Server, rows: seq<Layer>, looks: Styles.State): Loss
    decreases |rows|
  {
    if rows == [] then Loss({}, {})
    else Both(LossOf(server, looks, rows[0]), PurgeLoss(PurgeOne(server, looks, rows[0]), rows[1..], looks))
  }

  function StrikeLoss(w: World, l: Layer, kill: (Styles.State, nat) -> Styles.State): Loss {
    if l.id !in w.table.looks.layers then Loss({}, {})
    else PurgeLoss(w.server, LostRows(w.table.layers, kill(w.table.looks, l.id)), w.table.looks)
  }

  function SweepLoss(
      w: World, marked: seq<Layer>, fails: nat -> bool, kill: (Styles.State, nat) -> Styles.State, n: nat): Loss
    requires n <= |marked|
  {
    if n == 0 then Loss({}, {})
    else
      var before := SweepLoss(w, marked, fails, kill, n - 1);
      if fails(n - 1) then before
      else Both(before, StrikeLoss(SweepFirst(w, marked, fails, kill, n - 1), marked[n - 1], kill))
  }

  /** What a run takes from the server. */
  function RunLoss(t: Table, server: Server, args: Args, env: Env): Loss {
    if Fetch(server, args).None? then Loss({}, {})
    else
      var marked := Marked(t, server, args, env);
      SweepLoss(World(Registering(t, server, args, env).table, server), marked, env.fails, env.kill, |marked|)
  }

  /** The server after a loss: what was not taken, in the stores that are left, and everything else as before. */
  ghost predicate Bereft(before: Server, loss: Loss, after: Server) {
    && after == before.(resources := after.resources, stores := after.stores)
    && after.stores == before.stores - loss.stores
    && forall r :: r in after.resources
        <==> r in before.resources && r !in loss.resources && (r.workspace, r.store) !in loss.stores
  }

  lemma BereftTwice(first: Server, a: Loss, second: Server, b: Loss, third: Server)
    requires Bereft(first, a, second) && Bereft(second, b, third)
    ensures Bereft(first, Both(a, b), third)
  {
    assert first.stores - a.stores - b.stores == first.stores - (a.stores + b.stores);
  }

  lemma PurgedExactly(server: Server, r: Resource)
    ensures Bereft(server, Loss({r}, StoresOf(server, r)), Purged(server, r))
  {
  }

  lemma {:induction false} PurgeLossExactly(server: Server, rows: seq<Layer>, looks: Styles.State)
    ensures Bereft(server, PurgeLoss(server, rows, looks), PurgeRows(server, rows, looks))
    decreases |rows|
  {
    if rows != [] {
      var next := PurgeOne(server, looks, rows[0]);
      var reached := Reached(server, rows[0]);
      if IsLocal(looks, rows[0]) && reached.Some? {
        PurgedExactly(server, reached.value);
      }
      PurgeLossExactly(next, rows[1..], looks);
      BereftTwice(server, LossOf(server, looks, rows[0]), next, PurgeLoss(next, rows[1..], looks),
          PurgeRows(next, rows[1..], looks));
    }
  }

  lemma {:induction false} SweepLossExactly(
      w: World, marked: seq<Layer>, fails: nat -> bool, kill: (Styles.State, nat) -> Styles.State, n: nat)
    requires n <= |marked|
    ensures Bereft(w.server, SweepLoss(w, marked, fails, kill, n), SweepFirst(w, marked, fails, kill, n).server)
  {
    if n > 0 {
      SweepLossExactly(w, marked, fails, kill, n - 1);
      var now := SweepFirst(w, marked, fails, kill, n - 1);
      if !fails(n - 1) && marked[n - 1].id in now.table.looks.layers {
        var lost := LostRows(now.table.layers, kill(now.table.looks, marked[n - 1].id));
        var after := PurgeRows(now.server, lost, now.table.looks);
        PurgeLossExactly(now.server, lost, now.table.looks);
        BereftTwice(w.server, SweepLoss(w, marked, fails, kill, n - 1), now.server,
            PurgeLoss(now.server, lost, now.table.looks), after);
      }
    }
  }

  /** After any run, what is left on the server is what was there before without the loss of the run. */
  lemma ServerLossExactly(t: Table, server: Server, args: Args, env: Env)
    ensures Bereft(server, RunLoss(t, server, args, env), Slurp(t, server, args, env).server)
  {
    if Fetch(server, args).Some? {
      var marked := Marked(t, server, args, env);
      SweepLossExactly(World(Registering(t, server, args, env).table, server), marked, env.fails, env.kill, |marked|);
    }
  }
}
