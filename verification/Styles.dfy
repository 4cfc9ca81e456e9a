/**
 Which styles a layer owns and what happens to them when it is deleted
 (geonode/geoserver/helpers.py, set_styles; geonode/layers/models.py, pre_delete_layer and post_delete_layer).
 */
module Styles {
  import opened Lists

  /**
   A layer row: its default style, the styles associated with it, and whether it is local (not of a remote
   service).
   */
  datatype LayerRow = LayerRow(default: Option<string>, styles: set<string>, local: bool)

  datatype State = State(layers: map<nat, LayerRow>, styles: set<string>)

  /** Every layer's default style is among its styles, and the styles exist. */
  ghost predicate Sound(s: State) {
    forall id :: id in s.layers ==>
      s.layers[id].styles <= s.styles && (s.layers[id].default.Some? ==>
          s.layers[id].default.value in s.layers[id].styles)
  }

  /** The layers a style is associated with. */
  function Users(layers: map<nat, LayerRow>, style: string): set<nat> {
    set id | id in layers && style in layers[id].styles
  }

  /**
   Deleting a style row: associations go with it, and so does every layer whose default it is (cascading foreign
   key).
   */
  function DeleteStyle(s: State, style: string): State {
    State(
      map id | id in s.layers && s.layers[id].default != Some(style)
        :: s.layers[id].(styles := s.layers[id].styles - {style}),
      s.styles - {style})
  }

  predicate IsDefault(layers: map<nat, LayerRow>, style: string) {
    exists id :: id in layers && layers[id].default == Some(style)
  }

  // ---- Updating a layer's styles from the server ----

  /** The associations are stored at once; the new default only if the layer is saved afterwards. */
  function SetStyles(s: State, id: nat, default: string, alternates: set<string>, saved: bool): State
    requires id in s.layers
  {
    var row := s.layers[id];
    State(
      s.layers[id := LayerRow(if saved then Some(default) else row.default, {default} + alternates, row.local)],
      s.styles + {default} + alternates)
  }

  /** The update keeps the invariant exactly if the layer is saved or its old default is still one of its styles. */
  lemma SetStylesSoundExactly(s: State, id: nat, default: string, alternates: set<string>, saved: bool)
    requires Sound(s) && id in s.layers
    ensures Sound(SetStyles(s, id, default, alternates, saved))
       <==> saved || s.layers[id].default.None? || s.layers[id].default.value in {default} + alternates
  {
    var after := SetStyles(s, id, default, alternates, saved);
    assert id in after.layers;
    forall j | j in after.layers && j != id ensures after.layers[j].styles <= after.styles {
      assert s.layers[j].styles <= s.styles;
    }
  }

  // ---- Deleting a layer ----

  /** The styles removed before the row goes: used by this layer alone, and not its default. */
  function Owned(s: State, id: nat): set<string>
    requires id in s.layers
  {
    set t | t in s.layers[id].styles && Users(s.layers, t) == {id} && s.layers[id].default != Some(t)
  }

  /** The default style goes too when no other layer has it for its default. */
  predicate DropsDefault(s: State, id: nat)
    requires id in s.layers
  {
    s.layers[id].default.Some? && forall j :: j in s.layers && j != id ==> s.layers[j].default != s.layers[id].default
  }

  /** The outcome of deleting a layer, provided nothing cascades. */
  function DeleteLayer(s: State, id: nat): State
    requires id in s.layers
  {
    var row := s.layers[id];
    if !row.local then State(s.layers - {id}, s.styles)
    else
      var gone := if DropsDefault(s, id) then {row.default.value} else {};
      State(map j | j in s.layers && j != id ::
          s.layers[j].(styles := s.layers[j].styles - gone), s.styles - Owned(s, id) - gone)
  }

  /** A style only this layer uses, which is not its default, is another layer's default. */
  predicate Hazard(s: State, id: nat, t: string, j: nat)
    requires id in s.layers
  {
    s.layers[id].local && t in Owned(s, id) && j in s.layers && j != id && s.layers[j].default == Some(t)
  }

  predicate Hazardous(s: State, id: nat)
    requires id in s.layers
  {
    exists t, j :: t in s.layers[id].styles && j in s.layers && Hazard(s, id, t, j)
  }

  /**
   What a deletion that goes through comes to, in whatever order the styles are visited and whatever a lost layer
   takes along in its turn.
   */
  ghost predicate Deleted(s: State, id: nat, after: State)
    requires id in s.layers
  {
    if !Hazardous(s, id) then after == DeleteLayer(s, id)
    else
      && after.layers.Keys < s.layers.Keys - {id}
      && forall j :: j in after.layers ==>
          after.layers[j].default == s.layers[j].default && after.layers[j].local == s.layers[j].local
  }

  ghost predicate Deletes(kill: (State, nat) -> State, s: State, id: nat) {
    id in s.layers ==> Deleted(s, id, kill(s, id))
  }

  ghost predicate IsDeletion(kill: (State, nat) -> State) {
    forall s: State, id: nat {:trigger Deletes(kill, s, id)} :: Deletes(kill, s, id)
  }

  /** One such deletion: the owned styles go at once, with the layers that have them for their default. */
  function Cascade(s: State, id: nat): State {
    if id !in s.layers then s
    else if Hazardous(s, id) then
      State(map j | j in s.layers && j != id && !Taken(s, id, j) :: s.layers[j], s.styles - Owned(s, id))
    else DeleteLayer(s, id)
  }

  predicate Taken(s: State, id: nat, j: nat)
    requires id in s.layers && j in s.layers
  {
    s.layers[j].default.Some? && Hazard(s, id, s.layers[j].default.value, j)
  }

  lemma CascadeIsDeletion()
    ensures IsDeletion(Cascade)
  {
    forall s: State, id: nat ensures Deletes(Cascade, s, id) {
      if id in s.layers && Hazardous(s, id) {
        var t, j :| t in s.layers[id].styles && j in s.layers && Hazard(s, id, t, j);
        assert Taken(s, id, j) && j !in Cascade(s, id).layers && j in s.layers.Keys - {id};
      }
    }
  }

  lemma SoundIsHarmless(s: State, id: nat)
    requires Sound(s) && id in s.layers
    ensures !Hazardous(s, id)
  {
    forall t, j | t in s.layers[id].styles && j in s.layers && j != id
        && s.layers[j].default == Some(t) ensures t !in Owned(s, id) {
      assert j in Users(s.layers, t);
    }
  }

  // ---- The state in the middle of pre_delete_layer, with the styles still to visit ----

  /** What holds whatever has cascaded: nothing grows, and the layer itself is still there. */
  ghost predicate Shrunk(start: State, now: State, id: nat, todo: set<string>) {
    && id in now.layers && now.layers.Keys <= start.layers.Keys
    && (forall j :: j in now.layers ==> now.layers[j].styles <= start.layers[j].styles
                                        && now.layers[j].default == start.layers[j].default
                                            && now.layers[j].local == start.layers[j].local)
    && todo <= now.layers[id].styles
  }

  /** Only owned styles have gone, and no other layer has changed. */
  ghost predicate Untouched(start: State, now: State, id: nat, todo: set<string>)
    requires id in start.layers
  {
    && now.styles == start.styles - (Owned(start, id) - todo)
    && now.layers.Keys == start.layers.Keys
    && forall j :: j in now.layers && j != id ==> now.layers[j] == start.layers[j]
  }

  /** Layers endangered by a style already visited are gone. */
  ghost predicate Reached(start: State, now: State, id: nat, todo: set<string>)
    requires id in start.layers
  {
    forall t, j :: j in start.layers && Hazard(start, id, t, j) && t !in todo ==> j !in now.layers
  }

  /** One style visited: deleted if this layer is its only user and it is not the default. */
  function Visit(now: State, id: nat, t: string): State
    requires id in now.layers
  {
    if Users(now.layers, t) == {id} && now.layers[id].default != Some(t) then DeleteStyle(now, t) else now
  }

  lemma VisitLeavesOthers(start: State, now: State, id: nat, todo: set<string>, t: string)
    requires id in start.layers && start.layers[id].local && !Hazardous(start, id)
    requires Shrunk(start, now, id, todo) && Untouched(start, now, id, todo) && t in todo
    ensures Untouched(start, Visit(now, id, t), id, todo - {t})
  {
    assert t in start.layers[id].styles;
    assert Users(now.layers, t) == Users(start.layers, t);
    if t in Owned(start, id) {
      forall j | j in now.layers && j != id ensures now.layers[j].default != Some(t) && t !in now.layers[j].styles {
        assert !Hazard(start, id, t, j);
        assert j !in Users(start.layers, t);
      }
      assert forall j :: j in now.layers && j != id ==> now.layers[j].styles - {t} == now.layers[j].styles;
    }
  }

  class StyleStore {
    var layers: map<nat, LayerRow>
    var styles: set<string>

    constructor (s: State)
      ensures layers == s.layers && styles == s.styles
    {
      layers, styles := s.layers, s.styles;
    }

    function Get(): State
      reads this
    {
      State(layers, styles)
    }

    /** The style goes, its associations go, and every layer goes that has it for its default; all else stays. */
    method DropStyle(style: string)
      modifies this
      ensures styles == old(styles) - {style}
      ensures forall id :: id in layers <==> id in old(layers) && old(layers)[id].default != Some(style)
      ensures forall id :: id in layers ==>
          layers[id].default == old(layers)[id].default && layers[id].local == old(layers)[id].local
      ensures forall id :: id in layers ==> layers[id].styles == old(layers)[id].styles - {style}
    {
      var after := DeleteStyle(Get(), style);
      layers, styles := after.layers, after.styles;
    }

    /** save_style for every style the server names, then the associations. */
    method Update(id: nat, default: string, alternates: seq<string>, saved: bool)
      requires id in layers
      modifies this
      ensures layers.Keys == old(layers).Keys && forall j :: j in layers && j != id ==> layers[j] == old(layers)[j]
      ensures forall t :: t in layers[id].styles <==> t == default || t in alternates
      ensures layers[id].default == if saved then Some(default) else old(layers)[id].default
      ensures layers[id].local == old(layers)[id].local
      ensures forall t :: t in styles <==> t in old(styles) || t == default || t in alternates
      ensures Get() == SetStyles(old(Get()), id, default, Elements(alternates), saved)
    {
      var styleSet := {default};
      styles := styles + {default};
      for i := 0 to |alternates|
        invariant styleSet == {default} + Elements(alternates[..i])
        invariant styles == old(styles) + {default} + Elements(alternates[..i]) && layers == old(layers)
      {
        assert alternates[..i + 1] == alternates[..i] + [alternates[i]];
        ElementsSnoc(alternates[..i], alternates[i]);
        styles := styles + {alternates[i]};
        styleSet := styleSet + {alternates[i]};
      }
      assert alternates[..|alternates|] == alternates;
      var row := layers[id];
      layers := layers[id := LayerRow(if saved then Some(default) else row.default, styleSet, row.local)];
    }

    /** pre_delete_layer: walks over the layer's styles in any order, counting users as it goes. */
    method PreDelete(id: nat)
      requires id in layers
      modifies this
      ensures Shrunk(old(Get()), Get(), id, {})
      ensures !layers[id].local ==> Get() == old(Get())
      ensures layers[id].local && !Hazardous(old(Get()), id) ==> Untouched(old(Get()), Get(), id, {})
      ensures layers[id].local ==> Reached(old(Get()), Get(), id, {})
    {
      if !layers[id].local {
        return;
      }
      ghost var start := Get();
      var todo := layers[id].styles;
      while todo != {}
        invariant Shrunk(start, Get(), id, todo) && Reached(start, Get(), id, todo)
        invariant !Hazardous(start, id) ==> Untouched(start, Get(), id, todo)
        decreases todo
      {
        var t :| t in todo;
        ghost var now := Get();
        if !Hazardous(start, id) {
          VisitLeavesOthers(start, now, id, todo, t);
        }
        SingleUser(Users(layers, t), id);
        if |Users(layers, t)| == 1 && layers[id].default != Some(t) {
          DropStyle(t);
        }
        assert Get() == Visit(now, id, t);
        todo := todo - {t};
      }
    }

    /** The whole deletion. Another layer is lost exactly in a hazardous store. */
    method Delete(id: nat)
      requires id in layers
      modifies this
      ensures Deleted(old(Get()), id, Get())
      ensures (exists j :: j in old(layers) && j != id && j !in layers) <==> Hazardous(old(Get()), id)
    {
      ghost var start := Get();
      PreDelete(id);
      var row := layers[id];
      layers := layers - {id};
      ghost var mid := Get();
      if row.local && row.default.Some? && !IsDefault(layers, row.default.value) {
        DropStyle(row.default.value);
        assert layers.Keys == mid.layers.Keys;
      }
      if Hazardous(start, id) {
        var t, j :| t in start.layers[id].styles && j in start.layers && Hazard(start, id, t, j);
        assert j !in layers;
      } else if row.local {
        DropsDefaultMeans(start, mid.layers, id);
        forall j | j in mid.layers ensures j in Get().layers && Get().layers[j] == DeleteLayer(start, id).layers[j] {
          assert mid.layers[j].styles - {} == mid.layers[j].styles;
        }
      }
    }
  }

  /** The query of post_delete_layer, made when the layer's own row is gone. */
  lemma DropsDefaultMeans(start: State, others: map<nat, LayerRow>, id: nat)
    requires id in start.layers && others.Keys == start.layers.Keys - {id}
    requires forall j :: j in others ==> others[j].default == start.layers[j].default
    ensures DropsDefault(start, id)
        <==> start.layers[id].default.Some? && !IsDefault(others, start.layers[id].default.value)
  {
    if start.layers[id].default.Some? {
      var t := start.layers[id].default.value;
      if IsDefault(others, t) {
        var j :| j in others && others[j].default == Some(t);
        assert j in start.layers && j != id;
      }
      if j :| j in start.layers && j != id && start.layers[j].default == Some(t) {
        assert j in others && others[j].default == Some(t);
      }
    }
  }

  lemma SingleUser(users: set<nat>, id: nat)
    requires id in users
    ensures |users| == 1 <==> users == {id}
  {
    assert |users - {id}| == |users| - 1;
    assert users - {id} == {} ==> users == {id};
  }

  // ---- Properties of a deletion ----

  lemma DeleteKeepsSound(s: State, id: nat)
    requires Sound(s) && id in s.layers
    ensures Sound(DeleteLayer(s, id))
  {
    var after := DeleteLayer(s, id);
    forall j | j in after.layers
      ensures after.layers[j].styles <= after.styles && (after.layers[j].default.Some? ==>
          after.layers[j].default.value in after.layers[j].styles)
    {
      assert s.layers[j].styles <= s.styles;
      forall t | t in s.layers[j].styles ensures s.layers[id].local ==> t !in Owned(s, id) {
        assert j in Users(s.layers, t);
      }
    }
  }

  /**
   The other layers stay with their default styles; the only style they can lose is the deleted layer's default, as
   an alternate.
   */
  lemma OthersKeepTheirStyles(s: State, id: nat, j: nat)
    requires Sound(s) && id in s.layers && j in s.layers && j != id
    ensures var after := DeleteLayer(s, id);
            j in after.layers && after.layers[j].default == s.layers[j].default
            && (after.layers[j].styles == s.layers[j].styles
                <==> !(s.layers[id].local && DropsDefault(s, id) && s.layers[id].default.value in s.layers[j].styles))
  {
  }

  /**
   After deleting a local layer, a style is left exactly if another layer's default, or used elsewhere without
   being the deleted default, or never the layer's.
   */
  lemma StylesLeftExactly(s: State, id: nat, t: string)
    requires Sound(s) && id in s.layers && s.layers[id].local && t in s.styles
    ensures t in DeleteLayer(s, id).styles
       <==> IsDefault(s.layers - {id}, t)
            || (s.layers[id].default != Some(t) && (t !in s.layers[id].styles || Users(s.layers, t) != {id}))
  {
    var others := s.layers - {id};
    if IsDefault(others, t) {
      var j :| j in others && others[j].default == Some(t);
      assert j in Users(s.layers, t);
    }
    if s.layers[id].default == Some(t) && !DropsDefault(s, id) {
      var j :| j in s.layers && j != id && s.layers[j].default == Some(t);
      assert j in others && others[j].default == Some(t);
    }
  }

  /** In particular no style is left that only the deleted layer used. */
  lemma NoOrphanRemains(s: State, id: nat, t: string)
    requires Sound(s) && id in s.layers && s.layers[id].local
    requires t in s.layers[id].styles && Users(s.layers, t) == {id}
    ensures t !in DeleteLayer(s, id).styles
  {
    StylesLeftExactly(s, id, t);
    forall j | j in s.layers - {id} ensures s.layers[j].default != Some(t) {
      assert j !in Users(s.layers, t);
    }
  }

  // ---- Deleting several layers, one after the other ----

  /** The first n deletions; fails(i) tells whether the i-th fails. A row that is gone already is passed over. */
  function DeleteFirst(s: State, ids: seq<nat>, fails: nat -> bool, kill: (State, nat) -> State, n: nat): State
    requires n <= |ids|
  {
    if n == 0 then s
    else
      var now := DeleteFirst(s, ids, fails, kill, n - 1);
      if fails(n - 1) || ids[n - 1] !in now.layers then now else kill(now, ids[n - 1])
  }

  function DeleteAll(s: State, ids: seq<nat>, fails: nat -> bool, kill: (State, nat) -> State): State {
    DeleteFirst(s, ids, fails, kill, |ids|)
  }

  /** One of the first n deletions is that of the layer, and does not fail. */
  predicate Struck(ids: seq<nat>, fails: nat -> bool, n: nat, id: nat)
    requires n <= |ids|
  {
    exists k :: 0 <= k < n && !fails(k) && ids[k] == id
  }

  /** In the given state the i-th deletion goes through, and is hazardous. */
  predicate TurnsHazardous(now: State, ids: seq<nat>, fails: nat -> bool, i: nat)
    requires i < |ids|
  {
    !fails(i) && ids[i] in now.layers && Hazardous(now, ids[i])
  }

  /** Some of the first n deletions is hazardous when its turn comes. */
  predicate HazardBefore(s: State, ids: seq<nat>, fails: nat -> bool, kill: (State, nat) -> State, n: nat)
    requires n <= |ids|
  {
    exists i: nat :: i < n && TurnsHazardous(DeleteFirst(s, ids, fails, kill, i), ids, fails, i)
  }

  /**
   Read off the store before the first deletion: the i-th layer is the last of all users of a style to go, it does not
   have that style for its default, and a layer that is still there then has.
   */
  predicate Strands(s: State, ids: seq<nat>, fails: nat -> bool, i: nat, t: string, j: nat)
    requires i < |ids|
  {
    && !fails(i) && ids[i] in s.layers && !Struck(ids, fails, i, ids[i])
    && s.layers[ids[i]].local && t in s.layers[ids[i]].styles && s.layers[ids[i]].default != Some(t)
    && (forall u :: u in Users(s.layers, t) ==> Struck(ids, fails, i + 1, u))
    && j in s.layers && j != ids[i] && !Struck(ids, fails, i, j) && s.layers[j].default == Some(t)
  }

  ghost predicate StrandsSome(s: State, ids: seq<nat>, fails: nat -> bool, i: nat)
    requires i < |ids|
  {
    exists t, j :: Strands(s, ids, fails, i, t, j)
  }

  /** No deletion of the list strands a layer. */
  ghost predicate Harmless(s: State, ids: seq<nat>, fails: nat -> bool) {
    forall i: nat :: i < |ids| ==> !StrandsSome(s, ids, fails, i)
  }

  /**
   The state after some deletions none of which was hazardous: a style can only be missing if it is nobody's
   default.
   */
  ghost predicate Plain(s: State, ids: seq<nat>, fails: nat -> bool, n: nat, now: State)
    requires n <= |ids|
  {
    && (forall j :: j in now.layers <==> j in s.layers && !Struck(ids, fails, n, j))
    && (forall j :: j in now.layers ==>
        now.layers[j].default == s.layers[j].default && now.layers[j].local == s.layers[j].local)
    && (forall j :: j in now.layers ==> now.layers[j].styles <= s.layers[j].styles)
    && (forall j, t :: j in now.layers && t in s.layers[j].styles && t !in now.layers[j].styles ==>
        !IsDefault(now.layers, t))
  }

  lemma PlainNext(s: State, ids: seq<nat>, fails: nat -> bool, n: nat, now: State, after: State)
    requires n < |ids| && Plain(s, ids, fails, n, now)
    requires after == if fails(n) || ids[n] !in now.layers then now else DeleteLayer(now, ids[n])
    ensures Plain(s, ids, fails, n + 1, after)
  {
    forall j ensures Struck(ids, fails, n + 1, j) <==> Struck(ids, fails, n, j) || (!fails(n) && j == ids[n]) {
    }
    forall j, t | j in after.layers && t in s.layers[j].styles
        && t !in after.layers[j].styles ensures !IsDefault(after.layers, t) {
      if t !in now.layers[j].styles {
        assert !IsDefault(now.layers, t);
      }
    }
  }

  lemma {:induction false} PlainWhileHarmless(
      s: State, ids: seq<nat>, fails: nat -> bool, kill: (State, nat) -> State, n: nat)
    requires IsDeletion(kill) && n <= |ids| && !HazardBefore(s, ids, fails, kill, n)
    ensures Plain(s, ids, fails, n, DeleteFirst(s, ids, fails, kill, n))
  {
    if n > 0 {
      PlainWhileHarmless(s, ids, fails, kill, n - 1);
      var now := DeleteFirst(s, ids, fails, kill, n - 1);
      assert !TurnsHazardous(now, ids, fails, n - 1);
      assert Deletes(kill, now, ids[n - 1]);
      PlainNext(s, ids, fails, n - 1, now, DeleteFirst(s, ids, fails, kill, n));
    }
  }

  /** In a plain state the next deletion is hazardous exactly if it strands a layer. */
  lemma HazardIsStrand(s: State, ids: seq<nat>, fails: nat -> bool, i: nat, now: State)
    requires i < |ids| && Plain(s, ids, fails, i, now)
    ensures TurnsHazardous(now, ids, fails, i) <==> StrandsSome(s, ids, fails, i)
  {
    forall u ensures Struck(ids, fails, i + 1, u) <==> Struck(ids, fails, i, u) || (!fails(i) && u == ids[i]) {
    }
    if TurnsHazardous(now, ids, fails, i) {
      var t, j :| t in now.layers[ids[i]].styles && j in now.layers && Hazard(now, ids[i], t, j);
      assert IsDefault(now.layers, t);
      forall u | u in Users(s.layers, t) ensures Struck(ids, fails, i + 1, u) {
        assert u in now.layers ==> u in Users(now.layers, t);
      }
      assert Strands(s, ids, fails, i, t, j);
    }
    if t, j :| Strands(s, ids, fails, i, t, j) {
      assert IsDefault(now.layers, t);
      assert ids[i] in Users(now.layers, t);
      assert forall u :: u in Users(now.layers, t) ==> u in Users(s.layers, t);
      assert Users(now.layers, t) == {ids[i]};
      assert Hazard(now, ids[i], t, j);
    }
  }

  lemma {:induction false} HarmlessUpTo(
      s: State, ids: seq<nat>, fails: nat -> bool, kill: (State, nat) -> State, n: nat)
    requires IsDeletion(kill) && n <= |ids|
    ensures HazardBefore(s, ids, fails, kill, n) <==> exists i: nat :: i < n && StrandsSome(s, ids, fails, i)
  {
    if n > 0 {
      HarmlessUpTo(s, ids, fails, kill, n - 1);
      if !HazardBefore(s, ids, fails, kill, n - 1) {
        PlainWhileHarmless(s, ids, fails, kill, n - 1);
        HazardIsStrand(s, ids, fails, n - 1, DeleteFirst(s, ids, fails, kill, n - 1));
      }
    }
  }

  /**
   None of the deletions is hazardous when its turn comes if and only if the store shows no stranding before the
   first.
   */
  lemma HarmlessExactly(s: State, ids: seq<nat>, fails: nat -> bool, kill: (State, nat) -> State)
    requires IsDeletion(kill)
    ensures Harmless(s, ids, fails) <==> !HazardBefore(s, ids, fails, kill, |ids|)
  {
    HarmlessUpTo(s, ids, fails, kill, |ids|);
  }

  /** The i-th deletion takes its own layer, unless it fails, and no other. */
  predicate TakesItsOwn(s: State, ids: seq<nat>, fails: nat -> bool, kill: (State, nat) -> State, i: nat)
    requires i < |ids|
  {
    DeleteFirst(s, ids, fails, kill, i + 1).layers.Keys
        == DeleteFirst(s, ids, fails, kill, i).layers.Keys - if fails(i) then {} else {ids[i]}
  }

  lemma TakesItsOwnUnlessHazardous(s: State, ids: seq<nat>, fails: nat -> bool, kill: (State, nat) -> State, i: nat)
    requires IsDeletion(kill) && i < |ids|
    ensures TakesItsOwn(s, ids, fails, kill, i) <==> !TurnsHazardous(DeleteFirst(s, ids, fails, kill, i), ids, fails, i)
  {
    assert Deletes(kill, DeleteFirst(s, ids, fails, kill, i), ids[i]);
  }

  /** Every deletion of the list takes its own layer and no other, if and only if none strands a layer. */
  lemma EachTakesItsOwnExactly(s: State, ids: seq<nat>, fails: nat -> bool, kill: (State, nat) -> State)
    requires IsDeletion(kill)
    ensures Harmless(s, ids, fails) <==> forall i: nat :: i < |ids| ==> TakesItsOwn(s, ids, fails, kill, i)
  {
    HarmlessExactly(s, ids, fails, kill);
    forall i: nat | i < |ids|
      ensures TakesItsOwn(s, ids, fails, kill, i)
          <==> !TurnsHazardous(DeleteFirst(s, ids, fails, kill, i), ids, fails, i)
    {
      TakesItsOwnUnlessHazardous(s, ids, fails, kill, i);
    }
  }

  /** What is left in the end: all layers but those whose deletion went through. */
  lemma LeftExactly(s: State, ids: seq<nat>, fails: nat -> bool, kill: (State, nat) -> State, j: nat)
    requires IsDeletion(kill) && Harmless(s, ids, fails)
    ensures j in DeleteAll(s, ids, fails, kill).layers <==> j in s.layers && !Struck(ids, fails, |ids|, j)
  {
    HarmlessExactly(s, ids, fails, kill);
    PlainWhileHarmless(s, ids, fails, kill, |ids|);
  }

  /** Whatever is hazardous, nothing is added and a layer whose deletion went through is gone. */
  lemma {:induction false} DeleteFirstShrinks(
      s: State, ids: seq<nat>, fails: nat -> bool, kill: (State, nat) -> State, n: nat)
    requires IsDeletion(kill) && n <= |ids|
    ensures DeleteFirst(s, ids, fails, kill, n).layers.Keys <= s.layers.Keys
    ensures forall j :: j in DeleteFirst(s, ids, fails, kill, n).layers ==>
        DeleteFirst(s, ids, fails, kill, n).layers[j].local == s.layers[j].local
    ensures forall j :: Struck(ids, fails, n, j) ==> j !in DeleteFirst(s, ids, fails, kill, n).layers
  {
    if n > 0 {
      DeleteFirstShrinks(s, ids, fails, kill, n - 1);
      var now := DeleteFirst(s, ids, fails, kill, n - 1);
      DeletionShrinks(now, ids[n - 1], kill);
      forall j ensures Struck(ids, fails, n, j)
          <==> Struck(ids, fails, n - 1, j) || (!fails(n - 1) && j == ids[n - 1]) {
      }
    }
  }

  lemma DeletionShrinks(s: State, id: nat, kill: (State, nat) -> State)
    requires IsDeletion(kill)
    ensures id in s.layers ==> kill(s, id).layers.Keys <= s.layers.Keys - {id}
    ensures id in s.layers ==> forall j :: j in kill(s, id).layers ==> kill(s, id).layers[j].local == s.layers[j].local
  {
    assert Deletes(kill, s, id);
  }

  /** In a sound store no list of deletions strands a layer. */
  lemma SoundIsHarmlessForAll(s: State, ids: seq<nat>, fails: nat -> bool)
    requires Sound(s)
    ensures Harmless(s, ids, fails)
  {
    forall i: nat, t, j | i < |ids| ensures !Strands(s, ids, fails, i, t, j) {
      if j in s.layers && s.layers[j].default == Some(t) {
        assert j in Users(s.layers, t);
      }
    }
  }

  // ---- Runs ----

  datatype Step = Add(id: nat, local: bool) | Update(id: nat, default: string, alternates: set<string>,
      saved: bool) | Delete(id: nat)

  function AddLayer(s: State, id: nat, local: bool): State {
    s.(layers := s.layers[id := LayerRow(None, {}, local)])
  }

  function Apply(s: State, step: Step, kill: (State, nat) -> State): State {
    match step
    case Add(id, local) => if id in s.layers then s else AddLayer(s, id, local)
    case Update(id, default, alternates, saved) => if id in s.layers then SetStyles(s, id, default, alternates, saved)
        else s
    case Delete(id) => if id in s.layers then kill(s, id) else s
  }

  function After(s: State, run: seq<Step>, kill: (State, nat) -> State): State {
    if run == [] then s else Apply(After(s, run[..|run| - 1], kill), run[|run| - 1], kill)
  }

  /** An update that is saved, or whose layer has no stored default, or one that is among the new styles. */
  predicate KeepsDefault(s: State, step: Step) {
    step.Update? && step.id in s.layers ==>
      step.saved || s.layers[step.id].default.None?
          || s.layers[step.id].default.value in {step.default} + step.alternates
  }

  lemma StepSoundExactly(s: State, step: Step, kill: (State, nat) -> State)
    requires Sound(s) && IsDeletion(kill)
    ensures Sound(Apply(s, step, kill)) <==> KeepsDefault(s, step)
    ensures step.Delete? ==> Apply(s, step, kill).layers.Keys == s.layers.Keys - {step.id}
  {
    match step {
      case Add(id, local) =>
      case Update(id, default, alternates, saved) =>
        if id in s.layers {
          SetStylesSoundExactly(s, id, default, alternates, saved);
        }
      case Delete(id) =>
        if id in s.layers {
          SoundIsHarmless(s, id);
          assert Deletes(kill, s, id);
          DeleteKeepsSound(s, id);
        }
    }
  }

  ghost predicate EverSound(s: State, run: seq<Step>, kill: (State, nat) -> State) {
    forall i :: 0 <= i <= |run| ==> Sound(After(s, run[..i], kill))
  }

  /** Every update keeps the stored default at its turn. */
  predicate AllKeepDefault(s: State, run: seq<Step>, kill: (State, nat) -> State) {
    forall i :: 0 <= i < |run| ==> KeepsDefault(After(s, run[..i], kill), run[i])
  }

  lemma AfterOneMore(s: State, run: seq<Step>, kill: (State, nat) -> State, i: nat)
    requires i < |run|
    ensures After(s, run[..i + 1], kill) == Apply(After(s, run[..i], kill), run[i], kill)
  {
    assert run[..i + 1][..i] == run[..i];
  }

  lemma {:induction false} SoundUpTo(s: State, run: seq<Step>, kill: (State, nat) -> State, n: nat)
    requires Sound(s) && IsDeletion(kill) && AllKeepDefault(s, run, kill) && n <= |run|
    ensures Sound(After(s, run[..n], kill))
  {
    if n > 0 {
      SoundUpTo(s, run, kill, n - 1);
      AfterOneMore(s, run, kill, n - 1);
      StepSoundExactly(After(s, run[..n - 1], kill), run[n - 1], kill);
    }
  }

  /**
   Over a run of additions, updates and deletions the store is sound throughout if and only if every update keeps
   the stored default.
   */
  lemma RunsSoundExactly(s: State, run: seq<Step>, kill: (State, nat) -> State)
    requires Sound(s) && IsDeletion(kill)
    ensures EverSound(s, run, kill) <==> AllKeepDefault(s, run, kill)
  {
    if AllKeepDefault(s, run, kill) {
      forall i | 0 <= i <= |run| ensures Sound(After(s, run[..i], kill)) {
        SoundUpTo(s, run, kill, i);
      }
    }
    if EverSound(s, run, kill) {
      forall i | 0 <= i < |run| ensures KeepsDefault(After(s, run[..i], kill), run[i]) {
        assert Sound(After(s, run[..i], kill)) && Sound(After(s, run[..i + 1], kill));
        AfterOneMore(s, run, kill, i);
        StepSoundExactly(After(s, run[..i], kill), run[i], kill);
      }
    }
  }

  /** Over such a run no deletion takes a layer but its own. */
  lemma RunsAreSafe(s: State, run: seq<Step>, kill: (State, nat) -> State, i: nat)
    requires Sound(s) && IsDeletion(kill) && AllKeepDefault(s, run, kill) && i < |run| && run[i].Delete?
    ensures After(s, run[..i + 1], kill).layers.Keys == After(s, run[..i], kill).layers.Keys - {run[i].id}
  {
    RunsSoundExactly(s, run, kill);
    AfterOneMore(s, run, kill, i);
    StepSoundExactly(After(s, run[..i], kill), run[i], kill);
  }

  /** An update that does not keep the stored default can make the deletion of layer 2 take layer 1 with it. */
  lemma UnsavedUpdateEndangers(p: string, q: string, kill: (State, nat) -> State)
    requires p != q && IsDeletion(kill)
    ensures var run := [Add(1, true), Add(2, true), Update(1, p, {}, true), Update(1, q, {}, false),
        Update(2, q, {p}, true)];
            && After(State(map[], {}), run, kill).layers.Keys == {1, 2}
            && After(State(map[], {}), run + [Delete(2)], kill).layers == map[]
  {
    var s0 := State(map[], {});
    var a, b, c, d, e := Add(1, true), Add(2, true), Update(1, p, {}, true), Update(1, q, {}, false),
        Update(2, q, {p}, true);
    var s1 := Apply(s0, a, kill);
    var s2 := Apply(s1, b, kill);
    var s3 := Apply(s2, c, kill);
    var s4 := Apply(s3, d, kill);
    var s5 := Apply(s4, e, kill);
    assert After(s0, [], kill) == s0;
    AfterSnoc(s0, [], a, kill);
    AfterSnoc(s0, [a], b, kill);
    AfterSnoc(s0, [a, b], c, kill);
    AfterSnoc(s0, [a, b, c], d, kill);
    AfterSnoc(s0, [a, b, c, d], e, kill);
    assert [] + [a] == [a] && [a] + [b] == [a, b] && [a, b] + [c] == [a, b, c] && [a, b, c] + [d] == [a, b, c, d];
    assert [a, b, c, d] + [e] == [a, b, c, d, e];
    AfterSnoc(s0, [a, b, c, d, e], Delete(2), kill);
    EndangeredPair(s5, p, kill);
  }

  lemma EndangeredPair(s: State, p: string, kill: (State, nat) -> State)
    requires s.layers.Keys == {1, 2} && s.layers[1].default == Some(p) && p !in s.layers[1].styles && IsDeletion(kill)
    requires s.layers[2].local && s.layers[2].default != Some(p) && p in s.layers[2].styles
    ensures kill(s, 2).layers == map[]
  {
    assert Users(s.layers, p) == {2};
    assert Hazard(s, 2, p, 1);
    assert Deletes(kill, s, 2);
    assert s.layers.Keys - {2} == {1};
    assert kill(s, 2).layers.Keys == {} by {
      var rest := kill(s, 2).layers.Keys;
      assert rest < {1};
      assert 1 in rest ==> rest == {1};
    }
  }

  lemma AfterSnoc(s: State, run: seq<Step>, step: Step, kill: (State, nat) -> State)
    ensures After(s, run + [step], kill) == Apply(After(s, run, kill), step, kill)
  {
    assert (run + [step])[..|run|] == run;
  }
}
