/**
 Viewer configurations of map layers and of their sources (geonode/utils.py, layer_from_viewer_config and GXPLayerBase):
 a configuration is parsed into a layer record and printed back from it.
 */
module Config {
  import opened Lists

  datatype Json =
    | Null | Bool(b: bool) | Num(n: real) | Str(s: string)
    | List(items: seq<Json>) | Dict(entries: map<string, Json>)

  /** The keys of a configuration: those the code names, and all others. */
  datatype Key =
    | Format | Name | Opacity | Styles | Transparent | Fixed | Group | Visibility | Source | GetFeatureInfo
    | Url | Projection | Ptype | RestUrl | Id | BaseParams | Title
    | Other(text: string)

  type Cfg = map<Key, Json>

  /** Python's truth value. */
  predicate Truthy(j: Json) {
    match j
    case Null => false
    case Bool(b) => b
    case Num(n) => n != 0.0
    case Str(s) => s != ""
    case List(items) => items != []
    case Dict(entries) => entries != map[]
  }

  /** The false values. */
  lemma FalsyExactly(j: Json)
    ensures !Truthy(j) <==> j in [Null, Bool(false), Num(0.0), Str(""), List([]), Dict(map[])]
  {
  }

  /** The layer record. The parameter dictionaries are kept as JSON text: None is text that does not parse. */
  datatype Layer = Layer(
    order: int, format: Json, name: Json, opacity: Json, styles: Json, transparent: Json, fixed: Json, group: Json,
    visibility: Json, owsUrl: Json, layerParams: Option<Cfg>, sourceParams: Option<Cfg>)

  const FIELDS: seq<Key> :=
    [Format, Name, Opacity, Styles, Transparent, Fixed, Group, Visibility, Source, GetFeatureInfo]

  const SOURCE_FIELDS: seq<Key> := [Url, Projection]

  /** cfg.get(key, default) */
  function Get(cfg: Cfg, key: Key, default: Json): Json {
    if key in cfg then cfg[key] else default
  }

  function Without(cfg: Cfg, keys: seq<Key>): Cfg {
    map k | k in cfg && k !in keys :: cfg[k]
  }

  function Parse(layer: Cfg, source: Cfg, ordering: int): Layer {
    Layer(
      ordering,
      Get(layer, Format, Null),
      Get(layer, Name, Null),
      Get(layer, Opacity, Num(1.0)),
      Get(layer, Styles, Null),
      Get(layer, Transparent, Bool(false)),
      Get(layer, Fixed, Bool(false)),
      Get(layer, Group, Null),
      Get(layer, Visibility, Bool(true)),
      Get(source, Url, Null),
      Some(Without(layer, FIELDS)),
      Some(Without(source, SOURCE_FIELDS)))
  }

  lemma WithoutExactly(cfg: Cfg, keys: seq<Key>, key: Key)
    ensures Lookup(Without(cfg, keys), key) == if key in keys then None else Lookup(cfg, key)
  {
  }

  /**
   A parsed layer: its position, the fields of its configuration, the url of its source, and the remaining keys of both
   configurations.
   */
  lemma ParsedExactly(layer: Cfg, source: Cfg, ordering: int)
    ensures var l := Parse(layer, source, ordering);
            && l.order == ordering
            && (Format in layer ==> l.format == layer[Format])
            && (Name in layer ==> l.name == layer[Name])
            && (Opacity in layer ==> l.opacity == layer[Opacity])
            && (Styles in layer ==> l.styles == layer[Styles])
            && (Transparent in layer ==> l.transparent == layer[Transparent])
            && (Fixed in layer ==> l.fixed == layer[Fixed])
            && (Group in layer ==> l.group == layer[Group])
            && (Visibility in layer ==> l.visibility == layer[Visibility])
            && (Url in source ==> l.owsUrl == source[Url])
    ensures var l := Parse(layer, source, ordering);
            && l.layerParams.Some? && l.sourceParams.Some?
            && (forall k :: k in l.layerParams.value <==>
                  k in layer && k !in {Format, Name, Opacity, Styles, Transparent, Fixed, Group, Visibility, Source,
                                       GetFeatureInfo})
            && (forall k :: k in l.layerParams.value ==> l.layerParams.value[k] == layer[k])
            && (forall k :: k in l.sourceParams.value <==> k in source && k !in {Url, Projection})
            && (forall k :: k in l.sourceParams.value ==> l.sourceParams.value[k] == source[k])
  {
  }

  /** What a key that is missing stands for. */
  lemma ParsedDefaults(layer: Cfg, source: Cfg, ordering: int)
    ensures var l := Parse(layer, source, ordering);
            && (Format !in layer ==> l.format == Null)
            && (Name !in layer ==> l.name == Null)
            && (Opacity !in layer ==> l.opacity == Num(1.0))
            && (Styles !in layer ==> l.styles == Null)
            && (Transparent !in layer ==> l.transparent == Bool(false))
            && (Fixed !in layer ==> l.fixed == Bool(false))
            && (Group !in layer ==> l.group == Null)
            && (Visibility !in layer ==> l.visibility == Bool(true))
            && (Url !in source ==> l.owsUrl == Null)
  {
  }

  method DeleteKeys(cfg: Cfg, keys: seq<Key>) returns (r: Cfg)
    ensures r == Without(cfg, keys)
  {
    r := cfg;
    for i := 0 to |keys|
      invariant r == Without(cfg, keys[..i])
    {
      assert keys[..i + 1] == keys[..i] + [keys[i]];
      if keys[i] in r {
        r := r - {keys[i]};
      }
    }
    assert keys[..|keys|] == keys;
  }

  method LayerFromViewerConfig(layer: Cfg, source: Cfg, ordering: int) returns (l: Layer)
    ensures l == Parse(layer, source, ordering)
  {
    var layerCfg := DeleteKeys(layer, FIELDS);
    var sourceCfg := DeleteKeys(source, SOURCE_FIELDS);
    l := Layer(
      ordering,
      Get(layer, Format, Null),
      Get(layer, Name, Null),
      Get(layer, Opacity, Num(1.0)),
      Get(layer, Styles, Null),
      Get(layer, Transparent, Bool(false)),
      Get(layer, Fixed, Bool(false)),
      Get(layer, Group, Null),
      Get(layer, Visibility, Bool(true)),
      Get(source, Url, Null),
      Some(layerCfg),
      Some(sourceCfg));
  }

  // ---- Printing ----

  const PRINTED: set<Key> := {Format, Name, Opacity, Styles, Transparent, Fixed, Group, Visibility}

  /** The field a printed key stands for. */
  function Field(l: Layer, key: Key): Json
    requires key in PRINTED
  {
    match key
    case Format => l.format
    case Name => l.name
    case Opacity => l.opacity
    case Styles => l.styles
    case Transparent => l.transparent
    case Fixed => l.fixed
    case Group => l.group
    case _ => l.visibility
  }

  /** Two keys are always written, the others only with a true value. */
  predicate Shown(l: Layer, key: Key)
    requires key in PRINTED
  {
    key == Fixed || key == Visibility || Truthy(Field(l, key))
  }

  /** The value written for a shown key; transparency is normalised. */
  function Written(l: Layer, key: Key): Json
    requires key in PRINTED
  {
    if key == Transparent then Bool(true) else Field(l, key)
  }

  function Put(cfg: Cfg, l: Layer, key: Key): Cfg
    requires key in PRINTED
  {
    if Shown(l, key) then cfg[key := Written(l, key)] else cfg
  }

  /** The printed keys in the order they are written. */
  function PrintedKey(i: nat): (k: Key)
    requires i < 8
    ensures k in PRINTED
  {
    if i == 0 then Format else if i == 1 then Name else if i == 2 then Opacity else if i == 3 then Styles
    else if i == 4 then Transparent else if i == 5 then Fixed else if i == 6 then Group else Visibility
  }

  function PrintUpTo(l: Layer, n: nat): Cfg
    requires n <= 8
  {
    if n == 0 then l.layerParams.GetOr(map[]) else Put(PrintUpTo(l, n - 1), l, PrintedKey(n - 1))
  }

  function PrintLayer(l: Layer): Cfg {
    PrintUpTo(l, 8)
  }

  method LayerConfig(l: Layer) returns (cfg: Cfg)
    ensures cfg == PrintLayer(l)
  {
    cfg := l.layerParams.GetOr(map[]);
    assert cfg == PrintUpTo(l, 0);
    if Truthy(l.format) {
      cfg := cfg[Format := l.format];
    }
    assert cfg == PrintUpTo(l, 1);
    if Truthy(l.name) {
      cfg := cfg[Name := l.name];
    }
    assert cfg == PrintUpTo(l, 2);
    if Truthy(l.opacity) {
      cfg := cfg[Opacity := l.opacity];
    }
    assert cfg == PrintUpTo(l, 3);
    if Truthy(l.styles) {
      cfg := cfg[Styles := l.styles];
    }
    assert cfg == PrintUpTo(l, 4);
    if Truthy(l.transparent) {
      cfg := cfg[Transparent := Bool(true)];
    }
    assert cfg == PrintUpTo(l, 5);
    cfg := cfg[Fixed := l.fixed];
    assert cfg == PrintUpTo(l, 6);
    if Truthy(l.group) {
      cfg := cfg[Group := l.group];
    }
    assert cfg == PrintUpTo(l, 7);
    cfg := cfg[Visibility := l.visibility];
  }

  function Lookup(cfg: Cfg, key: Key): Option<Json> {
    if key in cfg then Some(cfg[key]) else None
  }

  lemma {:induction false} PrintUpToLookup(l: Layer, n: nat, key: Key)
    requires n <= 8
    ensures Lookup(PrintUpTo(l, n), key)
         == if (exists i: nat :: i < n && PrintedKey(i) == key) && Shown(l, key) then Some(Written(l, key))
            else Lookup(l.layerParams.GetOr(map[]), key)
  {
    if n > 0 {
      PrintUpToLookup(l, n - 1, key);
      assert PrintedKey(n - 1) == key ==> exists i: nat :: i < n && PrintedKey(i) == key;
    }
  }

  /** A printed configuration, key by key. */
  lemma PrintLookup(l: Layer, key: Key)
    ensures Lookup(PrintLayer(l), key)
         == if key in PRINTED && Shown(l, key) then Some(Written(l, key)) else Lookup(l.layerParams.GetOr(map[]), key)
  {
    PrintUpToLookup(l, 8, key);
    if key in PRINTED {
      var i := if key == Format then 0 else if key == Name then 1 else if key == Opacity then 2
               else if key == Styles then 3
               else if key == Transparent then 4 else if key == Fixed then 5 else if key == Group then 6 else 7;
      assert PrintedKey(i) == key;
    }
  }

  /** The source of a layer without usable parameters. */
  const DEFAULT_SOURCE: Cfg := map[Ptype := Str("gxp_wmscsource"), RestUrl := Str("/gs/rest")]

  function PrintSource(l: Layer): Cfg {
    var cfg := l.sourceParams.GetOr(DEFAULT_SOURCE);
    if Truthy(l.owsUrl) then cfg[Url := l.owsUrl] else cfg
  }

  /** The printed source: the parameters or else the local defaults, and the url of the layer when that is true. */
  lemma SourceExactly(l: Layer, key: Key)
    ensures Lookup(PrintSource(l), key)
         == if key == Url && l.owsUrl !in [Null, Bool(false), Num(0.0), Str(""), List([]), Dict(map[])]
            then Some(l.owsUrl)
            else match l.sourceParams
                 case Some(params) => Lookup(params, key)
                 case None => if key == Ptype then Some(Str("gxp_wmscsource"))
                              else if key == RestUrl then Some(Str("/gs/rest"))
                              else None
  {
    FalsyExactly(l.owsUrl);
  }

  // ---- Normal forms ----

  /** A layer configuration parsed and printed again. */
  function Normal(cfg: Cfg): Cfg {
    PrintLayer(Parse(cfg, map[], 0))
  }

  /** Neither the source nor the position of a layer has an influence on its printed configuration. */
  lemma NormalIsPrintOfParse(layer: Cfg, source: Cfg, ordering: int)
    ensures PrintLayer(Parse(layer, source, ordering)) == Normal(layer)
  {
    var l, m := Parse(layer, source, ordering), Parse(layer, map[], 0);
    forall k ensures Lookup(PrintLayer(l), k) == Lookup(PrintLayer(m), k) {
      PrintedAlike(l, m, k);
    }
    LookupDetermines(PrintLayer(l), PrintLayer(m));
  }

  lemma PrintedAlike(l: Layer, m: Layer, key: Key)
    requires m == l.(order := m.order, owsUrl := m.owsUrl, sourceParams := m.sourceParams)
    ensures Lookup(PrintLayer(l), key) == Lookup(PrintLayer(m), key)
  {
    PrintLookup(l, key);
    PrintLookup(m, key);
  }

  /** What a key is printed with, read off the original configuration. */
  function NormalValue(cfg: Cfg, key: Key): Option<Json> {
    match key
    case Source => None
    case GetFeatureInfo => None
    case Fixed => Some(Get(cfg, key, Bool(false)))
    case Visibility => Some(Get(cfg, key, Bool(true)))
    case Opacity => if Truthy(Get(cfg, key, Num(1.0))) then Some(Get(cfg, key, Num(1.0))) else None
    case Transparent => if Truthy(Get(cfg, key, Null)) then Some(Bool(true)) else None
    case Format => if Truthy(Get(cfg, key, Null)) then Some(cfg[key]) else None
    case Name => if Truthy(Get(cfg, key, Null)) then Some(cfg[key]) else None
    case Styles => if Truthy(Get(cfg, key, Null)) then Some(cfg[key]) else None
    case Group => if Truthy(Get(cfg, key, Null)) then Some(cfg[key]) else None
    case _ => if key in cfg then Some(cfg[key]) else None
  }

  lemma ParsedValue(cfg: Cfg, key: Key)
    ensures NormalValue(cfg, key)
         == if key in PRINTED && Shown(Parse(cfg, map[], 0), key) then Some(Written(Parse(cfg, map[], 0), key))
            else if key in PRINTED || key == Source || key == GetFeatureInfo then None
            else Lookup(cfg, key)
  {
  }

  /** Parsing and printing, key by key: unknown keys are kept, known keys get their normal value or are dropped. */
  lemma NormalKeyByKey(cfg: Cfg, key: Key)
    ensures Lookup(Normal(cfg), key) == NormalValue(cfg, key)
  {
    PrintLookup(Parse(cfg, map[], 0), key);
    ParsedValue(cfg, key);
  }

  lemma SecondPass(cfg: Cfg, key: Key)
    requires key == Opacity ==> Truthy(Get(cfg, Opacity, Num(1.0)))
    ensures Lookup(Normal(Normal(cfg)), key) == Lookup(Normal(cfg), key)
  {
    NormalKeyByKey(cfg, key);
    NormalKeyByKey(Normal(cfg), key);
  }

  /** A second pass changes nothing, except that a false opacity comes back as the default. */
  lemma NormalFormExactly(cfg: Cfg)
    ensures Normal(Normal(cfg)) == Normal(cfg) <==> Truthy(Get(cfg, Opacity, Num(1.0)))
  {
    if Truthy(Get(cfg, Opacity, Num(1.0))) {
      forall k ensures Lookup(Normal(Normal(cfg)), k) == Lookup(Normal(cfg), k) {
        SecondPass(cfg, k);
      }
      LookupDetermines(Normal(Normal(cfg)), Normal(cfg));
    } else {
      FalseOpacityComesBack(cfg);
    }
  }

  lemma FalseOpacityComesBack(cfg: Cfg)
    requires !Truthy(Get(cfg, Opacity, Num(1.0)))
    ensures Lookup(Normal(cfg), Opacity) == None && Lookup(Normal(Normal(cfg)), Opacity) == Some(Num(1.0))
  {
    NormalKeyByKey(cfg, Opacity);
    NormalKeyByKey(Normal(cfg), Opacity);
  }

  lemma LookupDetermines(a: Cfg, b: Cfg)
    requires forall k :: Lookup(a, k) == Lookup(b, k)
    ensures a == b
  {
    forall k ensures k in a <==> k in b {
      assert Lookup(a, k) == Lookup(b, k);
    }
    forall k | k in a ensures a[k] == b[k] {
      assert Lookup(a, k) == Lookup(b, k);
    }
  }

  /** The concrete case: a fully transparent layer turns opaque on the second pass. */
  lemma ZeroOpacityTurnsOpaque()
    ensures var cfg := map[Opacity := Num(0.0)];
            Lookup(Normal(cfg), Opacity) == None && Lookup(Normal(Normal(cfg)), Opacity) == Some(Num(1.0))
  {
    FalseOpacityComesBack(map[Opacity := Num(0.0)]);
  }

  /** A source printed from the layer it was parsed into: without projection, and without a false url. */
  lemma SourceRoundTrip(layer: Cfg, source: Cfg, ordering: int)
    ensures PrintSource(Parse(layer, source, ordering))
         == map k | k in source && k != Projection && (k == Url ==> Truthy(source[k])) :: source[k]
  {
  }

  lemma SourceRoundTripExactly(layer: Cfg, source: Cfg, ordering: int)
    ensures PrintSource(Parse(layer, source, ordering)) == source
       <==> Projection !in source && (Url in source ==> Truthy(source[Url]))
  {
    SourceRoundTrip(layer, source, ordering);
  }
}
