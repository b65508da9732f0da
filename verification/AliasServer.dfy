/** Requests served through the alias-map cache (internal/model/CreateAliasMap.go:10-32,
    internal/model/aggregates.go:191-203): a cached map is shared by all requests with its key, whatever presets they
    come with, and aggregate requests grow it in place. */
module AliasServer {
  import opened Common
  import opened Schema
  import opened Filters
  import opened AliasExpansion
  import opened AliasMaps
  import opened AliasCache
  import PathOrder

  /** A preset as a request brings it: the aliases prepared for it when the registry was loaded, and the relation
      paths inside its computable fields. */
  datatype Preset = Preset(name: string, maps: Maps, computable: seq<Path>)

  /** Filters and sorts are already normalised. */
  datatype Request = Request(model: Name, preset: Option<Preset>, filters: Filter, sorts: seq<Path>)

  /** What aliasCacheKey puts into the canonical text. */
  datatype CacheKey = CacheKey(model: Name, presetName: string, filters: Filter, sorts: seq<Path>)

  function PresetName(preset: Option<Preset>): string {
    if preset.None? then "none" else if IsBlank(preset.value.name) then "custom" else preset.value.name
  }

  function KeyOf(req: Request): CacheKey {
    CacheKey(req.model, PresetName(req.preset), req.filters, req.sorts)
  }

  /** What stays fixed while requests are served: the registry, the paths inside computable fields that filters and
      sorts use, and estimateAliasMapBytes. */
  datatype World = World(reg: Registry, computable: CacheKey -> seq<Path>, size: Maps -> nat)

  ghost predicate Sound(w: World) {
    Linked(w.reg) && AllSettle(w.reg)
  }

  function MapsOf(preset: Option<Preset>): Option<Maps> {
    if preset.Some? then Some(preset.value.maps) else None
  }

  ghost predicate WellFormed(w: World, req: Request) {
    req.model in w.reg && GoodPreset(MapsOf(req.preset))
  }

  /** The relation paths a request needs beside those of its preset's fields. */
  function ExtraFor(w: World, req: Request): set<Path> {
    var own := if req.preset.Some? then req.preset.value.computable else [];
    ExtraPaths(req.filters, req.sorts, w.computable(KeyOf(req)) + own)
  }

  /** What BuildAliasMap returns for the request. */
  ghost function BuiltFor(w: World, req: Request): Option<Maps>
    requires Sound(w) && req.model in w.reg
  {
    Built(w.reg, req.model, MapsOf(req.preset), ExtraFor(w, req))
  }

  /** `m` was built for the request, and may have grown since. */
  ghost predicate BuiltFrom(w: World, m: Maps, req: Request) {
    && Sound(w) && WellFormed(w, req) && Good(m)
    && BuiltFor(w, req).Some? && Extends(m, BuiltFor(w, req).value)
  }

  // ----- what a map does for a request -----

  /** The path has aliases as far as it can be joined. */
  ghost predicate CoversPath(w: World, model: Name, m: Maps, p: Path)
    requires model in w.reg
  {
    PathOrder.IsProper(p) && IsExpanded(w.reg, model, p) ==>
      && (JoinableLength(w.reg, model, p) == |p| || CutByPolymorphic(w.reg, model, p))
      && forall k | 0 < k <= JoinableLength(w.reg, model, p) :: p[..k] in m.toAlias
  }

  /** All that the request needs of an alias map. */
  ghost predicate ServesRequest(w: World, m: Maps, req: Request)
    requires req.model in w.reg
  {
    && Good(m) && (req.preset.Some? ==> Extends(m, req.preset.value.maps))
    && forall p <- ExtraFor(w, req) :: CoversPath(w, req.model, m, p)
  }

  /** The map has the aliases of the request's preset, and those of its computable fields. */
  ghost predicate KnowsPreset(w: World, m: Maps, req: Request)
    requires req.model in w.reg
  {
    req.preset.Some? ==>
      && Extends(m, req.preset.value.maps)
      && forall i | 0 <= i < |req.preset.value.computable| ::
           CoversPath(w, req.model, m, req.preset.value.computable[i])
  }

  lemma BuiltCoversPath(w: World, m: Maps, a: Request, p: Path)
    requires BuiltFrom(w, m, a) && p in ExtraFor(w, a)
    ensures CoversPath(w, a.model, m, p)
  {
    hide Built, Good, Linked, AllSettle, ExtraFor, IsExpanded, JoinableLength, CutByPolymorphic;
    BuiltGuarantees(w.reg, a.model, MapsOf(a.preset), ExtraFor(w, a), p, 0);
    forall k | 0 < k <= JoinableLength(w.reg, a.model, p) && PathOrder.IsProper(p) && IsExpanded(w.reg, a.model, p)
      ensures p[..k] in m.toAlias
    {
      BuiltGuarantees(w.reg, a.model, MapsOf(a.preset), ExtraFor(w, a), p, k);
    }
  }

  /** The exact condition: a map built for one request serves another one with the same key if and only if it knows that
      one's preset. Filters and sorts are in the key, the preset is there by its name only. */
  lemma ServedExactly(w: World, m: Maps, a: Request, b: Request)
    requires BuiltFrom(w, m, a) && KeyOf(a) == KeyOf(b)
    ensures b.model in w.reg && (ServesRequest(w, m, b) <==> KnowsPreset(w, m, b))
  {
    hide BuiltFor, Good, Extends, Sound, CoversPath, FilterPaths, Prefixes;
    assert WellFormed(w, a);
    forall p | p in ExtraFor(w, b) && KnowsPreset(w, m, b) ensures CoversPath(w, b.model, m, p) {
      if p in ExtraFor(w, a) {
        BuiltCoversPath(w, m, a, p);
      } else {
        var i :| b.preset.Some? && 0 <= i < |b.preset.value.computable| && b.preset.value.computable[i] == p;
      }
    }
    if ServesRequest(w, m, b) && b.preset.Some? {
      var own := b.preset.value.computable;
      forall i | 0 <= i < |own| ensures CoversPath(w, b.model, m, own[i]) {
        assert own[i] in w.computable(KeyOf(b)) + own;
        assert own[i] in ExtraFor(w, b);
      }
    }
  }

  /** So it serves every request that brings the same preset. */
  lemma SamePresetIsServed(w: World, m: Maps, a: Request, b: Request)
    requires BuiltFrom(w, m, a) && KeyOf(a) == KeyOf(b) && a.preset == b.preset
    ensures b.model in w.reg && ServesRequest(w, m, b)
  {
    hide Built, Good, Linked, AllSettle, CoversPath;
    ServedExactly(w, m, a, b);
    BuiltGuarantees(w.reg, a.model, MapsOf(a.preset), ExtraFor(w, a), [], 0);
    if b.preset.Some? {
      var own := b.preset.value.computable;
      ExtendsTransitive(b.preset.value.maps, BuiltFor(w, a).value, m);
      forall i | 0 <= i < |own| ensures CoversPath(w, b.model, m, own[i]) {
        assert own[i] in w.computable(KeyOf(a)) + own;
        BuiltCoversPath(w, m, a, own[i]);
      }
    }
  }

  lemma NewlyBuilt(w: World, m: Maps, req: Request)
    requires Sound(w) && WellFormed(w, req) && BuiltFor(w, req) == Some(m)
    ensures BuiltFrom(w, m, req)
  {
    hide Built, Extends, Good, Linked, AllSettle, ExtraFor;
    BuiltGuarantees(w.reg, req.model, MapsOf(req.preset), ExtraFor(w, req), [], 0);
    ExtendsItself(m);
  }

  lemma GrownStillBuilt(w: World, m: Maps, req: Request, root: Name, idx: nat, paths: seq<Path>)
    requires BuiltFrom(w, m, req) && root in w.reg
    ensures BuiltFrom(w, EnsureAll(w.reg, root, m, idx, paths).maps, req)
    ensures Extends(EnsureAll(w.reg, root, m, idx, paths).maps, m)
  {
    hide BuiltFor, Extends, Good, Linked, AllSettle, EnsureAll;
    EnsureAllKeepsGood(w.reg, root, m, idx, paths);
    ExtendsTransitive(BuiltFor(w, req).value, m, EnsureAll(w.reg, root, m, idx, paths).maps);
  }

  lemma BuiltMeansSound(w: World, m: Maps, req: Request)
    requires BuiltFrom(w, m, req)
    ensures Linked(w.reg) && AllSettle(w.reg) && req.model in w.reg
  {
  }

  lemma KeyTellsModel(a: Request, b: Request)
    requires KeyOf(a) == KeyOf(b)
    ensures a.model == b.model
  {
  }

  // ----- the server -----

  datatype Op =
    | Query(req: Request, asked: int, stored: int)
    | Aggregate(req: Request, paths: seq<Path>, asked: int, stored: int)

  function Asked(op: Op): Request {
    if op.Query? then op.req else op.req.(sorts := [])
  }

  /** No map changes the request it was built for. */
  ghost predicate KeepsBuilders(before: map<AliasMap, Request>, after: map<AliasMap, Request>) {
    forall m <- before :: m in after && after[m] == before[m]
  }

  class Server {
    const w: World
    const cache: AliasMapCache<CacheKey, AliasMap>
    /** The request each map handed out so far was built for, evicted or not. */
    ghost var builder: map<AliasMap, Request>

    constructor (w: World, cache: AliasMapCache<CacheKey, AliasMap>)
      requires cache.items == map[] && Sound(w)
      ensures this.w == w && this.cache == cache && builder == map[] && Valid()
    {
      this.w, this.cache, builder := w, cache, map[];
    }

    ghost function HandedMaps(): set<AliasMap>
      reads this
    {
      builder.Keys
    }

    /** Every map handed out is what was built for its request, grown; the cached ones stand under its key. */
    ghost predicate Serving()
      reads this, cache, HandedMaps()
    {
      && Sound(w)
      && (forall h <- HandedMaps() :: BuiltFrom(w, h.View(), builder[h]))
      && (forall k <- cache.items :: cache.items[k].value in builder && KeyOf(builder[cache.items[k].value]) == k)
    }

    /** ... and measured as they are. */
    ghost predicate Valid()
      reads this, cache, HandedMaps()
    {
      && Serving()
      && forall k <- cache.items :: cache.sizeOf(cache.items[k].value) == w.size(cache.items[k].value.View())
    }

    /** ... all but this one. */
    ghost predicate ValidBut(am: AliasMap)
      reads this, cache, HandedMaps()
    {
      && Serving()
      && forall k <- cache.items | cache.items[k].value != am ::
           cache.sizeOf(cache.items[k].value) == w.size(cache.items[k].value.View())
    }

    /** A map that was handed out for this key. */
    ghost predicate Handed(am: AliasMap?, key: CacheKey)
      reads this
    {
      am != null && am in builder && KeyOf(builder[am]) == key
    }

    method Measure(am: AliasMap)
      requires ValidBut(am)
      modifies cache`sizeOf
      ensures Valid() && cache.sizeOf(am) == w.size(am.View())
    {
      hide BuiltFrom, Sound, AfterGrow, KeyOf;
      cache.Grow(am, w.size(am.View()));
    }

    /** Stores a map that was just handed out. */
    method Store(key: CacheKey, am: AliasMap, now: int)
      requires Valid() && Handed(am, key)
      modifies cache`items, cache`totalBytes, cache`lastSweep, cache`sizeOf
      ensures Valid()
    {
      hide BuiltFrom, Sound, KeyOf, AfterSet;
      Measure(am);
      cache.Set(key, am, now);
    }

    /** A hit hands out a map that is in other hands already. */
    method Lookup(key: CacheKey, now: int) returns (am: AliasMap?)
      requires Valid()
      modifies cache`items, cache`totalBytes, cache`lastSweep
      ensures Valid() && (am != null ==> Handed(am, key))
    {
      hide BuiltFrom, Sound, AfterGet, KeyOf;
      var found := cache.Get(key, now);
      am := if found.Some? then found.value else null;
    }

    /** A miss hands out a new one. */
    method Build(req: Request) returns (am: AliasMap?)
      requires Valid() && WellFormed(w, req)
      modifies this`builder
      ensures Valid() && (am != null ==> fresh(am) && builder == old(builder)[am := req])
      ensures am == null ==> BuiltFor(w, req) == None && builder == old(builder)
    {
      hide BuiltFrom, Linked, AllSettle, Built, ExtraPaths, KeyOf;
      var own := if req.preset.Some? then req.preset.value.computable else [];
      am := BuildAliasMap(w.reg, req.model, MapsOf(req.preset), req.filters, req.sorts, w.computable(KeyOf(req)) + own);
      if am != null {
        NewlyBuilt(w, am.View(), req);
        builder := builder[am := req];
      }
    }

    /** CreateAliasMap */
    method CreateAliasMap(req: Request, asked: int, stored: int) returns (am: AliasMap?)
      requires Valid() && WellFormed(w, req)
      modifies this`builder, cache`items, cache`totalBytes, cache`lastSweep, cache`sizeOf
      ensures Valid() && KeepsBuilders(old(builder), builder)
      ensures am != null ==> Handed(am, KeyOf(req)) && builder.Keys == old(builder).Keys + {am}
      ensures am != null ==> am in old(HandedMaps()) || (fresh(am) && builder[am] == req)
      ensures am == null ==> BuiltFor(w, req) == None && builder == old(builder)
    {
      hide BuiltFrom, Sound, WellFormed, BuiltFor, KeyOf;
      am := Lookup(KeyOf(req), asked);
      if am == null {
        am := Build(req);
        if am != null {
          Store(KeyOf(req), am, stored);
        }
      }
    }

    /** What aggregates add to a map that others may hold. It stays grown even if a path is refused. */
    method GrowInPlace(shared: AliasMap, model: Name, paths: seq<Path>) returns (ok: bool)
      requires Valid() && shared in builder && builder[shared].model == model
      modifies cache`sizeOf, shared
      ensures Valid() && Extends(shared.View(), old(shared.View()))
    {
      hide BuiltFrom, Linked, AllSettle, EnsureAll, Sound, KeyOf, Extends;
      ghost var m := shared.View();
      var nextIdx := shared.DetectNextAliasIndex();
      ghost var req := builder[shared];
      BuiltMeansSound(w, m, req);
      var idx;
      ok, idx := EnsureAliasPaths(w.reg, model, shared, paths, nextIdx);
      GrownStillBuilt(w, m, req, model, nextIdx, paths);
      forall h <- HandedMaps() ensures BuiltFrom(w, h.View(), builder[h]) {
        assert old(BuiltFrom(w, h.View(), builder[h]));
      }
      Measure(shared);
    }

    /** CreateAliasMapForAggregates */
    method CreateAliasMapForAggregates(req: Request, aggregatePaths: seq<Path>, asked: int, stored: int)
      returns (am: AliasMap?)
      requires Valid() && WellFormed(w, req.(sorts := []))
      modifies this`builder, cache`items, cache`totalBytes, cache`lastSweep, cache`sizeOf, HandedMaps()
      ensures Valid() && KeepsBuilders(old(builder), builder)
      ensures forall m <- HandedMaps() :: m in old(HandedMaps()) || fresh(m)
      ensures am != null ==> Handed(am, KeyOf(req.(sorts := [])))
    {
      hide BuiltFrom, Sound, WellFormed, KeyOf;
      var shared := CreateAliasMap(req.(sorts := []), asked, stored);
      if shared == null {
        return null;
      }
      KeyTellsModel(builder[shared], req.(sorts := []));
      var paths := PathOrder.MergeAndSortPaths(aggregatePaths, [], []);
      var ok := GrowInPlace(shared, req.model, paths);
      am := if ok then shared else null;
    }

    method Handle(op: Op) returns (am: AliasMap?)
      requires Valid() && WellFormed(w, Asked(op))
      modifies this`builder, cache`items, cache`totalBytes, cache`lastSweep, cache`sizeOf, HandedMaps()
      ensures Valid() && KeepsBuilders(old(builder), builder)
      ensures forall m <- HandedMaps() :: m in old(HandedMaps()) || fresh(m)
      ensures am != null ==> Handed(am, KeyOf(Asked(op)))
    {
      hide Sound, WellFormed, KeyOf, Serving;
      match op
      case Query(req, asked, stored) =>
        am := CreateAliasMap(req, asked, stored);
      case Aggregate(req, paths, asked, stored) =>
        am := CreateAliasMapForAggregates(req, paths, asked, stored);
    }

    /** The map serves the request it was handed to if and only if it knows the request's preset. */
    ghost predicate ServesExactly(am: AliasMap?, req: Request)
      reads this, am
    {
      am != null ==> req.model in w.reg && (ServesRequest(w, am.View(), req) <==> KnowsPreset(w, am.View(), req))
    }

    lemma HandedServesExactly(am: AliasMap, req: Request)
      requires Valid() && Handed(am, KeyOf(req))
      ensures ServesExactly(am, req)
    {
      hide BuiltFrom, ServesRequest, KnowsPreset, KeyOf;
      assert am in HandedMaps() && BuiltFrom(w, am.View(), builder[am]);
      ServedExactly(w, am.View(), builder[am], req);
    }

    /** Over every run that mixes both kinds of request and any presets, whatever the cache drops or refuses to store:
        at its end, and so at any time, each map serves the requests it was handed to exactly as far as it knows their
        presets. */
    method Run(ops: seq<Op>) returns (maps: seq<AliasMap?>)
      requires Valid() && forall i | 0 <= i < |ops| :: WellFormed(w, Asked(ops[i]))
      modifies this`builder, cache`items, cache`totalBytes, cache`lastSweep, cache`sizeOf, HandedMaps()
      ensures Valid() && KeepsBuilders(old(builder), builder)
      ensures |maps| == |ops| && forall i | 0 <= i < |ops| && maps[i] != null :: Handed(maps[i], KeyOf(Asked(ops[i])))
      ensures forall i | 0 <= i < |ops| :: ServesExactly(maps[i], Asked(ops[i]))
    {
      hide BuiltFrom, Sound, WellFormed, KeyOf, ServesExactly, Valid, Serving;
      maps := [];
      for i := 0 to |ops|
        invariant Valid() && KeepsBuilders(old(builder), builder)
        invariant forall m <- HandedMaps() :: m in old(HandedMaps()) || fresh(m)
        invariant |maps| == i && forall k | 0 <= k < i && maps[k] != null :: Handed(maps[k], KeyOf(Asked(ops[k])))
      {
        assert WellFormed(w, Asked(ops[i]));
        var am := Handle(ops[i]);
        maps := maps + [am];
      }
      forall i | 0 <= i < |ops| ensures ServesExactly(maps[i], Asked(ops[i])) {
        if maps[i] != null {
          HandedServesExactly(maps[i], Asked(ops[i]));
        } else {
          NothingToServe(Asked(ops[i]));
        }
      }
    }

    lemma NothingToServe(req: Request)
      ensures ServesExactly(null, req)
    {
    }
  }

  // ----- one key for two presets -----

  /** The preset MakeThroughChildRequest makes for the intermediate model: it is named after the nested preset, which
      is a preset of the target model, and knows one relation. */
  function ThroughPreset(nestedPreset: string, unwrapKey: Name): Preset {
    Preset(nestedPreset, Maps(map[[unwrapKey] := T(0)], map[T(0) := [unwrapKey]]), [])
  }

  /** The request for an intermediate model that shares its key with a direct one for a preset of the same name. */
  function ThroughRequest(direct: Request, unwrapKey: Name): Request
    requires direct.preset.Some?
  {
    direct.(preset := Some(ThroughPreset(direct.preset.value.name, unwrapKey)))
  }

  /** The map of the direct request serves the through request if and only if t0 stands for the relation in it; if the
      preset has a t0, that can be read off the preset. */
  lemma ThroughAfterDirectExactly(w: World, m: Maps, direct: Request, unwrapKey: Name)
    requires direct.preset.Some? && BuiltFrom(w, m, direct)
    ensures var through := ThroughRequest(direct, unwrapKey);
      && KeyOf(through) == KeyOf(direct) && through.model in w.reg
      && (ServesRequest(w, m, through) <==> T(0) in m.toPath && m.toPath[T(0)] == [unwrapKey])
    ensures var own := direct.preset.value.maps.toPath;
      T(0) in own ==> (ServesRequest(w, m, ThroughRequest(direct, unwrapKey)) <==> own[T(0)] == [unwrapKey])
  {
    hide BuiltFor, Sound, ServesRequest;
    var through := ThroughRequest(direct, unwrapKey);
    ServedExactly(w, m, direct, through);
    OwnAliasesAreKept(w, m, direct);
  }

  /** The map of the through request serves the direct one only if a t0 of its preset stands for the relation; that is
      enough if the preset has no other alias and no computable paths, and a preset without any is always served. */
  lemma DirectAfterThroughExactly(w: World, m: Maps, direct: Request, unwrapKey: Name)
    requires direct.preset.Some? && BuiltFrom(w, m, ThroughRequest(direct, unwrapKey)) && Good(direct.preset.value.maps)
    ensures direct.model in w.reg && (ServesRequest(w, m, direct) <==> KnowsPreset(w, m, direct))
    ensures var own := direct.preset.value.maps.toPath;
      T(0) in own && own[T(0)] != [unwrapKey] ==> !ServesRequest(w, m, direct)
    ensures var own := direct.preset.value.maps.toPath;
      direct.preset.value.computable == [] && own.Keys <= {T(0)} ==>
        (ServesRequest(w, m, direct) <==> own == map[] || own[T(0)] == [unwrapKey])
  {
    hide BuiltFor, Sound, ServesRequest;
    var through := ThroughRequest(direct, unwrapKey);
    ServedExactly(w, m, through, direct);
    OwnAliasesAreKept(w, m, through);
    var own := direct.preset.value.maps;
    assert T(0) in through.preset.value.maps.toPath && m.toPath[T(0)] == [unwrapKey];
    assert own.toPath != map[] && own.toPath.Keys <= {T(0)} ==> T(0) in own.toPath;
  }

  lemma OwnAliasesAreKept(w: World, m: Maps, req: Request)
    requires BuiltFrom(w, m, req) && req.preset.Some?
    ensures Extends(m, req.preset.value.maps)
  {
    hide Built, Extends, Good, Linked, AllSettle, ExtraFor;
    BuiltGuarantees(w.reg, req.model, MapsOf(req.preset), ExtraFor(w, req), [], 0);
    ExtendsTransitive(req.preset.value.maps, BuiltFor(w, req).value, m);
  }

  /** Two requests share a key if and only if they agree in model, filters and sorts, and in the name of the preset,
      where all blank names count as "custom" and no preset at all as one named "none". */
  lemma KeysAgreeExactly(a: Request, b: Request)
    ensures KeyOf(a) == KeyOf(b) <==>
      a.model == b.model && a.filters == b.filters && a.sorts == b.sorts && NamesAgree(a.preset, b.preset)
  {
    NamedNoneIsNotBlank();
  }

  predicate NamesAgree(p: Option<Preset>, q: Option<Preset>) {
    match (p, q)
    case (None, None) => true
    case (None, Some(x)) => x.name == "none"
    case (Some(x), None) => x.name == "none"
    case (Some(x), Some(y)) =>
      x.name == y.name
      || (IsBlank(x.name) && (IsBlank(y.name) || y.name == "custom"))
      || (IsBlank(y.name) && x.name == "custom")
  }

  lemma NamedNoneIsNotBlank()
    ensures !IsBlank("none")
  {
    assert "none"[0] == 'n';
  }

  /** A preset named "none" shares its key with no preset at all: its map serves that request, and the other's map
      serves it if and only if it knows it. */
  lemma PresetNamedNoneSharesAKey(w: World, m: Maps, n: Maps, req: Request)
    requires req.preset.Some? && req.preset.value.name == "none"
    requires BuiltFrom(w, m, req) && BuiltFrom(w, n, req.(preset := None))
    ensures KeyOf(req) == KeyOf(req.(preset := None))
    ensures ServesRequest(w, m, req.(preset := None))
    ensures ServesRequest(w, n, req) <==> KnowsPreset(w, n, req)
  {
    hide BuiltFor, Sound, ServesRequest;
    NamedNoneIsNotBlank();
    ServedExactly(w, m, req, req.(preset := None));
    ServedExactly(w, n, req.(preset := None), req);
  }
}
