/** Table aliases for relation paths (internal/model/BuildAliasMap.go). */
module AliasMaps {
  import opened Common
  import opened Schema
  import opened Filters
  import opened AliasExpansion
  import PathOrder

  const MAX_SEGMENTS := 1024

  /** The two projections of an alias map. */
  datatype Maps = Maps(toAlias: map<Path, TableAlias>, toPath: map<TableAlias, Path>)

  const NO_ALIASES := Maps(map[], map[])

  /** Mutually inverse projections. */
  ghost predicate Inverse(m: Maps) {
    && (forall p <- m.toAlias :: m.toAlias[p] in m.toPath && m.toPath[m.toAlias[p]] == p)
    && (forall a <- m.toPath :: m.toPath[a] in m.toAlias && m.toAlias[m.toPath[a]] == a)
  }

  ghost predicate PrefixClosed(m: Maps) {
    forall p <- m.toAlias :: p != [] && (|p| > 1 ==> p[..|p| - 1] in m.toAlias)
  }

  ghost predicate NumberedAliases(m: Maps) {
    forall a <- m.toPath :: a.T?
  }

  ghost predicate Good(m: Maps) {
    Inverse(m) && PrefixClosed(m) && NumberedAliases(m)
  }

  /** `n` keeps every alias of `m`. */
  ghost predicate Extends(n: Maps, m: Maps) {
    && (forall p <- m.toAlias :: p in n.toAlias && n.toAlias[p] == m.toAlias[p])
    && (forall a <- m.toPath :: a in n.toPath && n.toPath[a] == m.toPath[a])
  }

  lemma ExtendsTransitive(a: Maps, b: Maps, c: Maps)
    requires Extends(b, a) && Extends(c, b)
    ensures Extends(c, a)
  {
  }

  // ----- free aliases -----

  ghost function TakenFrom(toPath: map<TableAlias, Path>, idx: nat): set<TableAlias> {
    set a | a in toPath && a.T? && a.index >= idx
  }

  /** The first unused "tN" from idx on: the search ends because only finitely many are taken. */
  ghost function NextFree(toPath: map<TableAlias, Path>, idx: nat): (n: nat)
    ensures n >= idx && T(n) !in toPath
    ensures forall k | idx <= k < n :: T(k) in toPath
    decreases |TakenFrom(toPath, idx)|
  {
    if T(idx) !in toPath then idx
    else
      assert TakenFrom(toPath, idx) == TakenFrom(toPath, idx + 1) + {T(idx)};
      NextFree(toPath, idx + 1)
  }

  /** N + 1 for the largest "tN" in use, 0 if there is none. */
  ghost predicate IsNextIndex(toPath: map<TableAlias, Path>, n: nat) {
    && (forall a <- toPath | a.T? :: a.index < n)
    && (n > 0 ==> T(n - 1) in toPath)
  }

  lemma NextIndexIsUnique(toPath: map<TableAlias, Path>, m: nat, n: nat)
    requires IsNextIndex(toPath, m) && IsNextIndex(toPath, n)
    ensures m == n
  {
    if m > 0 {
      assert T(m - 1).index < n;
    }
    if n > 0 {
      assert T(n - 1).index < m;
    }
  }

  lemma {:induction false} NextIndexExists(toPath: map<TableAlias, Path>)
    ensures exists n: nat :: IsNextIndex(toPath, n)
    decreases |toPath|
  {
    if toPath == map[] {
      assert IsNextIndex(toPath, 0);
    } else {
      var a :| a in toPath;
      var rest := toPath - {a};
      assert rest.Keys == toPath.Keys - {a};
      NextIndexExists(rest);
      var n: nat :| IsNextIndex(rest, n);
      assert IsNextIndex(toPath, if a.T? && a.index >= n then a.index + 1 else n);
    }
  }

  ghost function NextIndex(toPath: map<TableAlias, Path>): (n: nat)
    ensures IsNextIndex(toPath, n)
  {
    NextIndexExists(toPath);
    var n: nat :| IsNextIndex(toPath, n); n
  }

  // ----- ensureAliasPath -----

  ghost function Register(m: Maps, idx: nat, path: Path): Maps {
    var alias := T(NextFree(m.toPath, idx));
    Maps(m.toAlias[path := alias], m.toPath[alias := path])
  }

  /** A path that has an alias keeps it. */
  ghost function Registered(m: Maps, idx: nat, path: Path): Maps {
    if path in m.toAlias then m else Register(m, idx, path)
  }

  ghost function IndexAfter(m: Maps, idx: nat, path: Path): nat {
    if path in m.toAlias then idx else NextFree(m.toPath, idx) + 1
  }

  function WithAlias(m: Maps, path: Path, alias: TableAlias): Maps {
    Maps(m.toAlias[path := alias], m.toPath[alias := path])
  }

  lemma FreshAliasKeepsInverse(m: Maps, path: Path, alias: TableAlias)
    requires Inverse(m) && path !in m.toAlias && alias !in m.toPath
    ensures Inverse(WithAlias(m, path, alias)) && Extends(WithAlias(m, path, alias), m)
  {
  }

  lemma FreshAliasKeepsPrefixClosed(m: Maps, path: Path, alias: TableAlias)
    requires PrefixClosed(m) && NumberedAliases(m) && alias.T?
    requires path != [] && (|path| > 1 ==> path[..|path| - 1] in m.toAlias)
    ensures PrefixClosed(WithAlias(m, path, alias)) && NumberedAliases(WithAlias(m, path, alias))
  {
  }

  lemma RegisteredKeepsGood(m: Maps, idx: nat, path: Path, seg: Name)
    requires Good(m) && Reached(m, path)
    ensures var m' := Registered(m, idx, path + [seg]); Good(m') && Extends(m', m) && Reached(m', path + [seg])
    ensures path + [seg] in Registered(m, idx, path + [seg]).toAlias
  {
    hide NextFree, Inverse, PrefixClosed, NumberedAliases, Extends;
    var path', alias := path + [seg], T(NextFree(m.toPath, idx));
    if path' in m.toAlias {
      ExtendsItself(m);
    } else {
      assert path'[..|path'| - 1] == path;
      FreshAliasKeepsInverse(m, path', alias);
      FreshAliasKeepsPrefixClosed(m, path', alias);
      assert Registered(m, idx, path') == WithAlias(m, path', alias);
    }
  }

  /** Entering a model again needs a reentrant relation and room below its depth limit. */
  predicate MayEnter(rel: Relation, visited: seq<Name>) {
    var repeats := multiset(visited)[rel.model];
    repeats > 0 ==> rel.reentrant && repeats + 1 <= EffectiveMaxDepth(0, rel.maxDepth)
  }

  /** The outcome of one walk: the alias map, the next index to try, and whether the path was accepted. */
  datatype Walk = Walk(maps: Maps, idx: nat, ok: bool)

  /** ensureAliasPath from model `curr`: `path` is already walked, through the models `visited`. */
  ghost function Ensure(reg: Registry, curr: Name, m: Maps, idx: nat, path: Path, visited: seq<Name>, segs: Path): Walk
    requires Linked(reg) && AllSettle(reg) && curr in reg
    decreases if IsExpanded(reg, curr, segs) then 0 else 1, |segs|
  {
    if segs == [] then Walk(m, idx, true)
    else if segs[0] !in reg[curr].relations then
      var expanded := Expand(reg, curr, segs);
      ExpandExpands(reg, curr, segs);
      ExpandFixesExactlyExpanded(reg, curr, segs);
      if expanded != segs then Ensure(reg, curr, m, idx, path, visited, expanded) else Walk(m, idx, false)
    else
      var rel := reg[curr].relations[segs[0]];
      assert LinkedRelation(reg, rel);
      if rel.polymorphic then Walk(m, idx, true)
      else
        var path' := path + [segs[0]];
        if path' !in m.toAlias && !MayEnter(rel, visited) then Walk(m, idx, false)
        else
          var m', idx' := Registered(m, idx, path'), IndexAfter(m, idx, path');
          if segs[0] == "" || |path| >= MAX_SEGMENTS then Walk(m', idx', false)
          else Ensure(reg, rel.model, m', idx', path', visited + [rel.model], segs[1..])
  }

  lemma EnsureAtEnd(reg: Registry, curr: Name, m: Maps, idx: nat, path: Path, visited: seq<Name>)
    requires Linked(reg) && AllSettle(reg) && curr in reg
    ensures Ensure(reg, curr, m, idx, path, visited, []) == Walk(m, idx, true)
  {
  }

  /** One turn of the loop at a segment that is no relation... */
  lemma EnsureAtAlias(reg: Registry, curr: Name, m: Maps, idx: nat, path: Path, visited: seq<Name>, segs: Path)
    requires Linked(reg) && AllSettle(reg) && curr in reg && segs != [] && segs[0] !in reg[curr].relations
    ensures Settles(reg, curr, segs)
    ensures var expanded := Expand(reg, curr, segs);
      && Ensure(reg, curr, m, idx, path, visited, segs)
         == (if expanded == segs then Walk(m, idx, false) else Ensure(reg, curr, m, idx, path, visited, expanded))
      && (expanded != segs ==> IsExpanded(reg, curr, expanded) && !IsExpanded(reg, curr, segs))
  {
    hide NextFree;
    ExpandExpands(reg, curr, segs);
    ExpandFixesExactlyExpanded(reg, curr, segs);
  }

  /** ... and at a relation. */
  lemma EnsureAtRelation(reg: Registry, curr: Name, m: Maps, idx: nat, path: Path, visited: seq<Name>, segs: Path)
    requires Linked(reg) && AllSettle(reg) && curr in reg && segs != [] && segs[0] in reg[curr].relations
    ensures var rel, path' := reg[curr].relations[segs[0]], path + [segs[0]];
      if rel.polymorphic then Ensure(reg, curr, m, idx, path, visited, segs) == Walk(m, idx, true)
      else
        && rel.model in reg
        && (IsExpanded(reg, curr, segs) ==> IsExpanded(reg, rel.model, segs[1..]))
        && Ensure(reg, curr, m, idx, path, visited, segs)
           == if path' !in m.toAlias && !MayEnter(rel, visited) then Walk(m, idx, false)
              else
                var m', idx' := Registered(m, idx, path'), IndexAfter(m, idx, path');
                if segs[0] == "" || |path| >= MAX_SEGMENTS then Walk(m', idx', false)
                else Ensure(reg, rel.model, m', idx', path', visited + [rel.model], segs[1..])
  {
    hide NextFree, MayEnter, Registered, IndexAfter, Settles;
    assert LinkedRelation(reg, reg[curr].relations[segs[0]]);
  }

  ghost predicate Reached(m: Maps, path: Path) {
    path == [] || path in m.toAlias
  }

  lemma {:induction false} EnsureKeepsGood(reg: Registry, curr: Name, m: Maps, idx: nat, path: Path,
                                           visited: seq<Name>, segs: Path)
    requires Linked(reg) && AllSettle(reg) && curr in reg && Good(m) && Reached(m, path)
    ensures var w := Ensure(reg, curr, m, idx, path, visited, segs); Good(w.maps) && Extends(w.maps, m)
    decreases if IsExpanded(reg, curr, segs) then 0 else 1, |segs|
  {
    hide Good, Extends, Settles, NextFree, Registered;
    ExtendsItself(m);
    if segs == [] {
    } else if segs[0] !in reg[curr].relations {
      ExpandExpands(reg, curr, segs);
      ExpandFixesExactlyExpanded(reg, curr, segs);
      if Expand(reg, curr, segs) != segs {
        EnsureKeepsGood(reg, curr, m, idx, path, visited, Expand(reg, curr, segs));
      }
    } else {
      var rel := reg[curr].relations[segs[0]];
      var path' := path + [segs[0]];
      assert LinkedRelation(reg, rel);
      if !rel.polymorphic && (path' in m.toAlias || MayEnter(rel, visited)) {
        var m', idx' := Registered(m, idx, path'), IndexAfter(m, idx, path');
        RegisteredKeepsGood(m, idx, path, segs[0]);
        if segs[0] != "" && |path| < MAX_SEGMENTS {
          TailExpanded(reg, curr, segs);
          EnsureKeepsGood(reg, rel.model, m', idx', path', visited + [rel.model], segs[1..]);
          ExtendsTransitive(m, m', Ensure(reg, rel.model, m', idx', path', visited + [rel.model], segs[1..]).maps);
        }
      }
    }
  }

  lemma ExtendsItself(m: Maps)
    ensures Extends(m, m)
  {
  }

  lemma TailExpanded(reg: Registry, curr: Name, segs: Path)
    requires curr in reg && segs != [] && segs[0] in reg[curr].relations
    requires !reg[curr].relations[segs[0]].polymorphic && reg[curr].relations[segs[0]].model in reg
    ensures IsExpanded(reg, curr, segs) ==> IsExpanded(reg, reg[curr].relations[segs[0]].model, segs[1..])
  {
  }

  /** The relation prefix of a path that can be joined: up to the first segment that is not a relation or
      is polymorphic. */
  function JoinableLength(reg: Registry, curr: Name, segs: Path): (n: nat)
    requires curr in reg
    ensures n <= |segs|
    decreases |segs|
  {
    if segs == [] then 0
    else
      var next := NextModel(reg, curr, segs[0]);
      if segs[0] == "" || next.None? then 0 else 1 + JoinableLength(reg, next.value, segs[1..])
  }

  lemma AcceptedStep(reg: Registry, curr: Name, m: Maps, idx: nat, path: Path, visited: seq<Name>, segs: Path)
    requires Linked(reg) && AllSettle(reg) && curr in reg && segs != [] && IsExpanded(reg, curr, segs)
    requires Ensure(reg, curr, m, idx, path, visited, segs).ok
    ensures segs[0] in reg[curr].relations
    ensures var rel, path' := reg[curr].relations[segs[0]], path + [segs[0]];
      !rel.polymorphic ==>
        segs[0] != "" && rel.model in reg && IsExpanded(reg, rel.model, segs[1..])
          && NextModel(reg, curr, segs[0]) == Some(rel.model)
        && Ensure(reg, curr, m, idx, path, visited, segs)
        == Ensure(reg, rel.model, Registered(m, idx, path'), IndexAfter(m, idx, path'), path', visited + [rel.model],
          segs[1..])
  {
    hide NextFree, Registered, IndexAfter, Settles;
    ExpandFixesExactlyExpanded(reg, curr, segs);
    assert segs[0] in reg[curr].relations;
    assert LinkedRelation(reg, reg[curr].relations[segs[0]]);
  }

  lemma PrefixThroughFirst(path: Path, segs: Path, k: nat)
    requires segs != [] && 0 < k <= |segs|
    ensures path + segs[..k] == (path + [segs[0]]) + segs[1..][..k - 1]
  {
  }

  /** Accepting an expanded path registers all its joinable prefixes... */
  lemma {:induction false} EnsureCovers(reg: Registry, curr: Name, m: Maps, idx: nat, path: Path,
                                        visited: seq<Name>, segs: Path, k: nat)
    requires Linked(reg) && AllSettle(reg) && curr in reg && Good(m) && Reached(m, path)
    requires IsExpanded(reg, curr, segs) && Ensure(reg, curr, m, idx, path, visited, segs).ok
    requires 0 < k <= JoinableLength(reg, curr, segs)
    ensures path + segs[..k] in Ensure(reg, curr, m, idx, path, visited, segs).maps.toAlias
    decreases |segs|
  {
    AcceptedStep(reg, curr, m, idx, path, visited, segs);
    hide Good, Ensure, Registered, IndexAfter, AllSettle, IsExpanded;
    var rel, path' := reg[curr].relations[segs[0]], path + [segs[0]];
    var m', idx' := Registered(m, idx, path'), IndexAfter(m, idx, path');
    RegisteredKeepsGood(m, idx, path, segs[0]);
    PrefixThroughFirst(path, segs, k);
    if k == 1 {
      EnsureKeepsGood(reg, rel.model, m', idx', path', visited + [rel.model], segs[1..]);
      assert path' + segs[1..][..0] == path';
    } else {
      EnsureCovers(reg, rel.model, m', idx', path', visited + [rel.model], segs[1..], k - 1);
    }
  }

  /** ... and only a polymorphic relation can cut the joinable prefix short. */
  lemma {:induction false} AcceptedIsJoinable(reg: Registry, curr: Name, m: Maps, idx: nat, path: Path,
                                              visited: seq<Name>, segs: Path)
    requires Linked(reg) && AllSettle(reg) && curr in reg
    requires IsExpanded(reg, curr, segs) && Ensure(reg, curr, m, idx, path, visited, segs).ok
    ensures JoinableLength(reg, curr, segs) == |segs| || CutByPolymorphic(reg, curr, segs)
    decreases |segs|
  {
    if segs != [] {
      AcceptedStep(reg, curr, m, idx, path, visited, segs);
      hide Ensure, Registered, IndexAfter, AllSettle, IsExpanded;
      var rel, path' := reg[curr].relations[segs[0]], path + [segs[0]];
      if !rel.polymorphic {
        AcceptedIsJoinable(reg, rel.model, Registered(m, idx, path'), IndexAfter(m, idx, path'), path',
                           visited + [rel.model], segs[1..]);
      }
    }
  }

  /** A polymorphic relation follows the joinable prefix. */
  predicate CutByPolymorphic(reg: Registry, curr: Name, segs: Path)
    requires curr in reg
    decreases |segs|
  {
    segs != [] && segs[0] in reg[curr].relations &&
    (reg[curr].relations[segs[0]].polymorphic ||
     var next := NextModel(reg, curr, segs[0]);
     next.Some? && CutByPolymorphic(reg, next.value, segs[1..]))
  }

  // ----- which paths are accepted -----

  /** The relations a path crosses, its aliases expanded, up to its end or a polymorphic relation. None if a segment is
      neither a relation nor an alias. */
  ghost function Travelled(reg: Registry, curr: Name, segs: Path): Option<Path>
    requires Linked(reg) && AllSettle(reg) && curr in reg
    decreases if IsExpanded(reg, curr, segs) then 0 else 1, |segs|
  {
    if segs == [] then Some([])
    else if segs[0] in reg[curr].relations then
      var rel := reg[curr].relations[segs[0]];
      assert LinkedRelation(reg, rel);
      if rel.polymorphic then Some([]) else Prepend(segs[0], Travelled(reg, rel.model, segs[1..]))
    else
      ExpandExpands(reg, curr, segs);
      ExpandFixesExactlyExpanded(reg, curr, segs);
      if Expand(reg, curr, segs) == segs then None else Travelled(reg, curr, Expand(reg, curr, segs))
  }

  predicate CrossesRelations(reg: Registry, curr: Name, q: Path)
    requires curr in reg
    decreases |q|
  {
    q == [] || var next := NextModel(reg, curr, q[0]); next.Some? && CrossesRelations(reg, next.value, q[1..])
  }

  /** The models entered along such a path; the first model is not among them unless it is entered again. */
  function ModelsAlong(reg: Registry, curr: Name, q: Path): (ms: seq<Name>)
    requires curr in reg && CrossesRelations(reg, curr, q)
    ensures |ms| == |q|
    decreases |q|
  {
    if q == [] then []
    else var next := NextModel(reg, curr, q[0]).value; [next] + ModelsAlong(reg, next, q[1..])
  }

  function RelationAt(reg: Registry, curr: Name, q: Path, j: nat): Relation
    requires curr in reg && CrossesRelations(reg, curr, q) && j < |q|
    decreases j
  {
    if j == 0 then reg[curr].relations[q[0]] else RelationAt(reg, NextModel(reg, curr, q[0]).value, q[1..], j - 1)
  }

  /** The `j`-th relation enters a model that was not entered before, or it is reentrant and the occurrences of the
      model stay within its depth. */
  ghost predicate EntersAt(reg: Registry, curr: Name, visited: seq<Name>, q: Path, j: nat)
    requires curr in reg && CrossesRelations(reg, curr, q) && j < |q|
  {
    var rel, entered := RelationAt(reg, curr, q, j), visited + ModelsAlong(reg, curr, q)[..j + 1];
    multiset(entered)[entered[|entered| - 1]] == 1 ||
    (rel.reentrant && multiset(entered)[entered[|entered| - 1]]
                      <= if rel.maxDepth > 0 then rel.maxDepth else DEFAULT_REENTRANT_MAX_DEPTH)
  }

  /** The prefix that ends with the `j`-th relation is known already or may be entered. */
  ghost predicate AcceptsAt(reg: Registry, curr: Name, m: Maps, path: Path, visited: seq<Name>, q: Path, j: nat)
    requires curr in reg && CrossesRelations(reg, curr, q) && j < |q|
  {
    && q[j] != "" && |path| + j < MAX_SEGMENTS
    && (path + q[..j + 1] in m.toAlias || EntersAt(reg, curr, visited, q, j))
  }

  ghost predicate AcceptsAll(reg: Registry, curr: Name, m: Maps, path: Path, visited: seq<Name>, q: Path)
    requires curr in reg && CrossesRelations(reg, curr, q)
  {
    forall j | 0 <= j < |q| :: AcceptsAt(reg, curr, m, path, visited, q, j)
  }

  lemma {:induction false} TravelledCrosses(reg: Registry, curr: Name, segs: Path)
    requires Linked(reg) && AllSettle(reg) && curr in reg && Travelled(reg, curr, segs).Some?
    ensures CrossesRelations(reg, curr, Travelled(reg, curr, segs).value)
    decreases if IsExpanded(reg, curr, segs) then 0 else 1, |segs|
  {
    hide Settles, Expand;
    if segs != [] {
      if segs[0] in reg[curr].relations {
        var rel := reg[curr].relations[segs[0]];
        assert LinkedRelation(reg, rel);
        if !rel.polymorphic {
          TravelledCrosses(reg, rel.model, segs[1..]);
          var rest := Travelled(reg, rel.model, segs[1..]).value;
          assert ([segs[0]] + rest)[1..] == rest;
        }
      } else {
        ExpandExpands(reg, curr, segs);
        ExpandFixesExactlyExpanded(reg, curr, segs);
        TravelledCrosses(reg, curr, Expand(reg, curr, segs));
      }
    }
  }

  /** The first relation of a path, and the others seen from the model it leads to. */
  lemma AcceptsFirst(reg: Registry, curr: Name, m: Maps, path: Path, visited: seq<Name>, q: Path)
    requires curr in reg && CrossesRelations(reg, curr, q) && q != []
    ensures var rel := reg[curr].relations[q[0]];
      AcceptsAt(reg, curr, m, path, visited, q, 0) <==>
        q[0] != "" && |path| < MAX_SEGMENTS && (path + [q[0]] in m.toAlias || MayEnter(rel, visited))
  {
    var rel := reg[curr].relations[q[0]];
    assert ModelsAlong(reg, curr, q)[..1] == [rel.model] && q[..1] == [q[0]];
    assert multiset(visited + [rel.model]) == multiset(visited) + multiset{rel.model};
    assert (visited + [rel.model])[|visited|] == rel.model;
  }

  lemma AcceptsNext(reg: Registry, curr: Name, m: Maps, m': Maps, path: Path, visited: seq<Name>, q: Path, j: nat)
    requires curr in reg && CrossesRelations(reg, curr, q) && j + 1 < |q|
    requires forall p: Path | |p| > |path| + 1 :: p in m'.toAlias <==> p in m.toAlias
    ensures var next := NextModel(reg, curr, q[0]).value;
      AcceptsAt(reg, curr, m, path, visited, q, j + 1) <==>
      AcceptsAt(reg, next, m', path + [q[0]], visited + [next], q[1..], j)
  {
    hide EntersAt, ModelsAlong;
    assert path + q[..j + 2] == (path + [q[0]]) + q[1..][..j + 1];
    EntersNext(reg, curr, visited, q, j);
  }

  lemma EntersNext(reg: Registry, curr: Name, visited: seq<Name>, q: Path, j: nat)
    requires curr in reg && CrossesRelations(reg, curr, q) && j + 1 < |q|
    ensures var next := NextModel(reg, curr, q[0]).value;
      EntersAt(reg, curr, visited, q, j + 1) <==> EntersAt(reg, next, visited + [next], q[1..], j)
  {
    var next := NextModel(reg, curr, q[0]).value;
    EnteredNext(visited, next, ModelsAlong(reg, next, q[1..]), j);
  }

  lemma EnteredNext(visited: seq<Name>, next: Name, ms: seq<Name>, j: nat)
    requires j < |ms|
    ensures visited + ([next] + ms)[..j + 2] == (visited + [next]) + ms[..j + 1]
  {
  }

  lemma AcceptsCons(reg: Registry, curr: Name, m: Maps, m': Maps, path: Path, visited: seq<Name>, q: Path)
    requires curr in reg && CrossesRelations(reg, curr, q) && q != []
    requires forall p: Path | |p| > |path| + 1 :: p in m'.toAlias <==> p in m.toAlias
    ensures var next := NextModel(reg, curr, q[0]).value;
      AcceptsAll(reg, curr, m, path, visited, q) <==>
      AcceptsAt(reg, curr, m, path, visited, q, 0) &&
      AcceptsAll(reg, next, m', path + [q[0]], visited + [next], q[1..])
  {
    hide AcceptsAt, ModelsAlong;
    var next := NextModel(reg, curr, q[0]).value;
    forall j: nat | j + 1 < |q|
      ensures AcceptsAt(reg, curr, m, path, visited, q, j + 1) <==>
              AcceptsAt(reg, next, m', path + [q[0]], visited + [next], q[1..], j)
    {
      AcceptsNext(reg, curr, m, m', path, visited, q, j);
    }
    if AcceptsAt(reg, curr, m, path, visited, q, 0) &&
       AcceptsAll(reg, next, m', path + [q[0]], visited + [next], q[1..]) {
      forall j | 0 <= j < |q| ensures AcceptsAt(reg, curr, m, path, visited, q, j) {
        if j > 0 {
          assert AcceptsAt(reg, next, m', path + [q[0]], visited + [next], q[1..], j - 1);
        }
      }
    }
    if AcceptsAll(reg, curr, m, path, visited, q) {
      forall j | 0 <= j < |q[1..]| ensures AcceptsAt(reg, next, m', path + [q[0]], visited + [next], q[1..], j) {
        assert AcceptsAt(reg, curr, m, path, visited, q, j + 1);
      }
    }
  }

  ghost predicate Accepts(reg: Registry, curr: Name, m: Maps, path: Path, visited: seq<Name>, segs: Path)
    requires Linked(reg) && AllSettle(reg) && curr in reg
  {
    var q := Travelled(reg, curr, segs);
    q.Some? && CrossesRelations(reg, curr, q.value) && AcceptsAll(reg, curr, m, path, visited, q.value)
  }

  /** A walk accepts its path exactly when every relation on it may be entered. */
  lemma {:induction false} EnsureAcceptsExactly(reg: Registry, curr: Name, m: Maps, idx: nat, path: Path,
                                                visited: seq<Name>, segs: Path)
    requires Linked(reg) && AllSettle(reg) && curr in reg
    ensures Ensure(reg, curr, m, idx, path, visited, segs).ok <==> Accepts(reg, curr, m, path, visited, segs)
    decreases if IsExpanded(reg, curr, segs) then 0 else 1, |segs|
  {
    hide Settles, Expand, Registered, IndexAfter, MayEnter, AcceptsAt, AcceptsAll, IsExpanded, Linked, AllSettle;
    if segs == [] {
      NothingToAccept(reg, curr, m, path, visited);
    } else if segs[0] !in reg[curr].relations {
      EnsureAtAlias(reg, curr, m, idx, path, visited, segs);
      hide Ensure;
      if Expand(reg, curr, segs) != segs {
        EnsureAcceptsExactly(reg, curr, m, idx, path, visited, Expand(reg, curr, segs));
      }
    } else {
      EnsureAtRelation(reg, curr, m, idx, path, visited, segs);
      var rel, path' := reg[curr].relations[segs[0]], path + [segs[0]];
      if rel.polymorphic {
        NothingToAccept(reg, curr, m, path, visited);
      } else {
        hide Ensure;
        var m', idx' := Registered(m, idx, path'), IndexAfter(m, idx, path');
        RegisteredGrowsBy(m, idx, path');
        EnsureAcceptsExactly(reg, rel.model, m', idx', path', visited + [rel.model], segs[1..]);
        if Travelled(reg, rel.model, segs[1..]).Some? {
          TravelledCrosses(reg, curr, segs);
          TravelledCrosses(reg, rel.model, segs[1..]);
          var q := Travelled(reg, curr, segs).value;
          assert q[0] == segs[0] && q[1..] == Travelled(reg, rel.model, segs[1..]).value;
          AcceptsCons(reg, curr, m, m', path, visited, q);
          AcceptsFirst(reg, curr, m, path, visited, q);
        }
      }
    }
  }

  lemma NothingToAccept(reg: Registry, curr: Name, m: Maps, path: Path, visited: seq<Name>)
    requires curr in reg
    ensures CrossesRelations(reg, curr, []) && AcceptsAll(reg, curr, m, path, visited, [])
  {
  }

  lemma RegisteredGrowsBy(m: Maps, idx: nat, path: Path)
    ensures forall p: Path :: p in Registered(m, idx, path).toAlias <==> p == path || p in m.toAlias
  {
  }

  /** An accepted walk registers the prefixes of what it travels, and nothing else. */
  lemma {:induction false} EnsureGrowsBy(reg: Registry, curr: Name, m: Maps, idx: nat, path: Path,
                                         visited: seq<Name>, segs: Path, p: Path)
    requires Linked(reg) && AllSettle(reg) && curr in reg && Ensure(reg, curr, m, idx, path, visited, segs).ok
    ensures Travelled(reg, curr, segs).Some?
    ensures p in Ensure(reg, curr, m, idx, path, visited, segs).maps.toAlias <==>
            p in m.toAlias || IsPrefixFrom(path, Travelled(reg, curr, segs).value, p)
    decreases if IsExpanded(reg, curr, segs) then 0 else 1, |segs|
  {
    hide Settles, Expand, Registered, IndexAfter, MayEnter, IsExpanded, Linked, AllSettle;
    if segs == [] {
    } else if segs[0] !in reg[curr].relations {
      EnsureAtAlias(reg, curr, m, idx, path, visited, segs);
      hide Ensure;
      EnsureGrowsBy(reg, curr, m, idx, path, visited, Expand(reg, curr, segs), p);
    } else {
      EnsureAtRelation(reg, curr, m, idx, path, visited, segs);
      var rel, path' := reg[curr].relations[segs[0]], path + [segs[0]];
      if !rel.polymorphic {
        hide Ensure;
        var m', idx' := Registered(m, idx, path'), IndexAfter(m, idx, path');
        RegisteredGrowsBy(m, idx, path');
        EnsureGrowsBy(reg, rel.model, m', idx', path', visited + [rel.model], segs[1..], p);
        PrefixesFromFirst(path, segs[0], Travelled(reg, rel.model, segs[1..]).value, p);
      }
    }
  }

  ghost predicate IsPrefixFrom(path: Path, q: Path, p: Path) {
    exists k :: 0 < k <= |q| && p == path + q[..k]
  }

  lemma PrefixesFromFirst(path: Path, seg: Name, rest: Path, p: Path)
    ensures IsPrefixFrom(path, [seg] + rest, p) <==> p == path + [seg] || IsPrefixFrom(path + [seg], rest, p)
  {
    var q := [seg] + rest;
    if k :| 0 < k <= |q| && p == path + q[..k] {
      assert q[..k] == [seg] + rest[..k - 1];
      if k > 1 {
        assert 0 < k - 1 <= |rest| && p == (path + [seg]) + rest[..k - 1];
      } else {
        assert rest[..0] == [];
      }
    }
    if p == path + [seg] {
      assert q[..1] == [seg];
    }
    if k :| 0 < k <= |rest| && p == (path + [seg]) + rest[..k] {
      assert q[..k + 1] == [seg] + rest[..k];
      assert p == path + q[..k + 1];
    }
  }

  /** Whether a relation may be entered depends on the way there only. */
  lemma {:induction false} EntersSame(reg: Registry, curr: Name, visited: seq<Name>, q: Path, r: Path, j: nat)
    requires curr in reg && CrossesRelations(reg, curr, q) && CrossesRelations(reg, curr, r)
    requires j < |q| && j < |r| && q[..j + 1] == r[..j + 1]
    ensures EntersAt(reg, curr, visited, q, j) <==> EntersAt(reg, curr, visited, r, j)
    decreases j
  {
    hide EntersAt;
    assert q[0] == q[..j + 1][0] == r[..j + 1][0] == r[0];
    if j == 0 {
      EntersFirstSame(reg, curr, visited, q, r);
    } else {
      var next := NextModel(reg, curr, q[0]).value;
      assert q[1..][..j] == q[..j + 1][1..] && r[1..][..j] == r[..j + 1][1..];
      EntersNext(reg, curr, visited, q, j - 1);
      EntersNext(reg, curr, visited, r, j - 1);
      EntersSame(reg, next, visited + [next], q[1..], r[1..], j - 1);
    }
  }

  lemma EntersFirstSame(reg: Registry, curr: Name, visited: seq<Name>, q: Path, r: Path)
    requires curr in reg && CrossesRelations(reg, curr, q) && CrossesRelations(reg, curr, r)
    requires q != [] && r != [] && q[0] == r[0]
    ensures EntersAt(reg, curr, visited, q, 0) <==> EntersAt(reg, curr, visited, r, 0)
  {
    var next := NextModel(reg, curr, q[0]).value;
    assert ModelsAlong(reg, curr, q)[..1] == [next] == ModelsAlong(reg, curr, r)[..1];
  }

  /** A path read from the root, when some paths have aliases already. */
  ghost predicate Acceptable(reg: Registry, root: Name, m: Maps, p: Path)
    requires Linked(reg) && AllSettle(reg) && root in reg
  {
    Accepts(reg, root, m, [], [], p)
  }

  /** The aliases that other accepted paths have brought make no path acceptable that was not, and none refused. */
  lemma OthersDoNotMatter(reg: Registry, root: Name, m: Maps, w: Maps, paths: seq<Path>, p: Path)
    requires Linked(reg) && AllSettle(reg) && root in reg
    requires forall i | 0 <= i < |paths| :: Acceptable(reg, root, m, paths[i])
    requires forall a <- m.toAlias :: a in w.toAlias
    requires forall a <- w.toAlias ::
      a in m.toAlias || exists i :: 0 <= i < |paths| && TravelsTo(reg, root, paths[i], a)
    ensures Acceptable(reg, root, w, p) <==> Acceptable(reg, root, m, p)
  {
    hide Linked, AllSettle, EntersAt, Travelled, CrossesRelations;
    var q := Travelled(reg, root, p);
    if q.Some? && CrossesRelations(reg, root, q.value) {
      forall j | 0 <= j < |q.value|
        ensures AcceptsAt(reg, root, w, [], [], q.value, j) <==> AcceptsAt(reg, root, m, [], [], q.value, j)
      {
        var a := [] + q.value[..j + 1];
        if a in w.toAlias && a !in m.toAlias {
          var i :| 0 <= i < |paths| && TravelsTo(reg, root, paths[i], a);
          var r := Travelled(reg, root, paths[i]).value;
          var k :| 0 < k <= |r| && a == [] + r[..k];
          assert k == |a| == j + 1 && r[..j + 1] == a == q.value[..j + 1];
          assert Acceptable(reg, root, m, paths[i]) && AcceptsAt(reg, root, m, [], [], r, j);
          EntersSame(reg, root, [], q.value, r, j);
        }
      }
    }
  }

  /** `a` is a prefix of what the path travels. */
  ghost predicate TravelsTo(reg: Registry, root: Name, p: Path, a: Path)
    requires Linked(reg) && AllSettle(reg) && root in reg
  {
    Travelled(reg, root, p).Some? && IsPrefixFrom([], Travelled(reg, root, p).value, a)
  }

  lemma {:induction false} EnsureAllAcceptsExactly(reg: Registry, root: Name, m: Maps, idx: nat, paths: seq<Path>)
    requires Linked(reg) && AllSettle(reg) && root in reg
    ensures var w := EnsureAll(reg, root, m, idx, paths);
      && (w.ok <==> forall i | 0 <= i < |paths| :: Acceptable(reg, root, m, paths[i]))
      && (w.ok ==> forall a: Path :: a in w.maps.toAlias <==>
            a in m.toAlias || exists i :: 0 <= i < |paths| && TravelsTo(reg, root, paths[i], a))
  {
    hide Linked, AllSettle, Ensure, Acceptable, TravelsTo;
    if paths != [] {
      var n := |paths| - 1;
      var init, last := paths[..n], paths[n];
      EnsureAllAcceptsExactly(reg, root, m, idx, init);
      var before := EnsureAll(reg, root, m, idx, init);
      if before.ok {
        OthersDoNotMatter(reg, root, m, before.maps, init, last);
        AcceptsFromRoot(reg, root, before.maps, before.idx, last);
        assert before.ok && EnsureAll(reg, root, m, idx, paths)
          == Ensure(reg, root, before.maps, before.idx, [], [], last);
        if EnsureAll(reg, root, m, idx, paths).ok {
          forall a: Path ensures a in EnsureAll(reg, root, m, idx, paths).maps.toAlias <==>
            a in before.maps.toAlias || TravelsTo(reg, root, last, a)
          {
            RootGrowsBy(reg, root, before.maps, before.idx, last, a);
          }
          assert paths == init + [last];
        }
      }
    }
  }

  lemma AcceptsFromRoot(reg: Registry, root: Name, m: Maps, idx: nat, p: Path)
    requires Linked(reg) && AllSettle(reg) && root in reg
    ensures Ensure(reg, root, m, idx, [], [], p).ok <==> Acceptable(reg, root, m, p)
  {
    EnsureAcceptsExactly(reg, root, m, idx, [], [], p);
  }

  lemma RootGrowsBy(reg: Registry, root: Name, m: Maps, idx: nat, p: Path, a: Path)
    requires Linked(reg) && AllSettle(reg) && root in reg && Ensure(reg, root, m, idx, [], [], p).ok
    ensures a in Ensure(reg, root, m, idx, [], [], p).maps.toAlias <==> a in m.toAlias || TravelsTo(reg, root, p, a)
  {
    EnsureGrowsBy(reg, root, m, idx, [], [], p, a);
  }

  /** An expanded path is travelled if it consists of relations up to its end or a polymorphic one. */
  lemma {:induction false} ExpandedIsTravelled(reg: Registry, curr: Name, p: Path)
    requires Linked(reg) && AllSettle(reg) && curr in reg && IsExpanded(reg, curr, p)
    requires forall i | 0 <= i < |p| :: p[i] != ""
    ensures Travelled(reg, curr, p).Some? <==> JoinableLength(reg, curr, p) == |p| || CutByPolymorphic(reg, curr, p)
    ensures Travelled(reg, curr, p).Some? ==> Travelled(reg, curr, p).value == p[..JoinableLength(reg, curr, p)]
    decreases |p|
  {
    hide Settles, AllSettle;
    ExpandFixesExactlyExpanded(reg, curr, p);
    if p != [] && p[0] in reg[curr].relations {
      var rel := reg[curr].relations[p[0]];
      assert LinkedRelation(reg, rel);
      if !rel.polymorphic {
        ExpandedIsTravelled(reg, rel.model, p[1..]);
        var n := JoinableLength(reg, rel.model, p[1..]);
        assert p[..n + 1] == [p[0]] + p[1..][..n];
      }
    }
  }

  /** A path that enters no model twice is never refused. */
  lemma FreshPathIsAcceptable(reg: Registry, root: Name, m: Maps, p: Path)
    requires Linked(reg) && AllSettle(reg) && root in reg && Travelled(reg, root, p).Some?
    requires var q := Travelled(reg, root, p).value;
      && |q| <= MAX_SEGMENTS && (forall j | 0 <= j < |q| :: q[j] != "")
      && CrossesRelations(reg, root, q)
      && forall i, j | 0 <= i < j < |q| :: ModelsAlong(reg, root, q)[i] != ModelsAlong(reg, root, q)[j]
    ensures Acceptable(reg, root, m, p)
  {
    hide Linked, AllSettle, Travelled, RelationAt, CrossesRelations;
    var q := Travelled(reg, root, p).value;
    var ms := ModelsAlong(reg, root, q);
    forall j | 0 <= j < |q| ensures AcceptsAt(reg, root, m, [], [], q, j) {
      assert [] + ms[..j + 1] == ms[..j] + [ms[j]];
      assert ms[j] !in ms[..j];
    }
  }

  // ----- BuildAliasMap -----

  /** Every path in turn, until one is refused. */
  ghost function EnsureAll(reg: Registry, root: Name, m: Maps, idx: nat, paths: seq<Path>): Walk
    requires Linked(reg) && AllSettle(reg) && root in reg
  {
    if paths == [] then Walk(m, idx, true)
    else
      var w := EnsureAll(reg, root, m, idx, paths[..|paths| - 1]);
      if !w.ok then w else Ensure(reg, root, w.maps, w.idx, [], [], paths[|paths| - 1])
  }

  lemma {:induction false} EnsureAllKeepsGood(reg: Registry, root: Name, m: Maps, idx: nat, paths: seq<Path>)
    requires Linked(reg) && AllSettle(reg) && root in reg && Good(m)
    ensures var w := EnsureAll(reg, root, m, idx, paths); Good(w.maps) && Extends(w.maps, m)
  {
    hide Good, Extends, Ensure, Linked, AllSettle;
    ExtendsItself(m);
    if paths != [] {
      EnsureAllKeepsGood(reg, root, m, idx, paths[..|paths| - 1]);
      var w := EnsureAll(reg, root, m, idx, paths[..|paths| - 1]);
      EnsureKeepsGood(reg, root, w.maps, w.idx, [], [], paths[|paths| - 1]);
      ExtendsTransitive(m, w.maps, Ensure(reg, root, w.maps, w.idx, [], [], paths[|paths| - 1]).maps);
    }
  }

  lemma {:induction false} EnsureAllCovers(reg: Registry, root: Name, m: Maps, idx: nat, paths: seq<Path>, p: Path,
                                           k: nat)
    requires Linked(reg) && AllSettle(reg) && root in reg && Good(m) && EnsureAll(reg, root, m, idx, paths).ok
    requires p in paths && IsExpanded(reg, root, p)
    ensures 0 < k <= JoinableLength(reg, root, p) ==> p[..k] in EnsureAll(reg, root, m, idx, paths).maps.toAlias
    ensures JoinableLength(reg, root, p) == |p| || CutByPolymorphic(reg, root, p)
  {
    hide Good, Ensure, Linked, AllSettle, IsExpanded, JoinableLength, CutByPolymorphic;
    var init, last := paths[..|paths| - 1], paths[|paths| - 1];
    var w := EnsureAll(reg, root, m, idx, init);
    EnsureAllKeepsGood(reg, root, m, idx, init);
    EnsureKeepsGood(reg, root, w.maps, w.idx, [], [], last);
    if p == last {
      AcceptedIsJoinable(reg, root, w.maps, w.idx, [], [], p);
      if 0 < k <= JoinableLength(reg, root, p) {
        EnsureCovers(reg, root, w.maps, w.idx, [], [], p, k);
        assert [] + p[..k] == p[..k];
      }
    } else {
      assert p in init;
      EnsureAllCovers(reg, root, m, idx, init, p, k);
    }
  }

  /** The alias map of a request: the preset's own aliases, then the extra relation paths in sorted order.
      None when a path is refused. */
  ghost function Built(reg: Registry, root: Name, preset: Option<Maps>, extra: set<Path>): Option<Maps>
    requires Linked(reg) && AllSettle(reg) && root in reg
  {
    var m := if preset.Some? then preset.value else NO_ALIASES;
    var idx := if preset.Some? then NextIndex(m.toPath) else 0;
    var w := EnsureAll(reg, root, m, idx, PathOrder.SortedPaths(extra));
    if w.ok then Some(w.maps) else None
  }

  function PresetMaps(preset: Option<Maps>): Maps {
    if preset.Some? then preset.value else NO_ALIASES
  }

  /** A request is accepted exactly when each of its extra paths is, given the aliases of its preset, and then just the
      prefixes they travel are added: the order of the paths does not matter. */
  lemma BuiltExactly(reg: Registry, root: Name, preset: Option<Maps>, extra: set<Path>)
    requires Linked(reg) && AllSettle(reg) && root in reg
    ensures Built(reg, root, preset, extra).Some? <==>
            forall p <- extra | PathOrder.IsProper(p) :: Acceptable(reg, root, PresetMaps(preset), p)
    ensures Built(reg, root, preset, extra).Some? ==>
            forall a: Path :: a in Built(reg, root, preset, extra).value.toAlias <==>
              a in PresetMaps(preset).toAlias
              || exists p <- extra :: PathOrder.IsProper(p) && TravelsTo(reg, root, p, a)
  {
    hide Linked, AllSettle, EnsureAll, Acceptable, TravelsTo, PathOrder.IsProper;
    var m, paths := PresetMaps(preset), PathOrder.SortedPaths(extra);
    EnsureAllAcceptsExactly(reg, root, m, if preset.Some? then NextIndex(m.toPath) else 0, paths);
    forall p <- extra | PathOrder.IsProper(p) ensures exists i :: 0 <= i < |paths| && paths[i] == p {
      assert p in paths;
    }
    forall i | 0 <= i < |paths| ensures paths[i] in extra && PathOrder.IsProper(paths[i]) {
      assert paths[i] in paths;
    }
  }

  ghost predicate GoodPreset(preset: Option<Maps>) {
    preset.Some? ==> Good(preset.value)
  }

  /** What every built alias map guarantees: an inverse, prefix-closed pair of projections that keeps the
      preset's aliases and covers each extra path as far as it can be joined. */
  lemma BuiltGuarantees(reg: Registry, root: Name, preset: Option<Maps>, extra: set<Path>, p: Path, k: nat)
    requires Linked(reg) && AllSettle(reg) && root in reg && GoodPreset(preset)
    requires Built(reg, root, preset, extra).Some?
    ensures var m := Built(reg, root, preset, extra).value;
      && Good(m) && (preset.Some? ==> Extends(m, preset.value))
      && (p in extra && PathOrder.IsProper(p) && IsExpanded(reg, root, p) ==>
            && (JoinableLength(reg, root, p) == |p| || CutByPolymorphic(reg, root, p))
            && (0 < k <= JoinableLength(reg, root, p) ==> p[..k] in m.toAlias))
  {
    EmptyIsGood();
    hide Good, Extends, EnsureAll, Linked, AllSettle, IsExpanded, JoinableLength, CutByPolymorphic;
    var m := if preset.Some? then preset.value else NO_ALIASES;
    var idx := if preset.Some? then NextIndex(m.toPath) else 0;
    EnsureAllKeepsGood(reg, root, m, idx, PathOrder.SortedPaths(extra));
    if p in extra && PathOrder.IsProper(p) && IsExpanded(reg, root, p) {
      EnsureAllCovers(reg, root, m, idx, PathOrder.SortedPaths(extra), p, k);
    }
  }

  lemma EmptyIsGood()
    ensures Good(NO_ALIASES)
  {
  }

  /** The shared, growing object behind an alias map. */
  class AliasMap {
    var pathToAlias: map<Path, TableAlias>
    var aliasToPath: map<TableAlias, Path>

    constructor (m: Maps)
      ensures View() == m
    {
      pathToAlias, aliasToPath := m.toAlias, m.toPath;
    }

    function View(): Maps
      reads this
    {
      Maps(pathToAlias, aliasToPath)
    }

    /** nextAlias: the search for a free "tN" ends. */
    method NextAlias(nextIdx: nat) returns (alias: TableAlias, idx: nat)
      ensures alias == T(NextFree(aliasToPath, nextIdx)) && idx == NextFree(aliasToPath, nextIdx) + 1
    {
      idx := nextIdx;
      while true
        invariant NextFree(aliasToPath, nextIdx) == NextFree(aliasToPath, idx)
        decreases NextFree(aliasToPath, nextIdx) - idx
      {
        alias := T(idx);
        idx := idx + 1;
        if alias !in aliasToPath {
          return;
        }
      }
    }

    /** detectNextAliasIndex: aliases in any order. */
    method DetectNextAliasIndex() returns (n: nat)
      ensures n == NextIndex(aliasToPath)
    {
      n := 0;
      var todo := aliasToPath.Keys;
      while todo != {}
        invariant todo <= aliasToPath.Keys
        invariant forall a <- aliasToPath.Keys - todo | a.T? :: a.index < n
        invariant n > 0 ==> T(n - 1) in aliasToPath
      {
        var a :| a in todo;
        todo := todo - {a};
        if a.T? && a.index >= n {
          n := a.index + 1;
        }
      }
      NextIndexIsUnique(aliasToPath, n, NextIndex(aliasToPath));
    }

    /** The part of ensureAliasPath that gives a new prefix its alias, if its model may be entered again. */
    method RegisterPath(rel: Relation, path: Path, stack: seq<Name>, nextIdx: nat) returns (ok: bool, idx: nat)
      requires path !in pathToAlias
      modifies this
      ensures ok <==> MayEnter(rel, stack)
      ensures rel.model !in stack ==> ok
      ensures rel.model in stack ==>
        (ok <==> rel.reentrant && multiset(stack)[rel.model]
                                  < if rel.maxDepth > 0 then rel.maxDepth else DEFAULT_REENTRANT_MAX_DEPTH)
      ensures ok ==> View() == Register(old(View()), nextIdx, path)
      ensures ok ==> idx == NextFree(old(aliasToPath), nextIdx) + 1
      ensures !ok ==> View() == old(View()) && idx == nextIdx
    {
      idx := nextIdx;
      var repeats := CountModelIn(stack, rel.model);
      if repeats > 0 && (!rel.reentrant || repeats + 1 > EffectiveMaxDepth(0, rel.maxDepth)) {
        return false, idx;
      }
      var alias;
      alias, idx := NextAlias(nextIdx);
      pathToAlias := pathToAlias[path := alias];
      aliasToPath := aliasToPath[alias := path];
      return true, idx;
    }

    /** ensureAliasPath: walks the path, registering every prefix that has no alias yet. What was
        registered before a refusal stays. */
    method EnsureAliasPath(reg: Registry, root: Name, fullPath: Path, nextIdx: nat) returns (ok: bool, idx: nat)
      requires Linked(reg) && AllSettle(reg) && root in reg
      modifies this
      ensures Walk(View(), idx, ok) == Ensure(reg, root, old(View()), nextIdx, [], [], fullPath)
    {
      hide Ensure, Linked, Settles, IsExpanded, Expand, AllSettle, MayEnter, Register;
      var segs, i, curr, path: Path, stack: seq<Name> := fullPath, 0, root, [], [];
      idx := nextIdx;
      ghost var unexpanded := !IsExpanded(reg, root, fullPath);
      assert segs[0..] == segs;
      while i < |segs|
        invariant 0 <= i <= |segs| && curr in reg && |path| == i
        invariant Ensure(reg, curr, View(), idx, path, stack, segs[i..])
               == Ensure(reg, root, old(View()), nextIdx, [], [], fullPath)
        invariant !unexpanded ==> IsExpanded(reg, curr, segs[i..])
        decreases unexpanded, |segs| - i
      {
        var seg := segs[i];
        assert segs[i..][0] == seg && segs[i..][1..] == segs[i + 1..];
        if seg !in reg[curr].relations {
          var remaining := segs[i..];
          EnsureAtAlias(reg, curr, View(), idx, path, stack, remaining);
          var expanded := ExpandAliasPath(reg, curr, remaining);
          if expanded == remaining {
            return false, idx;
          }
          segs, unexpanded := segs[..i] + expanded, false;
          assert segs[i..] == expanded;
          continue;
        }
        var rel := reg[curr].relations[seg];
        EnsureAtRelation(reg, curr, View(), idx, path, stack, segs[i..]);
        if rel.polymorphic {
          return true, idx;
        }
        ghost var m, idx0, path0, visited := View(), idx, path, stack;
        path := path + [seg];
        if path !in pathToAlias {
          ok, idx := RegisterPath(rel, path, stack, idx);
          if !ok {
            return;
          }
        }
        assert View() == Registered(m, idx0, path) && idx == IndexAfter(m, idx0, path);
        assert path in m.toAlias || MayEnter(rel, visited);
        stack := stack + [rel.model];
        curr := rel.model;
        if seg == "" || i >= MAX_SEGMENTS {
          return false, idx;
        }
        i := i + 1;
      }
      assert segs[i..] == [];
      EnsureAtEnd(reg, curr, View(), idx, path, stack);
      return true, idx;
    }
  }

  /** countModelIn */
  method CountModelIn(stack: seq<Name>, x: Name) returns (c: nat)
    ensures c == multiset(stack)[x]
  {
    c := 0;
    for i := 0 to |stack|
      invariant c == multiset(stack[..i])[x]
    {
      assert stack[..i + 1] == stack[..i] + [stack[i]];
      if stack[i] == x {
        c := c + 1;
      }
    }
    assert stack[..|stack|] == stack;
  }

  /** BuildAliasMap. `sorts` holds the fields of the sort terms, `computable` the paths inside computable
      expressions. */
  method BuildAliasMap(reg: Registry, root: Name, preset: Option<Maps>, filters: Filter, sorts: seq<Path>,
                       computable: seq<Path>) returns (am: AliasMap?)
    requires Linked(reg) && AllSettle(reg) && root in reg
    ensures am != null ==> fresh(am)
    ensures Built(reg, root, preset, ExtraPaths(filters, sorts, computable))
         == if am == null then None else Some(am.View())
    ensures am != null <==> forall p <- ExtraPaths(filters, sorts, computable) | PathOrder.IsProper(p) ::
      Acceptable(reg, root, PresetMaps(preset), p)
  {
    BuiltExactly(reg, root, preset, ExtraPaths(filters, sorts, computable));
    hide Acceptable;
    var aliases := new AliasMap(if preset.Some? then preset.value else NO_ALIASES);
    var nextIdx := 0;
    if preset.Some? {
      nextIdx := aliases.DetectNextAliasIndex();
    }
    var a := PathsFromFilters(filters);
    var b := PathsFromFields(sorts);
    var extra := PathOrder.MergeAndSortPaths(a, b, computable);
    assert (set p | p in a + b + computable) == ExtraPaths(filters, sorts, computable);
    var ok, idx := EnsureAliasPaths(reg, root, aliases, extra, nextIdx);
    am := if ok then aliases else null;
  }

  function ExtraPaths(filters: Filter, sorts: seq<Path>, computable: seq<Path>): set<Path> {
    FilterPaths(filters) + Prefixes(sorts) + set p | p in computable
  }

  /** They are the relation prefixes of the fields that filters mention and of the sort fields, and the computable
      paths. */
  lemma ExtraPathsAre(filters: Filter, sorts: seq<Path>, computable: seq<Path>, q: Path)
    ensures q in ExtraPaths(filters, sorts, computable) <==>
            q in computable || exists p: Path :: (Mentions(filters, p) || p in sorts) && |p| > 1 && q == p[..|p| - 1]
  {
    hide FilterPaths, Mentions;
    FilterPathsOfMentions(filters, q);
  }

  /** The loop over the sorted extra paths; also what CreateAliasMapForAggregates runs on a cached map. */
  method EnsureAliasPaths(reg: Registry, root: Name, am: AliasMap, paths: seq<Path>, nextIdx: nat)
    returns (ok: bool, idx: nat)
    requires Linked(reg) && AllSettle(reg) && root in reg
    modifies am
    ensures Walk(am.View(), idx, ok) == EnsureAll(reg, root, old(am.View()), nextIdx, paths)
  {
    hide Ensure, Linked, AllSettle;
    ok, idx := true, nextIdx;
    for i := 0 to |paths|
      invariant ok && Walk(am.View(), idx, ok) == EnsureAll(reg, root, old(am.View()), nextIdx, paths[..i])
    {
      assert paths[..i + 1][..i] == paths[..i];
      ok, idx := am.EnsureAliasPath(reg, root, paths[i], idx);
      if !ok {
        RefusedStaysRefused(reg, root, old(am.View()), nextIdx, paths, i + 1);
        return;
      }
    }
    assert paths[..|paths|] == paths;
  }

  lemma {:induction false} RefusedStaysRefused(reg: Registry, root: Name, m: Maps, idx: nat, paths: seq<Path>, i: nat)
    requires Linked(reg) && AllSettle(reg) && root in reg && i <= |paths|
    requires !EnsureAll(reg, root, m, idx, paths[..i]).ok
    ensures EnsureAll(reg, root, m, idx, paths) == EnsureAll(reg, root, m, idx, paths[..i])
  {
    hide Ensure, Linked, AllSettle;
    if i < |paths| {
      assert paths[..|paths| - 1][..i] == paths[..i];
      RefusedStaysRefused(reg, root, m, idx, paths[..|paths| - 1], i);
    } else {
      assert paths[..i] == paths;
    }
  }
}
