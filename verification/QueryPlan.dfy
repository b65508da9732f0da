/** The parts of a count query put together (internal/model/BuildCountQuery.go): path collection, alias building,
    join detection and WHERE building must agree on what every table alias stands for. */
module QueryPlan {
  import opened Common
  import opened Schema
  import opened Filters
  import opened AliasExpansion
  import opened AliasMaps
  import opened Joins
  import opened Rows
  import opened CountQuery
  import opened WhereSplit
  import opened Normalization
  import PathOrder
  import AliasServer

  /** resolveFieldExpression for plain columns: the alias of the relation prefix and the column. */
  function ResolveColumn(am: map<Path, TableAlias>, field: Path): Option<Expr> {
    if field == [] then None
    else if |field| == 1 then Some(Column(Main, field[0]))
    else
      var prefix := field[..|field| - 1];
      if prefix in am then Some(Column(am[prefix], field[|field| - 1])) else Some(Unresolved(field))
  }

  function ColumnContext(am: map<Path, TableAlias>, aggregate: Expr -> bool): Context {
    Context(field => ResolveColumn(am, field), aggregate)
  }

  /** A tree over plain columns: every mentioned field is expanded, names a relation before its first dot and crosses no
      polymorphic relation. */
  ghost predicate PlainTree(reg: Registry, root: Name, filters: Filter)
    requires root in reg
  {
    forall p | Mentions(filters, p) :: IsExpanded(reg, root, p) && PlainField(reg, root, p)
  }

  predicate PlainField(reg: Registry, root: Name, p: Path)
    requires root in reg
  {
    && p != []
    && (|p| > 1 ==> PathOrder.IsProper(p[..|p| - 1]) && !CutByPolymorphic(reg, root, p[..|p| - 1]))
  }

  /** A request over plain columns, as it is written: so is every field once its aliases are expanded. */
  ghost predicate PlainRequest(reg: Registry, root: Name, filters: Filter)
    requires AllSettle(reg) && root in reg
  {
    forall p | Mentions(filters, p) :: PlainField(reg, root, Expand(reg, root, p))
  }

  lemma NormalizedIsPlain(reg: Registry, root: Name, filters: Filter, r: Filter)
    requires AllSettle(reg) && root in reg && PlainRequest(reg, root, filters) && IsNormalization(reg, root, filters, r)
    ensures PlainTree(reg, root, r)
  {
    hide AllSettle, PlainField, IsNormalization, IsExpanded, Mentions;
    forall p | Mentions(r, p) ensures IsExpanded(reg, root, p) && PlainField(reg, root, p) {
      NormalizedFields(reg, root, filters, r, p);
      var q :| Mentions(filters, q) && ExpandsFrom(reg, root, q, p);
    }
  }

  /** The column names a table of the query, and reads the field it was written for. */
  ghost predicate StandsFor(m: Maps, joins: seq<JoinSpec>, expr: Expr, p: Path) {
    expr.Column? &&
    if expr.table == Main then p == [expr.column]
    else expr.table in Aliases(joins) && expr.table in m.toPath && p == m.toPath[expr.table] + [expr.column]
  }

  lemma GoodIsInjective(m: Maps)
    requires Good(m)
    ensures InjectiveNumbered(m.toAlias)
  {
    forall p <- m.toAlias ensures m.toAlias[p].T? {
      assert m.toAlias[p] in m.toPath;
    }
    forall p <- m.toAlias, q <- m.toAlias | m.toAlias[p] == m.toAlias[q] ensures p == q {
      assert m.toPath[m.toAlias[p]] == p && m.toPath[m.toAlias[q]] == q;
    }
  }

  /** An alias map that covers what a request needs: built for it, or grown from such a map. */
  ghost predicate Covers(reg: Registry, root: Name, m: Maps, paths: set<Path>)
    requires root in reg
  {
    Good(m) && forall q <- paths | PathOrder.IsProper(q) && IsExpanded(reg, root, q) :: CoversPath(reg, root, m, q)
  }

  ghost predicate CoversPath(reg: Registry, root: Name, m: Maps, q: Path)
    requires root in reg
  {
    && (JoinableLength(reg, root, q) == |q| || CutByPolymorphic(reg, root, q))
    && PrefixesIn(m.toAlias, q[..JoinableLength(reg, root, q)])
  }

  /** What BuildAliasMap returns covers its extra paths, and stays covering however it grows. */
  lemma BuiltCovers(reg: Registry, root: Name, preset: Option<Maps>, extra: set<Path>, grown: Maps)
    requires Linked(reg) && AllSettle(reg) && root in reg && GoodPreset(preset)
    requires Built(reg, root, preset, extra).Some? && Good(grown)
      && Extends(grown, Built(reg, root, preset, extra).value)
    ensures Covers(reg, root, grown, extra)
  {
    hide Good, Linked, AllSettle, GoodPreset, Built, IsExpanded, JoinableLength, CutByPolymorphic;
    var m := Built(reg, root, preset, extra).value;
    forall q <- extra | PathOrder.IsProper(q) && IsExpanded(reg, root, q) ensures CoversPath(reg, root, grown, q) {
      BuiltGuarantees(reg, root, preset, extra, q, 0);
      var n := JoinableLength(reg, root, q);
      forall k | 0 < k <= |q[..n]| ensures q[..n][..k] in grown.toAlias {
        BuiltGuarantees(reg, root, preset, extra, q, k);
        assert q[..n][..k] == q[..k];
      }
    }
  }

  /** Every column compiled from a filter is in scope and stands for exactly the field written in the filter. */
  lemma FilterColumnStandsForField(reg: Registry, root: Name, m: Maps, ch: Choices, filters: Filter,
                                   fields: seq<Path>, p: Path)
    requires Linked(reg) && AllSettle(reg) && root in reg && Allowed(reg, ch)
    requires PlainTree(reg, root, filters) && Covers(reg, root, m, FilterPaths(filters))
    requires (forall q <- FilterPaths(filters) :: q in fields) && DetectAll(reg, root, m.toAlias, ch, fields).Some?
    requires Mentions(filters, p)
    ensures ResolveColumn(m.toAlias, p).Some?
    ensures StandsFor(m, DetectAll(reg, root, m.toAlias, ch, fields).value, ResolveColumn(m.toAlias, p).value, p)
  {
    hide Linked, AllSettle, Allowed, DetectAll, Aliases, Mentions, FilterPaths, IsExpanded, CutByPolymorphic, Covers;
    assert PlainField(reg, root, p);
    if |p| > 1 {
      var q := p[..|p| - 1];
      FilterPathsOfMentions(filters, q);
      PrefixOfExpanded(reg, root, p, |p| - 1);
      RelationPathIsJoined(reg, root, m, ch, FilterPaths(filters), fields, q);
      assert p == q + [p[|p| - 1]];
    }
  }

  lemma RelationPathIsJoined(reg: Registry, root: Name, m: Maps, ch: Choices, paths: set<Path>, fields: seq<Path>,
                             q: Path)
    requires Linked(reg) && AllSettle(reg) && root in reg && Allowed(reg, ch) && Covers(reg, root, m, paths)
    requires DetectAll(reg, root, m.toAlias, ch, fields).Some? && q in paths && q in fields
    requires PathOrder.IsProper(q) && IsExpanded(reg, root, q) && !CutByPolymorphic(reg, root, q)
    ensures q in m.toAlias && m.toAlias[q].T? && m.toAlias[q] in m.toPath && m.toPath[m.toAlias[q]] == q
    ensures m.toAlias[q] in Aliases(DetectAll(reg, root, m.toAlias, ch, fields).value)
  {
    hide Linked, AllSettle, Allowed, DetectAll, Aliases, IsExpanded, JoinableLength, CutByPolymorphic, DistinctAliases,
         WellScoped, Joinable, InjectiveNumbered;
    assert CoversPath(reg, root, m, q);
    assert q[..|q|] == q && q in m.toAlias;
    GoodIsInjective(m);
    JoinListIsCorrect(reg, root, m.toAlias, ch, fields);
    JoinableOfExpanded(reg, root, q);
    assert IsPrefixOfSome(reg, root, fields, q);
  }

  lemma JoinableOfExpanded(reg: Registry, root: Name, q: Path)
    requires AllSettle(reg) && root in reg && IsExpanded(reg, root, q)
    ensures Joinable(reg, root, q) == q[..JoinableLength(reg, root, q)]
  {
    hide AllSettle, Expand, JoinableLength, IsExpanded;
    ExpandFixesExactlyExpanded(reg, root, q);
  }

  // ----- the relation paths of a request -----

  /** A relation prefix of a field the filters mention, aliases expanded. */
  ghost predicate IsRequestPath(reg: Registry, root: Name, filters: Filter, q: Path)
    requires AllSettle(reg) && root in reg
  {
    q != [] && exists p :: Mentions(filters, p) && q < Expand(reg, root, p)
  }

  /** A relation prefix of a field of an already expanded tree. */
  ghost predicate IsTreePath(filters: Filter, q: Path) {
    q != [] && exists p :: Mentions(filters, p) && q < p
  }

  lemma RequestPathsAreTreePaths(reg: Registry, root: Name, filters: Filter, r: Filter, q: Path)
    requires AllSettle(reg) && root in reg && IsNormalization(reg, root, filters, r)
    ensures IsRequestPath(reg, root, filters, q) <==> IsTreePath(r, q)
  {
    hide IsNormalization, Mentions, Settles, Expand;
    if q != [] {
      if p :| Mentions(filters, p) && q < Expand(reg, root, p) {
        NormalizedFields(reg, root, filters, r, Expand(reg, root, p));
        assert ExpandsFrom(reg, root, p, Expand(reg, root, p));
      }
      if p :| Mentions(r, p) && q < p {
        NormalizedFields(reg, root, filters, r, p);
        var o :| Mentions(filters, o) && ExpandsFrom(reg, root, o, p);
      }
    }
  }

  /** Normalising the filters again, in another order of the keys, mentions the same fields; so an alias map
      prepared for one result is prepared for all. */
  ghost predicate Prepared(reg: Registry, root: Name, m: Maps, filters: Filter)
    requires AllSettle(reg) && root in reg
  {
    forall r | IsNormalization(reg, root, filters, r) :: Covers(reg, root, m, FilterPaths(r))
  }

  lemma SameFilterPaths(reg: Registry, root: Name, filters: Filter, r: Filter, s: Filter)
    requires AllSettle(reg) && root in reg
    requires IsNormalization(reg, root, filters, r) && IsNormalization(reg, root, filters, s)
    ensures FilterPaths(r) == FilterPaths(s)
  {
    hide AllSettle, IsNormalization, Mentions, FilterPaths, ExpandsFrom;
    forall p ensures Mentions(r, p) <==> Mentions(s, p) {
      NormalizedFields(reg, root, filters, r, p);
      NormalizedFields(reg, root, filters, s, p);
    }
    forall q ensures q in FilterPaths(r) <==> q in FilterPaths(s) {
      FilterPathsOfMentions(r, q);
      FilterPathsOfMentions(s, q);
    }
  }

  /** The map CreateAliasMap serves for a request, however grown since, is prepared for its filters. */
  lemma ServedMapIsPrepared(reg: Registry, root: Name, preset: Option<Maps>, filters: Filter, r: Filter,
                            sorts: seq<Path>, computable: seq<Path>, grown: Maps)
    requires Linked(reg) && AllSettle(reg) && root in reg && GoodPreset(preset)
      && IsNormalization(reg, root, filters, r)
    requires Built(reg, root, preset, ExtraPaths(r, sorts, computable)).Some?
    requires Good(grown) && Extends(grown, Built(reg, root, preset, ExtraPaths(r, sorts, computable)).value)
    ensures Prepared(reg, root, grown, filters)
  {
    hide Linked, AllSettle, GoodPreset, IsNormalization, Built, Good, Extends, CoversPath, FilterPaths;
    BuiltCovers(reg, root, preset, ExtraPaths(r, sorts, computable), grown);
    forall s | IsNormalization(reg, root, filters, s) ensures Covers(reg, root, grown, FilterPaths(s)) {
      SameFilterPaths(reg, root, filters, r, s);
    }
  }

  /** So is every map that serves the request in the cache's sense. */
  lemma ServingMapIsPrepared(w: AliasServer.World, m: Maps, req: AliasServer.Request, filters: Filter)
    requires AliasServer.Sound(w) && req.model in w.reg && IsNormalization(w.reg, req.model, filters, req.filters)
    requires AliasServer.ServesRequest(w, m, req)
    ensures Prepared(w.reg, req.model, m, filters)
  {
    hide Linked, AllSettle, IsNormalization, Good, FilterPaths, IsExpanded, JoinableLength, CutByPolymorphic;
    forall q <- FilterPaths(req.filters) | PathOrder.IsProper(q) && IsExpanded(w.reg, req.model, q)
      ensures CoversPath(w.reg, req.model, m, q)
    {
      assert q in AliasServer.ExtraFor(w, req);
      assert AliasServer.CoversPath(w, req.model, m, q);
      var n := JoinableLength(w.reg, req.model, q);
      forall k | 0 < k <= |q[..n]| ensures q[..n][..k] in m.toAlias {
        assert q[..n][..k] == q[..k];
      }
    }
    forall s | IsNormalization(w.reg, req.model, filters, s) ensures Covers(w.reg, req.model, m, FilterPaths(s)) {
      SameFilterPaths(w.reg, req.model, filters, req.filters, s);
    }
  }

  /** Covering needs no more than the paths of plain fields. */
  lemma CoveredFields(reg: Registry, root: Name, m: Maps, filters: Filter, fields: seq<Path>)
    requires AllSettle(reg) && root in reg && PlainTree(reg, root, filters)
      && Covers(reg, root, m, FilterPaths(filters))
    requires forall q :: q in fields <==> q in FilterPaths(filters)
    ensures AllCovered(reg, root, m.toAlias, fields)
    ensures forall q <- fields :: Joinable(reg, root, q) == q
  {
    hide AllSettle, IsExpanded, CutByPolymorphic, Mentions, FilterPaths, PrefixesIn, Good, Joinable, JoinableLength;
    forall q <- fields ensures Joinable(reg, root, q) == q && PrefixesIn(m.toAlias, q) {
      FilterPathsOfMentions(filters, q);
      var p :| Mentions(filters, p) && |p| > 1 && q == p[..|p| - 1];
      assert PlainField(reg, root, p);
      PrefixOfExpanded(reg, root, p, |p| - 1);
      assert CoversPath(reg, root, m, q);
      JoinableOfExpanded(reg, root, q);
      assert q[..|q|] == q;
    }
  }

  /** The paths join detection visits are the relation paths of the tree. */
  lemma VisitedAreTreePaths(reg: Registry, root: Name, filters: Filter, fields: seq<Path>, q: Path)
    requires AllSettle(reg) && root in reg && (forall q :: q in fields <==> q in FilterPaths(filters))
    requires forall q <- fields :: Joinable(reg, root, q) == q
    ensures q in VisitedAll(reg, root, fields) <==> IsTreePath(filters, q)
  {
    hide AllSettle, Mentions, FilterPaths, Joinable, VisitedAll;
    VisitedAllElements(reg, root, fields, q);
    if f :| f in fields && q != [] && q <= Joinable(reg, root, f) {
      FilterPathsOfMentions(filters, f);
      var p :| Mentions(filters, p) && |p| > 1 && f == p[..|p| - 1];
      assert q < p;
    }
    if q != [] {
      if p :| Mentions(filters, p) && q < p {
        FilterPathsOfMentions(filters, p[..|p| - 1]);
        assert q <= p[..|p| - 1];
      }
    }
  }

  // ----- BuildCountQuery -----

  /** A flat count, or a count over the groups that pass HAVING. */
  datatype CountPlan = Flat(query: Query, where: Option<Cond>)
                     | Grouped(query: Query, where: Option<Cond>, having: Cond)

  function HavingOf(plan: CountPlan): Option<Cond> {
    if plan.Flat? then None else Some(plan.having)
  }

  /** Every column of the clause stands for a field of the filters. */
  ghost predicate ClauseInScope(m: Maps, joins: seq<JoinSpec>, filters: Filter, clause: Option<Cond>) {
    clause.Some? ==> forall a <- Atoms(clause.value) :: exists p ::
      Mentions(filters, p) && StandsFor(m, joins, a.expr, p)
  }

  /** ... of the filters as they were written: for the expansion of a mentioned field. */
  ghost predicate ClauseInRequest(reg: Registry, root: Name, m: Maps, joins: seq<JoinSpec>, filters: Filter,
                                  clause: Option<Cond>)
    requires AllSettle(reg) && root in reg
  {
    clause.Some? ==> forall a <- Atoms(clause.value) ::
      exists p :: Mentions(filters, p) && StandsFor(m, joins, a.expr, Expand(reg, root, p))
  }

  /** Every `through` relation on the way to a mentioned field has its link. */
  ghost predicate RequestLinked(reg: Registry, root: Name, filters: Filter)
    requires AllSettle(reg) && root in reg
  {
    forall q | IsRequestPath(reg, root, filters, q) :: PathLinked(reg, root, q)
  }

  /** Every relation on the way to a mentioned field leads to one row at most. */
  ghost predicate RequestReferencesOnce(db: Database, reg: Registry, root: Name, ch: Choices, filters: Filter)
    requires AllSettle(reg) && root in reg
  {
    forall q | IsRequestPath(reg, root, filters, q) :: PathReferencesOnce(db, reg, root, ch, q)
  }

  /** In every joined row the alias of each relation path of the request holds the row that the path leads to. */
  ghost predicate AliasesReadPaths(reg: Registry, root: Name, m: Maps, ch: Choices, filters: Filter, query: Query)
    requires AllSettle(reg) && root in reg
  {
    forall db: Database, extra: ExtraCondition, e: Env, q: Path |
      OwnRowOnly(extra) && IsRequestPath(reg, root, filters, q)
      && e in JoinRows(db, MainRows(Table(db, query.table)), query.joins, extra) ::
      Visitable(reg, root, m.toAlias, q) && ReadsPath(db, reg, root, m.toAlias, ch, q, query.joins, extra, e)
  }

  /** The truth of every condition on every joined row. */
  type RowReading = Env -> Assignment

  function ClauseHolds(clause: Option<Cond>, reading: RowReading): Condition {
    env => EvalClause(clause, reading(env)) == True
  }

  ghost function FilterHolds(ctx: Context, filters: Filter, reading: RowReading): Condition {
    env => Unsplit(ctx, filters, reading(env)) == True
  }

  /** The count is the number of root rows with a joined row on which the filter tree, as it was written, is true: for
      every database in which the count can be right at all. */
  ghost predicate CountsFilteredRoots(reg: Registry, root: Name, ctx: Context, filters: Filter, query: Query,
                                      where: Option<Cond>)
    requires root in reg
  {
    forall db: Database, extra: ExtraCondition, reading: RowReading |
      IdentifiedById(Table(db, query.table))
      && (query.distinct || OneRowEach(db, Table(db, query.table), query.joins, extra)) ::
      Answer(db, query, extra, ClauseHolds(where, reading))
      == CountRoots(db, Table(db, query.table), query.joins, extra, FilterHolds(ctx, filters, reading))
  }

  /** Exactly those databases, and among them all in which the relations of the request lead to one row at most. */
  ghost predicate CountsExactly(reg: Registry, root: Name, ch: Choices, filters: Filter, query: Query)
    requires AllSettle(reg) && root in reg
  {
    forall db: Database, extra: ExtraCondition | IdentifiedById(Table(db, query.table)) ::
      && (CountsRoots(db, query.table, query.joins, extra) <==>
            query.distinct || OneRowEach(db, Table(db, query.table), query.joins, extra))
      && (RequestReferencesOnce(db, reg, root, ch, filters) ==> CountsRoots(db, query.table, query.joins, extra))
  }

  lemma {:induction false} SatisfyingAgrees(envs: seq<Env>, a: Condition, b: Condition)
    requires forall e: Env :: a(e) == b(e)
    ensures Satisfying(envs, a) == Satisfying(envs, b)
  {
    if envs != [] {
      SatisfyingAgrees(envs[1..], a, b);
    }
  }

  lemma {:induction false} CountRootsAgrees(db: Database, rows: seq<Row>, joins: seq<JoinSpec>, extra: ExtraCondition,
                                            a: Condition, b: Condition)
    requires forall e: Env :: a(e) == b(e)
    ensures CountRoots(db, rows, joins, extra, a) == CountRoots(db, rows, joins, extra, b)
  {
    hide JoinRows, Satisfying;
    if rows != [] {
      SatisfyingAgrees(JoinRows(db, [MainRow(rows[0])], joins, extra), a, b);
      CountRootsAgrees(db, rows[1..], joins, extra, a, b);
    }
  }

  lemma CompiledCountsFilter(reg: Registry, root: Name, ctx: Context, filters: Filter, query: Query,
                             where: Option<Cond>)
    requires root in reg && DistinctAliases(query.joins) && WellScoped(query.joins)
      && query.distinct == AnyDistinct(query.joins)
    requires forall sigma: Assignment :: EvalClause(where, sigma) == Unsplit(ctx, filters, sigma)
    ensures CountsFilteredRoots(reg, root, ctx, filters, query, where)
  {
    hide DistinctAliases, WellScoped, AnyDistinct, IdentifiedById, OneRowEach, Answer, CountRoots, EvalClause,
         Unsplit, Table;
    forall db: Database, extra: ExtraCondition, reading: RowReading |
      IdentifiedById(Table(db, query.table))
      && (query.distinct || OneRowEach(db, Table(db, query.table), query.joins, extra))
      ensures Answer(db, query, extra, ClauseHolds(where, reading))
           == CountRoots(db, Table(db, query.table), query.joins, extra, FilterHolds(ctx, filters, reading))
    {
      CountIsExact(db, query.table, query.joins, extra);
      CountRootsAgrees(db, Table(db, query.table), query.joins, extra, ClauseHolds(where, reading),
                       FilterHolds(ctx, filters, reading));
    }
  }

  /** What join detection gives a plain tree whose paths are covered. */
  lemma DetectedJoins(reg: Registry, root: Name, m: Maps, ch: Choices, filters: Filter, r: Filter, fields: seq<Path>)
    requires Linked(reg) && AllSettle(reg) && root in reg && Allowed(reg, ch) && IsNormalization(reg, root, filters, r)
    requires PlainTree(reg, root, r) && Covers(reg, root, m, FilterPaths(r))
    requires forall q :: q in fields <==> q in FilterPaths(r)
    ensures InjectiveNumbered(m.toAlias) && AllCovered(reg, root, m.toAlias, fields)
    ensures DetectAll(reg, root, m.toAlias, ch, fields).Some? <==> RequestLinked(reg, root, filters)
    ensures forall q :: q in VisitedAll(reg, root, fields) <==> IsRequestPath(reg, root, filters, q)
  {
    hide Linked, AllSettle, Allowed, IsNormalization, PlainTree, FilterPaths, DetectAll, VisitedAll, PathLinked,
         IsRequestPath, IsTreePath, AllCovered, InjectiveNumbered, Good, CoversPath, Joinable;
    GoodIsInjective(m);
    CoveredFields(reg, root, m, r, fields);
    forall q ensures q in VisitedAll(reg, root, fields) <==> IsRequestPath(reg, root, filters, q) {
      VisitedAreTreePaths(reg, root, r, fields, q);
      RequestPathsAreTreePaths(reg, root, filters, r, q);
    }
    DetectionIsExact(reg, root, m.toAlias, ch, fields);
    LinkedByElements(reg, root, VisitedAll(reg, root, fields));
  }

  lemma LinkedByElements(reg: Registry, root: Name, ps: seq<Path>)
    requires root in reg
    ensures PathsLinked(reg, root, ps) <==> forall q <- ps :: PathLinked(reg, root, q)
  {
    hide PathLinked;
  }

  lemma ReferencesByElements(db: Database, reg: Registry, root: Name, ch: Choices, ps: seq<Path>)
    requires root in reg
    ensures PathsReferenceOnce(db, reg, root, ch, ps) <==> forall q <- ps :: PathReferencesOnce(db, reg, root, ch, q)
  {
    hide PathReferencesOnce;
  }

  lemma CountOfPlan(reg: Registry, root: Name, m: Maps, ch: Choices, filters: Filter, r: Filter, fields: seq<Path>,
                    query: Query)
    requires Linked(reg) && AllSettle(reg) && root in reg && Allowed(reg, ch) && IsNormalization(reg, root, filters, r)
    requires PlainTree(reg, root, r) && Covers(reg, root, m, FilterPaths(r))
    requires forall q :: q in fields <==> q in FilterPaths(r)
    requires DetectAll(reg, root, m.toAlias, ch, fields) == Some(query.joins)
    requires query == Query(reg[root].table, query.joins, AnyDistinct(query.joins))
    ensures DistinctAliases(query.joins) && WellScoped(query.joins)
    ensures CountsExactly(reg, root, ch, filters, query)
  {
    hide Linked, AllSettle, Allowed, IsNormalization, PlainTree, FilterPaths, DetectAll, VisitedAll,
         IsRequestPath, CountsRoots, AllCovered, InjectiveNumbered, Covers, AnyDistinct, IdentifiedById,
         OneRowEach, PathReferencesOnce, Table, DistinctAliases, WellScoped, PathsReferenceOnce;
    DetectedJoins(reg, root, m, ch, filters, r, fields);
    JoinListIsCorrect(reg, root, m.toAlias, ch, fields);
    forall db: Database, extra: ExtraCondition | IdentifiedById(Table(db, query.table))
      ensures CountsRoots(db, query.table, query.joins, extra) <==>
                query.distinct || OneRowEach(db, Table(db, query.table), query.joins, extra)
      ensures RequestReferencesOnce(db, reg, root, ch, filters) ==> CountsRoots(db, query.table, query.joins, extra)
    {
      CountIsExact(db, query.table, query.joins, extra);
      if RequestReferencesOnce(db, reg, root, ch, filters) {
        ReferencesByElements(db, reg, root, ch, VisitedAll(reg, root, fields));
        CountIsCorrect(db, reg, root, m.toAlias, ch, fields, extra);
      }
    }
  }

  lemma PathsOfPlan(reg: Registry, root: Name, m: Maps, ch: Choices, filters: Filter, r: Filter, fields: seq<Path>,
                    query: Query)
    requires Linked(reg) && AllSettle(reg) && root in reg && Allowed(reg, ch) && IsNormalization(reg, root, filters, r)
    requires PlainTree(reg, root, r) && Covers(reg, root, m, FilterPaths(r))
    requires forall q :: q in fields <==> q in FilterPaths(r)
    requires DetectAll(reg, root, m.toAlias, ch, fields) == Some(query.joins)
    ensures AliasesReadPaths(reg, root, m, ch, filters, query)
  {
    hide Linked, AllSettle, Allowed, IsNormalization, PlainTree, FilterPaths, DetectAll, VisitedAll,
         IsRequestPath, AllCovered, InjectiveNumbered, Covers, Table, DistinctAliases, WellScoped, JoinRows,
         OwnRowOnly, ReadsPath, Visitable, JoinsOf, VisitOrder, AllVisitable, MainRows;
    DetectedJoins(reg, root, m, ch, filters, r, fields);
    DetectAllVisits(reg, root, m.toAlias, ch, fields);
    JoinListIsCorrect(reg, root, m.toAlias, ch, fields);
    forall db: Database, extra: ExtraCondition, e: Env, q: Path |
      OwnRowOnly(extra) && IsRequestPath(reg, root, filters, q)
      && e in JoinRows(db, MainRows(Table(db, query.table)), query.joins, extra)
      ensures Visitable(reg, root, m.toAlias, q) && ReadsPath(db, reg, root, m.toAlias, ch, q, query.joins, extra, e)
    {
      VisitedAliasReadsPath(db, reg, root, m.toAlias, ch, VisitedAll(reg, root, fields),
                            MainRows(Table(db, query.table)), extra, e, q);
    }
  }

  lemma ClauseScope(reg: Registry, root: Name, m: Maps, ch: Choices, filters: Filter, fields: seq<Path>,
                    joins: seq<JoinSpec>, aggregate: Expr -> bool, clause: Option<Cond>)
    requires Linked(reg) && AllSettle(reg) && root in reg && Allowed(reg, ch)
    requires PlainTree(reg, root, filters) && Covers(reg, root, m, FilterPaths(filters))
    requires (forall q <- FilterPaths(filters) :: q in fields)
      && DetectAll(reg, root, m.toAlias, ch, fields) == Some(joins)
    requires clause.Some? ==> forall a <- Atoms(clause.value) ::
      FromFilter(ColumnContext(m.toAlias, aggregate), filters, a)
    ensures ClauseInScope(m, joins, filters, clause)
  {
    hide Linked, AllSettle, Allowed, DetectAll, FilterPaths, PlainTree, Covers, StandsFor, Mentions;
    if clause.Some? {
      forall a <- Atoms(clause.value) ensures exists p :: Mentions(filters, p) && StandsFor(m, joins, a.expr, p) {
        var ctx := ColumnContext(m.toAlias, aggregate);
        assert FromFilter(ctx, filters, a);
        var p :| Mentions(filters, p) && ctx.resolve(p) == Some(a.expr);
        FilterColumnStandsForField(reg, root, m, ch, filters, fields, p);
      }
    }
  }

  lemma ClauseOfRequest(reg: Registry, root: Name, m: Maps, joins: seq<JoinSpec>, filters: Filter, r: Filter,
                        clause: Option<Cond>)
    requires AllSettle(reg) && root in reg && IsNormalization(reg, root, filters, r)
      && ClauseInScope(m, joins, r, clause)
    ensures ClauseInRequest(reg, root, m, joins, filters, clause)
  {
    hide IsNormalization, Mentions, StandsFor, Atoms, Settles, Expand;
    if clause.Some? {
      forall a <- Atoms(clause.value)
        ensures exists p :: Mentions(filters, p) && StandsFor(m, joins, a.expr, Expand(reg, root, p))
      {
        var p :| Mentions(r, p) && StandsFor(m, joins, a.expr, p);
        NormalizedFields(reg, root, filters, r, p);
        var q :| Mentions(filters, q) && ExpandsFrom(reg, root, q, p);
      }
    }
  }

  /** The compiled clauses of the normalised tree mean the filters as they were written. */
  lemma MeaningOfRequest(reg: Registry, root: Name, ctx: Context, filters: Filter, r: Filter, where: Option<Cond>,
                         having: Option<Cond>)
    requires AllSettle(reg) && root in reg && IsNormalization(reg, root, filters, r)
    requires GroupsOnly(filters) && KeepsMeaning(reg, root, filters)
    requires GroupsOnly(r) ==> ClausesMeanUnsplit(ctx, r, where, having)
    ensures ClausesMeanUnsplit(ReadThroughAliases(reg, root, ctx), filters, where, having)
  {
    hide AllSettle, IsNormalization, GroupsOnly, KeepsMeaning, Unsplit, EvalClause, ReadThroughAliases;
    NormalizationKeepsGroupsOnly(reg, root, filters, r);
    forall sigma: Assignment
      ensures Meet(EvalClause(where, sigma), EvalClause(having, sigma))
           == Unsplit(ReadThroughAliases(reg, root, ctx), filters, sigma)
    {
      NormalizationKeepsMeaning(reg, root, ctx, filters, r, sigma);
    }
  }

  lemma OnlyWhere(ctx: Context, filters: Filter, where: Option<Cond>)
    requires ClausesMeanUnsplit(ctx, filters, where, None)
    ensures forall sigma: Assignment :: EvalClause(where, sigma) == Unsplit(ctx, filters, sigma)
  {
    hide Unsplit;
    forall sigma: Assignment ensures EvalClause(where, sigma) == Unsplit(ctx, filters, sigma) {
      assert Meet(EvalClause(where, sigma), EvalClause(None, sigma)) == Unsplit(ctx, filters, sigma);
    }
  }

  /** The truth of every condition on every group of joined rows, for conditions on aggregates. */
  type GroupReading = seq<Env> -> Assignment

  function GroupHolds(clause: Option<Cond>, reading: GroupReading): seq<Env> -> bool {
    group => EvalClause(clause, reading(group)) == True
  }

  /** A grouped plan counts the root rows whose joined rows satisfying WHERE, taken together, satisfy HAVING. */
  ghost predicate CountsPassingGroups(query: Query, where: Option<Cond>, having: Option<Cond>) {
    forall db: Database, extra: ExtraCondition, reading: RowReading, groups: GroupReading |
      IdentifiedById(Table(db, query.table)) ::
      GroupedAnswer(db, query, extra, ClauseHolds(where, reading), GroupHolds(having, groups))
      == CountRootGroups(db, Table(db, query.table), query.joins, extra, ClauseHolds(where, reading),
                         GroupHolds(having, groups))
  }

  lemma PlanCountsPassingGroups(query: Query, where: Option<Cond>, having: Option<Cond>)
    requires DistinctAliases(query.joins) && WellScoped(query.joins)
    ensures CountsPassingGroups(query, where, having)
  {
    hide DistinctAliases, WellScoped, IdentifiedById, JoinRows, PassingIds, CountRootGroups, Table, Satisfying;
    forall db: Database, extra: ExtraCondition, reading: RowReading, groups: GroupReading |
      IdentifiedById(Table(db, query.table))
      ensures GroupedAnswer(db, query, extra, ClauseHolds(where, reading), GroupHolds(having, groups))
           == CountRootGroups(db, Table(db, query.table), query.joins, extra, ClauseHolds(where, reading),
                              GroupHolds(having, groups))
    {
      GroupsAreRoots(db, Table(db, query.table), query.joins, extra, ClauseHolds(where, reading),
                     GroupHolds(having, groups));
    }
  }

  /** All that a plan promises about the filters as they were written. */
  ghost predicate IsCorrectPlan(reg: Registry, root: Name, m: Maps, ch: Choices, filters: Filter,
                                aggregate: Expr -> bool, plan: CountPlan)
    requires AllSettle(reg) && root in reg
  {
    var columns := ColumnContext(m.toAlias, aggregate);
    var ctx := ReadThroughAliases(reg, root, columns);
    && plan.query.table == reg[root].table
    && ClauseInRequest(reg, root, m, plan.query.joins, filters, plan.where)
    && (plan.Grouped? ==> ClauseInRequest(reg, root, m, plan.query.joins, filters, Some(plan.having)))
    && AliasesReadPaths(reg, root, m, ch, filters, plan.query)
    && CountsExactly(reg, root, ch, filters, plan.query)
    && (plan.where.Some? ==> !HasAggregate(columns, plan.where.value))
    && (plan.Grouped? ==> HasAggregate(columns, plan.having))
    && (plan.Grouped? ==> CountsPassingGroups(plan.query, plan.where, Some(plan.having)))
    && (GroupsOnly(filters) && KeepsMeaning(reg, root, filters) ==>
          && ClausesMeanUnsplit(ctx, filters, plan.where, HavingOf(plan))
          && (plan.Flat? ==> CountsFilteredRoots(reg, root, ctx, filters, plan.query, plan.where)))
  }

  /** BuildCountQuery for a request without computable fields: there is a plan if and only if the relations of
      the request are linked, and it counts what the filters, as they were written, ask for. */
  method BuildCountQuery(reg: Registry, root: Name, am: AliasMap, ch: Choices, filters: Filter, aggregate: Expr -> bool)
    returns (plan: Option<CountPlan>)
    requires Linked(reg) && AllSettle(reg) && root in reg && Allowed(reg, ch)
    requires PlainRequest(reg, root, filters) && Prepared(reg, root, am.View(), filters)
    ensures plan.Some? <==> RequestLinked(reg, root, filters)
    ensures plan.Some? ==> IsCorrectPlan(reg, root, am.View(), ch, filters, aggregate, plan.value)
  {
    hide Linked, AllSettle, Allowed, DetectAll, IsNormalization, PlainRequest, PlainTree, Covers, FilterPaths,
         RequestLinked, ClauseInScope, ClauseInRequest, AliasesReadPaths, CountsExactly, CountsFilteredRoots,
         GroupsOnly, KeepsMeaning, Unsplit, SpineTruth, HasAggregate, AnyDistinct, AllCovered, InjectiveNumbered,
         VisitedAll, IsRequestPath, AllOf, DroppedAtoms, DistinctAliases, WellScoped, ReadThroughAliases,
         CountsPassingGroups;
    var r := NormalizeFilters(reg, root, filters);
    NormalizedIsPlain(reg, root, filters, r);
    var filterKeys := PathsFromFilters(r);
    var detector := new JoinDetector(reg, am.pathToAlias, ch);
    var joins, ok := detector.DetectJoins(root, filterKeys, [], []);
    assert filterKeys + [] + [] == filterKeys;
    DetectedJoins(reg, root, am.View(), ch, filters, r, filterKeys);
    if !ok {
      return None;
    }
    var query := ChooseCount(reg[root].table, joins);
    var ctx := ColumnContext(am.pathToAlias, aggregate);
    var where, having := BuildWhereClause(ctx, r);
    CountOfPlan(reg, root, am.View(), ch, filters, r, filterKeys, query);
    PathsOfPlan(reg, root, am.View(), ch, filters, r, filterKeys, query);
    ClauseScope(reg, root, am.View(), ch, r, filterKeys, joins, aggregate, where);
    ClauseScope(reg, root, am.View(), ch, r, filterKeys, joins, aggregate, having);
    ClauseOfRequest(reg, root, am.View(), joins, filters, r, where);
    ClauseOfRequest(reg, root, am.View(), joins, filters, r, having);
    PlanCountsPassingGroups(query, where, having);
    if GroupsOnly(filters) && KeepsMeaning(reg, root, filters) {
      MeaningOfRequest(reg, root, ctx, filters, r, where, having);
      if having.None? {
        OnlyWhere(ReadThroughAliases(reg, root, ctx), filters, where);
        CompiledCountsFilter(reg, root, ReadThroughAliases(reg, root, ctx), filters, query, where);
      }
    }
    plan := Some(if having.None? then Flat(query, where) else Grouped(query, where, having.value));
  }
}
