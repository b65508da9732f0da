/** The count of root rows (internal/model/BuildCountQuery.go): COUNT(*) or COUNT(DISTINCT main.id). */
module CountQuery {
  import opened Common
  import opened Schema
  import opened Filters
  import opened AliasExpansion
  import opened AliasMaps
  import opened Joins
  import opened Rows

  type Condition = Env -> bool

  /** SELECT COUNT(...) FROM `table` AS main <joins> WHERE <where>. */
  datatype Query = Query(table: string, joins: seq<JoinSpec>, distinct: bool)

  predicate AnyDistinct(joins: seq<JoinSpec>) {
    exists j <- joins :: j.distinct
  }

  /** The loop of BuildCountQuery that decides between COUNT(*) and COUNT(DISTINCT main.id). */
  method ChooseCount(table: string, joins: seq<JoinSpec>) returns (q: Query)
    ensures q == Query(table, joins, AnyDistinct(joins))
  {
    var hasDistinct := false;
    for i := 0 to |joins|
      invariant hasDistinct <==> exists j <- joins[..i] :: j.distinct
    {
      if joins[i].distinct {
        hasDistinct := true;
      }
    }
    q := Query(table, joins, hasDistinct);
  }

  function MainRow(r: Row): Env {
    map[Main := r]
  }

  function MainRows(rows: seq<Row>): seq<Env> {
    if rows == [] then [] else [MainRow(rows[0])] + MainRows(rows[1..])
  }

  function Satisfying(envs: seq<Env>, where: Condition): seq<Env> {
    if envs == [] then []
    else Kept(envs[0], where) + Satisfying(envs[1..], where)
  }

  function Kept(env: Env, where: Condition): seq<Env> {
    if where(env) then [env] else []
  }

  const MAIN_ID := ColumnRef(Main, "id")

  /** The non-null values of main.id. */
  function Ids(envs: seq<Env>): set<Cell> {
    set e | e in envs && Get(e, MAIN_ID) != Null :: Get(e, MAIN_ID)
  }

  /** The number the database returns. */
  function Answer(db: Database, q: Query, extra: ExtraCondition, where: Condition): nat {
    var rows := Satisfying(JoinRows(db, MainRows(Table(db, q.table)), q.joins, extra), where);
    if q.distinct then |Ids(rows)| else |rows|
  }

  /** A root row counts when one of its joined rows satisfies WHERE. */
  predicate Counts(db: Database, r: Row, joins: seq<JoinSpec>, extra: ExtraCondition, where: Condition) {
    Satisfying(JoinRows(db, [MainRow(r)], joins, extra), where) != []
  }

  function CountRoots(db: Database, rows: seq<Row>, joins: seq<JoinSpec>, extra: ExtraCondition,
                      where: Condition): nat {
    if rows == [] then 0
    else (if Counts(db, rows[0], joins, extra, where) then 1 else 0) + CountRoots(db, rows[1..], joins, extra, where)
  }

  lemma {:induction false} SatisfyingMeans(envs: seq<Env>, where: Condition, e: Env)
    ensures e in Satisfying(envs, where) <==> e in envs && where(e)
  {
    if envs != [] {
      SatisfyingMeans(envs[1..], where, e);
      assert envs == [envs[0]] + envs[1..];
    }
  }

  lemma SatisfyingUnfold(envs: seq<Env>, where: Condition)
    ensures Satisfying(envs, where) == if envs == [] then [] else Kept(envs[0], where) + Satisfying(envs[1..], where)
  {
  }

  lemma {:induction false} SatisfyingAppend(a: seq<Env>, b: seq<Env>, where: Condition)
    ensures Satisfying(a + b, where) == Satisfying(a, where) + Satisfying(b, where)
  {
    hide Kept, Satisfying;
    SatisfyingUnfold(a, where);
    if a == [] {
      assert a + b == b;
    } else {
      SatisfyingUnfold(a + b, where);
      SatisfyingAppend(a[1..], b, where);
      assert (a + b)[1..] == a[1..] + b;
    }
  }

  // ----- COUNT(*): every join keeps one row per row -----

  /** No two rows of the table share a non-null value in the column. */
  ghost predicate UniqueColumn(rows: seq<Row>, column: string) {
    forall i, j | 0 <= i < j < |rows| :: CellOf(rows[i], column) != Null ==>
      CellOf(rows[i], column) != CellOf(rows[j], column)
  }

  /** A join on a unique column of the joined table. */
  ghost predicate SingleMatch(db: Database, j: JoinSpec) {
    j.right.table == j.alias && j.left.table != j.alias && UniqueColumn(Table(db, j.table), j.right.column)
  }

  lemma {:induction false} NoMatchWithout(rows: seq<Row>, env: Env, j: JoinSpec, extra: ExtraCondition)
    requires j.right.table == j.alias && j.left.table != j.alias
    requires forall r <- rows :: CellOf(r, j.right.column) != Get(env, j.left) || Get(env, j.left) == Null
    ensures Rows.Matching(rows, env, j, extra) == []
  {
    if rows != [] {
      assert rows[0] in rows && forall r <- rows[1..] :: r in rows;
      NoMatchWithout(rows[1..], env, j, extra);
    }
  }

  /** Two rows of the table carry the key. */
  ghost predicate Repeated(rows: seq<Row>, column: string, key: Cell) {
    key != Null && exists i, j :: 0 <= i < j < |rows| && CellOf(rows[i], column) == CellOf(rows[j], column) == key
  }

  lemma {:induction false} AtMostOneMatch(rows: seq<Row>, env: Env, j: JoinSpec, extra: ExtraCondition)
    requires j.right.table == j.alias && j.left.table != j.alias && !Repeated(rows, j.right.column, Get(env, j.left))
    ensures |Rows.Matching(rows, env, j, extra)| <= 1
  {
    if rows != [] {
      var e := env[j.alias := rows[0]];
      if Matches(e, j) {
        forall r <- rows[1..] ensures CellOf(r, j.right.column) != Get(env, j.left) {
          var k :| 0 <= k < |rows[1..]| && rows[1..][k] == r;
          assert rows[k + 1] == r;
        }
        NoMatchWithout(rows[1..], env, j, extra);
      } else {
        forall k, l | 0 <= k < l < |rows[1..]| ensures rows[1..][k] == rows[k + 1] && rows[1..][l] == rows[l + 1] {
        }
        AtMostOneMatch(rows[1..], env, j, extra);
      }
    }
  }

  lemma {:induction false} SingleMatchKeepsCount(db: Database, envs: seq<Env>, j: JoinSpec, extra: ExtraCondition)
    requires SingleMatch(db, j)
    ensures |ExtendAll(db, envs, j, extra)| == |envs|
  {
    if envs != [] {
      AtMostOneMatch(Table(db, j.table), envs[0], j, extra);
      SingleMatchKeepsCount(db, envs[1..], j, extra);
    }
  }

  lemma {:induction false} SingleMatchesKeepCount(db: Database, envs: seq<Env>, joins: seq<JoinSpec>,
                                                  extra: ExtraCondition)
    requires forall j <- joins :: SingleMatch(db, j)
    ensures |JoinRows(db, envs, joins, extra)| == |envs|
    decreases |joins|
  {
    hide SingleMatch, ExtendAll;
    if joins != [] {
      SingleMatchesKeepCount(db, envs, joins[..|joins| - 1], extra);
      SingleMatchKeepsCount(db, JoinRows(db, envs, joins[..|joins| - 1], extra), joins[|joins| - 1], extra);
    }
  }

  /** Every row of the root table has exactly one joined row. */
  ghost predicate OneRowEach(db: Database, rows: seq<Row>, joins: seq<JoinSpec>, extra: ExtraCondition) {
    forall r <- rows :: |JoinRows(db, [MainRow(r)], joins, extra)| == 1
  }

  lemma SingleMatchesGiveOneRowEach(db: Database, rows: seq<Row>, joins: seq<JoinSpec>, extra: ExtraCondition)
    requires forall j <- joins :: SingleMatch(db, j)
    ensures OneRowEach(db, rows, joins, extra)
  {
    hide SingleMatch, JoinRows;
    forall r <- rows ensures |JoinRows(db, [MainRow(r)], joins, extra)| == 1 {
      SingleMatchesKeepCount(db, [MainRow(r)], joins, extra);
    }
  }

  lemma StarOfOneMore(db: Database, rows: seq<Row>, joins: seq<JoinSpec>, extra: ExtraCondition, where: Condition)
    requires rows != []
    ensures |Satisfying(JoinRows(db, MainRows(rows), joins, extra), where)|
         == |Satisfying(JoinRows(db, [MainRow(rows[0])], joins, extra), where)|
            + |Satisfying(JoinRows(db, MainRows(rows[1..]), joins, extra), where)|
  {
    hide JoinRows, Satisfying;
    JoinRowsAppend(db, [MainRow(rows[0])], MainRows(rows[1..]), joins, extra);
    SatisfyingAppend(JoinRows(db, [MainRow(rows[0])], joins, extra), JoinRows(db, MainRows(rows[1..]), joins, extra),
      where);
  }

  lemma {:induction false} SatisfyingShrinks(envs: seq<Env>, where: Condition)
    ensures |Satisfying(envs, where)| <= |envs|
    ensures (forall e: Env :: where(e)) ==> Satisfying(envs, where) == envs
  {
    if envs != [] {
      SatisfyingShrinks(envs[1..], where);
    }
  }

  /** COUNT(*) is the number of roots when each has one joined row. */
  lemma {:induction false} CountStarIsRootCount(db: Database, rows: seq<Row>, joins: seq<JoinSpec>,
                                                extra: ExtraCondition, where: Condition)
    requires OneRowEach(db, rows, joins, extra)
    ensures |Satisfying(JoinRows(db, MainRows(rows), joins, extra), where)| == CountRoots(db, rows, joins, extra, where)
  {
    hide JoinRows;
    if rows == [] {
      NoRows(db, joins, extra);
    } else {
      assert rows[0] in rows && forall r <- rows[1..] :: r in rows;
      CountStarIsRootCount(db, rows[1..], joins, extra, where);
      StarOfOneMore(db, rows, joins, extra, where);
      SatisfyingShrinks(JoinRows(db, [MainRow(rows[0])], joins, extra), where);
    }
  }

  // ----- and COUNT(*) counts too many otherwise -----

  lemma {:induction false} ExtendKeepsRows(db: Database, envs: seq<Env>, j: JoinSpec, extra: ExtraCondition)
    ensures |ExtendAll(db, envs, j, extra)| >= |envs|
  {
    if envs != [] {
      ExtendKeepsRows(db, envs[1..], j, extra);
    }
  }

  /** LEFT JOIN loses no row. */
  lemma {:induction false} JoiningKeepsRows(db: Database, envs: seq<Env>, joins: seq<JoinSpec>, extra: ExtraCondition)
    ensures |JoinRows(db, envs, joins, extra)| >= |envs|
    decreases |joins|
  {
    hide ExtendAll;
    if joins != [] {
      JoiningKeepsRows(db, envs, joins[..|joins| - 1], extra);
      ExtendKeepsRows(db, JoinRows(db, envs, joins[..|joins| - 1], extra), joins[|joins| - 1], extra);
    }
  }

  const ALWAYS: Condition := (e: Env) => true

  lemma {:induction false} CountStarIsTooHigh(db: Database, rows: seq<Row>, joins: seq<JoinSpec>, extra: ExtraCondition)
    ensures CountRoots(db, rows, joins, extra, ALWAYS) == |rows|
    ensures |Satisfying(JoinRows(db, MainRows(rows), joins, extra), ALWAYS)| >= |rows|
    ensures !OneRowEach(db, rows, joins, extra) ==>
              |Satisfying(JoinRows(db, MainRows(rows), joins, extra), ALWAYS)| > |rows|
  {
    hide JoinRows;
    if rows != [] {
      CountStarIsTooHigh(db, rows[1..], joins, extra);
      StarOfOneMore(db, rows, joins, extra, ALWAYS);
      JoiningKeepsRows(db, [MainRow(rows[0])], joins, extra);
      SatisfyingShrinks(JoinRows(db, [MainRow(rows[0])], joins, extra), ALWAYS);
      assert rows == [rows[0]] + rows[1..];
    }
  }

  // ----- COUNT(DISTINCT main.id) -----

  /** main.id identifies the rows of the root table. */
  ghost predicate IdentifiedById(rows: seq<Row>) {
    UniqueColumn(rows, "id") && forall r <- rows :: CellOf(r, "id") != Null
  }

  /** Every joined row of a root row carries its id. */
  lemma IdOfJoinedRow(db: Database, r: Row, joins: seq<JoinSpec>, extra: ExtraCondition, e: Env)
    requires DistinctAliases(joins) && WellScoped(joins) && e in JoinRows(db, [MainRow(r)], joins, extra)
    ensures Get(e, MAIN_ID) == CellOf(r, "id")
  {
    hide DistinctAliases, WellScoped, JoinRows;
    EveryAliasMatches(db, [MainRow(r)], joins, extra, e, |joins|);
  }

  lemma IdsOfOneRoot(db: Database, r: Row, joins: seq<JoinSpec>, extra: ExtraCondition, where: Condition)
    requires DistinctAliases(joins) && WellScoped(joins) && CellOf(r, "id") != Null
    ensures Ids(Satisfying(JoinRows(db, [MainRow(r)], joins, extra), where))
         == if Counts(db, r, joins, extra, where) then {CellOf(r, "id")} else {}
  {
    hide DistinctAliases, WellScoped, JoinRows;
    var found := Satisfying(JoinRows(db, [MainRow(r)], joins, extra), where);
    forall e <- found ensures Get(e, MAIN_ID) == CellOf(r, "id") {
      SatisfyingMeans(JoinRows(db, [MainRow(r)], joins, extra), where, e);
      IdOfJoinedRow(db, r, joins, extra, e);
    }
    if found != [] {
      assert found[0] in found;
    }
  }

  lemma IdsAppend(a: seq<Env>, b: seq<Env>)
    ensures Ids(a + b) == Ids(a) + Ids(b)
  {
  }

  lemma {:induction false} DistinctIdsAreRoots(db: Database, rows: seq<Row>, joins: seq<JoinSpec>,
                                               extra: ExtraCondition, where: Condition)
    requires DistinctAliases(joins) && WellScoped(joins) && IdentifiedById(rows)
    ensures var ids := Ids(Satisfying(JoinRows(db, MainRows(rows), joins, extra), where));
      && |ids| == CountRoots(db, rows, joins, extra, where)
      && forall c <- ids :: exists r <- rows :: CellOf(r, "id") == c
  {
    hide DistinctAliases, WellScoped, JoinRows, Counts, Satisfying, Ids, CellOf, IdentifiedById;
    if rows == [] {
      NoRows(db, joins, extra);
      NoIds(where);
    } else {
      IdentifiedTail(rows);
      DistinctIdsAreRoots(db, rows[1..], joins, extra, where);
      var first, rest := JoinRows(db, [MainRow(rows[0])], joins, extra),
        JoinRows(db, MainRows(rows[1..]), joins, extra);
      JoinRowsAppend(db, [MainRow(rows[0])], MainRows(rows[1..]), joins, extra);
      SatisfyingAppend(first, rest, where);
      IdsAppend(Satisfying(first, where), Satisfying(rest, where));
      IdsOfOneRoot(db, rows[0], joins, extra, where);
      assert CellOf(rows[0], "id") !in Ids(Satisfying(rest, where));
      assert rows == [rows[0]] + rows[1..];
    }
  }

  lemma NoIds(where: Condition)
    ensures Ids(Satisfying([], where)) == {}
  {
  }

  // ----- the count over groups that pass HAVING -----

  /** The joined rows with this value of main.id. */
  function GroupOf(envs: seq<Env>, id: Cell): seq<Env> {
    Satisfying(envs, e => Get(e, MAIN_ID) == id)
  }

  function PassingIds(envs: seq<Env>, having: seq<Env> -> bool): set<Cell> {
    set id | id in Ids(envs) && having(GroupOf(envs, id))
  }

  /** SELECT COUNT(*) FROM (SELECT main.id ... GROUP BY main.id HAVING <having>) */
  function GroupedAnswer(db: Database, q: Query, extra: ExtraCondition, where: Condition, having: seq<Env> -> bool): nat
  {
    |PassingIds(Satisfying(JoinRows(db, MainRows(Table(db, q.table)), q.joins, extra), where), having)|
  }

  /** The root rows that have joined rows satisfying WHERE, which together satisfy HAVING. */
  function CountRootGroups(db: Database, rows: seq<Row>, joins: seq<JoinSpec>, extra: ExtraCondition, where: Condition,
                           having: seq<Env> -> bool): nat
  {
    if rows == [] then 0
    else
      var group := Satisfying(JoinRows(db, [MainRow(rows[0])], joins, extra), where);
      (if group != [] && having(group) then 1 else 0) + CountRootGroups(db, rows[1..], joins, extra, where, having)
  }

  lemma {:induction false} AllOrNothing(envs: seq<Env>, where: Condition)
    ensures (forall e <- envs :: where(e)) ==> Satisfying(envs, where) == envs
    ensures (forall e <- envs :: !where(e)) ==> Satisfying(envs, where) == []
  {
    if envs != [] {
      AllOrNothing(envs[1..], where);
      assert envs == [envs[0]] + envs[1..];
    }
  }

  /** The rows of one root are a group of their own beside the rows of others. */
  lemma GroupsSideBySide(first: seq<Env>, rest: seq<Env>, id: Cell, having: seq<Env> -> bool)
    requires id != Null && (forall e <- first :: Get(e, MAIN_ID) == id) && (forall e <- rest :: Get(e, MAIN_ID) != id)
    ensures PassingIds(first + rest, having)
         == PassingIds(rest, having) + if first != [] && having(first) then {id} else {}
    ensures id !in PassingIds(rest, having)
  {
    hide Satisfying;
    IdsAppend(first, rest);
    assert Ids(first) == if first == [] then {} else {id} by {
      assert first != [] ==> first[0] in first;
    }
    forall c: Cell
      ensures GroupOf(first + rest, c) == if c == id then first else GroupOf(rest, c)
    {
      SatisfyingAppend(first, rest, e => Get(e, MAIN_ID) == c);
      AllOrNothing(first, e => Get(e, MAIN_ID) == c);
      AllOrNothing(rest, e => Get(e, MAIN_ID) == c);
    }
  }

  lemma SatisfyingOfRoots(db: Database, rows: seq<Row>, joins: seq<JoinSpec>, extra: ExtraCondition, where: Condition,
                          e: Env)
    requires DistinctAliases(joins) && WellScoped(joins)
    requires e in Satisfying(JoinRows(db, MainRows(rows), joins, extra), where)
    ensures exists r <- rows :: CellOf(r, "id") == Get(e, MAIN_ID)
  {
    hide DistinctAliases, WellScoped, JoinRows;
    SatisfyingMeans(JoinRows(db, MainRows(rows), joins, extra), where, e);
    RootOfJoinedRow(db, rows, joins, extra, e);
  }

  lemma {:induction false} RootOfJoinedRow(db: Database, rows: seq<Row>, joins: seq<JoinSpec>, extra: ExtraCondition,
                                           e: Env)
    requires DistinctAliases(joins) && WellScoped(joins) && e in JoinRows(db, MainRows(rows), joins, extra)
    ensures exists r <- rows :: CellOf(r, "id") == Get(e, MAIN_ID)
  {
    hide DistinctAliases, WellScoped, JoinRows, CellOf;
    if rows == [] {
      NoRows(db, joins, extra);
    } else {
      JoinRowsAppend(db, [MainRow(rows[0])], MainRows(rows[1..]), joins, extra);
      if e in JoinRows(db, [MainRow(rows[0])], joins, extra) {
        IdOfJoinedRow(db, rows[0], joins, extra, e);
        assert rows[0] in rows;
      } else {
        RootOfJoinedRow(db, rows[1..], joins, extra, e);
      }
    }
  }

  /** The number of groups that pass is the number of such root rows, whatever HAVING asks of a group. */
  lemma {:induction false} GroupsAreRoots(db: Database, rows: seq<Row>, joins: seq<JoinSpec>, extra: ExtraCondition,
                                          where: Condition, having: seq<Env> -> bool)
    requires DistinctAliases(joins) && WellScoped(joins) && IdentifiedById(rows)
    ensures |PassingIds(Satisfying(JoinRows(db, MainRows(rows), joins, extra), where), having)|
         == CountRootGroups(db, rows, joins, extra, where, having)
  {
    hide DistinctAliases, WellScoped, JoinRows, Satisfying, Ids, CellOf, IdentifiedById, PassingIds;
    if rows == [] {
      NoRows(db, joins, extra);
      NothingPasses(where, having);
    } else {
      IdentifiedTail(rows);
      GroupsAreRoots(db, rows[1..], joins, extra, where, having);
      var joined, others := JoinRows(db, [MainRow(rows[0])], joins, extra),
        JoinRows(db, MainRows(rows[1..]), joins, extra);
      var first, rest := Satisfying(joined, where), Satisfying(others, where);
      JoinRowsAppend(db, [MainRow(rows[0])], MainRows(rows[1..]), joins, extra);
      SatisfyingAppend(joined, others, where);
      forall e <- first ensures Get(e, MAIN_ID) == CellOf(rows[0], "id") {
        SatisfyingMeans(joined, where, e);
        IdOfJoinedRow(db, rows[0], joins, extra, e);
      }
      forall e <- rest ensures Get(e, MAIN_ID) != CellOf(rows[0], "id") {
        SatisfyingOfRoots(db, rows[1..], joins, extra, where, e);
      }
      GroupsSideBySide(first, rest, CellOf(rows[0], "id"), having);
    }
  }

  lemma NothingPasses(where: Condition, having: seq<Env> -> bool)
    ensures PassingIds(Satisfying([], where), having) == {}
  {
  }

  lemma IdentifiedTail(rows: seq<Row>)
    requires IdentifiedById(rows) && rows != []
    ensures IdentifiedById(rows[1..]) && CellOf(rows[0], "id") != Null
    ensures forall r <- rows[1..] :: CellOf(r, "id") != CellOf(rows[0], "id")
  {
    assert rows[0] in rows;
    forall r <- rows[1..] ensures CellOf(r, "id") != CellOf(rows[0], "id") {
      var k :| 0 <= k < |rows[1..]| && rows[1..][k] == r;
      assert rows[k + 1] == r;
    }
  }

  lemma {:induction false} NoRows(db: Database, joins: seq<JoinSpec>, extra: ExtraCondition)
    ensures JoinRows(db, [], joins, extra) == []
    decreases |joins|
  {
    if joins != [] {
      NoRows(db, joins[..|joins| - 1], extra);
    }
  }

  // ----- when the count is right -----

  ghost predicate CountsRoots(db: Database, table: string, joins: seq<JoinSpec>, extra: ExtraCondition) {
    forall where: Condition ::
      Answer(db, Query(table, joins, AnyDistinct(joins)), extra, where)
      == CountRoots(db, Table(db, table), joins, extra, where)
  }

  /** The exact condition: the chosen count is the number of root rows with a joined row that satisfies WHERE, for every
      WHERE, if and only if a join is marked distinct or each root row has exactly one joined row. */
  lemma CountIsExact(db: Database, table: string, joins: seq<JoinSpec>, extra: ExtraCondition)
    requires DistinctAliases(joins) && WellScoped(joins) && IdentifiedById(Table(db, table))
    ensures CountsRoots(db, table, joins, extra) <==>
      AnyDistinct(joins) || OneRowEach(db, Table(db, table), joins, extra)
  {
    hide DistinctAliases, WellScoped, IdentifiedById, AnyDistinct, JoinRows, Satisfying, CountRoots, MainRows,
         OneRowEach;
    var rows := Table(db, table);
    if AnyDistinct(joins) {
      forall where: Condition
        ensures Answer(db, Query(table, joins, true), extra, where) == CountRoots(db, rows, joins, extra, where) {
        DistinctIdsAreRoots(db, rows, joins, extra, where);
      }
    } else if OneRowEach(db, rows, joins, extra) {
      forall where: Condition
        ensures Answer(db, Query(table, joins, false), extra, where) == CountRoots(db, rows, joins, extra, where) {
        CountStarIsRootCount(db, rows, joins, extra, where);
      }
    } else {
      CountStarIsTooHigh(db, rows, joins, extra);
      assert Answer(db, Query(table, joins, false), extra, ALWAYS) != CountRoots(db, rows, joins, extra, ALWAYS);
    }
  }

  // ----- the join list of a request -----

  /** A belongs_to relation leads to at most one row: its referenced column is unique and, if it goes through an
      intermediate table, so is the column of that table that refers back. */
  ghost predicate ReferencesOnce(db: Database, reg: Registry, ch: Choices, rel: Relation) {
    rel.kind == BelongsTo && rel.model in reg ==>
      var target := Table(db, reg[rel.model].table);
      if rel.through.None? then UniqueColumn(target, rel.pk)
      else rel.through.value in reg ==>
        && UniqueColumn(Table(db, reg[rel.through.value].table), rel.fk)
        && forall used: set<TableAlias> ::
             var link := ch.final(rel.through.value, rel.model, used);
             IsLinkTo(reg, rel.through.value, rel.model, link) ==>
               UniqueColumn(target, reg[rel.through.value].relations[link].pk)
  }

  ghost predicate PathsReferenceOnce(db: Database, reg: Registry, root: Name, ch: Choices, ps: seq<Path>)
    requires root in reg
  {
    forall i | 0 <= i < |ps| :: PathReferencesOnce(db, reg, root, ch, ps[i])
  }

  ghost predicate PathReferencesOnce(db: Database, reg: Registry, root: Name, ch: Choices, p: Path)
    requires root in reg
  {
    p != [] && WalkTo(reg, root, p).Some? ==> ReferencesOnce(db, reg, ch, LastRelation(reg, root, p))
  }

  /** A block without a distinct join is made of joins on unique columns. */
  lemma PlainBlockIsSingleMatch(db: Database, reg: Registry, root: Name, am: map<Path, TableAlias>, ch: Choices,
                                joins: seq<JoinSpec>, p: Path)
    requires Linked(reg) && root in reg && Visitable(reg, root, am, p) && Block(reg, root, am, ch, joins, p).Some?
    requires InjectiveNumbered(am) && PathReferencesOnce(db, reg, root, ch, p)
    requires !AnyDistinct(Block(reg, root, am, ch, joins, p).value)
    ensures forall j <- Block(reg, root, am, ch, joins, p).value :: SingleMatch(db, j)
  {
    hide Aliases, UniqueColumn, Linked, WalkTo;
    var block := Block(reg, root, am, ch, joins, p).value;
    var rel := LastRelation(reg, root, p);
    LastRelationIsLinked(reg, root, p);
    assert block[|block| - 1] in block;
    if |p| > 1 {
      assert p[..|p| - 1] != p;
    }
  }

  lemma {:induction false} PlainJoinsAreSingleMatch(db: Database, reg: Registry, root: Name, am: map<Path, TableAlias>,
                                                    ch: Choices, ps: seq<Path>)
    requires Linked(reg) && root in reg && InjectiveNumbered(am)
    requires AllVisitable(reg, root, am, ps) && PathsReferenceOnce(db, reg, root, ch, ps)
    requires JoinsOf(reg, root, am, ch, ps).Some? && !AnyDistinct(JoinsOf(reg, root, am, ch, ps).value)
    ensures forall j <- JoinsOf(reg, root, am, ch, ps).value :: SingleMatch(db, j)
  {
    hide Block, Visitable, Linked, InjectiveNumbered, PathReferencesOnce, SingleMatch, WalkTo;
    if ps != [] {
      var init, p := ps[..|ps| - 1], ps[|ps| - 1];
      assert Visitable(reg, root, am, p) && PathReferencesOnce(db, reg, root, ch, p);
      assert forall i | 0 <= i < |init| :: init[i] == ps[i];
      var before := JoinsOf(reg, root, am, ch, init).value;
      var block := Block(reg, root, am, ch, before, p).value;
      assert forall j <- before :: j in before + block;
      assert forall j <- block :: j in before + block;
      PlainJoinsAreSingleMatch(db, reg, root, am, ch, init);
      PlainBlockIsSingleMatch(db, reg, root, am, ch, before, p);
    }
  }

  /** The count of a request is the number of root rows with a joined row that satisfies WHERE, whichever of
      the two counts was chosen: always when a join is distinct, and otherwise if every relation met leads to
      one row at most. */
  lemma CountIsCorrect(db: Database, reg: Registry, root: Name, am: map<Path, TableAlias>, ch: Choices,
                       fields: seq<Path>, extra: ExtraCondition)
    requires Linked(reg) && AllSettle(reg) && root in reg && InjectiveNumbered(am) && Allowed(reg, ch)
    requires DetectAll(reg, root, am, ch, fields).Some? && IdentifiedById(Table(db, reg[root].table))
    requires AnyDistinct(DetectAll(reg, root, am, ch, fields).value)
          || PathsReferenceOnce(db, reg, root, ch, VisitedAll(reg, root, fields))
    ensures CountsRoots(db, reg[root].table, DetectAll(reg, root, am, ch, fields).value, extra)
  {
    hide Linked, AllSettle, InjectiveNumbered, Allowed, DetectAll, DistinctAliases, WellScoped, IdentifiedById,
         PathsReferenceOnce, VisitedAll, JoinsOf, AllCovered, VisitOrder, AllVisitable, AnyDistinct, SingleMatch,
         CountsRoots, OneRowEach, Table;
    var joins, rows := DetectAll(reg, root, am, ch, fields).value, Table(db, reg[root].table);
    DetectAllVisits(reg, root, am, ch, fields);
    JoinListIsCorrect(reg, root, am, ch, fields);
    CountIsExact(db, reg[root].table, joins, extra);
    if !AnyDistinct(joins) {
      PlainJoinsAreSingleMatch(db, reg, root, am, ch, VisitedAll(reg, root, fields));
      SingleMatchesGiveOneRowEach(db, rows, joins, extra);
    }
  }

  // ----- belongs_to through an intermediate table -----

  ghost predicate NoExtra(extra: ExtraCondition) {
    forall j: JoinSpec, e: Env :: extra(j, e)
  }

  /** The request for one relation of the root that belongs to its target through an intermediate table. */
  ghost predicate BelongsThrough(reg: Registry, root: Name, r: Name)
    requires root in reg
  {
    && r != "" && r in reg[root].relations && IsExpanded(reg, root, [r])
    && var rel := reg[root].relations[r];
       rel.kind == BelongsTo && !rel.polymorphic && rel.through.Some? && rel.model in reg && rel.through.value in reg
  }

  /** A belongs_to relation through an intermediate table carries no distinct flag. With a unique target the count over
      it is right for every WHERE if and only if no root row is referred to by two rows of the intermediate table. */
  lemma BelongsToThroughOvercounts(db: Database, reg: Registry, root: Name, am: map<Path, TableAlias>, ch: Choices,
                                   r: Name, extra: ExtraCondition)
    requires Linked(reg) && AllSettle(reg) && root in reg && InjectiveNumbered(am) && Allowed(reg, ch)
    requires BelongsThrough(reg, root, r) && DetectAll(reg, root, am, ch, [[r]]).Some?
    requires IdentifiedById(Table(db, reg[root].table)) && NoExtra(extra)
    requires var rel := reg[root].relations[r];
      var link := ch.final(rel.through.value, rel.model, {});
      IsLinkTo(reg, rel.through.value, rel.model, link) ==>
        UniqueColumn(Table(db, reg[rel.model].table), reg[rel.through.value].relations[link].pk)
    ensures var rel, joins := reg[root].relations[r], DetectAll(reg, root, am, ch, [[r]]).value;
      && !AnyDistinct(joins)
      && (CountsRoots(db, reg[root].table, joins, extra) <==>
          forall row <- Table(db, reg[root].table) ::
            !Repeated(Table(db, reg[rel.through.value].table), rel.fk, CellOf(row, rel.pk)))
  {
    hide Linked, AllSettle, InjectiveNumbered, Allowed, DetectAll, IdentifiedById, UniqueColumn, Repeated, Table,
         CountsRoots, DistinctAliases, WellScoped, IsLinkTo, IsExpanded;
    var rel, joins := reg[root].relations[r], DetectAll(reg, root, am, ch, [[r]]).value;
    JoinListIsCorrect(reg, root, am, ch, [[r]]);
    ThroughJoins(reg, root, am, ch, r);
    CountIsExact(db, reg[root].table, joins, extra);
    forall row: Row ensures |JoinRows(db, [MainRow(row)], joins, extra)| == 1 <==>
      !Repeated(Table(db, reg[rel.through.value].table), rel.fk, CellOf(row, rel.pk))
    {
      ThroughRows(db, joins[0], joins[1], extra, row);
    }
  }

  /** What join detection returns for it: two plain joins. */
  lemma ThroughJoins(reg: Registry, root: Name, am: map<Path, TableAlias>, ch: Choices, r: Name)
    requires Linked(reg) && AllSettle(reg) && root in reg && InjectiveNumbered(am) && Allowed(reg, ch)
    requires BelongsThrough(reg, root, r) && DetectAll(reg, root, am, ch, [[r]]).Some?
    ensures var rel, joins := reg[root].relations[r], DetectAll(reg, root, am, ch, [[r]]).value;
      var link := ch.final(rel.through.value, rel.model, {});
      && |joins| == 2 && !AnyDistinct(joins) && IsLinkTo(reg, rel.through.value, rel.model, link)
      && joins[0].table == reg[rel.through.value].table && joins[0].alias.Through?
      && joins[0].left == ColumnRef(Main, rel.pk) && joins[0].right == ColumnRef(joins[0].alias, rel.fk)
      && joins[1].table == reg[rel.model].table && joins[1].alias.T?
      && joins[1].left.table == joins[0].alias && joins[1].right.table == joins[1].alias
      && joins[1].right.column == reg[rel.through.value].relations[link].pk
  {
    hide Linked, AllSettle, Allowed, IsLinkTo, DetectAll, AllCovered, VisitOrder;
    DetectAllVisits(reg, root, am, ch, [[r]]);
    ExpandFixesExactlyExpanded(reg, root, [r]);
    SingleVisit(reg, root, r);
    var ps := VisitedAll(reg, root, [[r]]);
    assert ps[..0] == [] && JoinsOf(reg, root, am, ch, ps[..0]) == Some([]);
    assert Aliases([]) == {};
    assert Visitable(reg, root, am, ps[0]);
    assert WalkTo(reg, root, [r]) == Some(reg[root].relations[r].model);
  }

  lemma SingleVisit(reg: Registry, root: Name, r: Name)
    requires AllSettle(reg) && root in reg && BelongsThrough(reg, root, r)
    ensures VisitedAll(reg, root, [[r]]) == [[r]]
  {
    hide AllSettle;
    ExpandFixesExactlyExpanded(reg, root, [r]);
    assert [[r]][..0] == [] && VisitedAll(reg, root, []) == [] && [] + [r] == [r] && [r][1..] == [];
    assert JoinableLength(reg, root, [r]) == 1 && [r][..1] == [r];
    assert Visited([], [], [r], 1) == With([], [r]);
  }

  /** One root row over the two joins: as many joined rows as the intermediate table has for it. */
  lemma ThroughRows(db: Database, via: JoinSpec, target: JoinSpec, extra: ExtraCondition, row: Row)
    requires via.right.table == via.alias && via.left.table == Main && via.alias != Main && NoExtra(extra)
    requires target.right.table == target.alias && target.left.table != target.alias
    requires UniqueColumn(Table(db, target.table), target.right.column)
    ensures |JoinRows(db, [MainRow(row)], [via, target], extra)| == 1 <==>
            !Repeated(Table(db, via.table), via.right.column, CellOf(row, via.left.column))
  {
    hide UniqueColumn, Table, ExtendAll, Matches;
    var start, rows := MainRow(row), Table(db, via.table);
    TwoJoins(db, [start], via, target, extra);
    assert SingleMatch(db, target);
    SingleMatchKeepsCount(db, ExtendAll(db, [start], via, extra), target, extra);
    assert ExtendAll(db, [start], via, extra) == Extend(db, start, via, extra) by {
      OneExtended(db, start, via, extra);
    }
    assert Get(start, via.left) == CellOf(row, via.left.column);
    if Repeated(rows, via.right.column, CellOf(row, via.left.column)) {
      var i, j :| 0 <= i < j < |rows|
        && CellOf(rows[i], via.right.column) == CellOf(rows[j], via.right.column) == CellOf(row, via.left.column);
      QualifiedRow(start, via, extra, rows[i]);
      QualifiedRow(start, via, extra, rows[j]);
      TwoMatches(rows, start, via, extra, i, j);
    } else {
      AtMostOneMatch(rows, start, via, extra);
    }
  }

  lemma QualifiedRow(start: Env, via: JoinSpec, extra: ExtraCondition, r: Row)
    requires via.right.table == via.alias && via.left.table != via.alias && NoExtra(extra)
    requires Get(start, via.left) != Null && CellOf(r, via.right.column) == Get(start, via.left)
    ensures Qualifies(start, via, extra, r)
  {
  }

  lemma OneExtended(db: Database, e: Env, j: JoinSpec, extra: ExtraCondition)
    ensures ExtendAll(db, [e], j, extra) == Extend(db, e, j, extra)
  {
    hide Extend;
    assert [e][1..] == [] && ExtendAll(db, [], j, extra) == [];
  }

  lemma TwoJoins(db: Database, envs: seq<Env>, a: JoinSpec, b: JoinSpec, extra: ExtraCondition)
    ensures JoinRows(db, envs, [a, b], extra) == ExtendAll(db, ExtendAll(db, envs, a, extra), b, extra)
  {
    hide ExtendAll;
    assert [a, b][..1] == [a] && [a][..0] == [];
    assert JoinRows(db, envs, [a], extra) == ExtendAll(db, JoinRows(db, envs, [], extra), a, extra);
  }

  lemma {:induction false} OneMatch(rows: seq<Row>, env: Env, j: JoinSpec, extra: ExtraCondition, i: nat)
    requires i < |rows| && Qualifies(env, j, extra, rows[i])
    ensures |Rows.Matching(rows, env, j, extra)| >= 1
  {
    if i > 0 {
      OneMatch(rows[1..], env, j, extra, i - 1);
    }
  }

  lemma {:induction false} TwoMatches(rows: seq<Row>, env: Env, j: JoinSpec, extra: ExtraCondition, i: nat, k: nat)
    requires i < k < |rows| && Qualifies(env, j, extra, rows[i]) && Qualifies(env, j, extra, rows[k])
    ensures |Rows.Matching(rows, env, j, extra)| >= 2
  {
    if i > 0 {
      TwoMatches(rows[1..], env, j, extra, i - 1, k - 1);
    } else {
      OneMatch(rows[1..], env, j, extra, k - 1);
    }
  }
}
