/** What a query means on rows: LEFT JOIN as an operation on lists of joined rows. */
module Rows {
  import opened Schema
  import opened Filters
  import opened Joins

  datatype Cell = Null | Val(value: int)

  /** A row by column name; a missing column reads as NULL. */
  type Row = map<string, Cell>
  type Database = map<string, seq<Row>>

  /** One joined row: the row each table alias stands for, the empty row when it was null-extended. */
  type Env = map<TableAlias, Row>

  /** The extra ON condition of a join, evaluated on a joined row. */
  type ExtraCondition = (JoinSpec, Env) -> bool

  function Table(db: Database, name: string): seq<Row> {
    if name in db then db[name] else []
  }

  function Get(env: Env, ref: ColumnRef): Cell {
    if ref.table in env && ref.column in env[ref.table] then env[ref.table][ref.column] else Null
  }

  function CellOf(r: Row, column: string): Cell {
    if column in r then r[column] else Null
  }

  /** left = right is true in SQL. */
  predicate Matches(env: Env, j: JoinSpec) {
    Get(env, j.left) != Null && Get(env, j.left) == Get(env, j.right)
  }

  function Matching(rows: seq<Row>, env: Env, j: JoinSpec, extra: ExtraCondition): seq<Env> {
    if rows == [] then []
    else
      var e := env[j.alias := rows[0]];
      (if Matches(e, j) && extra(j, e) then [e] else []) + Matching(rows[1..], env, j, extra)
  }

  /** LEFT JOIN of one joined row. */
  function Extend(db: Database, env: Env, j: JoinSpec, extra: ExtraCondition): seq<Env> {
    var found := Matching(Table(db, j.table), env, j, extra);
    if found == [] then [env[j.alias := map[]]] else found
  }

  function ExtendAll(db: Database, envs: seq<Env>, j: JoinSpec, extra: ExtraCondition): seq<Env> {
    if envs == [] then [] else Extend(db, envs[0], j, extra) + ExtendAll(db, envs[1..], j, extra)
  }

  /** The joins in list order. */
  function JoinRows(db: Database, envs: seq<Env>, joins: seq<JoinSpec>, extra: ExtraCondition): seq<Env> {
    if joins == [] then envs
    else ExtendAll(db, JoinRows(db, envs, joins[..|joins| - 1], extra), joins[|joins| - 1], extra)
  }

  lemma {:induction false} ExtendAllAppend(db: Database, a: seq<Env>, b: seq<Env>, j: JoinSpec, extra: ExtraCondition)
    ensures ExtendAll(db, a + b, j, extra) == ExtendAll(db, a, j, extra) + ExtendAll(db, b, j, extra)
  {
    hide Extend;
    if a == [] {
      assert a + b == b;
    } else {
      ExtendAllAppend(db, a[1..], b, j, extra);
      assert (a + b)[1..] == a[1..] + b;
    }
  }

  /** Joining works row by row. */
  lemma {:induction false} JoinRowsAppend(db: Database, a: seq<Env>, b: seq<Env>, joins: seq<JoinSpec>,
                                          extra: ExtraCondition)
    ensures JoinRows(db, a + b, joins, extra) == JoinRows(db, a, joins, extra) + JoinRows(db, b, joins, extra)
    decreases |joins|
  {
    hide ExtendAll;
    if joins != [] {
      var init, last := joins[..|joins| - 1], joins[|joins| - 1];
      JoinRowsAppend(db, a, b, init, extra);
      ExtendAllAppend(db, JoinRows(db, a, init, extra), JoinRows(db, b, init, extra), last, extra);
    }
  }

  // ----- what the joined rows look like -----

  /** The row would be joined: it satisfies ON and the extra condition. */
  predicate Qualifies(env: Env, j: JoinSpec, extra: ExtraCondition, r: Row) {
    Matches(env[j.alias := r], j) && extra(j, env[j.alias := r])
  }

  lemma {:induction false} MatchingRows(rows: seq<Row>, env: Env, j: JoinSpec, extra: ExtraCondition, e: Env)
    ensures e in Matching(rows, env, j, extra) ==>
      exists r <- rows :: e == env[j.alias := r] && Qualifies(env, j, extra, r)
    ensures Matching(rows, env, j, extra) == [] ==> forall r <- rows :: !Qualifies(env, j, extra, r)
  {
    hide Matches;
    if rows != [] {
      MatchingRows(rows[1..], env, j, extra, e);
      assert rows == [rows[0]] + rows[1..];
      var first := env[j.alias := rows[0]];
      if e in Matching(rows, env, j, extra) {
        if e == first && Qualifies(env, j, extra, rows[0]) {
          assert rows[0] in rows;
        } else {
          var r :| r in rows[1..] && e == env[j.alias := r] && Qualifies(env, j, extra, r);
          assert r in rows;
        }
      }
    }
  }

  /** One alias of a joined row: a row of the table that satisfies ON, or null-extended. */
  ghost predicate Joined(db: Database, env: Env, j: JoinSpec) {
    j.alias in env && (env[j.alias] == map[] || (env[j.alias] in Table(db, j.table) && Matches(env, j)))
  }

  /** ... and null-extended only where no row of the table satisfies ON and the extra condition. */
  ghost predicate JoinedExactly(db: Database, env: Env, j: JoinSpec, extra: ExtraCondition) {
    j.alias in env
    && if env[j.alias] in Table(db, j.table) && Qualifies(env, j, extra, env[j.alias]) then true
       else env[j.alias] == map[] && forall r <- Table(db, j.table) :: !Qualifies(env, j, extra, r)
  }

  /** `e` differs from `before` in one alias only. */
  predicate IsUpdate(before: Env, e: Env, alias: TableAlias) {
    alias in e && e == before[alias := e[alias]]
  }

  predicate SameMain(before: Env, e: Env) {
    if Main in before then Main in e && e[Main] == before[Main] else Main !in e
  }

  lemma ExtendedRow(db: Database, env: Env, j: JoinSpec, extra: ExtraCondition, e: Env)
    requires e in Extend(db, env, j, extra)
    ensures JoinedExactly(db, e, j, extra) && IsUpdate(env, e, j.alias)
  {
    hide Matches;
    var rows := Table(db, j.table);
    MatchingRows(rows, env, j, extra, e);
    forall r: Row ensures Qualifies(e, j, extra, r) == Qualifies(env, j, extra, r) {
      assert e[j.alias := r] == env[j.alias := r];
    }
  }

  lemma {:induction false} ExtendAllRows(db: Database, envs: seq<Env>, j: JoinSpec, extra: ExtraCondition, e: Env)
    requires e in ExtendAll(db, envs, j, extra)
    ensures JoinedExactly(db, e, j, extra) && exists before <- envs :: IsUpdate(before, e, j.alias)
  {
    hide Extend, JoinedExactly, IsUpdate;
    if e in Extend(db, envs[0], j, extra) {
      ExtendedRow(db, envs[0], j, extra, e);
      assert envs[0] in envs;
    } else {
      ExtendAllRows(db, envs[1..], j, extra, e);
      var before :| before in envs[1..] && IsUpdate(before, e, j.alias);
      assert before in envs;
    }
  }

  lemma ExactlyJoinedIsJoined(db: Database, env: Env, j: JoinSpec, extra: ExtraCondition)
    requires JoinedExactly(db, env, j, extra)
    ensures Joined(db, env, j)
  {
    assert env[j.alias := env[j.alias]] == env;
  }

  /** Every alias of a well-scoped join list stands, in every joined row, for a row that matches its ON condition
      there (or for no row), and the main row is never replaced. */
  lemma {:induction false} EveryAliasMatches(db: Database, envs: seq<Env>, joins: seq<JoinSpec>, extra: ExtraCondition,
                                             e: Env, i: nat)
    requires DistinctAliases(joins) && WellScoped(joins) && e in JoinRows(db, envs, joins, extra)
    ensures i < |joins| ==> Joined(db, e, joins[i])
    ensures exists before <- envs :: SameMain(before, e)
    decreases |joins|
  {
    hide Extend, ExtendAll, WellScoped, DistinctAliases, Joined, JoinedExactly, Aliases;
    if joins == [] {
      assert e in envs && SameMain(e, e);
    } else {
      var n := |joins| - 1;
      var init, last := joins[..n], joins[n];
      ScopeOfInit(joins);
      ExtendAllRows(db, JoinRows(db, envs, init, extra), last, extra, e);
      ExactlyJoinedIsJoined(db, e, last, extra);
      var before :| before in JoinRows(db, envs, init, extra) && IsUpdate(before, e, last.alias);
      EveryAliasMatches(db, envs, init, extra, before, i);
      var start :| start in envs && SameMain(start, before);
      assert SameMain(start, e);
      if i < n {
        JoinedStays(db, before, joins, i, e[last.alias]);
      }
    }
  }

  lemma ScopeOfInit(joins: seq<JoinSpec>)
    requires DistinctAliases(joins) && WellScoped(joins) && joins != []
    ensures DistinctAliases(joins[..|joins| - 1]) && WellScoped(joins[..|joins| - 1])
      && joins[|joins| - 1].alias != Main
  {
    hide Aliases;
    var init := joins[..|joins| - 1];
    AliasesAppend(init, [joins[|joins| - 1]]);
    assert init + [joins[|joins| - 1]] == joins;
    AliasOfOne(joins[|joins| - 1]);
    forall i | 0 <= i < |init| ensures InScope(init, i) {
      assert InScope(joins, i) && joins[..i] == init[..i];
    }
  }

  /** A later join does not disturb an earlier one. */
  lemma JoinedStays(db: Database, before: Env, joins: seq<JoinSpec>, i: nat, r: Row)
    requires DistinctAliases(joins) && WellScoped(joins) && i < |joins| - 1 && Joined(db, before, joins[i])
    ensures Joined(db, before[joins[|joins| - 1].alias := r], joins[i])
  {
    hide Aliases;
    var n := |joins| - 1;
    var a := joins[n].alias;
    assert InScope(joins, i);
    AliasesAreEarlier(joins, i, joins[i].left.table, n);
    AliasesAreEarlier(joins, i, joins[i].right.table, n);
    assert a != Main by {
      AliasMembers(joins);
      assert joins[n].alias in Aliases(joins);
    }
  }

  lemma AliasesAreEarlier(joins: seq<JoinSpec>, i: nat, a: TableAlias, n: nat)
    requires DistinctAliases(joins) && i < n < |joins|
    ensures a in Aliases(joins[..i]) ==> a != joins[n].alias
  {
    if a in Aliases(joins[..i]) {
      var j :| j in joins[..i] && j.alias == a;
      var k :| 0 <= k < i && joins[k] == j;
    }
  }

  /** The extra condition looks at the joined row only. */
  ghost predicate OwnRowOnly(extra: ExtraCondition) {
    forall j: JoinSpec, e: Env, f: Env | j.alias in e && j.alias in f && e[j.alias] == f[j.alias] ::
      extra(j, e) == extra(j, f)
  }

  lemma ExactlyJoinedStays(db: Database, before: Env, joins: seq<JoinSpec>, extra: ExtraCondition, i: nat, r: Row)
    requires DistinctAliases(joins) && WellScoped(joins) && OwnRowOnly(extra)
    requires i < |joins| - 1 && JoinedExactly(db, before, joins[i], extra)
    ensures JoinedExactly(db, before[joins[|joins| - 1].alias := r], joins[i], extra)
  {
    hide Aliases, Matches;
    var n := |joins| - 1;
    var a, j := joins[n].alias, joins[i];
    var e := before[a := r];
    assert InScope(joins, i);
    AliasesAreEarlier(joins, i, j.left.table, n);
    AliasesAreEarlier(joins, i, j.right.table, n);
    assert a != Main by {
      AliasMembers(joins);
      assert joins[n].alias in Aliases(joins);
    }
    forall s: Row ensures Qualifies(e, j, extra, s) == Qualifies(before, j, extra, s) {
      MatchesUnchanged(before, j, a, r, s);
    }
  }

  lemma MatchesUnchanged(before: Env, j: JoinSpec, a: TableAlias, r: Row, s: Row)
    requires a != j.alias && j.left.table != a && j.right.table != a
    ensures Matches(before[a := r][j.alias := s], j) == Matches(before[j.alias := s], j)
  {
  }

  /** In every joined row each alias holds a row that satisfies its ON condition there, or the null row where
      none does. */
  lemma {:induction false} EveryAliasMatchesExactly(db: Database, envs: seq<Env>, joins: seq<JoinSpec>,
                                                    extra: ExtraCondition, e: Env, i: nat)
    requires DistinctAliases(joins) && WellScoped(joins) && OwnRowOnly(extra)
    requires e in JoinRows(db, envs, joins, extra) && i < |joins|
    ensures JoinedExactly(db, e, joins[i], extra)
    decreases |joins|
  {
    hide Extend, ExtendAll, WellScoped, DistinctAliases, JoinedExactly, Aliases, OwnRowOnly;
    var n := |joins| - 1;
    var init, last := joins[..n], joins[n];
    ScopeOfInit(joins);
    ExtendAllRows(db, JoinRows(db, envs, init, extra), last, extra, e);
    var before :| before in JoinRows(db, envs, init, extra) && IsUpdate(before, e, last.alias);
    if i < n {
      EveryAliasMatchesExactly(db, envs, init, extra, before, i);
      ExactlyJoinedStays(db, before, joins, extra, i, e[last.alias]);
    }
  }

  // ----- what an alias reads -----

  /** One hop: from the row at alias `from` to a row of `table` with an equal key, or to the null row if there is none
      that the extra condition of join `j` admits. */
  ghost predicate Hop(db: Database, e: Env, from: ColumnRef, table: string, column: string, j: JoinSpec,
                      extra: ExtraCondition) {
    var joinable := (r: Row) => Get(e, from) != Null && Get(e, from) == CellOf(r, column) && extra(j, e[j.alias := r]);
    j.alias in e
    && if e[j.alias] in Table(db, table) && joinable(e[j.alias]) then true
       else e[j.alias] == map[] && forall r <- Table(db, table) :: !joinable(r)
  }

  /** The hop with the condition text of a relation that ends at `alias`. */
  ghost predicate HopTo(db: Database, e: Env, from: ColumnRef, table: string, column: string, alias: TableAlias,
                        cond: string, joins: seq<JoinSpec>, extra: ExtraCondition)
  {
    exists j <- joins :: j.alias == alias && j.cond == cond && Hop(db, e, from, table, column, j, extra)
  }

  lemma JoinedIsHop(db: Database, e: Env, j: JoinSpec, extra: ExtraCondition)
    requires JoinedExactly(db, e, j, extra)
    ensures j.right.table == j.alias && j.left.table != j.alias ==>
      Hop(db, e, j.left, j.table, j.right.column, j, extra)
    ensures j.left.table == j.alias && j.right.table != j.alias ==>
      Hop(db, e, j.right, j.table, j.left.column, j, extra)
  {
    forall r: Row
      ensures j.right.table == j.alias && j.left.table != j.alias ==>
        (Qualifies(e, j, extra, r) <==>
          Get(e, j.left) != Null && Get(e, j.left) == CellOf(r, j.right.column) && extra(j, e[j.alias := r]))
      ensures j.left.table == j.alias && j.right.table != j.alias ==>
        (Qualifies(e, j, extra, r) <==>
          Get(e, j.right) != Null && Get(e, j.right) == CellOf(r, j.left.column) && extra(j, e[j.alias := r]))
    {
    }
    hide Qualifies, Get;
  }

  /** The row an alias stands for in a joined row: one reached from the row of its parent path over the keys of the
      path's last relation (by way of a row of the intermediate table, if it goes through one), or the null row. */
  ghost predicate ReadsPath(db: Database, reg: Registry, root: Name, am: map<Path, TableAlias>, ch: Choices, p: Path,
                            joins: seq<JoinSpec>, extra: ExtraCondition, e: Env)
    requires root in reg && Visitable(reg, root, am, p)
  {
    var rel, parent, own := LastRelation(reg, root, p), ParentAlias(am, p), am[p];
    var target := reg[rel.model].table;
    if rel.through.None? then
      if rel.kind == BelongsTo then HopTo(db, e, ColumnRef(parent, rel.fk), target, rel.pk, own, rel.cond, joins, extra)
      else HopTo(db, e, ColumnRef(parent, rel.pk), target, rel.fk, own, rel.cond, joins, extra)
    else
      rel.through.value in reg
      && exists used: set<TableAlias>, via: TableAlias ::
           var link := ch.final(rel.through.value, rel.model, used);
           IsLinkTo(reg, rel.through.value, rel.model, link)
           && var final := reg[rel.through.value].relations[link];
              && HopTo(db, e, ColumnRef(parent, rel.pk), reg[rel.through.value].table, rel.fk, via, rel.throughCond,
                joins, extra)
              && HopTo(db, e, ColumnRef(via, final.fk), target, final.pk, own, rel.cond, joins, extra)
  }

  lemma {:induction false} BlockInJoins(reg: Registry, root: Name, am: map<Path, TableAlias>, ch: Choices,
                                        ps: seq<Path>, p: Path)
    returns (before: seq<JoinSpec>)
    requires Linked(reg) && root in reg && AllVisitable(reg, root, am, ps) && JoinsOf(reg, root, am, ch, ps).Some?
      && p in ps
    ensures Visitable(reg, root, am, p) && Block(reg, root, am, ch, before, p).Some?
    ensures forall j <- Block(reg, root, am, ch, before, p).value :: j in JoinsOf(reg, root, am, ch, ps).value
  {
    hide Linked, Visitable, Block, WalkTo;
    var init, last := ps[..|ps| - 1], ps[|ps| - 1];
    assert Visitable(reg, root, am, last) && forall i | 0 <= i < |init| :: init[i] == ps[i];
    before := JoinsOf(reg, root, am, ch, init).value;
    if p != last {
      assert p in init;
      before := BlockInJoins(reg, root, am, ch, init, p);
    }
  }

  lemma JoinInListIsHop(db: Database, envs: seq<Env>, joins: seq<JoinSpec>, extra: ExtraCondition, e: Env, j: JoinSpec)
    requires DistinctAliases(joins) && WellScoped(joins) && OwnRowOnly(extra) && e in JoinRows(db, envs, joins, extra)
    requires j in joins && j.left.table != j.right.table
    ensures j.right.table == j.alias ==> HopTo(db, e, j.left, j.table, j.right.column, j.alias, j.cond, joins, extra)
    ensures j.left.table == j.alias ==> HopTo(db, e, j.right, j.table, j.left.column, j.alias, j.cond, joins, extra)
  {
    hide DistinctAliases, WellScoped, OwnRowOnly, JoinRows, JoinedExactly, Hop;
    var i :| 0 <= i < |joins| && joins[i] == j;
    EveryAliasMatchesExactly(db, envs, joins, extra, e, i);
    JoinedIsHop(db, e, j, extra);
  }

  /** Every visited alias reads its path: so a column that names it reads the field it was written for. */
  lemma VisitedAliasReadsPath(db: Database, reg: Registry, root: Name, am: map<Path, TableAlias>, ch: Choices,
                              ps: seq<Path>, envs: seq<Env>, extra: ExtraCondition, e: Env, p: Path)
    requires Linked(reg) && root in reg && AllVisitable(reg, root, am, ps) && JoinsOf(reg, root, am, ch, ps).Some?
      && p in ps
    requires InjectiveNumbered(am) && OwnRowOnly(extra)
    requires var joins := JoinsOf(reg, root, am, ch, ps).value;
      DistinctAliases(joins) && WellScoped(joins) && e in JoinRows(db, envs, joins, extra)
    ensures Visitable(reg, root, am, p)
    ensures ReadsPath(db, reg, root, am, ch, p, JoinsOf(reg, root, am, ch, ps).value, extra, e)
  {
    var before := BlockInJoins(reg, root, am, ch, ps, p);
    var joins, block := JoinsOf(reg, root, am, ch, ps).value, Block(reg, root, am, ch, before, p).value;
    BlockKeys(reg, root, am, ch, before, p);
    hide DistinctAliases, WellScoped, OwnRowOnly, JoinRows, JoinsOf, Block, HopTo, Linked, AllVisitable, WalkTo,
         IsLinkTo;
    var first := block[0];
    assert first in block;
    JoinInListIsHop(db, envs, joins, extra, e, first);
    if |block| == 2 {
      assert block[1] in block;
      JoinInListIsHop(db, envs, joins, extra, e, block[1]);
    }
  }

  /** The keys of a block, from the parent's alias to the path's own. */
  lemma BlockKeys(reg: Registry, root: Name, am: map<Path, TableAlias>, ch: Choices, before: seq<JoinSpec>, p: Path)
    requires Linked(reg) && root in reg && Visitable(reg, root, am, p) && InjectiveNumbered(am)
    requires Block(reg, root, am, ch, before, p).Some?
    ensures var rel, block := LastRelation(reg, root, p), Block(reg, root, am, ch, before, p).value;
      var parent, own, target := ParentAlias(am, p), am[p], reg[rel.model].table;
      if rel.through.None? then
        |block| == 1 && block[0].alias == own && block[0].table == target && block[0].cond == rel.cond && parent != own
        && if rel.kind == BelongsTo
          then block[0].left == ColumnRef(parent, rel.fk) && block[0].right == ColumnRef(own, rel.pk)
           else block[0].left == ColumnRef(own, rel.fk) && block[0].right == ColumnRef(parent, rel.pk)
      else
        rel.through.value in reg
        && var link := ch.final(rel.through.value, rel.model, Aliases(before));
           IsLinkTo(reg, rel.through.value, rel.model, link)
           && var final := reg[rel.through.value].relations[link];
              |block| == 2 && block[0].alias != parent && block[0].alias != own
              && block[0].table == reg[rel.through.value].table && block[0].cond == rel.throughCond
              && block[0].left == ColumnRef(parent, rel.pk) && block[0].right == ColumnRef(block[0].alias, rel.fk)
              && block[1].alias == own && block[1].table == target && block[1].cond == rel.cond
              && block[1].left == ColumnRef(block[0].alias, final.fk) && block[1].right == ColumnRef(own, final.pk)
  {
    hide WalkTo, IsLinkTo, Aliases;
    LastRelationIsLinked(reg, root, p);
    if |p| > 1 {
      assert p[..|p| - 1] != p;
    }
  }
}
