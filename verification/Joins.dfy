/** The LEFT JOIN list of a query (internal/model/DetectJoins.go). */
module Joins {
  import opened Common
  import opened Schema
  import opened Filters
  import opened AliasExpansion
  import opened AliasMaps
  import PathOrder

  datatype ColumnRef = ColumnRef(table: TableAlias, column: string)

  /** LEFT JOIN `table` AS `alias` ON `left` = `right` [AND `cond`]. */
  datatype JoinSpec = JoinSpec(table: string, alias: TableAlias, left: ColumnRef, right: ColumnRef, cond: string,
                               distinct: bool)

  /** The two choices the program leaves open at each join, given the aliases in use: a random alias that is not, and
      the first relation a map iteration finds from the intermediate model to the target. */
  datatype Choices = Choices(unused: set<TableAlias> -> nat, final: (Name, Name, set<TableAlias>) -> Name)

  ghost predicate Allowed(reg: Registry, ch: Choices) {
    && (forall used: set<TableAlias> :: Through(ch.unused(used)) !in used)
    && (forall m <- reg, target: Name, used: set<TableAlias> ::
          HasLinkTo(reg, m, target) ==> IsLinkTo(reg, m, target, ch.final(m, target, used)))
  }

  predicate IsLinkTo(reg: Registry, m: Name, target: Name, r: Name)
    requires m in reg
  {
    r in reg[m].relations && ModelRef(reg, reg[m].relations[r]) == Some(target)
  }

  ghost predicate HasLinkTo(reg: Registry, m: Name, target: Name)
    requires m in reg
  {
    exists r :: IsLinkTo(reg, m, target, r)
  }

  function Aliases(joins: seq<JoinSpec>): set<TableAlias> {
    set j | j in joins :: j.alias
  }

  /** The joins one relation needs: a plain one, or the intermediate table followed by the target. None when
      the intermediate model has no relation to the target or the relation type is unknown. */
  function JoinsFor(reg: Registry, rel: Relation, parent: TableAlias, alias: TableAlias, ch: Choices,
                    used: set<TableAlias>): Option<seq<JoinSpec>>
    requires rel.model in reg && (rel.through.Some? ==> rel.through.value in reg)
  {
    var manyToOne := rel.kind != HasOne && rel.kind != HasMany;
    if rel.through.Some? then
      var link := ch.final(rel.through.value, rel.model, used);
      if !IsLinkTo(reg, rel.through.value, rel.model, link) then None
      else
        var via, final := Through(ch.unused(used)), reg[rel.through.value].relations[link];
        Some([JoinSpec(reg[rel.through.value].table, via, ColumnRef(parent, rel.pk), ColumnRef(via, rel.fk),
                       rel.throughCond, false),
              JoinSpec(reg[rel.model].table, alias, ColumnRef(via, final.fk), ColumnRef(alias, final.pk),
                       rel.cond, !manyToOne)])
    else
      match rel.kind
      case BelongsTo => Some([JoinSpec(reg[rel.model].table, alias, ColumnRef(parent, rel.fk),
                                       ColumnRef(alias, rel.pk), rel.cond, false)])
      case OtherKind => None
      case _ => Some([JoinSpec(reg[rel.model].table, alias, ColumnRef(alias, rel.fk), ColumnRef(parent, rel.pk),
                               rel.cond, true)])
  }

  /** detectJoinsRecursive on one field: `joins` is the list so far, `prefix` the path already walked. */
  ghost function Detect(reg: Registry, curr: Name, am: map<Path, TableAlias>, ch: Choices, joins: seq<JoinSpec>,
                        prefix: Path, parent: TableAlias, field: Path): Option<seq<JoinSpec>>
    requires Linked(reg) && AllSettle(reg) && curr in reg
    decreases if IsExpanded(reg, curr, field) then 0 else 1, |field|
  {
    ExpandExpands(reg, curr, field);
    ExpandFixesExactlyExpanded(reg, curr, field);
    var segs := Expand(reg, curr, field);
    if !PathOrder.IsProper(segs) || segs[0] == "" then Some(joins)
    else
      var next := NextModel(reg, curr, segs[0]);
      if next.None? then Some(joins)
      else
        var rel, path := reg[curr].relations[segs[0]], prefix + [segs[0]];
        assert LinkedRelation(reg, rel);
        if path !in am then None
        else
          var alias := am[path];
          var joins' := Extended(reg, am, ch, joins, rel, parent, path);
          if joins'.None? then None
          else if !PathOrder.IsProper(segs[1..]) then joins'
          else Detect(reg, rel.model, am, ch, joins'.value, path, alias, segs[1..])
  }

  /** DetectJoins: all fields in turn, sharing the list. */
  ghost function DetectAll(reg: Registry, root: Name, am: map<Path, TableAlias>, ch: Choices,
                           fields: seq<Path>): Option<seq<JoinSpec>>
    requires Linked(reg) && AllSettle(reg) && root in reg
  {
    if fields == [] then Some([])
    else
      var before := DetectAll(reg, root, am, ch, fields[..|fields| - 1]);
      if before.None? then None
      else Detect(reg, root, am, ch, before.value, [], Main, fields[|fields| - 1])
  }

  // ----- the list as one block of joins per visited path -----

  /** The model a relation path leads to. */
  function WalkTo(reg: Registry, root: Name, p: Path): (m: Option<Name>)
    requires root in reg
    ensures m.Some? ==> m.value in reg
  {
    if p == [] then Some(root)
    else
      var before := WalkTo(reg, root, p[..|p| - 1]);
      if before.None? then None else NextModel(reg, before.value, p[|p| - 1])
  }

  /** The relation a path ends with. */
  function LastRelation(reg: Registry, root: Name, p: Path): (rel: Relation)
    requires root in reg && p != [] && WalkTo(reg, root, p).Some?
    ensures rel.model in reg && WalkTo(reg, root, p) == Some(rel.model) && !rel.polymorphic
  {
    reg[WalkTo(reg, root, p[..|p| - 1]).value].relations[p[|p| - 1]]
  }

  lemma LastRelationIsLinked(reg: Registry, root: Name, p: Path)
    requires Linked(reg) && root in reg && p != [] && WalkTo(reg, root, p).Some?
    ensures LinkedRelation(reg, LastRelation(reg, root, p))
    ensures var rel := LastRelation(reg, root, p); rel.through.Some? ==> rel.through.value in reg
  {
  }

  function ParentAlias(am: map<Path, TableAlias>, p: Path): TableAlias
    requires |p| > 1 ==> p[..|p| - 1] in am
  {
    if |p| <= 1 then Main else am[p[..|p| - 1]]
  }

  /** Paths in the order they are first met: each once, each after its parent. */
  ghost predicate VisitOrder(reg: Registry, root: Name, am: map<Path, TableAlias>, ps: seq<Path>)
    requires root in reg
  {
    && AllVisitable(reg, root, am, ps)
    && (forall i | 0 <= i < |ps| :: AfterParent(ps, i))
    && (forall i, j | 0 <= i < j < |ps| :: ps[i] != ps[j])
  }

  predicate AfterParent(ps: seq<Path>, i: nat)
    requires i < |ps|
  {
    |ps[i]| > 1 ==> ps[i][..|ps[i]| - 1] in ps[..i]
  }

  ghost predicate AllVisitable(reg: Registry, root: Name, am: map<Path, TableAlias>, ps: seq<Path>)
    requires root in reg
  {
    forall i | 0 <= i < |ps| :: Visitable(reg, root, am, ps[i])
  }

  ghost predicate Visitable(reg: Registry, root: Name, am: map<Path, TableAlias>, p: Path)
    requires root in reg
  {
    p != [] && p in am && WalkTo(reg, root, p).Some? && (|p| > 1 ==> p[..|p| - 1] in am)
  }

  /** The blocks of the visited paths, one after the other. */
  ghost function JoinsOf(reg: Registry, root: Name, am: map<Path, TableAlias>, ch: Choices,
                         ps: seq<Path>): Option<seq<JoinSpec>>
    requires Linked(reg) && root in reg && AllVisitable(reg, root, am, ps)
  {
    if ps == [] then Some([])
    else
      var before, p := JoinsOf(reg, root, am, ch, ps[..|ps| - 1]), ps[|ps| - 1];
      if before.None? then None
      else
        var block := Block(reg, root, am, ch, before.value, p);
        if block.None? then None else Some(before.value + block.value)
  }

  ghost function Block(reg: Registry, root: Name, am: map<Path, TableAlias>, ch: Choices, joins: seq<JoinSpec>,
                       p: Path): Option<seq<JoinSpec>>
    requires Linked(reg) && root in reg && Visitable(reg, root, am, p)
  {
    LastRelationIsLinked(reg, root, p);
    JoinsFor(reg, LastRelation(reg, root, p), ParentAlias(am, p), am[p], ch, Aliases(joins))
  }

  /** The first `n` prefixes of `prefix + segs` added to the visited paths. */
  function Visited(ps: seq<Path>, prefix: Path, segs: Path, n: nat): seq<Path>
    requires n <= |segs|
    decreases n
  {
    if n == 0 then ps
    else
      Visited(With(ps, prefix + [segs[0]]), prefix + [segs[0]], segs[1..], n - 1)
  }

  ghost predicate InjectiveNumbered(am: map<Path, TableAlias>) {
    && (forall p <- am :: am[p].T?)
    && (forall p <- am, q <- am | am[p] == am[q] :: p == q)
  }

  lemma AliasesAppend(a: seq<JoinSpec>, b: seq<JoinSpec>)
    ensures Aliases(a + b) == Aliases(a) + Aliases(b)
  {
    forall x ensures x in Aliases(a + b) <==> x in Aliases(a) || x in Aliases(b) {
      if x in Aliases(a + b) {
        var j :| j in a + b && j.alias == x;
      }
      if x in Aliases(a) {
        var j :| j in a && j.alias == x;
        assert j in a + b;
      }
      if x in Aliases(b) {
        var j :| j in b && j.alias == x;
        assert j in a + b;
      }
    }
  }

  /** The aliases a block introduces: the path's own, and an unused one for an intermediate table. */
  lemma BlockAliases(reg: Registry, root: Name, am: map<Path, TableAlias>, ch: Choices, joins: seq<JoinSpec>, p: Path)
    requires Linked(reg) && root in reg && Visitable(reg, root, am, p) && Block(reg, root, am, ch, joins, p).Some?
    ensures var block := Block(reg, root, am, ch, joins, p).value;
      if |block| == 1 then Aliases(block) == {am[p]}
      else |block| == 2 && Aliases(block) == {Through(ch.unused(Aliases(joins))), am[p]}
  {
    hide WalkTo, IsLinkTo;
    var block := Block(reg, root, am, ch, joins, p).value;
    if |block| == 1 {
      assert block == [block[0]];
    } else {
      assert block == [block[0], block[1]];
    }
  }

  /** The numbered aliases of the list are exactly those of the visited paths. */
  lemma {:induction false} AliasesOfVisited(reg: Registry, root: Name, am: map<Path, TableAlias>, ch: Choices,
                                            ps: seq<Path>)
    requires Linked(reg) && root in reg && InjectiveNumbered(am) && AllVisitable(reg, root, am, ps)
    requires JoinsOf(reg, root, am, ch, ps).Some?
    ensures forall a <- Aliases(JoinsOf(reg, root, am, ch, ps).value) :: a.Through? || exists p <- ps :: am[p] == a
    ensures forall p <- ps :: am[p] in Aliases(JoinsOf(reg, root, am, ch, ps).value)
    ensures forall p <- am :: am[p] in Aliases(JoinsOf(reg, root, am, ch, ps).value) <==> p in ps
  {
    hide Block, Visitable, Linked;
    if ps != [] {
      var init, p := ps[..|ps| - 1], ps[|ps| - 1];
      assert Visitable(reg, root, am, p);
      AliasesOfVisited(reg, root, am, ch, init);
      var before := JoinsOf(reg, root, am, ch, init).value;
      VisitableInMap(reg, root, am, p);
      BlockAliases(reg, root, am, ch, before, p);
      AliasesAppend(before, Block(reg, root, am, ch, before, p).value);
      assert ps == init + [p];
      hide JoinsOf, Aliases;
    }
  }

  lemma VisitableInMap(reg: Registry, root: Name, am: map<Path, TableAlias>, p: Path)
    requires root in reg && Visitable(reg, root, am, p)
    ensures p in am
  {
  }

  // ----- the walk produces the blocks of the paths it visits -----

  function AliasOf(am: map<Path, TableAlias>, p: Path): TableAlias
    requires p != [] ==> p in am
  {
    if p == [] then Main else am[p]
  }

  ghost predicate Covered(am: map<Path, TableAlias>, prefix: Path, segs: Path, n: nat)
    requires n <= |segs|
  {
    forall k | 0 < k <= n :: prefix + segs[..k] in am
  }

  lemma CoveredStep(am: map<Path, TableAlias>, prefix: Path, segs: Path, n: nat)
    requires 0 < n <= |segs|
    ensures Covered(am, prefix, segs, n) <==>
            prefix + [segs[0]] in am && Covered(am, prefix + [segs[0]], segs[1..], n - 1)
  {
    var path := prefix + [segs[0]];
    if Covered(am, prefix, segs, n) {
      assert prefix + segs[..1] == path;
      forall k | 0 < k <= n - 1 ensures path + segs[1..][..k] in am {
        PrefixThroughFirst(prefix, segs, k + 1);
      }
    }
    if path in am && Covered(am, path, segs[1..], n - 1) {
      forall k | 0 < k <= n ensures prefix + segs[..k] in am {
        PrefixThroughFirst(prefix, segs, k);
        if k == 1 {
          assert path + segs[1..][..0] == path;
        }
      }
    }
  }

  /** The list after the relation at the end of `path` has been met. */
  function Extended(reg: Registry, am: map<Path, TableAlias>, ch: Choices, joins: seq<JoinSpec>, rel: Relation,
                    parent: TableAlias, path: Path): Option<seq<JoinSpec>>
    requires path in am && rel.model in reg && (rel.through.Some? ==> rel.through.value in reg)
  {
    if am[path] in Aliases(joins) then Some(joins)
    else
      var added := JoinsFor(reg, rel, parent, am[path], ch, Aliases(joins));
      if added.None? then None else Some(joins + added.value)
  }

  /** One level of the recursion, on an expanded path. */
  lemma DetectStep(reg: Registry, curr: Name, am: map<Path, TableAlias>, ch: Choices, joins: seq<JoinSpec>,
                   prefix: Path, parent: TableAlias, field: Path)
    requires Linked(reg) && AllSettle(reg) && curr in reg && IsExpanded(reg, curr, field)
    ensures JoinableLength(reg, curr, field) == 0 ==>
              Detect(reg, curr, am, ch, joins, prefix, parent, field) == Some(joins)
    ensures JoinableLength(reg, curr, field) > 0 ==>
      && field[0] in reg[curr].relations && reg[curr].relations[field[0]].model in reg
      && var rel, path := reg[curr].relations[field[0]], prefix + [field[0]];
         && NextModel(reg, curr, field[0]) == Some(rel.model)
         && IsExpanded(reg, rel.model, field[1..])
         && JoinableLength(reg, curr, field) == 1 + JoinableLength(reg, rel.model, field[1..])
         && (rel.through.Some? ==> rel.through.value in reg)
         && (path !in am ==> Detect(reg, curr, am, ch, joins, prefix, parent, field) == None)
         && (path in am ==>
               var joins' := Extended(reg, am, ch, joins, rel, parent, path);
               Detect(reg, curr, am, ch, joins, prefix, parent, field)
               == if joins'.None? then None
                  else Detect(reg, rel.model, am, ch, joins'.value, path, am[path], field[1..]))
  {
    hide Extended, Settles, Expand;
    ExpandFixesExactlyExpanded(reg, curr, field);
    if JoinableLength(reg, curr, field) > 0 {
      var rel := reg[curr].relations[field[0]];
      assert LinkedRelation(reg, rel);
      ExpandFixesExactlyExpanded(reg, rel.model, field[1..]);
    }
  }

  lemma VisitOneMore(reg: Registry, root: Name, curr: Name, am: map<Path, TableAlias>, ps: seq<Path>, prefix: Path,
                     seg: Name)
    requires Linked(reg) && root in reg && VisitOrder(reg, root, am, ps) && WalkTo(reg, root, prefix) == Some(curr)
    requires (prefix == [] || prefix in ps) && prefix + [seg] in am && NextModel(reg, curr, seg).Some?
    ensures Visitable(reg, root, am, prefix + [seg])
    ensures WalkTo(reg, root, prefix + [seg]) == NextModel(reg, curr, seg)
    ensures NextModel(reg, curr, seg) == Some(LastRelation(reg, root, prefix + [seg]).model)
    ensures LastRelation(reg, root, prefix + [seg]) == reg[curr].relations[seg]
    ensures prefix + [seg] !in ps ==> VisitOrder(reg, root, am, ps + [prefix + [seg]])
  {
    var path := prefix + [seg];
    assert path[..|path| - 1] == prefix;
    if prefix != [] {
      assert Visitable(reg, root, am, prefix);
    }
    if path !in ps {
      hide WalkTo, VisitOrder, Linked;
      OrderOneMore(reg, root, am, ps, path);
    }
  }

  lemma OrderOneMore(reg: Registry, root: Name, am: map<Path, TableAlias>, ps: seq<Path>, path: Path)
    requires root in reg && VisitOrder(reg, root, am, ps) && Visitable(reg, root, am, path) && path !in ps
    requires |path| > 1 ==> path[..|path| - 1] in ps
    ensures VisitOrder(reg, root, am, ps + [path])
  {
    hide Visitable, AfterParent;
    var ps' := ps + [path];
    forall i | 0 <= i < |ps'| ensures AfterParent(ps', i) {
      ParentStaysBefore(ps, path, i);
    }
  }

  lemma ParentStaysBefore(ps: seq<Path>, path: Path, i: nat)
    requires i < |ps| ==> AfterParent(ps, i)
    requires |path| > 1 ==> path[..|path| - 1] in ps
    requires i <= |ps|
    ensures AfterParent(ps + [path], i)
  {
    assert (ps + [path])[..i] == ps[..i];
    assert ps[..|ps|] == ps;
  }

  lemma {:induction false} VisitedExtends(ps: seq<Path>, prefix: Path, segs: Path, n: nat)
    requires n <= |segs|
    ensures ps <= Visited(ps, prefix, segs, n)
    decreases n
  {
    if n > 0 {
      VisitedExtends(With(ps, prefix + [segs[0]]), prefix + [segs[0]], segs[1..], n - 1);
    }
  }

  lemma {:induction false} NoBlockNoList(reg: Registry, root: Name, am: map<Path, TableAlias>, ch: Choices,
                                         ps: seq<Path>, qs: seq<Path>)
    requires Linked(reg) && root in reg && AllVisitable(reg, root, am, qs) && ps <= qs
    requires AllVisitable(reg, root, am, ps) && JoinsOf(reg, root, am, ch, ps).None?
    ensures JoinsOf(reg, root, am, ch, qs).None?
  {
    hide Visitable, Block, Linked;
    if |ps| < |qs| {
      NoBlockNoList(reg, root, am, ch, ps, qs[..|qs| - 1]);
    } else {
      assert ps == qs;
    }
  }

  lemma JoinsOfOneMore(reg: Registry, root: Name, am: map<Path, TableAlias>, ch: Choices, ps: seq<Path>, p: Path)
    requires Linked(reg) && root in reg && AllVisitable(reg, root, am, ps + [p])
    requires AllVisitable(reg, root, am, ps) && Visitable(reg, root, am, p)
    requires JoinsOf(reg, root, am, ch, ps).Some?
    ensures JoinsOf(reg, root, am, ch, ps + [p])
         == var joins := JoinsOf(reg, root, am, ch, ps).value;
            var block := Block(reg, root, am, ch, joins, p);
            if block.None? then None else Some(joins + block.value)
  {
    hide Block, Visitable;
    assert (ps + [p])[..|ps|] == ps;
  }

  lemma OrderIsVisitable(reg: Registry, root: Name, am: map<Path, TableAlias>, ps: seq<Path>)
    requires root in reg && VisitOrder(reg, root, am, ps)
    ensures AllVisitable(reg, root, am, ps)
  {
  }

  /** Where the recursion stands: at model `curr`, reached by the visited path `prefix`. */
  ghost predicate Standing(reg: Registry, root: Name, curr: Name, am: map<Path, TableAlias>, ps: seq<Path>,
                           prefix: Path)
    requires root in reg
  {
    && VisitOrder(reg, root, am, ps) && WalkTo(reg, root, prefix) == Some(curr)
    && (prefix != [] ==> prefix in ps && prefix in am)
  }

  function With(ps: seq<Path>, path: Path): seq<Path> {
    if path in ps then ps else ps + [path]
  }

  lemma StandOn(reg: Registry, root: Name, curr: Name, am: map<Path, TableAlias>, ps: seq<Path>, prefix: Path,
                seg: Name)
    requires Linked(reg) && root in reg && Standing(reg, root, curr, am, ps, prefix)
    requires curr in reg && prefix + [seg] in am && NextModel(reg, curr, seg).Some?
    ensures Standing(reg, root, NextModel(reg, curr, seg).value, am, With(ps, prefix + [seg]), prefix + [seg])
    ensures Visitable(reg, root, am, prefix + [seg]) && VisitOrder(reg, root, am, With(ps, prefix + [seg]))
    ensures seg in reg[curr].relations && LastRelation(reg, root, prefix + [seg]) == reg[curr].relations[seg]
  {
    VisitOneMore(reg, root, curr, am, ps, prefix, seg);
    hide VisitOrder, Visitable, WalkTo, Linked;
  }

  lemma JoinsAfter(reg: Registry, root: Name, curr: Name, am: map<Path, TableAlias>, ch: Choices, ps: seq<Path>,
                   joins: seq<JoinSpec>, prefix: Path, seg: Name)
    requires Linked(reg) && root in reg && InjectiveNumbered(am) && Standing(reg, root, curr, am, ps, prefix)
    requires AllVisitable(reg, root, am, ps) && JoinsOf(reg, root, am, ch, ps) == Some(joins)
    requires curr in reg && prefix + [seg] in am && NextModel(reg, curr, seg).Some?
    ensures AllVisitable(reg, root, am, With(ps, prefix + [seg]))
    ensures seg in reg[curr].relations && reg[curr].relations[seg].model in reg
    ensures var rel, path := reg[curr].relations[seg], prefix + [seg];
      && (rel.through.Some? ==> rel.through.value in reg)
      && JoinsOf(reg, root, am, ch, With(ps, path)) == Extended(reg, am, ch, joins, rel, AliasOf(am, prefix), path)
  {
    var path := prefix + [seg];
    StandOn(reg, root, curr, am, ps, prefix, seg);
    AliasesOfVisited(reg, root, am, ch, ps);
    OrderIsVisitable(reg, root, am, With(ps, path));
    NewPathBlock(reg, root, curr, am, ch, ps, joins, prefix, seg);
    hide VisitOrder, Visitable, WalkTo, Linked, JoinsFor, Aliases, InjectiveNumbered;
    if path in ps {
      assert joins + [] == joins;
    } else {
      JoinsOfOneMore(reg, root, am, ch, ps, path);
    }
  }

  /** What the recursion returns: the blocks of the visited paths when all prefixes are covered, otherwise nothing. */
  ghost predicate Outcome(reg: Registry, root: Name, am: map<Path, TableAlias>, ch: Choices, ps: seq<Path>,
                          covered: bool, d: Option<seq<JoinSpec>>)
    requires Linked(reg) && root in reg
  {
    if covered then
      VisitOrder(reg, root, am, ps) && AllVisitable(reg, root, am, ps) && d == JoinsOf(reg, root, am, ch, ps)
    else d == None
  }

  lemma NothingToVisit(reg: Registry, root: Name, curr: Name, am: map<Path, TableAlias>, ch: Choices, ps: seq<Path>,
                       prefix: Path, field: Path)
    requires Linked(reg) && root in reg && Standing(reg, root, curr, am, ps, prefix)
    requires AllVisitable(reg, root, am, ps)
    ensures Outcome(reg, root, am, ch, Visited(ps, prefix, field, 0), Covered(am, prefix, field, 0),
                    JoinsOf(reg, root, am, ch, ps))
  {
  }

  lemma NoBlockForPath(reg: Registry, root: Name, curr: Name, am: map<Path, TableAlias>, ch: Choices, ps: seq<Path>,
                       prefix: Path, segs: Path, n: nat)
    requires Linked(reg) && root in reg && curr in reg && Standing(reg, root, curr, am, ps, prefix)
    requires AllVisitable(reg, root, am, ps) && JoinsOf(reg, root, am, ch, ps) == None
    requires n == JoinableLength(reg, curr, segs)
    ensures Outcome(reg, root, am, ch, Visited(ps, prefix, segs, n), Covered(am, prefix, segs, n), None)
  {
    hide VisitOrder, Visitable, WalkTo, Linked, JoinsOf, Covered, JoinableLength;
    if Covered(am, prefix, segs, n) {
      RestIsVisited(reg, root, curr, am, ps, prefix, segs);
      VisitedExtends(ps, prefix, segs, n);
      NoBlockNoList(reg, root, am, ch, ps, Visited(ps, prefix, segs, n));
    }
  }

  lemma NotCovered(reg: Registry, root: Name, am: map<Path, TableAlias>, ch: Choices, ps: seq<Path>)
    requires Linked(reg) && root in reg
    ensures Outcome(reg, root, am, ch, ps, false, None)
  {
  }

  lemma VisitedStep(ps: seq<Path>, prefix: Path, segs: Path, n: nat)
    requires 0 < n <= |segs|
    ensures Visited(ps, prefix, segs, n) == Visited(With(ps, prefix + [segs[0]]), prefix + [segs[0]], segs[1..], n - 1)
  {
  }

  /** The recursion adds exactly the blocks of the prefixes it meets first, and fails exactly when a prefix has no
      alias or no block. */
  lemma {:induction false} DetectVisits(reg: Registry, root: Name, curr: Name, am: map<Path, TableAlias>, ch: Choices,
                                        ps: seq<Path>, prefix: Path, field: Path)
    requires Linked(reg) && AllSettle(reg) && root in reg && curr in reg && InjectiveNumbered(am)
    requires Standing(reg, root, curr, am, ps, prefix) && AllVisitable(reg, root, am, ps)
    requires JoinsOf(reg, root, am, ch, ps).Some? && IsExpanded(reg, curr, field)
    requires prefix != [] ==> prefix in am
    ensures Outcome(reg, root, am, ch, Visited(ps, prefix, field, JoinableLength(reg, curr, field)),
                    Covered(am, prefix, field, JoinableLength(reg, curr, field)),
                    Detect(reg, curr, am, ch, JoinsOf(reg, root, am, ch, ps).value, prefix, AliasOf(am, prefix), field))
    decreases |field|
  {
    hide VisitOrder, Visitable, WalkTo, Linked, Extended, InjectiveNumbered, Detect, Covered, AllSettle, IsExpanded,
         JoinsOf, JoinableLength, NextModel, Outcome, Visited, Standing, With, AllVisitable;
    var n := JoinableLength(reg, curr, field);
    var joins := JoinsOf(reg, root, am, ch, ps).value;
    DetectStep(reg, curr, am, ch, joins, prefix, AliasOf(am, prefix), field);
    if n == 0 {
      NothingToVisit(reg, root, curr, am, ch, ps, prefix, field);
    } else {
      var path, tail := prefix + [field[0]], field[1..];
      CoveredStep(am, prefix, field, n);
      VisitedStep(ps, prefix, field, n);
      if path !in am {
        NotCovered(reg, root, am, ch, Visited(ps, prefix, field, n));
      } else {
        var next, ps1 := reg[curr].relations[field[0]].model, With(ps, path);
        StandOn(reg, root, curr, am, ps, prefix, field[0]);
        JoinsAfter(reg, root, curr, am, ch, ps, joins, prefix, field[0]);
        if JoinsOf(reg, root, am, ch, ps1).Some? {
          DetectVisits(reg, root, next, am, ch, ps1, path, tail);
        } else {
          NoBlockForPath(reg, root, next, am, ch, ps1, path, tail, n - 1);
        }
      }
    }
  }

  lemma NewPathBlock(reg: Registry, root: Name, curr: Name, am: map<Path, TableAlias>, ch: Choices, ps: seq<Path>,
                     joins: seq<JoinSpec>, prefix: Path, seg: Name)
    requires Linked(reg) && root in reg && curr in reg && Visitable(reg, root, am, prefix + [seg])
    requires seg in reg[curr].relations && LastRelation(reg, root, prefix + [seg]) == reg[curr].relations[seg]
    requires prefix != [] ==> prefix in am
    ensures var rel := reg[curr].relations[seg];
      && rel.model in reg && (rel.through.Some? ==> rel.through.value in reg)
      && Block(reg, root, am, ch, joins, prefix + [seg])
         == JoinsFor(reg, rel, AliasOf(am, prefix), am[prefix + [seg]], ch, Aliases(joins))
  {
    hide WalkTo, JoinsFor, Aliases;
    LastRelationIsLinked(reg, root, prefix + [seg]);
    assert (prefix + [seg])[..|prefix|] == prefix;
  }

  /** Visiting the rest of a covered path keeps the order, whatever the blocks are. */
  lemma {:induction false} RestIsVisited(reg: Registry, root: Name, curr: Name, am: map<Path, TableAlias>,
                                         ps: seq<Path>, prefix: Path, segs: Path)
    requires Linked(reg) && root in reg && curr in reg && Standing(reg, root, curr, am, ps, prefix)
    requires Covered(am, prefix, segs, JoinableLength(reg, curr, segs))
    ensures var ps' := Visited(ps, prefix, segs, JoinableLength(reg, curr, segs));
      VisitOrder(reg, root, am, ps') && AllVisitable(reg, root, am, ps')
    decreases |segs|
  {
    var n := JoinableLength(reg, curr, segs);
    hide VisitOrder, Visitable, WalkTo, Linked, Covered, NextModel;
    if n == 0 {
      OrderIsVisitable(reg, root, am, ps);
    } else {
      CoveredStep(am, prefix, segs, n);
      StandOn(reg, root, curr, am, ps, prefix, segs[0]);
      RestIsVisited(reg, root, NextModel(reg, curr, segs[0]).value, am, With(ps, prefix + [segs[0]]),
                    prefix + [segs[0]], segs[1..]);
    }
  }

  lemma DetectOfExpanded(reg: Registry, curr: Name, am: map<Path, TableAlias>, ch: Choices, joins: seq<JoinSpec>,
                         prefix: Path, parent: TableAlias, field: Path)
    requires Linked(reg) && AllSettle(reg) && curr in reg
    ensures Settles(reg, curr, field) && IsExpanded(reg, curr, Expand(reg, curr, field))
    ensures Detect(reg, curr, am, ch, joins, prefix, parent, field)
         == Detect(reg, curr, am, ch, joins, prefix, parent, Expand(reg, curr, field))
  {
    hide Settles, Expand, Extended, JoinsFor, ExpandWithin;
    ExpandExpands(reg, curr, field);
    ExpandFixesExactlyExpanded(reg, curr, Expand(reg, curr, field));
  }

  /** The joinable part of a requested field path. */
  ghost function Joinable(reg: Registry, root: Name, field: Path): Path
    requires AllSettle(reg) && root in reg
  {
    var p := Expand(reg, root, field);
    p[..JoinableLength(reg, root, p)]
  }

  /** Everything the fields make the walk visit, in order. */
  ghost function VisitedAll(reg: Registry, root: Name, fields: seq<Path>): seq<Path>
    requires AllSettle(reg) && root in reg
  {
    if fields == [] then []
    else
      var path := Joinable(reg, root, fields[|fields| - 1]);
      Visited(VisitedAll(reg, root, fields[..|fields| - 1]), [], path, |path|)
  }

  ghost predicate AllCovered(reg: Registry, root: Name, am: map<Path, TableAlias>, fields: seq<Path>)
    requires AllSettle(reg) && root in reg
  {
    forall f <- fields :: PrefixesIn(am, Joinable(reg, root, f))
  }

  ghost predicate PrefixesIn(am: map<Path, TableAlias>, p: Path) {
    forall k | 0 < k <= |p| :: p[..k] in am
  }

  lemma {:induction false} VisitedOfPrefix(ps: seq<Path>, prefix: Path, segs: Path, n: nat)
    requires n <= |segs|
    ensures Visited(ps, prefix, segs, n) == Visited(ps, prefix, segs[..n], n)
    decreases n
  {
    if n > 0 {
      VisitedOfPrefix(With(ps, prefix + [segs[0]]), prefix + [segs[0]], segs[1..], n - 1);
      assert segs[..n][1..] == segs[1..][..n - 1];
      VisitedOfPrefix(With(ps, prefix + [segs[0]]), prefix + [segs[0]], segs[..n][1..], n - 1);
      assert segs[..n][1..][..n - 1] == segs[..n][1..];
    }
  }

  lemma CoveredIsPrefixesIn(am: map<Path, TableAlias>, segs: Path, n: nat)
    requires n <= |segs|
    ensures Covered(am, [], segs, n) <==> PrefixesIn(am, segs[..n])
  {
    assert forall k | 0 < k <= n :: segs[..n][..k] == segs[..k] == [] + segs[..k];
  }

  /** DetectJoins returns the blocks of all visited paths, or fails because a prefix has no alias or no block. */
  lemma {:induction false} DetectAllVisits(reg: Registry, root: Name, am: map<Path, TableAlias>, ch: Choices,
                                           fields: seq<Path>)
    requires Linked(reg) && AllSettle(reg) && root in reg && InjectiveNumbered(am)
    ensures AllCovered(reg, root, am, fields) ==>
              VisitOrder(reg, root, am, VisitedAll(reg, root, fields))
              && AllVisitable(reg, root, am, VisitedAll(reg, root, fields))
              && DetectAll(reg, root, am, ch, fields) == JoinsOf(reg, root, am, ch, VisitedAll(reg, root, fields))
    ensures !AllCovered(reg, root, am, fields) ==> DetectAll(reg, root, am, ch, fields) == None
  {
    hide VisitOrder, WalkTo, Linked, Extended, InjectiveNumbered, Detect, Covered, AllSettle, IsExpanded, JoinsOf,
         JoinableLength, Visited, AllVisitable, PrefixesIn, Expand, Joinable;
    if fields == [] {
      EmptyVisit(reg, root, am, ch);
    } else {
      var init, last := fields[..|fields| - 1], fields[|fields| - 1];
      assert fields == init + [last];
      DetectAllVisits(reg, root, am, ch, init);
      if AllCovered(reg, root, am, init) {
        if DetectAll(reg, root, am, ch, init).Some? {
          DetectOneVisits(reg, root, am, ch, VisitedAll(reg, root, init), last);
        } else if PrefixesIn(am, Joinable(reg, root, last)) {
          FailedBefore(reg, root, am, ch, VisitedAll(reg, root, init), last);
        }
      }
    }
  }

  lemma EmptyVisit(reg: Registry, root: Name, am: map<Path, TableAlias>, ch: Choices)
    requires Linked(reg) && root in reg
    ensures VisitOrder(reg, root, am, []) && AllVisitable(reg, root, am, [])
      && JoinsOf(reg, root, am, ch, []) == Some([])
  {
  }

  lemma DetectOneVisits(reg: Registry, root: Name, am: map<Path, TableAlias>, ch: Choices, ps: seq<Path>, field: Path)
    requires Linked(reg) && AllSettle(reg) && root in reg && InjectiveNumbered(am)
    requires VisitOrder(reg, root, am, ps) && AllVisitable(reg, root, am, ps) && JoinsOf(reg, root, am, ch, ps).Some?
    ensures var path := Joinable(reg, root, field);
      Outcome(reg, root, am, ch, Visited(ps, [], path, |path|), PrefixesIn(am, path),
              Detect(reg, root, am, ch, JoinsOf(reg, root, am, ch, ps).value, [], Main, field))
  {
    hide VisitOrder, Linked, Extended, InjectiveNumbered, Detect, Covered, Settles, IsExpanded, JoinsOf,
         JoinableLength, Visited, AllVisitable, PrefixesIn, Expand, Outcome;
    var p := Expand(reg, root, field);
    DetectOfExpanded(reg, root, am, ch, JoinsOf(reg, root, am, ch, ps).value, [], Main, field);
    DetectVisits(reg, root, root, am, ch, ps, [], p);
    VisitedOfPrefix(ps, [], p, JoinableLength(reg, root, p));
    CoveredIsPrefixesIn(am, p, JoinableLength(reg, root, p));
  }

  lemma FailedBefore(reg: Registry, root: Name, am: map<Path, TableAlias>, ch: Choices, ps: seq<Path>, field: Path)
    requires Linked(reg) && AllSettle(reg) && root in reg && InjectiveNumbered(am)
    requires VisitOrder(reg, root, am, ps) && AllVisitable(reg, root, am, ps) && JoinsOf(reg, root, am, ch, ps).None?
    requires PrefixesIn(am, Joinable(reg, root, field))
    ensures var path := Joinable(reg, root, field);
      Outcome(reg, root, am, ch, Visited(ps, [], path, |path|), true, None)
  {
    hide VisitOrder, Linked, Covered, Settles, JoinsOf, JoinableLength, Visited, AllVisitable, PrefixesIn, Expand,
         Outcome;
    var p := Expand(reg, root, field);
    NoBlockForPath(reg, root, root, am, ch, ps, [], p, JoinableLength(reg, root, p));
    VisitedOfPrefix(ps, [], p, JoinableLength(reg, root, p));
    CoveredIsPrefixesIn(am, p, JoinableLength(reg, root, p));
  }

  // ----- what the list guarantees -----

  ghost predicate DistinctAliases(joins: seq<JoinSpec>) {
    && Main !in Aliases(joins)
    && forall i, j | 0 <= i < j < |joins| :: joins[i].alias != joins[j].alias
  }

  /** ON mentions the join's own alias and otherwise only the main table or an earlier alias. */
  predicate InScope(joins: seq<JoinSpec>, i: nat)
    requires i < |joins|
  {
    var j := joins[i];
    && j.left.table in {Main, j.alias} + Aliases(joins[..i])
    && j.right.table in {Main, j.alias} + Aliases(joins[..i])
    && (j.left.table == j.alias || j.right.table == j.alias)
  }

  ghost predicate WellScoped(joins: seq<JoinSpec>) {
    forall i | 0 <= i < |joins| :: InScope(joins, i)
  }

  lemma BlockInScope(reg: Registry, root: Name, am: map<Path, TableAlias>, ch: Choices, joins: seq<JoinSpec>, p: Path)
    requires Linked(reg) && root in reg && Visitable(reg, root, am, p) && Block(reg, root, am, ch, joins, p).Some?
    requires |p| > 1 ==> am[p[..|p| - 1]] in Aliases(joins)
    requires WellScoped(joins)
    ensures WellScoped(joins + Block(reg, root, am, ch, joins, p).value)
  {
    hide WalkTo, IsLinkTo, Aliases, Linked;
    var block := Block(reg, root, am, ch, joins, p).value;
    LastRelationIsLinked(reg, root, p);
    var all := joins + block;
    forall i | 0 <= i < |all| ensures InScope(all, i) {
      if i < |joins| {
        assert all[..i] == joins[..i];
        assert InScope(joins, i);
      } else if i == |joins| {
        assert all[..i] == joins;
      } else {
        assert all[..i] == joins + [block[0]];
        AliasesAppend(joins, [block[0]]);
        AliasOfOne(block[0]);
      }
    }
  }

  lemma AliasOfOne(j: JoinSpec)
    ensures Aliases([j]) == {j.alias}
  {
    assert j in [j];
  }

  lemma BlockDistinct(reg: Registry, root: Name, am: map<Path, TableAlias>, ch: Choices, joins: seq<JoinSpec>, p: Path)
    requires Linked(reg) && root in reg && Visitable(reg, root, am, p) && Block(reg, root, am, ch, joins, p).Some?
    requires DistinctAliases(joins) && am[p].T? && am[p] !in Aliases(joins)
    requires Through(ch.unused(Aliases(joins))) !in Aliases(joins)
    ensures DistinctAliases(joins + Block(reg, root, am, ch, joins, p).value)
  {
    hide WalkTo, IsLinkTo, Linked;
    var block := Block(reg, root, am, ch, joins, p).value;
    BlockAliases(reg, root, am, ch, joins, p);
    AliasesAppend(joins, block);
    AliasMembers(joins);
    LastRelationIsLinked(reg, root, p);
    hide Aliases;
  }

  lemma AliasMembers(joins: seq<JoinSpec>)
    ensures forall i | 0 <= i < |joins| :: joins[i].alias in Aliases(joins)
  {
  }

  /** Pairwise distinct aliases, each ON in scope. */
  lemma {:induction false} BlocksAreWellJoined(reg: Registry, root: Name, am: map<Path, TableAlias>, ch: Choices,
                                               ps: seq<Path>)
    requires Linked(reg) && root in reg && InjectiveNumbered(am) && Allowed(reg, ch)
    requires VisitOrder(reg, root, am, ps) && AllVisitable(reg, root, am, ps) && JoinsOf(reg, root, am, ch, ps).Some?
    ensures DistinctAliases(JoinsOf(reg, root, am, ch, ps).value) && WellScoped(JoinsOf(reg, root, am, ch, ps).value)
  {
    hide Block, Visitable, Linked, WellScoped, DistinctAliases, InjectiveNumbered, Aliases, Allowed, WalkTo;
    if ps == [] {
      NoJoins();
    } else {
      var init, p := ps[..|ps| - 1], ps[|ps| - 1];
      OrderOfInit(reg, root, am, ps);
      BlocksAreWellJoined(reg, root, am, ch, init);
      AliasesOfVisited(reg, root, am, ch, init);
      var before := JoinsOf(reg, root, am, ch, init).value;
      FreshFor(reg, am, ch, before, p);
      BlockInScope(reg, root, am, ch, before, p);
      BlockDistinct(reg, root, am, ch, before, p);
    }
  }

  lemma NoJoins()
    ensures DistinctAliases([]) && WellScoped([])
  {
  }

  lemma FreshFor(reg: Registry, am: map<Path, TableAlias>, ch: Choices, joins: seq<JoinSpec>, p: Path)
    requires Allowed(reg, ch) && InjectiveNumbered(am) && p in am
    ensures Through(ch.unused(Aliases(joins))) !in Aliases(joins) && am[p].T?
  {
  }

  lemma OrderOfInit(reg: Registry, root: Name, am: map<Path, TableAlias>, ps: seq<Path>)
    requires root in reg && VisitOrder(reg, root, am, ps) && ps != []
    ensures var init, p := ps[..|ps| - 1], ps[|ps| - 1];
      && VisitOrder(reg, root, am, init) && AllVisitable(reg, root, am, init) && Visitable(reg, root, am, p)
      && p !in init && p in am && (|p| > 1 ==> p[..|p| - 1] in init)
  {
    hide Visitable, WalkTo;
    var init, p := ps[..|ps| - 1], ps[|ps| - 1];
    assert AfterParent(ps, |ps| - 1);
    assert Visitable(reg, root, am, p);
    VisitableInMap(reg, root, am, p);
    forall i | 0 <= i < |init| ensures AfterParent(init, i) {
      assert AfterParent(ps, i);
      assert init[..i] == ps[..i];
    }
  }

  /** A path is visited when it is a prefix that was asked for. */
  lemma {:induction false} VisitedElements(ps: seq<Path>, prefix: Path, segs: Path, n: nat, p: Path)
    requires n <= |segs|
    ensures p in Visited(ps, prefix, segs, n) <==> p in ps || exists k | 0 < k <= n :: p == prefix + segs[..k]
    decreases n
  {
    if n > 0 {
      var path := prefix + [segs[0]];
      VisitedElements(With(ps, path), path, segs[1..], n - 1, p);
      assert prefix + segs[..1] == path;
      if exists k | 0 < k <= n - 1 :: p == path + segs[1..][..k] {
        var k :| 0 < k <= n - 1 && p == path + segs[1..][..k];
        PrefixThroughFirst(prefix, segs, k + 1);
      }
      if exists k | 1 < k <= n :: p == prefix + segs[..k] {
        var k :| 1 < k <= n && p == prefix + segs[..k];
        PrefixThroughFirst(prefix, segs, k);
        assert p == path + segs[1..][..k - 1];
      }
    }
  }

  ghost predicate IsPrefixOfSome(reg: Registry, root: Name, fields: seq<Path>, p: Path)
    requires AllSettle(reg) && root in reg
  {
    exists f <- fields :: p != [] && p <= Joinable(reg, root, f)
  }

  lemma {:induction false} VisitedAllElements(reg: Registry, root: Name, fields: seq<Path>, p: Path)
    requires AllSettle(reg) && root in reg
    ensures p in VisitedAll(reg, root, fields) <==> IsPrefixOfSome(reg, root, fields, p)
  {
    hide AllSettle, Joinable, Visited;
    if fields != [] {
      var init, last := fields[..|fields| - 1], fields[|fields| - 1];
      assert fields == init + [last];
      VisitedAllElements(reg, root, init, p);
      var path := Joinable(reg, root, last);
      VisitedElements(VisitedAll(reg, root, init), [], path, |path|, p);
      assert forall k | 0 < k <= |path| :: [] + path[..k] == path[..k];
      if p != [] && p <= path {
        assert p == path[..|p|];
      }
    }
  }

  /** The join list of a request: pairwise distinct aliases, every ON in scope, and numbered aliases exactly for the
      relation prefixes of the requested paths. */
  lemma JoinListIsCorrect(reg: Registry, root: Name, am: map<Path, TableAlias>, ch: Choices, fields: seq<Path>)
    requires Linked(reg) && AllSettle(reg) && root in reg && InjectiveNumbered(am) && Allowed(reg, ch)
    requires DetectAll(reg, root, am, ch, fields).Some?
    ensures var joins := DetectAll(reg, root, am, ch, fields).value;
      && DistinctAliases(joins) && WellScoped(joins)
      && (forall p <- am :: am[p] in Aliases(joins) <==> IsPrefixOfSome(reg, root, fields, p))
      && (forall a <- Aliases(joins) | !a.Through? ::
           exists p <- am :: am[p] == a && IsPrefixOfSome(reg, root, fields, p))
  {
    hide Linked, AllSettle, InjectiveNumbered, Allowed, DetectAll, DistinctAliases, WellScoped, IsPrefixOfSome, JoinsOf,
         VisitOrder, AllCovered, VisitedAll, Aliases, Visitable;
    DetectAllVisits(reg, root, am, ch, fields);
    var ps := VisitedAll(reg, root, fields);
    BlocksAreWellJoined(reg, root, am, ch, ps);
    AliasesOfVisited(reg, root, am, ch, ps);
    forall p ensures p in ps <==> IsPrefixOfSome(reg, root, fields, p) {
      VisitedAllElements(reg, root, fields, p);
    }
    forall p <- ps ensures p in am {
      var i :| 0 <= i < |ps| && ps[i] == p;
      VisitableInMap(reg, root, am, ps[i]);
    }
  }

  // ----- when the list exists -----

  /** The intermediate model of a relation has a linked relation to the target. The registry check compares model names
      only, so a polymorphic relation passes it and is still not found here. */
  ghost predicate ThroughLinkedRelation(reg: Registry, rel: Relation) {
    rel.through.Some? ==> rel.through.value in reg && HasLinkTo(reg, rel.through.value, rel.model)
  }

  ghost predicate ThroughLinked(reg: Registry) {
    forall m <- reg, r <- reg[m].relations :: ThroughLinkedRelation(reg, reg[m].relations[r])
  }

  /** The relations met on the given paths have their links. */
  ghost predicate PathsLinked(reg: Registry, root: Name, ps: seq<Path>)
    requires root in reg
  {
    forall i | 0 <= i < |ps| :: PathLinked(reg, root, ps[i])
  }

  ghost predicate PathLinked(reg: Registry, root: Name, p: Path)
    requires root in reg
  {
    p != [] && WalkTo(reg, root, p).Some? ==> ThroughLinkedRelation(reg, LastRelation(reg, root, p))
  }

  lemma BlockExistsExactly(reg: Registry, root: Name, am: map<Path, TableAlias>, ch: Choices, joins: seq<JoinSpec>,
                           p: Path)
    requires Linked(reg) && root in reg && Allowed(reg, ch) && Visitable(reg, root, am, p)
    ensures Block(reg, root, am, ch, joins, p).Some? <==> PathLinked(reg, root, p)
  {
    hide Linked, IsLinkTo, Aliases, WalkTo;
    LastRelationIsLinked(reg, root, p);
  }

  lemma {:induction false} BlocksExistExactly(reg: Registry, root: Name, am: map<Path, TableAlias>, ch: Choices,
                                              ps: seq<Path>)
    requires Linked(reg) && root in reg && Allowed(reg, ch) && AllVisitable(reg, root, am, ps)
    ensures JoinsOf(reg, root, am, ch, ps).Some? <==> PathsLinked(reg, root, ps)
  {
    hide Linked, PathLinked, Allowed, Visitable, Block, WalkTo;
    if ps != [] {
      var init, p := ps[..|ps| - 1], ps[|ps| - 1];
      assert Visitable(reg, root, am, p) && forall i | 0 <= i < |init| :: init[i] == ps[i];
      BlocksExistExactly(reg, root, am, ch, init);
      if JoinsOf(reg, root, am, ch, init).Some? {
        BlockExistsExactly(reg, root, am, ch, JoinsOf(reg, root, am, ch, init).value, p);
      }
    }
  }

  /** The exact condition: join detection returns a list if and only if every visited prefix has an alias and every
      `through` relation met has a linked relation behind it. */
  lemma DetectionIsExact(reg: Registry, root: Name, am: map<Path, TableAlias>, ch: Choices, fields: seq<Path>)
    requires Linked(reg) && AllSettle(reg) && root in reg && InjectiveNumbered(am) && Allowed(reg, ch)
    ensures DetectAll(reg, root, am, ch, fields).Some? <==>
            AllCovered(reg, root, am, fields) && PathsLinked(reg, root, VisitedAll(reg, root, fields))
  {
    hide *;
    DetectAllVisits(reg, root, am, ch, fields);
    if AllCovered(reg, root, am, fields) {
      BlocksExistExactly(reg, root, am, ch, VisitedAll(reg, root, fields));
    }
  }

  /** So it never fails on covered paths of a registry in which every `through` has its link. */
  lemma LinkedRegistriesDetect(reg: Registry, root: Name, am: map<Path, TableAlias>, ch: Choices, fields: seq<Path>)
    requires Linked(reg) && AllSettle(reg) && root in reg && InjectiveNumbered(am) && Allowed(reg, ch)
    requires ThroughLinked(reg) && AllCovered(reg, root, am, fields)
    ensures DetectAll(reg, root, am, ch, fields).Some?
  {
    hide Linked, AllSettle, InjectiveNumbered, Allowed, AllCovered, DetectAll, VisitedAll;
    DetectionIsExact(reg, root, am, ch, fields);
    var ps := VisitedAll(reg, root, fields);
    forall i | 0 <= i < |ps| ensures PathLinked(reg, root, ps[i]) {
      if ps[i] != [] && WalkTo(reg, root, ps[i]).Some? {
        assert ThroughLinkedRelation(reg, LastRelation(reg, root, ps[i]));
      }
    }
  }

  /** Model A reaches C through B, and B's only relation to C is polymorphic. */
  const POLYMORPHIC_LINK: Registry := map[
    "A" := Model("a", map["r" := Relation(HasMany, "C", "a_id", "id", Some("B"), "", "", false, 0, false)], map[],
      map[]),
    "B" := Model("b", map["c" := Relation(BelongsTo, "C", "c_id", "id", None, "", "", false, 0, true)], map[], map[]),
    "C" := Model("c", map[], map[], map[])]

  /** The registry check accepts this registry, and no join detection along the relation succeeds. */
  lemma PolymorphicLinkFails(am: map<Path, TableAlias>, ch: Choices)
    ensures Linked(POLYMORPHIC_LINK) && AllSettle(POLYMORPHIC_LINK)
    ensures InjectiveNumbered(am) && Allowed(POLYMORPHIC_LINK, ch) ==>
              DetectAll(POLYMORPHIC_LINK, "A", am, ch, [["r"]]) == None
  {
    var reg := POLYMORPHIC_LINK;
    PolymorphicLinkIsLinked();
    PolymorphicLinkIsMissing();
    hide Linked, AllSettle, InjectiveNumbered, Allowed, DetectAll, VisitedAll, AllCovered, PathLinked;
    if InjectiveNumbered(am) && Allowed(reg, ch) {
      DetectionIsExact(reg, "A", am, ch, [["r"]]);
      VisitedAllElements(reg, "A", [["r"]], ["r"]);
      assert ["r"] <= Joinable(reg, "A", ["r"]);
      assert IsPrefixOfSome(reg, "A", [["r"]], ["r"]);
      var ps := VisitedAll(reg, "A", [["r"]]);
      var i :| 0 <= i < |ps| && ps[i] == ["r"];
      assert !PathLinked(reg, "A", ps[i]);
    }
  }

  lemma PolymorphicLinkIsLinked()
    ensures Linked(POLYMORPHIC_LINK) && AllSettle(POLYMORPHIC_LINK)
  {
    var reg := POLYMORPHIC_LINK;
    assert reg["B"].relations["c"].model == "C";
    forall m <- reg, r <- reg[m].relations ensures LinkedRelation(reg, reg[m].relations[r]) {
      assert (m == "A" && r == "r") || (m == "B" && r == "c");
      assert HasRelationTo(reg, "B", "C");
    }
    forall x: ModelAlias ensures !Uses(reg, x, x) {
      assert x.0 in reg ==> reg[x.0].aliases == map[];
    }
    AliasesSettleExactly(reg);
  }

  lemma PolymorphicLinkIsMissing()
    requires AllSettle(POLYMORPHIC_LINK)
    ensures !PathLinked(POLYMORPHIC_LINK, "A", ["r"]) && Joinable(POLYMORPHIC_LINK, "A", ["r"]) == ["r"]
  {
    var reg := POLYMORPHIC_LINK;
    assert NextModel(reg, "A", "r") == Some("C") && ["r"][1..] == [] && ["r"][..0] == [];
    assert IsExpanded(reg, "A", ["r"]);
    ExpandFixesExactlyExpanded(reg, "A", ["r"]);
    assert JoinableLength(reg, "A", ["r"]) == 1;
    assert WalkTo(reg, "A", ["r"]) == Some("C") && LastRelation(reg, "A", ["r"]) == reg["A"].relations["r"];
    forall r: Name ensures !IsLinkTo(reg, "B", "C", r) {
      assert r in reg["B"].relations ==> r == "c";
    }
  }

  // ----- the recursive walk over shared state -----

  /** One level of the recursion on a field as it is written. */
  lemma DetectTurn(reg: Registry, curr: Name, am: map<Path, TableAlias>, ch: Choices, joins: seq<JoinSpec>,
                   prefix: Path, parent: TableAlias, field: Path)
    requires Linked(reg) && AllSettle(reg) && curr in reg && Settles(reg, curr, field)
    ensures var segs := Expand(reg, curr, field);
      if !PathOrder.IsProper(segs) || segs[0] == "" || NextModel(reg, curr, segs[0]).None? then
        Detect(reg, curr, am, ch, joins, prefix, parent, field) == Some(joins)
      else
        && segs[0] in reg[curr].relations
        && var rel, path := reg[curr].relations[segs[0]], prefix + [segs[0]];
           && rel.model in reg && (rel.through.Some? ==> rel.through.value in reg)
           && var joins' := if path in am then Extended(reg, am, ch, joins, rel, parent, path) else None;
              Detect(reg, curr, am, ch, joins, prefix, parent, field)
              == if joins'.None? || !PathOrder.IsProper(segs[1..]) then joins'
                 else Detect(reg, rel.model, am, ch, joins'.value, path, am[path], segs[1..])
  {
    hide Settles, IsExpanded, Expand, Extended;
    ExpandExpands(reg, curr, field);
    ExpandFixesExactlyExpanded(reg, curr, field);
    var segs := Expand(reg, curr, field);
    if PathOrder.IsProper(segs) && segs[0] != "" && NextModel(reg, curr, segs[0]).Some? {
      assert LinkedRelation(reg, reg[curr].relations[segs[0]]);
    }
  }

  /** DetectJoins of one request: `joinMap` is shared by all levels of the recursion. */
  class JoinDetector {
    const reg: Registry
    const aliases: map<Path, TableAlias>
    const choices: Choices
    var joinMap: map<TableAlias, JoinSpec>

    constructor (reg: Registry, aliases: map<Path, TableAlias>, choices: Choices)
      ensures this.reg == reg && this.aliases == aliases && this.choices == choices && joinMap == map[]
    {
      this.reg, this.aliases, this.choices, this.joinMap := reg, aliases, choices, map[];
    }

    /** Adds the joins of one relation to the map; false when it has none. */
    method AddJoins(rel: Relation, parent: TableAlias, alias: TableAlias) returns (joins: seq<JoinSpec>, ok: bool)
      requires rel.model in reg && (rel.through.Some? ==> rel.through.value in reg) && alias !in joinMap
      modifies this`joinMap
      ensures ok <==> JoinsFor(reg, rel, parent, alias, choices, old(joinMap.Keys)).Some?
      ensures ok ==> JoinsFor(reg, rel, parent, alias, choices, old(joinMap.Keys)) == Some(joins)
      ensures ok ==> joinMap.Keys == old(joinMap.Keys) + Aliases(joins)
    {
      var added := JoinsFor(reg, rel, parent, alias, choices, joinMap.Keys);
      if added.None? {
        return [], false;
      }
      joins := added.value;
      for i := 0 to |joins|
        invariant joinMap.Keys == old(joinMap.Keys) + Aliases(joins[..i])
      {
        assert joins[..i + 1] == joins[..i] + [joins[i]];
        AliasesAppend(joins[..i], [joins[i]]);
        AliasOfOne(joins[i]);
        joinMap := joinMap[joins[i].alias := joins[i]];
      }
      assert joins[..|joins|] == joins;
      return joins, true;
    }

    /** detectJoinsRecursive for one field. `before` is the list all levels have produced so far. */
    method DetectField(curr: Name, field: Path, prefix: Path, parent: TableAlias, ghost before: seq<JoinSpec>)
      returns (joins: seq<JoinSpec>, ok: bool)
      requires Linked(reg) && AllSettle(reg) && curr in reg && joinMap.Keys == Aliases(before)
      modifies this`joinMap
      ensures Detect(reg, curr, aliases, choices, before, prefix, parent, field)
        == if ok then Some(before + joins) else None
      ensures ok ==> joinMap.Keys == Aliases(before + joins)
      decreases if IsExpanded(reg, curr, field) then 0 else 1, |field|
    {
      hide Settles, IsExpanded, JoinsFor, Aliases, Expand, Detect, Linked;
      ExpandExpands(reg, curr, field);
      ExpandFixesExactlyExpanded(reg, curr, field);
      DetectTurn(reg, curr, aliases, choices, before, prefix, parent, field);
      joins, ok := [], true;
      assert before + joins == before;
      var segs := ExpandAliasPath(reg, curr, field);
      if !PathOrder.IsProper(segs) || segs[0] == "" {
        return;
      }
      var next := NextModel(reg, curr, segs[0]);
      if next.None? {
        return;
      }
      var rel, path := reg[curr].relations[segs[0]], prefix + [segs[0]];
      if path !in aliases {
        return [], false;
      }
      var alias := aliases[path];
      if alias !in joinMap {
        joins, ok := AddJoins(rel, parent, alias);
        if !ok {
          return [], false;
        }
        AliasesAppend(before, joins);
      }
      assert Extended(reg, aliases, choices, before, rel, parent, path) == Some(before + joins);
      hide Extended;
      if PathOrder.IsProper(segs[1..]) {
        ExpandedTail(reg, curr, segs, rel.model);
        var deeper;
        deeper, ok := DetectField(rel.model, segs[1..], path, alias, before + joins);
        assert before + joins + deeper == before + (joins + deeper);
        joins := joins + deeper;
      }
    }

    /** DetectJoins: filter, sort and preset fields in one list. */
    method DetectJoins(root: Name, filterFields: seq<Path>, sortFields: seq<Path>, presetFields: seq<Path>)
      returns (joins: seq<JoinSpec>, ok: bool)
      requires Linked(reg) && AllSettle(reg) && root in reg && joinMap == map[]
      modifies this`joinMap
      ensures DetectAll(reg, root, aliases, choices, filterFields + sortFields + presetFields)
           == if ok then Some(joins) else None
    {
      var allFields := filterFields + sortFields + presetFields;
      hide Detect, Aliases, Linked, AllSettle;
      joins, ok := [], true;
      NoAliases();
      for i := 0 to |allFields|
        invariant DetectAll(reg, root, aliases, choices, allFields[..i]) == Some(joins)
        invariant ok && joinMap.Keys == Aliases(joins)
      {
        assert allFields[..i + 1][..i] == allFields[..i];
        var more;
        more, ok := DetectField(root, allFields[i], [], Main, joins);
        if !ok {
          FailureStays(reg, root, aliases, choices, allFields, i + 1);
          return;
        }
        joins := joins + more;
      }
      assert allFields[..|allFields|] == allFields;
    }
  }

  lemma NoAliases()
    ensures Aliases([]) == {}
  {
  }

  lemma ExpandedTail(reg: Registry, curr: Name, segs: Path, next: Name)
    requires curr in reg && segs != [] && IsExpanded(reg, curr, segs) && NextModel(reg, curr, segs[0]) == Some(next)
    ensures IsExpanded(reg, next, segs[1..])
  {
  }

  lemma {:induction false} FailureStays(reg: Registry, root: Name, am: map<Path, TableAlias>, ch: Choices,
                                        fields: seq<Path>, i: nat)
    requires Linked(reg) && AllSettle(reg) && root in reg && i <= |fields|
    requires DetectAll(reg, root, am, ch, fields[..i]).None?
    ensures DetectAll(reg, root, am, ch, fields).None?
  {
    hide Detect, Linked, AllSettle;
    if i < |fields| {
      assert fields[..|fields| - 1][..i] == fields[..i];
      FailureStays(reg, root, am, ch, fields[..|fields| - 1], i);
    } else {
      assert fields[..i] == fields;
    }
  }
}
