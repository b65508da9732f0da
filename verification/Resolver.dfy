/** Stitching batched children back into their parents (internal/resolver/resolver.go). */
module Resolver {
  import opened Common
  import opened ChildRows
  import opened Hydration

  // ----- collecting the parents' ids -----

  function ParentKey(item: Row, t: Tail): Value {
    Read(item, t.path + [t.pk])
  }

  /** The distinct non-null parent keys in item order. */
  function IdsOf(items: seq<Row>, t: Tail): seq<Value> {
    if items == [] then []
    else
      var ids, id := IdsOf(items[..|items| - 1], t), ParentKey(items[|items| - 1], t);
      if id == Null || id in ids then ids else ids + [id]
  }

  lemma {:induction false} IdsAreTheKeys(items: seq<Row>, t: Tail, id: Value)
    ensures id in IdsOf(items, t) <==> id != Null && exists i :: 0 <= i < |items| && ParentKey(items[i], t) == id
    ensures forall i, j | 0 <= i < j < |IdsOf(items, t)| :: IdsOf(items, t)[i] != IdsOf(items, t)[j]
  {
    if items != [] {
      var init, last := items[..|items| - 1], items[|items| - 1];
      IdsAreTheKeys(init, t, id);
      assert items == init + [last];
      if id != Null && ParentKey(last, t) == id {
        assert ParentKey(items[|items| - 1], t) == id;
      }
      if exists i :: 0 <= i < |init| && ParentKey(init[i], t) == id {
        var i :| 0 <= i < |init| && ParentKey(init[i], t) == id;
        assert ParentKey(items[i], t) == id;
      }
    }
  }

  method CollectIds(items: seq<Row>, t: Tail) returns (ids: seq<Value>)
    ensures ids == IdsOf(items, t)
  {
    ids := [];
    var seen: set<Value> := {};
    for i := 0 to |items|
      invariant ids == IdsOf(items[..i], t) && seen == set id | id in ids
    {
      assert items[..i + 1][..i] == items[..i];
      var ctx := Context(items[i], t.path);
      assert (t.path + [t.pk])[..|t.path|] == t.path;
      if ctx.Some? && t.pk in ctx.value && ctx.value[t.pk] != Null {
        var v := ctx.value[t.pk];
        if v !in seen {
          seen := seen + {v};
          ids := ids + [v];
        }
      }
    }
    assert items[..|items|] == items;
  }

  /** Each tail with the ids collected for it. */
  function JobsOf(items: seq<Row>, tails: seq<Tail>): seq<Job> {
    seq(|tails|, i requires 0 <= i < |tails| => Job(tails[i], IdsOf(items, tails[i])))
  }

  // ----- stitching -----

  /** What is written for the rows of one parent; formatters are given. */
  function Shape(t: Tail, rows: seq<Row>, format: (string, Row) -> string): Value {
    if rows == [] then if t.limitOne then Null else Rows([])
    else if t.limitOne then Shown(t, rows[0], format)
    else Rows(seq(|rows|, i requires 0 <= i < |rows| => Shown(t, rows[i], format)))
  }

  /** A row without the foreign key that grouped it, unless a formatter turns it into text. */
  function Shown(t: Tail, row: Row, format: (string, Row) -> string): Value {
    if t.formatter != "" then Text(format(t.formatter, row)) else Record(row - {t.fk})
  }

  function RowsFor(grouped: map<string, Groups>, t: Tail, pid: Value): seq<Row> {
    if Key(t) in grouped then GroupAt(grouped[Key(t)], pid) else []
  }

  function Attach(item: Row, t: Tail, grouped: map<string, Groups>, format: (string, Row) -> string): Row {
    var ctx := Context(item, t.path);
    if ctx.None? then item
    else Write(item, t.path, t.alias, Shape(t, RowsFor(grouped, t, Get(ctx.value, t.pk)), format))
  }

  function Stitched(item: Row, tails: seq<Tail>, grouped: map<string, Groups>, format: (string, Row) -> string): Row {
    if tails == [] then item
    else Attach(Stitched(item, tails[..|tails| - 1], grouped, format), tails[|tails| - 1], grouped, format)
  }

  method Stitch(items: seq<Row>, tails: seq<Tail>, grouped: map<string, Groups>, format: (string, Row) -> string)
    returns (out: seq<Row>)
    ensures |out| == |items|
    ensures forall i | 0 <= i < |items| :: out[i] == Stitched(items[i], tails, grouped, format)
  {
    hide Attach;
    out := items;
    for i := 0 to |items|
      invariant |out| == |items|
      invariant forall k | 0 <= k < i :: out[k] == Stitched(items[k], tails, grouped, format)
      invariant forall k | i <= k < |items| :: out[k] == items[k]
    {
      for n := 0 to |tails|
        invariant |out| == |items|
        invariant forall k | 0 <= k < i :: out[k] == Stitched(items[k], tails, grouped, format)
        invariant forall k | i < k < |items| :: out[k] == items[k]
        invariant out[i] == Stitched(items[i], tails[..n], grouped, format)
      {
        assert tails[..n + 1][..n] == tails[..n];
        var target := AttachRows(out[i], tails[n], grouped, format);
        out := out[i := target];
      }
      assert tails[..|tails|] == tails;
    }
  }

  /** One row as it is attached: the formatter's text of it, or its fields but for the foreign key. */
  ghost predicate IsElement(t: Tail, row: Row, v: Value, format: (string, Row) -> string) {
    if t.formatter != "" then v == Text(format(t.formatter, row))
    else v.Record? && forall k: string :: (k in v.fields <==> k in row && k != t.fk) &&
                                          (k in v.fields ==> v.fields[k] == row[k])
  }

  /** The rows of one parent as they are attached: all of them in order, or the first one. */
  ghost predicate IsAttached(t: Tail, rows: seq<Row>, v: Value, format: (string, Row) -> string) {
    if t.limitOne then if rows == [] then v == Null else IsElement(t, rows[0], v, format)
    else v.Rows? && |v.rows| == |rows| && forall i | 0 <= i < |rows| :: IsElement(t, rows[i], v.rows[i], format)
  }

  method AttachRows(item: Row, t: Tail, grouped: map<string, Groups>, format: (string, Row) -> string)
    returns (r: Row)
    ensures r == Attach(item, t, grouped, format)
    ensures var ctx := Context(item, t.path);
      if ctx.None? then r == item
      else exists v :: r == Write(item, t.path, t.alias, v) &&
                       IsAttached(t, RowsFor(grouped, t, Get(ctx.value, t.pk)), v, format)
  {
    ShapeIsAttached(t, format);
    hide IsAttached;
    var ctx := Context(item, t.path);
    if ctx.None? {
      return item;
    }
    var pid := Get(ctx.value, t.pk);
    var groups: seq<Row> := [];
    if Key(t) in grouped && pid in grouped[Key(t)] {
      groups := grouped[Key(t)][pid];
    }
    if groups == [] {
      r := Write(item, t.path, t.alias, if t.limitOne then Null else Rows([]));
    } else if t.limitOne {
      r := Write(item, t.path, t.alias, Shown(t, groups[0], format));
    } else {
      var shown := [];
      for k := 0 to |groups|
        invariant |shown| == k && forall n | 0 <= n < k :: shown[n] == Shown(t, groups[n], format)
      {
        shown := shown + [Shown(t, groups[k], format)];
      }
      assert shown == seq(|groups|, i requires 0 <= i < |groups| => Shown(t, groups[i], format));
      r := Write(item, t.path, t.alias, Rows(shown));
    }
  }

  lemma ShapeIsAttached(t: Tail, format: (string, Row) -> string)
    ensures forall rows: seq<Row> :: IsAttached(t, rows, Shape(t, rows, format), format)
  {
    forall rows: seq<Row> ensures IsAttached(t, rows, Shape(t, rows, format), format) {
    }
  }

  // ----- independence of the tails -----

  /** Where a tail is written, and where its parent key is read. */
  function Place(t: Tail): seq<string> {
    t.path + [t.alias]
  }

  function KeyPlace(t: Tail): seq<string> {
    t.path + [t.pk]
  }

  ghost predicate AvoidsAll(tails: seq<Tail>, at: seq<string>) {
    forall i | 0 <= i < |tails| :: Apart(Place(tails[i]), at)
  }

  ghost predicate KeepsAll(tails: seq<Tail>, at: seq<string>) {
    forall i | 0 <= i < |tails| :: !(Place(tails[i]) <= at)
  }

  /** No tail writes where another one writes or reads its key. */
  ghost predicate Independent(tails: seq<Tail>) {
    forall i, j | 0 <= i < |tails| && 0 <= j < |tails| && i != j ::
      Apart(Place(tails[i]), Place(tails[j])) && Apart(Place(tails[i]), KeyPlace(tails[j]))
  }

  lemma {:induction false} ReadUntouched(item: Row, tails: seq<Tail>, grouped: map<string, Groups>,
                                         format: (string, Row) -> string, at: seq<string>)
    requires at != [] && AvoidsAll(tails, at)
    ensures Read(Stitched(item, tails, grouped, format), at) == Read(item, at)
  {
    hide Read, Shape, RowsFor;
    if tails != [] {
      var init, t := tails[..|tails| - 1], tails[|tails| - 1];
      ReadUntouched(item, init, grouped, format, at);
      var before := Stitched(item, init, grouped, format);
      var ctx := Context(before, t.path);
      if ctx.Some? {
        assert Apart(Place(t), at);
        ReadElsewhere(before, t.path, t.alias, Shape(t, RowsFor(grouped, t, Get(ctx.value, t.pk)), format), at);
      }
    }
  }

  lemma {:induction false} ContextUntouched(item: Row, tails: seq<Tail>, grouped: map<string, Groups>,
                                            format: (string, Row) -> string, at: seq<string>)
    requires KeepsAll(tails, at)
    ensures Context(Stitched(item, tails, grouped, format), at).Some? <==> Context(item, at).Some?
  {
    hide Shape, RowsFor;
    if tails != [] {
      var init, t := tails[..|tails| - 1], tails[|tails| - 1];
      ContextUntouched(item, init, grouped, format, at);
      var before := Stitched(item, init, grouped, format);
      var ctx := Context(before, t.path);
      if ctx.Some? {
        assert !(Place(t) <= at);
        ContextAfterWrite(before, t.path, t.alias, Shape(t, RowsFor(grouped, t, Get(ctx.value, t.pk)), format), at);
      }
    }
  }

  /** Each tail ends up with the rows grouped under the parent key of the untouched item. */
  lemma {:induction false} StitchedTail(item: Row, tails: seq<Tail>, grouped: map<string, Groups>,
                                        format: (string, Row) -> string, k: nat)
    requires k < |tails| && Independent(tails) && Context(item, tails[k].path).Some?
    ensures Read(Stitched(item, tails, grouped, format), Place(tails[k]))
         == Shape(tails[k], RowsFor(grouped, tails[k], ParentKey(item, tails[k])), format)
  {
    hide Shape, RowsFor, Context;
    var n := |tails| - 1;
    var init, t := tails[..n], tails[n];
    var before := Stitched(item, init, grouped, format);
    IndependentInit(tails);
    if k == n {
      ApartFromKey(tails);
      ContextUntouched(item, init, grouped, format, t.path);
      ReadUntouched(item, init, grouped, format, KeyPlace(t));
      KeyInContext(before, t);
      ReadAfterWrite(before, t.path, t.alias, Shape(t, RowsFor(grouped, t, ParentKey(before, t)), format));
    } else {
      StitchedTail(item, init, grouped, format, k);
      var ctx := Context(before, t.path);
      if ctx.Some? {
        assert Apart(Place(t), Place(tails[k]));
        ReadElsewhere(before, t.path, t.alias, Shape(t, RowsFor(grouped, t, Get(ctx.value, t.pk)), format),
          Place(tails[k]));
      }
    }
  }

  lemma IndependentInit(tails: seq<Tail>)
    requires Independent(tails) && tails != []
    ensures Independent(tails[..|tails| - 1])
  {
    hide Apart;
  }

  lemma ApartFromKey(tails: seq<Tail>)
    requires Independent(tails) && tails != []
    ensures var init, t := tails[..|tails| - 1], tails[|tails| - 1];
      AvoidsAll(init, KeyPlace(t)) && KeepsAll(init, t.path)
  {
    var init, t := tails[..|tails| - 1], tails[|tails| - 1];
    forall i | 0 <= i < |init| ensures Apart(Place(init[i]), KeyPlace(t)) && !(Place(init[i]) <= t.path) {
      assert Apart(Place(tails[i]), KeyPlace(t));
      assert t.path <= KeyPlace(t);
    }
  }

  lemma KeyInContext(item: Row, t: Tail)
    requires Context(item, t.path).Some?
    ensures ParentKey(item, t) == Get(Context(item, t.path).value, t.pk)
  {
    assert (t.path + [t.pk])[..|t.path|] == t.path;
  }

  // ----- the batched plan against one query per parent -----

  /** What a query for this parent alone would attach. */
  function OwnQuery(item: Row, t: Tail, format: (string, Row) -> string): Value {
    var pid := ParentKey(item, t);
    Shape(t, if pid == Null || !t.child.Table? then [] else Fetch(t.fk, ChildShows(t), t.child.rows, {pid}), format)
  }

  /** At most the limit of child rows match the collected ids, and the child call shows them with their foreign key. */
  ghost predicate WithinLimit(j: Job) {
    j.tail.child.Table? ==>
      var matching := RowsIn(j.tail.fk, j.tail.child.rows, set id | id in j.ids);
      |matching| <= MAX_LIMIT && KeyKept(matching, j.tail.fk, ChildShows(j.tail))
  }

  lemma RowsForParent(items: seq<Row>, tails: seq<Tail>, grouped: map<string, Groups>, i: nat, k: nat)
    requires i < |items| && k < |tails| && IsGathered(JobsOf(items, tails), grouped)
    requires AllWithinLimit(JobsOf(items, tails))
    ensures var t, pid := tails[k], ParentKey(items[i], tails[k]);
      RowsFor(grouped, t, pid)
      == if pid == Null || !t.child.Table? then [] else Fetch(t.fk, ChildShows(t), t.child.rows, {pid})
  {
    hide IdsOf, Fetch, RowsIn, KeyKept, Key, ParentKey, Grouped, WithinLimit;
    var jobs, t, pid := JobsOf(items, tails), tails[k], ParentKey(items[i], tails[k]);
    var job := jobs[k];
    IdsAreTheKeys(items, t, pid);
    if pid == Null {
      if Key(t) in grouped {
        NoNullGroup(items, tails, grouped[Key(t)], Key(t));
      }
    } else {
      assert IsStored(job, grouped) && WithinLimit(job);
      GroupOfParent(job, pid);
    }
  }

  lemma GroupOfParent(job: Job, pid: Value)
    requires job.tail.child.Table? && pid in job.ids && WithinLimit(job)
    ensures GroupAt(Answer(job), pid) == Fetch(job.tail.fk, ChildShows(job.tail), job.tail.child.rows, {pid})
  {
    hide Fetch, RowsIn, KeyKept, Grouped;
    var t, ids := job.tail, set id | id in job.ids;
    GroupedIsGrouping(t.fk, Fetch(t.fk, ChildShows(t), t.child.rows, ids));
    BatchEqualsOwn(t.fk, ChildShows(t), t.child.rows, ids, pid);
  }

  /** No parent is without a key among those a query was sent for, so nothing is grouped under null. */
  lemma NoNullGroup(items: seq<Row>, tails: seq<Tail>, groups: Groups, key: string)
    requires AllWithinLimit(JobsOf(items, tails)) && StoredBy(JobsOf(items, tails), key, groups)
    ensures GroupAt(groups, Null) == []
  {
    hide IdsOf, Fetch, RowsIn, KeyKept, Key, Grouped, WithinLimit;
    var jobs := JobsOf(items, tails);
    var i :| 0 <= i < |jobs| && Answers(jobs[i]) && Key(jobs[i].tail) == key && groups == Answer(jobs[i]);
    assert WithinLimit(jobs[i]);
    var t, ids := jobs[i].tail, set id | id in jobs[i].ids;
    IdsAreTheKeys(items, tails[i], Null);
    NoNullRows(jobs[i]);
    GroupedIsGrouping(t.fk, Fetch(t.fk, ChildShows(t), t.child.rows, ids));
  }

  lemma NoNullRows(job: Job)
    requires job.tail.child.Table? && Null !in job.ids && WithinLimit(job)
    ensures var t := job.tail;
      RowsIn(t.fk, Fetch(t.fk, ChildShows(t), t.child.rows, set id | id in job.ids), {Null}) == []
  {
    hide RowsIn, KeyKept;
    var t, ids := job.tail, set id | id in job.ids;
    RowsInDisjoint(t.fk, t.child.rows, ids, {Null});
    KeptCommutes(RowsIn(t.fk, t.child.rows, ids), t.fk, ChildShows(t), {Null});
  }

  lemma {:induction false} RowsInDisjoint(fk: string, rows: seq<Row>, a: set<Value>, b: set<Value>)
    requires a !! b
    ensures RowsIn(fk, RowsIn(fk, rows, a), b) == []
  {
    if rows != [] {
      var init, last := rows[..|rows| - 1], rows[|rows| - 1];
      RowsInDisjoint(fk, init, a, b);
      RowsInSnoc(fk, RowsIn(fk, init, a), last, b);
      assert RowsIn(fk, rows, a) == if Get(last, fk) in a then RowsIn(fk, init, a) + [last] else RowsIn(fk, init, a);
    }
  }

  /** Every parent has, at each tail's place, what its own query would have attached. */
  ghost predicate IsHydrated(items: seq<Row>, out: seq<Row>, tails: seq<Tail>, format: (string, Row) -> string) {
    && |out| == |items|
    && forall i, k | 0 <= i < |items| && 0 <= k < |tails| && Context(items[i], tails[k].path).Some? ::
         Read(out[i], Place(tails[k])) == OwnQuery(items[i], tails[k], format)
  }

  /** Nothing else changes. */
  ghost predicate OnlyTailsWritten(items: seq<Row>, out: seq<Row>, tails: seq<Tail>) {
    && |out| == |items|
    && forall i, at | 0 <= i < |items| && at != [] && AvoidsAll(tails, at) :: Read(out[i], at) == Read(items[i], at)
  }

  ghost predicate AllWithinLimit(jobs: seq<Job>) {
    forall k | 0 <= k < |jobs| :: WithinLimit(jobs[k])
  }

  lemma StitchedIsHydrated(items: seq<Row>, out: seq<Row>, tails: seq<Tail>, grouped: map<string, Groups>,
                           format: (string, Row) -> string)
    requires |out| == |items| && forall i | 0 <= i < |items| :: out[i] == Stitched(items[i], tails, grouped, format)
    ensures IsGathered(JobsOf(items, tails), grouped) && Independent(tails) && AllWithinLimit(JobsOf(items, tails)) ==>
              IsHydrated(items, out, tails, format)
    ensures OnlyTailsWritten(items, out, tails)
  {
    hide Stitched, Shape, Independent, WithinLimit, RowsFor, Read, AvoidsAll, IsGathered, Fetch, ParentKey;
    if IsGathered(JobsOf(items, tails), grouped) && Independent(tails) && AllWithinLimit(JobsOf(items, tails)) {
      forall i, k | 0 <= i < |items| && 0 <= k < |tails| && Context(items[i], tails[k].path).Some?
        ensures Read(out[i], Place(tails[k])) == OwnQuery(items[i], tails[k], format)
      {
        StitchedTail(items[i], tails, grouped, format, k);
        RowsForParent(items, tails, grouped, i, k);
      }
    }
    forall i, at | 0 <= i < |items| && at != [] && AvoidsAll(tails, at) ensures Read(out[i], at) == Read(items[i], at) {
      ReadUntouched(items[i], tails, grouped, format, at);
    }
  }

  // ----- what a parent of a plain relation is given -----

  /** The positions, in the child table, of the rows that carry the parent's key. */
  ghost predicate ArePositions(rows: seq<Row>, fk: string, pid: Value, at: seq<nat>) {
    && (forall i, j | 0 <= i < j < |at| :: at[i] < at[j])
    && (forall n: nat :: n in at <==> n < |rows| && Get(rows[n], fk) == pid)
  }

  /** A list holds, in the order of the child table, each row that carries the parent's key, as the child call finishes
      it; a single place holds the first of them. */
  ghost predicate IsServedPlainly(t: Tail, pid: Value, v: Value, format: (string, Row) -> string) {
    if pid == Null || !t.child.Table? then v == if t.limitOne then Null else Rows([])
    else
      exists at: seq<nat> :: ArePositions(t.child.rows, t.fk, pid, at) && AttachedFrom(t, at, v, format)
  }

  ghost predicate AttachedFrom(t: Tail, at: seq<nat>, v: Value, format: (string, Row) -> string)
    requires t.child.Table?
  {
    && (forall i | 0 <= i < |at| :: at[i] < |t.child.rows|)
    && if t.limitOne
       then if at == [] then v == Null else IsElement(t, t.child.finish(t.child.rows[at[0]]), v, format)
       else v.Rows? && |v.rows| == |at| &&
            forall i | 0 <= i < |at| :: IsElement(t, t.child.finish(t.child.rows[at[i]]), v.rows[i], format)
  }

  /** `found` holds the rows at these positions. */
  ghost predicate StandAt(rows: seq<Row>, at: seq<nat>, found: seq<Row>) {
    |found| == |at| && forall i | 0 <= i < |at| :: at[i] < |rows| && found[i] == rows[at[i]]
  }

  lemma {:induction false} PositionsOf(rows: seq<Row>, fk: string, pid: Value) returns (at: seq<nat>)
    ensures ArePositions(rows, fk, pid, at) && StandAt(rows, at, RowsIn(fk, rows, {pid}))
  {
    hide RowsIn, ArePositions, StandAt;
    at := [];
    if rows == [] {
      NoPositions(fk, pid);
    } else {
      var init, last := rows[..|rows| - 1], rows[|rows| - 1];
      assert rows == init + [last];
      var before := PositionsOf(init, fk, pid);
      RowsInSnoc(fk, init, last, {pid});
      OneMorePosition(init, last, fk, pid, before);
      OneMoreStands(init, last, before, RowsIn(fk, init, {pid}));
      at := if Get(last, fk) == pid then before + [|init|] else before;
    }
  }

  lemma NoPositions(fk: string, pid: Value)
    ensures ArePositions([], fk, pid, []) && StandAt([], [], RowsIn(fk, [], {pid}))
  {
  }

  lemma OneMoreStands(init: seq<Row>, last: Row, before: seq<nat>, found: seq<Row>)
    requires StandAt(init, before, found)
    ensures StandAt(init + [last], before, found) && StandAt(init + [last], before + [|init|], found + [last])
  {
  }

  lemma OneMorePosition(init: seq<Row>, last: Row, fk: string, pid: Value, before: seq<nat>)
    requires ArePositions(init, fk, pid, before)
    ensures ArePositions(init + [last], fk, pid, if Get(last, fk) == pid then before + [|init|] else before)
  {
    var rows, at := init + [last], if Get(last, fk) == pid then before + [|init|] else before;
    forall n: nat ensures n in at <==> n < |rows| && Get(rows[n], fk) == pid {
      assert n in before <==> n < |init| && Get(init[n], fk) == pid;
    }
    forall i | 0 <= i < |before| ensures before[i] < |init| {
      assert before[i] in before;
    }
  }

  lemma {:induction false} AllShown(t: Tail, rows: seq<Row>)
    requires t.child.Table? && !(t.through.Some? && t.through.value.unwrapped)
    ensures |Kept(rows, ChildShows(t))| == |rows|
    ensures forall i | 0 <= i < |rows| :: Kept(rows, ChildShows(t))[i] == t.child.finish(rows[i])
  {
    if rows != [] {
      AllShown(t, rows[..|rows| - 1]);
    }
  }

  lemma PlainQueryServes(item: Row, t: Tail, format: (string, Row) -> string)
    requires t.through.None?
    requires t.child.Table? && ParentKey(item, t) != Null ==>
      |RowsIn(t.fk, t.child.rows, {ParentKey(item, t)})| <= MAX_LIMIT
    ensures IsServedPlainly(t, ParentKey(item, t), OwnQuery(item, t, format), format)
  {
    hide RowsIn, Kept, Shape, ArePositions, ParentKey, IsElement;
    var pid := ParentKey(item, t);
    ShapeIsAttached(t, format);
    if pid == Null || !t.child.Table? {
      assert IsAttached(t, [], OwnQuery(item, t, format), format);
    } else {
      var found := RowsIn(t.fk, t.child.rows, {pid});
      var at := PositionsOf(t.child.rows, t.fk, pid);
      AllShown(t, found);
      assert IsAttached(t, Kept(found, ChildShows(t)), OwnQuery(item, t, format), format);
      assert AttachedFrom(t, at, OwnQuery(item, t, format), format);
    }
  }

  /** Every place of a plain relation is served so. */
  ghost predicate PlainTailsServed(items: seq<Row>, out: seq<Row>, tails: seq<Tail>, format: (string, Row) -> string) {
    && |out| == |items|
    && forall i, k | 0 <= i < |items| && 0 <= k < |tails| && tails[k].through.None? &&
                     Context(items[i], tails[k].path).Some? ::
         IsServedPlainly(tails[k], ParentKey(items[i], tails[k]), Read(out[i], Place(tails[k])), format)
  }

  lemma ParentWithinLimit(items: seq<Row>, tails: seq<Tail>, i: nat, k: nat)
    requires AllWithinLimit(JobsOf(items, tails)) && i < |items| && k < |tails|
    requires tails[k].child.Table? && ParentKey(items[i], tails[k]) != Null
    ensures |RowsIn(tails[k].fk, tails[k].child.rows, {ParentKey(items[i], tails[k])})| <= MAX_LIMIT
  {
    hide RowsIn, IdsOf, ParentKey, KeyKept;
    var t, pid, job := tails[k], ParentKey(items[i], tails[k]), JobsOf(items, tails)[k];
    IdsAreTheKeys(items, t, pid);
    assert WithinLimit(job) && pid in job.ids;
    RowsInTwice(t.fk, t.child.rows, set id | id in job.ids, {pid});
  }

  lemma HydratedIsServedPlainly(items: seq<Row>, out: seq<Row>, tails: seq<Tail>, format: (string, Row) -> string)
    requires IsHydrated(items, out, tails, format) && AllWithinLimit(JobsOf(items, tails))
    ensures PlainTailsServed(items, out, tails, format)
  {
    hide RowsIn, ParentKey, OwnQuery, IsServedPlainly, AllWithinLimit, Read, Context;
    forall i, k | 0 <= i < |items| && 0 <= k < |tails| && tails[k].through.None? &&
                  Context(items[i], tails[k].path).Some?
      ensures IsServedPlainly(tails[k], ParentKey(items[i], tails[k]), Read(out[i], Place(tails[k])), format)
    {
      PlainParentIsServed(items, tails, i, k, format);
    }
  }

  lemma PlainParentIsServed(items: seq<Row>, tails: seq<Tail>, i: nat, k: nat, format: (string, Row) -> string)
    requires AllWithinLimit(JobsOf(items, tails)) && i < |items| && k < |tails| && tails[k].through.None?
    ensures IsServedPlainly(tails[k], ParentKey(items[i], tails[k]), OwnQuery(items[i], tails[k], format), format)
  {
    hide RowsIn, ParentKey, AllWithinLimit, Fetch, Shape;
    var t, pid := tails[k], ParentKey(items[i], tails[k]);
    if t.child.Table? && pid != Null {
      ParentWithinLimit(items, tails, i, k);
    }
    PlainQueryServes(items[i], t, format);
  }

  /** The collecting loops: the ids of each tail are stored under its key, and looked up there. */
  method CollectJobs(items: seq<Row>, tails: seq<Tail>) returns (jobs: seq<Job>)
    ensures jobs == Shared(JobsOf(items, tails))
  {
    hide IdsOf, Key;
    var idsByKey: map<string, seq<Value>> := map[];
    for i := 0 to |tails|
      invariant forall k | 0 <= k < i :: Key(tails[k]) in idsByKey
      invariant forall key <- idsByKey :: idsByKey[key] == LastIds(JobsOf(items, tails[..i]), key)
    {
      var ids := CollectIds(items, tails[i]);
      OneMoreTail(items, tails, i);
      idsByKey := idsByKey[Key(tails[i]) := ids];
    }
    assert tails[..|tails|] == tails;
    jobs := [];
    for i := 0 to |tails|
      invariant |jobs| == i && forall k | 0 <= k < i :: jobs[k] == Shared(JobsOf(items, tails))[k]
    {
      jobs := jobs + [Job(tails[i], idsByKey[Key(tails[i])])];
    }
  }

  lemma OneMoreTail(items: seq<Row>, tails: seq<Tail>, i: nat)
    requires i < |tails|
    ensures forall key ::
      LastIds(JobsOf(items, tails[..i + 1]), key)
      == if Key(tails[i]) == key then IdsOf(items, tails[i]) else LastIds(JobsOf(items, tails[..i]), key)
  {
    hide IdsOf, Key;
    var own := JobsOf(items, tails[..i + 1]);
    assert own[i] == Job(tails[i], IdsOf(items, tails[i])) && |own| == i + 1;
    assert own[..|own| - 1] == JobsOf(items, tails[..i]);
    forall key
      ensures LastIds(own, key)
        == if Key(tails[i]) == key then IdsOf(items, tails[i]) else LastIds(JobsOf(items, tails[..i]), key)
    {
    }
  }

  /** The tails of one Resolver call under any complete interleaving: it fails exactly when a tail that is started fails
      on its own; otherwise only the tails' places change, and for independent tails that get their own answers the
      batched plan gives what one query per parent would have given. */
  method HydrateTails(items: seq<Row>, tails: seq<Tail>, schedule: seq<nat>, format: (string, Row) -> string)
    returns (out: Option<seq<Row>>)
    requires Complete(Run(Shared(JobsOf(items, tails)), schedule))
    ensures out.None? <==> SomeFails(Shared(JobsOf(items, tails)))
    ensures out.Some? && OwnAnswers(JobsOf(items, tails)) && Independent(tails) &&
            AllWithinLimit(JobsOf(items, tails)) ==>
              IsHydrated(items, out.value, tails, format)
    ensures out.Some? && OwnAnswers(JobsOf(items, tails)) && Independent(tails) &&
            AllWithinLimit(JobsOf(items, tails)) ==>
              PlainTailsServed(items, out.value, tails, format)
    ensures out.Some? ==> OnlyTailsWritten(items, out.value, tails)
  {
    hide PlainTailsServed, OwnAnswers, Complete, Run, SomeFails, IsHydrated, OnlyTailsWritten, AllWithinLimit,
         Independent, IsGathered, IdsOf, Shared;
    ghost var own := JobsOf(items, tails);
    var jobs := CollectJobs(items, tails);
    var s := Run(jobs, schedule);
    EveryInterleaving(jobs, schedule);
    if s.rerr {
      return None;
    }
    var stitched := Stitch(items, tails, s.grouped, format);
    if OwnAnswers(own) {
      OwnAnswersCompatible(own);
      OwnAnswersAreGathered(own, s.grouped);
    }
    StitchedIsHydrated(items, stitched, tails, s.grouped, format);
    if IsHydrated(items, stitched, tails, format) && AllWithinLimit(own) {
      HydratedIsServedPlainly(items, stitched, tails, format);
    }
    return Some(stitched);
  }

  /** Two belongs_to fields over one relation, each with a tail of the same name: the first one's child request would
      fail, but the second one has no ids, so it is never sent. */
  lemma LostIdsHideAFailure()
    ensures var items: seq<Row> := [map["a" := Scalar(1)]];
      var first := Tail([], "x", "a", "fk", false, "", None, Failing);
      var second := Tail([], "x", "b", "fk", false, "", None, Failing);
      SomeFails(JobsOf(items, [first, second])) && !SomeFails(Shared(JobsOf(items, [first, second])))
  {
    var items: seq<Row> := [map["a" := Scalar(1)]];
    var first := Tail([], "x", "a", "fk", false, "", None, Failing);
    var second := Tail([], "x", "b", "fk", false, "", None, Failing);
    var own := JobsOf(items, [first, second]);
    assert items[..0] == [] && IdsOf([], first) == [] && IdsOf([], second) == [];
    assert ParentKey(items[0], first) == Scalar(1) && ParentKey(items[0], second) == Null;
    assert own[0].ids == [Scalar(1)] && own[1].ids == [] && Fails(own[0]);
    assert Key(own[0].tail) == Key(own[1].tail);
    assert Shared(own)[0].ids == [] && Shared(own)[1].ids == [];
  }

  lemma OwnAnswersCompatible(own: seq<Job>)
    requires OwnAnswers(own)
    ensures Compatible(Shared(own))
  {
  }
}
