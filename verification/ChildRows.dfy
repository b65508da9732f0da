/** Rows as nested records, the child query of one relation, and its grouping (internal/resolver/resolver.go). */
module ChildRows {
  import opened Common

  type Row = map<string, Value>

  datatype Value = Null | Scalar(key: int) | Text(text: string) | Record(fields: Row) | Rows(rows: seq<Value>)

  const MAX_LIMIT := 1000

  function Get(row: Row, k: string): Value {
    if k in row then row[k] else Null
  }

  // ----- nested records -----

  /** getTargetContext */
  function Context(item: Row, path: seq<string>): Option<Row>
    decreases |path|
  {
    if path == [] then Some(item)
    else if path[0] in item && item[path[0]].Record? then Context(item[path[0]].fields, path[1..])
    else None
  }

  function Read(item: Row, path: seq<string>): Value
    requires path != []
  {
    var ctx := Context(item, path[..|path| - 1]);
    if ctx.Some? then Get(ctx.value, path[|path| - 1]) else Null
  }

  /** ensureTargetContext followed by the write: missing containers are created. */
  function Write(item: Row, path: seq<string>, k: string, v: Value): Row
    decreases |path|
  {
    if path == [] then item[k := v]
    else
      var inner := if path[0] in item && item[path[0]].Record? then item[path[0]].fields else map[];
      item[path[0] := Record(Write(inner, path[1..], k, v))]
  }

  /** Neither path leads into what the other names. */
  predicate Apart(p: seq<string>, q: seq<string>) {
    !(p <= q) && !(q <= p)
  }

  /** A context survives a write that is not on its way. */
  lemma {:induction false} ContextAfterWrite(item: Row, path: seq<string>, k: string, v: Value, at: seq<string>)
    requires !(path + [k] <= at) && Context(item, path).Some?
    ensures Context(Write(item, path, k, v), at).Some? <==> Context(item, at).Some?
    decreases |path|
  {
    if path != [] && at != [] && path[0] == at[0] {
      assert path + [k] == [path[0]] + (path[1..] + [k]) && at == [at[0]] + at[1..];
      ContextAfterWrite(item[path[0]].fields, path[1..], k, v, at[1..]);
    }
  }

  lemma {:induction false} ReadAfterWrite(item: Row, path: seq<string>, k: string, v: Value)
    requires Context(item, path).Some?
    ensures Context(Write(item, path, k, v), path) == Some(Context(item, path).value[k := v])
    ensures Read(Write(item, path, k, v), path + [k]) == v
    decreases |path|
  {
    assert (path + [k])[..|path|] == path;
    if path != [] {
      ReadAfterWrite(item[path[0]].fields, path[1..], k, v);
    }
  }

  lemma {:induction false} ReadElsewhere(item: Row, path: seq<string>, k: string, v: Value, at: seq<string>)
    requires Context(item, path).Some? && at != [] && Apart(path + [k], at)
    ensures Read(Write(item, path, k, v), at) == Read(item, at)
    decreases |path|
  {
    if path == [] {
      assert [at[0]] <= at;
    } else if path[0] != at[0] {
      assert Write(item, path, k, v) == item[path[0] := Write(item, path, k, v)[path[0]]];
    } else {
      assert (path + [k])[1..] == path[1..] + [k];
      ReadElsewhere(item[path[0]].fields, path[1..], k, v, at[1..]);
      ReadInside(item, at);
      ReadInside(Write(item, path, k, v), at);
    }
  }

  lemma ReadInside(item: Row, at: seq<string>)
    requires |at| > 1 && at[0] in item && item[at[0]].Record?
    ensures Read(item, at) == Read(item[at[0]].fields, at[1..])
  {
    assert at[..|at| - 1][1..] == at[1..][..|at| - 2];
  }

  // ----- the child query -----

  /** The rows whose foreign key is one of `ids`, in order. */
  function RowsIn(fk: string, rows: seq<Row>, ids: set<Value>): (r: seq<Row>)
    ensures |r| <= |rows|
  {
    if rows == [] then []
    else
      var last := rows[|rows| - 1];
      RowsIn(fk, rows[..|rows| - 1], ids) + if Get(last, fk) in ids then [last] else []
  }

  function Limited(rows: seq<Row>): (r: seq<Row>)
    ensures |r| <= MAX_LIMIT && r <= rows
  {
    if |rows| <= MAX_LIMIT then rows else rows[..MAX_LIMIT]
  }

  /** The payload a row of the intermediate table carries. */
  function Payload(row: Row, unwrap: string): Row {
    if unwrap in row && row[unwrap].Record? then row[unwrap].fields else map[]
  }

  /** What the child call returns for one of its rows, if anything. */
  type Showing = Row -> Option<Row>

  function Kept(rows: seq<Row>, show: Showing): seq<Row> {
    if rows == [] then []
    else
      var last := show(rows[|rows| - 1]);
      Kept(rows[..|rows| - 1], show) + if last.Some? then [last.value] else []
  }

  /** unwrapThrough on one row: without a payload it vanishes; the payload's own fields win over the kept
      foreign key. */
  function UnwrapRow(row: Row, fk: string, unwrap: string): Option<Row> {
    if Payload(row, unwrap) == map[] then None else Some(map[fk := Get(row, fk)] + Payload(row, unwrap))
  }

  function Unwrapped(rows: seq<Row>, fk: string, unwrap: string): seq<Row> {
    Kept(rows, row => UnwrapRow(row, fk, unwrap))
  }

  method UnwrapThrough(items: seq<Row>, fk: string, unwrap: string) returns (out: seq<Row>)
    ensures out == Unwrapped(items, fk, unwrap)
  {
    out := [];
    for i := 0 to |items|
      invariant out == Unwrapped(items[..i], fk, unwrap)
    {
      assert items[..i + 1][..i] == items[..i];
      var it := items[i];
      if unwrap in it && it[unwrap].Record? && it[unwrap].fields != map[] {
        var row: Row := map[fk := Get(it, fk)];
        row := row + it[unwrap].fields;
        out := out + [row];
      }
    }
    assert items[..|items|] == items;
  }

  /** One child query: `rows` is the child table under the relation's condition, in the relation's order. */
  function Fetch(fk: string, show: Showing, rows: seq<Row>, ids: set<Value>): seq<Row> {
    Kept(Limited(RowsIn(fk, rows, ids)), show)
  }

  /** What is shown of a row, if anything, still carries the row's own foreign key. */
  predicate KeepsKey(row: Row, fk: string, show: Showing) {
    show(row).Some? ==> Get(show(row).value, fk) == Get(row, fk)
  }

  ghost predicate KeyKept(rows: seq<Row>, fk: string, show: Showing) {
    forall i | 0 <= i < |rows| :: KeepsKey(rows[i], fk, show)
  }

  /** Unwrapping keeps the key of a row unless its payload has a field of that name with another value. */
  lemma UnwrappingKeepsKey(row: Row, fk: string, unwrap: string)
    ensures KeepsKey(row, fk, r => UnwrapRow(r, fk, unwrap)) <==>
            (fk in Payload(row, unwrap) ==> Payload(row, unwrap)[fk] == Get(row, fk))
  {
  }

  lemma {:induction false} RowsInTwice(fk: string, rows: seq<Row>, ids: set<Value>, one: set<Value>)
    requires one <= ids
    ensures RowsIn(fk, RowsIn(fk, rows, ids), one) == RowsIn(fk, rows, one)
  {
    if rows != [] {
      var init, last := rows[..|rows| - 1], rows[|rows| - 1];
      RowsInTwice(fk, init, ids, one);
      RowsInSnoc(fk, RowsIn(fk, init, ids), last, one);
      assert RowsIn(fk, rows, ids) ==
        if Get(last, fk) in ids then RowsIn(fk, init, ids) + [last] else RowsIn(fk, init, ids);
    }
  }

  lemma RowsInSnoc(fk: string, rows: seq<Row>, row: Row, ids: set<Value>)
    ensures RowsIn(fk, rows + [row], ids)
         == if Get(row, fk) in ids then RowsIn(fk, rows, ids) + [row] else RowsIn(fk, rows, ids)
  {
    assert (rows + [row])[..|rows|] == rows;
  }

  lemma {:induction false} RowsInAppend(fk: string, a: seq<Row>, b: seq<Row>, ids: set<Value>)
    ensures RowsIn(fk, a + b, ids) == RowsIn(fk, a, ids) + RowsIn(fk, b, ids)
    decreases |b|
  {
    if b == [] {
      assert a + b == a;
    } else {
      assert (a + b)[..|a + b| - 1] == a + b[..|b| - 1];
      RowsInAppend(fk, a, b[..|b| - 1], ids);
    }
  }

  lemma {:induction false} KeptCommutes(rows: seq<Row>, fk: string, show: Showing, ids: set<Value>)
    requires KeyKept(rows, fk, show)
    ensures RowsIn(fk, Kept(rows, show), ids) == Kept(RowsIn(fk, rows, ids), show)
  {
    if rows == [] {
      NothingIn(fk, show, ids);
    } else {
      hide RowsIn, Kept;
      var init, last := rows[..|rows| - 1], rows[|rows| - 1];
      assert rows == init + [last] && KeepsKey(last, fk, show) by {
        assert KeepsKey(rows[|rows| - 1], fk, show);
      }
      KeptCommutes(init, fk, show, ids);
      KeptSnoc(init, last, show);
      RowsInSnoc(fk, init, last, ids);
      KeptSnoc(RowsIn(fk, init, ids), last, show);
      if show(last).Some? {
        RowsInSnoc(fk, Kept(init, show), show(last).value, ids);
      }
    }
  }

  lemma NothingIn(fk: string, show: Showing, ids: set<Value>)
    ensures RowsIn(fk, [], ids) == [] && Kept([], show) == []
  {
  }

  lemma KeptSnoc(rows: seq<Row>, row: Row, show: Showing)
    ensures Kept(rows + [row], show)
         == if show(row).Some? then Kept(rows, show) + [show(row).value] else Kept(rows, show)
  {
    assert (rows + [row])[..|rows|] == rows;
  }

  /** Below the limit the batched query, regrouped, gives each parent what its own query would have given. */
  lemma BatchEqualsOwn(fk: string, show: Showing, rows: seq<Row>, ids: set<Value>, pid: Value)
    requires pid in ids && |RowsIn(fk, rows, ids)| <= MAX_LIMIT && KeyKept(RowsIn(fk, rows, ids), fk, show)
    ensures RowsIn(fk, Fetch(fk, show, rows, ids), {pid}) == Fetch(fk, show, rows, {pid})
    ensures Fetch(fk, show, rows, {pid}) == Kept(RowsIn(fk, rows, {pid}), show)
  {
    RowsInTwice(fk, rows, ids, {pid});
    KeptCommutes(RowsIn(fk, rows, ids), fk, show, {pid});
  }

  /** The exact condition: below the limit every parent gets what its own query would have given if and only if
      everything that is shown of a matching row carries the row's own foreign key. */
  lemma BatchIsExact(fk: string, show: Showing, rows: seq<Row>, ids: set<Value>)
    requires |RowsIn(fk, rows, ids)| <= MAX_LIMIT
    ensures KeyKept(RowsIn(fk, rows, ids), fk, show) <==>
            forall pid <- ids :: RowsIn(fk, Fetch(fk, show, rows, ids), {pid}) == Fetch(fk, show, rows, {pid})
  {
    hide RowsIn, Fetch, KeepsKey;
    var all := RowsIn(fk, rows, ids);
    if KeyKept(all, fk, show) {
      forall pid <- ids ensures RowsIn(fk, Fetch(fk, show, rows, ids), {pid}) == Fetch(fk, show, rows, {pid}) {
        BatchEqualsOwn(fk, show, rows, ids, pid);
      }
    } else {
      var i :| 0 <= i < |all| && !KeepsKey(all[i], fk, show);
      RowsInMatch(fk, rows, ids, i);
      ChangedKeyMovesRow(fk, show, rows, ids, i);
    }
  }

  /** A row that is shown with another key moves away from the parent that its own query shows it to. */
  lemma ChangedKeyMovesRow(fk: string, show: Showing, rows: seq<Row>, ids: set<Value>, i: nat)
    requires |RowsIn(fk, rows, ids)| <= MAX_LIMIT && i < |RowsIn(fk, rows, ids)|
    requires !KeepsKey(RowsIn(fk, rows, ids)[i], fk, show)
    ensures var pid := Get(RowsIn(fk, rows, ids)[i], fk);
      RowsIn(fk, Fetch(fk, show, rows, ids), {pid}) != Fetch(fk, show, rows, {pid})
  {
    hide RowsIn;
    var row := RowsIn(fk, rows, ids)[i];
    var pid, moved := Get(row, fk), show(row).value;
    RowsInMatch(fk, rows, ids, i);
    RowsInTwice(fk, rows, ids, {pid});
    RowsInHas(fk, RowsIn(fk, rows, ids), {pid}, row);
    KeptHas(RowsIn(fk, rows, {pid}), show, row);
    var batch := Fetch(fk, show, rows, ids);
    if moved in RowsIn(fk, batch, {pid}) {
      var k :| 0 <= k < |RowsIn(fk, batch, {pid})| && RowsIn(fk, batch, {pid})[k] == moved;
      RowsInMatch(fk, batch, {pid}, k);
      assert false;
    }
  }

  lemma {:induction false} RowsInHas(fk: string, rows: seq<Row>, ids: set<Value>, row: Row)
    requires row in rows && Get(row, fk) in ids
    ensures row in RowsIn(fk, rows, ids)
  {
    var init := rows[..|rows| - 1];
    assert rows == init + [rows[|rows| - 1]];
    if row in init {
      RowsInHas(fk, init, ids, row);
    }
  }

  lemma {:induction false} KeptHas(rows: seq<Row>, show: Showing, row: Row)
    requires row in rows && show(row).Some?
    ensures show(row).value in Kept(rows, show)
  {
    var init := rows[..|rows| - 1];
    assert rows == init + [rows[|rows| - 1]];
    if row in init {
      KeptHas(init, show, row);
    }
  }

  lemma {:induction false} RowsInMatch(fk: string, rows: seq<Row>, ids: set<Value>, i: nat)
    requires i < |RowsIn(fk, rows, ids)|
    ensures Get(RowsIn(fk, rows, ids)[i], fk) in ids
  {
    if i < |RowsIn(fk, rows[..|rows| - 1], ids)| {
      RowsInMatch(fk, rows[..|rows| - 1], ids, i);
    }
  }

  /** The limit is the exact condition as well: every parent gets all its rows if and only if the rows beyond the limit,
      if there are any, would not be shown to anybody. */
  lemma LimitIsExact(fk: string, show: Showing, rows: seq<Row>, ids: set<Value>)
    requires KeyKept(RowsIn(fk, rows, ids), fk, show)
    ensures Kept(RowsIn(fk, rows, ids)[|Limited(RowsIn(fk, rows, ids))|..], show) == [] <==>
            forall pid <- ids ::
              RowsIn(fk, Fetch(fk, show, rows, ids), {pid}) == Kept(RowsIn(fk, rows, {pid}), show)
  {
    hide RowsIn, Kept, KeepsKey;
    var all := RowsIn(fk, rows, ids);
    var cut, rest := Limited(all), all[|Limited(all)|..];
    assert all == cut + rest;
    forall pid <- ids
      ensures Kept(RowsIn(fk, rows, {pid}), show)
           == RowsIn(fk, Fetch(fk, show, rows, ids), {pid}) + Kept(RowsIn(fk, rest, {pid}), show)
    {
      RowsInTwice(fk, rows, ids, {pid});
      RowsInAppend(fk, cut, rest, {pid});
      KeptAppend(RowsIn(fk, cut, {pid}), RowsIn(fk, rest, {pid}), show);
      KeptCommutes(cut, fk, show, {pid});
    }
    if Kept(rest, show) == [] {
      forall pid <- ids ensures Kept(RowsIn(fk, rest, {pid}), show) == [] {
        KeptCommutes(rest, fk, show, {pid});
        NothingIn(fk, show, {pid});
      }
    } else {
      forall i | 0 <= i < |rest| ensures Get(rest[i], fk) in ids {
        RowsInMatch(fk, rows, ids, |cut| + i);
      }
      SomebodyMisses(fk, show, rest, ids);
    }
  }

  lemma {:induction false} KeptAppend(a: seq<Row>, b: seq<Row>, show: Showing)
    ensures Kept(a + b, show) == Kept(a, show) + Kept(b, show)
    decreases |b|
  {
    if b == [] {
      assert a + b == a;
    } else {
      assert (a + b)[..|a + b| - 1] == a + b[..|b| - 1];
      KeptAppend(a, b[..|b| - 1], show);
    }
  }

  /** A row that is shown is shown to the parent it belongs to. */
  lemma SomebodyMisses(fk: string, show: Showing, rest: seq<Row>, ids: set<Value>)
    requires Kept(rest, show) != [] && forall row <- rest :: Get(row, fk) in ids
    ensures exists pid <- ids :: Kept(RowsIn(fk, rest, {pid}), show) != []
  {
    hide RowsIn, Kept;
    var i := KeptFrom(rest, show);
    var pid := Get(rest[i], fk);
    RowsInHas(fk, rest, {pid}, rest[i]);
    KeptHas(RowsIn(fk, rest, {pid}), show, rest[i]);
    assert pid in ids;
  }

  lemma {:induction false} KeptFrom(rows: seq<Row>, show: Showing) returns (i: nat)
    requires Kept(rows, show) != []
    ensures i < |rows| && show(rows[i]).Some?
  {
    var n := |rows| - 1;
    if show(rows[n]).None? {
      i := KeptFrom(rows[..n], show);
    } else {
      i := n;
    }
  }

  // ----- grouping -----

  type Groups = map<Value, seq<Row>>

  /** Every foreign key that occurs, with its rows in order. */
  ghost predicate IsGrouping(g: Groups, fk: string, rows: seq<Row>) {
    forall v: Value :: (v in g <==> RowsIn(fk, rows, {v}) != []) && (v in g ==> g[v] == RowsIn(fk, rows, {v}))
  }

  function Grouped(fk: string, rows: seq<Row>): Groups {
    if rows == [] then map[]
    else
      var g, last := Grouped(fk, rows[..|rows| - 1]), rows[|rows| - 1];
      g[Get(last, fk) := GroupAt(g, Get(last, fk)) + [last]]
  }

  lemma {:induction false} GroupedIsGrouping(fk: string, rows: seq<Row>)
    ensures IsGrouping(Grouped(fk, rows), fk, rows)
  {
    hide IsGrouping, RowsIn;
    NoGroups(fk);
    if rows != [] {
      GroupedIsGrouping(fk, rows[..|rows| - 1]);
      AddToGroups(Grouped(fk, rows[..|rows| - 1]), fk, rows[..|rows| - 1], rows[|rows| - 1]);
      assert rows[..|rows| - 1] + [rows[|rows| - 1]] == rows;
    }
  }

  function GroupAt(g: Groups, v: Value): seq<Row> {
    if v in g then g[v] else []
  }

  lemma AddToGroups(g: Groups, fk: string, rows: seq<Row>, row: Row)
    requires IsGrouping(g, fk, rows)
    ensures IsGrouping(g[Get(row, fk) := GroupAt(g, Get(row, fk)) + [row]], fk, rows + [row])
  {
    hide RowsIn;
    forall v: Value
      ensures RowsIn(fk, rows + [row], {v}) == RowsIn(fk, rows, {v}) + if Get(row, fk) in {v} then [row] else []
    {
      RowsInSnoc(fk, rows, row, {v});
    }
  }

  /** The grouping loop of a child goroutine. */
  method GroupRows(fk: string, rows: seq<Row>) returns (g: Groups)
    ensures g == Grouped(fk, rows)
  {
    g := map[];
    for i := 0 to |rows|
      invariant g == Grouped(fk, rows[..i])
    {
      var pid := Get(rows[i], fk);
      assert rows[..i + 1][..i] == rows[..i];
      g := g[pid := GroupAt(g, pid) + [rows[i]]];
    }
    assert rows[..|rows|] == rows;
  }

  lemma NoGroups(fk: string)
    ensures IsGrouping(map[], fk, [])
  {
  }
}
