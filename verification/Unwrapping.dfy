/** The second unwrapping of rows that came through an intermediate model: the parent's finalizeItems
    (internal/resolver/finalizeItems.go:488-533) looks into whatever was stitched, whether or not the child call has
    unwrapped it already. */
module Unwrapping {
  import opened Common
  import opened ChildRows
  import opened Hydration
  import opened Resolver

  function Inner(v: Value, k: string): Option<Value> {
    if v.Record? && k in v.fields && v.fields[k].Record? then Some(v.fields[k]) else None
  }

  function InnerRows(vs: seq<Value>, k: string): seq<Value> {
    if vs == [] then []
    else
      var last := Inner(vs[|vs| - 1], k);
      InnerRows(vs[..|vs| - 1], k) + if last.Some? then [last.value] else []
  }

  /** A list of formatted texts, which has another type than a list of records. */
  predicate AreTexts(vs: seq<Value>) {
    vs != [] && forall i | 0 <= i < |vs| :: vs[i].Text?
  }

  /** What becomes of the value at a tail's place. */
  function Settle(t: Tail, v: Value): Value {
    if t.through.None? then v
    else if t.limitOne then
      var inner := Inner(v, t.through.value.again);
      if inner.Some? then inner.value else v
    else if v.Rows? && !AreTexts(v.rows) then Rows(InnerRows(v.rows, t.through.value.again))
    else v
  }

  function SettleAt(item: Row, t: Tail): Row {
    var ctx := Context(item, t.path);
    if ctx.None? || t.through.None? || t.alias !in ctx.value then item
    else Write(item, t.path, t.alias, Settle(t, ctx.value[t.alias]))
  }

  function Settled(item: Row, tails: seq<Tail>): Row {
    if tails == [] then item else SettleAt(Settled(item, tails[..|tails| - 1]), tails[|tails| - 1])
  }

  /** The unwrapping pass over the fields of a preset, and for each field over the items. */
  method UnwrapTails(items: seq<Row>, tails: seq<Tail>) returns (out: seq<Row>)
    ensures |out| == |items| && forall i | 0 <= i < |items| :: out[i] == Settled(items[i], tails)
  {
    hide SettleAt;
    out := items;
    for n := 0 to |tails|
      invariant |out| == |items| && forall i | 0 <= i < |items| :: out[i] == Settled(items[i], tails[..n])
    {
      assert tails[..n + 1][..n] == tails[..n];
      var before := out;
      for i := 0 to |items|
        invariant |out| == |items| && forall k | i <= k < |items| :: out[k] == before[k]
        invariant forall k | 0 <= k < i :: out[k] == SettleAt(before[k], tails[n])
      {
        var row := UnwrapOne(out[i], tails[n]);
        out := out[i := row];
      }
    }
    assert tails[..|tails|] == tails;
  }

  method UnwrapOne(item: Row, t: Tail) returns (r: Row)
    ensures r == SettleAt(item, t)
  {
    var ctx := Context(item, t.path);
    if t.through.None? || ctx.None? || t.alias !in ctx.value {
      return item;
    }
    var again, v := t.through.value.again, ctx.value[t.alias];
    r := item;
    if t.limitOne {
      if v.Record? && again in v.fields && v.fields[again].Record? {
        r := Write(item, t.path, t.alias, v.fields[again]);
      } else {
        WriteBack(item, t.path, t.alias);
      }
    } else if v.Rows? && !AreTexts(v.rows) {
      var inner := [];
      for k := 0 to |v.rows|
        invariant inner == InnerRows(v.rows[..k], again)
      {
        assert v.rows[..k + 1][..k] == v.rows[..k];
        var elem := v.rows[k];
        if elem.Record? && again in elem.fields && elem.fields[again].Record? {
          inner := inner + [elem.fields[again]];
        }
      }
      assert v.rows[..|v.rows|] == v.rows;
      r := Write(item, t.path, t.alias, Rows(inner));
    } else {
      WriteBack(item, t.path, t.alias);
    }
  }

  lemma {:induction false} WriteBack(item: Row, path: seq<string>, k: string)
    requires Context(item, path).Some? && k in Context(item, path).value
    ensures Write(item, path, k, Context(item, path).value[k]) == item
    decreases |path|
  {
    if path != [] {
      WriteBack(item[path[0]].fields, path[1..], k);
    }
  }

  // ----- the pass as a whole -----

  lemma {:induction false} SettledElsewhere(item: Row, tails: seq<Tail>, at: seq<string>)
    requires at != [] && AvoidsAll(tails, at)
    ensures Read(Settled(item, tails), at) == Read(item, at)
  {
    hide Read, Settle;
    if tails != [] {
      var init, t := tails[..|tails| - 1], tails[|tails| - 1];
      SettledElsewhere(item, init, at);
      var before := Settled(item, init);
      var ctx := Context(before, t.path);
      if ctx.Some? && t.alias in ctx.value {
        assert Apart(Place(t), at);
        ReadElsewhere(before, t.path, t.alias, Settle(t, ctx.value[t.alias]), at);
      }
    }
  }

  lemma SettledHere(item: Row, t: Tail)
    ensures Read(SettleAt(item, t), Place(t)) == Settle(t, Read(item, Place(t)))
  {
    assert Place(t)[..|t.path|] == t.path;
    var ctx := Context(item, t.path);
    if ctx.Some? && t.alias in ctx.value {
      ReadAfterWrite(item, t.path, t.alias, Settle(t, ctx.value[t.alias]));
    }
  }

  /** Independent tails are settled each at its own place. */
  lemma {:induction false} SettledTail(item: Row, tails: seq<Tail>, k: nat)
    requires k < |tails| && Independent(tails)
    ensures Read(Settled(item, tails), Place(tails[k])) == Settle(tails[k], Read(item, Place(tails[k])))
  {
    hide Read, Settle, SettleAt, Apart;
    var n := |tails| - 1;
    var init, t := tails[..n], tails[n];
    IndependentInit(tails);
    if k == n {
      assert AvoidsAll(init, Place(t)) by {
        forall i | 0 <= i < |init| ensures Apart(Place(init[i]), Place(t)) {
          assert tails[i] == init[i];
        }
      }
      SettledElsewhere(item, init, Place(t));
      SettledHere(Settled(item, init), t);
    } else {
      SettledTail(item, init, k);
      assert Apart(Place(t), Place(tails[k])) && [t][..0] == [];
      SettledElsewhere(Settled(item, init), [t], Place(tails[k]));
    }
  }

  // ----- what a parent ends up with -----

  /** The records the rows carry under `key`. */
  function Carried(rows: seq<Row>, key: string): seq<Row> {
    Kept(rows, row => if Payload(row, key) == map[] then None else Some(Payload(row, key)))
  }

  function Records(rows: seq<Row>): seq<Value> {
    seq(|rows|, i requires 0 <= i < |rows| => Record(rows[i]))
  }

  /** What the relation is for: the target's records, or the first of them. */
  function Promised(t: Tail, rows: seq<Row>): Value
    requires t.through.Some?
  {
    var held := Carried(rows, t.through.value.key);
    if !t.limitOne then Rows(Records(held)) else if held == [] then Null else Record(held[0])
  }

  /** What the parent's own rows end up as: unwrapped by the child call or not, stitched, and settled. */
  function Ends(t: Tail, rows: seq<Row>, format: (string, Row) -> string): Value
    requires t.through.Some?
  {
    var th := t.through.value;
    Settle(t, Shape(t, if th.unwrapped then Unwrapped(rows, t.fk, th.key) else rows, format))
  }

  /** The preset made for the intermediate model holds the foreign key and one relation. */
  ghost predicate FromIntermediate(t: Tail, rows: seq<Row>)
    requires t.through.Some?
  {
    forall i | 0 <= i < |rows| :: rows[i].Keys <= {t.fk, t.through.value.key}
  }

  /** finalizeItems looks where the child request has put the records. */
  predicate Found(t: Tail)
    requires t.through.Some?
  {
    t.through.value.again == t.through.value.key != t.fk
  }

  predicate HoldsEmpty(row: Row, key: string) {
    key in row && row[key] == Record(map[])
  }

  /** When it ends as promised. A child call that has unwrapped its rows leaves nothing for a list to find; a single
      row survives unless it loses a field. Rows that are still wrapped are found, but a row without a record can
      stand before the first one with a record. */
  ghost predicate EndsRight(t: Tail, rows: seq<Row>)
    requires t.through.Some?
  {
    var key, again, held := t.through.value.key, t.through.value.again, Carried(rows, t.through.value.key);
    if t.through.value.unwrapped then
      held == [] || (t.limitOne && t.fk !in held[0] && !(again in held[0] && held[0][again].Record?))
    else if !t.limitOne then
      if Found(t) then forall i | 0 <= i < |rows| :: !HoldsEmpty(rows[i], key) else held == []
    else if rows == [] then true
    else if Found(t) && key in rows[0] && rows[0][key].Record? then rows[0][key].fields != map[]
    else held != [] && held[0] == rows[0] - {t.fk}
  }

  /** The exact condition, for a list or a single row, whether the child call has unwrapped or not. */
  lemma EndsRightExactly(t: Tail, rows: seq<Row>, format: (string, Row) -> string)
    requires t.through.Some? && t.formatter == "" && FromIntermediate(t, rows)
    ensures Ends(t, rows, format) == Promised(t, rows) <==> EndsRight(t, rows)
  {
    hide Ends, Promised, EndsRight;
    if t.through.value.unwrapped {
      if t.limitOne {
        UnwrappedOne(t, rows, format);
      } else {
        UnwrappedList(t, rows, format);
      }
    } else if t.limitOne {
      WrappedOne(t, rows, format);
    } else {
      WrappedList(t, rows, format);
    }
  }

  /** The records found under `k` once the foreign key is deleted. */
  function Held(rows: seq<Row>, fk: string, k: string): seq<Value> {
    InnerRows(seq(|rows|, i requires 0 <= i < |rows| => Record(rows[i] - {fk})), k)
  }

  lemma HeldOneMore(rows: seq<Row>, fk: string, k: string)
    requires rows != []
    ensures var last := Inner(Record(rows[|rows| - 1] - {fk}), k);
      Held(rows, fk, k) == Held(rows[..|rows| - 1], fk, k) + if last.Some? then [last.value] else []
  {
    var n := |rows| - 1;
    var vs := seq(|rows|, i requires 0 <= i < |rows| => Record(rows[i] - {fk}));
    assert vs[..n] == seq(n, i requires 0 <= i < n => Record(rows[..n][i] - {fk}));
  }

  /** A list of records that are still wrapped. */
  lemma {:induction false} HeldAreCarried(rows: seq<Row>, fk: string, k: string)
    requires k != fk
    ensures |Held(rows, fk, k)| >= |Carried(rows, k)|
    ensures |Held(rows, fk, k)| == |Carried(rows, k)| <==> forall i | 0 <= i < |rows| :: !HoldsEmpty(rows[i], k)
    ensures |Held(rows, fk, k)| == |Carried(rows, k)| ==> Held(rows, fk, k) == Records(Carried(rows, k))
  {
    if rows != [] {
      hide Held;
      HeldAreCarried(rows[..|rows| - 1], fk, k);
      HeldOneMore(rows, fk, k);
      assert rows == rows[..|rows| - 1] + [rows[|rows| - 1]];
    }
  }

  lemma {:induction false} NothingHeld(t: Tail, rows: seq<Row>)
    requires t.through.Some? && !Found(t) && FromIntermediate(t, rows)
    ensures Held(rows, t.fk, t.through.value.again) == []
  {
    if rows != [] {
      hide Held;
      NothingHeld(t, rows[..|rows| - 1]);
      HeldOneMore(rows, t.fk, t.through.value.again);
    }
  }

  lemma ShapeOfList(t: Tail, rows: seq<Row>, format: (string, Row) -> string)
    requires t.through.Some? && t.formatter == "" && !t.limitOne
    ensures Settle(t, Shape(t, rows, format)) == Rows(Held(rows, t.fk, t.through.value.again))
  {
    var vs := seq(|rows|, i requires 0 <= i < |rows| => Record(rows[i] - {t.fk}));
    assert rows != [] ==> vs == Shape(t, rows, format).rows && vs[0].Record?;
    assert rows == [] ==> vs == [];
  }

  lemma WrappedList(t: Tail, rows: seq<Row>, format: (string, Row) -> string)
    requires t.through.Some? && t.formatter == "" && FromIntermediate(t, rows)
    requires !t.through.value.unwrapped && !t.limitOne
    ensures Ends(t, rows, format) == Promised(t, rows) <==> EndsRight(t, rows)
  {
    hide Held, Carried, Settle, Shape;
    ShapeOfList(t, rows, format);
    if Found(t) {
      HeldAreCarried(rows, t.fk, t.through.value.key);
    } else {
      NothingHeld(t, rows);
    }
  }

  /** No record lies within itself. */
  lemma {:induction false} NotWithinItself(v: Value, k: string)
    requires v.Record? && k in v.fields
    ensures v.fields[k] != v
    decreases v
  {
    if v.fields[k] == v {
      NotWithinItself(v.fields[k], k);
    }
  }

  /** What unwrapping makes of the rows are their payloads, but for the foreign key. */
  lemma {:induction false} UnwrappedAreCarried(rows: seq<Row>, fk: string, key: string)
    ensures |Unwrapped(rows, fk, key)| == |Carried(rows, key)|
    ensures forall i | 0 <= i < |Carried(rows, key)| ::
      Unwrapped(rows, fk, key)[i] - {fk} == Carried(rows, key)[i] - {fk}
  {
    if rows != [] {
      UnwrappedAreCarried(rows[..|rows| - 1], fk, key);
    }
  }

  lemma {:induction false} InnerRowsAreFewer(vs: seq<Value>, k: string)
    ensures |InnerRows(vs, k)| <= |vs|
    ensures vs != [] && |InnerRows(vs, k)| == |vs| ==>
      Inner(vs[|vs| - 1], k) == Some(InnerRows(vs, k)[|vs| - 1])
  {
    if vs != [] {
      InnerRowsAreFewer(vs[..|vs| - 1], k);
    }
  }

  /** A second unwrapping never gives the payloads back. */
  lemma UnwrappingTwiceLoses(held: seq<Row>, fk: string, k: string)
    requires held != []
    ensures InnerRows(seq(|held|, i requires 0 <= i < |held| => Record(held[i] - {fk})), k) != Records(held)
  {
    hide InnerRows;
    var vs := seq(|held|, i requires 0 <= i < |held| => Record(held[i] - {fk}));
    var n := |held| - 1;
    InnerRowsAreFewer(vs, k);
    if k in held[n] {
      NotWithinItself(Record(held[n]), k);
    }
  }

  lemma UnwrappedList(t: Tail, rows: seq<Row>, format: (string, Row) -> string)
    requires t.through.Some? && t.formatter == "" && t.through.value.unwrapped && !t.limitOne
    ensures Ends(t, rows, format) == Promised(t, rows) <==> EndsRight(t, rows)
  {
    hide Unwrapped, Carried, Settle, Shape, InnerRows;
    var th := t.through.value;
    var shown, held := Unwrapped(rows, t.fk, th.key), Carried(rows, th.key);
    ShapeOfList(t, shown, format);
    UnwrappedAreCarried(rows, t.fk, th.key);
    assert seq(|shown|, i requires 0 <= i < |shown| => Record(shown[i] - {t.fk}))
        == seq(|held|, i requires 0 <= i < |held| => Record(held[i] - {t.fk}));
    if held != [] {
      UnwrappingTwiceLoses(held, t.fk, th.again);
    } else {
      assert Held(shown, t.fk, th.again) == InnerRows([], th.again);
      NoInnerRows(th.again);
    }
  }

  lemma {:induction false} NoInnerAtAll(vs: seq<Value>, k: string)
    requires forall i | 0 <= i < |vs| :: Inner(vs[i], k).None?
    ensures InnerRows(vs, k) == []
  {
    if vs != [] {
      NoInnerAtAll(vs[..|vs| - 1], k);
    }
  }

  /** Usually nothing at all is left: whenever no payload holds a record under the relation's name. */
  lemma UnwrappedListIsEmptied(t: Tail, rows: seq<Row>, format: (string, Row) -> string)
    requires t.through.Some? && t.formatter == "" && t.through.value.unwrapped && !t.limitOne
    requires forall p <- Carried(rows, t.through.value.key) :: Inner(Record(p), t.through.value.again).None?
    ensures Ends(t, rows, format) == Rows([])
  {
    hide Unwrapped, Carried, Settle, Shape, InnerRows;
    var th := t.through.value;
    var shown, held := Unwrapped(rows, t.fk, th.key), Carried(rows, th.key);
    ShapeOfList(t, shown, format);
    UnwrappedAreCarried(rows, t.fk, th.key);
    var vs := seq(|shown|, i requires 0 <= i < |shown| => Record(shown[i] - {t.fk}));
    forall i | 0 <= i < |vs| ensures Inner(vs[i], th.again).None? {
      assert vs[i] == Record(held[i] - {t.fk}) && held[i] in held;
    }
    NoInnerAtAll(vs, th.again);
  }

  lemma NoInnerRows(k: string)
    ensures InnerRows([], k) == []
  {
  }

  lemma CarriedOneMore(rows: seq<Row>, key: string)
    requires rows != []
    ensures var init, p := Carried(rows[..|rows| - 1], key), Payload(rows[|rows| - 1], key);
      Carried(rows, key) == if p == map[] then init else init + [p]
  {
  }

  lemma {:induction false} FirstCarried(rows: seq<Row>, key: string)
    requires rows != [] && Payload(rows[0], key) != map[]
    ensures Carried(rows, key) != [] && Carried(rows, key)[0] == Payload(rows[0], key)
  {
    CarriedOneMore(rows, key);
    hide Carried;
    if |rows| > 1 {
      FirstCarried(rows[..|rows| - 1], key);
    } else {
      assert rows[..0] == [];
      NothingCarried(key);
    }
  }

  lemma WrappedOne(t: Tail, rows: seq<Row>, format: (string, Row) -> string)
    requires t.through.Some? && t.formatter == "" && FromIntermediate(t, rows)
    requires !t.through.value.unwrapped && t.limitOne
    ensures Ends(t, rows, format) == Promised(t, rows) <==> EndsRight(t, rows)
  {
    hide Carried;
    if rows != [] {
      assert rows[0].Keys <= {t.fk, t.through.value.key};
      if Payload(rows[0], t.through.value.key) != map[] {
        FirstCarried(rows, t.through.value.key);
      }
      CarriedIsNotEmpty(rows, t.through.value.key);
    } else {
      NothingCarried(t.through.value.key);
    }
  }

  lemma NothingCarried(key: string)
    ensures Carried([], key) == []
  {
  }

  lemma {:induction false} CarriedIsNotEmpty(rows: seq<Row>, key: string)
    ensures forall i | 0 <= i < |Carried(rows, key)| :: Carried(rows, key)[i] != map[]
  {
    hide Carried;
    if rows == [] {
      NothingCarried(key);
    } else {
      CarriedOneMore(rows, key);
      CarriedIsNotEmpty(rows[..|rows| - 1], key);
    }
  }

  lemma UnwrappedOne(t: Tail, rows: seq<Row>, format: (string, Row) -> string)
    requires t.through.Some? && t.formatter == "" && t.through.value.unwrapped && t.limitOne
    ensures Ends(t, rows, format) == Promised(t, rows) <==> EndsRight(t, rows)
  {
    hide Unwrapped, Carried;
    var th := t.through.value;
    var shown, held := Unwrapped(rows, t.fk, th.key), Carried(rows, th.key);
    UnwrappedAreCarried(rows, t.fk, th.key);
    if held != [] {
      var first := Record(held[0] - {t.fk});
      assert Shape(t, shown, format) == first;
      if th.again in held[0] {
        NotWithinItself(Record(held[0]), th.again);
      }
    }
  }

  /** Texts made by a formatter stay; without unwrapping in the child call they are made from rows that are still
      wrapped. */
  lemma FormattedTextsStay(t: Tail, rows: seq<Row>, format: (string, Row) -> string)
    requires t.through.Some? && t.formatter != "" && !t.through.value.unwrapped && rows != []
    ensures t.limitOne ==> Ends(t, rows, format) == Text(format(t.formatter, rows[0]))
    ensures !t.limitOne ==> Ends(t, rows, format).Rows? && |Ends(t, rows, format).rows| == |rows| &&
                            forall i | 0 <= i < |rows| ::
                              Ends(t, rows, format).rows[i] == Text(format(t.formatter, rows[i]))
  {
  }

  // ----- one parent -----

  /** The child rows of one parent as the child call finishes them. */
  function ParentRows(t: Tail, pid: Value): seq<Row>
    requires t.child.Table?
  {
    Kept(RowsIn(t.fk, t.child.rows, {pid}), row => Some(t.child.finish(row)))
  }

  lemma {:induction false} ShownAreFinished(t: Tail, rows: seq<Row>)
    requires t.child.Table?
    ensures var finished := Kept(rows, row => Some(t.child.finish(row)));
      Kept(rows, ChildShows(t))
      == if t.through.Some? && t.through.value.unwrapped then Unwrapped(finished, t.fk, t.through.value.key)
         else finished
  {
    if rows != [] {
      ShownAreFinished(t, rows[..|rows| - 1]);
      var finished := Kept(rows[..|rows| - 1], row => Some(t.child.finish(row)));
      if t.through.Some? {
        var key := t.through.value.key;
        KeptSnoc(finished, t.child.finish(rows[|rows| - 1]), row => UnwrapRow(row, t.fk, key));
      }
    }
  }

  /** So within the limit a parent is served as promised exactly under that condition on its finished rows. */
  lemma ParentIsServedExactly(item: Row, t: Tail, format: (string, Row) -> string)
    requires t.through.Some? && t.formatter == "" && t.child.Table? && ParentKey(item, t) != Null
    requires |RowsIn(t.fk, t.child.rows, {ParentKey(item, t)})| <= MAX_LIMIT
    requires FromIntermediate(t, ParentRows(t, ParentKey(item, t)))
    ensures Settle(t, OwnQuery(item, t, format)) == Promised(t, ParentRows(t, ParentKey(item, t))) <==>
            EndsRight(t, ParentRows(t, ParentKey(item, t)))
  {
    hide Settle, Shape, Promised, EndsRight, Kept, RowsIn, Unwrapped;
    var pid := ParentKey(item, t);
    ShownAreFinished(t, RowsIn(t.fk, t.child.rows, {pid}));
    EndsRightExactly(t, ParentRows(t, pid), format);
  }

  /** Every parent has, at each tail's place, what its own query would have attached, settled. */
  ghost predicate IsServed(items: seq<Row>, out: seq<Row>, tails: seq<Tail>, format: (string, Row) -> string) {
    && |out| == |items|
    && forall i, k | 0 <= i < |items| && 0 <= k < |tails| && Context(items[i], tails[k].path).Some? ::
         Read(out[i], Place(tails[k])) == Settle(tails[k], OwnQuery(items[i], tails[k], format))
  }

  /** The two passes together. */
  lemma SettledIsServed(items: seq<Row>, stitched: seq<Row>, out: seq<Row>, tails: seq<Tail>,
                        format: (string, Row) -> string)
    requires |stitched| == |items| && OnlyTailsWritten(items, stitched, tails)
    requires |out| == |items| && forall i | 0 <= i < |items| :: out[i] == Settled(stitched[i], tails)
    ensures OnlyTailsWritten(items, out, tails)
    ensures IsHydrated(items, stitched, tails, format) && Independent(tails) ==> IsServed(items, out, tails, format)
  {
    hide Settled, Settle, Read, AvoidsAll, OwnQuery, Context, Independent;
    forall i, at | 0 <= i < |items| && at != [] && AvoidsAll(tails, at) ensures Read(out[i], at) == Read(items[i], at) {
      SettledElsewhere(stitched[i], tails, at);
    }
    if IsHydrated(items, stitched, tails, format) && Independent(tails) {
      forall i, k | 0 <= i < |items| && 0 <= k < |tails| && Context(items[i], tails[k].path).Some?
        ensures Read(out[i], Place(tails[k])) == Settle(tails[k], OwnQuery(items[i], tails[k], format))
      {
        SettledTail(stitched[i], tails, k);
      }
    }
  }

  /** The unwrapping leaves what a plain relation was given. */
  lemma ServedPlainTails(items: seq<Row>, out: seq<Row>, tails: seq<Tail>, format: (string, Row) -> string)
    requires IsServed(items, out, tails, format) && AllWithinLimit(JobsOf(items, tails))
    ensures PlainTailsServed(items, out, tails, format)
  {
    hide ParentKey, OwnQuery, IsServedPlainly, AllWithinLimit, Read, Context;
    forall i, k | 0 <= i < |items| && 0 <= k < |tails| && tails[k].through.None? &&
                  Context(items[i], tails[k].path).Some?
      ensures IsServedPlainly(tails[k], ParentKey(items[i], tails[k]), Read(out[i], Place(tails[k])), format)
    {
      PlainParentIsServed(items, tails, i, k, format);
    }
  }

  /** Within the limit a served parent has what the relation is for exactly under that condition on its own rows. */
  lemma ServedEndsRightExactly(items: seq<Row>, out: seq<Row>, tails: seq<Tail>, format: (string, Row) -> string,
                               i: nat, k: nat)
    requires IsServed(items, out, tails, format) && i < |items| && k < |tails|
    requires Context(items[i], tails[k].path).Some? && ParentKey(items[i], tails[k]) != Null
    requires var t, pid := tails[k], ParentKey(items[i], tails[k]);
      && t.through.Some? && t.formatter == "" && t.child.Table?
      && |RowsIn(t.fk, t.child.rows, {pid})| <= MAX_LIMIT && FromIntermediate(t, ParentRows(t, pid))
    ensures var t, pid := tails[k], ParentKey(items[i], tails[k]);
      Read(out[i], Place(t)) == Promised(t, ParentRows(t, pid)) <==> EndsRight(t, ParentRows(t, pid))
  {
    hide Settle, Promised, EndsRight, OwnQuery, RowsIn, ParentRows, Read, FromIntermediate;
    ParentIsServedExactly(items[i], tails[k], format);
  }
}
