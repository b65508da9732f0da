/** Expanding the aliases in the keys of a filter tree (internal/model/alias_helpers.go:42-134). Keys are
    taken parsed; alias bodies hold no "__", "_or_" or "_and_" and are not "or" or "and", so parsing the new
    key text gives the new key. */
module Normalization {
  import opened Common
  import opened Schema
  import opened AliasExpansion
  import opened Filters
  import opened WhereSplit
  import opened KeyRenaming

  function KeyFields(key: Key): seq<Path> {
    if key.Field? then [key.first] + key.more else [KeyField(key)]
  }

  ghost function ExpandAll(reg: Registry, m: Name, ps: seq<Path>): seq<Path>
    requires m in reg && AllSettle(reg)
  {
    seq(|ps|, i requires 0 <= i < |ps| => Expand(reg, m, ps[i]))
  }

  /** The key an entry is stored under; an empty operator is dropped with its "__". */
  ghost function NewKey(reg: Registry, m: Name, key: Key, val: Value): Key
    requires m in reg && AllSettle(reg)
  {
    if !key.Field? && IsGroup(val) then key
    else
      var ps := ExpandAll(reg, m, KeyFields(key));
      if key.Field? then Key.Field(ps[0], ps[1..], key.anyOf, StripSuffix(key.suffix))
      else if ps == KeyFields(key) then key
      else Key.Field(ps[0], [], false, None)
  }

  /** "a__" is stored as "a". */
  function StripSuffix(suffix: Option<string>): Option<string> {
    if suffix == Some("") then None else suffix
  }

  ghost function Expanding(reg: Registry, m: Name): (rn: Renaming)
    requires m in reg && AllSettle(reg)
    ensures forall key: Key, val: Value :: rn(key, val) == NewKey(reg, m, key, val)
  {
    (key: Key, val: Value) => NewKey(reg, m, key, val)
  }

  lemma ExpandingKeepsGroups(reg: Registry, m: Name)
    requires m in reg && AllSettle(reg)
    ensures KeepsGroups(Expanding(reg, m))
  {
    hide AllSettle, ExpandAll, Expanding;
  }

  // ----- what one pass does, whatever order the keys come in -----

  /** Some alias was expanded. */
  ghost predicate Changed(reg: Registry, m: Name, f: Filter)
    requires m in reg && AllSettle(reg)
    decreases f, 2
  {
    exists k <- f.entries :: EntryChanged(reg, m, k, f.entries[k])
  }

  ghost predicate EntryChanged(reg: Registry, m: Name, key: Key, val: Value)
    requires m in reg && AllSettle(reg)
    decreases val, 1
  {
    if !key.Field? && val.Nested? then Changed(reg, m, val.filter)
    else if !key.Field? && val.List? then exists i :: 0 <= i < |val.items| && ItemChanged(reg, m, val.items[i])
    else ExpandAll(reg, m, KeyFields(key)) != KeyFields(key)
  }

  ghost predicate ItemChanged(reg: Registry, m: Name, item: Value)
    requires m in reg && AllSettle(reg)
    decreases item, 3
  {
    item.Nested? && Changed(reg, m, item.filter)
  }

  /** `g` can be the rewritten tree. */
  ghost predicate IsOut(reg: Registry, m: Name, f: Filter, g: Filter)
    requires m in reg && AllSettle(reg)
  {
    IsRenamed(Expanding(reg, m), f, g)
  }

  /** What NormalizeFiltersWithAliases may return: the original tree unless an alias was expanded. */
  ghost predicate IsNormalization(reg: Registry, m: Name, f: Filter, r: Filter)
    requires m in reg && AllSettle(reg)
  {
    if Changed(reg, m, f) then IsOut(reg, m, f, r) else r == f
  }

  // ----- idempotence -----

  lemma ExpandedFields(reg: Registry, m: Name, ps: seq<Path>)
    requires m in reg && AllSettle(reg)
    ensures ExpandAll(reg, m, ExpandAll(reg, m, ps)) == ExpandAll(reg, m, ps)
  {
    forall i | 0 <= i < |ps| ensures Expand(reg, m, Expand(reg, m, ps[i])) == Expand(reg, m, ps[i]) {
      ExpandIdempotent(reg, m, ps[i]);
    }
  }

  lemma NewKeyFields(reg: Registry, m: Name, key: Key, val: Value)
    requires m in reg && AllSettle(reg) && (key.Field? || !IsGroup(val))
    ensures KeyFields(NewKey(reg, m, key, val)) == ExpandAll(reg, m, KeyFields(key))
  {
    var ps := ExpandAll(reg, m, KeyFields(key));
    assert ps == [ps[0]] + ps[1..];
  }

  lemma {:induction false} OutIsExpanded(reg: Registry, m: Name, f: Filter, g: Filter)
    requires m in reg && AllSettle(reg) && IsOut(reg, m, f, g)
    ensures !Changed(reg, m, g)
    decreases f, 2
  {
    hide AllSettle, NewKey, ExpandAll;
    forall n <- g.entries ensures !EntryChanged(reg, m, n, g.entries[n]) {
      var k :| k in f.entries && NewKey(reg, m, k, f.entries[k]) == n
        && IsRenamedValue(Expanding(reg, m), k, f.entries[k], g.entries[n]);
      EntryIsExpanded(reg, m, k, f.entries[k], g.entries[n]);
    }
  }

  lemma GroupKeepsKey(reg: Registry, m: Name, key: Key, val: Value)
    requires m in reg && AllSettle(reg)
    ensures !key.Field? && IsGroup(val) ==> NewKey(reg, m, key, val) == key
    ensures key.Field? ==> NewKey(reg, m, key, val).Field?
  {
  }

  lemma {:induction false} EntryIsExpanded(reg: Registry, m: Name, key: Key, val: Value, out: Value)
    requires m in reg && AllSettle(reg) && IsRenamedValue(Expanding(reg, m), key, val, out)
    ensures !EntryChanged(reg, m, NewKey(reg, m, key, val), out)
    decreases val, 1
  {
    hide AllSettle, NewKey, ExpandAll;
    GroupKeepsKey(reg, m, key, val);
    if !key.Field? && val.Nested? {
      OutIsExpanded(reg, m, val.filter, out.filter);
    } else if !key.Field? && val.List? {
      forall i | 0 <= i < |val.items| ensures !ItemChanged(reg, m, out.items[i]) {
        assert IsRenamedItem(Expanding(reg, m), val.items[i], out.items[i]);
        if val.items[i].Nested? {
          OutIsExpanded(reg, m, val.items[i].filter, out.items[i].filter);
        }
      }
    } else {
      NewKeyFields(reg, m, key, val);
      ExpandedFields(reg, m, KeyFields(key));
    }
  }

  /** Whatever order the keys came in the first time, normalising again returns the very same tree. */
  lemma NormalizationIsIdempotent(reg: Registry, m: Name, f: Filter, r: Filter, s: Filter)
    requires m in reg && AllSettle(reg) && IsNormalization(reg, m, f, r) && IsNormalization(reg, m, r, s)
    ensures s == r
  {
    hide AllSettle;
    if Changed(reg, m, f) {
      OutIsExpanded(reg, m, f, r);
    }
  }

  // ----- the loop -----

  method NormalizeTree(reg: Registry, m: Name, f: Filter) returns (out: Filter, changed: bool)
    requires m in reg && AllSettle(reg)
    ensures IsOut(reg, m, f, out) && changed == Changed(reg, m, f)
    decreases f, 2
  {
    hide AllSettle, NewKey, EntryChanged, IsRenamedValue;
    var entries: map<Key, Value> := map[];
    changed := false;
    var todo := f.entries.Keys;
    while todo != {}
      invariant todo <= f.entries.Keys
      invariant changed <==> exists k <- f.entries.Keys - todo :: EntryChanged(reg, m, k, f.entries[k])
      invariant forall k <- f.entries.Keys - todo :: NewKey(reg, m, k, f.entries[k]) in entries
      invariant forall n <- entries :: exists k <- f.entries.Keys - todo ::
          NewKey(reg, m, k, f.entries[k]) == n && IsRenamedValue(Expanding(reg, m), k, f.entries[k], entries[n])
    {
      var key :| key in todo;
      var newKey, val, entryChanged := NormalizeEntry(reg, m, key, f.entries[key]);
      todo := todo - {key};
      entries, changed := entries[newKey := val], changed || entryChanged;
    }
    out := Filter(entries);
  }

  method NormalizeEntry(reg: Registry, m: Name, key: Key, val: Value) returns (newKey: Key, out: Value, changed: bool)
    requires m in reg && AllSettle(reg)
    ensures newKey == NewKey(reg, m, key, val) && IsRenamedValue(Expanding(reg, m), key, val, out)
    ensures changed == EntryChanged(reg, m, key, val)
    decreases val, 1
  {
    if !key.Field? && val.Nested? {
      var nested;
      nested, changed := NormalizeTree(reg, m, val.filter);
      return key, Nested(nested), changed;
    }
    if !key.Field? && val.List? {
      var items;
      items, changed := NormalizeItems(reg, m, val);
      return key, List(items), changed;
    }
    var fields := KeyFields(key);
    var expanded := [];
    for i := 0 to |fields|
      invariant |expanded| == i && forall j | 0 <= j < i :: expanded[j] == ExpandAll(reg, m, fields)[j]
    {
      assert Settles(reg, m, fields[i]);
      var path := ExpandAliasPath(reg, m, fields[i]);
      expanded := expanded + [path];
    }
    assert expanded == ExpandAll(reg, m, fields);
    changed, out := expanded != fields, val;
    newKey := if key.Field? then Key.Field(expanded[0], expanded[1..], key.anyOf, StripSuffix(key.suffix))
              else if changed then Key.Field(expanded[0], [], false, None) else key;
  }

  method NormalizeItems(reg: Registry, m: Name, val: Value) returns (items: seq<Value>, changed: bool)
    requires m in reg && AllSettle(reg) && val.List?
    ensures |items| == |val.items| && forall i | 0 <= i < |val.items| ::
      IsRenamedItem(Expanding(reg, m), val.items[i], items[i])
    ensures changed <==> exists i :: 0 <= i < |val.items| && ItemChanged(reg, m, val.items[i])
    decreases val, 0
  {
    hide AllSettle, IsRenamed, Changed, Expanding;
    items, changed := [], false;
    for i := 0 to |val.items|
      invariant |items| == i && forall j | 0 <= j < i :: IsRenamedItem(Expanding(reg, m), val.items[j], items[j])
      invariant changed <==> exists j :: 0 <= j < i && ItemChanged(reg, m, val.items[j])
    {
      var item := val.items[i];
      if item.Nested? {
        var nested, ch := NormalizeTree(reg, m, item.filter);
        item, changed := Nested(nested), changed || ch;
      }
      items := items + [item];
    }
  }

  /** NormalizeFiltersWithAliases */
  method NormalizeFilters(reg: Registry, m: Name, filters: Filter) returns (r: Filter)
    requires m in reg && AllSettle(reg)
    ensures IsNormalization(reg, m, filters, r)
  {
    hide AllSettle, IsOut;
    if filters.entries == map[] {
      return filters;
    }
    var out, changed := NormalizeTree(reg, m, filters);
    return if changed then out else filters;
  }

  // ----- the fields of the rewritten tree -----

  ghost predicate ExpandsFrom(reg: Registry, m: Name, q: Path, p: Path)
    requires m in reg && AllSettle(reg)
  {
    Expand(reg, m, q) == p
  }

  lemma InExpandAll(reg: Registry, m: Name, ps: seq<Path>, p: Path)
    requires m in reg && AllSettle(reg)
    ensures p in ExpandAll(reg, m, ps) <==> exists q <- ps :: ExpandsFrom(reg, m, q, p)
  {
    if p in ExpandAll(reg, m, ps) {
      var i :| 0 <= i < |ps| && ExpandAll(reg, m, ps)[i] == p;
      assert ps[i] in ps && ExpandsFrom(reg, m, ps[i], p);
    }
    if q :| q in ps && ExpandsFrom(reg, m, q, p) {
      var i :| 0 <= i < |ps| && ps[i] == q;
      assert ExpandAll(reg, m, ps)[i] == p;
    }
  }

  lemma LeafMentions(key: Key, val: Value, p: Path)
    ensures key.Field? || !IsGroup(val) ==> (EntryMentions(key, val, p) <==> p in KeyFields(key))
  {
  }

  /** Only the entry itself is stored under a group key. */
  lemma GroupKeyComesFromItself(reg: Registry, m: Name, k: Key, v: Value)
    requires m in reg && AllSettle(reg)
    ensures !NewKey(reg, m, k, v).Field? ==> NewKey(reg, m, k, v) == k
  {
  }

  lemma {:induction false} EntryMentionsExpanded(reg: Registry, m: Name, key: Key, val: Value, out: Value, p: Path)
    requires m in reg && AllSettle(reg) && IsRenamedValue(Expanding(reg, m), key, val, out)
    ensures EntryMentions(NewKey(reg, m, key, val), out, p)
       <==> exists q :: EntryMentions(key, val, q) && ExpandsFrom(reg, m, q, p)
    decreases val, 1
  {
    hide AllSettle, NewKey, ExpandAll, ExpandsFrom;
    GroupKeepsKey(reg, m, key, val);
    if !key.Field? && val.Nested? {
      OutMentionsExpanded(reg, m, val.filter, out.filter, p);
      assert forall q :: EntryMentions(key, val, q) <==> Mentions(val.filter, q);
    } else if !key.Field? && val.List? {
      ListMentionsExpanded(reg, m, key, val, out, p);
    } else {
      NewKeyFields(reg, m, key, val);
      LeafMentions(NewKey(reg, m, key, val), out, p);
      InExpandAll(reg, m, KeyFields(key), p);
      forall q ensures EntryMentions(key, val, q) <==> q in KeyFields(key) {
        LeafMentions(key, val, q);
      }
    }
  }

  lemma {:induction false} ListMentionsExpanded(reg: Registry, m: Name, key: Key, val: Value, out: Value, p: Path)
    requires m in reg && AllSettle(reg) && IsRenamedValue(Expanding(reg, m), key, val, out) && !key.Field? && val.List?
    ensures EntryMentions(key, out, p) <==> exists q :: EntryMentions(key, val, q) && ExpandsFrom(reg, m, q, p)
    decreases val, 0
  {
    hide AllSettle, ExpandsFrom, Mentions;
    forall i | 0 <= i < |val.items|
      ensures ItemMentions(out.items[i], p) <==> exists q :: ItemMentions(val.items[i], q) && ExpandsFrom(reg, m, q, p)
    {
      assert IsRenamedItem(Expanding(reg, m), val.items[i], out.items[i]);
      if val.items[i].Nested? {
        OutMentionsExpanded(reg, m, val.items[i].filter, out.items[i].filter, p);
        assert forall q :: ItemMentions(val.items[i], q) <==> Mentions(val.items[i].filter, q);
      }
    }
    if q :| EntryMentions(key, val, q) && ExpandsFrom(reg, m, q, p) {
      var item :| item in val.items && ItemMentions(item, q);
      var i :| 0 <= i < |val.items| && val.items[i] == item;
      assert out.items[i] in out.items;
    }
    if EntryMentions(key, out, p) {
      var item :| item in out.items && ItemMentions(item, p);
      var i :| 0 <= i < |out.items| && out.items[i] == item;
      var q :| ItemMentions(val.items[i], q) && ExpandsFrom(reg, m, q, p);
      assert EntryMentions(key, val, q);
    }
  }

  /** The rewritten tree mentions exactly the expansions of the fields the original mentions, clash or not. */
  lemma {:induction false} OutMentionsExpanded(reg: Registry, m: Name, f: Filter, g: Filter, p: Path)
    requires m in reg && AllSettle(reg) && IsOut(reg, m, f, g)
    ensures Mentions(g, p) <==> exists q :: Mentions(f, q) && ExpandsFrom(reg, m, q, p)
    decreases f, 2
  {
    hide AllSettle, NewKey, ExpandsFrom, EntryMentions, IsRenamedValue;
    if Mentions(g, p) {
      var n :| n in g.entries && EntryMentions(n, g.entries[n], p);
      var k :| k in f.entries && NewKey(reg, m, k, f.entries[k]) == n
        && IsRenamedValue(Expanding(reg, m), k, f.entries[k], g.entries[n]);
      EntryMentionsExpanded(reg, m, k, f.entries[k], g.entries[n], p);
      var q :| EntryMentions(k, f.entries[k], q) && ExpandsFrom(reg, m, q, p);
      assert Mentions(f, q);
    }
    if q :| Mentions(f, q) && ExpandsFrom(reg, m, q, p) {
      var k :| k in f.entries && EntryMentions(k, f.entries[k], q);
      var n := NewKey(reg, m, k, f.entries[k]);
      var from :| from in f.entries && NewKey(reg, m, from, f.entries[from]) == n
        && IsRenamedValue(Expanding(reg, m), from, f.entries[from], g.entries[n]);
      EntryMentionsExpanded(reg, m, from, f.entries[from], g.entries[n], p);
      SameKeySameMentions(reg, m, k, f.entries[k], from, f.entries[from], q, p);
      assert EntryMentions(n, g.entries[n], p);
    }
  }

  /** Entries stored under one key mention fields with the same expansions. */
  lemma SameKeySameMentions(reg: Registry, m: Name, k: Key, v: Value, l: Key, w: Value, q: Path, p: Path)
    requires m in reg && AllSettle(reg) && NewKey(reg, m, k, v) == NewKey(reg, m, l, w) && (k == l ==> v == w)
    requires EntryMentions(k, v, q) && ExpandsFrom(reg, m, q, p)
    ensures exists o :: EntryMentions(l, w, o) && ExpandsFrom(reg, m, o, p)
  {
    hide AllSettle, NewKey, ExpandAll, EntryMentions, ExpandsFrom;
    GroupKeyComesFromItself(reg, m, k, v);
    GroupKeyComesFromItself(reg, m, l, w);
    GroupKeepsKey(reg, m, k, v);
    GroupKeepsKey(reg, m, l, w);
    if k != l {
      NewKeyFields(reg, m, k, v);
      NewKeyFields(reg, m, l, w);
      LeafMentions(k, v, q);
      InExpandAll(reg, m, KeyFields(k), p);
      InExpandAll(reg, m, KeyFields(l), p);
      var o :| o in KeyFields(l) && ExpandsFrom(reg, m, o, p);
      LeafMentions(l, w, o);
    }
  }

  lemma {:induction false} UnchangedFields(reg: Registry, m: Name, f: Filter, p: Path)
    requires m in reg && AllSettle(reg) && !Changed(reg, m, f) && Mentions(f, p)
    ensures Expand(reg, m, p) == p
    decreases f, 2
  {
    hide AllSettle, ExpandAll;
    var k :| k in f.entries && EntryMentions(k, f.entries[k], p);
    var val := f.entries[k];
    assert !EntryChanged(reg, m, k, val);
    if !k.Field? && val.Nested? {
      UnchangedFields(reg, m, val.filter, p);
    } else if !k.Field? && val.List? {
      var item :| item in val.items && ItemMentions(item, p);
      var i :| 0 <= i < |val.items| && val.items[i] == item;
      assert !ItemChanged(reg, m, val.items[i]);
      UnchangedFields(reg, m, val.items[i].filter, p);
    } else {
      LeafMentions(k, val, p);
      ExpandedInPlace(reg, m, KeyFields(k), p);
    }
  }

  lemma ExpandedInPlace(reg: Registry, m: Name, ps: seq<Path>, p: Path)
    requires m in reg && AllSettle(reg) && ExpandAll(reg, m, ps) == ps && p in ps
    ensures Expand(reg, m, p) == p
  {
    var i :| 0 <= i < |ps| && ps[i] == p;
    assert ExpandAll(reg, m, ps)[i] == Expand(reg, m, p);
  }

  /** A changed tree mentions a field that expands to another one. */
  lemma {:induction false} ChangedFieldOf(reg: Registry, m: Name, f: Filter) returns (p: Path)
    requires m in reg && AllSettle(reg) && Changed(reg, m, f)
    ensures Mentions(f, p) && !ExpandsFrom(reg, m, p, p)
    decreases f, 2
  {
    hide AllSettle, ExpandAll, ExpandsFrom;
    var k :| k in f.entries && EntryChanged(reg, m, k, f.entries[k]);
    var val := f.entries[k];
    if !k.Field? && val.Nested? {
      p := ChangedFieldOf(reg, m, val.filter);
      assert EntryMentions(k, val, p);
    } else if !k.Field? && val.List? {
      var i :| 0 <= i < |val.items| && ItemChanged(reg, m, val.items[i]);
      p := ChangedFieldOf(reg, m, val.items[i].filter);
      assert val.items[i] in val.items && ItemMentions(val.items[i], p);
      assert EntryMentions(k, val, p);
    } else {
      p := ChangedLeaf(reg, m, KeyFields(k));
      LeafMentions(k, val, p);
    }
  }

  lemma ChangedLeaf(reg: Registry, m: Name, ps: seq<Path>) returns (p: Path)
    requires m in reg && AllSettle(reg) && ExpandAll(reg, m, ps) != ps
    ensures p in ps && !ExpandsFrom(reg, m, p, p)
  {
    var i :| 0 <= i < |ps| && ExpandAll(reg, m, ps)[i] != ps[i];
    p := ps[i];
  }

  /** A tree is rewritten if and only if a field it mentions, at any depth, is not its own expansion. */
  lemma ChangedExactly(reg: Registry, m: Name, f: Filter)
    requires m in reg && AllSettle(reg)
    ensures Changed(reg, m, f) <==> exists p :: Mentions(f, p) && !ExpandsFrom(reg, m, p, p)
  {
    hide AllSettle, Changed, Mentions;
    if Changed(reg, m, f) {
      var p := ChangedFieldOf(reg, m, f);
    } else {
      forall p | Mentions(f, p) ensures ExpandsFrom(reg, m, p, p) {
        UnchangedFields(reg, m, f, p);
      }
    }
  }

  /** After normalising, the mentioned fields are exactly the expansions of the requested ones, so they are expanded. */
  lemma NormalizedFields(reg: Registry, m: Name, f: Filter, r: Filter, p: Path)
    requires m in reg && AllSettle(reg) && IsNormalization(reg, m, f, r)
    ensures Mentions(r, p) <==> exists q :: Mentions(f, q) && ExpandsFrom(reg, m, q, p)
    ensures Mentions(r, p) ==> IsExpanded(reg, m, p)
  {
    hide Changed, IsOut, Mentions;
    if Changed(reg, m, f) {
      OutMentionsExpanded(reg, m, f, r, p);
    } else {
      forall q | Mentions(f, q) ensures Expand(reg, m, q) == q {
        UnchangedFields(reg, m, f, q);
      }
    }
    if Mentions(r, p) {
      var q :| Mentions(f, q) && ExpandsFrom(reg, m, q, p);
      assert Settles(reg, m, q);
      ExpandExpands(reg, m, q);
    }
  }

  // ----- the meaning of the rewritten tree -----

  /** Fields read through aliases. */
  ghost function ReadThroughAliases(reg: Registry, m: Name, ctx: Context): (c: Context)
    requires m in reg && AllSettle(reg)
    ensures forall p: Path :: c.resolve(p) == ctx.resolve(Expand(reg, m, p))
  {
    Context((p: Path) => ctx.resolve(Expand(reg, m, p)), ctx.aggregate)
  }

  function StripKey(key: Key): Key {
    if key.Field? then key.(suffix := StripSuffix(key.suffix)) else key
  }

  /** Only the empty operators are dropped. */
  const STRIPPING: Renaming := (key: Key, val: Value) => StripKey(key)

  /** A tree without empty operators is its own stripped tree. */
  ghost predicate NoEmptyOperators(f: Filter)
    decreases f, 2
  {
    forall k <- f.entries :: StripKey(k) == k && NoEmptyOperatorsIn(k, f.entries[k])
  }

  ghost predicate NoEmptyOperatorsIn(key: Key, val: Value)
    decreases val, 1
  {
    if !key.Field? && val.Nested? then NoEmptyOperators(val.filter)
    else if !key.Field? && val.List? then forall i | 0 <= i < |val.items| :: NoEmptyOperatorsOf(val.items[i])
    else true
  }

  ghost predicate NoEmptyOperatorsOf(item: Value)
    decreases item, 3
  {
    item.Nested? ==> NoEmptyOperators(item.filter)
  }

  lemma {:induction false} NothingToStrip(f: Filter)
    requires NoEmptyOperators(f)
    ensures IsRenamed(STRIPPING, f, f)
    decreases f, 2
  {
    hide NoEmptyOperatorsIn, IsRenamedValue;
    forall k <- f.entries
      ensures STRIPPING(k, f.entries[k]) == k && IsRenamedValue(STRIPPING, k, f.entries[k], f.entries[k]) {
      NothingToStripIn(k, f.entries[k]);
    }
  }

  lemma {:induction false} NothingToStripIn(key: Key, val: Value)
    requires NoEmptyOperatorsIn(key, val)
    ensures IsRenamedValue(STRIPPING, key, val, val)
    decreases val, 1
  {
    hide IsRenamed, NoEmptyOperators;
    if !key.Field? && val.Nested? {
      NothingToStrip(val.filter);
    } else if !key.Field? && val.List? {
      forall i | 0 <= i < |val.items| ensures IsRenamedItem(STRIPPING, val.items[i], val.items[i]) {
        assert NoEmptyOperatorsOf(val.items[i]);
        if val.items[i].Nested? {
          NothingToStrip(val.items[i].filter);
        }
      }
    }
  }

  lemma {:induction false} SameFieldParts(reg: Registry, m: Name, ctx: Context, ps: seq<Path>, op: string, val: Value)
    requires m in reg && AllSettle(reg)
    ensures FieldParts(ctx, ExpandAll(reg, m, ps), op, val) == FieldParts(ReadThroughAliases(reg, m, ctx), ps, op, val)
  {
    hide AllSettle, Applies, BaseOp, EndsInCs;
    if ps != [] {
      var n := |ps| - 1;
      SameFieldParts(reg, m, ctx, ps[..n], op, val);
      assert ExpandAll(reg, m, ps)[..n] == ExpandAll(reg, m, ps[..n]);
    }
  }

  /** A leaf compiles to the same condition, its empty operator read as none. */
  lemma SameLeaf(reg: Registry, m: Name, ctx: Context, key: Key, val: Value)
    requires m in reg && AllSettle(reg) && (key.Field? || !IsGroup(val))
    ensures KeyCond(ctx, NewKey(reg, m, key, val), val) == KeyCond(ReadThroughAliases(reg, m, ctx), StripKey(key), val)
    ensures SameEntry(ctx, NewKey(reg, m, key, val), val, ReadThroughAliases(reg, m, ctx), StripKey(key), val)
  {
    hide AllSettle, FieldParts, Combine, Eval, ReadThroughAliases, ExpandAll;
    var n, ps := NewKey(reg, m, key, val), KeyFields(key);
    NewKeyFields(reg, m, key, val);
    assert KeyFields(StripKey(key)) == ps;
    SameFieldParts(reg, m, ctx, ps, if key.Field? then OpOf(StripSuffix(key.suffix)) else "eq", val);
    KeyCondOfFields(ctx, n, val);
    KeyCondOfFields(ReadThroughAliases(reg, m, ctx), StripKey(key), val);
    CombineOne(n.Field? && n.anyOf, key.Field? && key.anyOf, FieldParts(ctx, KeyFields(n), KeyOp(n), val));
    SingleFieldParts(ctx, KeyFields(n), KeyOp(n), val);
    hide KeyCond;
  }

  function KeyOp(key: Key): string {
    if key.Field? then OpOf(key.suffix) else "eq"
  }

  lemma KeyCondOfFields(ctx: Context, key: Key, val: Value)
    ensures KeyCond(ctx, key, val) == Combine(key.Field? && key.anyOf, FieldParts(ctx, KeyFields(key), KeyOp(key), val))
  {
    hide FieldParts, Combine;
  }

  lemma CombineOne(a: bool, b: bool, parts: seq<Cond>)
    ensures |parts| <= 1 || a == b ==> Combine(a, parts) == Combine(b, parts)
  {
  }

  lemma SingleFieldParts(ctx: Context, ps: seq<Path>, op: string, val: Value)
    ensures |ps| <= 1 ==> |FieldParts(ctx, ps, op, val)| <= 1
  {
    hide Applies, BaseOp, EndsInCs;
    if |ps| == 1 {
      assert FieldParts(ctx, ps[..0], op, val) == [];
    }
  }

  /** The exact meaning of the result: whatever order the keys came in, if clashing entries agree, the
      compiled tree means what the original means with fields read through aliases and its empty operators
      dropped. */
  lemma {:induction false} OutMeans(reg: Registry, m: Name, ctx: Context, f: Filter, g: Filter, s: Filter)
    requires m in reg && AllSettle(reg) && Agree(Expanding(reg, m), f)
    requires IsOut(reg, m, f, g) && IsRenamed(STRIPPING, f, s)
    ensures SameGroup(ctx, g, ReadThroughAliases(reg, m, ctx), s)
    decreases f, 2
  {
    hide AllSettle, IsRenamed, Agree, IsRenamedValue, SameGroup, ReadThroughAliases, Expanding, SameEntry, NewKey;
    var d := ReadThroughAliases(reg, m, ctx);
    forall n <- g.entries ensures HasTwin(ctx, n, g.entries[n], d, s) {
      var k := SourceOfEntry(Expanding(reg, m), f, g, n);
      EntryTwin(reg, m, ctx, f, g, s, k);
    }
    forall t <- s.entries ensures HasTwin(d, t, s.entries[t], ctx, g) {
      var k := SourceOfEntry(STRIPPING, f, s, t);
      EntryTwin(reg, m, ctx, f, g, s, k);
      SameEntrySymmetric(ctx, NewKey(reg, m, k, f.entries[k]), g.entries[NewKey(reg, m, k, f.entries[k])], d, t,
        s.entries[t]);
    }
    SameEntriesSameGroup(ctx, g, d, s);
  }

  lemma {:induction false} EntryTwin(reg: Registry, m: Name, ctx: Context, f: Filter, g: Filter, s: Filter, k: Key)
    requires m in reg && AllSettle(reg) && Agree(Expanding(reg, m), f) && k in f.entries
    requires IsOut(reg, m, f, g) && IsRenamed(STRIPPING, f, s)
    ensures var n, t := NewKey(reg, m, k, f.entries[k]), StripKey(k);
      n in g.entries && t in s.entries && SameEntry(ctx, n, g.entries[n], ReadThroughAliases(reg, m, ctx), t,
        s.entries[t])
    decreases f, 1
  {
    hide AllSettle, IsRenamed, Agree, IsRenamedValue, ReadThroughAliases, Expanding, SameEntry, NewKey, KeepsGroups;
    ExpandingKeepsGroups(reg, m);
    AgreedValue(Expanding(reg, m), f, k);
    EntryOfResult(Expanding(reg, m), f, g, k);
    StrippedEntry(reg, m, f, s, k);
    EntryOutMeans(reg, m, ctx, k, f.entries[k], g.entries[NewKey(reg, m, k, f.entries[k])], s.entries[StripKey(k)]);
  }

  lemma SameEntrySymmetric(c: Context, k: Key, v: Value, d: Context, l: Key, w: Value)
    requires SameEntry(c, k, v, d, l, w)
    ensures SameEntry(d, l, w, c, k, v)
  {
    hide EntryBuilds, EntryMeaning;
  }

  lemma AgreedValue(rn: Renaming, f: Filter, k: Key)
    requires Agree(rn, f) && k in f.entries
    ensures AgreeValue(rn, k, f.entries[k])
  {
    hide AgreeValue;
  }

  /** Entries that the stripped keys bring together are brought together by the expanded ones as well, so they agree. */
  lemma StrippedEntry(reg: Registry, m: Name, f: Filter, s: Filter, k: Key)
    requires m in reg && AllSettle(reg) && Agree(Expanding(reg, m), f) && IsRenamed(STRIPPING, f, s) && k in f.entries
    ensures StripKey(k) in s.entries && IsRenamedValue(STRIPPING, k, f.entries[k], s.entries[StripKey(k)])
  {
    var t := StripKey(k);
    assert STRIPPING(k, f.entries[k]) == t && t in s.entries;
    hide AllSettle, AgreeValue, IsRenamedValue, NewKey, Expanding;
    var l := SourceOfEntry(STRIPPING, f, s, t);
    if l != k {
      StrippingThenExpanding(reg, m, k, f.entries[k], l, f.entries[l]);
    }
  }

  lemma StrippingThenExpanding(reg: Registry, m: Name, k: Key, v: Value, l: Key, w: Value)
    requires m in reg && AllSettle(reg) && StripKey(k) == StripKey(l) && k != l
    ensures NewKey(reg, m, k, v) == NewKey(reg, m, l, w) && k.Field? && l.Field?
  {
    hide AllSettle, ExpandAll;
  }

  lemma {:induction false} EntryOutMeans(reg: Registry, m: Name, ctx: Context, key: Key, val: Value, out: Value,
                                         stripped: Value)
    requires m in reg && AllSettle(reg) && AgreeValue(Expanding(reg, m), key, val)
    requires IsRenamedValue(Expanding(reg, m), key, val, out) && IsRenamedValue(STRIPPING, key, val, stripped)
    ensures SameEntry(ctx, NewKey(reg, m, key, val), out, ReadThroughAliases(reg, m, ctx), StripKey(key), stripped)
    decreases val, 1
  {
    hide AllSettle, IsRenamed, Agree, SameGroup, SameEntry, ReadThroughAliases, Expanding, NewKey;
    var d := ReadThroughAliases(reg, m, ctx);
    GroupKeepsKey(reg, m, key, val);
    if !key.Field? && val.Nested? {
      OutMeans(reg, m, ctx, val.filter, out.filter, stripped.filter);
      SameNestedEntry(ctx, d, key, out, stripped);
    } else if !key.Field? && val.List? {
      forall i | 0 <= i < |val.items| ensures SameItem(ctx, out.items[i], d, stripped.items[i]) {
        assert IsRenamedItem(Expanding(reg, m), val.items[i], out.items[i]);
        assert IsRenamedItem(STRIPPING, val.items[i], stripped.items[i]);
        assert AgreeItem(Expanding(reg, m), val.items[i]);
        if val.items[i].Nested? {
          OutMeans(reg, m, ctx, val.items[i].filter, out.items[i].filter, stripped.items[i].filter);
        }
      }
      SameListEntry(ctx, d, key, out, stripped);
    } else {
      SameLeaf(reg, m, ctx, key, val);
    }
  }

  lemma {:induction false} UnchangedMeans(reg: Registry, m: Name, ctx: Context, f: Filter)
    requires m in reg && AllSettle(reg) && !Changed(reg, m, f)
    ensures SameGroup(ctx, f, ReadThroughAliases(reg, m, ctx), f)
    decreases f, 2
  {
    hide AllSettle, SameGroup, ReadThroughAliases, SameEntry, EntryChanged;
    var d := ReadThroughAliases(reg, m, ctx);
    forall k <- f.entries
      ensures HasTwin(ctx, k, f.entries[k], d, f) && HasTwin(d, k, f.entries[k], ctx, f)
    {
      UnchangedEntryMeans(reg, m, ctx, k, f.entries[k]);
      SameEntrySymmetric(ctx, k, f.entries[k], d, k, f.entries[k]);
    }
    SameEntriesSameGroup(ctx, f, d, f);
  }

  lemma {:induction false} UnchangedEntryMeans(reg: Registry, m: Name, ctx: Context, key: Key, val: Value)
    requires m in reg && AllSettle(reg) && !EntryChanged(reg, m, key, val)
    ensures SameEntry(ctx, key, val, ReadThroughAliases(reg, m, ctx), key, val)
    decreases val, 1
  {
    hide AllSettle, Changed, SameGroup, SameEntry, ReadThroughAliases;
    var d := ReadThroughAliases(reg, m, ctx);
    if !key.Field? && val.Nested? {
      UnchangedMeans(reg, m, ctx, val.filter);
      SameNestedEntry(ctx, d, key, val, val);
    } else if !key.Field? && val.List? {
      forall i | 0 <= i < |val.items| ensures SameItem(ctx, val.items[i], d, val.items[i]) {
        assert !ItemChanged(reg, m, val.items[i]);
        if val.items[i].Nested? {
          UnchangedMeans(reg, m, ctx, val.items[i].filter);
        }
      }
      SameListEntry(ctx, d, key, val, val);
    } else {
      SameFieldParts(reg, m, ctx, KeyFields(key), KeyOp(key), val);
      KeyCondOfFields(ctx, key, val);
      KeyCondOfFields(d, key, val);
      SameConditionSameEntry(ctx, d, key, val);
    }
  }

  lemma SameConditionSameEntry(c: Context, d: Context, key: Key, val: Value)
    requires (key.Field? || !IsGroup(val)) && KeyCond(c, key, val) == KeyCond(d, key, val)
    ensures SameEntry(c, key, val, d, key, val)
  {
    hide KeyCond, Eval;
  }

  lemma SameGroupUnsplit(c: Context, g: Filter, d: Context, h: Filter, sigma: Assignment)
    requires SameGroup(c, g, d, h)
    ensures Unsplit(c, g, sigma) == Unsplit(d, h, sigma)
  {
    hide GroupBuilds, GroupMeaning;
  }

  /** The result of normalising means exactly what the original means once its empty operators are dropped, provided
      clashing entries agree. */
  lemma NormalizedMeaning(reg: Registry, m: Name, ctx: Context, f: Filter, r: Filter, s: Filter, sigma: Assignment)
    requires m in reg && AllSettle(reg) && IsNormalization(reg, m, f, r)
    requires if Changed(reg, m, f) then Agree(Expanding(reg, m), f) && IsRenamed(STRIPPING, f, s) else s == f
    ensures Unsplit(ctx, r, sigma) == Unsplit(ReadThroughAliases(reg, m, ctx), s, sigma)
  {
    hide AllSettle, Changed, Agree, IsRenamed, SameGroup, ReadThroughAliases, Unsplit;
    if Changed(reg, m, f) {
      OutMeans(reg, m, ctx, f, r, s);
    } else {
      UnchangedMeans(reg, m, ctx, f);
    }
    SameGroupUnsplit(ctx, r, ReadThroughAliases(reg, m, ctx), s, sigma);
  }

  /** Nothing is lost: unless an alias is expanded nothing changes, and otherwise clashing entries agree and there is no
      empty operator to drop. */
  ghost predicate KeepsMeaning(reg: Registry, m: Name, f: Filter)
    requires m in reg && AllSettle(reg)
  {
    Changed(reg, m, f) ==> Agree(Expanding(reg, m), f) && NoEmptyOperators(f)
  }

  /** Then the compiled condition of the result is that of the original with fields read through aliases. */
  lemma NormalizationKeepsMeaning(reg: Registry, m: Name, ctx: Context, f: Filter, r: Filter, sigma: Assignment)
    requires m in reg && AllSettle(reg) && IsNormalization(reg, m, f, r) && KeepsMeaning(reg, m, f)
    ensures Unsplit(ctx, r, sigma) == Unsplit(ReadThroughAliases(reg, m, ctx), f, sigma)
  {
    hide AllSettle, Changed, Agree, IsRenamed, ReadThroughAliases, Unsplit, NoEmptyOperators, IsNormalization;
    if Changed(reg, m, f) {
      NothingToStrip(f);
    }
    NormalizedMeaning(reg, m, ctx, f, r, f, sigma);
  }

  /** The result does not depend on the order of the keys if and only if nothing is expanded or clashing
      entries agree. */
  lemma ResultIsDeterminedExactly(reg: Registry, m: Name, f: Filter)
    requires m in reg && AllSettle(reg)
    ensures (!Changed(reg, m, f) || Agree(Expanding(reg, m), f)) <==>
            forall r: Filter, s: Filter | IsNormalization(reg, m, f, r) && IsNormalization(reg, m, f, s) :: r == s
  {
    hide AllSettle, Changed, Agree, IsRenamed, Expanding, KeepsGroups;
    var rn := Expanding(reg, m);
    ExpandingKeepsGroups(reg, m);
    OrderMattersUnlessAgreed(rn, f);
    if Changed(reg, m, f) && !Agree(rn, f) {
      var g: Filter, h: Filter :| IsRenamed(rn, f, g) && IsRenamed(rn, f, h) && g != h;
      assert IsNormalization(reg, m, f, g) && IsNormalization(reg, m, f, h);
    } else {
      forall r: Filter, s: Filter | IsNormalization(reg, m, f, r) && IsNormalization(reg, m, f, s) ensures r == s {
        if Changed(reg, m, f) {
          assert IsRenamed(rn, f, r) && IsRenamed(rn, f, s);
        }
      }
    }
  }

  // ----- groups stay groups -----

  lemma {:induction false} GroupsOnlyKept(rn: Renaming, f: Filter, g: Filter)
    requires KeepsGroups(rn) && IsRenamed(rn, f, g) && GroupsOnly(f)
    ensures GroupsOnly(g)
    decreases f, 2
  {
    hide KeepsGroups, IsRenamed, IsRenamedValue, EntryGroupsOnly;
    forall n <- g.entries ensures EntryGroupsOnly(n, g.entries[n]) {
      var k := SourceOfEntry(rn, f, g, n);
      EntryGroupsOnlyKept(rn, k, f.entries[k], g.entries[n]);
    }
  }

  lemma {:induction false} EntryGroupsOnlyKept(rn: Renaming, key: Key, val: Value, out: Value)
    requires KeepsGroups(rn) && IsRenamedValue(rn, key, val, out) && EntryGroupsOnly(key, val)
    ensures EntryGroupsOnly(rn(key, val), out)
    decreases val, 1
  {
    hide IsRenamed, GroupsOnly;
    if !key.Field? {
      assert rn(key, val) == key;
      if key.And? && val.Nested? {
        GroupsOnlyKept(rn, val.filter, out.filter);
      } else if key.And? && val.List? {
        forall item <- out.items ensures ItemGroupsOnly(item) {
          var i :| 0 <= i < |out.items| && out.items[i] == item;
          assert IsRenamedItem(rn, val.items[i], out.items[i]) && val.items[i] in val.items;
          assert ItemGroupsOnly(val.items[i]);
          if val.items[i].Nested? {
            GroupsOnlyKept(rn, val.items[i].filter, out.items[i].filter);
          }
        }
      }
    } else {
      assert rn(key, val).Field? by {
        assert !rn(key, val).Field? ==> rn(key, val) == key;
      }
    }
  }

  lemma NormalizationKeepsGroupsOnly(reg: Registry, m: Name, f: Filter, r: Filter)
    requires m in reg && AllSettle(reg) && IsNormalization(reg, m, f, r) && GroupsOnly(f)
    ensures GroupsOnly(r)
  {
    hide AllSettle, Changed, IsRenamed, Expanding, KeepsGroups, GroupsOnly;
    if Changed(reg, m, f) {
      ExpandingKeepsGroups(reg, m);
      GroupsOnlyKept(Expanding(reg, m), f, r);
    }
  }

  // ----- where the meaning is lost -----

  lemma LeafKeyBecomes(reg: Registry, m: Name, p: Path, q: Path, suffix: Option<string>, val: Value)
    requires m in reg && AllSettle(reg) && Expand(reg, m, p) == q
    ensures NewKey(reg, m, Key.Field(p, [], false, suffix), val) == Key.Field(q, [], false, StripSuffix(suffix))
    ensures p != q ==> EntryChanged(reg, m, Key.Field(p, [], false, suffix), val)
  {
    var key := Key.Field(p, [], false, suffix);
    assert KeyFields(key) == [p] && ExpandAll(reg, m, KeyFields(key)) == [q];
  }

  lemma TwoLeaves(reg: Registry, m: Name, a: Key, v: Value, b: Key, w: Value, g: Filter)
    requires m in reg && AllSettle(reg) && a.Field? && b.Field? && a != b
    requires NewKey(reg, m, a, v) in g.entries && NewKey(reg, m, b, w) in g.entries
    requires forall n <- g.entries ::
      (n == NewKey(reg, m, a, v) && g.entries[n] == v) || (n == NewKey(reg, m, b, w) && g.entries[n] == w)
    requires EntryChanged(reg, m, a, v)
    ensures IsNormalization(reg, m, Filter(map[a := v, b := w]), g)
  {
    hide AllSettle, NewKey, EntryChanged;
    var f := Filter(map[a := v, b := w]);
    assert f.entries[a] == v && f.entries[b] == w;
    assert a in f.entries && EntryChanged(reg, m, a, f.entries[a]);
    forall n <- g.entries ensures exists k <- f.entries ::
      NewKey(reg, m, k, f.entries[k]) == n && IsRenamedValue(Expanding(reg, m), k, f.entries[k], g.entries[n])
    {
      if n == NewKey(reg, m, a, v) && g.entries[n] == v {
        assert a in f.entries && IsRenamedValue(Expanding(reg, m), a, f.entries[a], g.entries[n]);
      } else {
        assert b in f.entries && IsRenamedValue(Expanding(reg, m), b, f.entries[b], g.entries[n]);
      }
    }
  }

  /** An alias and the path it stands for, both used as keys: one of the two conditions is lost, and the order of the
      keys decides which. */
  lemma ClashLosesACondition(reg: Registry, m: Name, alias: Path, path: Path, v: Value, w: Value)
    requires m in reg && AllSettle(reg) && alias != path && Expand(reg, m, alias) == path
      && Expand(reg, m, path) == path
    ensures var a, p := Key.Field(alias, [], false, None), Key.Field(path, [], false, None);
      var f := Filter(map[a := v, p := w]);
      IsNormalization(reg, m, f, Filter(map[p := v])) && IsNormalization(reg, m, f, Filter(map[p := w]))
  {
    hide AllSettle, Expand, NewKey, EntryChanged;
    var a, p := Key.Field(alias, [], false, None), Key.Field(path, [], false, None);
    LeafKeyBecomes(reg, m, alias, path, None, v);
    LeafKeyBecomes(reg, m, path, path, None, w);
    TwoLeaves(reg, m, a, v, p, w, Filter(map[p := v]));
    TwoLeaves(reg, m, a, v, p, w, Filter(map[p := w]));
  }

  /** A key that ends in "__" asks for nothing; as soon as an alias is expanded anywhere in the tree it asks
      for equality, and the result fails wherever that equality fails. */
  lemma EmptyOperatorBecomesEquality(reg: Registry, m: Name, ctx: Context, f: Filter, r: Filter, k: Key,
                                     sigma: Assignment)
    requires m in reg && AllSettle(reg) && Changed(reg, m, f) && IsNormalization(reg, m, f, r)
    requires Agree(Expanding(reg, m), f) && k in f.entries && k.Field? && k.suffix == Some("")
    ensures !EntryBuilds(ReadThroughAliases(reg, m, ctx), k, f.entries[k])
    ensures UnsplitEntry(ReadThroughAliases(reg, m, ctx), StripKey(k), f.entries[k], sigma) == False ==>
      Unsplit(ctx, r, sigma) == False
  {
    hide AllSettle, Changed, Agree, IsRenamed, ReadThroughAliases, Expanding, KeepsGroups, NewKey, EntryMeaning,
         EntryBuilds, Unsplit;
    var n, val := NewKey(reg, m, k, f.entries[k]), f.entries[k];
    NothingAsked(ReadThroughAliases(reg, m, ctx), k, val);
    ExpandingKeepsGroups(reg, m);
    EntryOfResult(Expanding(reg, m), f, r, k);
    SameLeaf(reg, m, ctx, k, val);
    UnsplitIsOver(ctx, r, sigma);
  }

  lemma NothingAsked(ctx: Context, k: Key, val: Value)
    requires k.Field? && k.suffix == Some("")
    ensures !EntryBuilds(ctx, k, val)
  {
    EmptyOperatorNeverApplies(ctx, KeyFields(k), val);
    hide FieldParts;
  }

  lemma {:induction false} EmptyOperatorNeverApplies(ctx: Context, ps: seq<Path>, val: Value)
    ensures FieldParts(ctx, ps, "", val) == []
  {
    if ps != [] {
      EmptyOperatorNeverApplies(ctx, ps[..|ps| - 1], val);
    }
  }
}
