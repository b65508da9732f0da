/** Storing the entries of a filter tree under other keys, in any order: what the normalisers of
    internal/model/alias_helpers.go do, whatever the new keys are. */
module KeyRenaming {
  import opened Filters
  import opened WhereSplit

  /** The key an entry is stored under. */
  type Renaming = (Key, Value) -> Key

  /** `g` can be the rewritten tree: every entry is stored under its new key, and where new keys clash any one of the
      entries may have been stored last. */
  ghost predicate IsRenamed(rn: Renaming, f: Filter, g: Filter)
    decreases f, 2
  {
    && (forall k <- f.entries :: rn(k, f.entries[k]) in g.entries)
    && (forall n <- g.entries :: exists k <- f.entries ::
          rn(k, f.entries[k]) == n && IsRenamedValue(rn, k, f.entries[k], g.entries[n]))
  }

  ghost predicate IsRenamedValue(rn: Renaming, key: Key, val: Value, out: Value)
    decreases val, 1
  {
    if !key.Field? && val.Nested? then out.Nested? && IsRenamed(rn, val.filter, out.filter)
    else if !key.Field? && val.List? then
      out.List? && |out.items| == |val.items| && forall i | 0 <= i < |val.items| ::
        IsRenamedItem(rn, val.items[i], out.items[i])
    else out == val
  }

  ghost predicate IsRenamedItem(rn: Renaming, item: Value, out: Value)
    decreases item, 3
  {
    if item.Nested? then out.Nested? && IsRenamed(rn, item.filter, out.filter) else out == item
  }

  /** Groups keep their key, and nothing else is stored under "or" or "and". */
  ghost predicate KeepsGroups(rn: Renaming) {
    forall key: Key, val: Value ::
      (!key.Field? && IsGroup(val) ==> rn(key, val) == key) && (!rn(key, val).Field? ==> rn(key, val) == key)
  }

  // ----- when the order of the keys does not matter -----

  /** In every object two entries with the same new key hold the same value. */
  ghost predicate Agree(rn: Renaming, f: Filter)
    decreases f, 2
  {
    && (forall k <- f.entries, l <- f.entries :: rn(k, f.entries[k]) == rn(l, f.entries[l]) ==>
      f.entries[k] == f.entries[l])
    && (forall k <- f.entries :: AgreeValue(rn, k, f.entries[k]))
  }

  ghost predicate AgreeValue(rn: Renaming, key: Key, val: Value)
    decreases val, 1
  {
    if !key.Field? && val.Nested? then Agree(rn, val.filter)
    else if !key.Field? && val.List? then forall i | 0 <= i < |val.items| :: AgreeItem(rn, val.items[i])
    else true
  }

  ghost predicate AgreeItem(rn: Renaming, item: Value)
    decreases item, 3
  {
    item.Nested? ==> Agree(rn, item.filter)
  }

  /** An entry of the result is an output of every entry stored under its key. */
  lemma EntryOfResult(rn: Renaming, f: Filter, g: Filter, k: Key)
    requires KeepsGroups(rn) && Agree(rn, f) && IsRenamed(rn, f, g) && k in f.entries
    ensures var n := rn(k, f.entries[k]); n in g.entries && IsRenamedValue(rn, k, f.entries[k], g.entries[n])
  {
    hide AgreeValue;
    var n := rn(k, f.entries[k]);
    var l :| l in f.entries && rn(l, f.entries[l]) == n && IsRenamedValue(rn, l, f.entries[l], g.entries[n]);
    assert !k.Field? && IsGroup(f.entries[k]) ==> n == k;
    assert !l.Field? && IsGroup(f.entries[l]) ==> n == l;
    hide IsRenamed;
  }

  lemma SourceOfEntry(rn: Renaming, f: Filter, g: Filter, n: Key) returns (k: Key)
    requires IsRenamed(rn, f, g) && n in g.entries
    ensures k in f.entries && rn(k, f.entries[k]) == n && IsRenamedValue(rn, k, f.entries[k], g.entries[n])
    ensures Agree(rn, f) ==> AgreeValue(rn, k, f.entries[k])
  {
    hide IsRenamedValue, AgreeValue;
    k :| k in f.entries && rn(k, f.entries[k]) == n && IsRenamedValue(rn, k, f.entries[k], g.entries[n]);
  }

  lemma {:induction false} AgreementGivesOneResult(rn: Renaming, f: Filter, g: Filter, h: Filter)
    requires KeepsGroups(rn) && Agree(rn, f) && IsRenamed(rn, f, g) && IsRenamed(rn, f, h)
    ensures g == h
    decreases f, 2
  {
    hide KeepsGroups, IsRenamed, IsRenamedValue, Agree, AgreeValue;
    forall n | n in g.entries || n in h.entries
      ensures n in g.entries && n in h.entries && g.entries[n] == h.entries[n]
    {
      var k := SourceOfEntry(rn, f, if n in g.entries then g else h, n);
      EntryOfResult(rn, f, g, k);
      EntryOfResult(rn, f, h, k);
      ValuesAreOne(rn, k, f.entries[k], g.entries[n], h.entries[n]);
    }
    assert g.entries == h.entries;
  }

  lemma {:induction false} ValuesAreOne(rn: Renaming, key: Key, val: Value, a: Value, b: Value)
    requires KeepsGroups(rn) && AgreeValue(rn, key, val) && IsRenamedValue(rn, key, val, a)
      && IsRenamedValue(rn, key, val, b)
    ensures a == b
    decreases val, 1
  {
    hide KeepsGroups, Agree, IsRenamed;
    if !key.Field? && val.Nested? {
      AgreementGivesOneResult(rn, val.filter, a.filter, b.filter);
    } else if !key.Field? && val.List? {
      forall i | 0 <= i < |val.items| ensures a.items[i] == b.items[i] {
        assert IsRenamedItem(rn, val.items[i], a.items[i]) && IsRenamedItem(rn, val.items[i], b.items[i]);
        assert AgreeItem(rn, val.items[i]);
        if val.items[i].Nested? {
          AgreementGivesOneResult(rn, val.items[i].filter, a.items[i].filter, b.items[i].filter);
        }
      }
    }
  }

  // ----- and when it does -----

  /** One of the results. */
  ghost function Renamed(rn: Renaming, f: Filter): Filter
    decreases f, 2
  {
    Filter(map n | n in NewKeys(rn, f) :: RenamedAt(rn, f, n))
  }

  ghost function NewKeys(rn: Renaming, f: Filter): set<Key> {
    set k | k in f.entries :: rn(k, f.entries[k])
  }

  ghost function RenamedAt(rn: Renaming, f: Filter, n: Key): Value
    requires n in NewKeys(rn, f)
    decreases f, 1
  {
    var k :| k in f.entries && rn(k, f.entries[k]) == n;
    RenamedValue(rn, k, f.entries[k])
  }

  ghost function RenamedValue(rn: Renaming, key: Key, val: Value): Value
    decreases val, 1
  {
    if !key.Field? && val.Nested? then Nested(Renamed(rn, val.filter))
    else if !key.Field? && val.List? then List(RenamedItems(rn, val.items))
    else val
  }

  ghost function RenamedItems(rn: Renaming, items: seq<Value>): (r: seq<Value>)
    ensures |r| == |items|
    decreases items, 0
  {
    seq(|items|, i requires 0 <= i < |items| => RenamedItem(rn, items[i]))
  }

  ghost function RenamedItem(rn: Renaming, item: Value): Value
    decreases item, 3
  {
    if item.Nested? then Nested(Renamed(rn, item.filter)) else item
  }

  lemma {:induction false} RenamedIsRenamed(rn: Renaming, f: Filter)
    ensures IsRenamed(rn, f, Renamed(rn, f))
    decreases f, 2
  {
    hide RenamedValue, IsRenamedValue;
    var g := Renamed(rn, f);
    forall n <- g.entries
      ensures exists k <- f.entries :: rn(k, f.entries[k]) == n && IsRenamedValue(rn, k, f.entries[k], g.entries[n])
    {
      var k :| k in f.entries && rn(k, f.entries[k]) == n && RenamedAt(rn, f, n) == RenamedValue(rn, k, f.entries[k]);
      RenamedValueIsRenamed(rn, k, f.entries[k]);
    }
  }

  lemma {:induction false} RenamedValueIsRenamed(rn: Renaming, key: Key, val: Value)
    ensures IsRenamedValue(rn, key, val, RenamedValue(rn, key, val))
    decreases val, 1
  {
    hide Renamed, IsRenamed;
    if !key.Field? && val.Nested? {
      RenamedIsRenamed(rn, val.filter);
    } else if !key.Field? && val.List? {
      forall i | 0 <= i < |val.items| ensures IsRenamedItem(rn, val.items[i], RenamedItems(rn, val.items)[i]) {
        if val.items[i].Nested? {
          RenamedIsRenamed(rn, val.items[i].filter);
        }
      }
    }
  }

  /** Another output of one entry makes another result. */
  lemma ResultWith(rn: Renaming, f: Filter, k: Key, out: Value) returns (g: Filter)
    requires k in f.entries && IsRenamedValue(rn, k, f.entries[k], out)
    ensures IsRenamed(rn, f, g)
    ensures rn(k, f.entries[k]) in g.entries && g.entries[rn(k, f.entries[k])] == out
  {
    hide IsRenamedValue, Renamed;
    RenamedIsRenamed(rn, f);
    var n := rn(k, f.entries[k]);
    g := Filter(Renamed(rn, f).entries[n := out]);
  }

  lemma GroupsClashWithNothing(rn: Renaming, k: Key, v: Value, l: Key, w: Value)
    requires KeepsGroups(rn) && rn(k, v) == rn(l, w) && k != l
    ensures k.Field? || !IsGroup(v)
  {
  }

  lemma {:induction false} DisagreementGivesTwo(rn: Renaming, f: Filter) returns (g: Filter, h: Filter)
    requires KeepsGroups(rn) && !Agree(rn, f)
    ensures IsRenamed(rn, f, g) && IsRenamed(rn, f, h) && g != h
    decreases f, 2
  {
    hide AgreeValue;
    if k :| k in f.entries && !AgreeValue(rn, k, f.entries[k]) {
      var a, b := ValueGivesTwo(rn, k, f.entries[k]);
      g := ResultWith(rn, f, k, a);
      h := ResultWith(rn, f, k, b);
    } else {
      var k, l :| k in f.entries && l in f.entries && rn(k, f.entries[k]) == rn(l, f.entries[l])
        && f.entries[k] != f.entries[l];
      GroupsClashWithNothing(rn, k, f.entries[k], l, f.entries[l]);
      GroupsClashWithNothing(rn, l, f.entries[l], k, f.entries[k]);
      g := ResultWith(rn, f, k, f.entries[k]);
      h := ResultWith(rn, f, l, f.entries[l]);
    }
  }

  lemma {:induction false} ValueGivesTwo(rn: Renaming, key: Key, val: Value) returns (a: Value, b: Value)
    requires KeepsGroups(rn) && !AgreeValue(rn, key, val)
    ensures IsRenamedValue(rn, key, val, a) && IsRenamedValue(rn, key, val, b) && a != b
    decreases val, 1
  {
    hide KeepsGroups, Agree, IsRenamed;
    if val.Nested? {
      var g, h := DisagreementGivesTwo(rn, val.filter);
      a, b := Nested(g), Nested(h);
    } else {
      var i :| 0 <= i < |val.items| && !AgreeItem(rn, val.items[i]);
      var g, h := DisagreementGivesTwo(rn, val.items[i].filter);
      RenamedValueIsRenamed(rn, key, val);
      var items := RenamedItems(rn, val.items);
      a, b := List(items[i := Nested(g)]), List(items[i := Nested(h)]);
      assert a.items[i] == Nested(g) && b.items[i] == Nested(h);
    }
  }

  /** The exact condition: the order of the keys does not matter if and only if clashing entries hold equal values. */
  lemma OrderMattersUnlessAgreed(rn: Renaming, f: Filter)
    requires KeepsGroups(rn)
    ensures Agree(rn, f) <==> forall g: Filter, h: Filter | IsRenamed(rn, f, g) && IsRenamed(rn, f, h) :: g == h
  {
    hide KeepsGroups, Agree, IsRenamed;
    if Agree(rn, f) {
      forall g: Filter, h: Filter | IsRenamed(rn, f, g) && IsRenamed(rn, f, h) ensures g == h {
        AgreementGivesOneResult(rn, f, g, h);
      }
    } else {
      var g, h := DisagreementGivesTwo(rn, f);
    }
  }

  // ----- the meaning of renamed trees -----

  /** Two entries, each read in its own context, mean the same. */
  ghost predicate SameEntry(c: Context, k: Key, v: Value, d: Context, l: Key, w: Value) {
    && (EntryBuilds(c, k, v) <==> EntryBuilds(d, l, w))
    && (EntryBuilds(c, k, v) ==> forall sigma: Assignment ::
      EntryMeaning(c, k, v, sigma) == EntryMeaning(d, l, w, sigma))
  }

  ghost predicate SameGroup(c: Context, g: Filter, d: Context, h: Filter) {
    && (GroupBuilds(c, g) <==> GroupBuilds(d, h))
    && forall anyOf: bool, sigma: Assignment :: GroupMeaning(c, g, anyOf, sigma) == GroupMeaning(d, h, anyOf, sigma)
  }

  ghost predicate HasTwin(c: Context, k: Key, v: Value, d: Context, h: Filter) {
    exists l <- h.entries :: SameEntry(c, k, v, d, l, h.entries[l])
  }

  lemma SameEntriesSameGroup(c: Context, g: Filter, d: Context, h: Filter)
    requires forall k <- g.entries :: HasTwin(c, k, g.entries[k], d, h)
    requires forall l <- h.entries :: HasTwin(d, l, h.entries[l], c, g)
    ensures SameGroup(c, g, d, h)
  {
    hide HasTwin, GroupMeaning, GroupBuilds, SomeMeans;
    TwinsBuild(c, g, d, h);
    TwinsBuild(d, h, c, g);
    forall anyOf: bool, sigma: Assignment ensures GroupMeaning(c, g, anyOf, sigma) == GroupMeaning(d, h, anyOf, sigma) {
      forall t: Truth ensures SomeMeans(c, g, t, sigma) <==> SomeMeans(d, h, t, sigma) {
        SomeMeansTwin(c, g, d, h, t, sigma);
        SomeMeansTwin(d, h, c, g, t, sigma);
      }
      GroupBySome(c, g, anyOf, sigma);
      GroupBySome(d, h, anyOf, sigma);
    }
  }

  lemma TwinsBuild(c: Context, g: Filter, d: Context, h: Filter)
    requires forall k <- g.entries :: HasTwin(c, k, g.entries[k], d, h)
    ensures GroupBuilds(c, g) ==> GroupBuilds(d, h)
  {
    hide EntryBuilds, EntryMeaning;
    if k :| k in g.entries && EntryBuilds(c, k, g.entries[k]) {
      assert HasTwin(c, k, g.entries[k], d, h);
    }
  }

  /** Some entry builds a condition of truth `t`. */
  ghost predicate SomeMeans(c: Context, g: Filter, t: Truth, sigma: Assignment) {
    exists k <- g.entries :: EntryBuilds(c, k, g.entries[k]) && EntryMeaning(c, k, g.entries[k], sigma) == t
  }

  lemma SomeMeansTwin(c: Context, g: Filter, d: Context, h: Filter, t: Truth, sigma: Assignment)
    requires forall k <- g.entries :: HasTwin(c, k, g.entries[k], d, h)
    ensures SomeMeans(c, g, t, sigma) ==> SomeMeans(d, h, t, sigma)
  {
    hide EntryBuilds, EntryMeaning;
    if k :| k in g.entries && EntryBuilds(c, k, g.entries[k]) && EntryMeaning(c, k, g.entries[k], sigma) == t {
      var l :| l in h.entries && SameEntry(c, k, g.entries[k], d, l, h.entries[l]);
      assert EntryBuilds(d, l, h.entries[l]) && EntryMeaning(d, l, h.entries[l], sigma) == t;
    }
  }

  lemma GroupBySome(c: Context, g: Filter, anyOf: bool, sigma: Assignment)
    ensures GroupMeaning(c, g, anyOf, sigma)
         == if anyOf then
              if SomeMeans(c, g, True, sigma) then True else if SomeMeans(c, g, Unknown, sigma) then Unknown else False
            else
              if SomeMeans(c, g, False, sigma) then False else if SomeMeans(c, g, Unknown, sigma) then Unknown else True
  {
    hide EntryBuilds, EntryMeaning;
    assert GroupMeaning(c, g, anyOf, sigma)
      == if anyOf then JoinOver(c, g, g.entries.Keys, sigma) else MeetOver(c, g, g.entries.Keys, sigma);
    assert forall k :: k in g.entries.Keys <==> k in g.entries;
  }

  /** Two items, each read in its own context, mean the same. */
  ghost predicate SameItem(c: Context, a: Value, d: Context, b: Value) {
    (a.Nested? <==> b.Nested?) && (a.Nested? ==> SameGroup(c, a.filter, d, b.filter))
  }

  lemma {:induction false} SameItemsMean(c: Context, a: seq<Value>, d: Context, b: seq<Value>, anyOf: bool,
                                         sigma: Assignment)
    requires |a| == |b| && forall i | 0 <= i < |a| :: SameItem(c, a[i], d, b[i])
    ensures ItemsMeaning(c, a, anyOf, sigma) == ItemsMeaning(d, b, anyOf, sigma)
  {
    hide GroupBuilds, GroupMeaning;
    if a != [] {
      var n := |a| - 1;
      assert SameItem(c, a[n], d, b[n]);
      assert forall i | 0 <= i < n :: a[..n][i] == a[i] && b[..n][i] == b[i];
      SameItemsMean(c, a[..n], d, b[..n], anyOf, sigma);
      assert ItemBuilds(c, a[n]) <==> ItemBuilds(d, b[n]);
      if ItemBuilds(c, a[n]) {
        assert ItemMeaning(c, a[n], sigma) == GroupMeaning(c, a[n].filter, false, sigma);
        assert ItemMeaning(d, b[n], sigma) == GroupMeaning(d, b[n].filter, false, sigma);
      }
    }
  }

  lemma SameItemsBuild(c: Context, a: seq<Value>, d: Context, b: seq<Value>)
    requires |a| == |b| && forall i | 0 <= i < |a| :: SameItem(c, a[i], d, b[i])
    ensures (exists item <- a :: ItemBuilds(c, item)) ==> exists item <- b :: ItemBuilds(d, item)
  {
    hide GroupBuilds, GroupMeaning;
    if item :| item in a && ItemBuilds(c, item) {
      var i :| 0 <= i < |a| && a[i] == item;
      assert SameItem(c, a[i], d, b[i]) && b[i] in b && ItemBuilds(d, b[i]);
    }
  }

  /** Group entries with the same parts mean the same. */
  lemma SameListEntry(c: Context, d: Context, key: Key, a: Value, b: Value)
    requires !key.Field? && a.List? && b.List? && |a.items| == |b.items|
    requires forall i | 0 <= i < |a.items| :: SameItem(c, a.items[i], d, b.items[i])
    ensures SameEntry(c, key, a, d, key, b)
  {
    hide GroupBuilds, GroupMeaning, ItemsMeaning, SameItem;
    SameItemsBuild(c, a.items, d, b.items);
    forall i | 0 <= i < |b.items| ensures SameItem(d, b.items[i], c, a.items[i]) {
      SameItemSymmetric(c, a.items[i], d, b.items[i]);
    }
    SameItemsBuild(d, b.items, c, a.items);
    hide ItemBuilds;
    assert EntryBuilds(c, key, a) <==> exists item <- a.items :: ItemBuilds(c, item);
    assert EntryBuilds(d, key, b) <==> exists item <- b.items :: ItemBuilds(d, item);
    forall sigma: Assignment | EntryBuilds(c, key, a)
      ensures EntryMeaning(c, key, a, sigma) == EntryMeaning(d, key, b, sigma) {
      SameItemsMean(c, a.items, d, b.items, key.Or?, sigma);
      assert EntryMeaning(c, key, a, sigma) == ItemsMeaning(c, a.items, key.Or?, sigma);
      assert EntryMeaning(d, key, b, sigma) == ItemsMeaning(d, b.items, key.Or?, sigma);
    }
  }

  lemma SameItemSymmetric(c: Context, a: Value, d: Context, b: Value)
    requires SameItem(c, a, d, b)
    ensures SameItem(d, b, c, a)
  {
    hide GroupBuilds, GroupMeaning;
  }

  lemma SameNestedEntry(c: Context, d: Context, key: Key, a: Value, b: Value)
    requires !key.Field? && a.Nested? && b.Nested? && SameGroup(c, a.filter, d, b.filter)
    ensures SameEntry(c, key, a, d, key, b)
  {
    hide GroupBuilds, GroupMeaning;
    assert EntryBuilds(c, key, a) <==> GroupBuilds(c, a.filter);
    assert EntryBuilds(d, key, b) <==> GroupBuilds(d, b.filter);
    forall sigma: Assignment | EntryBuilds(c, key, a)
      ensures EntryMeaning(c, key, a, sigma) == EntryMeaning(d, key, b, sigma) {
      assert EntryMeaning(c, key, a, sigma) == GroupMeaning(c, a.filter, key.Or?, sigma);
      assert EntryMeaning(d, key, b, sigma) == GroupMeaning(d, b.filter, key.Or?, sigma);
    }
  }
}
