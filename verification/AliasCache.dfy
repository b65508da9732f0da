/** The alias-map cache (internal/model/alias_cache.go): a time to live, a periodic sweep and a byte budget. */
module AliasCache {
  import opened Common

  // Times are in nanoseconds.
  const HOUR := 3_600_000_000_000
  const TTL := 7 * 24 * HOUR
  const SWEEP_FREQUENCY := HOUR

  /** The accounting of one stored map. */
  datatype Slot = Slot(bytes: nat, lastUsed: int)

  /** `limit` is maxBytes; a limit that is not positive is no limit. */
  datatype Cache<K> = Cache(items: map<K, Slot>, total: int, lastSweep: Option<int>, limit: int)

  predicate Expired(lastUsed: int, now: int) {
    now - lastUsed > TTL
  }

  /** The bytes of all stored maps. */
  ghost function Stored<K>(items: map<K, Slot>): nat
    decreases |items|
  {
    if items == map[] then 0
    else
      var k :| k in items;
      items[k].bytes + Stored(items - {k})
  }

  lemma {:induction false} StoredWithout<K>(items: map<K, Slot>, k: K)
    requires k in items
    ensures Stored(items) == items[k].bytes + Stored(items - {k})
    decreases |items|
  {
    var c :| c in items && Stored(items) == items[c].bytes + Stored(items - {c});
    if c != k {
      StoredWithout(items - {c}, k);
      assert items - {c} - {k} == items - {k} - {c};
      StoredWithout(items - {k}, c);
    }
  }

  lemma StoredWith<K>(items: map<K, Slot>, k: K, s: Slot)
    ensures Stored(items[k := s]) == s.bytes + Stored(items - {k})
  {
    StoredWithout(items[k := s], k);
    assert items[k := s] - {k} == items - {k};
  }

  ghost function Restricted<K>(items: map<K, Slot>, keys: set<K>): map<K, Slot> {
    map k | k in items && k in keys :: items[k]
  }

  lemma {:induction false} StoredSplits<K>(items: map<K, Slot>, keys: set<K>)
    ensures Stored(items) == Stored(items - keys) + Stored(Restricted(items, keys))
    decreases |items|
  {
    hide Stored, Restricted;
    if items == map[] {
      NothingStored<K>(keys);
      assert items - keys == items;
    } else {
      var k :| k in items;
      StoredWithout(items, k);
      StoredSplits(items - {k}, keys);
      if k in keys {
        RestrictedKey(items, keys, k);
        StoredWithout(Restricted(items, keys), k);
        assert items - keys == items - {k} - keys;
      } else {
        RestrictedOther(items, keys, k);
        StoredWithout(items - keys, k);
        assert items - keys - {k} == items - {k} - keys;
      }
    }
  }

  lemma NothingStored<K>(keys: set<K>)
    ensures Stored<K>(map[]) == 0 && Restricted<K>(map[], keys) == map[]
  {
  }

  lemma RestrictedKey<K>(items: map<K, Slot>, keys: set<K>, k: K)
    requires k in items && k in keys
    ensures k in Restricted(items, keys) && Restricted(items, keys)[k] == items[k]
    ensures Restricted(items, keys) - {k} == Restricted(items - {k}, keys)
  {
  }

  lemma RestrictedOther<K>(items: map<K, Slot>, keys: set<K>, k: K)
    requires k in items && k !in keys
    ensures Restricted(items, keys) == Restricted(items - {k}, keys)
  {
  }

  ghost function ExpiredKeys<K>(items: map<K, Slot>, now: int): set<K> {
    set k | k in items && Expired(items[k].lastUsed, now)
  }

  /** maybeSweepLocked */
  ghost function Sweep<K>(c: Cache<K>, now: int): Cache<K> {
    if c.lastSweep.Some? && now - c.lastSweep.value < SWEEP_FREQUENCY then c
    else
      var stale := ExpiredKeys(c.items, now);
      c.(items := c.items - stale, total := c.total - Stored(Restricted(c.items, stale)), lastSweep := Some(now))
  }

  /** The cache after get, and the bytes it dropped without subtracting them. */
  ghost function AfterGet<K>(c: Cache<K>, key: K, now: int): (Cache<K>, nat) {
    var s := Sweep(c, now);
    if key !in s.items then (s, 0)
    else if Expired(s.items[key].lastUsed, now) then (s.(items := s.items - {key}), s.items[key].bytes)
    else (s.(items := s.items[key := s.items[key].(lastUsed := now)]), 0)
  }

  ghost predicate Hit<K>(c: Cache<K>, key: K, now: int) {
    var s := Sweep(c, now);
    key in s.items && !Expired(s.items[key].lastUsed, now)
  }

  ghost function AfterSet<K>(c: Cache<K>, key: K, bytes: nat, now: int): Cache<K> {
    var s := Sweep(c, now);
    if s.limit > 0 && (bytes > s.limit || s.total + bytes > s.limit) then s
    else
      var replaced := if key in s.items then s.items[key].bytes else 0;
      s.(items := s.items[key := Slot(bytes, now)], total := s.total - replaced + bytes)
  }

  /** A stored map has grown (or was rebuilt) in place: only its size changes, and the counter is not told. Later sweeps
      and replacements measure it again. */
  ghost function AfterGrow<K>(c: Cache<K>, keys: set<K>, bytes: nat): Cache<K> {
    c.(items := Resized(c.items, keys, bytes))
  }

  ghost function Resized<K>(items: map<K, Slot>, keys: set<K>, bytes: nat): map<K, Slot> {
    map k | k in items :: if k in keys then items[k].(bytes := bytes) else items[k]
  }

  // ----- runs -----

  /** GrowOp: the map stored under `keys` now measures `bytes`. */
  datatype Op<K> = GetOp(key: K, now: int) | SetOp(key: K, bytes: nat, now: int) | GrowOp(keys: set<K>, bytes: nat)

  ghost function Step<K>(c: Cache<K>, op: Op<K>): Cache<K> {
    match op
    case GetOp(key, now) => AfterGet(c, key, now).0
    case SetOp(key, bytes, now) => AfterSet(c, key, bytes, now)
    case GrowOp(keys, bytes) => AfterGrow(c, keys, bytes)
  }

  ghost function Run<K>(c: Cache<K>, ops: seq<Op<K>>): Cache<K> {
    if ops == [] then c else Step(Run(c, ops[..|ops| - 1]), ops[|ops| - 1])
  }

  /** The bytes get dropped over a run. */
  ghost function Leaked<K>(c: Cache<K>, ops: seq<Op<K>>): nat {
    if ops == [] then 0
    else
      var before, op := Run(c, ops[..|ops| - 1]), ops[|ops| - 1];
      Leaked(c, ops[..|ops| - 1]) + if op.GetOp? then AfterGet(before, op.key, op.now).1 else 0
  }

  /** The bytes stored maps gained in place over a run. */
  ghost function Grown<K>(c: Cache<K>, ops: seq<Op<K>>): int {
    if ops == [] then 0
    else
      var before, op := Run(c, ops[..|ops| - 1]), ops[|ops| - 1];
      Grown(c, ops[..|ops| - 1]) + if op.GrowOp? then Growth(before.items, op.keys, op.bytes) else 0
  }

  /** What the maps stored under `keys` gain when each of them comes to measure `bytes`. */
  ghost function Growth<K>(items: map<K, Slot>, keys: set<K>, bytes: nat): int
    decreases |keys|
  {
    if keys == {} then 0
    else
      var k :| k in keys;
      (if k in items then bytes - items[k].bytes else 0) + Growth(items, keys - {k}, bytes)
  }

  ghost predicate WithinBudget<K>(c: Cache<K>) {
    Stored(c.items) <= c.total && (c.limit > 0 ==> c.total <= c.limit)
  }

  /** The counter runs ahead of the stored bytes by exactly `ahead`. */
  ghost predicate Accounted<K>(c: Cache<K>, ahead: int) {
    c.total == Stored(c.items) + ahead
  }

  lemma SweepAccounts<K>(c: Cache<K>, ahead: int, now: int)
    requires Accounted(c, ahead)
    ensures Accounted(Sweep(c, now), ahead) && Sweep(c, now).limit == c.limit && Sweep(c, now).total <= c.total
    ensures Sweep(c, now).items.Keys <= c.items.Keys
  {
    StoredSplits(c.items, ExpiredKeys(c.items, now));
  }

  lemma GetAccounts<K>(c: Cache<K>, ahead: int, key: K, now: int)
    requires Accounted(c, ahead)
    ensures var (c', dropped) := AfterGet(c, key, now);
      Accounted(c', ahead + dropped) && c'.limit == c.limit && c'.total <= c.total
  {
    SweepAccounts(c, ahead, now);
    hide Sweep;
    var s := Sweep(c, now);
    if key in s.items {
      StoredWithout(s.items, key);
      StoredWith(s.items, key, s.items[key].(lastUsed := now));
    }
  }

  lemma SetAccounts<K>(c: Cache<K>, ahead: int, key: K, bytes: nat, now: int)
    requires Accounted(c, ahead)
    ensures var c' := AfterSet(c, key, bytes, now);
      Accounted(c', ahead) && c'.limit == c.limit && (c.limit > 0 && c.total <= c.limit ==> c'.total <= c.limit)
  {
    SweepAccounts(c, ahead, now);
    hide Sweep;
    var s := Sweep(c, now);
    StoredWith(s.items, key, Slot(bytes, now));
    if key in s.items {
      StoredWithout(s.items, key);
    } else {
      assert s.items - {key} == s.items;
    }
  }

  lemma {:induction false} GrowAccounts<K>(items: map<K, Slot>, keys: set<K>, bytes: nat)
    ensures Stored(Resized(items, keys, bytes)) == Stored(items) + Growth(items, keys, bytes)
    decreases |keys|
  {
    hide Stored;
    if keys == {} {
      assert Resized(items, keys, bytes) == items;
    } else {
      var k :| k in keys && Growth(items, keys, bytes)
        == (if k in items then bytes - items[k].bytes else 0) + Growth(items, keys - {k}, bytes);
      GrowAccounts(items, keys - {k}, bytes);
      var before := Resized(items, keys - {k}, bytes);
      if k in items {
        StoredWithout(before, k);
        StoredWith(before, k, items[k].(bytes := bytes));
        assert Resized(items, keys, bytes) == before[k := items[k].(bytes := bytes)];
      } else {
        assert Resized(items, keys, bytes) == before;
      }
    }
  }

  /** Over every run from the empty cache the counter is ahead of the stored bytes by what get leaked less what stored
      maps gained. */
  lemma {:induction false} RunAccounts<K>(c: Cache<K>, ops: seq<Op<K>>)
    requires c.items == map[] && c.total == 0
    ensures Accounted(Run(c, ops), Leaked(c, ops) - Grown(c, ops)) && Run(c, ops).limit == c.limit
    ensures c.limit > 0 ==> Run(c, ops).total <= c.limit
  {
    hide AfterGet, AfterSet, Resized, Growth;
    if ops != [] {
      var init, op := ops[..|ops| - 1], ops[|ops| - 1];
      RunAccounts(c, init);
      var before, ahead := Run(c, init), Leaked(c, init) - Grown(c, init);
      match op
      case GetOp(key, now) => GetAccounts(before, ahead, key, now);
      case SetOp(key, bytes, now) => SetAccounts(before, ahead, key, bytes, now);
      case GrowOp(keys, bytes) => GrowAccounts(before.items, keys, bytes);
    }
  }

  /** The exact condition: after a run the stored bytes are covered by the counter, and the counter by a
      positive limit, if and only if stored maps gained no more than get leaked; the counter is exact if and
      only if the two are equal. */
  lemma RunStaysWithinBudget<K>(c: Cache<K>, ops: seq<Op<K>>)
    requires c.items == map[] && c.total == 0
    ensures WithinBudget(Run(c, ops)) <==> Grown(c, ops) <= Leaked(c, ops)
    ensures Run(c, ops).total == Stored(Run(c, ops).items) <==> Grown(c, ops) == Leaked(c, ops)
    ensures c.limit > 0 ==> Run(c, ops).total <= c.limit
  {
    hide Leaked, Grown, Run, Stored;
    RunAccounts(c, ops);
  }

  lemma {:induction false} UnmodifiedMapsDoNotGrow<K>(c: Cache<K>, ops: seq<Op<K>>)
    requires forall i | 0 <= i < |ops| :: !ops[i].GrowOp?
    ensures Grown(c, ops) == 0
  {
    if ops != [] {
      UnmodifiedMapsDoNotGrow(c, ops[..|ops| - 1]);
    }
  }

  /** So over every run on unmodified maps stored bytes never exceed the counter, which never exceeds a
      positive limit. */
  lemma UnmodifiedRunStaysWithinBudget<K>(c: Cache<K>, ops: seq<Op<K>>)
    requires c.items == map[] && c.total == 0 && forall i | 0 <= i < |ops| :: !ops[i].GrowOp?
    ensures WithinBudget(Run(c, ops))
  {
    UnmodifiedMapsDoNotGrow(c, ops);
    RunStaysWithinBudget(c, ops);
  }

  /** The call asked for the key, or stored under it, at this time. */
  predicate Touches<K(==)>(op: Op<K>, key: K, at: int) {
    !op.GrowOp? && op.key == key && op.now == at
  }

  ghost predicate TouchedAt<K>(ops: seq<Op<K>>, key: K, at: int) {
    exists i :: 0 <= i < |ops| && Touches(ops[i], key, at)
  }

  lemma {:induction false} LastUseIsATouch<K>(c: Cache<K>, ops: seq<Op<K>>, key: K)
    requires c.items == map[] && key in Run(c, ops).items
    ensures TouchedAt(ops, key, Run(c, ops).items[key].lastUsed)
  {
    hide Stored, ExpiredKeys;
    var init, op := ops[..|ops| - 1], ops[|ops| - 1];
    var before, at := Run(c, init), Run(c, ops).items[key].lastUsed;
    if Touches(op, key, at) {
      assert Touches(ops[|ops| - 1], key, at);
    } else {
      LastUseStays(before, op, key);
      LastUseIsATouch(c, init, key);
      var i :| 0 <= i < |init| && Touches(init[i], key, at);
      assert Touches(ops[i], key, at);
    }
  }

  /** A call changes the last use of no other entry, and sets it to its own time. */
  lemma LastUseStays<K>(c: Cache<K>, op: Op<K>, key: K)
    requires key in Step(c, op).items && !Touches(op, key, Step(c, op).items[key].lastUsed)
    ensures key in c.items && c.items[key].lastUsed == Step(c, op).items[key].lastUsed
  {
    hide Stored, ExpiredKeys;
  }

  /** Over every run: whatever is hit was asked for or stored within the time to live; and a sweep leaves no expired
      map behind. */
  lemma HitIsFresh<K>(c: Cache<K>, ops: seq<Op<K>>, key: K, now: int)
    requires c.items == map[]
    ensures Hit(Run(c, ops), key, now) ==> exists at :: now - at <= TTL && TouchedAt(ops, key, at)
    ensures var d := Run(c, ops);
      !(d.lastSweep.Some? && now - d.lastSweep.value < SWEEP_FREQUENCY) ==>
        forall k <- Sweep(d, now).items :: !Expired(Sweep(d, now).items[k].lastUsed, now)
  {
    hide Run, TouchedAt;
    if Hit(Run(c, ops), key, now) {
      LastUseIsATouch(c, ops, key);
    }
  }

  /** A map that fits: its own size, and with it the counter once expired maps are swept, stay within the limit. */
  predicate FitsIn(limit: int, total: int, bytes: nat) {
    limit <= 0 || (bytes <= limit && total + bytes <= limit)
  }

  /** A map is stored exactly if it fits, and then it is hit until it has been idle for longer than the time to live;
      otherwise the key keeps what it had. */
  lemma StoredExactlyIfItFits<K>(c: Cache<K>, key: K, bytes: nat, now: int, later: int)
    ensures var s, stored := Sweep(c, now), AfterSet(c, key, bytes, now);
      if FitsIn(c.limit, s.total, bytes)
      then key in stored.items && stored.items[key] == Slot(bytes, now)
      else stored == s
    ensures var stored := AfterSet(c, key, bytes, now);
      FitsIn(c.limit, Sweep(c, now).total, bytes) ==> (Hit(stored, key, later) <==> later - now <= TTL)
    ensures forall k | k != key ::
      (k in AfterSet(c, key, bytes, now).items <==> k in Sweep(c, now).items) &&
      (k in Sweep(c, now).items ==> AfterSet(c, key, bytes, now).items[k] == Sweep(c, now).items[k])
  {
    SweepKeepsLimit(c, now);
    var stored := AfterSet(c, key, bytes, now);
    if FitsIn(c.limit, Sweep(c, now).total, bytes) {
      HitIsUnexpired(stored, key, later);
    }
  }

  /** A hit renews: afterwards the key is hit until it has again been idle for longer than the time to live, and the
      other entries are untouched. */
  lemma HitRenews<K>(c: Cache<K>, key: K, now: int, later: int)
    requires Hit(c, key, now)
    ensures Hit(AfterGet(c, key, now).0, key, later) <==> later - now <= TTL
    ensures forall k | k != key ::
      (k in AfterGet(c, key, now).0.items <==> k in Sweep(c, now).items) &&
      (k in Sweep(c, now).items ==> AfterGet(c, key, now).0.items[k] == Sweep(c, now).items[k])
  {
    HitIsUnexpired(AfterGet(c, key, now).0, key, later);
  }

  /** Swept or not, an entry is hit exactly if it is not expired. */
  lemma HitIsUnexpired<K>(c: Cache<K>, key: K, now: int)
    ensures Hit(c, key, now) <==> key in c.items && now - c.items[key].lastUsed <= TTL
  {
    hide Stored, Restricted;
  }

  lemma SweepKeepsLimit<K>(c: Cache<K>, now: int)
    ensures Sweep(c, now).limit == c.limit
  {
  }

  /** A call of get leaks exactly when the entry expired although the sweep was skipped. */
  lemma GetLeaksExactlyBetweenSweeps<K>(c: Cache<K>, key: K, now: int)
    ensures AfterGet(c, key, now).1 > 0 <==>
            && c.lastSweep.Some? && now - c.lastSweep.value < SWEEP_FREQUENCY
            && key in c.items && Expired(c.items[key].lastUsed, now) && c.items[key].bytes > 0
  {
  }

  /** One growth breaks the budget exactly when it outruns what the counter is ahead by. */
  lemma GrowthBreaksTheBudget<K>(c: Cache<K>, ahead: int, key: K, grown: nat)
    requires Accounted(c, ahead) && key in c.items && (c.limit > 0 ==> c.total <= c.limit)
    ensures WithinBudget(AfterGrow(c, {key}, grown)) <==> grown <= c.items[key].bytes + ahead
  {
    GrowAccounts(c.items, {key}, grown);
    assert {key} - {key} == {};
  }

  // ----- the cache object -----

  /** A stored value, shared with everyone it was handed out to, and when it was last used. */
  datatype Entry<V> = Entry(value: V, lastUsed: int)

  ghost function Slots<K, V>(sizeOf: V -> nat, items: map<K, Entry<V>>): map<K, Slot> {
    map k | k in items :: Slot(sizeOf(items[k].value), items[k].lastUsed)
  }

  lemma SlotsWith<K, V>(sizeOf: V -> nat, items: map<K, Entry<V>>, key: K, e: Entry<V>)
    ensures Slots(sizeOf, items[key := e]) == Slots(sizeOf, items)[key := Slot(sizeOf(e.value), e.lastUsed)]
  {
  }

  lemma SlotAt<K, V>(sizeOf: V -> nat, items: map<K, Entry<V>>, key: K)
    ensures key in Slots(sizeOf, items) <==> key in items
    ensures key in items ==> Slots(sizeOf, items)[key] == Slot(sizeOf(items[key].value), items[key].lastUsed)
  {
  }

  lemma SlotsWithout<K, V>(sizeOf: V -> nat, items: map<K, Entry<V>>, keys: set<K>)
    ensures Slots(sizeOf, items - keys) == Slots(sizeOf, items) - keys
  {
  }

  lemma SlotsResized<K, V>(before: V -> nat, sizeOf: V -> nat, items: map<K, Entry<V>>, keys: set<K>, value: V)
    requires forall v: V :: v != value ==> sizeOf(v) == before(v)
    requires forall k <- items :: k in keys <==> items[k].value == value
    ensures Slots(sizeOf, items) == Resized(Slots(before, items), keys, sizeOf(value))
  {
  }

  /** The cache object. Values are handed out as they are (references, in the repository); `sizeOf` is what
      estimateAliasMapBytes finds for each of them at present. */
  class AliasMapCache<K(==), V(==)> {
    var items: map<K, Entry<V>>
    var lastSweep: Option<int>
    var totalBytes: int
    var maxBytes: int
    var sizeOf: V -> nat

    constructor (sizeOf: V -> nat, maxBytes: int)
      ensures items == map[] && View() == Cache(map[], 0, None, maxBytes) && this.sizeOf == sizeOf
    {
      this.sizeOf, this.maxBytes, items, totalBytes, lastSweep := sizeOf, maxBytes, map[], 0, None;
    }

    ghost function View(): Cache<K>
      reads this
    {
      Cache(Slots(sizeOf, items), totalBytes, lastSweep, maxBytes)
    }

    /** SetAliasCacheMaxBytes */
    method SetMaxBytes(maxBytes: int)
      modifies this`maxBytes
      ensures View() == old(View()).(limit := maxBytes) && items == old(items)
    {
      this.maxBytes := maxBytes;
    }

    /** What happens to the cache when somebody who holds `value` lets it grow. */
    method Grow(value: V, bytes: nat)
      modifies this`sizeOf
      ensures View() == AfterGrow(old(View()), KeysOf(value), bytes)
      ensures sizeOf(value) == bytes && forall v: V :: v != value ==> sizeOf(v) == old(sizeOf)(v)
    {
      hide Slots, Resized;
      var before := sizeOf;
      sizeOf := v => if v == value then bytes else before(v);
      SlotsResized(before, sizeOf, items, KeysOf(value), value);
    }

    ghost function KeysOf(value: V): set<K>
      reads this
    {
      set k | k in items && items[k].value == value
    }

    /** maybeSweepLocked: entries in any order, deleting while iterating. */
    method MaybeSweep(now: int)
      modifies this`items, this`totalBytes, this`lastSweep
      ensures View() == Sweep(old(View()), now)
      ensures forall k <- items :: k in old(items) && items[k] == old(items)[k]
    {
      hide Stored, Slots, Restricted;
      if lastSweep.Some? && now - lastSweep.value < SWEEP_FREQUENCY {
        return;
      }
      ghost var gone: set<K>, all, slots := {}, items, Slots(sizeOf, items);
      NothingGone(slots);
      var todo := items.Keys;
      while todo != {}
        invariant todo <= all.Keys && items == all - gone && gone <= all.Keys - todo
        invariant forall k <- all.Keys - todo :: k in gone <==> Expired(all[k].lastUsed, now)
        invariant totalBytes == old(totalBytes) - Stored(Restricted(slots, gone))
      {
        var key :| key in todo;
        var entry := items[key];
        todo := todo - {key};
        SlotAt(sizeOf, all, key);
        if Expired(entry.lastUsed, now) {
          DropOne(slots, gone, key);
          items := items - {key};
          totalBytes := totalBytes - sizeOf(entry.value);
          gone := gone + {key};
        }
      }
      lastSweep := Some(now);
      forall k: K ensures k in gone <==> k in ExpiredKeys(slots, now) {
        SlotAt(sizeOf, all, k);
      }
      assert gone == ExpiredKeys(slots, now);
      SlotsWithout(sizeOf, all, gone);
    }

    /** get */
    method Get(key: K, now: int) returns (found: Option<V>)
      modifies this`items, this`totalBytes, this`lastSweep
      ensures View() == AfterGet(old(View()), key, now).0
      ensures found.Some? <==> Hit(old(View()), key, now)
      ensures found.Some? ==> key in old(items) && found.value == old(items)[key].value
      ensures forall k <- items :: k in old(items) && items[k].value == old(items)[k].value
    {
      hide Sweep, Slots;
      MaybeSweep(now);
      SlotAt(sizeOf, items, key);
      if key !in items {
        return None;
      }
      var entry := items[key];
      if Expired(entry.lastUsed, now) {
        SlotsWithout(sizeOf, items, {key});
        items := items - {key};
        return None;
      }
      SlotsWith(sizeOf, items, key, entry.(lastUsed := now));
      items := items[key := entry.(lastUsed := now)];
      return Some(entry.value);
    }

    /** set */
    method Set(key: K, value: V, now: int)
      modifies this`items, this`totalBytes, this`lastSweep
      ensures View() == AfterSet(old(View()), key, sizeOf(value), now)
      ensures forall k <- items :: items[k].value == value || (k in old(items) && items[k].value == old(items)[k].value)
      ensures forall k <- items | k != key :: k in old(items) && items[k].value == old(items)[k].value
    {
      hide Sweep, Slots;
      MaybeSweep(now);
      var sizeBytes := sizeOf(value);
      if maxBytes > 0 && sizeBytes > maxBytes {
        return;
      }
      if maxBytes > 0 && totalBytes + sizeBytes > maxBytes {
        return;
      }
      SlotAt(sizeOf, items, key);
      SlotsWith(sizeOf, items, key, Entry(value, now));
      if key in items {
        totalBytes := totalBytes - sizeOf(items[key].value);
      }
      items := items[key := Entry(value, now)];
      totalBytes := totalBytes + sizeBytes;
    }
  }

  lemma NothingGone<K>(items: map<K, Slot>)
    ensures Stored(Restricted(items, {})) == 0
  {
    assert Restricted(items, {}) == map[];
  }

  lemma DropOne<K>(items: map<K, Slot>, gone: set<K>, key: K)
    requires key in items && key !in gone
    ensures Stored(Restricted(items, gone + {key})) == Stored(Restricted(items, gone)) + items[key].bytes
  {
    StoredWithout(Restricted(items, gone + {key}), key);
    assert Restricted(items, gone + {key}) - {key} == Restricted(items, gone);
  }
}
