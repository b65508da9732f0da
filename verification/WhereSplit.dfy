/** Compiling a filter tree into WHERE and HAVING (internal/model/BuildWhereClause.go).
    Object keys are visited in an arbitrary order, as Go does. */
module WhereSplit {
  import opened Common
  import opened Schema
  import opened Filters

  /** `resolve` is resolveField (None when it gives no expression), `aggregate` is isAggregateExpr. */
  datatype Context = Context(resolve: Path -> Option<Expr>, aggregate: Expr -> bool)

  // ----- one key: buildCond -----

  predicate EndsInCs(op: string) {
    |op| >= 3 && op[|op| - 3..] == "_cs"
  }

  function BaseOp(op: string): string {
    if EndsInCs(op) then op[..|op| - 3] else op
  }

  /** Whether an operator applied to a value yields a condition at all. */
  predicate Applies(baseOp: string, val: Value) {
    if baseOp in ["eq", "in", "lt", "lte", "gt", "gte", "is_null", "not_null"] then true
    else if baseOp in ["start", "end", "cnt", "not_cnt"] then val.Text?
    else baseOp == "null" && val.Flag?
  }

  function OpOf(suffix: Option<string>): string {
    if suffix.None? then "eq" else suffix.value
  }

  function FieldPart(ctx: Context, field: Path, op: string, val: Value): seq<Cond> {
    var expr := ctx.resolve(field);
    if expr.Some? && Applies(BaseOp(op), val) then [Is(Atom(expr.value, BaseOp(op), EndsInCs(op), val))] else []
  }

  function FieldParts(ctx: Context, fields: seq<Path>, op: string, val: Value): seq<Cond> {
    if fields == [] then []
    else FieldParts(ctx, fields[..|fields| - 1], op, val) + FieldPart(ctx, fields[|fields| - 1], op, val)
  }

  function Combine(anyOf: bool, parts: seq<Cond>): Option<Cond> {
    if parts == [] then None
    else if |parts| == 1 then Some(parts[0])
    else Some(if anyOf then Any(parts) else All(parts))
  }

  /** The condition of one field key. */
  function FieldCond(ctx: Context, fields: seq<Path>, anyOf: bool, suffix: Option<string>, val: Value): Option<Cond> {
    Combine(anyOf, FieldParts(ctx, fields, OpOf(suffix), val))
  }

  /** The condition of a key read as a field key. */
  function KeyCond(ctx: Context, key: Key, val: Value): Option<Cond> {
    match key
    case Field(first, more, anyOf, suffix) => FieldCond(ctx, [first] + more, anyOf, suffix, val)
    case _ => FieldCond(ctx, [KeyField(key)], false, None, val)
  }

  predicate HasAggregate(ctx: Context, c: Cond) {
    exists a <- Atoms(c) :: ctx.aggregate(a.expr)
  }

  predicate AnyAggregate(ctx: Context, parts: seq<Cond>) {
    exists a <- AtomsOfParts(parts) :: ctx.aggregate(a.expr)
  }

  lemma AtomsOfOneMore(parts: seq<Cond>, part: Cond)
    ensures AtomsOfParts(parts + [part]) == AtomsOfParts(parts) + Atoms(part)
  {
    assert (parts + [part])[..|parts|] == parts;
  }

  lemma AtomsOfCombined(anyOf: bool, parts: seq<Cond>)
    requires parts != []
    ensures Atoms(Combine(anyOf, parts).value) == AtomsOfParts(parts)
  {
    if |parts| == 1 {
      assert parts[..0] == [];
    }
  }

  lemma NextField(ctx: Context, fields: seq<Path>, i: nat, op: string, val: Value)
    requires i < |fields|
    ensures FieldParts(ctx, fields[..i + 1], op, val)
         == FieldParts(ctx, fields[..i], op, val) + FieldPart(ctx, fields[i], op, val)
  {
    assert fields[..i + 1][..i] == fields[..i];
  }

  /** buildCond: a condition on an aggregate expression marks the whole key as aggregate. */
  method BuildCond(ctx: Context, fields: seq<Path>, anyOf: bool, suffix: Option<string>, val: Value)
    returns (c: Option<Cond>, agg: bool)
    ensures c == FieldCond(ctx, fields, anyOf, suffix, val) && MeansFields(ctx, fields, anyOf, suffix, val, c)
    ensures agg <==> c.Some? && HasAggregate(ctx, c.value)
  {
    var op := OpOf(suffix);
    var parts: seq<Cond> := [];
    var hasAgg := false;
    hide FieldParts, Atoms, EndsInCs, BaseOp, AtomOfFields, FieldsReach, AtLeast;
    assert fields[..0] == [] && FieldParts(ctx, [], op, val) == [] by { NoFields(ctx, op, val); }
    NoAtoms();
    for i := 0 to |fields|
      invariant parts == FieldParts(ctx, fields[..i], op, val)
      invariant Applies(BaseOp(op), val) ==> hasAgg == AnyAggregate(ctx, parts)
      invariant !Applies(BaseOp(op), val) ==> parts == []
    {
      NextField(ctx, fields, i, op, val);
      var expr := ctx.resolve(fields[i]);
      if expr.None? {
        continue;
      }
      if ctx.aggregate(expr.value) {
        hasAgg := true;
      }
      if Applies(BaseOp(op), val) {
        var part := Is(Atom(expr.value, BaseOp(op), EndsInCs(op), val));
        AtomsOfOneMore(parts, part);
        AtomsOfAtom(part.atom);
        AggregateOfOneMore(ctx, parts, part);
        parts := parts + [part];
      }
    }
    assert fields[..|fields|] == fields;
    c := Combine(anyOf, parts);
    if parts != [] {
      AtomsOfCombined(anyOf, parts);
    }
    agg := parts != [] && hasAgg;
    forall sigma: Assignment, least: Truth | least != False
      ensures c.Some? ==> (AtLeast(Eval(c.value, sigma), least) <==>
                           FieldsReach(ctx, fields, anyOf, suffix, val, sigma, least))
      ensures c.Some? <==> exists a: Atom :: AtomOfFields(ctx, fields, suffix, val, a)
    {
      FieldCondMeans(ctx, fields, anyOf, suffix, val, sigma, least);
    }
    FieldCondMeans(ctx, fields, anyOf, suffix, val, ALL_TRUE, True);
  }

  lemma NoFields(ctx: Context, op: string, val: Value)
    ensures FieldParts(ctx, [], op, val) == []
  {
  }

  lemma NoAtoms()
    ensures AtomsOfParts([]) == {}
  {
  }

  lemma AtomsOfAtom(a: Atom)
    ensures Atoms(Is(a)) == {a}
  {
  }

  lemma AggregateOfOneMore(ctx: Context, parts: seq<Cond>, part: Cond)
    ensures AnyAggregate(ctx, parts + [part]) <==> AnyAggregate(ctx, parts) || HasAggregate(ctx, part)
  {
    AtomsOfOneMore(parts, part);
    if AnyAggregate(ctx, parts) {
      var a :| a in AtomsOfParts(parts) && ctx.aggregate(a.expr);
      assert a in AtomsOfParts(parts + [part]);
    }
    if HasAggregate(ctx, part) {
      var a :| a in Atoms(part) && ctx.aggregate(a.expr);
      assert a in AtomsOfParts(parts + [part]);
    }
  }

  // ----- what a filter tree means, independent of any order of keys -----

  predicate GroupBuilds(ctx: Context, f: Filter)
    decreases f, 2
  {
    exists k <- f.entries :: EntryBuilds(ctx, k, f.entries[k])
  }

  predicate EntryBuilds(ctx: Context, key: Key, val: Value)
    decreases val, 1
  {
    if !key.Field? && val.Nested? then GroupBuilds(ctx, val.filter)
    else if !key.Field? && val.List? then exists item <- val.items :: ItemBuilds(ctx, item)
    else KeyCond(ctx, key, val).Some?
  }

  predicate ItemBuilds(ctx: Context, item: Value)
    decreases item, 3
  {
    item.Nested? && GroupBuilds(ctx, item.filter)
  }

  /** The conjunction over the keys in `done` that build a condition. */
  ghost function MeetOver(ctx: Context, f: Filter, done: set<Key>, sigma: Assignment): Truth
    decreases f, 3
  {
    if exists k <- done ::
      k in f.entries && EntryBuilds(ctx, k, f.entries[k]) && EntryMeaning(ctx, k, f.entries[k], sigma) == False
    then False
    else if exists k <- done ::
      k in f.entries && EntryBuilds(ctx, k, f.entries[k]) && EntryMeaning(ctx, k, f.entries[k], sigma) == Unknown
    then Unknown
    else True
  }

  /** The disjunction over the keys in `done` that build a condition. */
  ghost function JoinOver(ctx: Context, f: Filter, done: set<Key>, sigma: Assignment): Truth
    decreases f, 3
  {
    if exists k <- done ::
      k in f.entries && EntryBuilds(ctx, k, f.entries[k]) && EntryMeaning(ctx, k, f.entries[k], sigma) == True then True
    else if exists k <- done ::
      k in f.entries && EntryBuilds(ctx, k, f.entries[k]) && EntryMeaning(ctx, k, f.entries[k], sigma) == Unknown
    then Unknown
    else False
  }

  ghost function GroupMeaning(ctx: Context, f: Filter, anyOf: bool, sigma: Assignment): Truth
    decreases f, 4
  {
    if anyOf then JoinOver(ctx, f, f.entries.Keys, sigma) else MeetOver(ctx, f, f.entries.Keys, sigma)
  }

  ghost function EntryMeaning(ctx: Context, key: Key, val: Value, sigma: Assignment): Truth
    requires EntryBuilds(ctx, key, val)
    decreases val, 1
  {
    if !key.Field? && val.Nested? then GroupMeaning(ctx, val.filter, key.Or?, sigma)
    else if !key.Field? && val.List? then ItemsMeaning(ctx, val.items, key.Or?, sigma)
    else Eval(KeyCond(ctx, key, val).value, sigma)
  }

  /** Each element of an array is a group of its own. */
  ghost function ItemsMeaning(ctx: Context, items: seq<Value>, anyOf: bool, sigma: Assignment): Truth
    decreases items, 0
  {
    if items == [] then if anyOf then False else True
    else
      var rest, last := ItemsMeaning(ctx, items[..|items| - 1], anyOf, sigma), items[|items| - 1];
      if !ItemBuilds(ctx, last) then rest
      else if anyOf then Join(rest, ItemMeaning(ctx, last, sigma))
      else Meet(rest, ItemMeaning(ctx, last, sigma))
  }

  ghost function ItemMeaning(ctx: Context, item: Value, sigma: Assignment): Truth
    requires ItemBuilds(ctx, item)
    decreases item, 5
  {
    GroupMeaning(ctx, item.filter, false, sigma)
  }

  // ----- the same meaning read off the tree -----

  const VALUE_OPERATORS := {"eq", "in", "lt", "lte", "gt", "gte", "is_null", "not_null"}
  const TEXT_OPERATORS := {"start", "end", "cnt", "not_cnt"}

  /** The key asks this of one of its fields: its expression, the operator without "_cs", the case flag, the value. */
  ghost predicate AtomOf(ctx: Context, field: Path, suffix: Option<string>, val: Value, a: Atom) {
    && ctx.resolve(field) == Some(a.expr) && a.val == val
    && (a.op in VALUE_OPERATORS || (a.op in TEXT_OPERATORS && val.Text?) || (a.op == "null" && val.Flag?))
    && var op := if suffix.None? then "eq" else suffix.value;
       if a.caseSensitive then op == a.op + "_cs" else op == a.op && forall base: string :: op != base + "_cs"
  }

  ghost predicate AtomOfFields(ctx: Context, fields: seq<Path>, suffix: Option<string>, val: Value, a: Atom) {
    exists field <- fields :: AtomOf(ctx, field, suffix, val, a)
  }

  ghost predicate AtomOfKey(ctx: Context, key: Key, val: Value, a: Atom) {
    match key
    case Field(first, more, _, suffix) => AtomOfFields(ctx, [first] + more, suffix, val, a)
    case Or => AtomOf(ctx, ["or"], None, val, a)
    case And => AtomOf(ctx, ["and"], None, val, a)
  }

  /** "_or_" asks for one of them, "_and_" for all. */
  ghost predicate FieldsReach(ctx: Context, fields: seq<Path>, anyOf: bool, suffix: Option<string>, val: Value,
                              sigma: Assignment, least: Truth)
  {
    if anyOf then exists a: Atom :: AtomOfFields(ctx, fields, suffix, val, a) && AtLeast(sigma(a), least)
    else forall a: Atom | AtomOfFields(ctx, fields, suffix, val, a) :: AtLeast(sigma(a), least)
  }

  ghost predicate MeansFields(ctx: Context, fields: seq<Path>, anyOf: bool, suffix: Option<string>, val: Value,
                              c: Option<Cond>)
  {
    && (c.Some? <==> exists a: Atom :: AtomOfFields(ctx, fields, suffix, val, a))
    && forall sigma: Assignment, least: Truth | c.Some? && least != False ::
         AtLeast(Eval(c.value, sigma), least) <==> FieldsReach(ctx, fields, anyOf, suffix, val, sigma, least)
  }

  /** Whether a truth value reaches a threshold: being true, or at least not false. */
  predicate AtLeast(t: Truth, least: Truth) {
    t == True || (least == Unknown && t == Unknown)
  }

  /** Whether an entry asks for anything at all. */
  ghost predicate EntryAsks(ctx: Context, key: Key, val: Value)
    decreases val, 1
  {
    if !key.Field? && val.Nested? then GroupAsks(ctx, val.filter)
    else if !key.Field? && val.List? then exists item <- val.items :: ItemAsks(ctx, item)
    else exists a: Atom :: AtomOfKey(ctx, key, val, a)
  }

  ghost predicate GroupAsks(ctx: Context, f: Filter)
    decreases f, 2
  {
    exists k <- f.entries :: EntryAsks(ctx, k, f.entries[k])
  }

  ghost predicate ItemAsks(ctx: Context, item: Value)
    decreases item, 3
  {
    item.Nested? && GroupAsks(ctx, item.filter)
  }

  /** Under `or` and in "_or_" keys one of those that ask for something has to reach the threshold, otherwise all. */
  ghost predicate GroupReaches(ctx: Context, f: Filter, anyOf: bool, sigma: Assignment, least: Truth)
    decreases f, 4
  {
    if anyOf
    then exists k <- f.entries :: EntryAsks(ctx, k, f.entries[k]) && EntryReaches(ctx, k, f.entries[k], sigma, least)
    else forall k <- f.entries :: EntryAsks(ctx, k, f.entries[k]) ==> EntryReaches(ctx, k, f.entries[k], sigma, least)
  }

  ghost predicate EntryReaches(ctx: Context, key: Key, val: Value, sigma: Assignment, least: Truth)
    decreases val, 1
  {
    if !key.Field? && val.Nested? then GroupReaches(ctx, val.filter, key.Or?, sigma, least)
    else if key.Or? && val.List? then
      exists item <- val.items :: ItemAsks(ctx, item) && ItemReaches(ctx, item, sigma, least)
    else if key.And? && val.List? then
      forall item <- val.items :: ItemAsks(ctx, item) ==> ItemReaches(ctx, item, sigma, least)
    else if key.Field? && key.anyOf then exists a: Atom :: AtomOfKey(ctx, key, val, a) && AtLeast(sigma(a), least)
    else forall a: Atom | AtomOfKey(ctx, key, val, a) :: AtLeast(sigma(a), least)
  }

  ghost predicate ItemReaches(ctx: Context, item: Value, sigma: Assignment, least: Truth)
    decreases item, 5
  {
    item.Nested? && GroupReaches(ctx, item.filter, false, sigma, least)
  }

  lemma SuffixIsParsed(op: string, base: string, cs: bool)
    ensures (BaseOp(op) == base && EndsInCs(op) == cs) <==>
            if cs then op == base + "_cs" else op == base && forall b: string :: op != b + "_cs"
  {
    if EndsInCs(op) {
      assert op == op[..|op| - 3] + "_cs";
    }
    forall b: string | op == b + "_cs" ensures EndsInCs(op) && op[..|op| - 3] == b {
    }
  }

  lemma FieldPartIs(ctx: Context, field: Path, suffix: Option<string>, val: Value, c: Cond)
    ensures c in FieldPart(ctx, field, OpOf(suffix), val) <==> c.Is? && AtomOf(ctx, field, suffix, val, c.atom)
  {
    hide EndsInCs, BaseOp;
    if c.Is? {
      SuffixIsParsed(OpOf(suffix), c.atom.op, c.atom.caseSensitive);
    }
    SuffixIsParsed(OpOf(suffix), BaseOp(OpOf(suffix)), EndsInCs(OpOf(suffix)));
  }

  lemma {:induction false} FieldPartsAre(ctx: Context, fields: seq<Path>, suffix: Option<string>, val: Value, c: Cond)
    ensures c in FieldParts(ctx, fields, OpOf(suffix), val) <==>
            c.Is? && AtomOfFields(ctx, fields, suffix, val, c.atom)
  {
    hide FieldPart, AtomOf, OpOf;
    if fields != [] {
      var init, last := fields[..|fields| - 1], fields[|fields| - 1];
      assert fields == init + [last];
      FieldPartsAre(ctx, init, suffix, val, c);
      FieldPartIs(ctx, last, suffix, val, c);
    }
  }

  lemma {:induction false} EvalOfAtoms(parts: seq<Cond>, sigma: Assignment, least: Truth)
    requires least != False && forall c <- parts :: c.Is?
    ensures AtLeast(EvalAny(parts, sigma), least) <==> exists a: Atom :: Is(a) in parts && AtLeast(sigma(a), least)
    ensures AtLeast(EvalAll(parts, sigma), least) <==> forall a: Atom :: Is(a) in parts ==> AtLeast(sigma(a), least)
  {
    if parts != [] {
      var init, last := parts[..|parts| - 1], parts[|parts| - 1];
      assert parts == init + [last] && last == Is(last.atom);
      EvalOfAtoms(init, sigma, least);
    }
  }

  /** The condition of a composite key means what is asked of its fields, joined as the key says. */
  lemma FieldCondMeans(ctx: Context, fields: seq<Path>, anyOf: bool, suffix: Option<string>, val: Value,
                       sigma: Assignment, least: Truth)
    requires least != False
    ensures var c := FieldCond(ctx, fields, anyOf, suffix, val);
      && (c.Some? <==> exists a: Atom :: AtomOfFields(ctx, fields, suffix, val, a))
      && (c.Some? ==> (AtLeast(Eval(c.value, sigma), least) <==>
                       FieldsReach(ctx, fields, anyOf, suffix, val, sigma, least)))
  {
    hide FieldParts, AtomOfFields, OpOf, AtLeast;
    var parts := FieldParts(ctx, fields, OpOf(suffix), val);
    forall c: Cond ensures c in parts <==> c.Is? && AtomOfFields(ctx, fields, suffix, val, c.atom) {
      FieldPartsAre(ctx, fields, suffix, val, c);
    }
    forall a: Atom ensures Is(a) in parts <==> AtomOfFields(ctx, fields, suffix, val, a) {
      FieldPartsAre(ctx, fields, suffix, val, Is(a));
    }
    EvalOfAtoms(parts, sigma, least);
    if parts != [] {
      assert parts[0] in parts && Is(parts[0].atom) in parts;
      if |parts| == 1 {
        assert forall c <- parts :: c == parts[0];
      }
    }
  }

  lemma PlainKeyMeans(ctx: Context, key: Key, val: Value, sigma: Assignment, least: Truth)
    requires least != False
    ensures var c := KeyCond(ctx, key, val);
      && (c.Some? <==> exists a: Atom :: AtomOfKey(ctx, key, val, a))
      && (c.Some? ==> (AtLeast(Eval(c.value, sigma), least) <==>
            if key.Field? && key.anyOf then exists a: Atom :: AtomOfKey(ctx, key, val, a) && AtLeast(sigma(a), least)
            else forall a: Atom | AtomOfKey(ctx, key, val, a) :: AtLeast(sigma(a), least)))
  {
    hide FieldCond, AtomOf, AtLeast, Eval;
    match key
    case Field(first, more, anyOf, suffix) =>
      FieldCondMeans(ctx, [first] + more, anyOf, suffix, val, sigma, least);
      assert forall a: Atom :: AtomOfKey(ctx, key, val, a) <==> AtomOfFields(ctx, [first] + more, suffix, val, a);
    case _ =>
      FieldCondMeans(ctx, [KeyField(key)], false, None, val, sigma, least);
      assert forall a: Atom :: AtomOfKey(ctx, key, val, a) <==> AtomOfFields(ctx, [KeyField(key)], None, val, a);
  }

  lemma {:induction false} EntryMeans(ctx: Context, key: Key, val: Value, sigma: Assignment, least: Truth)
    requires least != False
    ensures EntryBuilds(ctx, key, val) <==> EntryAsks(ctx, key, val)
    ensures EntryBuilds(ctx, key, val) ==>
      (AtLeast(EntryMeaning(ctx, key, val, sigma), least) <==> EntryReaches(ctx, key, val, sigma, least))
    decreases val, 1
  {
    hide AtomOfKey, AtLeast, KeyCond, GroupBuilds, GroupAsks, GroupReaches, GroupMeaning, ItemsMeaning, Eval,
         ItemBuilds, ItemAsks, ItemReaches;
    if !key.Field? && val.Nested? {
      GroupMeans(ctx, val.filter, key.Or?, sigma, least);
    } else if !key.Field? && val.List? {
      ItemsMean(ctx, val.items, |val.items|, key.Or?, sigma, least);
      assert val.items[..|val.items|] == val.items;
    } else {
      PlainKeyMeans(ctx, key, val, sigma, least);
    }
  }

  lemma {:induction false} GroupMeans(ctx: Context, f: Filter, anyOf: bool, sigma: Assignment, least: Truth)
    requires least != False
    ensures GroupBuilds(ctx, f) <==> GroupAsks(ctx, f)
    ensures AtLeast(GroupMeaning(ctx, f, anyOf, sigma), least) <==> GroupReaches(ctx, f, anyOf, sigma, least)
    decreases f, 4
  {
    hide EntryBuilds, EntryAsks, EntryMeaning, EntryReaches;
    forall k <- f.entries
      ensures EntryBuilds(ctx, k, f.entries[k]) <==> EntryAsks(ctx, k, f.entries[k])
      ensures EntryBuilds(ctx, k, f.entries[k]) ==>
        (AtLeast(EntryMeaning(ctx, k, f.entries[k], sigma), least) <==>
         EntryReaches(ctx, k, f.entries[k], sigma, least))
    {
      EntryMeans(ctx, k, f.entries[k], sigma, least);
    }
  }

  lemma {:induction false} ItemMeans(ctx: Context, item: Value, sigma: Assignment, least: Truth)
    requires least != False
    ensures ItemBuilds(ctx, item) <==> ItemAsks(ctx, item)
    ensures ItemBuilds(ctx, item) ==>
      (AtLeast(ItemMeaning(ctx, item, sigma), least) <==> ItemReaches(ctx, item, sigma, least))
    decreases item, 5
  {
    hide GroupBuilds, GroupAsks, GroupMeaning, GroupReaches;
    if item.Nested? {
      GroupMeans(ctx, item.filter, false, sigma, least);
    }
  }

  lemma {:induction false} ItemsMean(ctx: Context, items: seq<Value>, n: nat, anyOf: bool, sigma: Assignment,
                                     least: Truth)
    requires least != False && n <= |items|
    ensures forall i | 0 <= i < n :: ItemBuilds(ctx, items[i]) <==> ItemAsks(ctx, items[i])
    ensures AtLeast(ItemsMeaning(ctx, items[..n], anyOf, sigma), least) <==>
      if anyOf then exists i | 0 <= i < n :: ItemAsks(ctx, items[i]) && ItemReaches(ctx, items[i], sigma, least)
      else forall i | 0 <= i < n :: ItemAsks(ctx, items[i]) ==> ItemReaches(ctx, items[i], sigma, least)
    decreases items, 0, n
  {
    hide GroupBuilds, GroupAsks, GroupMeaning, GroupReaches;
    if n > 0 {
      assert items[..n][..n - 1] == items[..n - 1];
      ItemsMean(ctx, items, n - 1, anyOf, sigma, least);
      ItemMeans(ctx, items[n - 1], sigma, least);
    }
  }

  /** For every filter tree: the unsplit condition is true, or not false, exactly where the tree says so. */
  lemma UnsplitMeans(ctx: Context, f: Filter, sigma: Assignment)
    ensures Unsplit(ctx, f, sigma) == True <==> GroupReaches(ctx, f, false, sigma, True)
    ensures Unsplit(ctx, f, sigma) != False <==> GroupReaches(ctx, f, false, sigma, Unknown)
  {
    hide GroupMeaning;
    GroupMeans(ctx, f, false, sigma, True);
    GroupMeans(ctx, f, false, sigma, Unknown);
  }

  // ----- what the compiled parts must satisfy -----

  /** `c` compiles one key. */
  ghost predicate EntryCompiled(ctx: Context, key: Key, val: Value, c: Option<Cond>, agg: bool) {
    && (c.Some? <==> EntryBuilds(ctx, key, val))
    && (agg <==> c.Some? && HasAggregate(ctx, c.value))
    && (c.Some? ==> forall sigma: Assignment :: Eval(c.value, sigma) == EntryMeaning(ctx, key, val, sigma))
    && (c.Some? ==> forall a <- Atoms(c.value) :: exists p ::
      EntryMentions(key, val, p) && ctx.resolve(p) == Some(a.expr))
  }

  /** `c` compiles a whole group. */
  ghost predicate GroupCompiled(ctx: Context, f: Filter, anyOf: bool, c: Option<Cond>, agg: bool) {
    && (c.Some? <==> GroupBuilds(ctx, f))
    && (agg <==> c.Some? && HasAggregate(ctx, c.value))
    && (c.Some? ==> forall sigma: Assignment :: Eval(c.value, sigma) == GroupMeaning(ctx, f, anyOf, sigma))
    && (c.Some? ==> forall a <- Atoms(c.value) :: FromFilter(ctx, f, a))
  }

  /** The atom's expression is what some field of the filter resolves to. */
  ghost predicate FromFilter(ctx: Context, f: Filter, a: Atom) {
    exists p :: Mentions(f, p) && ctx.resolve(p) == Some(a.expr)
  }

  /** `exprs` compiles the keys in `done`. */
  ghost predicate KeysCompiled(ctx: Context, f: Filter, done: set<Key>, exprs: seq<Cond>, agg: bool) {
    && done <= f.entries.Keys
    && (exprs != [] <==> exists k <- done :: EntryBuilds(ctx, k, f.entries[k]))
    && (agg <==> AnyAggregate(ctx, exprs))
    && (forall sigma: Assignment :: EvalAll(exprs, sigma) == MeetOver(ctx, f, done, sigma))
    && (forall sigma: Assignment :: EvalAny(exprs, sigma) == JoinOver(ctx, f, done, sigma))
    && (forall a <- AtomsOfParts(exprs) :: FromFilter(ctx, f, a))
  }

  lemma MeetOverOneMore(ctx: Context, f: Filter, done: set<Key>, key: Key, sigma: Assignment)
    requires key in f.entries && done <= f.entries.Keys
    ensures var val := f.entries[key];
      MeetOver(ctx, f, done + {key}, sigma)
      == if EntryBuilds(ctx, key, val) then Meet(MeetOver(ctx, f, done, sigma), EntryMeaning(ctx, key, val, sigma))
         else MeetOver(ctx, f, done, sigma)
  {
    hide EntryBuilds, EntryMeaning;
  }

  lemma JoinOverOneMore(ctx: Context, f: Filter, done: set<Key>, key: Key, sigma: Assignment)
    requires key in f.entries && done <= f.entries.Keys
    ensures var val := f.entries[key];
      JoinOver(ctx, f, done + {key}, sigma)
      == if EntryBuilds(ctx, key, val) then Join(JoinOver(ctx, f, done, sigma), EntryMeaning(ctx, key, val, sigma))
         else JoinOver(ctx, f, done, sigma)
  {
    hide EntryBuilds, EntryMeaning;
  }

  lemma EvalOneMore(parts: seq<Cond>, part: Cond, sigma: Assignment)
    ensures EvalAll(parts + [part], sigma) == Meet(EvalAll(parts, sigma), Eval(part, sigma))
    ensures EvalAny(parts + [part], sigma) == Join(EvalAny(parts, sigma), Eval(part, sigma))
  {
    assert (parts + [part])[..|parts|] == parts;
  }

  function Appended(exprs: seq<Cond>, c: Option<Cond>): seq<Cond> {
    if c.Some? then exprs + [c.value] else exprs
  }

  lemma OneMoreKeyCompiled(ctx: Context, f: Filter, done: set<Key>, exprs: seq<Cond>, agg: bool,
                           key: Key, c: Option<Cond>, cAgg: bool)
    requires KeysCompiled(ctx, f, done, exprs, agg)
    requires key in f.entries && EntryCompiled(ctx, key, f.entries[key], c, cAgg)
    ensures KeysCompiled(ctx, f, done + {key}, Appended(exprs, c), agg || cAgg)
  {
    hide EntryBuilds, EntryMeaning, MeetOver, JoinOver, Eval, EvalAll, EvalAny, Atoms, AtomsOfParts, HasAggregate,
         AnyAggregate, FromFilter;
    var val, exprs' := f.entries[key], Appended(exprs, c);
    if c.Some? {
      AggregateOfOneMore(ctx, exprs, c.value);
    }
    forall sigma: Assignment ensures EvalAll(exprs', sigma) == MeetOver(ctx, f, done + {key}, sigma) {
      MeetOverOneMore(ctx, f, done, key, sigma);
      if c.Some? {
        EvalOneMore(exprs, c.value, sigma);
      }
    }
    forall sigma: Assignment ensures EvalAny(exprs', sigma) == JoinOver(ctx, f, done + {key}, sigma) {
      JoinOverOneMore(ctx, f, done, key, sigma);
      if c.Some? {
        EvalOneMore(exprs, c.value, sigma);
      }
    }
    forall a <- AtomsOfParts(exprs') ensures FromFilter(ctx, f, a) {
      AtomOfOneMore(ctx, f, exprs, key, c, a);
    }
  }

  lemma AtomOfOneMore(ctx: Context, f: Filter, exprs: seq<Cond>, key: Key, c: Option<Cond>, a: Atom)
    requires key in f.entries
    requires c.Some? ==> forall b <- Atoms(c.value) ::
      exists p :: EntryMentions(key, f.entries[key], p) && ctx.resolve(p) == Some(b.expr)
    requires forall b <- AtomsOfParts(exprs) :: FromFilter(ctx, f, b)
    requires a in AtomsOfParts(Appended(exprs, c))
    ensures FromFilter(ctx, f, a)
  {
    hide EntryMentions, Atoms, AtomsOfParts;
    if a !in AtomsOfParts(exprs) {
      AtomsOfOneMore(exprs, c.value);
      var p :| EntryMentions(key, f.entries[key], p) && ctx.resolve(p) == Some(a.expr);
      assert Mentions(f, p);
    }
  }

  function Grouped(exprs: seq<Cond>, anyOf: bool): Option<Cond> {
    if exprs == [] then None else if anyOf then Some(Any(exprs)) else Some(All(exprs))
  }

  lemma GroupedParts(parts: seq<Cond>)
    ensures Atoms(All(parts)) == Atoms(Any(parts)) == AtomsOfParts(parts)
    ensures forall sigma: Assignment :: Eval(All(parts), sigma) == EvalAll(parts, sigma)
    ensures forall sigma: Assignment :: Eval(Any(parts), sigma) == EvalAny(parts, sigma)
  {
  }

  lemma AllKeysCompiled(ctx: Context, f: Filter, exprs: seq<Cond>, agg: bool, anyOf: bool)
    requires KeysCompiled(ctx, f, f.entries.Keys, exprs, agg)
    ensures GroupCompiled(ctx, f, anyOf, Grouped(exprs, anyOf), agg)
  {
    hide EntryBuilds, EntryMeaning, MeetOver, JoinOver, Eval, EvalAll, EvalAny, Atoms, AtomsOfParts, FromFilter;
    NoAtoms();
    GroupedParts(exprs);
  }

  // ----- arrays under "or" and "and" -----

  /** `parts` compiles a prefix of an array of groups. */
  ghost predicate ItemsCompiled(ctx: Context, items: seq<Value>, anyOf: bool, parts: seq<Cond>, agg: bool) {
    && (parts != [] <==> exists item <- items :: ItemBuilds(ctx, item))
    && (agg <==> AnyAggregate(ctx, parts))
    && (forall sigma: Assignment :: (if anyOf then EvalAny(parts, sigma) else EvalAll(parts, sigma))
                                    == ItemsMeaning(ctx, items, anyOf, sigma))
    && (forall a <- AtomsOfParts(parts) :: exists p ::
      (exists item <- items :: ItemMentions(item, p)) && ctx.resolve(p) == Some(a.expr))
  }

  lemma OneMoreItemCompiled(ctx: Context, items: seq<Value>, anyOf: bool, parts: seq<Cond>, agg: bool, item: Value,
                            c: Option<Cond>, cAgg: bool)
    requires ItemsCompiled(ctx, items, anyOf, parts, agg)
    requires if item.Nested? then GroupCompiled(ctx, item.filter, false, c, cAgg) else c.None? && !cAgg
    ensures ItemsCompiled(ctx, items + [item], anyOf, Appended(parts, c), agg || cAgg)
  {
    hide GroupBuilds, GroupMeaning, Eval, EvalAll, EvalAny, Atoms, AtomsOfParts, HasAggregate, AnyAggregate, Mentions,
         FromFilter;
    var items', parts' := items + [item], Appended(parts, c);
    assert items'[..|items|] == items && item in items' && c.Some? == ItemBuilds(ctx, item);
    assert forall i <- items' :: i in items || i == item;
    if c.Some? {
      AggregateOfOneMore(ctx, parts, c.value);
    }
    forall sigma: Assignment
      ensures (if anyOf then EvalAny(parts', sigma) else EvalAll(parts', sigma))
        == ItemsMeaning(ctx, items', anyOf, sigma)
    {
      if c.Some? {
        EvalOneMore(parts, c.value, sigma);
      }
    }
    forall a <- AtomsOfParts(parts')
      ensures exists p :: (exists i <- items' :: ItemMentions(i, p)) && ctx.resolve(p) == Some(a.expr)
    {
      if a in AtomsOfParts(parts) {
        var p :| (exists i <- items :: ItemMentions(i, p)) && ctx.resolve(p) == Some(a.expr);
        assert exists i <- items' :: ItemMentions(i, p);
      } else {
        AtomsOfOneMore(parts, c.value);
        FromFilterMentions(ctx, item, a);
        var p :| ItemMentions(item, p) && ctx.resolve(p) == Some(a.expr);
        assert exists i <- items' :: ItemMentions(i, p);
      }
    }
  }

  lemma FromFilterMentions(ctx: Context, item: Value, a: Atom)
    requires item.Nested? && FromFilter(ctx, item.filter, a)
    ensures exists p :: ItemMentions(item, p) && ctx.resolve(p) == Some(a.expr)
  {
    hide Mentions;
    var p :| Mentions(item.filter, p) && ctx.resolve(p) == Some(a.expr);
    assert ItemMentions(item, p);
  }

  /** What nothing compiles to. */
  lemma NothingCompiled(ctx: Context, f: Filter, anyOf: bool)
    ensures KeysCompiled(ctx, f, {}, [], false) && ItemsCompiled(ctx, [], anyOf, [], false)
    ensures f.entries == map[] ==> GroupCompiled(ctx, f, anyOf, None, false)
  {
  }

  /** The loop over an array of groups. */
  method BuildItems(ctx: Context, items: seq<Value>, anyOf: bool) returns (parts: seq<Cond>, agg: bool)
    ensures ItemsCompiled(ctx, items, anyOf, parts, agg)
    decreases items, 0
  {
    hide GroupCompiled, ItemsCompiled;
    parts, agg := [], false;
    NothingCompiled(ctx, Filter(map[]), anyOf);
    assert items[..0] == [];
    for i := 0 to |items|
      invariant ItemsCompiled(ctx, items[..i], anyOf, parts, agg)
    {
      var c: Option<Cond>, cAgg := None, false;
      if items[i].Nested? {
        if items[i].filter.entries == map[] {
          NothingCompiled(ctx, items[i].filter, false);
        } else {
          c, cAgg := BuildItem(ctx, items[i]);
        }
      }
      OneMoreItemCompiled(ctx, items[..i], anyOf, parts, agg, items[i], c, cAgg);
      assert items[..i] + [items[i]] == items[..i + 1];
      parts, agg := Appended(parts, c), agg || cAgg;
    }
    assert items[..|items|] == items;
  }

  method BuildItem(ctx: Context, item: Value) returns (c: Option<Cond>, agg: bool)
    requires item.Nested?
    ensures GroupCompiled(ctx, item.filter, false, c, agg)
    decreases item, 5
  {
    c, agg := BuildGroupExpr(ctx, item.filter, false);
  }

  // ----- buildGroupExpr -----

  lemma GroupAsEntry(ctx: Context, key: Key, val: Value, c: Option<Cond>, agg: bool)
    requires !key.Field? && val.Nested? && GroupCompiled(ctx, val.filter, key.Or?, c, agg)
    ensures EntryCompiled(ctx, key, val, c, agg)
  {
    hide GroupBuilds, GroupMeaning, Eval, Atoms, HasAggregate, Mentions;
  }

  lemma ItemsAsEntry(ctx: Context, key: Key, val: Value, parts: seq<Cond>, agg: bool)
    requires !key.Field? && val.List? && ItemsCompiled(ctx, val.items, key.Or?, parts, agg)
    ensures EntryCompiled(ctx, key, val, Grouped(parts, key.Or?), agg)
  {
    hide ItemBuilds, ItemsMeaning, Eval, EvalAll, EvalAny, Atoms, AtomsOfParts, ItemMentions;
    NoAtoms();
    GroupedParts(parts);
  }

  lemma FieldAsEntry(ctx: Context, key: Key, val: Value, agg: bool)
    requires key.Field? || !IsGroup(val)
    requires var c := KeyCond(ctx, key, val); agg <==> c.Some? && HasAggregate(ctx, c.value)
    ensures EntryCompiled(ctx, key, val, KeyCond(ctx, key, val), agg)
  {
    var c := KeyCond(ctx, key, val);
    if c.Some? {
      forall a <- Atoms(c.value) ensures exists p :: EntryMentions(key, val, p) && ctx.resolve(p) == Some(a.expr) {
        AtomsOfKeyCond(ctx, key, val, a);
      }
    }
  }

  lemma {:induction false} AtomsOfFieldParts(ctx: Context, fields: seq<Path>, op: string, val: Value, a: Atom)
    requires a in AtomsOfParts(FieldParts(ctx, fields, op, val))
    ensures exists p :: p in fields && ctx.resolve(p) == Some(a.expr)
  {
    hide Applies, BaseOp, EndsInCs;
    var init, last := fields[..|fields| - 1], fields[|fields| - 1];
    var parts, part := FieldParts(ctx, init, op, val), FieldPart(ctx, last, op, val);
    if part == [] {
      assert parts + part == parts;
    } else {
      AtomsOfOneMore(parts, part[0]);
      assert parts + part == parts + [part[0]];
    }
    if a in AtomsOfParts(parts) {
      AtomsOfFieldParts(ctx, init, op, val, a);
      var p :| p in init && ctx.resolve(p) == Some(a.expr);
      assert p in fields;
    } else {
      assert last in fields;
    }
  }

  lemma AtomsOfKeyCond(ctx: Context, key: Key, val: Value, a: Atom)
    requires key.Field? || !IsGroup(val)
    requires KeyCond(ctx, key, val).Some? && a in Atoms(KeyCond(ctx, key, val).value)
    ensures exists p :: EntryMentions(key, val, p) && ctx.resolve(p) == Some(a.expr)
  {
    hide FieldParts, Atoms, AtomsOfParts;
    var fields := if key.Field? then [key.first] + key.more else [KeyField(key)];
    var op := if key.Field? then OpOf(key.suffix) else OpOf(None);
    var parts := FieldParts(ctx, fields, op, val);
    AtomsOfCombined(key.Field? && key.anyOf, parts);
    AtomsOfFieldParts(ctx, fields, op, val, a);
    var p :| p in fields && ctx.resolve(p) == Some(a.expr);
    assert EntryMentions(key, val, p);
  }

  /** One key of the map in buildGroupExpr. */
  method BuildEntry(ctx: Context, key: Key, val: Value) returns (c: Option<Cond>, agg: bool)
    ensures EntryCompiled(ctx, key, val, c, agg)
    decreases val, 1
  {
    hide EntryCompiled, GroupCompiled, ItemsCompiled, HasAggregate;
    if !key.Field? && val.Nested? {
      c, agg := BuildGroupExpr(ctx, val.filter, key.Or?);
      GroupAsEntry(ctx, key, val, c, agg);
    } else if !key.Field? && val.List? {
      var parts;
      parts, agg := BuildItems(ctx, val.items, key.Or?);
      c := Grouped(parts, key.Or?);
      ItemsAsEntry(ctx, key, val, parts, agg);
    } else {
      match key
      case Field(first, more, anyOf, suffix) =>
        c, agg := BuildCond(ctx, [first] + more, anyOf, suffix, val);
        FieldAsEntry(ctx, key, val, agg);
      case _ =>
        c, agg := BuildCond(ctx, [KeyField(key)], false, None, val);
        FieldAsEntry(ctx, key, val, agg);
    }
  }

  /** buildGroupExpr: one condition for a group, keys visited in any order. */
  method BuildGroupExpr(ctx: Context, f: Filter, anyOf: bool) returns (c: Option<Cond>, agg: bool)
    ensures GroupCompiled(ctx, f, anyOf, c, agg)
    decreases f, 4
  {
    hide EntryCompiled, GroupCompiled, KeysCompiled;
    var exprs: seq<Cond> := [];
    var todo := f.entries.Keys;
    agg := false;
    NothingCompiled(ctx, f, anyOf);
    assert f.entries.Keys - todo == {};
    while todo != {}
      invariant todo <= f.entries.Keys
      invariant KeysCompiled(ctx, f, f.entries.Keys - todo, exprs, agg)
    {
      var key :| key in todo;
      var expr, exprAgg := BuildEntry(ctx, key, f.entries[key]);
      OneMoreKeyCompiled(ctx, f, f.entries.Keys - todo, exprs, agg, key, expr, exprAgg);
      assert f.entries.Keys - todo + {key} == f.entries.Keys - (todo - {key});
      todo := todo - {key};
      exprs, agg := Appended(exprs, expr), agg || exprAgg;
    }
    assert f.entries.Keys - {} == f.entries.Keys;
    AllKeysCompiled(ctx, f, exprs, agg, anyOf);
    c := Grouped(exprs, anyOf);
  }

  // ----- buildGroupAnd: the split into WHERE and HAVING -----

  /** What the split keeps of a conjunction: an "or" or "and" key without a group is dropped. */
  ghost function SpineOver(ctx: Context, f: Filter, done: set<Key>, sigma: Assignment): Truth
    decreases f, 3
  {
    if exists k <- done :: k in f.entries && SpineEntryTruth(ctx, k, f.entries[k], sigma) == False then False
    else if exists k <- done :: k in f.entries && SpineEntryTruth(ctx, k, f.entries[k], sigma) == Unknown then Unknown
    else True
  }

  ghost function SpineTruth(ctx: Context, f: Filter, sigma: Assignment): Truth
    decreases f, 4
  {
    SpineOver(ctx, f, f.entries.Keys, sigma)
  }

  ghost function SpineEntryTruth(ctx: Context, key: Key, val: Value, sigma: Assignment): Truth
    decreases val, 1
  {
    if key.And? && val.Nested? then SpineTruth(ctx, val.filter, sigma)
    else if key.And? && val.List? then SpineItemsTruth(ctx, val.items, sigma)
    else if key.Field? || IsGroup(val) then
      if EntryBuilds(ctx, key, val) then EntryMeaning(ctx, key, val, sigma) else True
    else True
  }

  ghost function SpineItemsTruth(ctx: Context, items: seq<Value>, sigma: Assignment): Truth
    decreases items, 0
  {
    if items == [] then True
    else Meet(SpineItemsTruth(ctx, items[..|items| - 1], sigma), SpineItemTruth(ctx, items[|items| - 1], sigma))
  }

  ghost function SpineItemTruth(ctx: Context, item: Value, sigma: Assignment): Truth
    decreases item, 5
  {
    if item.Nested? then SpineTruth(ctx, item.filter, sigma) else True
  }

  /** No aggregate goes to WHERE, and every HAVING part needs to be there. */
  ghost predicate WellSplit(ctx: Context, w: seq<Cond>, h: seq<Cond>) {
    !AnyAggregate(ctx, w) && forall part <- h :: HasAggregate(ctx, part)
  }

  ghost function SplitTruth(w: seq<Cond>, h: seq<Cond>, sigma: Assignment): Truth {
    Meet(EvalAll(w, sigma), EvalAll(h, sigma))
  }

  ghost predicate EntrySplit(ctx: Context, key: Key, val: Value, w: seq<Cond>, h: seq<Cond>) {
    && WellSplit(ctx, w, h)
    && (forall sigma: Assignment :: SplitTruth(w, h, sigma) == SpineEntryTruth(ctx, key, val, sigma))
    && (forall a <- AtomsOfParts(w) + AtomsOfParts(h) :: exists p ::
      EntryMentions(key, val, p) && ctx.resolve(p) == Some(a.expr))
  }

  ghost predicate KeysSplit(ctx: Context, f: Filter, done: set<Key>, w: seq<Cond>, h: seq<Cond>) {
    && done <= f.entries.Keys && WellSplit(ctx, w, h)
    && (forall sigma: Assignment :: SplitTruth(w, h, sigma) == SpineOver(ctx, f, done, sigma))
    && (forall a <- AtomsOfParts(w) + AtomsOfParts(h) :: FromFilter(ctx, f, a))
  }

  ghost predicate ItemsSplit(ctx: Context, items: seq<Value>, w: seq<Cond>, h: seq<Cond>) {
    && WellSplit(ctx, w, h)
    && (forall sigma: Assignment :: SplitTruth(w, h, sigma) == SpineItemsTruth(ctx, items, sigma))
    && (forall a <- AtomsOfParts(w) + AtomsOfParts(h) ::
          exists p :: (exists item <- items :: ItemMentions(item, p)) && ctx.resolve(p) == Some(a.expr))
  }

  lemma {:induction false} EvalAllAppend(a: seq<Cond>, b: seq<Cond>, sigma: Assignment)
    ensures EvalAll(a + b, sigma) == Meet(EvalAll(a, sigma), EvalAll(b, sigma))
    ensures AtomsOfParts(a + b) == AtomsOfParts(a) + AtomsOfParts(b)
    decreases |b|
  {
    hide Eval, Atoms;
    if b == [] {
      assert a + b == a;
    } else {
      EvalAllAppend(a, b[..|b| - 1], sigma);
      assert (a + b)[..|a + b| - 1] == a + b[..|b| - 1];
    }
  }

  lemma AppendSplit(ctx: Context, w: seq<Cond>, h: seq<Cond>, w': seq<Cond>, h': seq<Cond>)
    requires WellSplit(ctx, w, h) && WellSplit(ctx, w', h')
    ensures WellSplit(ctx, w + w', h + h')
    ensures forall sigma: Assignment ::
      SplitTruth(w + w', h + h', sigma) == Meet(SplitTruth(w, h, sigma), SplitTruth(w', h', sigma))
    ensures AtomsOfParts(w + w') + AtomsOfParts(h + h')
         == (AtomsOfParts(w) + AtomsOfParts(h)) + (AtomsOfParts(w') + AtomsOfParts(h'))
  {
    hide Eval, EvalAll, Atoms, AtomsOfParts;
    EvalAllAppend(w, w', _ => True);
    EvalAllAppend(h, h', _ => True);
    forall sigma: Assignment
      ensures SplitTruth(w + w', h + h', sigma) == Meet(SplitTruth(w, h, sigma), SplitTruth(w', h', sigma))
    {
      EvalAllAppend(w, w', sigma);
      EvalAllAppend(h, h', sigma);
    }
  }

  lemma SpineOverOneMore(ctx: Context, f: Filter, done: set<Key>, key: Key, sigma: Assignment)
    requires key in f.entries && done <= f.entries.Keys
    ensures SpineOver(ctx, f, done + {key}, sigma)
         == Meet(SpineOver(ctx, f, done, sigma), SpineEntryTruth(ctx, key, f.entries[key], sigma))
  {
    hide SpineEntryTruth;
  }

  lemma OneMoreKeySplit(ctx: Context, f: Filter, done: set<Key>, w: seq<Cond>, h: seq<Cond>,
                        key: Key, w': seq<Cond>, h': seq<Cond>)
    requires KeysSplit(ctx, f, done, w, h) && key in f.entries && EntrySplit(ctx, key, f.entries[key], w', h')
    ensures KeysSplit(ctx, f, done + {key}, w + w', h + h')
  {
    hide WellSplit, SplitTruth, SpineOver, SpineEntryTruth, AtomsOfParts, EntryMentions;
    AppendSplit(ctx, w, h, w', h');
    forall sigma: Assignment ensures SplitTruth(w + w', h + h', sigma) == SpineOver(ctx, f, done + {key}, sigma) {
      SpineOverOneMore(ctx, f, done, key, sigma);
    }
    forall a <- AtomsOfParts(w + w') + AtomsOfParts(h + h') ensures FromFilter(ctx, f, a) {
      if a in AtomsOfParts(w') + AtomsOfParts(h') {
        var p :| EntryMentions(key, f.entries[key], p) && ctx.resolve(p) == Some(a.expr);
        assert Mentions(f, p);
      }
    }
  }

  lemma OneMoreItemSplit(ctx: Context, items: seq<Value>, w: seq<Cond>, h: seq<Cond>, item: Value,
                         w': seq<Cond>, h': seq<Cond>)
    requires ItemsSplit(ctx, items, w, h)
    requires if item.Nested? then KeysSplit(ctx, item.filter, item.filter.entries.Keys, w', h') else w' == h' == []
    ensures ItemsSplit(ctx, items + [item], w + w', h + h')
  {
    NothingSplit(ctx);
    hide WellSplit, SplitTruth, SpineOver, AtomsOfParts, Mentions, FromFilter;
    var items' := items + [item];
    assert items'[..|items|] == items && item in items';
    AppendSplit(ctx, w, h, w', h');
    forall sigma: Assignment ensures SplitTruth(w + w', h + h', sigma) == SpineItemsTruth(ctx, items', sigma) {
      assert SpineItemsTruth(ctx, items', sigma)
        == Meet(SpineItemsTruth(ctx, items, sigma), SpineItemTruth(ctx, item, sigma));
      assert SpineItemTruth(ctx, item, sigma) == SplitTruth(w', h', sigma) by {
        if item.Nested? {
          var f := item.filter;
          assert SpineItemTruth(ctx, item, sigma) == SpineTruth(ctx, f, sigma);
          assert SplitTruth(w', h', sigma) == SpineOver(ctx, f, f.entries.Keys, sigma);
        }
      }
    }
    forall a <- AtomsOfParts(w + w') + AtomsOfParts(h + h')
      ensures exists p :: (exists i <- items' :: ItemMentions(i, p)) && ctx.resolve(p) == Some(a.expr)
    {
      if a in AtomsOfParts(w') + AtomsOfParts(h') {
        FromFilterMentions(ctx, item, a);
        var p :| ItemMentions(item, p) && ctx.resolve(p) == Some(a.expr);
        assert exists i <- items' :: ItemMentions(i, p);
      } else {
        var p :| (exists i <- items :: ItemMentions(i, p)) && ctx.resolve(p) == Some(a.expr);
        assert exists i <- items' :: ItemMentions(i, p);
      }
    }
  }

  lemma NothingYetSplit(ctx: Context, f: Filter)
    ensures KeysSplit(ctx, f, {}, [], []) && ItemsSplit(ctx, [], [], [])
    ensures f.entries == map[] ==> KeysSplit(ctx, f, f.entries.Keys, [], [])
  {
  }

  lemma NothingSplit(ctx: Context)
    ensures WellSplit(ctx, [], []) && AtomsOfParts([]) == {}
    ensures forall sigma: Assignment :: SplitTruth([], [], sigma) == True
  {
  }

  /** A condition compiled as a whole goes to one of the two sides. */
  lemma CompiledEntrySplit(ctx: Context, key: Key, val: Value, c: Option<Cond>, agg: bool)
    requires EntryCompiled(ctx, key, val, c, agg) && (key.Field? || (key.Or? && IsGroup(val)))
    ensures EntrySplit(ctx, key, val,
      if c.Some? && !agg then [c.value] else [], if c.Some? && agg then [c.value] else [])
  {
    hide EntryBuilds, EntryMeaning, EntryMentions, Eval, EvalAll, Atoms, AtomsOfParts, SpineTruth, SpineItemsTruth;
    NothingSplit(ctx);
    if c.Some? {
      SingletonParts(c.value);
      assert [] + [c.value] == [c.value];
      AggregateOfOneMore(ctx, [], c.value);
    }
  }

  lemma SingletonParts(c: Cond)
    ensures AtomsOfParts([c]) == Atoms(c) && AtomsOfParts([]) == {}
    ensures forall sigma: Assignment :: EvalAll([c], sigma) == Eval(c, sigma) && EvalAll([], sigma) == True
  {
    assert [c][..0] == [];
    forall sigma: Assignment ensures EvalAll([c], sigma) == Eval(c, sigma) {
      assert [c][..0] == [];
      assert EvalAll([c][..0], sigma) == True;
    }
  }

  lemma GroupAsEntrySplit(ctx: Context, val: Value, w: seq<Cond>, h: seq<Cond>)
    requires val.Nested? && KeysSplit(ctx, val.filter, val.filter.entries.Keys, w, h)
    ensures EntrySplit(ctx, And, val, w, h)
  {
    hide WellSplit, SplitTruth, SpineOver, AtomsOfParts, Mentions;
    forall sigma: Assignment ensures SplitTruth(w, h, sigma) == SpineEntryTruth(ctx, And, val, sigma) {
      assert SpineEntryTruth(ctx, And, val, sigma) == SpineTruth(ctx, val.filter, sigma);
      assert SpineTruth(ctx, val.filter, sigma) == SpineOver(ctx, val.filter, val.filter.entries.Keys, sigma);
    }
  }

  lemma ItemsAsEntrySplit(ctx: Context, val: Value, w: seq<Cond>, h: seq<Cond>)
    requires val.List? && ItemsSplit(ctx, val.items, w, h)
    ensures EntrySplit(ctx, And, val, w, h)
  {
    hide WellSplit, SplitTruth, SpineItemsTruth, AtomsOfParts, ItemMentions;
  }

  lemma NoGroupEntrySplit(ctx: Context, key: Key, val: Value)
    requires !key.Field? && !IsGroup(val)
    ensures EntrySplit(ctx, key, val, [], [])
  {
    NothingSplit(ctx);
  }

  /** And(parts), or nothing. */
  function Conjunction(parts: seq<Cond>): seq<Cond> {
    if parts == [] then [] else [All(parts)]
  }

  lemma ConjunctionSplit(ctx: Context, f: Filter, w: seq<Cond>, h: seq<Cond>)
    requires KeysSplit(ctx, f, f.entries.Keys, w, h)
    ensures KeysSplit(ctx, f, f.entries.Keys, Conjunction(w), Conjunction(h))
  {
    ConjunctionParts(ctx, w);
    ConjunctionParts(ctx, h);
    hide Eval, EvalAll, Atoms, AtomsOfParts, SpineOver, FromFilter;
    if h != [] {
      assert HasAggregate(ctx, h[0]) && h[0] in h;
      PartAggregate(ctx, h, h[0]);
    }
    forall part <- Conjunction(h) ensures HasAggregate(ctx, part) {
    }
  }

  lemma {:induction false} PartAggregate(ctx: Context, parts: seq<Cond>, part: Cond)
    requires part in parts && HasAggregate(ctx, part)
    ensures AnyAggregate(ctx, parts)
  {
    var n := |parts| - 1;
    assert parts[..n] + [parts[n]] == parts;
    AggregateOfOneMore(ctx, parts[..n], parts[n]);
    if part != parts[n] {
      PartAggregate(ctx, parts[..n], part);
    }
  }

  lemma ConjunctionParts(ctx: Context, parts: seq<Cond>)
    ensures AtomsOfParts(Conjunction(parts)) == AtomsOfParts(parts)
    ensures forall sigma: Assignment :: EvalAll(Conjunction(parts), sigma) == EvalAll(parts, sigma)
    ensures HasAggregate(ctx, All(parts)) == AnyAggregate(ctx, parts) == AnyAggregate(ctx, Conjunction(parts))
  {
    SingletonParts(All(parts));
    GroupedParts(parts);
    hide Eval, EvalAll, Atoms, AtomsOfParts;
  }

  /** One key of the map in buildGroupAnd. */
  method SplitEntry(ctx: Context, key: Key, val: Value) returns (w: seq<Cond>, h: seq<Cond>)
    ensures EntrySplit(ctx, key, val, w, h)
    decreases val, 1
  {
    hide EntrySplit, KeysSplit, ItemsSplit, EntryCompiled;
    w, h := [], [];
    if key.Field? || (key.Or? && IsGroup(val)) {
      var c, agg := BuildEntry(ctx, key, val);
      CompiledEntrySplit(ctx, key, val, c, agg);
      if c.Some? {
        if agg {
          h := [c.value];
        } else {
          w := [c.value];
        }
      }
    } else if val.Nested? {
      w, h := BuildGroupAnd(ctx, val.filter);
      GroupAsEntrySplit(ctx, val, w, h);
    } else if val.List? {
      w, h := SplitItems(ctx, val.items);
      ItemsAsEntrySplit(ctx, val, w, h);
    } else {
      NoGroupEntrySplit(ctx, key, val);
    }
  }

  method SplitItems(ctx: Context, items: seq<Value>) returns (w: seq<Cond>, h: seq<Cond>)
    ensures ItemsSplit(ctx, items, w, h)
    decreases items, 0
  {
    hide KeysSplit, ItemsSplit;
    w, h := [], [];
    NothingYetSplit(ctx, Filter(map[]));
    assert items[..0] == [];
    for i := 0 to |items|
      invariant ItemsSplit(ctx, items[..i], w, h)
    {
      var subW: seq<Cond>, subH: seq<Cond> := [], [];
      if items[i].Nested? {
        if items[i].filter.entries == map[] {
          NothingYetSplit(ctx, items[i].filter);
        } else {
          subW, subH := SplitItem(ctx, items[i]);
        }
      }
      OneMoreItemSplit(ctx, items[..i], w, h, items[i], subW, subH);
      assert items[..i] + [items[i]] == items[..i + 1];
      w, h := w + subW, h + subH;
    }
    assert items[..|items|] == items;
  }

  method SplitItem(ctx: Context, item: Value) returns (w: seq<Cond>, h: seq<Cond>)
    requires item.Nested?
    ensures KeysSplit(ctx, item.filter, item.filter.entries.Keys, w, h)
    decreases item, 5
  {
    w, h := BuildGroupAnd(ctx, item.filter);
  }

  /** buildGroupAnd: at most one condition on each side, keys visited in any order. */
  method BuildGroupAnd(ctx: Context, f: Filter) returns (w: seq<Cond>, h: seq<Cond>)
    ensures |w| <= 1 && |h| <= 1 && KeysSplit(ctx, f, f.entries.Keys, w, h)
    decreases f, 4
  {
    hide EntrySplit, KeysSplit;
    var whereParts: seq<Cond>, havingParts: seq<Cond> := [], [];
    var todo := f.entries.Keys;
    NothingYetSplit(ctx, f);
    assert f.entries.Keys - todo == {};
    while todo != {}
      invariant todo <= f.entries.Keys
      invariant KeysSplit(ctx, f, f.entries.Keys - todo, whereParts, havingParts)
    {
      var key :| key in todo;
      var subW, subH := SplitEntry(ctx, key, f.entries[key]);
      OneMoreKeySplit(ctx, f, f.entries.Keys - todo, whereParts, havingParts, key, subW, subH);
      assert f.entries.Keys - todo + {key} == f.entries.Keys - (todo - {key});
      todo := todo - {key};
      whereParts, havingParts := whereParts + subW, havingParts + subH;
    }
    assert f.entries.Keys - {} == f.entries.Keys;
    ConjunctionSplit(ctx, f, whereParts, havingParts);
    w, h := Conjunction(whereParts), Conjunction(havingParts);
  }

  // ----- the split keeps the meaning -----

  /** Every "or" and "and" key met on the way down through conjunctions holds a group. */
  predicate GroupsOnly(f: Filter)
    decreases f, 2
  {
    forall k <- f.entries :: EntryGroupsOnly(k, f.entries[k])
  }

  predicate EntryGroupsOnly(key: Key, val: Value)
    decreases val, 1
  {
    && (!key.Field? ==> IsGroup(val))
    && (key.And? && val.Nested? ==> GroupsOnly(val.filter))
    && (key.And? && val.List? ==> forall item <- val.items :: ItemGroupsOnly(item))
  }

  predicate ItemGroupsOnly(item: Value)
    decreases item, 3
  {
    item.Nested? ==> GroupsOnly(item.filter)
  }

  /** The condition before splitting: what buildGroupExpr(filters, "and") compiles to. */
  ghost function Unsplit(ctx: Context, f: Filter, sigma: Assignment): Truth {
    if GroupBuilds(ctx, f) then GroupMeaning(ctx, f, false, sigma) else True
  }

  ghost function UnsplitEntry(ctx: Context, key: Key, val: Value, sigma: Assignment): Truth {
    if EntryBuilds(ctx, key, val) then EntryMeaning(ctx, key, val, sigma) else True
  }

  /** The conditions the split drops: plain values of "or" and "and" keys met on the way down through conjunctions. */
  ghost function DroppedAtoms(ctx: Context, f: Filter): set<Atom>
    decreases f, 2
  {
    set k, a | k in f.entries && a in DroppedOfEntry(ctx, k, f.entries[k]) :: a
  }

  ghost function DroppedOfEntry(ctx: Context, key: Key, val: Value): set<Atom>
    decreases val, 1
  {
    if key.And? && val.Nested? then DroppedAtoms(ctx, val.filter)
    else if key.And? && val.List? then
      set i, a | 0 <= i < |val.items| && a in DroppedOfItem(ctx, val.items[i]) :: a
    else if key.Field? || IsGroup(val) || ctx.resolve(KeyField(key)).None? then {}
    else {Atom(ctx.resolve(KeyField(key)).value, "eq", false, val)}
  }

  ghost function DroppedOfItem(ctx: Context, item: Value): set<Atom>
    decreases item, 3
  {
    if item.Nested? then DroppedAtoms(ctx, item.filter) else {}
  }

  /** The conjunction of some atoms. */
  ghost function AllOf(atoms: set<Atom>, sigma: Assignment): Truth {
    if exists a <- atoms :: sigma(a) == False then False
    else if exists a <- atoms :: sigma(a) == Unknown then Unknown
    else True
  }

  /** `t` is the conjunction of `u` and `v`. */
  predicate IsMeet(t: Truth, u: Truth, v: Truth) {
    (t == False <==> u == False || v == False) && (t == True <==> u == True && v == True)
  }

  lemma UnsplitIsOver(ctx: Context, f: Filter, sigma: Assignment)
    ensures Unsplit(ctx, f, sigma) == False <==> exists k <- f.entries ::
      UnsplitEntry(ctx, k, f.entries[k], sigma) == False
    ensures Unsplit(ctx, f, sigma) == True <==> forall k <- f.entries ::
      UnsplitEntry(ctx, k, f.entries[k], sigma) == True
  {
    hide EntryBuilds, EntryMeaning;
    assert GroupBuilds(ctx, f) ==> GroupMeaning(ctx, f, false, sigma) == MeetOver(ctx, f, f.entries.Keys, sigma);
  }

  lemma SpineIsOver(ctx: Context, f: Filter, sigma: Assignment)
    ensures SpineTruth(ctx, f, sigma) == False <==>
              exists k <- f.entries :: SpineEntryTruth(ctx, k, f.entries[k], sigma) == False
    ensures SpineTruth(ctx, f, sigma) == True <==>
              forall k <- f.entries :: SpineEntryTruth(ctx, k, f.entries[k], sigma) == True
  {
    hide SpineEntryTruth;
    assert SpineTruth(ctx, f, sigma) == SpineOver(ctx, f, f.entries.Keys, sigma);
  }

  lemma DroppedIsOver(ctx: Context, f: Filter, sigma: Assignment)
    ensures AllOf(DroppedAtoms(ctx, f), sigma) == False <==>
              exists k <- f.entries :: AllOf(DroppedOfEntry(ctx, k, f.entries[k]), sigma) == False
    ensures AllOf(DroppedAtoms(ctx, f), sigma) == True <==>
              forall k <- f.entries :: AllOf(DroppedOfEntry(ctx, k, f.entries[k]), sigma) == True
  {
    hide DroppedOfEntry;
    forall k, a | k in f.entries && a in DroppedOfEntry(ctx, k, f.entries[k]) ensures a in DroppedAtoms(ctx, f) {
    }
  }

  /** For every filter the unsplit condition is what the split keeps and what it drops, together. */
  lemma {:induction false} UnsplitIsKeptAndDropped(ctx: Context, f: Filter, sigma: Assignment)
    ensures Unsplit(ctx, f, sigma) == Meet(SpineTruth(ctx, f, sigma), AllOf(DroppedAtoms(ctx, f), sigma))
    decreases f, 4
  {
    hide SpineTruth, SpineEntryTruth, Unsplit, UnsplitEntry, AllOf, DroppedAtoms, DroppedOfEntry;
    forall k <- f.entries
      ensures IsMeet(UnsplitEntry(ctx, k, f.entries[k], sigma), SpineEntryTruth(ctx, k, f.entries[k], sigma),
                     AllOf(DroppedOfEntry(ctx, k, f.entries[k]), sigma))
    {
      EntryIsKeptAndDropped(ctx, k, f.entries[k], sigma);
    }
    UnsplitIsOver(ctx, f, sigma);
    SpineIsOver(ctx, f, sigma);
    DroppedIsOver(ctx, f, sigma);
  }

  lemma NothingDropped(sigma: Assignment)
    ensures AllOf({}, sigma) == True
  {
  }

  lemma {:induction false} EntryIsKeptAndDropped(ctx: Context, key: Key, val: Value, sigma: Assignment)
    ensures IsMeet(UnsplitEntry(ctx, key, val, sigma), SpineEntryTruth(ctx, key, val, sigma),
                   AllOf(DroppedOfEntry(ctx, key, val), sigma))
    decreases val, 1
  {
    hide GroupBuilds, GroupMeaning, SpineTruth, DroppedAtoms, KeyCond, ItemsMeaning, SpineItemsTruth, AllOf,
         DroppedOfItem;
    NothingDropped(sigma);
    if key.And? && val.Nested? {
      UnsplitIsKeptAndDropped(ctx, val.filter, sigma);
    } else if key.And? && val.List? {
      ItemsAreKeptAndDropped(ctx, val.items, |val.items|, sigma);
      assert val.items[..|val.items|] == val.items;
    } else if !key.Field? && !IsGroup(val) {
      PlainGroupKey(ctx, key, val, sigma);
    }
  }

  /** A plain value under "or" or "and", read as a field. */
  lemma PlainGroupKey(ctx: Context, key: Key, val: Value, sigma: Assignment)
    requires !key.Field? && !IsGroup(val)
    ensures UnsplitEntry(ctx, key, val, sigma) == AllOf(DroppedOfEntry(ctx, key, val), sigma)
  {
    var field: Path := KeyField(key);
    var part := FieldPart(ctx, field, "eq", val);
    assert [field][..0] == [] && [] + part == part;
    assert FieldParts(ctx, [field], "eq", val) == part;
    if ctx.resolve(field).Some? {
      var atom := Atom(ctx.resolve(field).value, "eq", false, val);
      assert KeyCond(ctx, key, val) == Some(Is(atom));
    }
  }

  ghost function DroppedOfItems(ctx: Context, items: seq<Value>, n: nat): set<Atom>
    requires n <= |items|
  {
    set i, a | 0 <= i < n && a in DroppedOfItem(ctx, items[i]) :: a
  }

  lemma DroppedOfOneMore(ctx: Context, items: seq<Value>, n: nat, sigma: Assignment)
    requires n < |items|
    ensures IsMeet(AllOf(DroppedOfItems(ctx, items, n + 1), sigma), AllOf(DroppedOfItems(ctx, items, n), sigma),
                   AllOf(DroppedOfItem(ctx, items[n]), sigma))
  {
    hide DroppedOfItem;
    assert DroppedOfItems(ctx, items, n + 1) == DroppedOfItems(ctx, items, n) + DroppedOfItem(ctx, items[n]);
  }

  lemma {:induction false} ItemsAreKeptAndDropped(ctx: Context, items: seq<Value>, n: nat, sigma: Assignment)
    requires n <= |items|
    ensures IsMeet(ItemsMeaning(ctx, items[..n], false, sigma), SpineItemsTruth(ctx, items[..n], sigma),
                   AllOf(DroppedOfItems(ctx, items, n), sigma))
    ensures (forall i | 0 <= i < n :: !ItemBuilds(ctx, items[i])) ==>
      ItemsMeaning(ctx, items[..n], false, sigma) == True
    decreases items, 0, n
  {
    hide GroupBuilds, GroupMeaning, SpineTruth, DroppedAtoms, AllOf, ItemBuilds, ItemMeaning, SpineItemTruth,
         DroppedOfItem;
    if n == 0 {
      assert DroppedOfItems(ctx, items, 0) == {};
      NothingDropped(sigma);
    } else {
      var last := items[n - 1];
      assert items[..n][..n - 1] == items[..n - 1] && items[..n][n - 1] == last;
      ItemsAreKeptAndDropped(ctx, items, n - 1, sigma);
      DroppedOfOneMore(ctx, items, n - 1, sigma);
      assert last in items;
      ItemIsKeptAndDropped(ctx, last, sigma);
    }
  }

  lemma {:induction false} ItemIsKeptAndDropped(ctx: Context, item: Value, sigma: Assignment)
    ensures IsMeet(
      if ItemBuilds(ctx, item) then ItemMeaning(ctx, item, sigma) else True, SpineItemTruth(ctx, item, sigma),
                   AllOf(DroppedOfItem(ctx, item), sigma))
    decreases item, 5
  {
    hide GroupBuilds, GroupMeaning, SpineTruth, DroppedAtoms, AllOf;
    NothingDropped(sigma);
    if item.Nested? {
      UnsplitIsKeptAndDropped(ctx, item.filter, sigma);
      assert SpineItemTruth(ctx, item, sigma) == SpineTruth(ctx, item.filter, sigma);
    }
  }

  /** Nothing is dropped if every "or" and "and" key on the way holds a group, and only then if these two
      names resolve. */
  lemma {:induction false} GroupsOnlyDropsNothing(ctx: Context, f: Filter)
    ensures GroupsOnly(f) ==> DroppedAtoms(ctx, f) == {}
    ensures DroppedAtoms(ctx, f) == {} && ctx.resolve(["or"]).Some? && ctx.resolve(["and"]).Some? ==> GroupsOnly(f)
    decreases f, 4
  {
    hide GroupsOnly, DroppedAtoms;
    forall k <- f.entries
      ensures EntryGroupsOnly(k, f.entries[k]) ==> DroppedOfEntry(ctx, k, f.entries[k]) == {}
      ensures DroppedOfEntry(ctx, k, f.entries[k]) == {} && ctx.resolve(["or"]).Some? && ctx.resolve(["and"]).Some? ==>
                EntryGroupsOnly(k, f.entries[k])
    {
      var val := f.entries[k];
      if k.And? && val.Nested? {
        GroupsOnlyDropsNothing(ctx, val.filter);
      } else if k.And? && val.List? {
        forall i | 0 <= i < |val.items| && val.items[i].Nested? ensures
          (ItemGroupsOnly(val.items[i]) ==> DroppedOfItem(ctx, val.items[i]) == {})
          && (DroppedOfItem(ctx, val.items[i]) == {} && ctx.resolve(["or"]).Some? && ctx.resolve(["and"]).Some? ==>
                ItemGroupsOnly(val.items[i]))
        {
          GroupsOnlyDropsNothing(ctx, val.items[i].filter);
        }
        if DroppedOfEntry(ctx, k, val) == {} {
          forall i, a | 0 <= i < |val.items| ensures a !in DroppedOfItem(ctx, val.items[i]) {
            assert a in DroppedOfItem(ctx, val.items[i]) ==> a in DroppedOfEntry(ctx, k, val);
          }
        }
      }
    }
    DroppedByEntry(ctx, f);
  }

  lemma DroppedByEntry(ctx: Context, f: Filter)
    ensures DroppedAtoms(ctx, f) == {} <==> forall k <- f.entries :: DroppedOfEntry(ctx, k, f.entries[k]) == {}
    ensures GroupsOnly(f) <==> forall k <- f.entries :: EntryGroupsOnly(k, f.entries[k])
  {
    hide DroppedOfEntry, EntryGroupsOnly;
    forall k, a | k in f.entries && a in DroppedOfEntry(ctx, k, f.entries[k]) ensures a in DroppedAtoms(ctx, f) {
    }
  }

  lemma SpineIsUnsplit(ctx: Context, f: Filter, sigma: Assignment)
    requires GroupsOnly(f)
    ensures SpineTruth(ctx, f, sigma) == Unsplit(ctx, f, sigma)
  {
    hide SpineTruth, Unsplit, DroppedAtoms;
    UnsplitIsKeptAndDropped(ctx, f, sigma);
    GroupsOnlyDropsNothing(ctx, f);
  }

  /** The truth of an absent clause. */
  function EvalClause(c: Option<Cond>, sigma: Assignment): Truth {
    if c.None? then True else Eval(c.value, sigma)
  }

  lemma ClausesAreSplit(w: seq<Cond>, h: seq<Cond>, sigma: Assignment)
    requires |w| <= 1 && |h| <= 1
    ensures Meet(EvalClause(AsClause(w), sigma), EvalClause(AsClause(h), sigma)) == SplitTruth(w, h, sigma)
  {
    if w != [] {
      SingletonParts(w[0]);
      assert w == [w[0]];
    }
    if h != [] {
      SingletonParts(h[0]);
      assert h == [h[0]];
    }
    hide Eval, EvalAll;
  }

  function AsClause(parts: seq<Cond>): Option<Cond> {
    if parts == [] then None else Some(parts[0])
  }

  lemma ClauseAtoms(ctx: Context, parts: seq<Cond>)
    requires |parts| == 1
    ensures Atoms(parts[0]) == AtomsOfParts(parts) && HasAggregate(ctx, parts[0]) == AnyAggregate(ctx, parts)
  {
    SingletonParts(parts[0]);
    assert parts == [parts[0]];
  }

  /** buildWhereClause */
  method BuildWhereClause(ctx: Context, filters: Filter) returns (where: Option<Cond>, having: Option<Cond>)
    ensures forall sigma: Assignment ::
      Meet(EvalClause(where, sigma), EvalClause(having, sigma)) == SpineTruth(ctx, filters, sigma)
    ensures GroupsOnly(filters) ==> forall sigma: Assignment ::
      Meet(EvalClause(where, sigma), EvalClause(having, sigma)) == Unsplit(ctx, filters, sigma)
    ensures forall sigma: Assignment ::
      Unsplit(ctx, filters, sigma)
      == Meet(Meet(EvalClause(where, sigma), EvalClause(having, sigma)), AllOf(DroppedAtoms(ctx, filters), sigma))
    ensures GroupsOnly(filters) ==> forall sigma: Assignment ::
      && (Meet(EvalClause(where, sigma), EvalClause(having, sigma)) == True <==>
            GroupReaches(ctx, filters, false, sigma, True))
      && (Meet(EvalClause(where, sigma), EvalClause(having, sigma)) != False <==>
            GroupReaches(ctx, filters, false, sigma, Unknown))
    ensures where.Some? ==> !HasAggregate(ctx, where.value)
    ensures having.Some? ==> HasAggregate(ctx, having.value)
    ensures where.Some? ==> forall a <- Atoms(where.value) :: FromFilter(ctx, filters, a)
    ensures having.Some? ==> forall a <- Atoms(having.value) :: FromFilter(ctx, filters, a)
  {
    var w, h := BuildGroupAnd(ctx, filters);
    where, having := AsClause(w), AsClause(h);
    hide Eval, EvalAll, Atoms, AtomsOfParts, FromFilter, SplitTruth, HasAggregate, AnyAggregate, Unsplit, GroupsOnly,
         EvalClause, AllOf, DroppedAtoms, GroupReaches;
    forall sigma: Assignment
      ensures Meet(EvalClause(where, sigma), EvalClause(having, sigma)) == SpineTruth(ctx, filters, sigma)
    {
      ClausesAreSplit(w, h, sigma);
    }
    forall sigma: Assignment | GroupsOnly(filters)
      ensures Meet(EvalClause(where, sigma), EvalClause(having, sigma)) == Unsplit(ctx, filters, sigma)
    {
      SpineIsUnsplit(ctx, filters, sigma);
    }
    forall sigma: Assignment
      ensures Unsplit(ctx, filters, sigma) == True <==> GroupReaches(ctx, filters, false, sigma, True)
      ensures Unsplit(ctx, filters, sigma) != False <==> GroupReaches(ctx, filters, false, sigma, Unknown)
    {
      UnsplitMeans(ctx, filters, sigma);
    }
    forall sigma: Assignment ensures Unsplit(ctx, filters, sigma)
      == Meet(Meet(EvalClause(where, sigma), EvalClause(having, sigma)), AllOf(DroppedAtoms(ctx, filters), sigma))
    {
      UnsplitIsKeptAndDropped(ctx, filters, sigma);
    }
    if w != [] {
      ClauseAtoms(ctx, w);
    }
    if h != [] {
      ClauseAtoms(ctx, h);
    }
  }

  // ----- when the split keeps the meaning -----

  const ALL_TRUE: Assignment := (a: Atom) => True

  lemma {:induction false} TrueAtomsMakeTrue(ctx: Context, f: Filter, anyOf: bool)
    requires GroupBuilds(ctx, f)
    ensures GroupMeaning(ctx, f, anyOf, ALL_TRUE) == True
    decreases f, 4
  {
    hide EntryBuilds, EntryMeaning;
    forall k <- f.entries | EntryBuilds(ctx, k, f.entries[k])
      ensures EntryMeaning(ctx, k, f.entries[k], ALL_TRUE) == True {
      TrueAtomsMakeEntryTrue(ctx, k, f.entries[k]);
    }
    var k :| k in f.entries && EntryBuilds(ctx, k, f.entries[k]);
    assert k in f.entries.Keys;
    assert GroupMeaning(ctx, f, anyOf, ALL_TRUE)
      == if anyOf then JoinOver(ctx, f, f.entries.Keys, ALL_TRUE) else MeetOver(ctx, f, f.entries.Keys, ALL_TRUE);
  }

  lemma {:induction false} TrueAtomsMakeEntryTrue(ctx: Context, key: Key, val: Value)
    requires EntryBuilds(ctx, key, val)
    ensures EntryMeaning(ctx, key, val, ALL_TRUE) == True
    decreases val, 1
  {
    hide GroupBuilds, GroupMeaning, KeyCond, ItemsMeaning;
    if !key.Field? && val.Nested? {
      TrueAtomsMakeTrue(ctx, val.filter, key.Or?);
    } else if !key.Field? && val.List? {
      TrueAtomsMakeItemsTrue(ctx, val.items, key.Or?);
    } else {
      KeyCondIsTrue(ctx, key, val);
    }
  }

  lemma {:induction false} TrueAtomsMakeItemsTrue(ctx: Context, items: seq<Value>, anyOf: bool)
    ensures !anyOf || (exists item <- items :: ItemBuilds(ctx, item)) ==>
      ItemsMeaning(ctx, items, anyOf, ALL_TRUE) == True
    decreases items, 0
  {
    hide GroupBuilds, GroupMeaning;
    if items != [] {
      var init, last := items[..|items| - 1], items[|items| - 1];
      TrueAtomsMakeItemsTrue(ctx, init, anyOf);
      assert items == init + [last];
      assert last in items;
      TrueAtomsMakeItemTrue(ctx, last);
    }
  }

  lemma {:induction false} TrueAtomsMakeItemTrue(ctx: Context, item: Value)
    ensures ItemBuilds(ctx, item) ==> ItemMeaning(ctx, item, ALL_TRUE) == True
    decreases item, 5
  {
    if ItemBuilds(ctx, item) {
      TrueAtomsMakeTrue(ctx, item.filter, false);
    }
  }

  lemma {:induction false} FieldPartsAreTrue(ctx: Context, fields: seq<Path>, op: string, val: Value)
    ensures EvalAll(FieldParts(ctx, fields, op, val), ALL_TRUE) == True
    ensures FieldParts(ctx, fields, op, val) != [] ==> EvalAny(FieldParts(ctx, fields, op, val), ALL_TRUE) == True
    ensures |FieldParts(ctx, fields, op, val)| == 1 ==> Eval(FieldParts(ctx, fields, op, val)[0], ALL_TRUE) == True
  {
    if fields != [] {
      var before, part := FieldParts(ctx, fields[..|fields| - 1], op, val),
        FieldPart(ctx, fields[|fields| - 1], op, val);
      FieldPartsAreTrue(ctx, fields[..|fields| - 1], op, val);
      if part == [] {
        assert before + part == before;
      } else {
        assert part == [part[0]] && Eval(part[0], ALL_TRUE) == True;
        EvalOneMore(before, part[0], ALL_TRUE);
      }
    }
  }

  lemma KeyCondIsTrue(ctx: Context, key: Key, val: Value)
    requires KeyCond(ctx, key, val).Some?
    ensures Eval(KeyCond(ctx, key, val).value, ALL_TRUE) == True
  {
    hide FieldParts;
    var fields := if key.Field? then [key.first] + key.more else [KeyField(key)];
    FieldPartsAreTrue(ctx, fields, if key.Field? then OpOf(key.suffix) else "eq", val);
  }

  /** The truth of a condition depends on its atoms only. */
  lemma {:induction false} EvalDependsOnAtoms(c: Cond, sigma: Assignment, tau: Assignment)
    requires forall a <- Atoms(c) :: sigma(a) == tau(a)
    ensures Eval(c, sigma) == Eval(c, tau)
    decreases c, 1
  {
    match c
    case Is(a) =>
    case All(parts) => PartsDependOnAtoms(parts, sigma, tau);
    case Any(parts) => PartsDependOnAtoms(parts, sigma, tau);
  }

  lemma {:induction false} PartsDependOnAtoms(parts: seq<Cond>, sigma: Assignment, tau: Assignment)
    requires forall a <- AtomsOfParts(parts) :: sigma(a) == tau(a)
    ensures EvalAll(parts, sigma) == EvalAll(parts, tau) && EvalAny(parts, sigma) == EvalAny(parts, tau)
    decreases parts, 0
  {
    if parts != [] {
      PartsDependOnAtoms(parts[..|parts| - 1], sigma, tau);
      EvalDependsOnAtoms(parts[|parts| - 1], sigma, tau);
    }
  }

  function AtomsOfClause(c: Option<Cond>): set<Atom> {
    if c.None? then {} else Atoms(c.value)
  }

  ghost predicate ClausesMeanSpine(ctx: Context, f: Filter, where: Option<Cond>, having: Option<Cond>) {
    forall sigma: Assignment :: Meet(EvalClause(where, sigma), EvalClause(having, sigma)) == SpineTruth(ctx, f, sigma)
  }

  ghost predicate ClausesMeanUnsplit(ctx: Context, f: Filter, where: Option<Cond>, having: Option<Cond>) {
    forall sigma: Assignment :: Meet(EvalClause(where, sigma), EvalClause(having, sigma)) == Unsplit(ctx, f, sigma)
  }

  /** Everything is true but one condition. */
  function AllBut(a: Atom): Assignment {
    x => if x == a then False else True
  }

  /** The clauses fail whenever the condition does. */
  predicate Demands(where: Option<Cond>, having: Option<Cond>, a: Atom) {
    Meet(EvalClause(where, AllBut(a)), EvalClause(having, AllBut(a))) == False
  }

  /** What is at least as true in `tau` as in `sigma`. */
  ghost predicate Below(sigma: Assignment, tau: Assignment, least: Truth) {
    forall a: Atom :: AtLeast(sigma(a), least) ==> AtLeast(tau(a), least)
  }

  /** Conditions hold no negation, so they grow with the truth of their atoms. */
  lemma {:induction false} EvalGrows(c: Cond, sigma: Assignment, tau: Assignment, least: Truth)
    requires Below(sigma, tau, least) && AtLeast(Eval(c, sigma), least)
    ensures AtLeast(Eval(c, tau), least)
    decreases c, 1
  {
    match c
    case Is(a) =>
      assert AtLeast(sigma(a), least);
    case All(parts) => EvalAllGrows(parts, sigma, tau, least);
    case Any(parts) => EvalAnyGrows(parts, sigma, tau, least);
  }

  lemma {:induction false} EvalAllGrows(parts: seq<Cond>, sigma: Assignment, tau: Assignment, least: Truth)
    requires Below(sigma, tau, least) && AtLeast(EvalAll(parts, sigma), least)
    ensures AtLeast(EvalAll(parts, tau), least)
    decreases parts, 0
  {
    if parts != [] {
      EvalAllGrows(parts[..|parts| - 1], sigma, tau, least);
      EvalGrows(parts[|parts| - 1], sigma, tau, least);
    }
  }

  lemma {:induction false} EvalAnyGrows(parts: seq<Cond>, sigma: Assignment, tau: Assignment, least: Truth)
    requires Below(sigma, tau, least) && AtLeast(EvalAny(parts, sigma), least)
    ensures AtLeast(EvalAny(parts, tau), least)
    decreases parts, 0
  {
    if parts != [] {
      if AtLeast(EvalAny(parts[..|parts| - 1], sigma), least) {
        EvalAnyGrows(parts[..|parts| - 1], sigma, tau, least);
      } else {
        EvalGrows(parts[|parts| - 1], sigma, tau, least);
      }
    }
  }

  lemma ClausesGrow(where: Option<Cond>, having: Option<Cond>, sigma: Assignment, tau: Assignment, least: Truth)
    requires Below(sigma, tau, least)
    requires AtLeast(Meet(EvalClause(where, sigma), EvalClause(having, sigma)), least)
    ensures AtLeast(Meet(EvalClause(where, tau), EvalClause(having, tau)), least)
  {
    hide Eval, Below;
    if where.Some? {
      EvalGrows(where.value, sigma, tau, least);
    }
    if having.Some? {
      EvalGrows(having.value, sigma, tau, least);
    }
  }

  /** Clauses that demand a condition are never truer than it. */
  lemma DemandedIsAbove(where: Option<Cond>, having: Option<Cond>, a: Atom, sigma: Assignment)
    requires Demands(where, having, a)
    ensures var kept := Meet(EvalClause(where, sigma), EvalClause(having, sigma));
      (sigma(a) == False ==> kept == False) && (sigma(a) == Unknown ==> kept != True)
  {
    hide EvalClause;
    var kept := Meet(EvalClause(where, sigma), EvalClause(having, sigma));
    if sigma(a) == False && kept != False {
      ClausesGrow(where, having, sigma, AllBut(a), Unknown);
    }
    if sigma(a) == Unknown && kept == True {
      ClausesGrow(where, having, sigma, AllBut(a), True);
    }
  }

  /** The exact condition: two clauses that mean what the split keeps mean the unsplit condition as well, for every
      truth of the atoms, if and only if they demand each dropped condition anyway. */
  lemma SplitIsExact(ctx: Context, f: Filter, where: Option<Cond>, having: Option<Cond>)
    requires ClausesMeanSpine(ctx, f, where, having)
    ensures ClausesMeanUnsplit(ctx, f, where, having) <==> forall a <- DroppedAtoms(ctx, f) :: Demands(where, having, a)
  {
    hide SpineTruth, Unsplit, DroppedAtoms, EvalClause;
    if forall a <- DroppedAtoms(ctx, f) :: Demands(where, having, a) {
      forall sigma: Assignment ensures Unsplit(ctx, f, sigma) == SpineTruth(ctx, f, sigma) {
        UnsplitIsKeptAndDropped(ctx, f, sigma);
        forall a <- DroppedAtoms(ctx, f)
          ensures (sigma(a) == False ==> SpineTruth(ctx, f, sigma) == False)
               && (sigma(a) == Unknown ==> SpineTruth(ctx, f, sigma) != True)
        {
          DemandedIsAbove(where, having, a, sigma);
        }
      }
    }
    if ClausesMeanUnsplit(ctx, f, where, having) {
      forall a <- DroppedAtoms(ctx, f) ensures Demands(where, having, a) {
        UnsplitIsKeptAndDropped(ctx, f, AllBut(a));
        assert AllOf(DroppedAtoms(ctx, f), AllBut(a)) == False by {
          assert AllBut(a)(a) == False;
        }
      }
    }
  }

  /** So it does if every "or" and "and" key on the way holds a group, and only then unless a dropped condition is
      compiled from another key too. */
  lemma GroupsAreSplitExactly(ctx: Context, f: Filter, where: Option<Cond>, having: Option<Cond>)
    requires ClausesMeanSpine(ctx, f, where, having)
    ensures GroupsOnly(f) ==> ClausesMeanUnsplit(ctx, f, where, having)
    ensures ctx.resolve(["or"]).Some? && ctx.resolve(["and"]).Some? &&
            DroppedAtoms(ctx, f) !! AtomsOfClause(where) + AtomsOfClause(having) ==>
              (ClausesMeanUnsplit(ctx, f, where, having) <==> GroupsOnly(f))
  {
    hide SpineTruth, Unsplit, DroppedAtoms, EvalClause;
    GroupsOnlyDropsNothing(ctx, f);
    if GroupsOnly(f) {
      forall sigma: Assignment ensures SpineTruth(ctx, f, sigma) == Unsplit(ctx, f, sigma) {
        SpineIsUnsplit(ctx, f, sigma);
      }
    } else if ctx.resolve(["or"]).Some? && ctx.resolve(["and"]).Some? &&
              DroppedAtoms(ctx, f) !! AtomsOfClause(where) + AtomsOfClause(having) {
      var dropped :| dropped in DroppedAtoms(ctx, f);
      var sigma := AllBut(dropped);
      SpineOfTrue(ctx, f);
      ClauseDependsOnAtoms(where, sigma, ALL_TRUE);
      ClauseDependsOnAtoms(having, sigma, ALL_TRUE);
      UnsplitIsKeptAndDropped(ctx, f, sigma);
      assert SpineTruth(ctx, f, sigma) == True && Unsplit(ctx, f, sigma) == False;
    }
  }

  lemma SpineOfTrue(ctx: Context, f: Filter)
    ensures SpineTruth(ctx, f, ALL_TRUE) == True
  {
    hide SpineTruth, DroppedAtoms;
    if GroupBuilds(ctx, f) {
      TrueAtomsMakeTrue(ctx, f, false);
    }
    UnsplitIsKeptAndDropped(ctx, f, ALL_TRUE);
  }

  lemma ClauseDependsOnAtoms(c: Option<Cond>, sigma: Assignment, tau: Assignment)
    requires forall a <- AtomsOfClause(c) :: sigma(a) == tau(a)
    ensures EvalClause(c, sigma) == EvalClause(c, tau)
  {
    if c.Some? {
      EvalDependsOnAtoms(c.value, sigma, tau);
    }
  }
}
