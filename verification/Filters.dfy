/** Filter trees of a request and the conditions they are compiled to. */
module Filters {
  import opened Common
  import opened Schema

  /** The JSON values a filter key may hold: an object, an array or anything else. */
  datatype Value =
    Nested(filter: Filter) | List(items: seq<Value>) | Text(text: string) | Flag(flag: bool) | Other(json: string)

  /** A JSON object: Go iterates over its keys in any order. */
  datatype Filter = Filter(entries: map<Key, Value>)

  /** A key: "or", "and", or "<first>[_or_<more>...][__<suffix>]"; `anyOf` tells "_or_" from "_and_". */
  datatype Key = Or | And | Field(first: Path, more: seq<Path>, anyOf: bool, suffix: Option<string>)

  datatype TableAlias = Main | T(index: nat) | Through(code: nat)

  /** The SQL expression a field resolves to. */
  datatype Expr = Column(table: TableAlias, column: Name) | Unresolved(path: Path) | Computed(text: string)

  datatype Atom = Atom(expr: Expr, op: string, caseSensitive: bool, val: Value)

  datatype Cond = Is(atom: Atom) | All(parts: seq<Cond>) | Any(parts: seq<Cond>)

  /** Three-valued truth. */
  datatype Truth = False | Unknown | True

  function Meet(a: Truth, b: Truth): Truth {
    if a == False || b == False then False else if a == Unknown || b == Unknown then Unknown else True
  }

  function Join(a: Truth, b: Truth): Truth {
    if a == True || b == True then True else if a == Unknown || b == Unknown then Unknown else False
  }

  type Assignment = Atom -> Truth

  function Eval(c: Cond, sigma: Assignment): Truth
    decreases c, 1
  {
    match c
    case Is(a) => sigma(a)
    case All(parts) => EvalAll(parts, sigma)
    case Any(parts) => EvalAny(parts, sigma)
  }

  function EvalAll(parts: seq<Cond>, sigma: Assignment): Truth
    decreases parts, 0
  {
    if parts == [] then True else Meet(EvalAll(parts[..|parts| - 1], sigma), Eval(parts[|parts| - 1], sigma))
  }

  function EvalAny(parts: seq<Cond>, sigma: Assignment): Truth
    decreases parts, 0
  {
    if parts == [] then False else Join(EvalAny(parts[..|parts| - 1], sigma), Eval(parts[|parts| - 1], sigma))
  }

  function Atoms(c: Cond): set<Atom>
    decreases c, 1
  {
    match c
    case Is(a) => {a}
    case All(parts) => AtomsOfParts(parts)
    case Any(parts) => AtomsOfParts(parts)
  }

  function AtomsOfParts(parts: seq<Cond>): set<Atom>
    decreases parts, 0
  {
    if parts == [] then {} else AtomsOfParts(parts[..|parts| - 1]) + Atoms(parts[|parts| - 1])
  }

  /** The field a grouping key stands for when its value is not a group. */
  function KeyField(key: Key): Path {
    if key.Or? then ["or"] else ["and"]
  }

  predicate IsGroup(val: Value) {
    val.Nested? || val.List?
  }

  /** The field paths a filter tree mentions in conditions. */
  ghost predicate Mentions(f: Filter, p: Path)
    decreases f, 2
  {
    exists k <- f.entries :: EntryMentions(k, f.entries[k], p)
  }

  ghost predicate EntryMentions(key: Key, val: Value, p: Path)
    decreases val, 1
  {
    if !key.Field? && val.Nested? then Mentions(val.filter, p)
    else if !key.Field? && val.List? then exists item <- val.items :: ItemMentions(item, p)
    else if key.Field? then p in [key.first] + key.more
    else p == KeyField(key)
  }

  ghost predicate ItemMentions(item: Value, p: Path)
    decreases item, 3
  {
    item.Nested? && Mentions(item.filter, p)
  }

  // ----- the relation paths of a request -----

  /** The relation prefix of a field path, if it has one. */
  function Prefixes(fields: seq<Path>): set<Path> {
    set p | p in fields && |p| > 1 :: p[..|p| - 1]
  }

  /** The relation prefixes of all fields a filter tree mentions. */
  function FilterPaths(f: Filter): set<Path>
    decreases f, 2
  {
    set k, q | k in f.entries && q in EntryPaths(k, f.entries[k]) :: q
  }

  function EntryPaths(key: Key, val: Value): set<Path>
    decreases val, 1
  {
    if !key.Field? && val.Nested? then FilterPaths(val.filter)
    else if !key.Field? && val.List? then set i, q | 0 <= i < |val.items| && q in ItemPaths(val.items[i]) :: q
    else if key.Field? then Prefixes([key.first] + key.more)
    else {}
  }

  function ItemPaths(item: Value): set<Path>
    decreases item, 3
  {
    if item.Nested? then FilterPaths(item.filter) else {}
  }

  /** PathsFromFilters finds the prefix of every mentioned field, and nothing else. */
  lemma {:induction false} FilterPathsOfMentions(f: Filter, q: Path)
    ensures q in FilterPaths(f) <==> exists p :: Mentions(f, p) && |p| > 1 && q == p[..|p| - 1]
    decreases f, 2
  {
    forall k <- f.entries
      ensures q in EntryPaths(k, f.entries[k]) <==>
              exists p :: EntryMentions(k, f.entries[k], p) && |p| > 1 && q == p[..|p| - 1]
    {
      EntryPathsOfMentions(k, f.entries[k], q);
    }
    if q in FilterPaths(f) {
      var k :| k in f.entries && q in EntryPaths(k, f.entries[k]);
      var p :| EntryMentions(k, f.entries[k], p) && |p| > 1 && q == p[..|p| - 1];
      assert Mentions(f, p);
    }
  }

  lemma {:induction false} EntryPathsOfMentions(key: Key, val: Value, q: Path)
    ensures q in EntryPaths(key, val) <==> exists p :: EntryMentions(key, val, p) && |p| > 1 && q == p[..|p| - 1]
    decreases val, 1
  {
    if !key.Field? && val.Nested? {
      FilterPathsOfMentions(val.filter, q);
      assert forall p :: EntryMentions(key, val, p) <==> Mentions(val.filter, p);
    } else if !key.Field? && val.List? {
      forall i | 0 <= i < |val.items|
        ensures q in ItemPaths(val.items[i]) <==>
                exists p :: ItemMentions(val.items[i], p) && |p| > 1 && q == p[..|p| - 1]
      {
        assert val.items[i] in val.items;
        ItemPathsOfMentions(val.items[i], q);
      }
    }
  }

  lemma {:induction false} ItemPathsOfMentions(item: Value, q: Path)
    ensures q in ItemPaths(item) <==> exists p :: ItemMentions(item, p) && |p| > 1 && q == p[..|p| - 1]
    decreases item, 3
  {
    if item.Nested? {
      FilterPathsOfMentions(item.filter, q);
      assert forall p :: ItemMentions(item, p) <==> Mentions(item.filter, p);
    }
  }

  /** PathsFromFilters: object keys in any order. */
  method PathsFromFilters(f: Filter) returns (out: seq<Path>)
    ensures forall q :: q in out <==> q in FilterPaths(f)
    decreases f, 2
  {
    out := [];
    var todo := f.entries.Keys;
    while todo != {}
      invariant todo <= f.entries.Keys
      invariant forall q :: q in out <==> exists k <- f.entries.Keys - todo :: q in EntryPaths(k, f.entries[k])
    {
      var key :| key in todo;
      var more := PathsFromEntry(key, f.entries[key]);
      out, todo := out + more, todo - {key};
    }
  }

  method PathsFromEntry(key: Key, val: Value) returns (out: seq<Path>)
    ensures forall q :: q in out <==> q in EntryPaths(key, val)
    decreases val, 1
  {
    out := [];
    if !key.Field? && val.Nested? {
      out := PathsFromFilters(val.filter);
    } else if !key.Field? && val.List? {
      for i := 0 to |val.items|
        invariant forall q :: q in out <==> exists j | 0 <= j < i :: q in ItemPaths(val.items[j])
      {
        assert val.items[i] in val.items;
        var more := PathsFromItem(val.items[i]);
        out := out + more;
      }
    } else if key.Field? {
      out := PathsFromFields([key.first] + key.more);
    }
  }

  method PathsFromItem(item: Value) returns (out: seq<Path>)
    ensures forall q :: q in out <==> q in ItemPaths(item)
    decreases item, 3
  {
    out := [];
    if item.Nested? {
      out := PathsFromFilters(item.filter);
    }
  }

  /** Also PathsFromSorts, on the fields of the sort terms. */
  method PathsFromFields(fields: seq<Path>) returns (out: seq<Path>)
    ensures forall q :: q in out <==> q in Prefixes(fields)
  {
    out := [];
    for i := 0 to |fields|
      invariant forall q :: q in out <==> exists j | 0 <= j < i :: |fields[j]| > 1 && q == fields[j][..|fields[j]| - 1]
    {
      if |fields[i]| > 1 {
        out := out + [fields[i][..|fields[i]| - 1]];
      }
    }
  }
}
