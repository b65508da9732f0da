/** Preset inheritance (internal/model/loader.go): a memoised depth-first walk over the
    `extends` graph that overwrites every preset's fields with its merged fields. */
module PresetInheritance {
  import opened Common

  /** `rest` stands for the remaining attributes of a field; merging copies them whole. */
  datatype Field = Field(alias: string, source: string, rest: string)

  /** The key two fields are compared by: the alias, or the source when the alias is blank. */
  function KeyOf(f: Field): string {
    if IsBlank(f.alias) then f.source else f.alias
  }

  // ----- merging one list of fields into another -----

  function LastIndex(fields: seq<Field>, key: string): (i: int)
    ensures -1 <= i < |fields|
    ensures i >= 0 ==> KeyOf(fields[i]) == key
    ensures forall j | i < j < |fields| :: KeyOf(fields[j]) != key
  {
    if fields == [] then -1
    else if KeyOf(fields[|fields| - 1]) == key then |fields| - 1
    else LastIndex(fields[..|fields| - 1], key)
  }

  /** Override the field with the same key in its place, or append. */
  function Put(fields: seq<Field>, f: Field): seq<Field> {
    var i := LastIndex(fields, KeyOf(f));
    if i >= 0 then fields[i := f] else fields + [f]
  }

  function Merge(dst: seq<Field>, src: seq<Field>): seq<Field> {
    if src == [] then dst else Put(Merge(dst, src[..|src| - 1]), src[|src| - 1])
  }

  ghost predicate UniqueKeys(fields: seq<Field>) {
    forall i, j | 0 <= i < j < |fields| :: KeyOf(fields[i]) != KeyOf(fields[j])
  }

  /** The index mergeFields keeps: each key of the list with its last position. */
  ghost predicate Indexes(index: map<string, nat>, fields: seq<Field>) {
    && (forall k <- index :: index[k] == LastIndex(fields, k))
    && forall f <- fields :: KeyOf(f) in index
  }

  /** One step of the second loop of mergeFields. */
  lemma IndexesAfterPut(index: map<string, nat>, fields: seq<Field>, f: Field)
    requires Indexes(index, fields)
    ensures KeyOf(f) in index ==> index[KeyOf(f)] < |fields| && Put(fields, f) == fields[index[KeyOf(f)] := f]
    ensures KeyOf(f) in index ==> Indexes(index, Put(fields, f))
    ensures KeyOf(f) !in index ==> Put(fields, f) == fields + [f]
    ensures KeyOf(f) !in index ==> Indexes(index[KeyOf(f) := |fields|], Put(fields, f))
  {
    var after := if KeyOf(f) in index then index else index[KeyOf(f) := |fields|];
    forall k <- after ensures after[k] == LastIndex(Put(fields, f), k) {
      LastIndexAfterPut(fields, f, k);
    }
  }

  /** One step of the first loop of mergeFields. */
  lemma IndexesAfterAppend(index: map<string, nat>, fields: seq<Field>, i: nat)
    requires i < |fields| && Indexes(index, fields[..i])
    ensures Indexes(index[KeyOf(fields[i]) := i], fields[..i + 1])
  {
    assert fields[..i + 1][..i] == fields[..i];
  }

  lemma MergeNext(dst: seq<Field>, src: seq<Field>, i: nat)
    requires i < |src|
    ensures Merge(dst, src[..i + 1]) == Put(Merge(dst, src[..i]), src[i])
  {
    assert src[..i + 1][..i] == src[..i];
  }

  /** mergeFields, with its index from key to position. */
  method MergeFields(dst: seq<Field>, src: seq<Field>) returns (out: seq<Field>)
    ensures out == Merge(dst, src)
  {
    out := dst;
    var index: map<string, nat> := map[];
    assert Indexes(index, dst[..0]) && Merge(dst, src[..0]) == dst;
    hide Merge, Put, LastIndex, Indexes;
    for i := 0 to |dst|
      invariant Indexes(index, dst[..i])
    {
      IndexesAfterAppend(index, dst, i);
      index := index[KeyOf(dst[i]) := i];
    }
    assert dst[..|dst|] == dst;
    for i := 0 to |src|
      invariant out == Merge(dst, src[..i])
      invariant Indexes(index, out)
    {
      var key := KeyOf(src[i]);
      IndexesAfterPut(index, out, src[i]);
      MergeNext(dst, src, i);
      if key in index {
        out := out[index[key] := src[i]];
      } else {
        index := index[key := |out|];
        out := out + [src[i]];
      }
    }
    assert src[..|src|] == src;
  }

  /** The last index is determined by its three properties. */
  lemma LastIndexUnique(fields: seq<Field>, key: string, i: int)
    requires -1 <= i < |fields|
    requires i >= 0 ==> KeyOf(fields[i]) == key
    requires forall j | i < j < |fields| :: KeyOf(fields[j]) != key
    ensures LastIndex(fields, key) == i
  {
  }

  lemma LastIndexAfterPut(fields: seq<Field>, f: Field, k: string)
    ensures LastIndex(Put(fields, f), k)
         == if k != KeyOf(f) then LastIndex(fields, k)
            else if LastIndex(fields, k) >= 0 then LastIndex(fields, k) else |fields|
  {
    var i := LastIndex(fields, KeyOf(f));
    var at := if k != KeyOf(f) then LastIndex(fields, k) else if i >= 0 then i else |fields|;
    LastIndexUnique(Put(fields, f), k, at);
  }

  // ----- what merging means -----

  function FirstIndex(fields: seq<Field>, key: string): nat
    ensures FirstIndex(fields, key) <= |fields|
  {
    if fields == [] || KeyOf(fields[0]) == key then 0 else 1 + FirstIndex(fields[1..], key)
  }

  /** `merged` holds each key of `all` once, at the place of its first occurrence among the
      keys, with the value of its last occurrence. */
  ghost predicate IsMergeOf(all: seq<Field>, merged: seq<Field>) {
    CoversKeys(all, merged) && LastValues(all, merged) && FirstPlaces(all, merged)
  }

  ghost predicate CoversKeys(all: seq<Field>, merged: seq<Field>) {
    forall f <- all :: LastIndex(merged, KeyOf(f)) >= 0
  }

  ghost predicate LastValues(all: seq<Field>, merged: seq<Field>) {
    forall f <- merged :: HasLastValue(all, f)
  }

  ghost predicate HasLastValue(all: seq<Field>, f: Field) {
    var i := LastIndex(all, KeyOf(f));
    i >= 0 && all[i] == f
  }

  ghost predicate FirstPlaces(all: seq<Field>, merged: seq<Field>) {
    forall i, j | 0 <= i < j < |merged| :: FirstIndex(all, KeyOf(merged[i])) < FirstIndex(all, KeyOf(merged[j]))
  }

  lemma {:induction false} FirstIndexAppend(all: seq<Field>, f: Field, key: string)
    ensures var i := FirstIndex(all, key);
      FirstIndex(all + [f], key) == if i < |all| then i else if KeyOf(f) == key then |all| else |all| + 1
    ensures FirstIndex(all, key) < |all| <==> LastIndex(all, key) >= 0
  {
    hide KeyOf;
    if all != [] {
      FirstIndexAppend(all[1..], f, key);
      assert (all + [f])[1..] == all[1..] + [f];
      var i := LastIndex(all[1..], key);
      LastIndexUnique(all, key, if i >= 0 then i + 1 else if KeyOf(all[0]) == key then 0 else -1);
    }
  }

  lemma CoversKeysOneMore(all: seq<Field>, merged: seq<Field>, f: Field)
    requires CoversKeys(all, merged)
    ensures CoversKeys(all + [f], Put(merged, f))
  {
    forall g <- all + [f] ensures LastIndex(Put(merged, f), KeyOf(g)) >= 0 {
      LastIndexAfterPut(merged, f, KeyOf(g));
    }
  }

  lemma LastValuesOneMore(all: seq<Field>, merged: seq<Field>, f: Field)
    requires LastValues(all, merged) && UniqueKeys(merged)
    ensures LastValues(all + [f], Put(merged, f))
  {
    forall g <- Put(merged, f) ensures HasLastValue(all + [f], g) {
      if g != f {
        assert g in merged;
        assert HasLastValue(all, g);
      }
    }
  }

  lemma FirstPlacesOneMore(all: seq<Field>, merged: seq<Field>, f: Field)
    requires FirstPlaces(all, merged) && LastValues(all, merged) && CoversKeys(all, merged)
    ensures FirstPlaces(all + [f], Put(merged, f))
  {
    var merged' := Put(merged, f);
    forall i, j | 0 <= i < j < |merged'|
      ensures FirstIndex(all + [f], KeyOf(merged'[i])) < FirstIndex(all + [f], KeyOf(merged'[j]))
    {
      FirstIndexAppend(all, f, KeyOf(merged'[i]));
      FirstIndexAppend(all, f, KeyOf(merged'[j]));
      assert HasLastValue(all, merged[i]);
      assert KeyOf(merged[i]) == KeyOf(merged'[i]);
      if j < |merged| {
        assert HasLastValue(all, merged[j]);
        assert KeyOf(merged[j]) == KeyOf(merged'[j]);
      }
    }
  }

  lemma FirstPlacesAreUnique(all: seq<Field>, merged: seq<Field>)
    requires FirstPlaces(all, merged)
    ensures UniqueKeys(merged)
  {
  }

  /** Merging a list into the empty one keeps every key once, at its first position, with its last value. */
  lemma {:induction false} MergeKeepsFirstPlaceLastValue(all: seq<Field>)
    ensures IsMergeOf(all, Merge([], all))
    ensures UniqueKeys(Merge([], all))
  {
    hide IsMergeOf, UniqueKeys, Put;
    if all == [] {
      EmptyMerge();
    } else {
      var n := |all| - 1;
      MergeKeepsFirstPlaceLastValue(all[..n]);
      MergeOfOneMore(all[..n], Merge([], all[..n]), all[n]);
      assert all[..n] + [all[n]] == all;
    }
  }

  lemma EmptyMerge()
    ensures IsMergeOf([], []) && UniqueKeys([])
  {
  }

  lemma MergeOfOneMore(all: seq<Field>, merged: seq<Field>, f: Field)
    requires IsMergeOf(all, merged)
    ensures IsMergeOf(all + [f], Put(merged, f)) && UniqueKeys(Put(merged, f))
  {
    hide FirstPlaces, CoversKeys, LastValues, Put, UniqueKeys;
    FirstPlacesAreUnique(all, merged);
    CoversKeysOneMore(all, merged, f);
    LastValuesOneMore(all, merged, f);
    FirstPlacesOneMore(all, merged, f);
    FirstPlacesAreUnique(all + [f], Put(merged, f));
  }

  // ----- merging merged lists -----

  lemma PutTwiceSameKey(x: seq<Field>, g: Field, f: Field)
    requires KeyOf(g) == KeyOf(f)
    ensures Put(Put(x, g), f) == Put(x, f)
  {
    LastIndexAfterPut(x, g, KeyOf(f));
  }

  lemma PutsCommute(x: seq<Field>, g: Field, f: Field)
    requires KeyOf(g) != KeyOf(f) && LastIndex(x, KeyOf(f)) >= 0
    ensures Put(Put(x, f), g) == Put(Put(x, g), f)
  {
    LastIndexAfterPut(x, g, KeyOf(f));
    LastIndexAfterPut(x, f, KeyOf(g));
    hide LastIndex, KeyOf;
  }

  lemma {:induction false} MergeHasKeys(dst: seq<Field>, src: seq<Field>, i: nat)
    requires i < |src|
    ensures LastIndex(Merge(dst, src), KeyOf(src[i])) >= 0
  {
    hide Put, LastIndex, KeyOf;
    var n := |src| - 1;
    if i < n {
      MergeHasKeys(dst, src[..n], i);
    }
    LastIndexAfterPut(Merge(dst, src[..n]), src[n], KeyOf(src[i]));
  }

  /** Overriding a field before merging is the same as putting it afterwards. */
  lemma {:induction false} OverrideThenMerge(dst: seq<Field>, src: seq<Field>, i: nat, f: Field)
    requires i < |src| && KeyOf(src[i]) == KeyOf(f)
    requires forall j | 0 <= j < |src| && j != i :: KeyOf(src[j]) != KeyOf(f)
    ensures Merge(dst, src[i := f]) == Put(Merge(dst, src), f)
  {
    hide Put, LastIndex, KeyOf, Merge;
    var n := |src| - 1;
    var rest := Merge(dst, src[..n]);
    MergeNext(dst, src, n);
    MergeNext(dst, src[i := f], n);
    assert src[..n + 1] == src && src[i := f][..n + 1] == src[i := f];
    if i == n {
      assert src[i := f][..n] == src[..n];
      PutTwiceSameKey(rest, src[n], f);
    } else {
      assert src[i := f][..n] == src[..n][i := f];
      OverrideThenMerge(dst, src[..n], i, f);
      MergeHasKeys(dst, src[..n], i);
      PutsCommute(rest, src[n], f);
    }
  }

  /** A list may be merged before it is merged into another: left-to-right merging is associative. */
  lemma {:induction false} MergeOfMerged(dst: seq<Field>, src: seq<Field>)
    ensures Merge(dst, Merge([], src)) == Merge(dst, src)
  {
    if src != [] {
      var n := |src| - 1;
      var f, inner := src[n], Merge([], src[..n]);
      MergeOfMerged(dst, src[..n]);
      MergeKeepsFirstPlaceLastValue(src[..n]);
      if LastIndex(inner, KeyOf(f)) >= 0 {
        OverrideThenMerge(dst, inner, LastIndex(inner, KeyOf(f)), f);
      } else {
        assert (inner + [f])[..|inner|] == inner;
      }
    }
  }

  lemma {:induction false} MergeAppend(dst: seq<Field>, a: seq<Field>, b: seq<Field>)
    ensures Merge(Merge(dst, a), b) == Merge(dst, a + b)
  {
    hide Put;
    if b == [] {
      assert a + b == a;
    } else {
      var n := |b| - 1;
      MergeAppend(dst, a, b[..n]);
      MergeNext(dst, a + b, |a| + n);
      assert (a + b)[..|a| + n + 1] == a + b;
      assert (a + b)[..|a| + n] == a + b[..n];
    }
  }

  // ----- the extends graph -----

  /** `parentNames` holds the comma-separated names of `extends`, trimmed. */
  datatype PresetDef = PresetDef(parentNames: seq<string>, fields: seq<Field>)

  type Defs = map<string, PresetDef>

  /** The name is mentioned for the first time before the other one is. */
  ghost predicate MentionedBefore(names: seq<string>, p: string, q: string) {
    exists i :: 0 <= i < |names| && names[i] == p && q !in names[..i + 1]
  }

  /** parseParents: empty names and repetitions are dropped, the order of first mention is kept. */
  function ParseParents(parentNames: seq<string>): (parents: seq<string>)
    ensures forall p: string :: p in parents <==> p in parentNames && p != ""
    ensures forall i, j | 0 <= i < j < |parents| :: parents[i] != parents[j]
    ensures forall i, j | 0 <= i < j < |parents| :: MentionedBefore(parentNames, parents[i], parents[j])
  {
    if parentNames == [] then []
    else
      var before := parentNames[..|parentNames| - 1];
      var parents, p := ParseParents(before), parentNames[|parentNames| - 1];
      MentionedBeforeAppend(before, p, parents);
      assert before + [p] == parentNames;
      if p == "" || p in parents then parents else parents + [p]
  }

  /** A further name changes no order among those mentioned before it, and comes last if it is new. */
  lemma MentionedBeforeAppend(names: seq<string>, last: string, parents: seq<string>)
    requires forall p <- parents :: p in names
    ensures var all := names + [last];
      && (forall p <- parents, q <- parents | MentionedBefore(names, p, q) :: MentionedBefore(all, p, q))
      && (last !in names ==> forall p <- parents :: MentionedBefore(all, p, last))
  {
    var all := names + [last];
    forall p <- parents, q <- parents | MentionedBefore(names, p, q) ensures MentionedBefore(all, p, q) {
      var i :| 0 <= i < |names| && names[i] == p && q !in names[..i + 1];
      assert all[..i + 1] == names[..i + 1];
    }
    forall p <- parents | last !in names ensures MentionedBefore(all, p, last) {
      var i :| 0 <= i < |names| && names[i] == p;
      assert all[..i + 1] == names[..i + 1];
    }
  }

  /** The loop of parseParents with its set of names already seen. */
  method CollectParents(parentNames: seq<string>) returns (parents: seq<string>)
    ensures parents == ParseParents(parentNames)
  {
    hide MentionedBefore;
    parents := [];
    var seen: set<string> := {};
    for i := 0 to |parentNames|
      invariant parents == ParseParents(parentNames[..i]) && seen == set p | p in parents
    {
      assert parentNames[..i + 1][..i] == parentNames[..i];
      var p := parentNames[i];
      if p == "" || p in seen {
        continue;
      }
      seen := seen + {p};
      parents := parents + [p];
    }
    assert parentNames[..|parentNames|] == parentNames;
  }

  function Parents(defs: Defs, name: string): seq<string>
    requires name in defs
  {
    ParseParents(defs[name].parentNames)
  }

  predicate IsParent(defs: Defs, child: string, parent: string) {
    child in defs && parent in Parents(defs, child)
  }

  /** A path in the extends graph that starts at a preset; its last name may be missing. */
  ghost predicate IsChain(defs: Defs, chain: seq<string>) {
    && |chain| >= 1 && chain[0] in defs
    && forall i, j | 0 <= i < |chain| && j == i + 1 < |chain| :: IsParent(defs, chain[i], chain[j])
  }

  /** Some preset has, directly or through its parents, a parent that is missing or among its own descendants. */
  ghost predicate MissingOrCyclic(defs: Defs) {
    exists chain ::
      IsChain(defs, chain) && (chain[|chain| - 1] !in defs || chain[|chain| - 1] in chain[..|chain| - 1])
  }

  ghost predicate RankedBy(defs: Defs, rank: map<string, nat>) {
    forall name <- defs :: name in rank && ParentsRankedBelow(defs, rank, name)
  }

  ghost predicate ParentsRankedBelow(defs: Defs, rank: map<string, nat>, name: string)
    requires name in defs && name in rank
  {
    forall p <- Parents(defs, name) :: p in defs && p in rank && rank[p] < rank[name]
  }

  ghost predicate Acyclic(defs: Defs) {
    exists rank :: RankedBy(defs, rank)
  }

  lemma {:induction false} RankFallsAlongChain(defs: Defs, rank: map<string, nat>, chain: seq<string>, i: nat, j: nat)
    requires RankedBy(defs, rank) && IsChain(defs, chain) && i < j < |chain|
    ensures chain[i] in defs && chain[j] in defs && rank[chain[j]] < rank[chain[i]]
    decreases j
  {
    assert IsParent(defs, chain[j - 1], chain[j]);
    assert ParentsRankedBelow(defs, rank, chain[j - 1]);
    if i < j - 1 {
      RankFallsAlongChain(defs, rank, chain, i, j - 1);
    }
  }

  /** Ranked graphs are exactly the ones without missing or cyclic parents (this half by descent,
      the other half because the loader finds a rank whenever it does not fail). */
  lemma RankExcludesMissingAndCyclic(defs: Defs)
    requires Acyclic(defs)
    ensures !MissingOrCyclic(defs)
  {
    var rank :| RankedBy(defs, rank);
    forall chain | IsChain(defs, chain)
      ensures chain[|chain| - 1] in defs && chain[|chain| - 1] !in chain[..|chain| - 1]
    {
      var last := |chain| - 1;
      forall i | 0 <= i < last ensures chain[i] != chain[last] {
        RankFallsAlongChain(defs, rank, chain, i, last);
      }
      if last > 0 {
        RankFallsAlongChain(defs, rank, chain, 0, last);
      }
    }
  }

  // ----- the pure meaning of inheritance -----

  /** All fields a preset is made of: those of its parents from left to right, then its own. */
  ghost function Lineage(defs: Defs, rank: map<string, nat>, name: string): seq<Field>
    requires RankedBy(defs, rank) && name in defs
    decreases rank[name], |Parents(defs, name)| + 1
  {
    LineageOf(defs, rank, name, |Parents(defs, name)|) + defs[name].fields
  }

  ghost function LineageOf(defs: Defs, rank: map<string, nat>, name: string, n: nat): seq<Field>
    requires RankedBy(defs, rank) && name in defs && n <= |Parents(defs, name)|
    decreases rank[name], n
  {
    if n == 0 then []
    else
      assert ParentsRankedBelow(defs, rank, name);
      LineageOf(defs, rank, name, n - 1) + Lineage(defs, rank, Parents(defs, name)[n - 1])
  }

  /** What every preset must become: its whole lineage merged from left to right. */
  ghost predicate Resolved(defs: Defs, rank: map<string, nat>, result: map<string, seq<Field>>)
    requires RankedBy(defs, rank)
  {
    result.Keys == defs.Keys && forall name <- defs :: result[name] == Merge([], Lineage(defs, rank, name))
  }

  /** ... whatever ranking is used to read the lineage. */
  ghost predicate FullyResolved(defs: Defs, result: map<string, seq<Field>>) {
    Acyclic(defs) && forall rank | RankedBy(defs, rank) :: Resolved(defs, rank, result)
  }

  /** The results of the parents, one after the other. */
  ghost function ResultsOf(parents: seq<string>, result: map<string, seq<Field>>): seq<Field> {
    if parents == [] then []
    else
      var last := parents[|parents| - 1];
      ResultsOf(parents[..|parents| - 1], result) + if last in result then result[last] else []
  }

  /** A preset holds what its parents have become, in the order in which `extends` mentions them, and its own fields:
      each key once, at its first place, with its last value. So its own fields override those of its parents, and a
      parent's those of the parents before it. */
  ghost predicate InheritsAt(defs: Defs, result: map<string, seq<Field>>, name: string)
    requires name in defs && name in result
  {
    && (forall p <- Parents(defs, name) :: p in result)
    && UniqueKeys(result[name])
    && IsMergeOf(ResultsOf(Parents(defs, name), result) + defs[name].fields, result[name])
  }

  ghost predicate Inherits(defs: Defs, result: map<string, seq<Field>>) {
    result.Keys == defs.Keys && forall name <- defs :: InheritsAt(defs, result, name)
  }

  lemma {:induction false} ResultsMergeLikeLineage(defs: Defs, rank: map<string, nat>, result: map<string, seq<Field>>,
                                                   name: string, n: nat)
    requires RankedBy(defs, rank) && Resolved(defs, rank, result) && name in defs && n <= |Parents(defs, name)|
    ensures Merge([], ResultsOf(Parents(defs, name)[..n], result)) == Merge([], LineageOf(defs, rank, name, n))
    decreases n
  {
    hide Merge;
    var parents := Parents(defs, name);
    if n > 0 {
      assert ParentsRankedBelow(defs, rank, name);
      hide Parents;
      var p := parents[n - 1];
      assert parents[..n][..n - 1] == parents[..n - 1] && p in parents && p in result;
      ResultsMergeLikeLineage(defs, rank, result, name, n - 1);
      MergedBlocks(ResultsOf(parents[..n - 1], result), LineageOf(defs, rank, name, n - 1), Lineage(defs, rank, p));
    }
  }

  /** Merging merged blocks is merging the blocks. */
  lemma MergedBlocks(before: seq<Field>, lineage: seq<Field>, more: seq<Field>)
    requires Merge([], before) == Merge([], lineage)
    ensures Merge([], before + Merge([], more)) == Merge([], lineage + more)
  {
    hide Merge;
    MergeAppend([], before, Merge([], more));
    MergeOfMerged(Merge([], before), more);
    MergeAppend([], lineage, more);
  }

  lemma ResolvedInherits(defs: Defs, result: map<string, seq<Field>>)
    requires FullyResolved(defs, result)
    ensures Inherits(defs, result)
  {
    hide Merge, Parents, IsMergeOf, UniqueKeys;
    var rank :| RankedBy(defs, rank);
    assert Resolved(defs, rank, result);
    forall name <- defs ensures InheritsAt(defs, result, name) {
      assert ParentsRankedBelow(defs, rank, name);
      var parents, own := Parents(defs, name), defs[name].fields;
      ResultsMergeLikeLineage(defs, rank, result, name, |parents|);
      assert parents[..|parents|] == parents;
      MergeAppend([], ResultsOf(parents, result), own);
      MergeAppend([], LineageOf(defs, rank, name, |parents|), own);
      MergeKeepsFirstPlaceLastValue(ResultsOf(parents, result) + own);
    }
  }

  /** The parents' results merged in order. */
  function MergeParents(parents: seq<string>, results: map<string, seq<Field>>): seq<Field>
    requires forall p <- parents :: p in results
  {
    if parents == [] then []
    else Merge(MergeParents(parents[..|parents| - 1], results), results[parents[|parents| - 1]])
  }

  /** The equation dfs establishes for one preset. */
  ghost predicate SolvedAt(defs: Defs, results: map<string, seq<Field>>, name: string)
    requires name in defs
  {
    && name in results
    && (forall p <- Parents(defs, name) :: p in results)
    && results[name] == Merge(MergeParents(Parents(defs, name), results), defs[name].fields)
  }

  lemma {:induction false} SolutionIsMergedLineage(defs: Defs, rank: map<string, nat>, results: map<string, seq<Field>>,
                                                   name: string)
    requires RankedBy(defs, rank) && name in defs
    requires forall m <- defs :: SolvedAt(defs, results, m)
    ensures name in results && results[name] == Merge([], Lineage(defs, rank, name))
    decreases rank[name], |Parents(defs, name)| + 1
  {
    hide Merge, KeyOf, Put, ParseParents, IsBlank, LastIndex;
    var parents := Parents(defs, name);
    assert SolvedAt(defs, results, name);
    MergedParentsAreLineage(defs, rank, results, name, |parents|);
    assert parents[..|parents|] == parents;
    MergeAppend([], LineageOf(defs, rank, name, |parents|), defs[name].fields);
  }

  lemma {:induction false} MergedParentsAreLineage(defs: Defs, rank: map<string, nat>, results: map<string, seq<Field>>,
                                                   name: string, n: nat)
    requires RankedBy(defs, rank) && name in defs && n <= |Parents(defs, name)|
    requires forall m <- defs :: SolvedAt(defs, results, m)
    ensures forall p <- Parents(defs, name)[..n] :: p in results
    ensures MergeParents(Parents(defs, name)[..n], results) == Merge([], LineageOf(defs, rank, name, n))
    decreases rank[name], n
  {
    hide Merge, KeyOf, Put, ParseParents, IsBlank, LastIndex;
    var parents := Parents(defs, name);
    assert SolvedAt(defs, results, name) && ParentsRankedBelow(defs, rank, name);
    if n > 0 {
      var p := parents[n - 1];
      assert parents[..n][..n - 1] == parents[..n - 1];
      MergedParentsAreLineage(defs, rank, results, name, n - 1);
      SolutionIsMergedLineage(defs, rank, results, p);
      var before, inherited := LineageOf(defs, rank, name, n - 1), Lineage(defs, rank, p);
      MergeOfMerged(Merge([], before), inherited);
      MergeAppend([], before, inherited);
    } else {
      MergeNothing([], results);
    }
  }

  // ----- the loader -----

  /** resolvePresetInheritance: the presets of one model, the memo of finished presets and the
      set of presets under construction. `defs` keeps the presets as they were loaded. */
  class Loader {
    var presets: Defs
    var cache: map<string, seq<Field>>
    var stack: set<string>
    ghost const defs: Defs
    ghost var rank: map<string, nat>
    ghost var next: nat

    constructor (presets: Defs)
      ensures Valid() && stack == {} && cache == map[] && defs == presets
    {
      this.presets, this.defs, cache, stack, rank, next := presets, presets, map[], {}, map[], 0;
    }

    ghost predicate Valid()
      reads this
    {
      && WrittenBack(defs, cache, presets)
      && (forall n <- stack :: n in defs && n !in cache)
      && Memo(defs, cache, rank, next)
    }

    /** dfs. `chain` is the path from the preset the walk started with to the caller. */
    method Dfs(name: string, ghost chain: seq<string>) returns (result: Option<seq<Field>>)
      requires Valid() && IsChain(defs, chain + [name])
      requires forall m: string :: m in stack <==> m in chain
      modifies this
      ensures result.None? ==> MissingOrCyclic(defs)
      ensures result.Some? ==> Valid() && stack == old(stack) && name in cache && result.value == cache[name]
      ensures result.Some? ==> forall n | n in old(cache) :: n in cache && cache[n] == old(cache[n])
      decreases defs.Keys - stack, 0
    {
      hide Memo, MergeParents, Merge, IsChain, MissingOrCyclic, ParseParents;
      if name in cache {
        return Some(cache[name]);
      }
      if name in stack || name !in presets {
        BadChain(defs, chain, name);
        return None;
      }
      var p := presets[name];
      stack := stack + {name};
      var parents := CollectParents(p.parentNames);
      result := MergeAncestors(name, parents, chain + [name]);
      if result.None? {
        return;
      }
      var merged := result.value;
      MergeNothing(merged, cache);
      if |p.fields| > 0 {
        merged := MergeFields(merged, p.fields);
      }
      Remember(name, merged);
      result := Some(merged);
    }

    /** The end of dfs: leave the stack, remember the result and write it back into the preset. */
    method Remember(name: string, merged: seq<Field>)
      requires Valid() && name in stack
      requires forall p <- Parents(defs, name) :: p in cache
      requires merged == Merge(MergeParents(Parents(defs, name), cache), defs[name].fields)
      modifies this
      ensures Valid() && stack == old(stack) - {name} && cache == old(cache)[name := merged]
    {
      hide Memo, WrittenBack, MergeParents, Merge, Parents;
      WriteBackOne(defs, cache, presets, name, merged);
      MemoGrows(defs, cache, rank, next, name, merged);
      stack := stack - {name};
      cache := cache[name := merged];
      rank, next := rank[name := next], next + 1;
      presets := presets[name := presets[name].(fields := merged)];
    }

    /** The loop of dfs over the parents of `name`, from left to right. */
    method MergeAncestors(name: string, parents: seq<string>, ghost path: seq<string>)
      returns (result: Option<seq<Field>>)
      requires Valid() && IsChain(defs, path) && name in stack && name == path[|path| - 1]
      requires name in defs && parents == Parents(defs, name)
      requires forall m: string :: m in stack <==> m in path
      modifies this
      ensures result.None? ==> MissingOrCyclic(defs)
      ensures result.Some? ==> Valid() && stack == old(stack)
      ensures result.Some? ==> forall p <- parents :: p in cache
      ensures result.Some? ==> result.value == MergeParents(parents, cache)
      ensures result.Some? ==> forall n | n in old(cache) :: n in cache && cache[n] == old(cache[n])
      decreases defs.Keys - stack, 1
    {
      hide Valid, Memo, MergeParents, Merge, IsChain, MissingOrCyclic, ParseParents;
      var merged: seq<Field> := [];
      MergeNothing([], cache);
      assert parents[..0] == [];
      for i := 0 to |parents|
        invariant Valid() && stack == old(stack)
        invariant forall n | n in old(cache) :: n in cache && cache[n] == old(cache[n])
        invariant forall q <- parents[..i] :: q in cache
        invariant merged == MergeParents(parents[..i], cache)
      {
        ExtendChain(defs, path, parents[i]);
        ghost var before := cache;
        var parentFields := Dfs(parents[i], path);
        if parentFields.None? {
          return None;
        }
        MergeParentsNext(parents, i, before, cache);
        merged := MergeFields(merged, parentFields.value);
      }
      assert parents[..|parents|] == parents;
      result := Some(merged);
    }

    /** The loop over all presets, in any order. */
    method ResolveAll() returns (ok: bool)
      requires Valid() && stack == {} && cache == map[]
      modifies this
      ensures ok <==> !MissingOrCyclic(defs)
      ensures ok ==> FullyResolved(defs, map n | n in presets :: presets[n].fields)
      ensures ok ==> Inherits(defs, map n | n in presets :: presets[n].fields)
    {
      hide Memo, WrittenBack, Merge, IsChain, MissingOrCyclic, FullyResolved, ParseParents, Inherits;
      SameNames(defs, cache, presets);
      var todo := presets.Keys;
      while todo != {}
        invariant Valid() && stack == {} && todo <= defs.Keys
        invariant defs.Keys - todo <= cache.Keys
      {
        var name :| name in todo;
        todo := todo - {name};
        ChainOfOne(defs, name);
        var result := Dfs(name, []);
        if result.None? {
          return false;
        }
      }
      AllWrittenBack(defs, cache, presets);
      MemoIsResolved(defs, cache, rank, next);
      ResolvedInherits(defs, map n | n in presets :: presets[n].fields);
      return true;
    }
  }

  /** The presets in the model: finished ones have their fields overwritten. */
  ghost predicate WrittenBack(defs: Defs, cache: map<string, seq<Field>>, presets: Defs) {
    && presets.Keys == defs.Keys
    && (forall n <- presets :: presets[n].parentNames == defs[n].parentNames)
    && (forall n <- presets :: presets[n].fields == if n in cache then cache[n] else defs[n].fields)
  }

  lemma WriteBackOne(defs: Defs, cache: map<string, seq<Field>>, presets: Defs, name: string, merged: seq<Field>)
    requires WrittenBack(defs, cache, presets) && name in defs
    ensures name in presets
    ensures WrittenBack(defs, cache[name := merged], presets[name := presets[name].(fields := merged)])
  {
  }

  lemma SameNames(defs: Defs, cache: map<string, seq<Field>>, presets: Defs)
    requires WrittenBack(defs, cache, presets)
    ensures presets.Keys == defs.Keys
  {
  }

  lemma AllWrittenBack(defs: Defs, cache: map<string, seq<Field>>, presets: Defs)
    requires WrittenBack(defs, cache, presets) && defs.Keys <= cache.Keys
    ensures (map n | n in presets :: presets[n].fields) == map n | n in defs :: cache[n]
  {
  }

  /** What the memo holds: presets solved from earlier entries of the memo. */
  ghost predicate Memo(defs: Defs, cache: map<string, seq<Field>>, rank: map<string, nat>, next: nat) {
    forall n <- cache :: n in defs && MemoAt(defs, cache, rank, next, n)
  }

  ghost predicate MemoAt(defs: Defs, cache: map<string, seq<Field>>, rank: map<string, nat>, next: nat, n: string)
    requires n in defs
  {
    n in rank && rank[n] < next && SolvedAt(defs, cache, n) && ParentsRankedBelow(defs, rank, n)
  }

  lemma ChainOfOne(defs: Defs, name: string)
    requires name in defs
    ensures IsChain(defs, [] + [name])
  {
  }

  lemma BadChain(defs: Defs, chain: seq<string>, name: string)
    requires IsChain(defs, chain + [name]) && (name in chain || name !in defs)
    ensures MissingOrCyclic(defs)
  {
    var path := chain + [name];
    assert path[|path| - 1] == name && path[..|path| - 1] == chain;
  }

  lemma MergeNothing(fields: seq<Field>, results: map<string, seq<Field>>)
    ensures Merge(fields, []) == fields && MergeParents([], results) == []
  {
  }

  lemma ExtendChain(defs: Defs, path: seq<string>, parent: string)
    requires IsChain(defs, path) && IsParent(defs, path[|path| - 1], parent)
    ensures IsChain(defs, path + [parent])
  {
  }

  lemma {:induction false} MergeParentsStable(parents: seq<string>, before: map<string, seq<Field>>,
                                              after: map<string, seq<Field>>)
    requires forall p <- parents :: p in before && p in after && before[p] == after[p]
    ensures MergeParents(parents, before) == MergeParents(parents, after)
  {
    hide Merge;
    if parents != [] {
      MergeParentsStable(parents[..|parents| - 1], before, after);
    }
  }

  lemma MergeParentsNext(parents: seq<string>, i: nat, before: map<string, seq<Field>>, after: map<string, seq<Field>>)
    requires i < |parents| && parents[i] in after
    requires forall p <- parents[..i] :: p in before
    requires forall n | n in before :: n in after && after[n] == before[n]
    ensures forall p <- parents[..i + 1] :: p in after
    ensures MergeParents(parents[..i + 1], after) == Merge(MergeParents(parents[..i], before), after[parents[i]])
  {
    hide Merge;
    MergeParentsStable(parents[..i], before, after);
    assert parents[..i + 1][..i] == parents[..i];
  }

  lemma SolvedStable(defs: Defs, cache: map<string, seq<Field>>, name: string, merged: seq<Field>, n: string)
    requires n in defs && name !in cache && SolvedAt(defs, cache, n)
    ensures SolvedAt(defs, cache[name := merged], n)
  {
    hide Merge, ParseParents;
    MergeParentsStable(Parents(defs, n), cache, cache[name := merged]);
  }

  lemma SolvedNew(defs: Defs, cache: map<string, seq<Field>>, name: string, merged: seq<Field>)
    requires name in defs && name !in cache
    requires forall p <- Parents(defs, name) :: p in cache
    requires merged == Merge(MergeParents(Parents(defs, name), cache), defs[name].fields)
    ensures SolvedAt(defs, cache[name := merged], name)
  {
    hide Merge, ParseParents;
    MergeParentsStable(Parents(defs, name), cache, cache[name := merged]);
  }

  lemma MemoGrows(defs: Defs, cache: map<string, seq<Field>>, rank: map<string, nat>, next: nat, name: string,
                  merged: seq<Field>)
    requires Memo(defs, cache, rank, next) && name in defs && name !in cache
    requires forall p <- Parents(defs, name) :: p in cache
    requires merged == Merge(MergeParents(Parents(defs, name), cache), defs[name].fields)
    ensures Memo(defs, cache[name := merged], rank[name := next], next + 1)
  {
    hide Merge, MergeParents, SolvedAt, ParseParents;
    var cache', rank' := cache[name := merged], rank[name := next];
    SolvedNew(defs, cache, name, merged);
    forall n <- cache' ensures n in defs && MemoAt(defs, cache', rank', next + 1, n) {
      forall p <- Parents(defs, n) ensures p in cache {
        SolvedParents(defs, cache, name, n);
      }
      if n != name {
        SolvedStable(defs, cache, name, merged, n);
      }
    }
  }

  lemma SolvedParents(defs: Defs, cache: map<string, seq<Field>>, name: string, n: string)
    requires n in defs
    requires n == name ==> forall p <- Parents(defs, name) :: p in cache
    requires n != name ==> SolvedAt(defs, cache, n)
    ensures forall p <- Parents(defs, n) :: p in cache
  {
  }

  lemma MemoIsResolved(defs: Defs, cache: map<string, seq<Field>>, rank: map<string, nat>, next: nat)
    requires Memo(defs, cache, rank, next) && defs.Keys <= cache.Keys
    ensures FullyResolved(defs, map n | n in defs :: cache[n]) && !MissingOrCyclic(defs)
  {
    hide Merge, MergeParents, ParseParents, MissingOrCyclic, Lineage, Parents, SolvedAt, ParentsRankedBelow;
    forall n <- defs ensures n in rank && ParentsRankedBelow(defs, rank, n) && SolvedAt(defs, cache, n) {
      assert MemoAt(defs, cache, rank, next, n);
    }
    assert RankedBy(defs, rank);
    RankExcludesMissingAndCyclic(defs);
    forall any, name | RankedBy(defs, any) && name in defs
      ensures cache[name] == Merge([], Lineage(defs, any, name))
    {
      SolutionIsMergedLineage(defs, any, cache, name);
    }
  }

  /** Two successful runs, in whatever orders, give the same presets, and in each of them a preset holds every key of
      its lineage once, at its first place, with its last value. */
  lemma OrderOfVisitsDoesNotMatter(defs: Defs, rank: map<string, nat>, a: map<string, seq<Field>>,
                                   b: map<string, seq<Field>>, name: string)
    requires FullyResolved(defs, a) && FullyResolved(defs, b) && RankedBy(defs, rank)
    ensures a == b
    ensures name in defs ==>
      name in a && UniqueKeys(a[name]) && IsMergeOf(Lineage(defs, rank, name), a[name])
  {
    hide Merge, Lineage, IsMergeOf, UniqueKeys, RankedBy;
    assert Resolved(defs, rank, a) && Resolved(defs, rank, b);
    if name in defs {
      MergeKeepsFirstPlaceLastValue(Lineage(defs, rank, name));
    }
  }
}
