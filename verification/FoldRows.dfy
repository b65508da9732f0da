/** Folding a flat row with dotted keys into a nested record (internal/model/ScanFlatRows.go:89-136) and
    reading it back by dotted path (internal/resolver/finalizeItems.go:930-941). */
module FoldRows {
  import opened Common

  datatype Tree<V> = Leaf(value: V) | Node(children: map<string, Tree<V>>)

  // ----- dotted keys -----

  function DotAt(k: string): (n: nat)
    ensures n <= |k|
  {
    if k == "" || k[0] == '.' then 0 else 1 + DotAt(k[1..])
  }

  predicate HasDot(k: string) {
    DotAt(k) < |k|
  }

  function Head(k: string): string {
    k[..DotAt(k)]
  }

  function Tail(k: string): string
    requires HasDot(k)
  {
    k[DotAt(k) + 1..]
  }

  predicate IsName(h: string) {
    DotAt(h) == |h|
  }

  predicate EndsInDot(k: string) {
    k != "" && k[|k| - 1] == '.'
  }

  lemma {:induction false} FirstDot(h: string, t: string)
    requires IsName(h)
    ensures DotAt(h + "." + t) == |h|
    ensures HasDot(h + "." + t) && Head(h + "." + t) == h && Tail(h + "." + t) == t
  {
    if h != "" {
      assert (h + "." + t)[1..] == h[1..] + "." + t;
      FirstDot(h[1..], t);
    }
  }

  lemma {:induction false} SplitAtDot(k: string)
    ensures IsName(Head(k))
    ensures HasDot(k) ==> k == Head(k) + "." + Tail(k)
    ensures !HasDot(k) ==> Head(k) == k
  {
    if k != "" && k[0] != '.' {
      SplitAtDot(k[1..]);
      assert Head(k)[1..] == Head(k[1..]);
      if HasDot(k) {
        assert k == [k[0]] + k[1..] && Head(k) == [k[0]] + Head(k[1..]);
      }
    }
  }

  // ----- folding -----

  /** The tails of the keys below `h`. */
  function Tails(keys: set<string>, h: string): set<string> {
    set k | k in keys && HasDot(k) && Head(k) == h && Tail(k) != "" :: Tail(k)
  }

  function Bucket<V>(flat: map<string, V>, keys: set<string>, h: string): map<string, V> {
    map t | t in Tails(keys, h) && h + "." + t in flat :: flat[h + "." + t]
  }

  ghost function Longest(keys: set<string>): (n: nat)
    ensures forall k <- keys :: |k| <= n
    ensures keys != {} ==> exists k <- keys :: |k| == n
  {
    if keys == {} then 0
    else
      var k :| k in keys;
      var rest := Longest(keys - {k});
      assert keys == keys - {k} + {k};
      if |k| > rest then |k| else rest
  }

  lemma BucketIsShorter<V>(flat: map<string, V>, h: string)
    requires Bucket(flat, flat.Keys, h) != map[]
    ensures Longest(Bucket(flat, flat.Keys, h).Keys) < Longest(flat.Keys)
  {
    var bucket := Bucket(flat, flat.Keys, h);
    assert bucket.Keys != {};
    var t :| t in bucket.Keys && |t| == Longest(bucket.Keys);
    assert h + "." + t in flat.Keys;
  }

  /** FoldFlatRowByPreset: a group of keys below a head wins over a leaf of that name, "head." over "head". */
  ghost function Fold<V>(flat: map<string, V>): map<string, Tree<V>>
    decreases Longest(flat.Keys), 1
  {
    map h | h in (set k | k in flat :: Head(k)) :: FoldHead(flat, h)
  }

  ghost function FoldHead<V>(flat: map<string, V>, h: string): Tree<V>
    requires h in set k | k in flat :: Head(k)
    decreases Longest(flat.Keys), 0
  {
    var bucket := Bucket(flat, flat.Keys, h);
    if bucket != map[] then
      BucketIsShorter(flat, h);
      Node(Fold(bucket))
    else if h + "." in flat then Leaf(flat[h + "."])
    else
      LeafKey(flat, h);
      Leaf(flat[h])
  }

  lemma InBucket<V>(flat: map<string, V>, h: string, t: string)
    ensures t in Bucket(flat, flat.Keys, h) ==>
      h + "." + t in flat && Bucket(flat, flat.Keys, h)[t] == flat[h + "." + t] && t != ""
    ensures IsName(h) && t != "" && h + "." + t in flat ==> t in Bucket(flat, flat.Keys, h)
  {
    if IsName(h) && t != "" && h + "." + t in flat {
      FirstDot(h, t);
      assert t in Tails(flat.Keys, h);
    }
  }

  lemma LeafKey<V>(flat: map<string, V>, h: string)
    requires h in (set k | k in flat :: Head(k)) && Bucket(flat, flat.Keys, h) == map[] && h + "." !in flat
    ensures h in flat
  {
    var k :| k in flat && Head(k) == h;
    SplitAtDot(k);
    assert h + "." + "" == h + ".";
    if HasDot(k) {
      InBucket(flat, h, Tail(k));
    }
  }

  // ----- flattening -----

  /** The value of a dotted key. */
  function FlatAt<V>(t: Tree<V>, k: string): Option<V>
    decreases |k|
  {
    if t.Leaf? then None
    else if !HasDot(k) then
      if k in t.children && t.children[k].Leaf? then Some(t.children[k].value) else None
    else if Head(k) in t.children && t.children[Head(k)].Node? then FlatAt(t.children[Head(k)], Tail(k))
    else None
  }

  ghost function FlatKeys<V>(t: Tree<V>): set<string> {
    match t
    case Leaf(_) => {}
    case Node(c) =>
      (set h | h in c && c[h].Leaf? :: h) + (set h, k | h in c && c[h].Node? && k in FlatKeys(c[h]) :: h + "." + k)
  }

  /** One entry per leaf, keyed by the names on its way. */
  ghost function Flatten<V>(t: Tree<V>): map<string, V> {
    map k | k in FlatKeys(t) && FlatAt(t, k).Some? :: FlatAt(t, k).value
  }

  ghost predicate Named<V>(t: Tree<V>) {
    match t
    case Leaf(_) => true
    case Node(c) => forall h <- c :: IsName(h) && Named(c[h])
  }

  lemma {:induction false} FlatKeysAre<V>(t: Tree<V>, k: string)
    requires Named(t)
    ensures k in FlatKeys(t) <==> FlatAt(t, k).Some?
    decreases t
  {
    if t.Node? {
      var c := t.children;
      SplitAtDot(k);
      if HasDot(k) && Head(k) in c && c[Head(k)].Node? {
        FlatKeysAre(c[Head(k)], Tail(k));
      }
      forall h, l | h in c && c[h].Node? && l in FlatKeys(c[h]) && h + "." + l == k
        ensures h == Head(k) && l == Tail(k) && HasDot(k) {
        FirstDot(h, l);
      }
    }
  }

  lemma {:induction false} FoldIsNamed<V>(flat: map<string, V>)
    ensures Named(Node(Fold(flat)))
    decreases Longest(flat.Keys)
  {
    forall h <- Fold(flat) ensures IsName(h) && Named(Fold(flat)[h]) {
      var k :| k in flat && Head(k) == h;
      SplitAtDot(k);
      if Bucket(flat, flat.Keys, h) != map[] {
        BucketIsShorter(flat, h);
        FoldIsNamed(Bucket(flat, flat.Keys, h));
      }
    }
  }

  // ----- round trip -----

  /** No key ends in a dot, and none is a dotted prefix of another. */
  ghost predicate Clean<V>(flat: map<string, V>) {
    && (forall k <- flat :: !EndsInDot(k))
    && (forall k <- flat, l <- flat :: !(k + "." <= l))
  }

  /** What a folded row holds under a key. */
  lemma FoldedAt<V>(flat: map<string, V>, k: string)
    ensures var h := Head(k);
      var bucket := Bucket(flat, flat.Keys, h);
      FlatAt(Node(Fold(flat)), k)
      == if HasDot(k) then if bucket != map[] then FlatAt(Node(Fold(bucket)), Tail(k)) else None
         else if bucket != map[] then None
         else if k + "." in flat then Some(flat[k + "."])
         else if k in flat then Some(flat[k])
         else None
  {
    hide Fold, DotAt, Bucket, HasDot, Tails;
    SplitAtDot(k);
    FoldEntry(flat, Head(k));
  }

  lemma FoldEntry<V>(flat: map<string, V>, h: string)
    requires IsName(h)
    ensures var bucket := Bucket(flat, flat.Keys, h);
      if bucket != map[] then h in Fold(flat) && Fold(flat)[h] == Node(Fold(bucket))
      else if h + "." in flat then h in Fold(flat) && Fold(flat)[h] == Leaf(flat[h + "."])
      else if h in flat then h in Fold(flat) && Fold(flat)[h] == Leaf(flat[h])
      else h !in Fold(flat)
  {
    hide DotAt, Bucket;
    HeadsAre(flat, h);
    var bucket := Bucket(flat, flat.Keys, h);
    assert h in Fold(flat) ==> Fold(flat)[h] == FoldHead(flat, h);
  }

  lemma HeadsAre<V>(flat: map<string, V>, h: string)
    requires IsName(h)
    ensures h in (set k | k in flat :: Head(k)) <==> Bucket(flat, flat.Keys, h) != map[] || h + "." in flat || h in flat
  {
    hide Bucket;
    FirstDot(h, "");
    assert h + "." + "" == h + ".";
    if t :| t in Bucket(flat, flat.Keys, h) {
      InBucket(flat, h, t);
      FirstDot(h, t);
    }
    if h in flat {
      assert Head(h) == h;
    }
    if h in set k | k in flat :: Head(k) {
      if Bucket(flat, flat.Keys, h) == map[] && h + "." !in flat {
        LeafKey(flat, h);
      }
    }
  }

  lemma BucketIsClean<V>(flat: map<string, V>, h: string)
    requires Clean(flat)
    ensures Clean(Bucket(flat, flat.Keys, h))
  {
    hide Bucket;
    var bucket := Bucket(flat, flat.Keys, h);
    forall t <- bucket ensures !EndsInDot(t) {
      InBucket(flat, h, t);
      assert !EndsInDot(h + "." + t);
    }
    forall t <- bucket, u <- bucket ensures !(t + "." <= u) {
      InBucket(flat, h, t);
      InBucket(flat, h, u);
      assert !((h + "." + t) + "." <= h + "." + u);
    }
  }

  /** Every value of a clean row is found under its key, and nothing else. */
  lemma {:induction false} FoldKeepsRow<V>(flat: map<string, V>, k: string)
    requires Clean(flat)
    ensures FlatAt(Node(Fold(flat)), k) == if k in flat then Some(flat[k]) else None
    decreases Longest(flat.Keys)
  {
    hide Fold, FlatAt, Bucket;
    FoldedAt(flat, k);
    SplitAtDot(k);
    var h := Head(k);
    var bucket := Bucket(flat, flat.Keys, h);
    if HasDot(k) {
      InBucket(flat, h, Tail(k));
      assert k in flat ==> Tail(k) != "";
      if bucket != map[] {
        BucketIsShorter(flat, h);
        BucketIsClean(flat, h);
        FoldKeepsRow(bucket, Tail(k));
      }
    } else {
      if t :| t in bucket {
        InBucket(flat, h, t);
        assert k + "." <= h + "." + t;
      }
      assert k + "." in flat ==> EndsInDot(k + ".");
    }
  }

  /** A longer key goes on behind `k` and a dot. */
  ghost predicate GoesOn<V>(flat: map<string, V>, k: string) {
    exists t: string :: t != "" && k + "." + t in flat
  }

  lemma GoesOnInBucket<V>(flat: map<string, V>, h: string, tail: string)
    requires IsName(h)
    ensures GoesOn(flat, h + "." + tail) <==> GoesOn(Bucket(flat, flat.Keys, h), tail)
    ensures GoesOn(flat, h) <==> Bucket(flat, flat.Keys, h) != map[]
  {
    hide Bucket, IsName;
    var bucket := Bucket(flat, flat.Keys, h);
    forall t: string ensures tail + "." + t in bucket <==> h + "." + tail + "." + t in flat {
      InBucket(flat, h, tail + "." + t);
      assert h + "." + (tail + "." + t) == h + "." + tail + "." + t;
    }
    if GoesOn(flat, h) {
      var t: string :| t != "" && h + "." + t in flat;
      InBucket(flat, h, t);
    }
    if t :| t in bucket {
      InBucket(flat, h, t);
      assert t != "" && h + "." + t in flat;
    }
  }

  /** What any row is folded to, clean or not: a longer key hides the shorter ones, and a trailing dot is dropped but
      wins over the plain key. */
  lemma {:induction false} FoldedExactly<V>(flat: map<string, V>, k: string)
    ensures FlatAt(Node(Fold(flat)), k)
         == if GoesOn(flat, k) then None
            else if k + "." in flat then Some(flat[k + "."])
            else if k in flat && !EndsInDot(k) then Some(flat[k])
            else None
    decreases Longest(flat.Keys)
  {
    hide Fold, FlatAt, Bucket, HasDot, Head, GoesOn, EndsInDot;
    FoldedAt(flat, k);
    SplitAtDot(k);
    var h := Head(k);
    var bucket := Bucket(flat, flat.Keys, h);
    GoesOnInBucket(flat, h, if HasDot(k) then Tail(k) else "");
    if HasDot(k) {
      if bucket != map[] {
        BucketIsShorter(flat, h);
        FoldedExactly(bucket, Tail(k));
      }
      InBucket(flat, h, Tail(k));
      InBucket(flat, h, Tail(k) + ".");
      EndOfTail(h, Tail(k));
      NothingGoesOn<V>(Tail(k));
      TrailingDot(h);
    } else {
      NamesEndInNoDot(k);
    }
  }

  lemma NothingGoesOn<V>(k: string)
    ensures !GoesOn<V>(map[], k)
  {
  }

  lemma TrailingDot(h: string)
    ensures EndsInDot(h + "." + "")
  {
    assert h + "." + "" == h + ".";
  }

  /** The name under which a trailing dot is lost. */
  lemma {:induction false} FlatComesFrom<V>(flat: map<string, V>, k: string)
    requires FlatAt(Node(Fold(flat)), k).Some?
    ensures (k in flat && !EndsInDot(k)) || k + "." in flat
    decreases Longest(flat.Keys)
  {
    hide Fold, FlatAt, Bucket, Head, EndsInDot, HasDot;
    FoldedAt(flat, k);
    SplitAtDot(k);
    var h := Head(k);
    var bucket := Bucket(flat, flat.Keys, h);
    if HasDot(k) {
      BucketIsShorter(flat, h);
      FlatComesFrom(bucket, Tail(k));
      InBucket(flat, h, Tail(k));
      InBucket(flat, h, Tail(k) + ".");
      EndOfTail(h, Tail(k));
    } else {
      NamesEndInNoDot(k);
    }
  }

  lemma EndOfTail(h: string, t: string)
    ensures h + "." + (t + ".") == h + "." + t + "."
    ensures t != "" ==> (EndsInDot(h + "." + t) <==> EndsInDot(t))
  {
  }

  lemma {:induction false} NamesEndInNoDot(k: string)
    requires IsName(k)
    ensures !EndsInDot(k)
  {
    if |k| > 1 {
      NamesEndInNoDot(k[1..]);
    }
  }

  /** No key of a tree is a dotted prefix of another. */
  lemma {:induction false} TreeKeysArePrefixFree<V>(t: Tree<V>, k: string, l: string)
    requires FlatAt(t, k).Some? && k + "." <= l
    ensures FlatAt(t, l).None?
    decreases |k|
  {
    SplitAtDot(k);
    var rest := l[|k| + 1..];
    assert l == k + "." + rest;
    if HasDot(k) {
      assert l == Head(k) + "." + (Tail(k) + "." + rest);
      FirstDot(Head(k), Tail(k) + "." + rest);
      TreeKeysArePrefixFree(t.children[Head(k)], Tail(k), Tail(l));
    } else {
      FirstDot(k, rest);
    }
  }

  ghost predicate KeepsRow<V>(flat: map<string, V>) {
    forall k :: FlatAt(Node(Fold(flat)), k) == if k in flat then Some(flat[k]) else None
  }

  lemma {:induction false} TrailingDotGoesOn<V>(flat: map<string, V>, k: string)
    requires KeepsRow(flat)
    ensures !(k in flat && EndsInDot(k))
    decreases Longest(flat.Keys) - |k|
  {
    if k in flat && EndsInDot(k) {
      assert k in flat.Keys;
      assert FlatAt(Node(Fold(flat)), k).Some?;
      FlatComesFrom(flat, k);
      assert k + "." in flat.Keys;
      TrailingDotGoesOn(flat, k + ".");
    }
  }

  lemma FlattenedIs<V>(flat: map<string, V>)
    ensures Flatten(Node(Fold(flat))) == flat <==> KeepsRow(flat)
  {
    hide Fold, FlatAt, FlatKeys;
    var t := Node(Fold(flat));
    FoldIsNamed(flat);
    forall k ensures k in Flatten(t) <==> FlatAt(t, k).Some? {
      FlatKeysAre(t, k);
    }
    if KeepsRow(flat) {
      assert forall k :: k in Flatten(t) <==> k in flat;
    } else {
      var k :| FlatAt(t, k) != if k in flat then Some(flat[k]) else None;
      assert k in Flatten(t) ==> Flatten(t)[k] == FlatAt(t, k).value;
    }
  }

  /** Folding and flattening give back the row if and only if its keys are clean. */
  lemma FoldThenFlatten<V>(flat: map<string, V>)
    ensures Flatten(Node(Fold(flat))) == flat <==> Clean(flat)
  {
    hide Fold, FlatAt, FlatKeys, Flatten;
    FlattenedIs(flat);
    if Clean(flat) {
      forall k ensures FlatAt(Node(Fold(flat)), k) == if k in flat then Some(flat[k]) else None {
        FoldKeepsRow(flat, k);
      }
    }
    if KeepsRow(flat) {
      forall k <- flat ensures !EndsInDot(k) {
        TrailingDotGoesOn(flat, k);
      }
      forall k <- flat, l <- flat ensures !(k + "." <= l) {
        if k + "." <= l {
          assert FlatAt(Node(Fold(flat)), k).Some? && FlatAt(Node(Fold(flat)), l).Some?;
          TreeKeysArePrefixFree(Node(Fold(flat)), k, l);
        }
      }
    }
  }

  // ----- reading by dotted path -----

  /** strings.Split by dots. */
  function Parts(path: string): (r: seq<string>)
    ensures r != []
    decreases |path|
  {
    if HasDot(path) then [Head(path)] + Parts(Tail(path)) else [path]
  }

  /** The walk through nested records; None for nil. */
  function Walk<V>(t: Option<Tree<V>>, parts: seq<string>): Option<Tree<V>>
    decreases |parts|
  {
    if parts == [] then t
    else if t.Some? && t.value.Node? then
      Walk(if parts[0] in t.value.children then Some(t.value.children[parts[0]]) else None, parts[1..])
    else None
  }

  method GetNested<V>(m: map<string, Tree<V>>, path: string) returns (r: Option<Tree<V>>)
    ensures r == Walk(Some(Node(m)), Parts(path))
  {
    var parts := Parts(path);
    r := Some(Node(m));
    for i := 0 to |parts|
      invariant Walk(r, parts[i..]) == Walk(Some(Node(m)), Parts(path))
    {
      assert parts[i..][0] == parts[i] && parts[i..][1..] == parts[i + 1..];
      if r.Some? && r.value.Node? {
        r := if parts[i] in r.value.children then Some(r.value.children[parts[i]]) else None;
      } else {
        return None;
      }
    }
  }

  lemma {:induction false} WalkFindsLeaf<V>(t: Tree<V>, k: string)
    requires FlatAt(t, k).Some?
    ensures Walk(Some(t), Parts(k)) == Some(Leaf(FlatAt(t, k).value))
    decreases |k|
  {
    if HasDot(k) {
      WalkFindsLeaf(t.children[Head(k)], Tail(k));
      assert Parts(k)[1..] == Parts(Tail(k)) && Parts(k)[0] == Head(k);
    } else {
      assert Parts(k) == [k] && Parts(k)[1..] == [];
    }
  }

  /** A dotted walk in the folded row finds each original value. */
  lemma FoldedValueIsFound<V>(flat: map<string, V>, k: string)
    requires Clean(flat) && k in flat
    ensures Walk(Some(Node(Fold(flat))), Parts(k)) == Some(Leaf(flat[k]))
  {
    FoldKeepsRow(flat, k);
    WalkFindsLeaf(Node(Fold(flat)), k);
  }

  // ----- the loops -----

  method CollectLeaves<V>(flat: map<string, V>) returns (res: map<string, Tree<V>>)
    ensures forall k :: k in res <==> k in flat && !HasDot(k)
    ensures forall k <- res :: res[k] == Leaf(flat[k])
  {
    hide HasDot;
    res := map[];
    var todo := flat.Keys;
    while todo != {}
      invariant todo <= flat.Keys
      invariant forall k :: k in res <==> k in flat.Keys - todo && !HasDot(k)
      invariant forall k <- res :: res[k] == Leaf(flat[k])
    {
      var k :| k in todo;
      todo := todo - {k};
      if !HasDot(k) {
        res := res[k := Leaf(flat[k])];
      }
    }
  }

  lemma BucketStep<V>(flat: map<string, V>, keys: set<string>, k: string, h: string)
    requires k in flat && k !in keys
    ensures Bucket(flat, keys + {k}, h)
         == if HasDot(k) && h == Head(k) && Tail(k) != "" then Bucket(flat, keys, h)[Tail(k) := flat[k]]
            else Bucket(flat, keys, h)
  {
    hide DotAt;
    SplitAtDot(k);
    assert Tails(keys + {k}, h)
        == if HasDot(k) && h == Head(k) && Tail(k) != "" then Tails(keys, h) + {Tail(k)} else Tails(keys, h);
  }

  /** The buckets by first name, once the keys `done` are looked at. */
  ghost predicate Grouped<V>(flat: map<string, V>, done: set<string>, buckets: map<string, map<string, V>>) {
    && (forall h :: h in buckets <==> Bucket(flat, done, h) != map[])
    && (forall h <- buckets :: buckets[h] == Bucket(flat, done, h))
  }

  function BucketAt<V>(buckets: map<string, map<string, V>>, h: string): map<string, V> {
    if h in buckets then buckets[h] else map[]
  }

  lemma GroupOneMore<V>(flat: map<string, V>, done: set<string>, buckets: map<string, map<string, V>>, k: string)
    requires k in flat && k !in done && Grouped(flat, done, buckets)
    ensures if HasDot(k) && Tail(k) != "" then
              Grouped(flat, done + {k}, buckets[Head(k) := BucketAt(buckets, Head(k))[Tail(k) := flat[k]]])
            else Grouped(flat, done + {k}, buckets)
  {
    hide Bucket, DotAt, Head, HasDot, Tail;
    forall h ensures Bucket(flat, done + {k}, h)
         == if HasDot(k) && h == Head(k) && Tail(k) != "" then Bucket(flat, done, h)[Tail(k) := flat[k]]
            else Bucket(flat, done, h)
    {
      BucketStep(flat, done, k, h);
    }
    if HasDot(k) && Tail(k) != "" {
      assert Tail(k) in Bucket(flat, done + {k}, Head(k));
      assert BucketAt(buckets, Head(k)) == Bucket(flat, done, Head(k));
    }
  }

  /** The leaves, once the keys `done` are looked at for a trailing dot. */
  ghost predicate LeavesAre<V>(flat: map<string, V>, done: set<string>, res: map<string, Tree<V>>) {
    forall h :: (h in res <==> IsName(h) && (h in flat || h + "." in done))
             && (h in res && h + "." in done && h + "." in flat ==> res[h] == Leaf(flat[h + "."]))
             && (h in res && h + "." !in done && h in flat ==> res[h] == Leaf(flat[h]))
  }

  lemma LeafOneMore<V>(flat: map<string, V>, done: set<string>, res: map<string, Tree<V>>, k: string)
    requires k in flat && LeavesAre(flat, done, res)
    ensures LeavesAre(flat, done + {k}, if HasDot(k) && Tail(k) == "" then res[Head(k) := Leaf(flat[k])] else res)
  {
    hide DotAt;
    SplitAtDot(k);
    if HasDot(k) && Tail(k) == "" {
      assert k == Head(k) + ".";
    }
    forall h | IsName(h) && h + "." == k ensures HasDot(k) && Tail(k) == "" && h == Head(k) {
      FirstDot(h, "");
      assert h + "." + "" == h + ".";
    }
  }

  method GroupTails<V>(flat: map<string, V>, leaves: map<string, Tree<V>>)
    returns (res: map<string, Tree<V>>, buckets: map<string, map<string, V>>)
    requires LeavesAre(flat, {}, leaves)
    ensures LeavesAre(flat, flat.Keys, res) && Grouped(flat, flat.Keys, buckets)
  {
    hide LeavesAre, Grouped, HasDot, Head, Tail;
    res, buckets := leaves, map[];
    NothingGrouped(flat);
    var todo := flat.Keys;
    assert flat.Keys - todo == {};
    while todo != {}
      invariant todo <= flat.Keys
      invariant LeavesAre(flat, flat.Keys - todo, res) && Grouped(flat, flat.Keys - todo, buckets)
    {
      var k :| k in todo;
      GroupOneMore(flat, flat.Keys - todo, buckets, k);
      LeafOneMore(flat, flat.Keys - todo, res, k);
      assert flat.Keys - (todo - {k}) == flat.Keys - todo + {k};
      todo := todo - {k};
      if HasDot(k) {
        var head, tail := Head(k), Tail(k);
        if tail == "" {
          res := res[head := Leaf(flat[k])];
        } else {
          buckets := buckets[head := BucketAt(buckets, head)[tail := flat[k]]];
        }
      }
    }
    assert flat.Keys - todo == flat.Keys;
  }

  lemma NothingGrouped<V>(flat: map<string, V>)
    ensures Grouped(flat, {}, map[])
  {
  }

  /** FoldFlatRowByPreset: keys and groups in any order. */
  method FoldRow<V>(flat: map<string, V>) returns (res: map<string, Tree<V>>)
    ensures res == Fold(flat)
    decreases Longest(flat.Keys)
  {
    hide Fold, Bucket, HasDot, LeavesAre, Tails;
    var leaves := CollectLeaves(flat);
    LeavesAtFirst(flat, leaves);
    var folded, buckets := GroupTails(flat, leaves);
    res := folded;
    var todo := buckets.Keys;
    while todo != {}
      invariant todo <= buckets.Keys
      invariant forall h :: h in res <==> h in folded || h in buckets.Keys - todo
      invariant forall h <- res ::
        res[h] == if h in buckets.Keys - todo then Node(Fold(Bucket(flat, flat.Keys, h))) else folded[h]
    {
      var head :| head in todo;
      todo := todo - {head};
      BucketIsShorter(flat, head);
      var sub := FoldRow(buckets[head]);
      res := res[head := Node(sub)];
    }
    FoldedIs(flat, folded, buckets, res);
  }

  lemma LeavesAtFirst<V>(flat: map<string, V>, leaves: map<string, Tree<V>>)
    requires forall k :: k in leaves <==> k in flat && !HasDot(k)
    requires forall k <- leaves :: leaves[k] == Leaf(flat[k])
    ensures LeavesAre(flat, {}, leaves)
  {
    hide DotAt;
    forall h ensures IsName(h) <==> !HasDot(h) {
    }
  }

  lemma FoldedIs<V>(flat: map<string, V>, folded: map<string, Tree<V>>, buckets: map<string, map<string, V>>,
                    res: map<string, Tree<V>>)
    requires LeavesAre(flat, flat.Keys, folded) && Grouped(flat, flat.Keys, buckets)
    requires forall h :: h in res <==> h in folded || h in buckets
    requires forall h <- res :: res[h] == if h in buckets then Node(Fold(Bucket(flat, flat.Keys, h))) else folded[h]
    ensures res == Fold(flat)
  {
    hide Fold, Bucket, DotAt;
    forall h ensures (h in res <==> h in Fold(flat)) && (h in res ==> res[h] == Fold(flat)[h]) {
      if IsName(h) {
        FoldEntry(flat, h);
      } else {
        NoNameNoEntry(flat, h);
      }
    }
  }

  lemma NoNameNoEntry<V>(flat: map<string, V>, h: string)
    requires !IsName(h)
    ensures h !in Fold(flat) && Bucket(flat, flat.Keys, h) == map[]
  {
    forall k <- flat ensures Head(k) != h {
      SplitAtDot(k);
    }
    assert Tails(flat.Keys, h) == {};
  }
}
