/** Collecting the tails of a preset (internal/resolver/resolver.go:472-573) and serving them. */
module TailPresets {
  import opened Common
  import opened ChildRows
  import opened Hydration
  import opened Resolver
  import opened Unwrapping

  /** A preset of a model, and its fields that lead to relations. */
  type PresetId = (string, string)

  datatype TailField =
    | Has(alias: string, pk: string, fk: string, limitOne: bool, formatter: string, through: Option<Link>,
          nested: PresetId, child: Child)
    | BelongsTo(source: string, nested: PresetId)
    | Polymorphic(alias: string)

  /** The relations from the intermediate model to the target that the child request and finalizeItems find. */
  datatype Link = Link(key: string, again: string)

  type Presets = map<PresetId, seq<TailField>>

  /** The belongs_to preset graph is acyclic; the source recurses for ever where it is not. */
  ghost predicate BelongsToRanked(g: Presets, rank: PresetId -> nat) {
    forall id <- g :: forall i | 0 <= i < |g[id]| && g[id][i].BelongsTo? && g[id][i].nested in g ::
      rank(g[id][i].nested) < rank(id)
  }

  /** Whether one of the first `n` fields, or of the presets they belong to, has to be stitched. */
  predicate HasTails(g: Presets, ghost rank: PresetId -> nat, id: PresetId, n: nat)
    requires id in g && n <= |g[id]| && BelongsToRanked(g, rank)
    decreases rank(id), n
  {
    n > 0 && (
      HasTails(g, rank, id, n - 1)
      || match g[id][n - 1]
         case BelongsTo(_, nested) => nested in g && HasTails(g, rank, nested, |g[nested]|)
         case _ => true)
  }

  /** How the child call of a `through` relation treats its rows: the intermediate preset that it runs on has one
      field, which belongs to the nested preset. */
  function Passage(g: Presets, ghost rank: PresetId -> nat, through: Option<Link>, nested: PresetId):
    Option<Intermediate>
    requires BelongsToRanked(g, rank)
  {
    if through.None? then None
    else
      var unwrapped := nested in g && HasTails(g, rank, nested, |g[nested]|);
      Some(Intermediate(through.value.key, through.value.again, unwrapped))
  }

  /** collectTails, for the first `n` fields. */
  function CollectTails(g: Presets, ghost rank: PresetId -> nat, id: PresetId, prefix: seq<string>, n: nat): seq<Tail>
    requires id in g && n <= |g[id]| && BelongsToRanked(g, rank)
    decreases rank(id), n
  {
    if n == 0 then [] else CollectTails(g, rank, id, prefix, n - 1) + FieldTails(g, rank, id, prefix, n - 1)
  }

  function FieldTails(g: Presets, ghost rank: PresetId -> nat, id: PresetId, prefix: seq<string>, i: nat): seq<Tail>
    requires id in g && i < |g[id]| && BelongsToRanked(g, rank)
    decreases rank(id), i
  {
    match g[id][i]
    case Has(alias, pk, fk, limitOne, formatter, through, nested, child) =>
      [Tail(prefix, alias, pk, fk, limitOne, formatter, Passage(g, rank, through, nested), child)]
    case BelongsTo(source, nested) =>
      if nested !in g then [] else CollectTails(g, rank, nested, prefix + [source], |g[nested]|)
    case Polymorphic(_) => []
  }

  /** collectPolyTails: where the polymorphic fields are written. */
  function CollectPolyTails(g: Presets, ghost rank: PresetId -> nat, id: PresetId, prefix: seq<string>, n: nat):
    seq<seq<string>>
    requires id in g && n <= |g[id]| && BelongsToRanked(g, rank)
    decreases rank(id), n
  {
    if n == 0 then []
    else
      CollectPolyTails(g, rank, id, prefix, n - 1)
      + match g[id][n - 1]
        case Has(_, _, _, _, _, _, _, _) => []
        case BelongsTo(source, nested) =>
          if nested !in g then [] else CollectPolyTails(g, rank, nested, prefix + [source], |g[nested]|)
        case Polymorphic(alias) => [prefix + [alias]]
  }

  /** A child call unwraps its rows if and only if one of its two lists of tails is not empty. */
  lemma {:induction false} UnwrapsExactlyWithTails(g: Presets, rank: PresetId -> nat, id: PresetId,
                                                   prefix: seq<string>, n: nat)
    requires id in g && n <= |g[id]| && BelongsToRanked(g, rank)
    ensures HasTails(g, rank, id, n) <==>
            CollectTails(g, rank, id, prefix, n) != [] || CollectPolyTails(g, rank, id, prefix, n) != []
    decreases rank(id), n
  {
    if n > 0 {
      UnwrapsExactlyWithTails(g, rank, id, prefix, n - 1);
      RankFalls(g, rank, id, n - 1);
      if g[id][n - 1].BelongsTo? && g[id][n - 1].nested in g {
        var nested := g[id][n - 1].nested;
        UnwrapsExactlyWithTails(g, rank, nested, prefix + [g[id][n - 1].source], |g[nested]|);
      }
    }
  }

  /** The tail a has_ field makes below `prefix`. */
  ghost predicate IsTailOf(g: Presets, rank: PresetId -> nat, f: TailField, prefix: seq<string>, t: Tail)
    requires BelongsToRanked(g, rank)
  {
    && f.Has? && t.path == prefix && t.alias == f.alias && t.pk == f.pk && t.fk == f.fk
    && t.limitOne == f.limitOne && t.formatter == f.formatter && t.child == f.child
    && (t.through.Some? <==> f.through.Some?)
    && (t.through.Some? ==>
          && t.through.value.key == f.through.value.key && t.through.value.again == f.through.value.again
          && (t.through.value.unwrapped <==> f.nested in g && HasTails(g, rank, f.nested, |g[f.nested]|)))
  }

  /** The field the belongs_to fields with these indices lead to, and the sources on the way. */
  function EndOf(g: Presets, id: PresetId, prefix: seq<string>, route: seq<nat>): Option<(TailField, seq<string>)>
    decreases |route|
  {
    if route == [] || id !in g || route[0] >= |g[id]| then None
    else
      var f := g[id][route[0]];
      if |route| == 1 then Some((f, prefix))
      else if f.BelongsTo? then EndOf(g, f.nested, prefix + [f.source], route[1..])
      else None
  }

  /** The route stays within the first `n` fields and ends at a has_ field. */
  predicate ToTail(g: Presets, id: PresetId, prefix: seq<string>, n: nat, route: seq<nat>) {
    EndOf(g, id, prefix, route).Some? && EndOf(g, id, prefix, route).value.0.Has? && route[0] < n
  }

  /** In the order of the fields, those of a nested preset at the place of the field it belongs to. */
  predicate Before(a: seq<nat>, b: seq<nat>) {
    exists i :: 0 <= i < |a| && i < |b| && a[..i] == b[..i] && a[i] < b[i]
  }

  ghost predicate InOrder(routes: seq<seq<nat>>) {
    forall i, j | 0 <= i < j < |routes| :: Before(routes[i], routes[j])
  }

  /** These are all the routes to has_ fields, each once and in order, and the tails are those of their ends. */
  ghost predicate AreRoutes(g: Presets, rank: PresetId -> nat, id: PresetId, prefix: seq<string>, n: nat,
                            routes: seq<seq<nat>>, tails: seq<Tail>)
    requires BelongsToRanked(g, rank)
  {
    && InOrder(routes)
    && (forall route: seq<nat> :: route in routes <==> ToTail(g, id, prefix, n, route))
    && |tails| == |routes|
    && forall k | 0 <= k < |routes| :: IsTailAt(g, rank, EndOf(g, id, prefix, routes[k]), tails[k])
  }

  ghost predicate IsTailAt(g: Presets, rank: PresetId -> nat, end: Option<(TailField, seq<string>)>, t: Tail)
    requires BelongsToRanked(g, rank)
  {
    end.Some? && IsTailOf(g, rank, end.value.0, end.value.1, t)
  }

  /** The routes through the i-th field. */
  function Through(i: nat, routes: seq<seq<nat>>): seq<seq<nat>> {
    seq(|routes|, k requires 0 <= k < |routes| => [i] + routes[k])
  }

  lemma ThroughInOrder(before: seq<seq<nat>>, i: nat, routes: seq<seq<nat>>)
    requires InOrder(before) && InOrder(routes)
    requires forall route: seq<nat> | route in before :: route != [] && route[0] < i
    ensures InOrder(before + Through(i, routes))
  {
    hide Before;
    var all := before + Through(i, routes);
    forall a, b | 0 <= a < b < |all| ensures Before(all[a], all[b]) {
      if b >= |before| {
        assert all[b] == [i] + routes[b - |before|];
        if a < |before| {
          assert all[a] in before;
          SmallerFirst(all[a], all[b]);
        } else {
          BeforeBelow(i, routes[a - |before|], routes[b - |before|]);
        }
      }
    }
  }

  lemma SmallerFirst(a: seq<nat>, b: seq<nat>)
    requires a != [] && b != [] && a[0] < b[0]
    ensures Before(a, b)
  {
    assert a[..0] == b[..0];
  }

  lemma BeforeBelow(i: nat, a: seq<nat>, b: seq<nat>)
    requires Before(a, b)
    ensures Before([i] + a, [i] + b)
  {
    var k :| 0 <= k < |a| && k < |b| && a[..k] == b[..k] && a[k] < b[k];
    assert ([i] + a)[..k + 1] == [i] + a[..k] && ([i] + b)[..k + 1] == [i] + b[..k];
    assert ([i] + a)[k + 1] < ([i] + b)[k + 1];
  }

  lemma InThrough(i: nat, routes: seq<seq<nat>>, route: seq<nat>)
    ensures route in Through(i, routes) <==> route != [] && route[0] == i && route[1..] in routes
  {
    if route != [] && route[0] == i && route[1..] in routes {
      var k :| 0 <= k < |routes| && routes[k] == route[1..];
      assert Through(i, routes)[k] == route;
    }
    if route in Through(i, routes) {
      var k :| 0 <= k < |routes| && Through(i, routes)[k] == route;
      assert route[1..] == routes[k];
    }
  }

  lemma EndIsInside(g: Presets, id: PresetId, prefix: seq<string>, route: seq<nat>)
    ensures EndOf(g, id, prefix, route).Some? ==> route != [] && id in g && route[0] < |g[id]|
  {
  }

  lemma FirstOfRoute(g: Presets, id: PresetId, prefix: seq<string>, route: seq<nat>)
    requires id in g && route != [] && route[0] < |g[id]|
    ensures var f := g[id][route[0]];
      ToTail(g, id, prefix, route[0] + 1, route) <==>
        if f.BelongsTo? && f.nested in g then ToTail(g, f.nested, prefix + [f.source], |g[f.nested]|, route[1..])
        else f.Has? && route[1..] == []
  {
    var f := g[id][route[0]];
    if |route| == 1 {
      assert route[1..] == [];
    } else if f.BelongsTo? {
      assert EndOf(g, id, prefix, route) == EndOf(g, f.nested, prefix + [f.source], route[1..]);
      EndIsInside(g, f.nested, prefix + [f.source], route[1..]);
    }
  }

  /** What is left of the routes through the i-th field behind it. */
  ghost predicate RoutesBelow(g: Presets, rank: PresetId -> nat, id: PresetId, prefix: seq<string>, i: nat,
                              nested: seq<seq<nat>>)
    requires id in g && i < |g[id]| && BelongsToRanked(g, rank)
  {
    var f := g[id][i];
    if f.BelongsTo? && f.nested in g
    then AreRoutes(g, rank, f.nested, prefix + [f.source], |g[f.nested]|, nested,
                   CollectTails(g, rank, f.nested, prefix + [f.source], |g[f.nested]|))
    else nested == if f.Has? then [[]] else []
  }

  lemma FieldRoutes(g: Presets, rank: PresetId -> nat, id: PresetId, prefix: seq<string>, i: nat,
                    nested: seq<seq<nat>>)
    requires id in g && i < |g[id]| && BelongsToRanked(g, rank)
    requires RoutesBelow(g, rank, id, prefix, i, nested)
    ensures |Through(i, nested)| == |FieldTails(g, rank, id, prefix, i)| && InOrder(nested)
    ensures forall route: seq<nat> ::
      route in Through(i, nested) <==> ToTail(g, id, prefix, i + 1, route) && route[0] == i
    ensures forall k | 0 <= k < |Through(i, nested)| ::
      IsTailAt(g, rank, EndOf(g, id, prefix, Through(i, nested)[k]), FieldTails(g, rank, id, prefix, i)[k])
  {
    hide BelongsToRanked, HasTails, CollectTails, Before;
    var f := g[id][i];
    forall route: seq<nat>
      ensures route in Through(i, nested) <==> ToTail(g, id, prefix, i + 1, route) && route[0] == i
    {
      hide FieldTails, EndOf, Through, ToTail, IsTailAt, InOrder;
      InThrough(i, nested, route);
      if route != [] && route[0] == i {
        FirstOfRoute(g, id, prefix, route);
      }
    }
    forall k | 0 <= k < |nested|
      ensures IsTailAt(g, rank, EndOf(g, id, prefix, Through(i, nested)[k]), FieldTails(g, rank, id, prefix, i)[k])
    {
      assert Through(i, nested)[k] == [i] + nested[k] && ([i] + nested[k])[1..] == nested[k];
    }
  }

  lemma OneMoreField(g: Presets, rank: PresetId -> nat, id: PresetId, prefix: seq<string>, n: nat,
                     before: seq<seq<nat>>, nested: seq<seq<nat>>)
    requires id in g && 0 < n <= |g[id]| && BelongsToRanked(g, rank)
    requires AreRoutes(g, rank, id, prefix, n - 1, before, CollectTails(g, rank, id, prefix, n - 1))
    requires RoutesBelow(g, rank, id, prefix, n - 1, nested)
    ensures AreRoutes(g, rank, id, prefix, n, before + Through(n - 1, nested), CollectTails(g, rank, id, prefix, n))
  {
    hide BelongsToRanked, HasTails, IsTailAt, InOrder, EndOf, Through, FieldTails, RoutesBelow;
    FieldRoutes(g, rank, id, prefix, n - 1, nested);
    forall route: seq<nat> | route in before ensures route != [] && route[0] < n - 1 {
      assert ToTail(g, id, prefix, n - 1, route);
      hide ToTail;
      ToTailIsNotEmpty(g, id, prefix, n - 1, route);
    }
    ThroughInOrder(before, n - 1, nested);
  }

  lemma ToTailIsNotEmpty(g: Presets, id: PresetId, prefix: seq<string>, n: nat, route: seq<nat>)
    requires ToTail(g, id, prefix, n, route)
    ensures route != []
  {
  }

  /** What is collected are the tails of exactly the has_ fields reached over belongs_to fields, each once and in the
      order of the fields. */
  lemma {:induction false} CollectedInOrder(g: Presets, rank: PresetId -> nat, id: PresetId, prefix: seq<string>,
                                            n: nat) returns (routes: seq<seq<nat>>)
    requires id in g && n <= |g[id]| && BelongsToRanked(g, rank)
    ensures AreRoutes(g, rank, id, prefix, n, routes, CollectTails(g, rank, id, prefix, n))
    decreases rank(id), n
  {
    hide BelongsToRanked, HasTails, IsTailAt, AreRoutes, Through, EndOf, CollectTails;
    routes := [];
    if n == 0 {
      NoRoutes(g, rank, id, prefix);
    } else {
      var before := CollectedInOrder(g, rank, id, prefix, n - 1);
      RankFalls(g, rank, id, n - 1);
      var f := g[id][n - 1];
      var nested := if f.Has? then [[]] else [];
      if f.BelongsTo? && f.nested in g {
        nested := CollectedInOrder(g, rank, f.nested, prefix + [f.source], |g[f.nested]|);
      }
      OneMoreField(g, rank, id, prefix, n, before, nested);
      routes := before + Through(n - 1, nested);
    }
  }

  lemma NoRoutes(g: Presets, rank: PresetId -> nat, id: PresetId, prefix: seq<string>)
    requires id in g && BelongsToRanked(g, rank)
    ensures AreRoutes(g, rank, id, prefix, 0, [], CollectTails(g, rank, id, prefix, 0))
  {
  }

  /** The name under which a field's results live. */
  function Head(f: TailField): string {
    if f.BelongsTo? then f.source else f.alias
  }

  /** Within each preset the relation fields live under different names, none of which is a tail's parent key. */
  ghost predicate WellNamed(g: Presets) {
    forall id <- g :: WellNamedFields(g[id])
  }

  ghost predicate WellNamedFields(fields: seq<TailField>) {
    forall i, j | 0 <= i < |fields| && 0 <= j < |fields| && i != j ::
      Head(fields[i]) != Head(fields[j]) && (fields[j].Has? ==> Head(fields[i]) != fields[j].pk)
  }

  /** Every tail of a field lives under the field's name. */
  lemma {:induction false} TailsUnderHead(g: Presets, rank: PresetId -> nat, id: PresetId, prefix: seq<string>,
                                          i: nat, k: nat)
    requires id in g && i < |g[id]| && BelongsToRanked(g, rank) && k < |FieldTails(g, rank, id, prefix, i)|
    ensures var t := FieldTails(g, rank, id, prefix, i)[k];
      prefix + [Head(g[id][i])] <= Place(t) && (if g[id][i].Has? then t.path == prefix && t.pk == g[id][i].pk
                                                else prefix + [Head(g[id][i])] <= t.path)
    decreases rank(id), i, 0
  {
    if g[id][i].BelongsTo? {
      var nested := g[id][i].nested;
      TailsUnderPrefix(g, rank, nested, prefix + [g[id][i].source], |g[nested]|, k);
    }
  }

  lemma {:induction false} TailsUnderPrefix(g: Presets, rank: PresetId -> nat, id: PresetId, prefix: seq<string>,
                                            n: nat, k: nat)
    requires id in g && n <= |g[id]| && BelongsToRanked(g, rank) && k < |CollectTails(g, rank, id, prefix, n)|
    ensures prefix <= CollectTails(g, rank, id, prefix, n)[k].path
    decreases rank(id), n, 1
  {
    var before := CollectTails(g, rank, id, prefix, n - 1);
    if k < |before| {
      TailsUnderPrefix(g, rank, id, prefix, n - 1, k);
    } else {
      TailsUnderHead(g, rank, id, prefix, n - 1, k - |before|);
    }
  }

  /** The field a collected tail comes from. */
  lemma {:induction false} FieldOfTail(g: Presets, rank: PresetId -> nat, id: PresetId, prefix: seq<string>, n: nat,
                                       k: nat)
    returns (i: nat, m: nat)
    requires id in g && n <= |g[id]| && BelongsToRanked(g, rank) && k < |CollectTails(g, rank, id, prefix, n)|
    ensures i < n && m < |FieldTails(g, rank, id, prefix, i)|
    ensures CollectTails(g, rank, id, prefix, n)[k] == FieldTails(g, rank, id, prefix, i)[m]
    ensures k == |CollectTails(g, rank, id, prefix, i)| + m
    decreases n
  {
    var before := CollectTails(g, rank, id, prefix, n - 1);
    if k < |before| {
      i, m := FieldOfTail(g, rank, id, prefix, n - 1, k);
    } else {
      i, m := n - 1, k - |before|;
    }
  }

  lemma ApartByHead(prefix: seq<string>, a: string, b: string, p: seq<string>, q: seq<string>)
    requires a != b && prefix + [a] <= p && prefix + [b] <= q
    ensures Apart(p, q)
  {
    assert p[|prefix|] == a && q[|prefix|] == b;
  }

  ghost predicate TailsApart(t: Tail, u: Tail) {
    Apart(Place(t), Place(u)) && Apart(Place(t), KeyPlace(u))
  }

  lemma TailsOfTwoFields(g: Presets, rank: PresetId -> nat, id: PresetId, prefix: seq<string>, i: nat, m: nat, j: nat,
                         o: nat)
    requires id in g && i < |g[id]| && j < |g[id]| && i != j && BelongsToRanked(g, rank) && WellNamed(g)
    requires m < |FieldTails(g, rank, id, prefix, i)| && o < |FieldTails(g, rank, id, prefix, j)|
    ensures TailsApart(FieldTails(g, rank, id, prefix, i)[m], FieldTails(g, rank, id, prefix, j)[o])
  {
    hide CollectTails, Apart, BelongsToRanked;
    var t, u := FieldTails(g, rank, id, prefix, i)[m], FieldTails(g, rank, id, prefix, j)[o];
    var a, b := Head(g[id][i]), Head(g[id][j]);
    TailsUnderHead(g, rank, id, prefix, i, m);
    TailsUnderHead(g, rank, id, prefix, j, o);
    hide FieldTails;
    assert WellNamedFields(g[id]);
    ApartByHead(prefix, a, b, Place(t), Place(u));
    if g[id][j].Has? {
      ApartByHead(prefix, a, g[id][j].pk, Place(t), KeyPlace(u));
    } else {
      assert u.path <= KeyPlace(u);
      ApartByHead(prefix, a, b, Place(t), KeyPlace(u));
    }
  }

  lemma {:induction false} TailsOfOneField(g: Presets, rank: PresetId -> nat, id: PresetId, prefix: seq<string>,
                                           i: nat, m: nat, o: nat)
    requires id in g && i < |g[id]| && BelongsToRanked(g, rank) && WellNamed(g)
    requires m < |FieldTails(g, rank, id, prefix, i)| && o < |FieldTails(g, rank, id, prefix, i)| && m != o
    ensures TailsApart(FieldTails(g, rank, id, prefix, i)[m], FieldTails(g, rank, id, prefix, i)[o])
    decreases rank(id), 0
  {
    hide WellNamed, TailsApart;
    if g[id][i].BelongsTo? {
      var nested := g[id][i].nested;
      CollectedApart(g, rank, nested, prefix + [g[id][i].source], |g[nested]|, m, o);
    }
  }

  lemma {:induction false} CollectedApart(g: Presets, rank: PresetId -> nat, id: PresetId, prefix: seq<string>,
                                          n: nat, k: nat, l: nat)
    requires id in g && n <= |g[id]| && BelongsToRanked(g, rank) && WellNamed(g) && k != l
    requires k < |CollectTails(g, rank, id, prefix, n)| && l < |CollectTails(g, rank, id, prefix, n)|
    ensures TailsApart(CollectTails(g, rank, id, prefix, n)[k], CollectTails(g, rank, id, prefix, n)[l])
    decreases rank(id), 1
  {
    hide CollectTails, FieldTails, WellNamed, TailsApart, BelongsToRanked;
    var i, m := FieldOfTail(g, rank, id, prefix, n, k);
    var j, o := FieldOfTail(g, rank, id, prefix, n, l);
    if i == j {
      TailsOfOneField(g, rank, id, prefix, i, m, o);
    } else {
      TailsOfTwoFields(g, rank, id, prefix, i, m, j, o);
    }
  }

  /** A well-named acyclic preset graph yields independent tails. */
  lemma WellNamedPresetsAreIndependent(g: Presets, rank: PresetId -> nat, id: PresetId)
    requires id in g && BelongsToRanked(g, rank) && WellNamed(g)
    ensures Independent(CollectTails(g, rank, id, [], |g[id]|))
  {
    hide CollectTails, WellNamed, BelongsToRanked, Apart;
    var tails := CollectTails(g, rank, id, [], |g[id]|);
    forall k, l | 0 <= k < |tails| && 0 <= l < |tails| && k != l ensures TailsApart(tails[k], tails[l]) {
      CollectedApart(g, rank, id, [], |g[id]|, k, l);
    }
    forall k, l | 0 <= k < |tails| && 0 <= l < |tails| && k != l
      ensures Apart(Place(tails[k]), Place(tails[l])) && Apart(Place(tails[k]), KeyPlace(tails[l]))
    {
      assert TailsApart(tails[k], tails[l]);
    }
  }

  // ----- keys of collected tails -----

  predicate IsDotFree(name: string) {
    name != "" && '.' !in name
  }

  /** Relation names and aliases are plain names. */
  ghost predicate DotFree(g: Presets) {
    forall id <- g :: forall i | 0 <= i < |g[id]| :: IsDotFree(Head(g[id][i]))
  }

  predicate DotFreePath(p: seq<string>) {
    forall i | 0 <= i < |p| :: IsDotFree(p[i])
  }

  lemma LastDot(a: string, x: string, b: string, y: string)
    requires a + "." + x == b + "." + y && '.' !in x && '.' !in y
    ensures a == b && x == y
  {
    var s, t := a + "." + x, b + "." + y;
    assert s[|a|] == '.' && t[|b|] == '.';
    assert forall k | |a| < k < |s| :: s[k] == x[k - |a| - 1];
    assert forall k | |b| < k < |t| :: t[k] == y[k - |b| - 1];
    assert |a| == |b|;
    assert a == s[..|a|] && b == t[..|b|] && x == s[|a| + 1..] && y == t[|b| + 1..];
  }

  /** Dotted texts of dot-free names tell the names. */
  lemma {:induction false} JoinedInjective(p: seq<string>, q: seq<string>)
    requires p != [] && q != [] && DotFreePath(p) && DotFreePath(q) && Joined(p) == Joined(q)
    ensures p == q
    decreases |p|
  {
    var x, y := p[|p| - 1], q[|q| - 1];
    assert (|p| > 1 ==> '.' in Joined(p)) && (|q| > 1 ==> '.' in Joined(q));
    if |p| > 1 && |q| > 1 {
      LastDot(Joined(p[..|p| - 1]), x, Joined(q[..|q| - 1]), y);
      JoinedInjective(p[..|p| - 1], q[..|q| - 1]);
      assert p == p[..|p| - 1] + [x] && q == q[..|q| - 1] + [y];
    } else if |p| == 1 && |q| == 1 {
      assert p == [x] && q == [y];
    }
  }

  lemma KeyIsJoined(t: Tail)
    requires DotFreePath(Place(t))
    ensures Key(t) == Joined(Place(t))
  {
    assert Place(t)[..|t.path|] == t.path;
    if t.path != [] {
      assert IsDotFree(Place(t)[0]);
      JoinedIsText(t.path);
    }
  }

  lemma JoinedIsText(p: seq<string>)
    requires p != [] && p[0] != ""
    ensures Joined(p) != ""
  {
  }

  lemma {:induction false} CollectedDotFree(g: Presets, rank: PresetId -> nat, id: PresetId, prefix: seq<string>,
                                            n: nat, k: nat)
    requires id in g && n <= |g[id]| && BelongsToRanked(g, rank) && DotFree(g) && DotFreePath(prefix)
    requires k < |CollectTails(g, rank, id, prefix, n)|
    ensures DotFreePath(Place(CollectTails(g, rank, id, prefix, n)[k]))
    decreases rank(id), n
  {
    hide DotFree, BelongsToRanked;
    var before := CollectTails(g, rank, id, prefix, n - 1);
    if k < |before| {
      CollectedDotFree(g, rank, id, prefix, n - 1, k);
    } else {
      HeadIsDotFree(g, id, n - 1);
      RankFalls(g, rank, id, n - 1);
      if g[id][n - 1].BelongsTo? {
        var nested := g[id][n - 1].nested;
        CollectedDotFree(g, rank, nested, prefix + [g[id][n - 1].source], |g[nested]|, k - |before|);
      }
    }
  }

  lemma HeadIsDotFree(g: Presets, id: PresetId, i: nat)
    requires id in g && i < |g[id]| && DotFree(g)
    ensures IsDotFree(Head(g[id][i]))
  {
  }

  lemma RankFalls(g: Presets, rank: PresetId -> nat, id: PresetId, i: nat)
    requires id in g && i < |g[id]| && BelongsToRanked(g, rank)
    ensures g[id][i].BelongsTo? && g[id][i].nested in g ==> rank(g[id][i].nested) < rank(id)
  {
  }

  /** ... and distinct keys, if the names are dot-free. */
  lemma WellNamedPresetsHaveDistinctKeys(g: Presets, rank: PresetId -> nat, id: PresetId, items: seq<Row>)
    requires id in g && BelongsToRanked(g, rank) && WellNamed(g) && DotFree(g)
    ensures DistinctKeys(JobsOf(items, CollectTails(g, rank, id, [], |g[id]|)))
  {
    hide CollectTails, WellNamed, BelongsToRanked, DotFree, IdsOf, Key, Joined;
    var tails := CollectTails(g, rank, id, [], |g[id]|);
    forall k, l | 0 <= k < l < |tails| ensures Key(tails[k]) != Key(tails[l]) {
      CollectedApart(g, rank, id, [], |g[id]|, k, l);
      CollectedDotFree(g, rank, id, [], |g[id]|, k);
      CollectedDotFree(g, rank, id, [], |g[id]|, l);
      KeyIsJoined(tails[k]);
      KeyIsJoined(tails[l]);
      if Joined(Place(tails[k])) == Joined(Place(tails[l])) {
        JoinedInjective(Place(tails[k]), Place(tails[l]));
      }
    }
  }

  /** Collecting, hydrating and unwrapping together: on a well-named acyclic preset graph, under any complete
      interleaving, every parent ends up with what its own queries would have given it, as long as the limit is not
      passed. */
  method HydratePreset(items: seq<Row>, g: Presets, ghost rank: PresetId -> nat, id: PresetId, schedule: seq<nat>,
                       format: (string, Row) -> string)
    returns (out: Option<seq<Row>>)
    requires id in g && BelongsToRanked(g, rank) && WellNamed(g) && DotFree(g)
    requires Complete(Run(JobsOf(items, CollectTails(g, rank, id, [], |g[id]|)), schedule))
    ensures var tails := CollectTails(g, rank, id, [], |g[id]|);
      && (out.None? <==> SomeFails(JobsOf(items, tails)))
      && (out.Some? ==> OnlyTailsWritten(items, out.value, tails))
      && (out.Some? && AllWithinLimit(JobsOf(items, tails)) ==>
            IsServed(items, out.value, tails, format) && PlainTailsServed(items, out.value, tails, format))
  {
    hide CollectTails, WellNamed, BelongsToRanked, DotFree, IdsOf, DistinctKeys, Compatible, SomeFails, IsServed,
         OnlyTailsWritten, AllWithinLimit, IsHydrated, Complete, Run, Independent, OwnAnswers, Shared, PlainTailsServed;
    var tails := CollectTails(g, rank, id, [], |g[id]|);
    WellNamedPresetsAreIndependent(g, rank, id);
    WellNamedPresetsHaveDistinctKeys(g, rank, id, items);
    OwnIdsAreKept(JobsOf(items, tails));
    var stitched := HydrateTails(items, tails, schedule, format);
    if stitched.None? {
      return None;
    }
    DistinctKeysHaveOwnAnswers(JobsOf(items, tails));
    StitchedLength(items, stitched.value, tails);
    var settled := UnwrapTails(stitched.value, tails);
    SettledIsServed(items, stitched.value, settled, tails, format);
    if AllWithinLimit(JobsOf(items, tails)) {
      ServedPlainTails(items, settled, tails, format);
    }
    return Some(settled);
  }

  lemma StitchedLength(items: seq<Row>, out: seq<Row>, tails: seq<Tail>)
    requires OnlyTailsWritten(items, out, tails)
    ensures |out| == |items|
  {
  }
}
