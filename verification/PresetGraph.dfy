/** The preset validator and the path collector that has to agree with it
    (internal/model/registry_validation.go, internal/model/CreateAliasMap.go:51-157). */
module PresetGraph {
  import opened Common
  import opened Schema
  import opened Filters
  import opened AliasMaps
  import PathOrder
  import FiniteOrder

  /** What a field of type preset makes a walk do. */
  datatype Outcome = Skip | Reject | Stop | Descend(next: Name, preset: Name)

  predicate MayDescend(f: Field, rel: Relation, seen: nat) {
    seen > 0 ==> rel.reentrant && seen < EffectiveMaxDepth(f.maxDepth, rel.maxDepth)
  }

  function SeenIn(counts: map<Name, nat>, m: Name): nat {
    if m in counts then counts[m] else 0
  }

  /** One turn of the loop in dfsPresetWithPolicy. */
  function ValidatorOutcome(reg: Registry, m: Name, f: Field, counts: map<Name, nat>): Outcome
    requires m in reg
  {
    if f.nestedPreset == "" then Skip
    else if !f.isPreset || f.source !in reg[m].relations then Reject
    else
      var rel := reg[m].relations[f.source];
      if rel.kind == OtherKind then Reject
      else if rel.polymorphic then Skip
      else if rel.model !in reg || f.nestedPreset !in reg[rel.model].presets then Reject
      else if SeenIn(counts, rel.model) > 0 && !rel.reentrant then Reject
      else if MayDescend(f, rel, SeenIn(counts, rel.model)) then Descend(rel.model, f.nestedPreset)
      else Stop
  }

  /** One turn of the loop in collectPresetRelationPaths; None where it would look into a missing preset. */
  function CollectorOutcome(reg: Registry, m: Name, f: Field, stack: seq<Name>): Option<Outcome>
    requires m in reg
  {
    if !f.isPreset || f.nestedPreset == "" || f.source !in reg[m].relations then Some(Skip)
    else
      var rel := reg[m].relations[f.source];
      if rel.polymorphic then Some(Skip)
      else if !MayDescend(f, rel, multiset(stack)[rel.model]) then Some(Stop)
      else if rel.model in reg && f.nestedPreset in reg[rel.model].presets then Some(Descend(rel.model, f.nestedPreset))
      else None
  }

  /** The path of a field below `path`, as text would be joined: an empty text is the root. */
  function Below(path: Path, source: Name): Path {
    if path == [] || path == [""] then [source] else path + [source]
  }

  // ----- the largest effective max_depth -----

  function EffectiveOf(reg: Registry, m: Name, preset: Name, i: nat): int
    requires m in reg && preset in reg[m].presets && i < |reg[m].presets[preset]|
  {
    var f := reg[m].presets[preset][i];
    if f.source in reg[m].relations then EffectiveMaxDepth(f.maxDepth, reg[m].relations[f.source].maxDepth) else 1
  }

  ghost function EffectiveDepths(reg: Registry): set<int> {
    set m, p, i: nat | m in reg && p in reg[m].presets && i < |reg[m].presets[p]| :: EffectiveOf(reg, m, p, i)
  }

  lemma {:induction false} MaxExists(s: set<int>) returns (n: nat)
    ensures n >= 1 && (n == 1 || n in s) && forall x <- s :: x <= n
  {
    n := 1;
    if x :| x in s {
      n := MaxExists(s - {x});
      assert s == s - {x} + {x};
      if x > n {
        n := x;
      }
    }
  }

  ghost predicate IsLargestDepth(reg: Registry, n: nat) {
    n >= 1 && (n == 1 || n in EffectiveDepths(reg)) && forall x <- EffectiveDepths(reg) :: x <= n
  }

  lemma LargestDepthExists(reg: Registry)
    ensures exists n: nat :: IsLargestDepth(reg, n)
  {
    var n := MaxExists(EffectiveDepths(reg));
    assert IsLargestDepth(reg, n);
  }

  /** The largest effective max_depth of any preset field (1 if there is none). */
  ghost function LargestDepth(reg: Registry): (n: nat)
    ensures IsLargestDepth(reg, n)
  {
    LargestDepthExists(reg);
    var n: nat :| IsLargestDepth(reg, n); n
  }

  // ----- termination -----

  /** The models on a path: all registered, none more often than the largest effective depth. */
  ghost predicate Bounded(reg: Registry, stack: seq<Name>) {
    && (forall m <- stack :: m in reg)
    && (forall m <- reg :: multiset(stack)[m] <= LargestDepth(reg))
  }

  ghost function Room(reg: Registry, stack: seq<Name>): int {
    |reg.Keys| * LargestDepth(reg) - |stack|
  }

  lemma {:induction false} MultisetBound(ms: multiset<Name>, names: set<Name>, n: nat)
    requires forall m <- ms :: m in names && ms[m] <= n
    ensures |ms| <= |names| * n
    decreases |names|
  {
    if names == {} {
      assert ms == multiset{};
    } else {
      var m :| m in names;
      var rest := ms[m := 0];
      forall k <- rest ensures k in names - {m} && rest[k] <= n {
        assert k in ms && rest[k] == ms[k];
      }
      MultisetBound(rest, names - {m}, n);
      assert ms == rest[m := ms[m]] && |ms| == |rest| + ms[m];
      OneNameMore(|names - {m}|, n);
    }
  }

  lemma OneNameMore(names: nat, n: nat)
    ensures (names + 1) * n == names * n + n
  {
  }

  lemma RoomIsLeft(reg: Registry, stack: seq<Name>)
    requires Bounded(reg, stack)
    ensures Room(reg, stack) >= 0
  {
    forall m <- multiset(stack) ensures m in reg.Keys && multiset(stack)[m] <= LargestDepth(reg) {
      assert m in stack;
    }
    MultisetBound(multiset(stack), reg.Keys, LargestDepth(reg));
  }

  /** Descending keeps the bound and uses up room. */
  lemma DescendKeepsBounded(reg: Registry, m: Name, preset: Name, i: nat, stack: seq<Name>)
    requires m in reg && preset in reg[m].presets && i < |reg[m].presets[preset]| && Bounded(reg, stack)
    ensures var f := reg[m].presets[preset][i];
      f.source in reg[m].relations ==>
        var rel := reg[m].relations[f.source];
        rel.model in reg && MayDescend(f, rel, multiset(stack)[rel.model]) ==>
          Bounded(reg, stack + [rel.model]) && 0 <= Room(reg, stack + [rel.model]) < Room(reg, stack)
  {
    var f := reg[m].presets[preset][i];
    if f.source in reg[m].relations {
      var rel := reg[m].relations[f.source];
      if rel.model in reg && MayDescend(f, rel, multiset(stack)[rel.model]) {
        assert EffectiveOf(reg, m, preset, i) in EffectiveDepths(reg);
        hide EffectiveDepths;
        assert multiset(stack + [rel.model]) == multiset(stack) + multiset{rel.model};
        RoomIsLeft(reg, stack + [rel.model]);
      }
    }
  }

  // ----- the validator -----

  /** The counts the validator copies along are those of the models on its path. */
  ghost predicate CountsAgree(counts: map<Name, nat>, stack: seq<Name>) {
    forall m: Name :: SeenIn(counts, m) == multiset(stack)[m]
  }

  lemma CountsAgreeBelow(counts: map<Name, nat>, stack: seq<Name>, m: Name)
    requires CountsAgree(counts, stack)
    ensures CountsAgree(counts[m := SeenIn(counts, m) + 1], stack + [m])
  {
    assert multiset(stack + [m]) == multiset(stack) + multiset{m};
  }

  /** A relation path the validator examined, and the models it held on its way there. */
  datatype Visit = Visit(path: Path, models: seq<Name>)

  datatype Verdict = Verdict(ok: bool, visits: set<Visit>)

  /** dfsPresetWithPolicy from field `i` on. */
  ghost function Validate(reg: Registry, m: Name, preset: Name, counts: map<Name, nat>, stack: seq<Name>, path: Path,
                          i: nat): Verdict
    requires Bounded(reg, stack) && CountsAgree(counts, stack)
    decreases Room(reg, stack), if m in reg && preset in reg[m].presets then |reg[m].presets[preset]| - i else 0
  {
    if m !in reg || preset !in reg[m].presets then Verdict(false, {})
    else if i >= |reg[m].presets[preset]| then Verdict(true, {})
    else
      var f := reg[m].presets[preset][i];
      match ValidatorOutcome(reg, m, f, counts)
      case Skip => Validate(reg, m, preset, counts, stack, path, i + 1)
      case Reject => Verdict(false, {})
      case Stop =>
        var rest := Validate(reg, m, preset, counts, stack, path, i + 1);
        Verdict(rest.ok, {Visit(Below(path, f.source), stack)} + rest.visits)
      case Descend(next, nested) =>
        DescendKeepsBounded(reg, m, preset, i, stack);
        CountsAgreeBelow(counts, stack, next);
        var here := {Visit(Below(path, f.source), stack + [next])};
        var sub := Validate(reg, next, nested, counts[next := SeenIn(counts, next) + 1], stack + [next],
          Below(path, f.source), 0);
        if !sub.ok then Verdict(false, here + sub.visits)
        else
          var rest := Validate(reg, m, preset, counts, stack, path, i + 1);
          Verdict(rest.ok, here + sub.visits + rest.visits)
  }

  /** validatePresetGraph */
  ghost function ValidatePreset(reg: Registry, m: Name, preset: Name): Verdict
    requires m in reg
  {
    Validate(reg, m, preset, map[m := 1], [m], [], 0)
  }

  /** ValidateAllPresets */
  ghost predicate Accepted(reg: Registry) {
    forall m <- reg, p <- reg[m].presets :: ValidatePreset(reg, m, p).ok
  }

  ghost predicate AllBounded(reg: Registry, visits: set<Visit>) {
    forall v <- visits :: Bounded(reg, v.models)
  }

  lemma {:induction false} ValidateIsBounded(reg: Registry, m: Name, preset: Name, counts: map<Name, nat>,
                                             stack: seq<Name>, path: Path, i: nat)
    requires Bounded(reg, stack) && CountsAgree(counts, stack)
    ensures AllBounded(reg, Validate(reg, m, preset, counts, stack, path, i).visits)
    decreases Room(reg, stack), if m in reg && preset in reg[m].presets then |reg[m].presets[preset]| - i else 0
  {
    hide Bounded, CountsAgree, Room;
    if m in reg && preset in reg[m].presets && i < |reg[m].presets[preset]| {
      var f := reg[m].presets[preset][i];
      var outcome := ValidatorOutcome(reg, m, f, counts);
      if outcome.Descend? {
        DescendFits(reg, m, preset, i, counts, stack);
        CountsAgreeBelow(counts, stack, outcome.next);
        ValidateIsBounded(reg, outcome.next, outcome.preset, counts[outcome.next := SeenIn(counts, outcome.next) + 1],
                          stack + [outcome.next], Below(path, f.source), 0);
      }
      if !outcome.Reject? {
        ValidateIsBounded(reg, m, preset, counts, stack, path, i + 1);
      }
    }
  }

  lemma DescendFits(reg: Registry, m: Name, preset: Name, i: nat, counts: map<Name, nat>, stack: seq<Name>)
    requires m in reg && preset in reg[m].presets && i < |reg[m].presets[preset]|
    requires Bounded(reg, stack) && CountsAgree(counts, stack)
    ensures var outcome := ValidatorOutcome(reg, m, reg[m].presets[preset][i], counts);
      outcome.Descend? ==>
        Bounded(reg, stack + [outcome.next]) && 0 <= Room(reg, stack + [outcome.next]) < Room(reg, stack)
  {
    hide Bounded, Room;
    DescendKeepsBounded(reg, m, preset, i, stack);
  }

  /** On any finite registry, cyclic or not, no path the validator examines holds a model more often than the largest
      effective max_depth; so no path is longer than that depth times the number of models. */
  lemma ValidatorStaysBounded(reg: Registry, m: Name, preset: Name, v: Visit)
    requires m in reg && v in ValidatePreset(reg, m, preset).visits
    ensures forall x: Name :: multiset(v.models)[x] <= LargestDepth(reg)
    ensures |v.models| <= |reg.Keys| * LargestDepth(reg)
  {
    hide Validate;
    ValidateIsBounded(reg, m, preset, map[m := 1], [m], [], 0);
    RoomIsLeft(reg, v.models);
    forall x: Name ensures multiset(v.models)[x] <= LargestDepth(reg) {
      if multiset(v.models)[x] > 0 {
        assert x in v.models;
      }
    }
  }

  // ----- what is accepted, and what is examined -----

  /** The field asks for a nested preset that cannot be served, or re-enters a model over a relation that is not
      reentrant. `models` are those on the path, the first one included. */
  predicate Faulty(reg: Registry, m: Name, f: Field, models: seq<Name>)
    requires m in reg
  {
    f.nestedPreset != "" &&
    (!f.isPreset || f.source !in reg[m].relations ||
     var rel := reg[m].relations[f.source];
     rel.kind == OtherKind ||
     (!rel.polymorphic && (rel.model !in reg || f.nestedPreset !in reg[rel.model].presets ||
                           (rel.model in models && !rel.reentrant))))
  }

  /** The field leads over a relation that is not polymorphic. */
  predicate Leads(reg: Registry, m: Name, f: Field)
    requires m in reg
  {
    f.nestedPreset != "" && f.isPreset && f.source in reg[m].relations && !reg[m].relations[f.source].polymorphic
  }

  /** ... and into its nested preset: the model is new on the path, or occurs on it less often than the field's
      max_depth, the relation's, or the default, whichever is given first. */
  predicate Followed(reg: Registry, m: Name, f: Field, models: seq<Name>)
    requires m in reg
  {
    Leads(reg, m, f) && !Faulty(reg, m, f, models) &&
    var rel := reg[m].relations[f.source];
    multiset(models)[rel.model] == 0 || multiset(models)[rel.model]
      < if f.maxDepth > 0 then f.maxDepth else if rel.maxDepth > 0 then rel.maxDepth else DEFAULT_REENTRANT_MAX_DEPTH
  }

  lemma OutcomeIs(reg: Registry, m: Name, f: Field, counts: map<Name, nat>, models: seq<Name>)
    requires m in reg && CountsAgree(counts, models)
    ensures var outcome := ValidatorOutcome(reg, m, f, counts);
      && (outcome.Reject? <==> Faulty(reg, m, f, models))
      && (outcome.Skip? <==> !Faulty(reg, m, f, models) && !Leads(reg, m, f))
      && (outcome.Descend? <==> Followed(reg, m, f, models))
      && (outcome.Descend? ==> outcome == Descend(reg[m].relations[f.source].model, f.nestedPreset))
  {
    if f.source in reg[m].relations {
      var rel := reg[m].relations[f.source];
      assert SeenIn(counts, rel.model) == multiset(models)[rel.model];
      assert rel.model in models <==> multiset(models)[rel.model] > 0;
    }
  }

  /** The fields with these indices follow one another into nested presets, the last one excepted. */
  predicate IsTrip(reg: Registry, m: Name, preset: Name, models: seq<Name>, trip: seq<nat>)
    decreases |trip|
  {
    trip != [] && m in reg && preset in reg[m].presets && trip[0] < |reg[m].presets[preset]| &&
    (|trip| > 1 ==>
       var f := reg[m].presets[preset][trip[0]];
       Followed(reg, m, f, models) &&
       var next := reg[m].relations[f.source].model; IsTrip(reg, next, f.nestedPreset, models + [next], trip[1..]))
  }

  /** The last field of a trip is faulty where it stands. */
  predicate EndsFaulty(reg: Registry, m: Name, preset: Name, models: seq<Name>, trip: seq<nat>)
    requires IsTrip(reg, m, preset, models, trip)
    decreases |trip|
  {
    var f := reg[m].presets[preset][trip[0]];
    if |trip| == 1 then Faulty(reg, m, f, models)
    else
      var next := reg[m].relations[f.source].model; EndsFaulty(reg, next, f.nestedPreset, models + [next], trip[1..])
  }

  predicate EndsLeading(reg: Registry, m: Name, preset: Name, models: seq<Name>, trip: seq<nat>)
    requires IsTrip(reg, m, preset, models, trip)
    decreases |trip|
  {
    var f := reg[m].presets[preset][trip[0]];
    if |trip| == 1 then Leads(reg, m, f)
    else
      var next := reg[m].relations[f.source].model; EndsLeading(reg, next, f.nestedPreset, models + [next], trip[1..])
  }

  /** The sources of the fields, below `path`. */
  function TripPath(reg: Registry, m: Name, preset: Name, models: seq<Name>, path: Path, trip: seq<nat>): Path
    requires IsTrip(reg, m, preset, models, trip)
    decreases |trip|
  {
    var f := reg[m].presets[preset][trip[0]];
    if |trip| == 1 then Below(path, f.source)
    else
      var next := reg[m].relations[f.source].model;
      TripPath(reg, next, f.nestedPreset, models + [next], Below(path, f.source), trip[1..])
  }

  ghost predicate FaultyTrip(reg: Registry, m: Name, preset: Name, models: seq<Name>, trip: seq<nat>) {
    IsTrip(reg, m, preset, models, trip) && EndsFaulty(reg, m, preset, models, trip)
  }

  ghost predicate TripTo(reg: Registry, m: Name, preset: Name, models: seq<Name>, path: Path, trip: seq<nat>, p: Path) {
    && IsTrip(reg, m, preset, models, trip) && EndsLeading(reg, m, preset, models, trip)
    && TripPath(reg, m, preset, models, path, trip) == p
  }

  lemma TripBehind(reg: Registry, m: Name, preset: Name, models: seq<Name>, path: Path, i: nat, rest: seq<nat>, p: Path)
    requires m in reg && preset in reg[m].presets && i < |reg[m].presets[preset]| && rest != []
    requires Followed(reg, m, reg[m].presets[preset][i], models)
    ensures var f := reg[m].presets[preset][i];
      var next := reg[m].relations[f.source].model;
      && (FaultyTrip(reg, m, preset, models, [i] + rest) <==>
            FaultyTrip(reg, next, f.nestedPreset, models + [next], rest))
      && (TripTo(reg, m, preset, models, path, [i] + rest, p) <==>
            TripTo(reg, next, f.nestedPreset, models + [next], Below(path, f.source), rest, p))
  {
    hide Followed;
    assert ([i] + rest)[1..] == rest;
  }

  lemma TripOfOne(reg: Registry, m: Name, preset: Name, models: seq<Name>, path: Path, i: nat, p: Path)
    requires m in reg && preset in reg[m].presets && i < |reg[m].presets[preset]|
    ensures var f := reg[m].presets[preset][i];
      && (FaultyTrip(reg, m, preset, models, [i]) <==> Faulty(reg, m, f, models))
      && (TripTo(reg, m, preset, models, path, [i], p) <==> Leads(reg, m, f) && Below(path, f.source) == p)
  {
  }

  /** A trip that goes on follows its first field. */
  lemma TripFollows(reg: Registry, m: Name, preset: Name, models: seq<Name>, trip: seq<nat>)
    requires IsTrip(reg, m, preset, models, trip) && |trip| > 1
    ensures trip[0] < |reg[m].presets[preset]| && Followed(reg, m, reg[m].presets[preset][trip[0]], models)
    ensures trip == [trip[0]] + trip[1..] && trip[1..] != []
  {
    hide Followed;
  }

  ghost predicate SomeFault(reg: Registry, m: Name, preset: Name, models: seq<Name>, i: nat) {
    exists trip: seq<nat> :: trip != [] && trip[0] >= i && FaultyTrip(reg, m, preset, models, trip)
  }

  ghost predicate SomeTripTo(reg: Registry, m: Name, preset: Name, models: seq<Name>, path: Path, i: nat, p: Path) {
    exists trip: seq<nat> :: trip != [] && trip[0] >= i && TripTo(reg, m, preset, models, path, trip, p)
  }

  /** The faults from field `i` on are that of the field itself, those behind it, and those of later fields. */
  lemma FaultsFrom(reg: Registry, m: Name, preset: Name, models: seq<Name>, i: nat)
    requires m in reg && preset in reg[m].presets && i < |reg[m].presets[preset]|
    ensures var f := reg[m].presets[preset][i];
      SomeFault(reg, m, preset, models, i) <==>
        || Faulty(reg, m, f, models)
        || (Followed(reg, m, f, models) &&
            var next := reg[m].relations[f.source].model; SomeFault(reg, next, f.nestedPreset, models + [next], 0))
        || SomeFault(reg, m, preset, models, i + 1)
  {
    hide Followed, Faulty, IsTrip, FaultyTrip;
    var f := reg[m].presets[preset][i];
    TripOfOne(reg, m, preset, models, [], i, []);
    if trip: seq<nat> :| trip != [] && trip[0] >= i && FaultyTrip(reg, m, preset, models, trip) {
      if trip[0] == i && |trip| == 1 {
        assert trip == [i];
      } else if trip[0] == i {
        FaultIsTrip(reg, m, preset, models, trip);
        TripFollows(reg, m, preset, models, trip);
        TripBehind(reg, m, preset, models, [], i, trip[1..], []);
      }
    }
    if Faulty(reg, m, f, models) {
      assert FaultyTrip(reg, m, preset, models, [i]);
    }
    if Followed(reg, m, f, models) {
      FollowedIsFound(reg, m, f, models);
      var next := reg[m].relations[f.source].model;
      if rest: seq<nat> :| rest != [] && rest[0] >= 0 && FaultyTrip(reg, next, f.nestedPreset, models + [next], rest) {
        TripBehind(reg, m, preset, models, [], i, rest, []);
        assert ([i] + rest)[0] == i && FaultyTrip(reg, m, preset, models, [i] + rest);
      }
    }
  }

  lemma FaultIsTrip(reg: Registry, m: Name, preset: Name, models: seq<Name>, trip: seq<nat>)
    requires FaultyTrip(reg, m, preset, models, trip)
    ensures IsTrip(reg, m, preset, models, trip)
  {
  }

  lemma TripsFrom(reg: Registry, m: Name, preset: Name, models: seq<Name>, path: Path, i: nat, p: Path)
    requires m in reg && preset in reg[m].presets && i < |reg[m].presets[preset]|
    ensures var f := reg[m].presets[preset][i];
      SomeTripTo(reg, m, preset, models, path, i, p) <==>
        || (Leads(reg, m, f) && Below(path, f.source) == p)
        || (Followed(reg, m, f, models) &&
            var next := reg[m].relations[f.source].model;
            SomeTripTo(reg, next, f.nestedPreset, models + [next], Below(path, f.source), 0, p))
        || SomeTripTo(reg, m, preset, models, path, i + 1, p)
  {
    hide Followed, Leads, IsTrip, TripTo;
    var f := reg[m].presets[preset][i];
    TripOfOne(reg, m, preset, models, path, i, p);
    if trip: seq<nat> :| trip != [] && trip[0] >= i && TripTo(reg, m, preset, models, path, trip, p) {
      if trip[0] == i && |trip| == 1 {
        assert trip == [i];
      } else if trip[0] == i {
        TripToIsTrip(reg, m, preset, models, path, trip, p);
        TripFollows(reg, m, preset, models, trip);
        TripBehind(reg, m, preset, models, path, i, trip[1..], p);
      }
    }
    if Leads(reg, m, f) && Below(path, f.source) == p {
      assert TripTo(reg, m, preset, models, path, [i], p);
    }
    if Followed(reg, m, f, models) {
      FollowedIsFound(reg, m, f, models);
      var next := reg[m].relations[f.source].model;
      if rest: seq<nat> :| rest != [] && rest[0] >= 0 &&
                           TripTo(reg, next, f.nestedPreset, models + [next], Below(path, f.source), rest, p) {
        TripBehind(reg, m, preset, models, path, i, rest, p);
        assert ([i] + rest)[0] == i && TripTo(reg, m, preset, models, path, [i] + rest, p);
      }
    }
  }

  lemma TripToIsTrip(reg: Registry, m: Name, preset: Name, models: seq<Name>, path: Path, trip: seq<nat>, p: Path)
    requires TripTo(reg, m, preset, models, path, trip, p)
    ensures IsTrip(reg, m, preset, models, trip)
  {
  }

  lemma NoTripBehindEnd(reg: Registry, m: Name, preset: Name, models: seq<Name>, path: Path, i: nat, p: Path)
    requires m in reg && preset in reg[m].presets && i >= |reg[m].presets[preset]|
    ensures !SomeFault(reg, m, preset, models, i) && !SomeTripTo(reg, m, preset, models, path, i, p)
  {
  }

  lemma {:induction false} ValidateExactly(reg: Registry, m: Name, preset: Name, counts: map<Name, nat>,
                                           stack: seq<Name>, path: Path, i: nat, p: Path)
    requires Bounded(reg, stack) && CountsAgree(counts, stack) && m in reg && preset in reg[m].presets
    ensures var v := Validate(reg, m, preset, counts, stack, path, i);
      && (v.ok <==> !SomeFault(reg, m, preset, stack, i))
      && (v.ok ==> (p in PathsOf(v.visits) <==> SomeTripTo(reg, m, preset, stack, path, i, p)))
    decreases Room(reg, stack), |reg[m].presets[preset]| - i
  {
    hide Bounded, CountsAgree, Room, SomeFault, SomeTripTo, Faulty, Followed, Leads, ValidatorOutcome, PathsOf, Below;
    if i >= |reg[m].presets[preset]| {
      NoTripBehindEnd(reg, m, preset, stack, path, i, p);
      PathsOfUnion([], [], {}, {});
    } else {
      var f := reg[m].presets[preset][i];
      var outcome := ValidatorOutcome(reg, m, f, counts);
      OutcomeIs(reg, m, f, counts, stack);
      FaultsFrom(reg, m, preset, stack, i);
      TripsFrom(reg, m, preset, stack, path, i, p);
      if !outcome.Reject? {
        var sub := Verdict(true, {});
        if outcome.Descend? {
          FollowedIsFound(reg, m, f, stack);
          DescendFits(reg, m, preset, i, counts, stack);
          CountsAgreeBelow(counts, stack, outcome.next);
          ValidateExactly(reg, outcome.next, outcome.preset, counts[outcome.next := SeenIn(counts, outcome.next) + 1],
                          stack + [outcome.next], Below(path, f.source), 0, p);
          sub := Validate(reg, outcome.next, outcome.preset, counts[outcome.next := SeenIn(counts, outcome.next) + 1],
                          stack + [outcome.next], Below(path, f.source), 0);
        }
        ValidateExactly(reg, m, preset, counts, stack, path, i + 1, p);
        var rest := Validate(reg, m, preset, counts, stack, path, i + 1);
        PathsOfUnion(Below(path, f.source), if outcome.Descend? then stack + [outcome.next] else stack,
                     sub.visits, rest.visits);
      }
    }
  }

  lemma FollowedIsFound(reg: Registry, m: Name, f: Field, models: seq<Name>)
    requires m in reg && Followed(reg, m, f, models)
    ensures f.source in reg[m].relations
    ensures var next := reg[m].relations[f.source].model; next in reg && f.nestedPreset in reg[next].presets
  {
  }

  /** A preset is accepted exactly if no trip over its nested presets meets a faulty field, and then the paths examined
      are exactly those of the trips that end with a field that leads somewhere. */
  lemma AcceptedExactly(reg: Registry, m: Name, preset: Name, p: Path)
    requires m in reg && preset in reg[m].presets
    ensures ValidatePreset(reg, m, preset).ok <==>
            forall trip: seq<nat> :: !FaultyTrip(reg, m, preset, [m], trip)
    ensures ValidatePreset(reg, m, preset).ok ==>
            (p in PathsOf(ValidatePreset(reg, m, preset).visits) <==>
             exists trip: seq<nat> :: TripTo(reg, m, preset, [m], [], trip, p))
  {
    hide Validate, FaultyTrip, TripTo, PathsOf;
    RootIsBounded(reg, m);
    ValidateExactly(reg, m, preset, map[m := 1], [m], [], 0, p);
    forall trip: seq<nat> | FaultyTrip(reg, m, preset, [m], trip) ensures trip != [] {
      FaultIsTrip(reg, m, preset, [m], trip);
    }
    forall trip: seq<nat> | TripTo(reg, m, preset, [m], [], trip, p) ensures trip != [] {
      TripToIsTrip(reg, m, preset, [m], [], trip, p);
    }
  }

  lemma RootIsBounded(reg: Registry, m: Name)
    requires m in reg
    ensures Bounded(reg, [m]) && CountsAgree(map[m := 1], [m])
  {
  }

  // ----- the collector -----

  /** The dfs of collectPresetRelationPaths from field `i` on. */
  ghost function Collected(reg: Registry, m: Name, preset: Name, stack: seq<Name>, path: Path,
                           i: nat): Option<set<Path>>
    requires Bounded(reg, stack) && m in reg && preset in reg[m].presets
    decreases Room(reg, stack), |reg[m].presets[preset]| - i
  {
    if i >= |reg[m].presets[preset]| then Some({})
    else
      var f := reg[m].presets[preset][i];
      var outcome := CollectorOutcome(reg, m, f, stack);
      if outcome.None? then None
      else
        var rest := Collected(reg, m, preset, stack, path, i + 1);
        match outcome.value
        case Descend(next, nested) =>
          DescendKeepsBounded(reg, m, preset, i, stack);
          var sub := Collected(reg, next, nested, stack + [next], Below(path, f.source), 0);
          if sub.None? || rest.None? then None else Some({Below(path, f.source)} + sub.value + rest.value)
        case Stop => if rest.None? then None else Some({Below(path, f.source)} + rest.value)
        case _ => rest
  }

  ghost function PathsOf(visits: set<Visit>): set<Path> {
    set v | v in visits :: v.path
  }

  lemma PathsOfUnion(p: Path, models: seq<Name>, a: set<Visit>, b: set<Visit>)
    ensures PathsOf({Visit(p, models)} + a + b) == {p} + PathsOf(a) + PathsOf(b)
    ensures PathsOf({Visit(p, models)} + b) == {p} + PathsOf(b)
    ensures PathsOf({}) == {}
  {
    assert Visit(p, models).path == p;
    forall q <- PathsOf(a) + PathsOf(b) ensures q in PathsOf({Visit(p, models)} + a + b) {
      var v :| v in a + b && v.path == q;
    }
    forall q <- PathsOf(b) ensures q in PathsOf({Visit(p, models)} + b) {
      var v :| v in b && v.path == q;
    }
    assert Visit(p, models) in {Visit(p, models)} + a + b && Visit(p, models) in {Visit(p, models)} + b;
  }

  lemma OutcomesAgree(reg: Registry, m: Name, f: Field, counts: map<Name, nat>, stack: seq<Name>)
    requires Linked(reg) && m in reg && CountsAgree(counts, stack)
    ensures !ValidatorOutcome(reg, m, f, counts).Reject? ==>
              CollectorOutcome(reg, m, f, stack) == Some(ValidatorOutcome(reg, m, f, counts))
  {
    if f.source in reg[m].relations {
      assert LinkedRelation(reg, reg[m].relations[f.source]);
      assert SeenIn(counts, reg[m].relations[f.source].model) == multiset(stack)[reg[m].relations[f.source].model];
    }
  }

  lemma {:induction false} CollectorAgrees(reg: Registry, m: Name, preset: Name, counts: map<Name, nat>,
                                           stack: seq<Name>, path: Path, i: nat)
    requires Linked(reg) && Bounded(reg, stack) && CountsAgree(counts, stack) && m in reg && preset in reg[m].presets
    requires Validate(reg, m, preset, counts, stack, path, i).ok
    ensures Collected(reg, m, preset, stack, path, i)
         == Some(PathsOf(Validate(reg, m, preset, counts, stack, path, i).visits))
    decreases Room(reg, stack), |reg[m].presets[preset]| - i
  {
    hide Linked, Bounded, CountsAgree, Room, ValidatorOutcome, CollectorOutcome, PathsOf, Below;
    PathsOfUnion([], [], {}, {});
    if i < |reg[m].presets[preset]| {
      var f := reg[m].presets[preset][i];
      var outcome := ValidatorOutcome(reg, m, f, counts);
      OutcomesAgree(reg, m, f, counts, stack);
      CollectorAgrees(reg, m, preset, counts, stack, path, i + 1);
      var rest := Validate(reg, m, preset, counts, stack, path, i + 1).visits;
      if outcome.Stop? {
        PathsOfUnion(Below(path, f.source), stack, {}, rest);
      }
      if outcome.Descend? {
        DescendFits(reg, m, preset, i, counts, stack);
        CountsAgreeBelow(counts, stack, outcome.next);
        CollectorAgrees(reg, outcome.next, outcome.preset, counts[outcome.next := SeenIn(counts, outcome.next) + 1],
                        stack + [outcome.next], Below(path, f.source), 0);
        var sub := Validate(reg, outcome.next, outcome.preset, counts[outcome.next := SeenIn(counts, outcome.next) + 1],
                            stack + [outcome.next], Below(path, f.source), 0).visits;
        PathsOfUnion(Below(path, f.source), stack + [outcome.next], sub, rest);
      }
    }
  }

  /** When the validator accepts a preset of a linked registry, the collector finds exactly the paths it examined. */
  lemma CollectsWhatWasExamined(reg: Registry, m: Name, preset: Name)
    requires Linked(reg) && m in reg && preset in reg[m].presets && ValidatePreset(reg, m, preset).ok
    ensures Bounded(reg, [m])
    ensures Collected(reg, m, preset, [m], [], 0) == Some(PathsOf(ValidatePreset(reg, m, preset).visits))
  {
    CollectorAgrees(reg, m, preset, map[m := 1], [m], [], 0);
  }

  class PathCollector {
    var paths: set<Path>

    constructor ()
      ensures paths == {}
    {
      paths := {};
    }

    /** dfs; false where a nested preset is missing. */
    method Dfs(reg: Registry, m: Name, preset: Name, path: Path, stack: seq<Name>) returns (ok: bool)
      requires Bounded(reg, stack) && m in reg && preset in reg[m].presets
      modifies this
      ensures ok <==> Collected(reg, m, preset, stack, path, 0).Some?
      ensures ok ==> paths == old(paths) + Collected(reg, m, preset, stack, path, 0).value
      decreases Room(reg, stack)
    {
      hide Bounded, Room, MayDescend;
      ghost var all := Collected(reg, m, preset, stack, path, 0);
      var fields := reg[m].presets[preset];
      var i := 0;
      while i < |fields|
        invariant i <= |fields|
        invariant var rest := Collected(reg, m, preset, stack, path, i);
          (all.Some? <==> rest.Some?) && (all.Some? ==> paths + rest.value == old(paths) + all.value)
        decreases |fields| - i
      {
        ghost var before, rest := paths, Collected(reg, m, preset, stack, path, i);
        var f := fields[i];
        if f.isPreset && f.nestedPreset != "" && f.source in reg[m].relations
          && !reg[m].relations[f.source].polymorphic {
          var rel := reg[m].relations[f.source];
          var nextPath := Below(path, f.source);
          paths := paths + {nextPath};
          var repeats := CountModelIn(stack, rel.model);
          if MayDescend(f, rel, repeats) {
            if rel.model !in reg || f.nestedPreset !in reg[rel.model].presets {
              return false;
            }
            DescendKeepsBounded(reg, m, preset, i, stack);
            ok := Dfs(reg, rel.model, f.nestedPreset, nextPath, stack + [rel.model]);
            if !ok {
              return;
            }
          }
        }
        i := i + 1;
      }
      return true;
    }
  }

  // ----- the preset's own aliases -----

  /** Every path continues one that is already there. */
  ghost predicate ClosedFrom(path: Path, paths: set<Path>) {
    forall p <- paths :: p != [] && (|p| > 1 ==> p[..|p| - 1] == path || p[..|p| - 1] in paths)
  }

  lemma ClosedUnion(path: Path, source: Name, sub: set<Path>, rest: set<Path>)
    requires ClosedFrom(Below(path, source), sub) && ClosedFrom(path, rest)
    ensures ClosedFrom(path, {Below(path, source)} + sub + rest)
    ensures ClosedFrom(path, {Below(path, source)} + rest)
  {
  }

  lemma {:induction false} CollectedIsClosed(reg: Registry, m: Name, preset: Name, stack: seq<Name>, path: Path, i: nat)
    requires Bounded(reg, stack) && m in reg && preset in reg[m].presets
    requires Collected(reg, m, preset, stack, path, i).Some?
    ensures ClosedFrom(path, Collected(reg, m, preset, stack, path, i).value)
    decreases Room(reg, stack), |reg[m].presets[preset]| - i
  {
    hide Bounded, Room, CollectorOutcome, ClosedFrom, Below;
    NothingIsClosed(path);
    if i < |reg[m].presets[preset]| {
      var f := reg[m].presets[preset][i];
      var outcome := CollectorOutcome(reg, m, f, stack).value;
      CollectedIsClosed(reg, m, preset, stack, path, i + 1);
      var rest := Collected(reg, m, preset, stack, path, i + 1).value;
      NothingIsClosed(Below(path, f.source));
      if outcome.Stop? {
        ClosedUnion(path, f.source, {}, rest);
      } else if outcome.Descend? {
        DescendsBounded(reg, m, preset, i, stack);
        var sub := Collected(reg, outcome.next, outcome.preset, stack + [outcome.next], Below(path, f.source), 0);
        CollectedIsClosed(reg, outcome.next, outcome.preset, stack + [outcome.next], Below(path, f.source), 0);
        ClosedUnion(path, f.source, sub.value, rest);
      }
    }
  }

  lemma NothingIsClosed(path: Path)
    ensures ClosedFrom(path, {})
  {
  }

  lemma DescendsBounded(reg: Registry, m: Name, preset: Name, i: nat, stack: seq<Name>)
    requires m in reg && preset in reg[m].presets && i < |reg[m].presets[preset]| && Bounded(reg, stack)
    ensures var outcome := CollectorOutcome(reg, m, reg[m].presets[preset][i], stack);
      outcome.Some? && outcome.value.Descend? ==>
        && outcome.value.next in reg && outcome.value.preset in reg[outcome.value.next].presets
        && Bounded(reg, stack + [outcome.value.next]) && 0 <= Room(reg, stack + [outcome.value.next]) < Room(reg, stack)
  {
    hide Bounded, Room;
    DescendKeepsBounded(reg, m, preset, i, stack);
  }

  /** "t0", "t1", ... in the order of the list. */
  ghost predicate IsNumbering(m: Maps, paths: seq<Path>) {
    && (forall i | 0 <= i < |paths| :: paths[i] in m.toAlias && m.toAlias[paths[i]] == T(i))
    && (forall i | 0 <= i < |paths| :: T(i) in m.toPath && m.toPath[T(i)] == paths[i])
    && (forall p <- m.toAlias :: p in paths)
    && (forall a <- m.toPath :: a.T? && a.index < |paths|)
  }

  lemma NumberingIsGood(m: Maps, paths: seq<Path>)
    requires IsNumbering(m, paths) && ClosedFrom([], FiniteOrder.Elements(paths))
    ensures Good(m) && m.toAlias.Keys == FiniteOrder.Elements(paths)
  {
    forall p <- m.toAlias ensures p != [] && (|p| > 1 ==> p[..|p| - 1] in m.toAlias) {
      assert p in FiniteOrder.Elements(paths);
    }
  }

  lemma NumberOneMore(m: Maps, paths: seq<Path>, p: Path)
    requires IsNumbering(m, paths) && p !in paths
    ensures IsNumbering(Maps(m.toAlias[p := T(|paths|)], m.toPath[T(|paths|) := p]), paths + [p])
  {
  }

  method NumberPaths(paths: seq<Path>) returns (maps: Maps)
    requires forall i, j | 0 <= i < j < |paths| :: paths[i] != paths[j]
    ensures IsNumbering(maps, paths)
  {
    hide IsNumbering;
    maps := NO_ALIASES;
    NothingNumbered();
    for i := 0 to |paths|
      invariant IsNumbering(maps, paths[..i])
    {
      NumberOneMore(maps, paths[..i], paths[i]);
      assert paths[..i] + [paths[i]] == paths[..i + 1];
      maps := Maps(maps.toAlias[paths[i] := T(i)], maps.toPath[T(i) := paths[i]]);
    }
    assert paths[..|paths|] == paths;
  }

  method SortPaths(paths: set<Path>) returns (sorted: seq<Path>)
    ensures FiniteOrder.Elements(sorted) == paths
    ensures forall i, j | 0 <= i < j < |sorted| :: PathOrder.PathLess(sorted[i], sorted[j]) && sorted[i] != sorted[j]
  {
    hide PathOrder.PathLess;
    PathOrder.PathLessIsStrictTotal();
    sorted := FiniteOrder.CollectAndSort(PathOrder.PathLess, paths);
  }

  /** The body of buildPresetAliasMapsForModel for one preset of an accepted registry: a good alias map for exactly
      the paths the validator examined. */
  method BuildPresetAliasMap(reg: Registry, m: Name, preset: Name) returns (maps: Maps)
    requires Linked(reg) && m in reg && preset in reg[m].presets && ValidatePreset(reg, m, preset).ok
    ensures Good(maps) && maps.toAlias.Keys == PathsOf(ValidatePreset(reg, m, preset).visits)
  {
    hide Linked, Bounded, Collected, ValidatePreset, PathsOf, IsNumbering, ClosedFrom, Good, PathOrder.PathLess;
    CollectsWhatWasExamined(reg, m, preset);
    var collector := new PathCollector();
    var ok := collector.Dfs(reg, m, preset, [], [m]);
    CollectedIsClosed(reg, m, preset, [m], [], 0);
    assert collector.paths == Collected(reg, m, preset, [m], [], 0).value;
    var paths := SortPaths(collector.paths);
    maps := NumberPaths(paths);
    NumberingIsGood(maps, paths);
  }

  lemma NothingNumbered()
    ensures IsNumbering(NO_ALIASES, [])
  {
  }

  /** The loop of buildPresetAliasMapsForModel over the presets of a model, in any order, after ValidateAllPresets. */
  method BuildPresetAliasMaps(reg: Registry, m: Name) returns (maps: map<Name, Maps>)
    requires Linked(reg) && Accepted(reg) && m in reg
    ensures maps.Keys == reg[m].presets.Keys
    ensures forall p <- maps :: Good(maps[p]) && maps[p].toAlias.Keys == PathsOf(ValidatePreset(reg, m, p).visits)
  {
    hide Linked, Good, PathsOf, ValidatePreset;
    maps := map[];
    var todo := reg[m].presets.Keys;
    while todo != {}
      invariant todo <= reg[m].presets.Keys && maps.Keys == reg[m].presets.Keys - todo
      invariant forall p <- maps :: Good(maps[p]) && maps[p].toAlias.Keys == PathsOf(ValidatePreset(reg, m, p).visits)
    {
      var preset :| preset in todo;
      todo := todo - {preset};
      var built := BuildPresetAliasMap(reg, m, preset);
      maps := maps[preset := built];
    }
  }
}
