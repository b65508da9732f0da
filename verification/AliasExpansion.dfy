/** Short path aliases (internal/model/alias_helpers.go). */
module AliasExpansion {
  import opened Common
  import opened Schema

  /** A segment is replaced when the model declares a non-empty alias for it other than itself. */
  predicate IsActive(model: Model, seg: Name) {
    seg in model.aliases && model.aliases[seg] != [] && model.aliases[seg] != [seg]
  }

  /** The model a relation segment leads to. */
  function NextModel(reg: Registry, m: Name, seg: Name): (r: Option<Name>)
    requires m in reg
    ensures r.Some? ==> r.value in reg
  {
    if seg in reg[m].relations then ModelRef(reg, reg[m].relations[seg]) else None
  }

  // ----- expansion -----

  /** Expansion cut off after `n` replacements; None when they are not enough. */
  ghost function ExpandWithin(reg: Registry, m: Name, path: Path, n: nat): Option<Path>
    requires m in reg
    decreases n, |path|
  {
    if path == [] then Some([])
    else if IsActive(reg[m], path[0]) then
      if n == 0 then None else ExpandWithin(reg, m, reg[m].aliases[path[0]] + path[1..], n - 1)
    else
      var next := NextModel(reg, m, path[0]);
      if next.None? then Some(path) else Prepend(path[0], ExpandWithin(reg, next.value, path[1..], n))
  }

  function Prepend(seg: Name, rest: Option<Path>): Option<Path> {
    if rest.None? then None else Some([seg] + rest.value)
  }

  /** The rewriting of this path comes to an end. */
  ghost predicate Settles(reg: Registry, m: Name, path: Path)
    requires m in reg
  {
    exists n: nat :: ExpandWithin(reg, m, path, n).Some?
  }

  ghost predicate AllSettle(reg: Registry) {
    forall m <- reg, path: Path :: Settles(reg, m, path)
  }

  /** The fully expanded path, read from model `m`. */
  ghost function Expand(reg: Registry, m: Name, path: Path): Path
    requires m in reg && Settles(reg, m, path)
  {
    var n: nat :| ExpandWithin(reg, m, path, n).Some?;
    ExpandWithin(reg, m, path, n).value
  }

  lemma {:induction false} MoreRoomSameResult(reg: Registry, m: Name, path: Path, n: nat, k: nat)
    requires m in reg && ExpandWithin(reg, m, path, n).Some? && n <= k
    ensures ExpandWithin(reg, m, path, k) == ExpandWithin(reg, m, path, n)
    decreases n, |path|
  {
    if path != [] {
      if IsActive(reg[m], path[0]) {
        MoreRoomSameResult(reg, m, reg[m].aliases[path[0]] + path[1..], n - 1, k - 1);
      } else {
        var next := NextModel(reg, m, path[0]);
        if next.Some? {
          MoreRoomSameResult(reg, next.value, path[1..], n, k);
        }
      }
    }
  }

  lemma ExpandIs(reg: Registry, m: Name, path: Path, n: nat)
    requires m in reg && ExpandWithin(reg, m, path, n).Some?
    ensures Settles(reg, m, path) && Expand(reg, m, path) == ExpandWithin(reg, m, path, n).value
  {
    var k: nat :| ExpandWithin(reg, m, path, k).Some?
      && Expand(reg, m, path) == ExpandWithin(reg, m, path, k).value;
    MoreRoomSameResult(reg, m, path, if n <= k then n else k, if n <= k then k else n);
  }

  /** ExpandAliasPath: the loop that rewrites the path it is walking. */
  method ExpandAliasPath(reg: Registry, m: Name, path: Path) returns (expanded: Path)
    requires m in reg && Settles(reg, m, path)
    ensures expanded == Expand(reg, m, path)
    ensures (exists n: nat :: ReachedIn(reg, m, path, expanded, n)) && NoStep(reg, m, expanded)
  {
    ExpandIsTheOnlyEnd(reg, m, path, Expand(reg, m, path));
    hide ReachedIn, NoStep;
    ghost var total: nat :| ExpandWithin(reg, m, path, total).Some?;
    ghost var n := total;
    ExpandIs(reg, m, path, n);
    var segs, i, curr := path, 0, m;
    assert segs[0..] == path;
    while i < |segs|
      invariant 0 <= i <= |segs| && curr in reg
      invariant ExpandWithin(reg, curr, segs[i..], n).Some?
      invariant segs[..i] + ExpandWithin(reg, curr, segs[i..], n).value == Expand(reg, m, path)
      decreases n, |segs| - i
    {
      hide Expand, Settles, IsActive, NextModel;
      var seg := segs[i];
      SliceStep(segs, i);
      if IsActive(reg[curr], seg) {
        ActiveInAliases(reg[curr], seg);
        var newSegs := segs[..i] + reg[curr].aliases[seg] + segs[i + 1..];
        SliceReplaced(segs, i, reg[curr].aliases[seg]);
        segs, n := newSegs, n - 1;
        continue;
      }
      var next := NextModel(reg, curr, seg);
      if next.None? {
        return segs;
      }
      curr, i := next.value, i + 1;
    }
    assert segs[i..] == [] && segs[..i] == segs;
    return segs;
  }

  lemma SliceStep(segs: Path, i: nat)
    requires i < |segs|
    ensures segs[i..] != [] && segs[i..][0] == segs[i] && segs[i..][1..] == segs[i + 1..]
    ensures segs[..i] + segs[i..] == segs
    ensures forall rest: Path :: segs[..i] + ([segs[i]] + rest) == segs[..i + 1] + rest
  {
  }

  lemma SliceReplaced(segs: Path, i: nat, body: Path)
    requires i < |segs|
    ensures var newSegs := segs[..i] + body + segs[i + 1..];
      newSegs[..i] == segs[..i] && newSegs[i..] == body + segs[i..][1..]
  {
  }

  lemma ActiveInAliases(model: Model, seg: Name)
    requires IsActive(model, seg)
    ensures seg in model.aliases
  {
  }

  // ----- fixed points -----

  /** Nothing is left to replace along the walk of the path. */
  predicate IsExpanded(reg: Registry, m: Name, path: Path)
    requires m in reg
    decreases |path|
  {
    path == [] ||
    (!IsActive(reg[m], path[0]) &&
     var next := NextModel(reg, m, path[0]);
     next.Some? ==> IsExpanded(reg, next.value, path[1..]))
  }

  lemma {:induction false} WithinExpands(reg: Registry, m: Name, path: Path, n: nat)
    requires m in reg && ExpandWithin(reg, m, path, n).Some?
    ensures IsExpanded(reg, m, ExpandWithin(reg, m, path, n).value)
    decreases n, |path|
  {
    if path != [] {
      if IsActive(reg[m], path[0]) {
        WithinExpands(reg, m, reg[m].aliases[path[0]] + path[1..], n - 1);
      } else {
        var next := NextModel(reg, m, path[0]);
        if next.Some? {
          WithinExpands(reg, next.value, path[1..], n);
          var rest := ExpandWithin(reg, next.value, path[1..], n).value;
          assert ([path[0]] + rest)[1..] == rest;
        }
      }
    }
  }

  /** Expansion reaches a path with nothing left to replace... */
  lemma ExpandExpands(reg: Registry, m: Name, path: Path)
    requires m in reg && Settles(reg, m, path)
    ensures IsExpanded(reg, m, Expand(reg, m, path))
  {
    var n: nat :| ExpandWithin(reg, m, path, n).Some?;
    ExpandIs(reg, m, path, n);
    WithinExpands(reg, m, path, n);
  }

  lemma {:induction false} ExpandedNeedsNoSteps(reg: Registry, m: Name, path: Path)
    requires m in reg && IsExpanded(reg, m, path)
    ensures ExpandWithin(reg, m, path, 0) == Some(path)
    decreases |path|
  {
    if path != [] {
      var next := NextModel(reg, m, path[0]);
      if next.Some? {
        ExpandedNeedsNoSteps(reg, next.value, path[1..]);
        assert [path[0]] + path[1..] == path;
      }
    }
  }

  /** ... and leaves alone exactly the paths that have nothing to replace. */
  lemma ExpandFixesExactlyExpanded(reg: Registry, m: Name, path: Path)
    requires m in reg
    ensures IsExpanded(reg, m, path) <==> Settles(reg, m, path) && Expand(reg, m, path) == path
  {
    if IsExpanded(reg, m, path) {
      ExpandedNeedsNoSteps(reg, m, path);
      ExpandIs(reg, m, path, 0);
    }
    if Settles(reg, m, path) {
      ExpandExpands(reg, m, path);
    }
  }

  lemma ExpandIdempotent(reg: Registry, m: Name, path: Path)
    requires m in reg && Settles(reg, m, path)
    ensures Settles(reg, m, Expand(reg, m, path))
    ensures Expand(reg, m, Expand(reg, m, path)) == Expand(reg, m, path)
  {
    ExpandExpands(reg, m, path);
    ExpandFixesExactlyExpanded(reg, m, Expand(reg, m, path));
  }

  lemma {:induction false} PrefixOfExpanded(reg: Registry, m: Name, path: Path, k: nat)
    requires m in reg && IsExpanded(reg, m, path) && k <= |path|
    ensures IsExpanded(reg, m, path[..k])
    decreases |path|
  {
    if path != [] && k > 0 {
      var next := NextModel(reg, m, path[0]);
      if next.Some? {
        PrefixOfExpanded(reg, next.value, path[1..], k - 1);
        assert path[..k][1..] == path[1..][..k - 1];
      }
    }
  }

  // ----- one replacement at a time -----

  /** The model a path leads to over relations none of which is an active alias. */
  function WalkOver(reg: Registry, m: Name, path: Path): (r: Option<Name>)
    requires m in reg
    ensures r.Some? ==> r.value in reg
    decreases |path|
  {
    if path == [] then Some(m)
    else if IsActive(reg[m], path[0]) then None
    else
      var next := NextModel(reg, m, path[0]);
      if next.None? then None else WalkOver(reg, next.value, path[1..])
  }

  /** `q` is `p` with the active alias at `i` replaced by its body; what stands before and behind it is kept. */
  ghost predicate IsStepAt(reg: Registry, m: Name, p: Path, q: Path, i: nat)
    requires m in reg
  {
    && i < |p| && WalkOver(reg, m, p[..i]).Some?
    && var curr := reg[WalkOver(reg, m, p[..i]).value];
       IsActive(curr, p[i]) && q == p[..i] + curr.aliases[p[i]] + p[i + 1..]
  }

  ghost predicate IsStep(reg: Registry, m: Name, p: Path, q: Path)
    requires m in reg
  {
    exists i: nat :: IsStepAt(reg, m, p, q, i)
  }

  ghost predicate NoStep(reg: Registry, m: Name, p: Path)
    requires m in reg
  {
    forall q: Path :: !IsStep(reg, m, p, q)
  }

  /** `q` arises from `p` by `n` replacements. */
  ghost predicate ReachedIn(reg: Registry, m: Name, p: Path, q: Path, n: nat)
    requires m in reg
    decreases n
  {
    if n == 0 then p == q else exists r: Path :: IsStep(reg, m, p, r) && ReachedIn(reg, m, r, q, n - 1)
  }

  lemma {:induction false} StepTakesOne(reg: Registry, m: Name, p: Path, q: Path, i: nat, n: nat)
    requires m in reg && IsStepAt(reg, m, p, q, i)
    ensures ExpandWithin(reg, m, p, n + 1) == ExpandWithin(reg, m, q, n) && ExpandWithin(reg, m, p, 0).None?
    decreases i
  {
    if i == 0 {
      assert q == reg[m].aliases[p[0]] + p[1..];
    } else {
      assert p[..i][0] == p[0] && p[..i][1..] == p[1..][..i - 1];
      var next := NextModel(reg, m, p[0]).value;
      StepInTail(reg, m, p, q, i);
      StepTakesOne(reg, next, p[1..], q[1..], i - 1, n);
    }
  }

  lemma StepInTail(reg: Registry, m: Name, p: Path, q: Path, i: nat)
    requires m in reg && i > 0 && IsStepAt(reg, m, p, q, i)
    ensures !IsActive(reg[m], p[0]) && NextModel(reg, m, p[0]).Some? && q != [] && q[0] == p[0]
    ensures IsStepAt(reg, NextModel(reg, m, p[0]).value, p[1..], q[1..], i - 1)
  {
    assert p[..i][0] == p[0] && p[..i][1..] == p[1..][..i - 1];
    var body := reg[WalkOver(reg, m, p[..i]).value].aliases[p[i]];
    assert q == [p[0]] + (p[1..][..i - 1] + body + p[1..][i..]);
  }

  /** A replacement changes neither whether the rewriting ends nor where. */
  lemma StepKeepsExpansion(reg: Registry, m: Name, p: Path, q: Path)
    requires m in reg && IsStep(reg, m, p, q)
    ensures Settles(reg, m, p) <==> Settles(reg, m, q)
    ensures Settles(reg, m, p) ==> Expand(reg, m, p) == Expand(reg, m, q)
  {
    hide IsStepAt;
    var i: nat :| IsStepAt(reg, m, p, q, i);
    if n: nat :| ExpandWithin(reg, m, p, n).Some? {
      StepTakesOne(reg, m, p, q, i, if n > 0 then n - 1 else 0);
      ExpandIs(reg, m, p, n);
      ExpandIs(reg, m, q, n - 1);
    }
    if n: nat :| ExpandWithin(reg, m, q, n).Some? {
      StepTakesOne(reg, m, p, q, i, n);
      assert ExpandWithin(reg, m, p, n + 1).Some?;
    }
  }

  lemma {:induction false} ExpandedHasNoStep(reg: Registry, m: Name, p: Path, q: Path, i: nat)
    requires m in reg && IsExpanded(reg, m, p)
    ensures !IsStepAt(reg, m, p, q, i)
    decreases i
  {
    if IsStepAt(reg, m, p, q, i) && i > 0 {
      StepInTail(reg, m, p, q, i);
      ExpandedHasNoStep(reg, NextModel(reg, m, p[0]).value, p[1..], q[1..], i - 1);
    }
  }

  lemma {:induction false} UnexpandedHasStep(reg: Registry, m: Name, p: Path) returns (q: Path, i: nat)
    requires m in reg && !IsExpanded(reg, m, p)
    ensures IsStepAt(reg, m, p, q, i)
    decreases |p|
  {
    if IsActive(reg[m], p[0]) {
      q, i := reg[m].aliases[p[0]] + p[1..], 0;
      assert p[..0] + reg[m].aliases[p[0]] + p[1..] == q;
    } else {
      var next := NextModel(reg, m, p[0]).value;
      var tail, k := UnexpandedHasStep(reg, next, p[1..]);
      q, i := [p[0]] + tail, k + 1;
      assert p[..i][0] == p[0] && p[..i][1..] == p[1..][..k];
      var body := reg[WalkOver(reg, next, p[1..][..k]).value].aliases[p[1..][k]];
      assert p[..i] + body + p[i + 1..] == [p[0]] + (p[1..][..k] + body + p[1..][k + 1..]);
    }
  }

  /** A path is expanded if and only if nothing can be replaced in it. */
  lemma ExpandedMeansNoStep(reg: Registry, m: Name, p: Path)
    requires m in reg
    ensures IsExpanded(reg, m, p) <==> NoStep(reg, m, p)
  {
    hide IsStepAt, IsExpanded;
    if IsExpanded(reg, m, p) {
      forall q: Path, i: nat ensures !IsStepAt(reg, m, p, q, i) {
        ExpandedHasNoStep(reg, m, p, q, i);
      }
    } else {
      var q, i := UnexpandedHasStep(reg, m, p);
      assert IsStep(reg, m, p, q);
    }
  }

  lemma {:induction false} ExpandIsReached(reg: Registry, m: Name, p: Path, n: nat) returns (k: nat)
    requires m in reg && ExpandWithin(reg, m, p, n).Some?
    ensures Settles(reg, m, p) && ReachedIn(reg, m, p, Expand(reg, m, p), k)
    decreases n
  {
    hide IsStepAt, IsExpanded, Expand, ExpandWithin;
    ExpandIs(reg, m, p, n);
    if IsExpanded(reg, m, p) {
      ExpandFixesExactlyExpanded(reg, m, p);
      k := 0;
    } else {
      var q, i := UnexpandedHasStep(reg, m, p);
      assert IsStep(reg, m, p, q);
      StepTakesOne(reg, m, p, q, i, if n > 0 then n - 1 else 0);
      var rest := ExpandIsReached(reg, m, q, n - 1);
      StepKeepsExpansion(reg, m, p, q);
      k := rest + 1;
    }
  }

  lemma {:induction false} ReachedKeepsExpansion(reg: Registry, m: Name, p: Path, q: Path, n: nat)
    requires m in reg && ReachedIn(reg, m, p, q, n)
    ensures Settles(reg, m, p) <==> Settles(reg, m, q)
    ensures Settles(reg, m, p) ==> Expand(reg, m, p) == Expand(reg, m, q)
    decreases n
  {
    hide IsStep, Settles, Expand;
    if n > 0 {
      var r: Path :| IsStep(reg, m, p, r) && ReachedIn(reg, m, r, q, n - 1);
      StepKeepsExpansion(reg, m, p, r);
      ReachedKeepsExpansion(reg, m, r, q, n - 1);
    }
  }

  /** The rewriting of a path ends if and only if replacements lead to a path in which nothing can be replaced, and the
      expansion is the only such path. */
  lemma ExpandIsTheOnlyEnd(reg: Registry, m: Name, p: Path, q: Path)
    requires m in reg
    ensures (exists n: nat :: ReachedIn(reg, m, p, q, n)) && NoStep(reg, m, q) <==>
            Settles(reg, m, p) && q == Expand(reg, m, p)
  {
    hide IsStep, IsExpanded, Expand, ExpandWithin, ReachedIn, NoStep;
    ExpandedMeansNoStep(reg, m, q);
    ExpandFixesExactlyExpanded(reg, m, q);
    if n: nat :| ReachedIn(reg, m, p, q, n) {
      ReachedKeepsExpansion(reg, m, p, q, n);
    }
    if Settles(reg, m, p) && q == Expand(reg, m, p) {
      ExpandExpands(reg, m, p);
      var n: nat :| ExpandWithin(reg, m, p, n).Some?;
      var k := ExpandIsReached(reg, m, p, n);
    }
  }

  // ----- termination -----

  /** Where the walk of a path ends when at most `n` replacements are made. */
  datatype Arrival = Short | Stuck | At(model: Name)

  ghost function Arrive(reg: Registry, m: Name, path: Path, n: nat): (r: Arrival)
    requires m in reg
    ensures r.At? ==> r.model in reg
    decreases n, |path|
  {
    if path == [] then At(m)
    else if IsActive(reg[m], path[0]) then
      if n == 0 then Short else Arrive(reg, m, reg[m].aliases[path[0]] + path[1..], n - 1)
    else
      var next := NextModel(reg, m, path[0]);
      if next.None? then Stuck else Arrive(reg, next.value, path[1..], n)
  }

  lemma {:induction false} ArriveMeansExpand(reg: Registry, m: Name, path: Path, n: nat)
    requires m in reg
    ensures Arrive(reg, m, path, n).Short? <==> ExpandWithin(reg, m, path, n).None?
    decreases n, |path|
  {
    if path != [] {
      if IsActive(reg[m], path[0]) {
        if n > 0 {
          ArriveMeansExpand(reg, m, reg[m].aliases[path[0]] + path[1..], n - 1);
        }
      } else if NextModel(reg, m, path[0]).Some? {
        ArriveMeansExpand(reg, NextModel(reg, m, path[0]).value, path[1..], n);
      }
    }
  }

  lemma {:induction false} MoreRoomSameArrival(reg: Registry, m: Name, path: Path, n: nat, k: nat)
    requires m in reg && !Arrive(reg, m, path, n).Short? && n <= k
    ensures Arrive(reg, m, path, k) == Arrive(reg, m, path, n)
    decreases n, |path|
  {
    if path != [] {
      if IsActive(reg[m], path[0]) {
        MoreRoomSameArrival(reg, m, reg[m].aliases[path[0]] + path[1..], n - 1, k - 1);
      } else if NextModel(reg, m, path[0]).Some? {
        MoreRoomSameArrival(reg, NextModel(reg, m, path[0]).value, path[1..], n, k);
      }
    }
  }

  /** A path in two parts: the second part starts where the first one arrives. */
  lemma {:induction false} ArriveInParts(reg: Registry, m: Name, p: Path, q: Path, n: nat, k: nat)
    requires m in reg && !Arrive(reg, m, p, n).Short?
    requires Arrive(reg, m, p, n).At? ==> !Arrive(reg, Arrive(reg, m, p, n).model, q, k).Short?
    ensures !Arrive(reg, m, p + q, n + k).Short?
    decreases n, |p|
  {
    if p == [] {
      assert p + q == q;
      MoreRoomSameArrival(reg, m, q, k, n + k);
    } else {
      assert (p + q)[1..] == p[1..] + q;
      if IsActive(reg[m], p[0]) {
        var body := reg[m].aliases[p[0]];
        assert body + (p[1..] + q) == (body + p[1..]) + q;
        ArriveInParts(reg, m, body + p[1..], q, n - 1, k);
      } else if NextModel(reg, m, p[0]).Some? {
        ArriveInParts(reg, NextModel(reg, m, p[0]).value, p[1..], q, n, k);
      }
    }
  }

  lemma {:induction false} FirstPartArrives(reg: Registry, m: Name, p: Path, q: Path, n: nat)
    requires m in reg && !Arrive(reg, m, p + q, n).Short?
    ensures !Arrive(reg, m, p, n).Short?
    decreases n, |p|
  {
    if p != [] {
      assert (p + q)[1..] == p[1..] + q;
      if IsActive(reg[m], p[0]) {
        var body := reg[m].aliases[p[0]];
        assert body + (p[1..] + q) == (body + p[1..]) + q;
        FirstPartArrives(reg, m, body + p[1..], q, n - 1);
      } else if NextModel(reg, m, p[0]).Some? {
        FirstPartArrives(reg, NextModel(reg, m, p[0]).value, p[1..], q, n);
      }
    }
  }

  lemma {:induction false} LeastRoom(reg: Registry, m: Name, path: Path, n: nat) returns (k: nat)
    requires m in reg && ExpandWithin(reg, m, path, n).Some?
    ensures NeedsRoom(reg, m, path, k)
  {
    k := n;
    if n > 0 && ExpandWithin(reg, m, path, n - 1).Some? {
      k := LeastRoom(reg, m, path, n - 1);
    }
  }

  /** The rewriting ends with `n` replacements and not with fewer. */
  ghost predicate NeedsRoom(reg: Registry, m: Name, path: Path, n: nat)
    requires m in reg
  {
    ExpandWithin(reg, m, path, n).Some? && (n > 0 ==> ExpandWithin(reg, m, path, n - 1).None?)
  }

  /** The expansion weight of a path: the number of replacements it still takes. */
  ghost function Weight(reg: Registry, m: Name, path: Path): (n: nat)
    requires m in reg && Settles(reg, m, path)
    ensures NeedsRoom(reg, m, path, n)
  {
    WeightExists(reg, m, path);
    var n: nat :| NeedsRoom(reg, m, path, n); n
  }

  lemma WeightExists(reg: Registry, m: Name, path: Path)
    requires m in reg && Settles(reg, m, path)
    ensures exists n: nat :: NeedsRoom(reg, m, path, n)
  {
    var n: nat :| ExpandWithin(reg, m, path, n).Some?;
    var k := LeastRoom(reg, m, path, n);
  }

  /** Replacing an alias by its body may make the path longer, but it makes it lighter. */
  lemma ExpansionIsLighter(reg: Registry, m: Name, path: Path)
    requires m in reg && path != [] && IsActive(reg[m], path[0]) && Settles(reg, m, path)
    ensures var replaced := reg[m].aliases[path[0]] + path[1..];
      Settles(reg, m, replaced) && Weight(reg, m, path) == Weight(reg, m, replaced) + 1
  {
    var replaced, n := reg[m].aliases[path[0]] + path[1..], Weight(reg, m, path);
    assert ExpandWithin(reg, m, replaced, n - 1).Some?;
    var k := Weight(reg, m, replaced);
    assert ExpandWithin(reg, m, path, k + 1) == ExpandWithin(reg, m, replaced, k);
    if k < n - 1 {
      MoreRoomSameResult(reg, m, path, k + 1, n - 1);
    } else if n - 1 < k {
      MoreRoomSameResult(reg, m, replaced, n - 1, k - 1);
    }
  }

  /** An alias of a model. */
  type ModelAlias = (Name, Name)

  /** Walking `path` from model `m` with at most `n` replacements, the active alias `x` is met. */
  ghost predicate Meets(reg: Registry, m: Name, path: Path, x: ModelAlias, n: nat)
    requires m in reg
    decreases n, |path|
  {
    path != [] &&
    if IsActive(reg[m], path[0]) then
      x == (m, path[0]) || (n > 0 && Meets(reg, m, reg[m].aliases[path[0]] + path[1..], x, n - 1))
    else
      var next := NextModel(reg, m, path[0]);
      next.Some? && Meets(reg, next.value, path[1..], x, n)
  }

  ghost predicate IsModelAlias(reg: Registry, x: ModelAlias) {
    x.0 in reg && IsActive(reg[x.0], x.1)
  }

  /** Walking the body of alias `x` from its model, alias `y` is met. */
  ghost predicate Uses(reg: Registry, x: ModelAlias, y: ModelAlias) {
    IsModelAlias(reg, x) && exists n: nat :: Meets(reg, x.0, reg[x.0].aliases[x.1], y, n)
  }

  lemma {:induction false} MetIsAlias(reg: Registry, m: Name, path: Path, x: ModelAlias, n: nat)
    requires m in reg && Meets(reg, m, path, x, n)
    ensures IsModelAlias(reg, x)
    decreases n, |path|
  {
    if IsActive(reg[m], path[0]) {
      if x != (m, path[0]) {
        MetIsAlias(reg, m, reg[m].aliases[path[0]] + path[1..], x, n - 1);
      }
    } else {
      MetIsAlias(reg, NextModel(reg, m, path[0]).value, path[1..], x, n);
    }
  }

  lemma {:induction false} FirstPartMeets(reg: Registry, m: Name, p: Path, q: Path, x: ModelAlias, n: nat, k: nat)
    requires m in reg && Meets(reg, m, p, x, n) && n <= k
    ensures Meets(reg, m, p + q, x, k)
    decreases n, |p|
  {
    assert (p + q)[1..] == p[1..] + q;
    if IsActive(reg[m], p[0]) {
      if x != (m, p[0]) {
        var body := reg[m].aliases[p[0]];
        assert body + (p[1..] + q) == (body + p[1..]) + q;
        FirstPartMeets(reg, m, body + p[1..], q, x, n - 1, k - 1);
      }
    } else {
      FirstPartMeets(reg, NextModel(reg, m, p[0]).value, p[1..], q, x, n, k);
    }
  }

  /** The second part of a path meets what it meets from where the first part arrives. */
  lemma {:induction false} SecondPartMeets(reg: Registry, m: Name, p: Path, q: Path, n: nat, x: ModelAlias, k: nat)
    requires m in reg && Arrive(reg, m, p, n).At? && Meets(reg, Arrive(reg, m, p, n).model, q, x, k)
    ensures Meets(reg, m, p + q, x, n + k)
    decreases n, |p|
  {
    if p == [] {
      assert p + q == q && q + [] == q;
      FirstPartMeets(reg, m, q, [], x, k, n + k);
    } else {
      assert (p + q)[1..] == p[1..] + q;
      if IsActive(reg[m], p[0]) {
        var body := reg[m].aliases[p[0]];
        assert body + (p[1..] + q) == (body + p[1..]) + q;
        SecondPartMeets(reg, m, body + p[1..], q, n - 1, x, k);
      } else {
        SecondPartMeets(reg, NextModel(reg, m, p[0]).value, p[1..], q, n, x, k);
      }
    }
  }

  /** What is met while walking the body of a met alias is met as well. */
  lemma {:induction false} MeetsThrough(reg: Registry, m: Name, path: Path, x: ModelAlias, n: nat, y: ModelAlias,
                                        k: nat)
    requires m in reg && Meets(reg, m, path, x, n) && IsModelAlias(reg, x)
    requires Meets(reg, x.0, reg[x.0].aliases[x.1], y, k)
    ensures Meets(reg, m, path, y, n + k + 1)
    decreases n, |path|
  {
    if IsActive(reg[m], path[0]) {
      if x == (m, path[0]) {
        FirstPartMeets(reg, m, reg[m].aliases[path[0]], path[1..], y, k, n + k);
      } else {
        MeetsThrough(reg, m, reg[m].aliases[path[0]] + path[1..], x, n - 1, y, k);
      }
    } else {
      MeetsThrough(reg, NextModel(reg, m, path[0]).value, path[1..], x, n, y, k);
    }
  }

  lemma UsesIsTransitive(reg: Registry, x: ModelAlias, y: ModelAlias, z: ModelAlias)
    requires Uses(reg, x, y) && Uses(reg, y, z)
    ensures Uses(reg, x, z)
  {
    var n: nat :| Meets(reg, x.0, reg[x.0].aliases[x.1], y, n);
    var k: nat :| Meets(reg, y.0, reg[y.0].aliases[y.1], z, k);
    MeetsThrough(reg, x.0, reg[x.0].aliases[x.1], y, n, z, k);
  }

  /** When the rewriting of a path ends, so does that of every alias met on it. */
  lemma {:induction false} MetAliasArrives(reg: Registry, m: Name, path: Path, x: ModelAlias, k: nat, n: nat)
    requires m in reg && Meets(reg, m, path, x, k) && IsModelAlias(reg, x) && !Arrive(reg, m, path, n).Short?
    ensures !Arrive(reg, x.0, [x.1], n).Short?
    decreases k, |path|
  {
    if IsActive(reg[m], path[0]) {
      if x == (m, path[0]) {
        assert path == [path[0]] + path[1..];
        FirstPartArrives(reg, m, [path[0]], path[1..], n);
      } else {
        MetAliasArrives(reg, m, reg[m].aliases[path[0]] + path[1..], x, k - 1, n - 1);
        MoreRoomSameArrival(reg, x.0, [x.1], n - 1, n);
      }
    } else {
      MetAliasArrives(reg, NextModel(reg, m, path[0]).value, path[1..], x, k, n);
    }
  }

  /** An alias whose own body leads back to it is rewritten for ever. */
  lemma {:induction false} SelfUsingAliasNeverSettles(reg: Registry, x: ModelAlias, n: nat)
    requires Uses(reg, x, x)
    ensures Arrive(reg, x.0, [x.1], n).Short? && ExpandWithin(reg, x.0, [x.1], n).None?
    decreases n
  {
    var body := reg[x.0].aliases[x.1];
    ArriveMeansExpand(reg, x.0, [x.1], n);
    if n > 0 && !Arrive(reg, x.0, [x.1], n).Short? {
      assert body + [x.1][1..] == body;
      var k: nat :| Meets(reg, x.0, body, x, k);
      MetAliasArrives(reg, x.0, body, x, k, n - 1);
      SelfUsingAliasNeverSettles(reg, x, n - 1);
    }
  }

  /** A rank on the aliases of models that falls from every alias to those met while walking its body. */
  ghost predicate RankFalls(reg: Registry, rank: ModelAlias -> nat) {
    forall x: ModelAlias, y: ModelAlias | Uses(reg, x, y) :: rank(y) < rank(x)
  }

  ghost predicate AliasesRanked(reg: Registry) {
    exists rank: ModelAlias -> nat :: RankFalls(reg, rank)
  }

  /** No alias is met again while walking its own body. */
  ghost predicate NoAliasUsesItself(reg: Registry) {
    forall x: ModelAlias :: !Uses(reg, x, x)
  }

  ghost function ModelAliases(reg: Registry): set<ModelAlias> {
    set m, a | m in reg && a in reg[m].aliases :: (m, a)
  }

  ghost function Used(reg: Registry, x: ModelAlias): set<ModelAlias> {
    set y | y in ModelAliases(reg) && Uses(reg, x, y)
  }

  lemma UsedIsUsed(reg: Registry, x: ModelAlias, y: ModelAlias)
    ensures y in Used(reg, x) <==> Uses(reg, x, y)
  {
    if Uses(reg, x, y) {
      var n: nat :| Meets(reg, x.0, reg[x.0].aliases[x.1], y, n);
      MetIsAlias(reg, x.0, reg[x.0].aliases[x.1], y, n);
      assert y in ModelAliases(reg);
    }
  }

  /** The number of aliases an alias uses is such a rank. */
  lemma UsesCanBeRanked(reg: Registry)
    requires NoAliasUsesItself(reg)
    ensures AliasesRanked(reg)
  {
    hide Uses, Used;
    var rank: ModelAlias -> nat := RankOfUses(reg);
    forall x: ModelAlias, y: ModelAlias | Uses(reg, x, y) ensures rank(y) < rank(x) {
      forall z ensures (z in Used(reg, y) ==> z in Used(reg, x)) && y in Used(reg, x) && y !in Used(reg, y) {
        UsedIsUsed(reg, x, y);
        UsedIsUsed(reg, y, y);
        UsedIsUsed(reg, x, z);
        UsedIsUsed(reg, y, z);
        if Uses(reg, y, z) {
          UsesIsTransitive(reg, x, y, z);
        }
      }
      SmallerSet(Used(reg, y), Used(reg, x), y);
    }
    assert RankFalls(reg, rank);
  }

  ghost function RankOfUses(reg: Registry): ModelAlias -> nat {
    (x: ModelAlias) => |Used(reg, x)|
  }

  lemma SmallerSet<T>(a: set<T>, b: set<T>, x: T)
    requires (forall y <- a :: y in b) && x in b && x !in a
    ensures |a| < |b|
  {
    assert a <= b - {x};
    if a == b - {x} {
      assert |b - {x}| == |b| - 1;
    } else {
      SubsetIsSmaller(a, b - {x});
    }
  }

  lemma {:induction false} SubsetIsSmaller<T>(a: set<T>, b: set<T>)
    requires a <= b
    ensures |a| <= |b|
  {
    if x :| x in a {
      SubsetIsSmaller(a - {x}, b - {x});
    }
  }

  /** Every alias met on the path is ranked below `r`. */
  ghost predicate MeetsBelow(reg: Registry, rank: ModelAlias -> nat, m: Name, path: Path, r: nat)
    requires m in reg
  {
    forall x: ModelAlias, n: nat | Meets(reg, m, path, x, n) :: rank(x) < r
  }

  /** With a rank the rewriting of every path ends: first the body of its first alias, then the rest of the path. */
  lemma {:induction false} RankedPathArrives(reg: Registry, rank: ModelAlias -> nat, m: Name, path: Path, r: nat)
    returns (n: nat)
    requires RankFalls(reg, rank) && m in reg && MeetsBelow(reg, rank, m, path, r)
    ensures !Arrive(reg, m, path, n).Short?
    decreases r, |path|
  {
    n := 0;
    if path != [] {
      var head, tail := path[0], path[1..];
      if IsActive(reg[m], head) {
        var body, x := reg[m].aliases[head], (m, head);
        assert Meets(reg, m, path, x, 0);
        forall y: ModelAlias, k: nat | Meets(reg, m, body, y, k) ensures rank(y) < rank(x) {
          assert Uses(reg, x, y);
        }
        var k := RankedPathArrives(reg, rank, m, body, rank(x));
        var end := Arrive(reg, m, body, k);
        var rest: nat := 0;
        if end.At? {
          forall y: ModelAlias, i: nat | Meets(reg, end.model, tail, y, i) ensures rank(y) < r {
            SecondPartMeets(reg, m, body, tail, k, y, i);
            assert Meets(reg, m, path, y, k + i + 1);
          }
          rest := RankedPathArrives(reg, rank, end.model, tail, r);
        }
        ArriveInParts(reg, m, body, tail, k, rest);
        n := k + rest + 1;
      } else if NextModel(reg, m, head).Some? {
        var next := NextModel(reg, m, head).value;
        forall y: ModelAlias, i: nat | Meets(reg, next, tail, y, i) ensures rank(y) < r {
          assert Meets(reg, m, path, y, i);
        }
        n := RankedPathArrives(reg, rank, next, tail, r);
      }
    }
  }

  ghost function RanksOf(reg: Registry, rank: ModelAlias -> nat): set<nat> {
    set x | x in ModelAliases(reg) :: rank(x)
  }

  lemma {:induction false} BoundExists(ranks: set<nat>) returns (r: nat)
    ensures forall k <- ranks :: k < r
  {
    r := 0;
    if k :| k in ranks {
      r := BoundExists(ranks - {k});
      assert ranks == ranks - {k} + {k};
      if r <= k {
        r := k + 1;
      }
    }
  }

  lemma RankedAliasesSettle(reg: Registry, rank: ModelAlias -> nat)
    requires RankFalls(reg, rank)
    ensures AllSettle(reg)
  {
    var r := BoundExists(RanksOf(reg, rank));
    forall m <- reg, path: Path ensures Settles(reg, m, path) {
      forall x: ModelAlias, n: nat | Meets(reg, m, path, x, n) ensures rank(x) < r {
        MetIsAlias(reg, m, path, x, n);
        assert x in ModelAliases(reg) && rank(x) in RanksOf(reg, rank);
      }
      var n := RankedPathArrives(reg, rank, m, path, r);
      ArriveMeansExpand(reg, m, path, n);
    }
  }

  /** The exact condition: the rewriting of every path ends if and only if no alias is met again while walking its own
      body, which is so if and only if the aliases of the models can be ranked. */
  lemma AliasesSettleExactly(reg: Registry)
    ensures AllSettle(reg) <==> NoAliasUsesItself(reg)
    ensures AllSettle(reg) <==> AliasesRanked(reg)
  {
    hide Uses, Settles, AliasesRanked;
    if AliasesRanked(reg) {
      RankedSettle(reg);
    }
    if NoAliasUsesItself(reg) {
      UsesCanBeRanked(reg);
    }
    if x: ModelAlias :| Uses(reg, x, x) {
      SelfUsingAliasDoesNotSettle(reg, x);
    }
  }

  lemma RankedSettle(reg: Registry)
    requires AliasesRanked(reg)
    ensures AllSettle(reg)
  {
    var rank: ModelAlias -> nat :| RankFalls(reg, rank);
    RankedAliasesSettle(reg, rank);
  }

  lemma SelfUsingAliasDoesNotSettle(reg: Registry, x: ModelAlias)
    requires Uses(reg, x, x)
    ensures x.0 in reg && !Settles(reg, x.0, [x.1])
  {
    forall n: nat ensures ExpandWithin(reg, x.0, [x.1], n).None? {
      SelfUsingAliasNeverSettles(reg, x, n);
    }
  }
}
