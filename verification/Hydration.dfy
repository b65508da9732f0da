/** The child goroutines of one Resolver call (internal/resolver/resolver.go:170-274) as a state machine: any
    interleaving of their steps, including the race on the enclosing `err` variable. */
module Hydration {
  import opened Common
  import opened ChildRows

  /** What a tail's child request runs into. `rows` are the child rows under the relation's condition, in the
      relation's order, and `finish` is what finalizeItems makes of one of them in the child call. */
  datatype Child =
    | Missing                  // no child model or no nested preset
    | Unbuildable              // MakeThroughChildRequest fails
    | Failing                  // the child Resolver call fails
    | Table(rows: seq<Row>, finish: Row -> Row)

  /** A relation through an intermediate model: the relation to the target that the child request follows, the one
      that the parent's finalizeItems looks for, and whether the child call unwraps its rows itself. It does only if
      the nested preset has tails of its own, since Resolver returns earlier without any. */
  datatype Intermediate = Intermediate(key: string, again: string, unwrapped: bool)

  datatype Tail = Tail(path: seq<string>, alias: string, pk: string, fk: string, limitOne: bool, formatter: string,
                       through: Option<Intermediate>, child: Child)

  /** What the child call returns for one row of its table. */
  function ChildShows(t: Tail): Showing
    requires t.child.Table?
  {
    if t.through.Some? && t.through.value.unwrapped
    then row => UnwrapRow(t.child.finish(row), t.fk, t.through.value.key)
    else row => Some(t.child.finish(row))
  }

  function Joined(path: seq<string>): string {
    if path == [] then "" else if |path| == 1 then path[0] else Joined(path[..|path| - 1]) + "." + path[|path| - 1]
  }

  /** tailKey */
  function Key(t: Tail): string {
    if Joined(t.path) == "" then t.alias else Joined(t.path) + "." + t.alias
  }

  /** A tail and the parent ids collected for it; without ids no goroutine is started. */
  datatype Job = Job(tail: Tail, ids: seq<Value>)

  ghost predicate Fails(j: Job) {
    j.ids != [] && !j.tail.child.Table?
  }

  function Answer(j: Job): Groups
    requires j.tail.child.Table?
  {
    Grouped(j.tail.fk, Fetch(j.tail.fk, ChildShows(j.tail), j.tail.child.rows, set id | id in j.ids))
  }

  /** Where a goroutine stands; `own` says whether it holds its own request or the empty one that a failed
      MakeThroughChildRequest returns. */
  datatype Thread = Start | Requested(own: bool) | Ready(own: bool) | Fetched(groups: Groups) | Done

  datatype State = State(threads: seq<Thread>, err: bool, rerr: bool, grouped: map<string, Groups>)

  function Initial(jobs: seq<Job>): State {
    State(seq(|jobs|, i requires 0 <= i < |jobs| => if jobs[i].ids == [] then Done else Start), false, false, map[])
  }

  /** Thread `i` moves on by one step. Writing `err` and reading it back are two steps; a critical section is one. */
  function Step(jobs: seq<Job>, s: State, i: nat): State
    requires |s.threads| == |jobs|
  {
    if i >= |jobs| then s
    else
      var t := jobs[i].tail;
      match s.threads[i]
      case Start =>
        if t.child.Missing? then Failed(s, i)
        else if t.through.None? then s.(threads := s.threads[i := Ready(true)])
        else s.(threads := s.threads[i := Requested(!t.child.Unbuildable?)], err := t.child.Unbuildable?)
      case Requested(own) =>
        if s.err then Failed(s, i) else s.(threads := s.threads[i := Ready(own)])
      case Ready(own) =>
        // The empty request names no model, so it fails.
        if own && t.child.Table? then s.(threads := s.threads[i := Fetched(Answer(jobs[i]))]) else Failed(s, i)
      case Fetched(groups) =>
        s.(threads := s.threads[i := Done], grouped := s.grouped[Key(t) := groups])
      case Done => s
  }

  function Failed(s: State, i: nat): State
    requires i < |s.threads|
  {
    s.(threads := s.threads[i := Done], rerr := true)
  }

  function Run(jobs: seq<Job>, schedule: seq<nat>): (s: State)
    ensures |s.threads| == |jobs|
  {
    if schedule == [] then Initial(jobs)
    else Step(jobs, Run(jobs, schedule[..|schedule| - 1]), schedule[|schedule| - 1])
  }

  /** wg.Wait returns. */
  ghost predicate Complete(s: State) {
    forall i | 0 <= i < |s.threads| :: s.threads[i] == Done
  }

  ghost predicate DistinctKeys(jobs: seq<Job>) {
    forall i, j | 0 <= i < j < |jobs| :: Key(jobs[i].tail) != Key(jobs[j].tail)
  }

  /** A goroutine was started for the job and its request succeeds. */
  predicate Answers(j: Job) {
    j.ids != [] && j.tail.child.Table?
  }

  /** Jobs that store under one key store the same. */
  ghost predicate Compatible(jobs: seq<Job>) {
    forall i, j | 0 <= i < j < |jobs| :: CompatibleJobs(jobs[i], jobs[j])
  }

  ghost predicate CompatibleJobs(a: Job, b: Job) {
    Answers(a) && Answers(b) && Key(a.tail) == Key(b.tail) ==> Answer(a) == Answer(b)
  }

  ghost predicate SomeFails(jobs: seq<Job>) {
    exists i :: 0 <= i < |jobs| && Fails(jobs[i])
  }

  // ----- what every step keeps -----

  /** What a thread has done so far. */
  ghost predicate Progress(j: Job, t: Thread, rerr: bool, keys: set<string>) {
    match t
    case Start => j.ids != []
    case Requested(own) => j.ids != [] && (own || j.tail.child.Unbuildable?)
    case Ready(own) => j.ids != [] && (own || j.tail.child.Unbuildable?)
    case Fetched(groups) => Answers(j) && groups == Answer(j)
    case Done => j.ids == [] || rerr || (j.tail.child.Table? && Key(j.tail) in keys)
  }

  ghost predicate StoredBy(jobs: seq<Job>, key: string, groups: Groups) {
    exists i :: 0 <= i < |jobs| && Answers(jobs[i]) && Key(jobs[i].tail) == key && groups == Answer(jobs[i])
  }

  ghost predicate Sound(jobs: seq<Job>, s: State) {
    && |s.threads| == |jobs|
    && (s.err || s.rerr ==> SomeFails(jobs))
    && (forall i | 0 <= i < |jobs| :: Progress(jobs[i], s.threads[i], s.rerr, s.grouped.Keys))
    && (forall key <- s.grouped :: StoredBy(jobs, key, s.grouped[key]))
  }

  lemma InitialIsSound(jobs: seq<Job>)
    ensures Sound(jobs, Initial(jobs))
  {
  }

  lemma StoringIsSound(jobs: seq<Job>, s: State, i: nat)
    requires Sound(jobs, s) && i < |jobs| && s.threads[i].Fetched?
    ensures Sound(jobs, Step(jobs, s, i))
  {
    hide Answer, Key, SomeFails;
    var j, groups := jobs[i], s.threads[i].groups;
    assert Progress(j, s.threads[i], s.rerr, s.grouped.Keys);
    assert StoredBy(jobs, Key(j.tail), groups);
    hide StoredBy;
  }

  lemma StepKeepsSound(jobs: seq<Job>, s: State, i: nat)
    requires Sound(jobs, s)
    ensures Sound(jobs, Step(jobs, s, i))
  {
    hide Answer, Key, StoredBy;
    if i < |jobs| && s.threads[i].Fetched? {
      StoringIsSound(jobs, s, i);
    } else if i < |jobs| {
      assert Progress(jobs[i], s.threads[i], s.rerr, s.grouped.Keys);
      assert !s.threads[i].Done? && !jobs[i].tail.child.Table? ==> Fails(jobs[i]);
    }
  }

  lemma {:induction false} RunKeepsSound(jobs: seq<Job>, schedule: seq<nat>)
    ensures Sound(jobs, Run(jobs, schedule))
  {
    hide Sound, Step;
    if schedule == [] {
      InitialIsSound(jobs);
    } else {
      RunKeepsSound(jobs, schedule[..|schedule| - 1]);
      StepKeepsSound(jobs, Run(jobs, schedule[..|schedule| - 1]), schedule[|schedule| - 1]);
    }
  }

  /** Each job's rows under its own key, and nothing else. */
  ghost predicate IsGathered(jobs: seq<Job>, grouped: map<string, Groups>) {
    && (forall i | 0 <= i < |jobs| && jobs[i].ids != [] :: IsStored(jobs[i], grouped))
    && (forall key <- grouped :: StoredBy(jobs, key, grouped[key]))
  }

  ghost predicate IsStored(j: Job, grouped: map<string, Groups>) {
    j.tail.child.Table? && Key(j.tail) in grouped && grouped[Key(j.tail)] == Answer(j)
  }

  /** However the goroutines interleave, and although one may clear or raise another's `err`, the run fails exactly when
      some tail fails on its own, and otherwise gathers exactly each tail's own answer. */
  lemma EveryInterleaving(jobs: seq<Job>, schedule: seq<nat>)
    requires Complete(Run(jobs, schedule))
    ensures Run(jobs, schedule).rerr <==> SomeFails(jobs)
    ensures !SomeFails(jobs) && Compatible(jobs) ==> IsGathered(jobs, Run(jobs, schedule).grouped)
  {
    hide Answer, StoredBy, Run, Key, Compatible;
    RunKeepsSound(jobs, schedule);
    var s := Run(jobs, schedule);
    forall i | 0 <= i < |jobs| ensures s.threads[i] == Done && Progress(jobs[i], Done, s.rerr, s.grouped.Keys) {
    }
    if !s.rerr && Compatible(jobs) {
      forall i | 0 <= i < |jobs| && jobs[i].ids != [] ensures IsStored(jobs[i], s.grouped) {
        StoredIsOwn(jobs, i, s.grouped[Key(jobs[i].tail)]);
      }
    }
  }

  lemma StoredIsOwn(jobs: seq<Job>, i: nat, groups: Groups)
    requires Compatible(jobs) && i < |jobs| && Answers(jobs[i]) && StoredBy(jobs, Key(jobs[i].tail), groups)
    ensures groups == Answer(jobs[i])
  {
    hide Answer, Key;
    var k :| 0 <= k < |jobs| && Answers(jobs[k]) && Key(jobs[k].tail) == Key(jobs[i].tail) && groups == Answer(jobs[k]);
    if k < i {
      assert CompatibleJobs(jobs[k], jobs[i]);
    } else if i < k {
      assert CompatibleJobs(jobs[i], jobs[k]);
    }
  }

  lemma DistinctKeysAreCompatible(jobs: seq<Job>)
    requires DistinctKeys(jobs)
    ensures Compatible(jobs)
  {
    hide Key, Answer;
  }

  // ----- every goroutine ends -----

  function Pending(t: Thread): nat {
    match t
    case Start => 4
    case Requested(_) => 3
    case Ready(_) => 2
    case Fetched(_) => 1
    case Done => 0
  }

  function AllPending(ts: seq<Thread>): nat {
    if ts == [] then 0 else AllPending(ts[..|ts| - 1]) + Pending(ts[|ts| - 1])
  }

  lemma {:induction false} PendingUpdate(ts: seq<Thread>, i: nat, t: Thread)
    requires i < |ts|
    ensures AllPending(ts[i := t]) == AllPending(ts) - Pending(ts[i]) + Pending(t)
  {
    if i < |ts| - 1 {
      assert ts[i := t][..|ts| - 1] == ts[..|ts| - 1][i := t];
      PendingUpdate(ts[..|ts| - 1], i, t);
    } else {
      assert ts[i := t][..|ts| - 1] == ts[..|ts| - 1];
    }
  }

  /** Every step of a thread that is not done brings the run closer to its end: no thread waits for another. */
  lemma EveryStepProgresses(jobs: seq<Job>, s: State, i: nat)
    requires |s.threads| == |jobs| && i < |jobs| && s.threads[i] != Done
    ensures AllPending(Step(jobs, s, i).threads) < AllPending(s.threads)
    ensures Pending(Step(jobs, s, i).threads[i]) < Pending(s.threads[i])
    ensures forall k | 0 <= k < |jobs| && k != i :: Step(jobs, s, i).threads[k] == s.threads[k]
  {
    hide Answer, AllPending;
    var t := Step(jobs, s, i).threads[i];
    PendingUpdate(s.threads, i, t);
    assert Step(jobs, s, i).threads == s.threads[i := t];
  }

  lemma RunSnoc(jobs: seq<Job>, schedule: seq<nat>, i: nat)
    ensures Run(jobs, schedule + [i]) == Step(jobs, Run(jobs, schedule), i)
  {
    assert (schedule + [i])[..|schedule|] == schedule;
  }

  /** Every run can be continued until all goroutines but one have ended. */
  lemma {:induction false} AllButOneEnd(jobs: seq<Job>, before: seq<nat>, i: nat) returns (schedule: seq<nat>)
    ensures forall k | 0 <= k < |jobs| && k != i :: Run(jobs, schedule).threads[k] == Done
    ensures i < |jobs| ==> Run(jobs, schedule).threads[i] == Run(jobs, before).threads[i]
    decreases AllPending(Run(jobs, before).threads)
  {
    hide Run, Step, AllPending;
    var s := Run(jobs, before);
    if k :| 0 <= k < |jobs| && k != i && s.threads[k] != Done {
      EveryStepProgresses(jobs, s, k);
      RunSnoc(jobs, before, k);
      schedule := AllButOneEnd(jobs, before + [k], i);
    } else {
      schedule := before;
    }
  }

  /** The last goroutine ends, and if nothing fails its answer is what its key holds. */
  lemma {:induction false} LastOneEnds(jobs: seq<Job>, before: seq<nat>, i: nat) returns (schedule: seq<nat>)
    requires forall k | 0 <= k < |jobs| && k != i :: Run(jobs, before).threads[k] == Done
    requires i < |jobs| && Run(jobs, before).threads[i] != Done && !SomeFails(jobs)
    ensures Complete(Run(jobs, schedule)) && IsStored(jobs[i], Run(jobs, schedule).grouped)
    decreases Pending(Run(jobs, before).threads[i])
  {
    hide Run, Key, Answer, AllPending, SomeFails;
    var s := Run(jobs, before);
    RunKeepsSound(jobs, before);
    EveryStepProgresses(jobs, s, i);
    RunSnoc(jobs, before, i);
    assert Progress(jobs[i], s.threads[i], s.rerr, s.grouped.Keys);
    if s.threads[i].Fetched? {
      schedule := before + [i];
    } else {
      NothingFails(jobs, i);
      schedule := LastOneEnds(jobs, before + [i], i);
    }
  }

  lemma NothingFails(jobs: seq<Job>, i: nat)
    requires !SomeFails(jobs) && i < |jobs| && jobs[i].ids != []
    ensures Answers(jobs[i])
  {
    assert !Fails(jobs[i]);
  }

  /** Any started job can be the last to store under its key. */
  lemma AnyoneCanBeLast(jobs: seq<Job>, i: nat) returns (schedule: seq<nat>)
    requires i < |jobs| && jobs[i].ids != [] && !SomeFails(jobs)
    ensures Complete(Run(jobs, schedule)) && IsStored(jobs[i], Run(jobs, schedule).grouped)
  {
    hide SomeFails, IsStored;
    assert Run(jobs, []) == Initial(jobs);
    hide Run, Complete;
    var before := AllButOneEnd(jobs, [], i);
    schedule := LastOneEnds(jobs, before, i);
  }

  /** Every complete run gathers each tail's own answer. */
  ghost predicate AlwaysGathers(jobs: seq<Job>) {
    forall schedule: seq<nat> | Complete(Run(jobs, schedule)) :: IsGathered(jobs, Run(jobs, schedule).grouped)
  }

  /** Any two complete runs gather the same. */
  ghost predicate OrderDoesNotMatter(jobs: seq<Job>) {
    forall a: seq<nat>, b: seq<nat> | Complete(Run(jobs, a)) && Complete(Run(jobs, b)) ::
      Run(jobs, a).grouped == Run(jobs, b).grouped
  }

  /** The exact condition: when no tail fails, every interleaving gathers each tail's own answer if and
      only if tails with one key have the same answer; and otherwise the interleaving decides whose answer
      is kept. */
  lemma SharedKeysRaceUnlessEqual(jobs: seq<Job>)
    requires !SomeFails(jobs)
    ensures AlwaysGathers(jobs) <==> Compatible(jobs)
    ensures OrderDoesNotMatter(jobs) <==> Compatible(jobs)
  {
    hide Answer, Key, Run, SomeFails, IsGathered, Complete;
    if Compatible(jobs) {
      forall a: seq<nat> | Complete(Run(jobs, a)) ensures IsGathered(jobs, Run(jobs, a).grouped) {
        EveryInterleaving(jobs, a);
      }
      forall a: seq<nat>, b: seq<nat> | Complete(Run(jobs, a)) && Complete(Run(jobs, b))
        ensures Run(jobs, a).grouped == Run(jobs, b).grouped
      {
        GatheredIsUnique(jobs, Run(jobs, a).grouped, Run(jobs, b).grouped);
      }
    } else {
      var i, j :| 0 <= i < j < |jobs| && !CompatibleJobs(jobs[i], jobs[j]);
      var a := AnyoneCanBeLast(jobs, i);
      var b := AnyoneCanBeLast(jobs, j);
      GatheredHolds(jobs, Run(jobs, a).grouped, i, j);
    }
  }

  lemma GatheredHolds(jobs: seq<Job>, grouped: map<string, Groups>, i: nat, j: nat)
    requires i < |jobs| && j < |jobs| && jobs[i].ids != [] && jobs[j].ids != []
    ensures IsGathered(jobs, grouped) ==> IsStored(jobs[i], grouped) && IsStored(jobs[j], grouped)
  {
    hide IsStored, StoredBy;
  }

  lemma GatheredIsUnique(jobs: seq<Job>, g: map<string, Groups>, h: map<string, Groups>)
    requires IsGathered(jobs, g) && IsGathered(jobs, h)
    ensures g == h
  {
    hide Answer, Key;
    forall key ensures key in g <==> key in h {
      assert key in g ==> StoredBy(jobs, key, g[key]);
      assert key in h ==> StoredBy(jobs, key, h[key]);
    }
    forall key <- g ensures g[key] == h[key] {
      assert StoredBy(jobs, key, g[key]);
    }
  }

  // ----- tails that share a key -----

  /** The ids the collecting loop stores under a key: those of the last tail that has it. */
  function LastIds(own: seq<Job>, key: string): seq<Value> {
    if own == [] then []
    else if Key(own[|own| - 1].tail) == key then own[|own| - 1].ids
    else LastIds(own[..|own| - 1], key)
  }

  /** The jobs that are started when each tail has collected its own ids: the ids are looked up by key. */
  function Shared(own: seq<Job>): seq<Job> {
    seq(|own|, i requires 0 <= i < |own| => Job(own[i].tail, LastIds(own, Key(own[i].tail))))
  }

  ghost predicate SameKeySameIds(own: seq<Job>) {
    forall i, j | 0 <= i < j < |own| :: Key(own[i].tail) == Key(own[j].tail) ==> own[i].ids == own[j].ids
  }

  lemma {:induction false} LastOfKey(own: seq<Job>, i: nat) returns (l: nat)
    requires i < |own|
    ensures i <= l < |own| && Key(own[l].tail) == Key(own[i].tail)
    ensures LastIds(own, Key(own[i].tail)) == own[l].ids
  {
    hide Key;
    if Key(own[|own| - 1].tail) == Key(own[i].tail) {
      l := |own| - 1;
    } else {
      l := LastOfKey(own[..|own| - 1], i);
    }
  }

  /** Every tail queries with its own ids if and only if tails with one key have collected the same. */
  lemma OwnIdsAreKept(own: seq<Job>)
    ensures Shared(own) == own <==> SameKeySameIds(own)
    ensures DistinctKeys(own) ==> Shared(own) == own
  {
    hide Key;
    if SameKeySameIds(own) {
      forall i | 0 <= i < |own| ensures Shared(own)[i] == own[i] {
        var l := LastOfKey(own, i);
      }
    }
    if Shared(own) == own {
      forall i, j | 0 <= i < j < |own| && Key(own[i].tail) == Key(own[j].tail) ensures own[i].ids == own[j].ids {
        assert Shared(own)[i].ids == own[i].ids && Shared(own)[j].ids == own[j].ids;
      }
    }
  }

  /** Tails with one key get the same answer for the ids they share, and it is what each would have got for its own. */
  ghost predicate OwnAnswers(own: seq<Job>) {
    Compatible(Shared(own)) && forall i | 0 <= i < |own| && own[i].ids != [] :: HasOwnAnswer(own[i], Shared(own)[i])
  }

  ghost predicate HasOwnAnswer(own: Job, shared: Job) {
    own.tail.child.Table? && Answers(shared) && shared.tail == own.tail && Answer(shared) == Answer(own)
  }

  /** Every complete run gathers for each tail the answer to the ids it has collected itself. */
  ghost predicate AlwaysGathersOwn(own: seq<Job>) {
    forall schedule: seq<nat> | Complete(Run(Shared(own), schedule)) ::
      IsGathered(own, Run(Shared(own), schedule).grouped)
  }

  /** The last tail of a key that was queried has its own answer. */
  lemma LastIsOwn(own: seq<Job>, i: nat) returns (l: nat)
    requires i < |own| && Shared(own)[i].ids != []
    ensures l < |own| && Key(own[l].tail) == Key(own[i].tail) && own[l].ids != [] && Shared(own)[l] == own[l]
  {
    hide Key;
    l := LastOfKey(own, i);
  }

  lemma DistinctKeysHaveOwnAnswers(own: seq<Job>)
    requires DistinctKeys(own) && !SomeFails(own)
    ensures OwnAnswers(own)
  {
    hide Key, Answer, Compatible, DistinctKeys;
    OwnIdsAreKept(own);
    DistinctKeysAreCompatible(own);
    forall i | 0 <= i < |own| && own[i].ids != [] ensures HasOwnAnswer(own[i], Shared(own)[i]) {
      NothingFails(own, i);
    }
  }

  lemma OwnAnswersAreGathered(own: seq<Job>, grouped: map<string, Groups>)
    requires OwnAnswers(own) && IsGathered(Shared(own), grouped)
    ensures IsGathered(own, grouped)
  {
    hide Key, Answer, LastIds, Compatible;
    var jobs := Shared(own);
    forall i | 0 <= i < |own| && own[i].ids != [] ensures IsStored(own[i], grouped) {
      assert HasOwnAnswer(own[i], jobs[i]) && IsStored(jobs[i], grouped);
    }
    forall key <- grouped ensures StoredBy(own, key, grouped[key]) {
      var i :| 0 <= i < |jobs| && Answers(jobs[i]) && Key(jobs[i].tail) == key && grouped[key] == Answer(jobs[i]);
      var l := LastIsOwn(own, i);
      assert IsStored(jobs[l], grouped);
    }
  }

  lemma GatheredOwnIsShared(own: seq<Job>, i: nat, grouped: map<string, Groups>)
    requires IsGathered(own, grouped) && i < |own| && IsStored(Shared(own)[i], grouped) && Shared(own)[i].ids != []
    ensures own[i].ids != [] ==> HasOwnAnswer(own[i], Shared(own)[i])
    ensures forall l | 0 <= l < |own| && Key(own[l].tail) == Key(own[i].tail) && own[l].ids != [] ::
      own[l].tail.child.Table? && Answer(own[l]) == Answer(Shared(own)[i])
  {
    hide Key, Answer, LastIds, StoredBy;
    forall l | 0 <= l < |own| && Key(own[l].tail) == Key(own[i].tail) && own[l].ids != []
      ensures own[l].tail.child.Table? && Answer(own[l]) == Answer(Shared(own)[i])
    {
      assert IsStored(own[l], grouped);
    }
  }

  lemma SomeRunCompletes(jobs: seq<Job>) returns (schedule: seq<nat>)
    ensures Complete(Run(jobs, schedule))
  {
    schedule := AllButOneEnd(jobs, [], |jobs|);
  }

  lemma OwnIdsAreAsked(own: seq<Job>, i: nat)
    requires !SomeFails(Shared(own)) && AlwaysGathersOwn(own) && i < |own| && own[i].ids != []
    ensures Shared(own)[i].ids != []
  {
    hide Key, Answer, LastIds, Run, Complete, SomeFails;
    var jobs := Shared(own);
    var schedule := SomeRunCompletes(jobs);
    RunKeepsSound(jobs, schedule);
    var grouped := Run(jobs, schedule).grouped;
    assert IsStored(own[i], grouped);
    var key := Key(own[i].tail);
    assert StoredBy(jobs, key, grouped[key]);
    var k :| 0 <= k < |jobs| && Answers(jobs[k]) && Key(jobs[k].tail) == key;
  }

  lemma SharedAnswer(own: seq<Job>, i: nat) returns (grouped: map<string, Groups>)
    requires !SomeFails(Shared(own)) && AlwaysGathersOwn(own) && i < |own| && Shared(own)[i].ids != []
    ensures IsGathered(own, grouped) && IsStored(Shared(own)[i], grouped)
  {
    hide Run, Complete, SomeFails, IsGathered, IsStored, LastIds, Key;
    var schedule := AnyoneCanBeLast(Shared(own), i);
    grouped := Run(Shared(own), schedule).grouped;
  }

  /** The exact condition when no started tail fails: every tail is sure to get what its own ids ask for if and only if
      tails with one key agree on the answer to the ids of the last of them, and it answers their own ids as well. */
  lemma TailsGetTheirOwnExactly(own: seq<Job>)
    requires !SomeFails(Shared(own))
    ensures AlwaysGathersOwn(own) <==> OwnAnswers(own)
  {
    hide Key, Answer, LastIds, Run, Complete, SomeFails, IsGathered, HasOwnAnswer, IsStored;
    var jobs := Shared(own);
    if OwnAnswers(own) {
      forall schedule: seq<nat> | Complete(Run(jobs, schedule)) ensures IsGathered(own, Run(jobs, schedule).grouped) {
        EveryInterleaving(jobs, schedule);
        OwnAnswersAreGathered(own, Run(jobs, schedule).grouped);
      }
    }
    if AlwaysGathersOwn(own) {
      forall i | 0 <= i < |own| && own[i].ids != [] ensures HasOwnAnswer(own[i], jobs[i]) {
        OwnIdsAreAsked(own, i);
        var grouped := SharedAnswer(own, i);
        GatheredOwnIsShared(own, i, grouped);
      }
      forall i, j | 0 <= i < j < |jobs| ensures CompatibleJobs(jobs[i], jobs[j]) {
        if Answers(jobs[i]) && Answers(jobs[j]) && Key(jobs[i].tail) == Key(jobs[j].tail) {
          var l := LastIsOwn(own, i);
          var g := SharedAnswer(own, i);
          var h := SharedAnswer(own, j);
          GatheredOwnIsShared(own, i, g);
          GatheredOwnIsShared(own, j, h);
        }
      }
    }
  }
}
