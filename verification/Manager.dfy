/** The deployer's own form: state, state file and tree are objects that the planner,
    the executor and the manager update in loops. Each method is tied to the
    functions of Planner, Executor, Reconcile and Persist. */
module Manager {
  import opened Common
  import opened FileTree
  import opened Executor
  import opened Planner
  import opened Reconcile
  import opened Persist
  import Sorting
  import StateKeys

  datatype Desired = Desired(target: Path, file: SourceFile)

  datatype Action = Action(kind: ActionType, target: Path, file: Option<SourceFile>)

  /** deployer.State. */
  class State {
    var files: Store

    constructor (files: Store)
      ensures this.files == files
    {
      this.files := files;
    }
  }

  class FileSystem {
    var tree: Disk
  }

  /** FileStateStore, with the codec of its keys: Load makes a fresh State, Save replaces
      the file. */
  class StateFile {
    const codec: Codec
    var saved: StateMap

    constructor (codec: Codec)
      ensures this.codec == codec && saved == map[]
    {
      this.codec, this.saved := codec, map[];
    }

    method Load(loadOk: bool) returns (state: State?)
      ensures loadOk ==> state != null && fresh(state) && LoadedAs(codec, saved, state.files)
      ensures !loadOk ==> state == null
    {
      if !loadOk {
        return null;
      }
      state := new State(map[]);
      var todo := saved.Keys;
      while todo != {}
        invariant todo <= saved.Keys
        invariant forall r :: r in saved && r !in todo && codec.read(r).Some? ==> codec.read(r).value in state.files
        invariant forall t :: t in state.files ==> LoadedFrom(codec, saved, state.files, t)
      {
        var key :| key in todo;
        todo := todo - {key};
        var abs := codec.read(key);
        if abs.Some? {
          ghost var was := state.files;
          state.files := state.files[abs.value := saved[key]];
          KeyLoaded(codec, saved, was, key, abs.value);
        }
      }
    }

    method Save(state: State, saveOk: bool) returns (ok: bool)
      modifies this
      ensures ok == saveOk
      ensures if saveOk then SavedAs(codec, state.files, saved) else saved == old(saved)
    {
      var targets := InNameOrder(codec, state.files.Keys);
      var out: StateMap := map[];
      for i := 0 to |targets|
        invariant saved == old(saved) && StateKeys.SavedTo(state.files, targets, i, codec.stored, out)
      {
        StateKeys.SaveNext(state.files, targets, i, codec.stored, out);
        out := out[codec.stored(targets[i]) := state.files[targets[i]]];
      }
      AllTargetsSaved(codec, state.files, targets, out);
      if saveOk {
        saved := out;
      }
      return saveOk;
    }
  }

  lemma KeyLoaded(codec: Codec, saved: StateMap, files: Store, key: string, abs: Path)
    requires key in saved && codec.read(key) == Some(abs)
    requires forall t :: t in files ==> LoadedFrom(codec, saved, files, t)
    ensures var next := files[abs := saved[key]]; forall t :: t in next ==> LoadedFrom(codec, saved, next, t)
  {
    var next := files[abs := saved[key]];
    forall t | t in next ensures LoadedFrom(codec, saved, next, t) {
      if t != abs {
        assert LoadedFrom(codec, saved, files, t);
      }
    }
  }

  function NamesLess(codec: Codec): (Path, Path) -> bool {
    (t, u) => Sorting.StringLess(codec.name(t), codec.name(u))
  }

  ghost predicate Arranged(codec: Codec, targets: seq<Path>, all: set<Path>) {
    && Sorting.Ordered(targets, NamesLess(codec))
    && forall t :: t in targets <==> t in all
  }

  /** The keys of the map in whatever order it is walked, then sorted by name. */
  method InNameOrder(codec: Codec, all: set<Path>) returns (targets: seq<Path>)
    ensures Arranged(codec, targets, all)
  {
    var walked: seq<Path> := [];
    var todo := all;
    while todo != {}
      invariant todo <= all
      invariant forall t :: t in walked <==> t in all && t !in todo
    {
      var t :| t in todo;
      todo := todo - {t};
      walked := walked + [t];
    }
    targets := Sorting.Sort(walked, NamesLess(codec));
    SortArranges(codec, walked);
  }

  lemma SortArranges(codec: Codec, walked: seq<Path>)
    ensures Arranged(codec, Sorting.Sort(walked, NamesLess(codec)), set t | t in walked)
  {
    var less := NamesLess(codec);
    forall t, u | less(t, u) ensures !less(u, t) {
      Sorting.StringTotal(codec.name(t), codec.name(u));
    }
    forall t, u, v | less(t, v) ensures less(t, u) || less(u, v) {
      Sorting.StringSplit(codec.name(t), codec.name(u), codec.name(v));
    }
    Sorting.SortCorrect(walked, less);
    forall t ensures t in Sorting.Sort(walked, less) <==> t in walked {
      assert t in Sorting.Sort(walked, less) <==> t in multiset(Sorting.Sort(walked, less));
      assert t in walked <==> t in multiset(walked);
    }
  }

  lemma AllTargetsSaved(codec: Codec, files: Store, targets: seq<Path>, out: StateMap)
    requires Arranged(codec, targets, files.Keys)
    requires StateKeys.SavedTo(files, targets, |targets|, codec.stored, out)
    ensures SavedAs(codec, files, out)
  {
    forall t | t in files ensures codec.stored(t) in out {
      var j :| 0 <= j < |targets| && targets[j] == t;
      assert codec.stored(targets[j]) in out;
    }
    forall r | r in out ensures exists t :: LastFor(codec, files, r, t) && out[r] == files[t] {
      var j: nat :| StateKeys.LastOf(targets, |targets|, codec.stored, r, j) && out[r] == files[targets[j]];
      LastTarget(codec, files, targets, r, j);
    }
  }

  lemma LastTarget(codec: Codec, files: Store, targets: seq<Path>, r: string, j: nat)
    requires Arranged(codec, targets, files.Keys)
    requires StateKeys.LastOf(targets, |targets|, codec.stored, r, j)
    ensures LastFor(codec, files, r, targets[j])
  {
    var less := NamesLess(codec);
    forall u | u in files && codec.stored(u) == r ensures !less(targets[j], u) {
      var i :| 0 <= i < |targets| && targets[i] == u;
      assert codec.stored(targets[i]) == r;
      if less(targets[j], u) {
        Sorting.StringTotal(codec.name(targets[j]), codec.name(u));
      }
    }
  }

  // ---- types.go ----

  function Rank(k: ActionType): nat {
    match k
    case Delete => 0
    case Update => 1
    case Create => 2
    case Noop => 3
  }

  predicate ActionLess(a: Action, b: Action) {
    if Rank(a.kind) != Rank(b.kind) then Rank(a.kind) < Rank(b.kind)
    else Sorting.StringLess(NameOf(a.target), NameOf(b.target))
  }

  /** SortActions: a stable sort by kind, then target. */
  function SortActions(actions: seq<Action>): seq<Action> {
    Sorting.Sort(actions, ActionLess)
  }

  lemma ActionOrder()
    ensures Sorting.StrictWeak(ActionLess)
  {
    forall a, b | ActionLess(a, b) ensures !ActionLess(b, a) {
      Sorting.StringTotal(NameOf(a.target), NameOf(b.target));
    }
    forall a, b, c | ActionLess(a, c) ensures ActionLess(a, b) || ActionLess(b, c) {
      if Rank(a.kind) == Rank(b.kind) == Rank(c.kind) {
        Sorting.StringSplit(NameOf(a.target), NameOf(b.target), NameOf(c.target));
      }
    }
  }

  // ---- ignore.go ----

  method DropIgnored(state: State, ignore: Path -> bool) returns (n: nat)
    modifies state
    ensures state.files == Kept(ignore, old(state.files))
    ensures n == 0 <==> state.files == old(state.files)
    ensures n == |old(state.files)| - |state.files|
  {
    n := 0;
    ghost var before := state.files;
    var todo := state.files.Keys;
    while todo != {}
      invariant todo <= before.Keys
      invariant forall t :: t in state.files <==> t in before && (t in todo || !ignore(t))
      invariant forall t :: t in state.files ==> state.files[t] == before[t]
      invariant n == |before| - |state.files|
      invariant n == 0 ==> state.files == before
    {
      var t :| t in todo;
      todo := todo - {t};
      if ignore(t) {
        ghost var was := state.files;
        state.files := state.files - {t};
        assert was.Keys == state.files.Keys + {t};
        n := n + 1;
      }
    }
    assert state.files.Keys <= before.Keys;
    if n != 0 && state.files == before {
      assert false;
    }
  }

  // ---- planner.go: Plan ----

  predicate Distinct(desired: seq<Desired>) {
    forall i, j :: 0 <= i < j < |desired| ==> desired[i].target != desired[j].target
  }

  function FilesOf(desired: seq<Desired>): Files {
    if desired == [] then map[]
    else FilesOf(desired[..|desired|-1])[desired[|desired|-1].target := desired[|desired|-1].file]
  }

  lemma {:induction false} FilesOfIndex(desired: seq<Desired>)
    requires Distinct(desired)
    ensures forall t :: t in FilesOf(desired) <==> exists i :: 0 <= i < |desired| && desired[i].target == t
    ensures forall i :: 0 <= i < |desired| ==>
              desired[i].target in FilesOf(desired) && FilesOf(desired)[desired[i].target] == desired[i].file
  {
    if desired != [] {
      FilesOfIndex(desired[..|desired|-1]);
    }
  }

  ghost predicate Mentions(actions: seq<Action>, t: Path) {
    exists i :: 0 <= i < |actions| && actions[i].target == t
  }

  ghost predicate DistinctTargets(actions: seq<Action>) {
    forall i, j :: 0 <= i < j < |actions| ==> actions[i].target != actions[j].target
  }

  /** a is what planning gives for its target. */
  ghost predicate PlannedAction(a: Action, env: Env, files: Files, disk: Disk, store: Store) {
    if a.target in files
    then DecideAt(env, files, disk, store, a.target) == Planned(a.kind) && a.file == Some(files[a.target])
    else a.target in store && a.kind == Delete && a.file == None
  }

  /** One action for every desired and every recorded target, of the decided kind. */
  ghost predicate IsPlan(actions: seq<Action>, env: Env, files: Files, disk: Disk, store: Store) {
    && DistinctTargets(actions)
    && (forall i :: 0 <= i < |actions| ==> PlannedAction(actions[i], env, files, disk, store))
    && (forall t :: t in files.Keys + store.Keys ==> Mentions(actions, t))
  }

  function DecideOn(env: Env, d: Desired, disk: Disk, store: Store): Decision {
    Decide(env, At(disk, d.target), d.file, Recorded(store, d.target), env.ignore(d.target), env.opens(d.target))
  }

  /** planned answers desired, one to one. */
  ghost predicate Answers(planned: seq<Action>, env: Env, desired: seq<Desired>, disk: Disk, store: Store) {
    && |planned| == |desired|
    && forall k :: 0 <= k < |desired| ==>
         && DecideOn(env, desired[k], disk, store) == Planned(planned[k].kind)
         && planned[k].target == desired[k].target && planned[k].file == Some(desired[k].file)
  }

  method PlanDesired(env: Env, desired: seq<Desired>, disk: Disk, state: State) returns (ok: bool, actions: seq<Action>)
    ensures !ok ==> exists k :: 0 <= k < |desired| && DecideOn(env, desired[k], disk, state.files) == PlanError
    ensures ok ==> Answers(actions, env, desired, disk, state.files)
  {
    actions := [];
    for i := 0 to |desired|
      invariant |actions| == i
      invariant forall k :: 0 <= k < i ==>
                  && DecideOn(env, desired[k], disk, state.files) == Planned(actions[k].kind)
                  && actions[k].target == desired[k].target && actions[k].file == Some(desired[k].file)
    {
      var d := PlanOne(env, disk, desired[i].target, desired[i].file, state.files, env.ignore(desired[i].target));
      if d == PlanError {
        return false, [];
      }
      actions := actions + [Action(d.kind, desired[i].target, Some(desired[i].file))];
    }
    ok := true;
  }

  /** One Delete for each recorded target outside files and not still to come. */
  ghost predicate AreOrphans(orphans: seq<Action>, files: Files, store: Store, todo: set<Path>) {
    && (forall k :: 0 <= k < |orphans| ==>
          && orphans[k] == Action(Delete, orphans[k].target, None)
          && orphans[k].target in store && orphans[k].target !in files && orphans[k].target !in todo)
    && (forall t :: t in store && t !in files && t !in todo ==> Mentions(orphans, t))
    && DistinctTargets(orphans)
  }

  /** The loop over the state map, in whatever order the map is walked. */
  method PruneOrphans(desiredMap: Files, state: State) returns (actions: seq<Action>)
    ensures AreOrphans(actions, desiredMap, state.files, {})
  {
    actions := [];
    var todo := state.files.Keys;
    while todo != {}
      invariant todo <= state.files.Keys
      invariant AreOrphans(actions, desiredMap, state.files, todo)
    {
      var t :| t in todo;
      todo := todo - {t};
      if t !in desiredMap {
        ghost var was := actions;
        actions := actions + [Action(Delete, t, None)];
        assert actions[|was|].target == t;
        assert forall k :: 0 <= k < |was| ==> actions[k] == was[k];
        assert forall u :: Mentions(was, u) ==> Mentions(actions, u);
      }
    }
  }

  /** Each desired file is answered in order, be it the second for its target, and
      each orphan once; the plan fails exactly if some decision does. */
  method Plan(env: Env, desired: seq<Desired>, disk: Disk, state: State) returns (ok: bool, actions: seq<Action>)
    ensures ok <==> forall k :: 0 <= k < |desired| ==> DecideOn(env, desired[k], disk, state.files) != PlanError
    ensures ok ==> |desired| <= |actions| && Answers(actions[..|desired|], env, desired, disk, state.files)
    ensures ok ==> AreOrphans(actions[|desired|..], FilesOf(desired), state.files, {})
  {
    var desiredMap: Files := map[];
    for i := 0 to |desired|
      invariant desiredMap == FilesOf(desired[..i])
    {
      assert desired[..i+1][..i] == desired[..i];
      desiredMap := desiredMap[desired[i].target := desired[i].file];
    }
    assert desired[..|desired|] == desired;
    var planned: seq<Action>;
    ok, planned := PlanDesired(env, desired, disk, state);
    if !ok {
      return false, [];
    }
    var orphans := PruneOrphans(desiredMap, state);
    actions := planned + orphans;
    assert actions[..|desired|] == planned && actions[|desired|..] == orphans;
  }

  /** With one desired file a target, that is one action of the decided kind for every
      desired and every recorded target. */
  lemma PlanIsPlan(env: Env, desired: seq<Desired>, disk: Disk, store: Store, ok: bool, actions: seq<Action>)
    requires Distinct(desired)
    requires ok <==> forall k :: 0 <= k < |desired| ==> DecideOn(env, desired[k], disk, store) != PlanError
    requires ok ==> |desired| <= |actions| && Answers(actions[..|desired|], env, desired, disk, store)
    requires ok ==> AreOrphans(actions[|desired|..], FilesOf(desired), store, {})
    ensures ok == !PlanFails(env, FilesOf(desired), disk, store)
    ensures ok ==> IsPlan(actions, env, FilesOf(desired), disk, store)
  {
    if ok {
      var planned, orphans := actions[..|desired|], actions[|desired|..];
      assert planned + orphans == actions;
      PlanComplete(env, desired, disk, store, planned, orphans);
    } else {
      var k :| 0 <= k < |desired| && DecideOn(env, desired[k], disk, store) == PlanError;
      OneFails(env, desired, disk, store, k);
    }
  }

  lemma OneFails(env: Env, desired: seq<Desired>, disk: Disk, store: Store, k: nat)
    requires Distinct(desired) && k < |desired| && DecideOn(env, desired[k], disk, store) == PlanError
    ensures PlanFails(env, FilesOf(desired), disk, store)
  {
    FilesOfIndex(desired);
    assert DecideAt(env, FilesOf(desired), disk, store, desired[k].target) == PlanError;
  }

  lemma PlanComplete(env: Env, desired: seq<Desired>, disk: Disk, store: Store, planned: seq<Action>,
                     orphans: seq<Action>)
    requires Distinct(desired) && Answers(planned, env, desired, disk, store)
    requires AreOrphans(orphans, FilesOf(desired), store, {})
    ensures IsPlan(planned + orphans, env, FilesOf(desired), disk, store)
    ensures !PlanFails(env, FilesOf(desired), disk, store)
  {
    FilesOfIndex(desired);
    var files, actions := FilesOf(desired), planned + orphans;
    PlanMentions(env, desired, disk, store, planned, orphans);
    forall i, j | 0 <= i < j < |actions| ensures actions[i].target != actions[j].target {
      if i < |planned| {
        assert actions[i].target == desired[i].target;
      }
    }
    forall i | 0 <= i < |actions| ensures PlannedAction(actions[i], env, files, disk, store) {
      if i < |planned| {
        assert DecideOn(env, desired[i], disk, store) == DecideAt(env, files, disk, store, desired[i].target);
      } else {
        assert actions[i] == orphans[i - |planned|];
      }
    }
    forall t | t in files ensures DecideAt(env, files, disk, store, t) != PlanError {
      var i :| 0 <= i < |desired| && desired[i].target == t;
    }
  }

  lemma PlanMentions(env: Env, desired: seq<Desired>, disk: Disk, store: Store, planned: seq<Action>,
                     orphans: seq<Action>)
    requires Distinct(desired) && Answers(planned, env, desired, disk, store)
    requires AreOrphans(orphans, FilesOf(desired), store, {})
    ensures forall t :: t in FilesOf(desired).Keys + store.Keys ==> Mentions(planned + orphans, t)
  {
    FilesOfIndex(desired);
    var files, actions := FilesOf(desired), planned + orphans;
    forall t | t in files.Keys + store.Keys ensures Mentions(actions, t) {
      if t in files {
        var i :| 0 <= i < |desired| && desired[i].target == t;
        assert actions[i].target == t;
      } else {
        var k :| 0 <= k < |orphans| && orphans[k].target == t;
        assert actions[|planned| + k].target == t;
      }
    }
  }

  // ---- executor.go ----

  function OpOf(a: Action): Op
    requires a.kind in {Create, Update} ==> a.file.Some?
  {
    if a.kind in {Create, Update} then Put(a.file.value) else Remove
  }

  /** One action a target, and a file wherever one is written. */
  ghost predicate WellFormed(actions: seq<Action>) {
    && (forall a, b :: a in actions && b in actions && a.target == b.target ==> a == b)
    && (forall a :: a in actions && a.kind in {Create, Update} ==> a.file.Some?)
  }

  /** tasks is the work of the actions. */
  ghost predicate IsWork(tasks: Tasks, actions: seq<Action>)
    requires WellFormed(actions)
  {
    && (forall a :: a in actions && a.kind != Noop ==> a.target in tasks && tasks[a.target] == OpOf(a))
    && (forall t :: t in tasks ==> exists a :: a in actions && a.kind != Noop && a.target == t)
  }

  lemma WorkIsUnique(tasks: Tasks, tasks': Tasks, actions: seq<Action>)
    requires WellFormed(actions) && IsWork(tasks, actions) && IsWork(tasks', actions)
    ensures tasks == tasks'
  {
    forall t | t in tasks ensures t in tasks' && tasks'[t] == tasks[t] {
      var a :| a in actions && a.kind != Noop && a.target == t;
    }
    forall t | t in tasks' ensures t in tasks {
      var a :| a in actions && a.kind != Noop && a.target == t;
    }
  }

  /** a may stand before b: deletes, updates, creates, noops, each by target. */
  predicate InOrder(a: Action, b: Action) {
    || (a.kind == Delete && b.kind != Delete)
    || (a.kind == Update && b.kind in {Create, Noop})
    || (a.kind == Create && b.kind == Noop)
    || (a.kind == b.kind && !Sorting.StringLess(NameOf(b.target), NameOf(a.target)))
  }

  /** The sorted list holds the same actions, by kind and then by target, and keeps
      the order of equal entries. */
  lemma SortedActions(actions: seq<Action>)
    ensures var r := SortActions(actions);
            && |r| == |actions| && multiset(r) == multiset(actions)
            && (forall a :: a in r <==> a in actions)
            && (forall i, j :: 0 <= i < j < |r| ==> InOrder(r[i], r[j]))
            && (forall a :: Sorting.Ties(r, a, ActionLess) == Sorting.Ties(actions, a, ActionLess))
  {
    ActionOrder();
    Sorting.SortCorrect(actions, ActionLess);
    var r := SortActions(actions);
    forall a ensures a in r <==> a in actions {
      assert a in r <==> a in multiset(r);
      assert a in actions <==> a in multiset(actions);
    }
    forall i, j | 0 <= i < j < |r| ensures InOrder(r[i], r[j]) {
      assert !ActionLess(r[j], r[i]);
    }
  }

  /** The worker pool: each event advances one target by one step. */
  method RunPool(tasks: Tasks, fs: FileSystem, sched: seq<Event>) returns (ok: bool)
    modifies fs
    ensures var e := Run(tasks, Start(old(fs.tree), tasks), sched);
            fs.tree == e.disk && ok == (!Failed(e) && Finished(tasks, e))
  {
    var pc: map<Path, nat> := map t | t in tasks :: 0;
    var dead: set<Path> := {};
    ghost var e0 := Start(fs.tree, tasks);
    var i := 0;
    while i < |sched|
      invariant 0 <= i <= |sched|
      invariant Shaped(tasks, Exec(fs.tree, pc, dead))
      invariant Run(tasks, Exec(fs.tree, pc, dead), sched[i..]) == Run(tasks, e0, sched)
    {
      ghost var e := Exec(fs.tree, pc, dead);
      RunNext(tasks, e, sched, i);
      var t := sched[i].target;
      if t in tasks && t !in dead && pc[t] < StepCount(tasks[t]) {
        var next := StepOp(fs.tree, t, tasks[t], pc[t]);
        if sched[i].fault || next.None? {
          dead := dead + {t};
        } else {
          fs.tree := next.value;
          pc := pc[t := pc[t] + 1];
        }
      }
      assert Exec(fs.tree, pc, dead) == Step(tasks, e, sched[i]);
      i := i + 1;
    }
    assert Exec(fs.tree, pc, dead) == Run(tasks, e0, sched);
    return dead == {} && forall t :: t in tasks ==> pc[t] == StepCount(tasks[t]);
  }

  lemma RunNext(tasks: Tasks, e: Exec, sched: seq<Event>, i: nat)
    requires Shaped(tasks, e) && i < |sched|
    ensures Run(tasks, e, sched[i..]) == Run(tasks, Step(tasks, e, sched[i]), sched[i+1..])
  {
    assert sched[i..][1..] == sched[i+1..];
  }

  /** applyPatch. */
  method ApplyPatch(state: State, delete: bool, skip: bool, target: Path, info: string)
    modifies state
    ensures state.files == if delete || skip then old(state.files) - {target} else old(state.files)[target := info]
  {
    if delete || skip {
      state.files := state.files - {target};
    } else {
      state.files := state.files[target := info];
    }
  }

  /** The actions of the work, each with its task, and no other tasks. */
  ghost predicate Does(work: seq<Action>, tasks: Tasks) {
    && (forall a :: a in work ==> a.kind != Noop && (a.kind in {Create, Update} ==> a.file.Some?))
    && (forall a :: a in work ==> a.target in tasks && tasks[a.target] == OpOf(a))
    && (forall t :: t in tasks ==> exists a :: a in work && a.target == t)
  }

  /** The loop that drops the noops. */
  method CollectWork(ordered: seq<Action>) returns (work: seq<Action>, todo: Tasks)
    requires WellFormed(ordered)
    ensures forall a :: a in work <==> a in ordered && a.kind != Noop
    ensures IsWork(todo, ordered) && Does(work, todo)
    ensures todo == map[] <==> work == []
  {
    work, todo := [], map[];
    for i := 0 to |ordered|
      invariant forall a :: a in work <==> a in ordered[..i] && a.kind != Noop
      invariant forall a :: a in work ==> a.target in todo && todo[a.target] == OpOf(a)
      invariant forall t :: t in todo ==> exists a :: a in work && a.target == t
    {
      assert ordered[..i+1] == ordered[..i] + [ordered[i]];
      if ordered[i].kind != Noop {
        ghost var was := work;
        work := work + [ordered[i]];
        todo := todo[ordered[i].target := OpOf(ordered[i])];
        assert forall a :: a in was ==> a in work;
        assert ordered[i] in work;
      }
    }
    assert ordered[..|ordered|] == ordered;
    if work != [] {
      assert work[0].target in todo;
    }
  }

  /** The patches of the finished work, reduced in input order. */
  method FoldPatches(env: Env, work: seq<Action>, state: State, ghost tasks: Tasks)
    requires Does(work, tasks)
    modifies state
    ensures state.files == Patched(env, old(state.files), tasks)
  {
    ghost var start, goal := state.files, Patched(env, state.files, tasks);
    for i := 0 to |work|
      invariant FoldedTo(state.files, start, goal, work, i)
    {
      var a := work[i];
      assert a in work;
      ghost var was := state.files;
      var isPut := a.kind in {Create, Update};
      ApplyPatch(state, !isPut, env.ignore(a.target), a.target, if isPut then a.file.value.info else "");
      FoldStep(was, state.files, start, goal, work, i);
    }
    FoldEnds(state.files, start, goal, work, tasks);
  }

  ghost predicate Patching(work: seq<Action>, i: nat, t: Path)
    requires i <= |work|
  {
    exists k :: 0 <= k < i && work[k].target == t
  }

  /** The targets of the first i patches are as in goal, the others as at the start. */
  ghost predicate FoldedTo(files: Store, start: Store, goal: Store, work: seq<Action>, i: nat)
    requires i <= |work|
  {
    forall t :: Recorded(files, t) == Recorded(if Patching(work, i, t) then goal else start, t)
  }

  lemma FoldStep(files: Store, files': Store, start: Store, goal: Store, work: seq<Action>, i: nat)
    requires i < |work| && FoldedTo(files, start, goal, work, i)
    requires Recorded(files', work[i].target) == Recorded(goal, work[i].target)
    requires forall t :: t != work[i].target ==> Recorded(files', t) == Recorded(files, t)
    ensures FoldedTo(files', start, goal, work, i + 1)
  {
    forall t ensures Recorded(files', t) == Recorded(if Patching(work, i + 1, t) then goal else start, t) {
      if t != work[i].target {
        assert Patching(work, i + 1, t) <==> Patching(work, i, t);
      }
    }
  }

  lemma FoldEnds(files: Store, start: Store, goal: Store, work: seq<Action>, tasks: Tasks)
    requires FoldedTo(files, start, goal, work, |work|)
    requires forall t :: t in tasks ==> exists a :: a in work && a.target == t
    requires forall t :: t !in tasks ==> Recorded(goal, t) == Recorded(start, t)
    ensures files == goal
  {
    forall t ensures Recorded(files, t) == Recorded(goal, t) {
      if t in tasks {
        var a :| a in work && a.target == t;
        var k :| 0 <= k < |work| && work[k] == a;
        assert Patching(work, |work|, t);
      }
    }
    SameStore(files, goal);
  }

  /** Sort, drop the noops. */
  method SortedWork(actions: seq<Action>, ghost tasks: Tasks) returns (work: seq<Action>, todo: Tasks)
    requires WellFormed(actions) && IsWork(tasks, actions)
    ensures Does(work, todo) && todo == tasks && (todo == map[] <==> work == [])
  {
    SortedActions(actions);
    work, todo := CollectWork(SortActions(actions));
    WorkIsUnique(todo, tasks, actions);
  }

  /** Execute: run the pool on that work, then fold the patches in
      input order. On an error the state is left alone. */
  method Execute(env: Env, actions: seq<Action>, state: State, fs: FileSystem, sched: seq<Event>, ghost tasks: Tasks)
      returns (ok: bool)
    requires WellFormed(actions) && IsWork(tasks, actions)
    modifies state, fs
    ensures var e := Run(tasks, Start(old(fs.tree), tasks), sched);
            if tasks == map[] then ok && fs.tree == old(fs.tree)
            else fs.tree == e.disk && ok == (!Failed(e) && Finished(tasks, e))
    ensures state.files == if ok then Patched(env, old(state.files), tasks) else old(state.files)
  {
    var work, todo := SortedWork(actions, tasks);
    if |work| == 0 {
      assert Patched(env, state.files, map[]) == state.files;
      return true;
    }
    ok := RunPool(todo, fs, sched);
    if ok {
      FoldPatches(env, work, state, tasks);
    }
  }

  // ---- manager.go ----

  lemma PlannedActionIsWork(a: Action, env: Env, files: Files, disk: Disk, store: Store)
    requires PlannedAction(a, env, files, disk, store)
    ensures a.kind in {Create, Update} ==> a.file.Some?
    ensures a.target in Work(env, files, disk, store) <==> a.kind != Noop
    ensures a.kind != Noop ==> Work(env, files, disk, store)[a.target] == OpOf(a)
  {
  }

  /** The plan of an apply is well formed and its work is the work of Reconcile. */
  lemma PlanIsWork(actions: seq<Action>, env: Env, files: Files, disk: Disk, store: Store, tasks: Tasks)
    requires IsPlan(actions, env, files, disk, store) && tasks == Work(env, files, disk, store)
    ensures WellFormed(actions)
    ensures IsWork(tasks, actions)
  {
    forall a | a in actions
      ensures (a.kind in {Create, Update} ==> a.file.Some?) && (a.target in tasks <==> a.kind != Noop)
           && (a.kind != Noop ==> tasks[a.target] == OpOf(a))
    {
      var i :| 0 <= i < |actions| && actions[i] == a;
      PlannedActionIsWork(a, env, files, disk, store);
    }
    forall a, b | a in actions && b in actions && a.target == b.target ensures a == b {
      var i :| 0 <= i < |actions| && actions[i] == a;
      var j :| 0 <= j < |actions| && actions[j] == b;
      assert i == j;
    }
    forall t | t in tasks ensures exists a :: a in actions && a.kind != Noop && a.target == t {
      assert t in files.Keys + store.Keys && Mentions(actions, t);
      var i :| 0 <= i < |actions| && actions[i].target == t;
      assert actions[i] in actions;
    }
  }

  datatype Counts = Counts(created: nat, updated: nat, deleted: nat, noop: nat)

  function CountKind(actions: seq<Action>, kind: ActionType): nat {
    if actions == [] then 0
    else CountKind(actions[..|actions|-1], kind) + (if actions[|actions|-1].kind == kind then 1 else 0)
  }

  function CountsOf(actions: seq<Action>): Counts {
    Counts(CountKind(actions, Create), CountKind(actions, Update), CountKind(actions, Delete), CountKind(actions, Noop))
  }

  /** The targets the plan creates, updates, leaves alone or deletes. */
  function TargetsOf(env: Env, files: Files, disk: Disk, store: Store, kind: ActionType): set<Path> {
    set t | t in files.Keys + store.Keys
          && (if t in files then DecideAt(env, files, disk, store, t) == Planned(kind) else kind == Delete) :: t
  }

  predicate Tallies(c: Counts, env: Env, files: Files, disk: Disk, store: Store) {
    && c.created == |TargetsOf(env, files, disk, store, Create)|
    && c.updated == |TargetsOf(env, files, disk, store, Update)|
    && c.deleted == |TargetsOf(env, files, disk, store, Delete)|
    && c.noop == |TargetsOf(env, files, disk, store, Noop)|
  }

  function Targeted(actions: seq<Action>, kind: ActionType): set<Path> {
    set a | a in actions && a.kind == kind :: a.target
  }

  lemma {:induction false} CountIsSize(actions: seq<Action>, kind: ActionType)
    requires DistinctTargets(actions)
    ensures CountKind(actions, kind) == |Targeted(actions, kind)|
  {
    if actions != [] {
      var k := |actions| - 1;
      CountIsSize(actions[..k], kind);
      LastTargeted(actions[..k], actions[k], kind);
      assert actions == actions[..k] + [actions[k]];
      forall a | a in actions[..k] ensures a.target != actions[k].target {
        var i :| 0 <= i < k && actions[i] == a;
      }
    }
  }

  lemma LastTargeted(front: seq<Action>, last: Action, kind: ActionType)
    ensures Targeted(front + [last], kind) == Targeted(front, kind) + (if last.kind == kind then {last.target} else {})
  {
    forall t ensures t in Targeted(front + [last], kind) <==>
                     t in Targeted(front, kind) + (if last.kind == kind then {last.target} else {}) {
      assert forall a :: a in front + [last] <==> a in front || a == last;
    }
  }

  lemma TargetedIsPlanned(actions: seq<Action>, env: Env, files: Files, disk: Disk, store: Store, a: Action)
    requires IsPlan(actions, env, files, disk, store) && a in actions
    ensures a.target in TargetsOf(env, files, disk, store, a.kind)
  {
    var i :| 0 <= i < |actions| && actions[i] == a;
    assert PlannedAction(actions[i], env, files, disk, store);
  }

  lemma PlannedIsTargeted(actions: seq<Action>, env: Env, files: Files, disk: Disk, store: Store, kind: ActionType,
                          t: Path)
    requires IsPlan(actions, env, files, disk, store) && t in TargetsOf(env, files, disk, store, kind)
    ensures t in Targeted(actions, kind)
  {
    assert Mentions(actions, t);
    var i :| 0 <= i < |actions| && actions[i].target == t;
    assert PlannedAction(actions[i], env, files, disk, store) && actions[i] in actions;
  }

  lemma KindTargets(actions: seq<Action>, env: Env, files: Files, disk: Disk, store: Store, kind: ActionType)
    requires IsPlan(actions, env, files, disk, store)
    ensures CountKind(actions, kind) == |TargetsOf(env, files, disk, store, kind)|
  {
    CountIsSize(actions, kind);
    forall a | a in actions && a.kind == kind ensures a.target in TargetsOf(env, files, disk, store, kind) {
      TargetedIsPlanned(actions, env, files, disk, store, a);
    }
    forall t | t in TargetsOf(env, files, disk, store, kind) ensures t in Targeted(actions, kind) {
      PlannedIsTargeted(actions, env, files, disk, store, kind, t);
    }
    assert Targeted(actions, kind) == TargetsOf(env, files, disk, store, kind);
  }

  /** The counts of a plan are the numbers of targets of each kind. */
  lemma PlanTallies(actions: seq<Action>, env: Env, files: Files, disk: Disk, store: Store)
    requires IsPlan(actions, env, files, disk, store)
    ensures Tallies(CountsOf(actions), env, files, disk, store)
  {
    KindTargets(actions, env, files, disk, store, Create);
    KindTargets(actions, env, files, disk, store, Update);
    KindTargets(actions, env, files, disk, store, Delete);
    KindTargets(actions, env, files, disk, store, Noop);
  }

  lemma {:induction false} NonzeroKind(actions: seq<Action>)
    ensures var c := CountsOf(actions);
            c.created + c.updated + c.deleted > 0 <==> exists a :: a in actions && a.kind != Noop
  {
    if actions != [] {
      var k := |actions| - 1;
      assert actions == actions[..k] + [actions[k]];
      NonzeroKind(actions[..k]);
    }
  }

  /** Reconcile.Apply from the loaded state on. */
  function PlannedApply(env: Env, files: Files, c: Choice, s: Sys, kept: Store): (Outcome, Sys) {
    if PlanFails(env, files, s.disk, kept) then (PlanFailed, s)
    else Reconcile.Carry(env, c, s, kept, Work(env, files, s.disk, kept))
  }

  class Manager {
    var fs: FileSystem
    var store: StateFile
    var tally: Counts

    constructor (fs: FileSystem, store: StateFile)
      ensures this.fs == fs && this.store == store
    {
      this.fs, this.store, this.tally := fs, store, Counts(0, 0, 0, 0);
    }

    method Count(actions: seq<Action>)
      modifies this`tally
      ensures tally == CountsOf(actions)
    {
      tally := Counts(0, 0, 0, 0);
      for i := 0 to |actions|
        invariant tally == CountsOf(actions[..i])
      {
        assert actions[..i+1][..i] == actions[..i];
        match actions[i].kind
        case Create => tally := tally.(created := tally.created + 1);
        case Update => tally := tally.(updated := tally.updated + 1);
        case Delete => tally := tally.(deleted := tally.deleted + 1);
        case Noop => tally := tally.(noop := tally.noop + 1);
      }
      assert actions[..|actions|] == actions;
    }

    /** Planning, with the work it amounts to. */
    method Prepare(env: Env, desired: seq<Desired>, state: State)
        returns (ok: bool, actions: seq<Action>, hasChanges: bool, ghost tasks: Tasks)
      requires Distinct(desired)
      modifies this`tally
      ensures ok == !PlanFails(env, FilesOf(desired), fs.tree, state.files)
      ensures tasks == Work(env, FilesOf(desired), fs.tree, state.files)
      ensures ok ==> WellFormed(actions) && IsWork(tasks, actions) && hasChanges == (tasks != map[])
      ensures ok ==> Tallies(tally, env, FilesOf(desired), fs.tree, state.files)
    {
      ok, actions := Plan(env, desired, fs.tree, state);
      PlanIsPlan(env, desired, fs.tree, state.files, ok, actions);
      tasks := Work(env, FilesOf(desired), fs.tree, state.files);
      hasChanges := false;
      if ok {
        PlanIsWork(actions, env, FilesOf(desired), fs.tree, state.files, tasks);
        Count(actions);
        PlanTallies(actions, env, FilesOf(desired), fs.tree, state.files);
        NonzeroKind(actions);
        hasChanges := tally.created > 0 || tally.updated > 0 || tally.deleted > 0;
        ChangesMeanWork(tasks, actions);
      }
    }

    /** The end of an apply with changes: execute, save. */
    method Perform(env: Env, c: Choice, state: State, actions: seq<Action>, ghost tasks: Tasks)
        returns (outcome: Outcome)
      requires WellFormed(actions) && IsWork(tasks, actions) && tasks != map[]
      modifies fs, store, state
      ensures var e := Run(tasks, Start(old(fs.tree), tasks), c.sched);
              && fs.tree == e.disk
              && outcome == (if Failed(e) || !Finished(tasks, e) then ExecFailed
                             else if !c.saveOk then SaveFailed else Applied)
      ensures outcome == Applied ==> SavedAs(store.codec, Patched(env, old(state.files), tasks), store.saved)
      ensures outcome != Applied ==> store.saved == old(store.saved)
    {
      var ok := Execute(env, actions, state, fs, c.sched, tasks);
      if !ok {
        return ExecFailed;
      }
      var saved := store.Save(state, c.saveOk);
      return if saved then Applied else SaveFailed;
    }

    /** Apply from its plan on: early exits, execute, save. */
    method Carry(env: Env, c: Choice, state: State, actions: seq<Action>, hasChanges: bool, dropped: nat,
                 ghost tasks: Tasks, ghost loaded: Store)
        returns (outcome: Outcome)
      requires WellFormed(actions) && IsWork(tasks, actions) && hasChanges == (tasks != map[])
      requires dropped == 0 <==> state.files == loaded
      requires state.files == Kept(env.ignore, loaded)
      modifies fs, store, state
      ensures Ends(env, store.codec, c, loaded,
                   Reconcile.Carry(env, c, Sys(old(fs.tree), loaded), old(state.files), tasks),
                   System(old(fs.tree), old(store.saved)), outcome, System(fs.tree, store.saved))
    {
      if !hasChanges {
        if dropped > 0 && !c.dryRun {
          var saved := store.Save(state, c.saveOk);
          if !saved {
            return SaveFailed;
          }
        }
        return NoChanges;
      }
      if c.dryRun {
        return DryRun;
      }
      if !c.hooksOk {
        return HookFailed;
      }
      outcome := Perform(env, c, state, actions, tasks);
    }

    /** Apply with the state at hand: plan, count, then the rest. */
    method PlanAndCarry(env: Env, desired: seq<Desired>, c: Choice, state: State, dropped: nat, ghost loaded: Store)
        returns (outcome: Outcome)
      requires Distinct(desired) && state.files == Kept(env.ignore, loaded)
      requires dropped == 0 <==> state.files == loaded
      modifies this`tally, fs, store, state
      ensures Ends(env, store.codec, c, loaded,
                   PlannedApply(env, FilesOf(desired), c, Sys(old(fs.tree), loaded), old(state.files)),
                   System(old(fs.tree), old(store.saved)), outcome, System(fs.tree, store.saved))
      ensures outcome != PlanFailed ==> Tallies(tally, env, FilesOf(desired), old(fs.tree), old(state.files))
    {
      var planned, actions, hasChanges, tasks := Prepare(env, desired, state);
      if !planned {
        return PlanFailed;
      }
      outcome := Carry(env, c, state, actions, hasChanges, dropped, tasks, loaded);
    }

    /** Apply: load, drop, plan, count, early exits, execute, save. */
    method Apply(env: Env, desired: seq<Desired>, c: Choice) returns (outcome: Outcome, ghost loaded: Store)
      requires Distinct(desired)
      modifies this`tally, fs, store
      ensures Transition(env, store.codec, FilesOf(desired), c, loaded, System(old(fs.tree), old(store.saved)),
                         outcome, System(fs.tree, store.saved))
      ensures outcome !in {LoadFailed, PlanFailed} ==>
                Tallies(tally, env, FilesOf(desired), old(fs.tree), Kept(env.ignore, loaded))
    {
      loaded := map[];
      var state := store.Load(c.loadOk);
      if state == null {
        return LoadFailed, loaded;
      }
      loaded := state.files;
      var dropped := DropIgnored(state, env.ignore);
      outcome := PlanAndCarry(env, desired, c, state, dropped, loaded);
    }
  }

  lemma ChangesMeanWork(tasks: Tasks, actions: seq<Action>)
    requires WellFormed(actions) && IsWork(tasks, actions)
    ensures tasks != map[] <==> exists a :: a in actions && a.kind != Noop
  {
    if tasks != map[] {
      var t :| t in tasks;
    }
  }
}
