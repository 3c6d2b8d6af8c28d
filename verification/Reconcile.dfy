/** internal/dotfiles/manager.go: one apply as a function of its inputs, and
    what it promises about the tree and the stored state. */
module Reconcile {
  import opened Common
  import opened FileTree
  import opened Executor
  import opened Planner

  type Files = map<Path, SourceFile>

  /** The tree on disk and the state as it was loaded. */
  datatype Sys = Sys(disk: Disk, store: Store)

  /** What the caller and the surroundings choose: whether the state can be loaded,
      dry run, whether the before hooks and the state save succeed, and the order
      and faults of the pool. */
  datatype Choice = Choice(loadOk: bool, dryRun: bool, hooksOk: bool, saveOk: bool, sched: seq<Event>)

  datatype Outcome = LoadFailed | PlanFailed | NoChanges | DryRun | HookFailed | ExecFailed | SaveFailed | Applied

  /** deployer.DropIgnored. */
  function Kept(ignore: Path -> bool, store: Store): Store {
    map t | t in store && !ignore(t) :: store[t]
  }

  predicate StaysRecorded(env: Env, store: Store, work: Tasks, t: Path) {
    if t in work then work[t].Put? && !env.ignore(t) else t in store
  }

  /** The patches of the finished work folded into the in-memory state. */
  function Patched(env: Env, store: Store, work: Tasks): Store {
    map t | t in store.Keys + work.Keys && StaysRecorded(env, store, work, t) ::
      if t in work then work[t].file.info else store[t]
  }

  /** An apply from its plan on: the early exits, the execution, the save. */
  function Carry(env: Env, c: Choice, s: Sys, kept: Store, work: Tasks): (Outcome, Sys) {
    if work == map[] then
      if kept == s.store || c.dryRun then (NoChanges, s)
      else if c.saveOk then (NoChanges, Sys(s.disk, kept))
      else (SaveFailed, s)
    else if c.dryRun then (DryRun, s)
    else if !c.hooksOk then (HookFailed, s)
    else
      var e := Run(work, Start(s.disk, work), c.sched);
      if Failed(e) || !Finished(work, e) then (ExecFailed, Sys(e.disk, s.store))
      else if !c.saveOk then (SaveFailed, Sys(e.disk, s.store))
      else (Applied, Sys(e.disk, Patched(env, kept, work)))
  }

  function Apply(env: Env, files: Files, c: Choice, s: Sys): (Outcome, Sys) {
    var kept := Kept(env.ignore, s.store);
    if !c.loadOk then (LoadFailed, s)
    else if PlanFails(env, files, s.disk, kept) then (PlanFailed, s)
    else Carry(env, c, s, kept, Work(env, files, s.disk, kept))
  }

  predicate Succeeds(env: Env, files: Files, c: Choice, s: Sys) {
    !c.dryRun && Apply(env, files, c, s).0 in {NoChanges, Applied}
  }

  function After(env: Env, files: Files, c: Choice, s: Sys): Sys {
    Apply(env, files, c, s).1
  }

  /** The work of an apply, planned on the state after DropIgnored. */
  function WorkOf(env: Env, files: Files, s: Sys): Tasks {
    Work(env, files, s.disk, Kept(env.ignore, s.store))
  }

  function OwnedBy(env: Env, files: Files): Store {
    map t | t in files && !env.ignore(t) :: files[t].info
  }

  /** Where planning succeeds and leaves no work, the target is recorded as
      desired, unless it is ignored. */
  lemma NoWorkIsRecorded(env: Env, files: Files, disk: Disk, store: Store, t: Path)
    requires !PlanFails(env, files, disk, store)
    requires t in files && t !in Work(env, files, disk, store)
    ensures DecideAt(env, files, disk, store, t) == Planned(Noop)
    ensures env.ignore(t) || Recorded(store, t) == Some(files[t].info)
  {
    assert DecideAt(env, files, disk, store, t) != PlanError;
    assert !Rewrites(env, files, disk, store, t);
  }

  lemma PatchedIsOwned(env: Env, files: Files, disk: Disk, store: Store)
    requires !PlanFails(env, files, disk, store)
    requires forall t :: t in store ==> !env.ignore(t)
    ensures Patched(env, store, Work(env, files, disk, store)) == OwnedBy(env, files)
  {
    var work := Work(env, files, disk, store);
    forall t ensures Recorded(Patched(env, store, work), t) == Recorded(OwnedBy(env, files), t) {
      if t in files && t !in work {
        NoWorkIsRecorded(env, files, disk, store, t);
      }
    }
    SameStore(Patched(env, store, work), OwnedBy(env, files));
  }

  lemma SameStore(a: Store, b: Store)
    requires forall t :: Recorded(a, t) == Recorded(b, t)
    ensures a == b
  {
    forall t ensures t in a <==> t in b {
      assert Recorded(a, t) == Recorded(b, t);
    }
    forall t | t in a ensures a[t] == b[t] {
      assert Recorded(a, t) == Recorded(b, t);
    }
  }

  /** After a successful apply the state in memory, which is saved if it is not the
      loaded one, is exactly the non-ignored desired files with their source notes,
      whatever it was before. */
  lemma ExactState(env: Env, files: Files, c: Choice, s: Sys)
    requires Succeeds(env, files, c, s)
    ensures After(env, files, c, s).store == OwnedBy(env, files)
  {
    var kept := Kept(env.ignore, s.store);
    PatchedIsOwned(env, files, s.disk, kept);
    if WorkOf(env, files, s) == map[] {
      assert Patched(env, kept, map[]) == kept;
    }
  }

  /** The desired targets, and the recorded ones that are not ignored. */
  function Targets(env: Env, files: Files, s: Sys): set<Path> {
    files.Keys + Kept(env.ignore, s.store).Keys
  }

  /** The targets an apply may touch are pairwise non-nested. */
  ghost predicate Compatible(env: Env, files: Files, s: Sys) {
    Antichain(Targets(env, files, s))
  }

  /** The planner trusted the recorded bundle fingerprint at t and did not look. */
  predicate Trusted(env: Env, files: Files, s: Sys, t: Path) {
    t in files && FastPath(env, At(s.disk, t), files[t], Recorded(Kept(env.ignore, s.store), t))
  }

  /** The tree after a successful apply, path by path. */
  lemma TreeAfter(env: Env, files: Files, c: Choice, s: Sys, p: Path)
    requires Compatible(env, files, s) && Succeeds(env, files, c, s)
    ensures At(After(env, files, c, s).disk, p) == Final(s.disk, WorkOf(env, files, s), p)
    ensures forall t :: t in WorkOf(env, files, s) ==> Doable(s.disk, t, WorkOf(env, files, s)[t])
  {
    var work := WorkOf(env, files, s);
    SuccessRan(env, files, c, s);
    if work != map[] {
      WorkKeys(env, files, s);
      assert work.Keys <= Targets(env, files, s);
      RunEndsInFinal(s.disk, work, c.sched, Run(work, Start(s.disk, work), c.sched));
    }
  }

  /** A successful apply either had nothing to do or ran all its work. */
  lemma SuccessRan(env: Env, files: Files, c: Choice, s: Sys)
    requires Succeeds(env, files, c, s)
    ensures var work := WorkOf(env, files, s);
            var e := Run(work, Start(s.disk, work), c.sched);
            if work == map[] then After(env, files, c, s).disk == s.disk
            else !Failed(e) && Finished(work, e) && After(env, files, c, s).disk == e.disk
  {
  }

  /** An apply can succeed exactly if every target can be planned and all work can be
      done on the tree as it is. */
  lemma CanSucceed(env: Env, files: Files, s: Sys)
    requires Compatible(env, files, s)
    ensures (exists c :: Succeeds(env, files, c, s)) <==>
              !PlanFails(env, files, s.disk, Kept(env.ignore, s.store)) && AllDoable(s.disk, WorkOf(env, files, s))
  {
    var work := WorkOf(env, files, s);
    if c :| Succeeds(env, files, c, s) {
      TreeAfter(env, files, c, s, []);
    }
    if !PlanFails(env, files, s.disk, Kept(env.ignore, s.store)) && AllDoable(s.disk, work) {
      assert work.Keys <= Targets(env, files, s);
      var sched := DoableCompletes(s.disk, work);
      assert Succeeds(env, files, Choice(true, false, true, true, sched), s);
    }
  }

  /** Convergence, exactly: after a successful apply a desired target whose bundle
      fingerprint was not trusted has the kind, link, permission bits and bytes its file
      asks for, unless the apply wrote it for a file that asks for no bits. */
  lemma Converges(env: Env, files: Files, c: Choice, s: Sys, t: Path)
    requires Injective(env.hash) && Compatible(env, files, s) && Succeeds(env, files, c, s)
    requires t in files && !Trusted(env, files, s, t)
    ensures Available(files[t])
    ensures At(After(env, files, c, s).disk, t) == Some(Asked(files[t])) <==>
              !(t in WorkOf(env, files, s) && ZeroPerm(files[t]))
    ensures !ZeroPerm(files[t]) ==> At(After(env, files, c, s).disk, t) == Some(NodeOf(files[t]))
  {
    TreeAfter(env, files, c, s, t);
    if t in WorkOf(env, files, s) {
      assert OkStep(s.disk, t, WorkOf(env, files, s)[t], 2);
    } else {
      UntrustedNoop(env, files, s, t);
      Undisturbed(env, files, s, t);
    }
  }

  /** With --no-cache every desired target is written, whatever is recorded of it, so all
      that ask for some permission bits converge. */
  lemma NoCacheWritesAll(env: Env, files: Files, c: Choice, s: Sys, t: Path)
    requires env.noCache && t in files
    ensures !PlanFails(env, files, s.disk, Kept(env.ignore, s.store))
    ensures t in WorkOf(env, files, s) && WorkOf(env, files, s)[t] == Put(files[t])
    ensures Compatible(env, files, s) && Succeeds(env, files, c, s) ==>
              && Available(files[t])
              && (At(After(env, files, c, s).disk, t) == Some(Asked(files[t])) <==> !ZeroPerm(files[t]))
  {
    var kept := Kept(env.ignore, s.store);
    forall u | u in files
      ensures DecideAt(env, files, s.disk, kept, u) == Planned(if u in s.disk then Update else Create) {
      NoCacheRewrites(env, At(s.disk, u), files[u], Recorded(kept, u), env.ignore(u), env.opens(u));
    }
    if Compatible(env, files, s) && Succeeds(env, files, c, s) {
      TreeAfter(env, files, c, s, t);
      assert OkStep(s.disk, t, WorkOf(env, files, s)[t], 2);
    }
  }

  /** Whatever became of the apply, a regular file that stood at a target that asks for
      one is still there, or the new one is. */
  lemma OldFileOrNew(env: Env, files: Files, c: Choice, s: Sys, t: Path)
    requires Compatible(env, files, s) && t in files && files[t].content.Regular?
    requires t in s.disk && s.disk[t].File?
    ensures var n := At(After(env, files, c, s).disk, t);
            n == Some(s.disk[t]) || (Available(files[t]) && n == Some(NodeOf(files[t])))
  {
    var work := WorkOf(env, files, s);
    WorkKeys(env, files, s);
    assert work.Keys <= Targets(env, files, s);
    DiskAfter(env, files, c, s);
    if t in work {
      OldFileKept(s.disk, work, c.sched, t);
    } else {
      IdleKept(env, files, s, c.sched, t);
    }
  }

  /** A target without work keeps its node in any run. */
  lemma IdleKept(env: Env, files: Files, s: Sys, sched: seq<Event>, t: Path)
    requires Compatible(env, files, s) && t in Targets(env, files, s) && t !in WorkOf(env, files, s)
    ensures At(Run(WorkOf(env, files, s), Start(s.disk, WorkOf(env, files, s)), sched).disk, t) == At(s.disk, t)
  {
    var work := WorkOf(env, files, s);
    forall u | u in work ensures !(u <= t) && !(t <= u) {
      assert u in Targets(env, files, s);
    }
    Frame(work, Start(s.disk, work), sched, t);
  }

  /** A before hook that fails stops an apply that has work: neither the tree nor the state
      is written. So does a dry run, a failing load, or a plan that cannot be made. */
  lemma HookStops(env: Env, files: Files, c: Choice, s: Sys)
    requires !c.hooksOk || c.dryRun || !c.loadOk || PlanFails(env, files, s.disk, Kept(env.ignore, s.store))
    ensures After(env, files, c, s).disk == s.disk
    ensures WorkOf(env, files, s) != map[] ==> After(env, files, c, s) == s && !Succeeds(env, files, c, s)
  {
  }

  lemma UntrustedNoop(env: Env, files: Files, s: Sys, t: Path)
    requires Injective(env.hash) && !PlanFails(env, files, s.disk, Kept(env.ignore, s.store))
    requires t in files && t !in WorkOf(env, files, s) && !Trusted(env, files, s, t)
    ensures Available(files[t]) && At(s.disk, t) == Some(Asked(files[t]))
    ensures !ZeroPerm(files[t]) ==> At(s.disk, t) == Some(NodeOf(files[t]))
  {
    var kept := Kept(env.ignore, s.store);
    NoWorkIsRecorded(env, files, s.disk, kept, t);
    NoopMeansEqual(env, At(s.disk, t), files[t], Recorded(kept, t), env.ignore(t), env.opens(t));
  }

  /** A desired target with nothing to do is not disturbed by the others. */
  lemma Undisturbed(env: Env, files: Files, s: Sys, t: Path)
    requires Compatible(env, files, s)
    requires t in Targets(env, files, s) && t !in WorkOf(env, files, s)
    ensures Final(s.disk, WorkOf(env, files, s), t) == At(s.disk, t)
  {
    var work := WorkOf(env, files, s);
    forall u | u in work ensures !(u <= t) && !(t <= u) {
      assert u in Targets(env, files, s);
    }
  }

  /** p kept its node, or appeared as a missing parent of a desired file. */
  ghost predicate Untouched(d: Disk, d': Disk, files: Files, p: Path) {
    || At(d', p) == At(d, p)
    || (p !in d && At(d', p) == Some(Dir(DIR_PERM)) && exists t :: t in files && p < t)
  }

  /** Whatever the outcome, a path at or below no target of the apply keeps its node;
      only missing parents of desired files can appear. */
  lemma OthersUntouched(env: Env, files: Files, c: Choice, s: Sys, p: Path)
    requires forall t :: t in Targets(env, files, s) ==> !(t <= p)
    ensures Untouched(s.disk, After(env, files, c, s).disk, files, p)
  {
    var work := WorkOf(env, files, s);
    WorkKeys(env, files, s);
    Frame(work, Start(s.disk, work), c.sched, p);
    var e := Run(work, Start(s.disk, work), c.sched);
    assert Untouched(s.disk, e.disk, files, p);
    DiskAfter(env, files, c, s);
  }

  lemma WorkKeys(env: Env, files: Files, s: Sys)
    ensures forall t :: t in WorkOf(env, files, s) ==> t in Targets(env, files, s)
    ensures forall t :: t in WorkOf(env, files, s) && WorkOf(env, files, s)[t].Put? ==> t in files
  {
  }

  lemma DiskAfter(env: Env, files: Files, c: Choice, s: Sys)
    ensures After(env, files, c, s).disk == s.disk
         || After(env, files, c, s).disk
           == Run(WorkOf(env, files, s), Start(s.disk, WorkOf(env, files, s)), c.sched).disk
  {
  }

  /** An apply that does not succeed leaves the state alone. */
  lemma FailureKeepsState(env: Env, files: Files, c: Choice, s: Sys)
    requires !Succeeds(env, files, c, s)
    ensures After(env, files, c, s).store == s.store
    ensures c.dryRun ==> After(env, files, c, s) == s
  {
  }

  /** Nothing ignored and nothing unrecorded is ever removed as an orphan. */
  lemma OnlyOwnedOrphansRemoved(env: Env, files: Files, s: Sys, t: Path)
    requires t in WorkOf(env, files, s) && WorkOf(env, files, s)[t].Remove?
    ensures !env.ignore(t) && t in s.store && t !in files
  {
  }

  /** The next plan can see that t is as desired: it was not written with 0666 for no
      bits at all, and a file there can be opened. */
  predicate SeenAlike(env': Env, files: Files, work: Tasks, t: Path)
    requires t in files
  {
    !(t in work && ZeroPerm(files[t])) && (files[t].content.Symlink? || env'.opens(t))
  }

  /** And it remembers t as desired, with a fingerprint that stands for it or a look at
      it, or t is ignored and a look is enough. */
  predicate UpToDate(env': Env, files: Files, work: Tasks, next: Store, t: Path)
    requires t in files
  {
    if env'.ignore(t) then SeenAlike(env', files, work, t)
    else
      Recorded(next, t) == Some(files[t].info) && (IsBundle(files[t].info) || SeenAlike(env', files, work, t))
  }

  /** Idempotence of the plan, exactly: after a successful apply and no outside edit the
      next plan, on whatever state next it loads, has no work at t if and only if t is
      up to date. */
  lemma NextPlan(env: Env, env': Env, files: Files, c: Choice, s: Sys, next: Store, t: Path)
    requires Compatible(env, files, s) && Succeeds(env, files, c, s)
    requires env'.ignore == env.ignore && env'.hash == env.hash && !env'.noCache
    requires t in files
    ensures var d := DecideAt(env', files, After(env, files, c, s).disk, Kept(env.ignore, next), t);
            && (d == Planned(Noop) <==> UpToDate(env', files, WorkOf(env, files, s), next, t))
            && (!Trusted(env, files, s, t) || Recorded(next, t) == Some(files[t].info) ==>
                  d in {Planned(Noop), Planned(Update)})
  {
    var work, disk := WorkOf(env, files, s), After(env, files, c, s).disk;
    TreeAfter(env, files, c, s, t);
    assert t in work ==> OkStep(s.disk, t, work[t], 2);
    SameAgain(env, env', files, s, disk, next, t);
  }

  /** The decision on t when its node is what the first apply leaves. */
  lemma SameAgain(env: Env, env': Env, files: Files, s: Sys, disk: Disk, next: Store, t: Path)
    requires Compatible(env, files, s) && t in files && !PlanFails(env, files, s.disk, Kept(env.ignore, s.store))
    requires env'.ignore == env.ignore && env'.hash == env.hash && !env'.noCache
    requires At(disk, t) == Final(s.disk, WorkOf(env, files, s), t)
    requires t in WorkOf(env, files, s) ==> Available(files[t])
    ensures var d := DecideAt(env', files, disk, Kept(env.ignore, next), t);
            && (d == Planned(Noop) <==> UpToDate(env', files, WorkOf(env, files, s), next, t))
            && (!Trusted(env, files, s, t) || Recorded(next, t) == Some(files[t].info) ==>
                  d in {Planned(Noop), Planned(Update)})
  {
    var kept := Kept(env.ignore, next);
    if t in WorkOf(env, files, s) {
      assert Recorded(kept, t) == if env.ignore(t) then None else Recorded(next, t);
      InstalledIsNoop(env', files[t], Recorded(kept, t), env.ignore(t), env'.opens(t));
    } else {
      NoWorkIsRecorded(env, files, s.disk, Kept(env.ignore, s.store), t);
      Undisturbed(env, files, s, t);
    }
  }

  /** If the next load gives back what was in memory and every target is up to date, a
      second apply plans nothing and changes neither tree nor state. */
  lemma IdleAgain(env: Env, env': Env, files: Files, c: Choice, c': Choice, s: Sys, next: Store)
    requires Compatible(env, files, s) && Succeeds(env, files, c, s)
    requires env'.ignore == env.ignore && env'.hash == env.hash && !env'.noCache
    requires next == OwnedBy(env, files) && c'.loadOk
    requires forall t :: t in files ==> UpToDate(env', files, WorkOf(env, files, s), next, t)
    ensures var again := Sys(After(env, files, c, s).disk, next);
            Apply(env', files, c', again) == (NoChanges, again) && Kept(env.ignore, next) == next
  {
    var again := Sys(After(env, files, c, s).disk, next);
    assert Kept(env.ignore, next) == next;
    forall t | t in files ensures DecideAt(env', files, again.disk, next, t) == Planned(Noop) {
      NextPlan(env, env', files, c, s, next, t);
    }
    NothingToDo(env', files, again);
  }

  lemma NothingToDo(env: Env, files: Files, s: Sys)
    requires Kept(env.ignore, s.store) == s.store && s.store.Keys <= files.Keys
    requires forall t :: t in files ==> DecideAt(env, files, s.disk, s.store, t) == Planned(Noop)
    ensures !PlanFails(env, files, s.disk, s.store) && WorkOf(env, files, s) == map[]
    ensures forall c: Choice :: c.loadOk ==> Apply(env, files, c, s) == (NoChanges, s)
  {
    assert forall t :: t in files ==> !Rewrites(env, files, s.disk, s.store, t);
  }
}
