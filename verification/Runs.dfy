/** Sequences of applies, each of which loads the state file and saves it: who owns a path
    in the end, and when the planner's bundle fast path may be trusted. */
module Runs {
  import opened Common
  import opened FileTree
  import opened Executor
  import opened Planner
  import opened Reconcile
  import opened Persist
  import Text

  /** One apply of a series: what was asked of it, what it loaded, how it ended. */
  datatype Turn = Turn(
    files: Files,
    choice: Choice,
    noCache: bool,
    opens: Path -> bool,
    loaded: Store,
    outcome: Outcome,
    after: System
  )

  function EnvFor(env: Env, turn: Turn): Env {
    env.(noCache := turn.noCache, opens := turn.opens)
  }

  /** The tree and the loaded state that a turn plans on. */
  function Before(turn: Turn, s: System): Sys {
    Sys(s.disk, turn.loaded)
  }

  function WorkIn(env: Env, turn: Turn, s: System): Tasks {
    WorkOf(EnvFor(env, turn), turn.files, Before(turn, s))
  }

  ghost predicate IsTurn(env: Env, codec: Codec, turn: Turn, s: System) {
    Transition(EnvFor(env, turn), codec, turn.files, turn.choice, turn.loaded, s, turn.outcome, turn.after)
  }

  /** The turns follow one another from s, with nothing edited in between. */
  ghost predicate IsSeries(env: Env, codec: Codec, turns: seq<Turn>, s: System) {
    turns == [] || (IsTurn(env, codec, turns[0], s) && IsSeries(env, codec, turns[1..], turns[0].after))
  }

  function End(turns: seq<Turn>, s: System): System {
    if turns == [] then s else turns[|turns|-1].after
  }

  predicate Succeeded(turn: Turn) {
    Success(turn.choice, turn.outcome)
  }

  predicate AllSucceed(turns: seq<Turn>) {
    forall k :: 0 <= k < |turns| ==> Succeeded(turns[k])
  }

  /** No target of this apply is at or below another. */
  ghost predicate TurnCompatible(env: Env, turn: Turn, s: System) {
    turn.choice.loadOk ==> Compatible(EnvFor(env, turn), turn.files, Before(turn, s))
  }

  ghost predicate AllCompatible(env: Env, turns: seq<Turn>, s: System) {
    turns == [] || (TurnCompatible(env, turns[0], s) && AllCompatible(env, turns[1..], turns[0].after))
  }

  lemma EndOfRest(turns: seq<Turn>, s: System)
    requires turns != []
    ensures End(turns, s) == End(turns[1..], turns[0].after)
    ensures AllSucceed(turns) ==> Succeeded(turns[0]) && AllSucceed(turns[1..])
  {
  }

  lemma TurnSucceeds(env: Env, codec: Codec, turn: Turn, s: System)
    requires IsTurn(env, codec, turn, s) && Succeeded(turn)
    ensures var e, m := EnvFor(env, turn), Before(turn, s);
            && turn.choice.loadOk && LoadedAs(codec, s.saved, turn.loaded)
            && Succeeds(e, turn.files, turn.choice, m)
            && turn.after.disk == After(e, turn.files, turn.choice, m).disk
  {
  }

  // ---- who owns a path ----

  /** Does a successful turn leave p? A target is left if and only if it is desired;
      anything else if it was there, or stands above something that is written, and is
      not cleared by what is written above it. */
  predicate Leaves(env: Env, turn: Turn, s: System, p: Path, was: bool) {
    var work := WorkIn(env, turn, s);
    if p in Targets(EnvFor(env, turn), turn.files, Before(turn, s)) then p in turn.files
    else
      && (was || exists t :: t in work && p < t && work[t].Put?)
      && !(exists u :: u in work && u < p && work[u].Put? && MustClear(At(s.disk, u), work[u].file))
  }

  /** The turns one after another. */
  predicate Fate(env: Env, turns: seq<Turn>, s: System, p: Path, was: bool) {
    if turns == [] then was
    else Fate(env, turns[1..], turns[0].after, p, Leaves(env, turns[0], s, p, was))
  }

  lemma LeavesExactly(env: Env, codec: Codec, turn: Turn, s: System, p: Path)
    requires IsTurn(env, codec, turn, s) && Succeeded(turn) && TurnCompatible(env, turn, s)
    ensures p in turn.after.disk <==> Leaves(env, turn, s, p, p in s.disk)
  {
    var e, m := EnvFor(env, turn), Before(turn, s);
    TurnSucceeds(env, codec, turn, s);
    TreeAfter(e, turn.files, turn.choice, m, p);
    if p in Targets(e, turn.files, m) {
      OwnershipStep(e, turn.files, turn.choice, m, p);
    } else {
      WorkKeys(e, turn.files, m);
      FinalLeft(s.disk, WorkIn(env, turn, s), p);
    }
  }

  lemma FinalLeft(d: Disk, work: Tasks, p: Path)
    requires p !in work
    ensures Final(d, work, p).Some? <==>
              && (p in d || exists t :: t in work && p < t && work[t].Put?)
              && !(exists u :: u in work && u < p && work[u].Put? && MustClear(At(d, u), work[u].file))
  {
    var cleared := exists t :: t in work && t < p && work[t].Put? && MustClear(At(d, t), work[t].file);
    var below := exists t :: t in work && p < t && work[t].Put?;
    assert Final(d, work, p) == if cleared then None else if p !in d && below then Some(Dir(DIR_PERM)) else At(d, p);
  }

  /** A target of a successful apply exists after it if and only if it is desired, and is
      then in the state unless it is ignored. */
  lemma OwnershipStep(env: Env, files: Files, c: Choice, s: Sys, p: Path)
    requires Compatible(env, files, s) && Succeeds(env, files, c, s) && p in Targets(env, files, s)
    ensures p in After(env, files, c, s).disk <==> p in files
    ensures p in After(env, files, c, s).store <==> p in files && !env.ignore(p)
  {
    ExactState(env, files, c, s);
    TreeAfter(env, files, c, s, p);
    if p in WorkOf(env, files, s) {
      WrittenExists(env, files, s, p);
    } else {
      NoWorkIsRecorded(env, files, s.disk, Kept(env.ignore, s.store), p);
      Undisturbed(env, files, s, p);
    }
  }

  lemma WrittenExists(env: Env, files: Files, s: Sys, p: Path)
    requires p in WorkOf(env, files, s) && Doable(s.disk, p, WorkOf(env, files, s)[p])
    ensures Final(s.disk, WorkOf(env, files, s), p).Some? <==> p in files
  {
    assert p in files ==> OkStep(s.disk, p, WorkOf(env, files, s)[p], 2);
  }

  /** Ownership over whole runs, exactly: after any series of successful applies, each free
      of nesting by itself, a path exists if and only if the turns leave it. */
  lemma {:induction false} ExistsExactly(env: Env, codec: Codec, turns: seq<Turn>, s: System, p: Path)
    requires IsSeries(env, codec, turns, s) && AllCompatible(env, turns, s) && AllSucceed(turns)
    ensures p in End(turns, s).disk <==> Fate(env, turns, s, p, p in s.disk)
    decreases |turns|
  {
    if turns != [] {
      EndOfRest(turns, s);
      LeavesExactly(env, codec, turns[0], s, p);
      ExistsExactly(env, codec, turns[1..], turns[0].after, p);
    }
  }

  /** p is recorded, or absent, or will be desired. */
  ghost predicate Known(codec: Codec, turns: seq<Turn>, s: System, p: Path) {
    IsRecorded(codec, s, p) || p !in s.disk || exists k :: 0 <= k < |turns| && p in turns[k].files
  }

  ghost predicate IsRecorded(codec: Codec, s: System, p: Path) {
    exists r :: r in s.saved && codec.read(r) == Some(p)
  }

  ghost predicate DesiresBelow(turn: Turn, p: Path) {
    exists t :: t in turn.files && p < t
  }

  /** What is desired below p is followed by p being desired. */
  ghost predicate Resolved(turns: seq<Turn>, p: Path) {
    forall k :: 0 <= k < |turns| && DesiresBelow(turns[k], p) ==> exists j :: k < j < |turns| && p in turns[j].files
  }

  ghost predicate NothingBelow(turns: seq<Turn>, p: Path) {
    forall k :: 0 <= k < |turns| ==> !DesiresBelow(turns[k], p)
  }

  lemma RestResolved(turns: seq<Turn>, p: Path)
    requires turns != [] && Resolved(turns, p)
    ensures Resolved(turns[1..], p)
    ensures DesiresBelow(turns[0], p) ==> exists k :: 0 <= k < |turns[1..]| && p in turns[1..][k].files
  {
    forall k | 0 <= k < |turns[1..]| && DesiresBelow(turns[1..][k], p)
      ensures exists j :: k < j < |turns[1..]| && p in turns[1..][j].files
    {
      var j :| k + 1 < j < |turns| && p in turns[j].files;
      assert turns[1..][j-1] == turns[j];
    }
    if DesiresBelow(turns[0], p) {
      var j :| 0 < j < |turns| && p in turns[j].files;
      assert turns[1..][j-1] == turns[j];
    }
  }

  /** A non-ignored target whose key is read back is recorded after it was desired. */
  lemma DesiredIsRecorded(env: Env, codec: Codec, turn: Turn, s: System, p: Path)
    requires IsTurn(env, codec, turn, s) && Succeeded(turn)
    requires p in turn.files && !env.ignore(p) && ReadBack(codec, p)
    ensures IsRecorded(codec, turn.after, p)
  {
    var e := EnvFor(env, turn);
    StateFileExact(e, codec, turn.files, turn.choice, turn.loaded, s, turn.outcome, turn.after);
    assert p in OwnedBy(e, turn.files);
    if Saves(e, turn.choice, turn.loaded, turn.outcome) {
      assert codec.stored(p) in turn.after.saved;
    } else {
      assert LoadedFrom(codec, s.saved, turn.loaded, p);
    }
  }

  lemma KnownNext(env: Env, codec: Codec, turns: seq<Turn>, s: System, p: Path)
    requires turns != [] && IsTurn(env, codec, turns[0], s) && Succeeded(turns[0]) && TurnCompatible(env, turns[0], s)
    requires !env.ignore(p) && ReadBack(codec, p) && Known(codec, turns, s, p) && Resolved(turns, p)
    ensures Known(codec, turns[1..], turns[0].after, p)
    ensures |turns| == 1 ==> (p in turns[0].after.disk <==> p in turns[0].files)
  {
    var turn := turns[0];
    LeavesExactly(env, codec, turn, s, p);
    RestResolved(turns, p);
    TurnSucceeds(env, codec, turn, s);
    if p in turn.files {
      DesiredIsRecorded(env, codec, turn, s, p);
    } else if IsRecorded(codec, s, p) {
      assert p in turn.loaded;
      assert p in Targets(EnvFor(env, turn), turn.files, Before(turn, s));
    } else if p !in s.disk {
      WorkKeys(EnvFor(env, turn), turn.files, Before(turn, s));
      assert DesiresBelow(turn, p) || p !in turn.after.disk;
    } else {
      var k :| 0 <= k < |turns| && p in turns[k].files;
      assert turns[1..][k-1] == turns[k];
    }
  }

  /** So a non-ignored path whose key is read back, and that was recorded at the start or
      desired by some turn, exists at the end exactly if the last turn desires it, if
      every turn that desires something below it is followed by one that desires it. */
  lemma {:induction false} Ownership(env: Env, codec: Codec, turns: seq<Turn>, s: System, p: Path)
    requires turns != [] && IsSeries(env, codec, turns, s) && AllCompatible(env, turns, s) && AllSucceed(turns)
    requires !env.ignore(p) && ReadBack(codec, p) && Known(codec, turns, s, p) && Resolved(turns, p)
    ensures p in End(turns, s).disk <==> p in turns[|turns|-1].files
    decreases |turns|
  {
    EndOfRest(turns, s);
    KnownNext(env, codec, turns, s, p);
    RestResolved(turns, p);
    if |turns| > 1 {
      Ownership(env, codec, turns[1..], turns[0].after, p);
    }
  }

  /** In particular if none desires anything below it. */
  lemma OwnershipApart(env: Env, codec: Codec, turns: seq<Turn>, s: System, p: Path)
    requires turns != [] && IsSeries(env, codec, turns, s) && AllCompatible(env, turns, s) && AllSucceed(turns)
    requires !env.ignore(p) && ReadBack(codec, p) && Known(codec, turns, s, p) && NothingBelow(turns, p)
    ensures p in End(turns, s).disk <==> p in turns[|turns|-1].files
  {
    Ownership(env, codec, turns, s, p);
  }

  /** A desired target that is written brings the directories above it back, be it over a
      path that an earlier turn has pruned. */
  lemma ParentsAppear(env: Env, codec: Codec, turn: Turn, s: System, p: Path, t: Path)
    requires IsTurn(env, codec, turn, s) && Succeeded(turn) && TurnCompatible(env, turn, s)
    requires t in turn.files && t in WorkIn(env, turn, s) && p < t
    ensures p !in turn.files && p in turn.after.disk
  {
    var e, m := EnvFor(env, turn), Before(turn, s);
    TurnSucceeds(env, codec, turn, s);
    TreeAfter(e, turn.files, turn.choice, m, p);
    WorkNotNested(e, turn.files, m);
    FinalParent(s.disk, WorkIn(env, turn, s), t, p);
    assert p in turn.files ==> p in Targets(e, turn.files, m) && t in Targets(e, turn.files, m);
  }

  lemma WorkNotNested(env: Env, files: Files, s: Sys)
    requires Compatible(env, files, s)
    ensures Antichain(WorkOf(env, files, s).Keys)
  {
    WorkKeys(env, files, s);
    assert WorkOf(env, files, s).Keys <= Targets(env, files, s);
  }

  /** Neither t nor what its key is read as is at or above p. */
  predicate Apart(env: Env, codec: Codec, t: Path, p: Path) {
    && !(t <= p)
    && (!env.ignore(t) ==> KeyApart(env, codec, codec.stored(t), p))
  }

  predicate KeyApart(env: Env, codec: Codec, r: string, p: Path) {
    var q := codec.read(r);
    q.Some? && !env.ignore(q.value) ==> !(q.value <= p)
  }

  /** No key of the state file, ignored targets aside, and no desired target is at or above
      p, nor is what that target's key is read as. */
  ghost predicate Stranger(env: Env, codec: Codec, turns: seq<Turn>, s: System, p: Path) {
    && (forall r :: r in s.saved ==> KeyApart(env, codec, r, p))
    && (forall k, t :: 0 <= k < |turns| && t in turns[k].files ==> Apart(env, codec, t, p))
  }

  lemma StaysStranger(env: Env, codec: Codec, turns: seq<Turn>, s: System, p: Path)
    requires turns != [] && IsTurn(env, codec, turns[0], s) && Stranger(env, codec, turns, s, p)
    ensures Stranger(env, codec, turns[1..], turns[0].after, p)
  {
    var turn, e := turns[0], EnvFor(env, turns[0]);
    if Saves(e, turn.choice, turn.loaded, turn.outcome) {
      StateFileExact(e, codec, turn.files, turn.choice, turn.loaded, s, turn.outcome, turn.after);
      forall r | r in turn.after.saved ensures KeyApart(env, codec, r, p) {
        var t :| LastFor(codec, OwnedBy(e, turn.files), r, t);
        assert t in turn.files && Apart(env, codec, t, p);
      }
    }
    forall k, t | 0 <= k < |turns[1..]| && t in turns[1..][k].files ensures Apart(env, codec, t, p) {
      assert turns[1..][k] == turns[k+1];
    }
  }

  /** Over any series of applies, successful or not, nested or not, a stranger's node stays
      what it was. */
  lemma {:induction false} StrangersSurvive(env: Env, codec: Codec, turns: seq<Turn>, s: System, p: Path)
    requires IsSeries(env, codec, turns, s) && Stranger(env, codec, turns, s, p) && p in s.disk
    ensures At(End(turns, s).disk, p) == At(s.disk, p)
    decreases |turns|
  {
    if turns != [] {
      EndOfRest(turns, s);
      StrangerStep(env, codec, turns[0], s, p);
      StaysStranger(env, codec, turns, s, p);
      StrangersSurvive(env, codec, turns[1..], turns[0].after, p);
    }
  }

  lemma StrangerStep(env: Env, codec: Codec, turn: Turn, s: System, p: Path)
    requires IsTurn(env, codec, turn, s) && p in s.disk
    requires forall r :: r in s.saved ==> KeyApart(env, codec, r, p)
    requires forall t :: t in turn.files ==> Apart(env, codec, t, p)
    ensures At(turn.after.disk, p) == At(s.disk, p)
  {
    var e, m := EnvFor(env, turn), Before(turn, s);
    if turn.choice.loadOk {
      forall t | t in Targets(e, turn.files, m) ensures !(t <= p) {
        if t in turn.files {
          assert Apart(env, codec, t, p);
        } else {
          assert LoadedFrom(codec, s.saved, turn.loaded, t);
          var r :| r in s.saved && codec.read(r) == Some(t);
          assert KeyApart(env, codec, r, p);
        }
      }
      OthersUntouched(e, turn.files, turn.choice, m, p);
    }
  }

  // ---- the bundle fast path ----

  /** Equal bundle fingerprints at a target mean equal rendered files: render is
      the file each fingerprint stands for. */
  ghost predicate FingerprintsSound(files: Files, render: (Path, string) -> Node) {
    forall t :: t in files && IsBundle(files[t].info) ==>
      Available(files[t]) && !ZeroPerm(files[t]) && NodeOf(files[t]) == render(t, files[t].info)
  }

  /** Every bundle fingerprint of the loaded state describes the file on disk. */
  ghost predicate BundlesOnDisk(s: Sys, render: (Path, string) -> Node) {
    forall t :: t in s.store && IsBundle(s.store[t]) ==> At(s.disk, t) == Some(render(t, s.store[t]))
  }

  /** Every bundle fingerprint of the state file describes the file its key is read as. */
  ghost predicate BundlesTrue(codec: Codec, s: System, render: (Path, string) -> Node) {
    forall r :: r in s.saved ==> BundleTrue(codec, s, render, r)
  }

  ghost predicate BundleTrue(codec: Codec, s: System, render: (Path, string) -> Node, r: string)
    requires r in s.saved
  {
    var t := codec.read(r);
    t.Some? && IsBundle(s.saved[r]) ==> At(s.disk, t.value) == Some(render(t.value, s.saved[r]))
  }

  /** So does what is loaded from it. */
  lemma LoadedBundles(codec: Codec, s: System, loaded: Store, render: (Path, string) -> Node)
    requires BundlesTrue(codec, s, render) && LoadedAs(codec, s.saved, loaded)
    ensures BundlesOnDisk(Sys(s.disk, loaded), render)
  {
    forall t | t in loaded && IsBundle(loaded[t]) ensures At(s.disk, t) == Some(render(t, loaded[t])) {
      assert LoadedFrom(codec, s.saved, loaded, t);
      var r :| r in s.saved && codec.read(r) == Some(t) && s.saved[r] == loaded[t];
      assert BundleTrue(codec, s, render, r);
    }
  }

  /** At t the planner decides as if it had compared type, mode and content. */
  predicate FastAsFull(env: Env, files: Files, s: Sys, t: Path)
    requires t in files
  {
    var kept := Kept(env.ignore, s.store);
    DecideAt(env, files, s.disk, kept, t)
      == DecideByContent(env, At(s.disk, t), files[t], Recorded(kept, t), env.ignore(t), env.opens(t))
  }

  /** A trusted file whose present node may not be opened, so that the full comparison
      would rewrite it. */
  predicate Unseen(env: Env, files: Files, s: Sys, t: Path) {
    Trusted(env, files, s, t) && files[t].content.Regular? && !env.opens(t)
  }

  /** Skipping the hash gives the action the full comparison would give, exactly where
      that comparison could have been made. */
  lemma FastPathRefines(env: Env, files: Files, s: Sys, render: (Path, string) -> Node, t: Path)
    requires FingerprintsSound(files, render) && BundlesOnDisk(s, render)
    requires t in files
    ensures FastAsFull(env, files, s, t) <==> !Unseen(env, files, s, t)
  {
    if Trusted(env, files, s, t) {
      assert At(s.disk, t) == Some(NodeOf(files[t]));
    }
  }

  /** With sound fingerprints every desired target converges, trusted or not. */
  lemma ConvergesWithBundles(env: Env, files: Files, c: Choice, s: Sys, render: (Path, string) -> Node, t: Path)
    requires Injective(env.hash) && Compatible(env, files, s) && Succeeds(env, files, c, s)
    requires FingerprintsSound(files, render) && BundlesOnDisk(s, render)
    requires t in files && !ZeroPerm(files[t])
    ensures Available(files[t]) && At(After(env, files, c, s).disk, t) == Some(NodeOf(files[t]))
  {
    if Trusted(env, files, s, t) {
      TreeAfter(env, files, c, s, t);
      Undisturbed(env, files, s, t);
    } else {
      Converges(env, files, c, s, t);
    }
  }

  /** The keys of a turn's bundle targets are read back. */
  ghost predicate BundlesReadBack(env: Env, codec: Codec, files: Files) {
    forall t :: t in files && !env.ignore(t) && IsBundle(files[t].info) ==> ReadBack(codec, t)
  }

  /** A successful turn leaves only true fingerprints. */
  lemma BundlesKept(env: Env, codec: Codec, turn: Turn, s: System, render: (Path, string) -> Node)
    requires Injective(env.hash) && IsTurn(env, codec, turn, s) && Succeeded(turn) && TurnCompatible(env, turn, s)
    requires FingerprintsSound(turn.files, render) && BundlesReadBack(env, codec, turn.files)
    requires BundlesTrue(codec, s, render)
    ensures BundlesTrue(codec, turn.after, render)
  {
    var e, m := EnvFor(env, turn), Before(turn, s);
    TurnSucceeds(env, codec, turn, s);
    LoadedBundles(codec, s, turn.loaded, render);
    StateFileExact(e, codec, turn.files, turn.choice, turn.loaded, s, turn.outcome, turn.after);
    forall r | r in turn.after.saved ensures BundleTrue(codec, turn.after, render, r) {
      if Saves(e, turn.choice, turn.loaded, turn.outcome) {
        var t :| LastFor(codec, OwnedBy(e, turn.files), r, t) && turn.after.saved[r] == OwnedBy(e, turn.files)[t];
        if IsBundle(turn.files[t].info) {
          assert ReadBack(codec, t);
          ConvergesWithBundles(e, turn.files, turn.choice, m, render, t);
        }
      } else {
        assert BundleTrue(codec, s, render, r);
        NotSaved(env, codec, turn, s);
      }
    }
  }

  /** A successful turn that does not write the state file had nothing to do. */
  lemma NotSaved(env: Env, codec: Codec, turn: Turn, s: System)
    requires IsTurn(env, codec, turn, s) && Succeeded(turn)
    requires !Saves(EnvFor(env, turn), turn.choice, turn.loaded, turn.outcome)
    ensures turn.after.disk == s.disk
  {
  }

  // ---- which applies can mislead it ----

  ghost predicate IsSavedBundle(codec: Codec, s: System, t: Path) {
    exists r :: r in s.saved && codec.read(r) == Some(t) && IsBundle(s.saved[r])
  }

  /** Some node that a fingerprint of the state file describes can be changed by this
      work, if it is cut short. */
  ghost predicate BundleExposed(codec: Codec, s: System, work: Tasks) {
    exists t :: IsSavedBundle(codec, s, t) && Exposed(s.disk, work, t)
  }

  /** A turn that cannot make a fingerprint untrue: it succeeded, did no work, or could
      not reach a node that one describes. */
  ghost predicate Harmless(env: Env, codec: Codec, turn: Turn, s: System) {
    || Succeeded(turn)
    || turn.outcome !in {ExecFailed, SaveFailed}
    || WorkIn(env, turn, s) == map[]
    || !BundleExposed(codec, s, WorkIn(env, turn, s))
  }

  /** A turn that does not succeed leaves the state file alone, and the tree of its run. */
  lemma Unsuccessful(env: Env, codec: Codec, turn: Turn, s: System)
    requires IsTurn(env, codec, turn, s) && !Succeeded(turn)
    ensures turn.after.saved == s.saved
    ensures turn.outcome !in {ExecFailed, SaveFailed} || WorkIn(env, turn, s) == map[] ==> turn.after.disk == s.disk
    ensures turn.after.disk == s.disk
         || turn.after.disk == Run(WorkIn(env, turn, s), Start(s.disk, WorkIn(env, turn, s)), turn.choice.sched).disk
  {
  }

  /** What is not exposed stays as it is, whatever the run does. */
  lemma UnexposedBundles(codec: Codec, s: System, work: Tasks, sched: seq<Event>, after: System,
                         render: (Path, string) -> Node)
    requires Antichain(work.Keys) && BundlesTrue(codec, s, render) && !BundleExposed(codec, s, work)
    requires after == System(Run(work, Start(s.disk, work), sched).disk, s.saved)
    ensures BundlesTrue(codec, after, render)
  {
    forall r | r in after.saved ensures BundleTrue(codec, after, render, r) {
      assert BundleTrue(codec, s, render, r);
      var t := codec.read(r);
      if t.Some? && IsBundle(s.saved[r]) {
        assert IsSavedBundle(codec, s, t.value);
        ExposedExactly(s.disk, work, t.value);
      }
    }
  }

  lemma HarmlessKeepsBundles(env: Env, codec: Codec, turn: Turn, s: System, render: (Path, string) -> Node)
    requires Injective(env.hash) && IsTurn(env, codec, turn, s) && TurnCompatible(env, turn, s)
    requires FingerprintsSound(turn.files, render) && BundlesReadBack(env, codec, turn.files)
    requires BundlesTrue(codec, s, render) && Harmless(env, codec, turn, s)
    ensures BundlesTrue(codec, turn.after, render)
  {
    if Succeeded(turn) {
      BundlesKept(env, codec, turn, s, render);
    } else {
      Unsuccessful(env, codec, turn, s);
      if turn.after.disk == s.disk {
        assert turn.after == s;
      } else {
        WorkNotNested(EnvFor(env, turn), turn.files, Before(turn, s));
        UnexposedBundles(codec, s, WorkIn(env, turn, s), turn.choice.sched, turn.after, render);
      }
    }
  }

  /** Over any series of harmless turns without outside edits, whatever the next plan
      loads, planning with the fast path is planning by full comparison, exactly where
      that comparison can be made. */
  lemma {:induction false} FastPathRefinesOverRuns(
      env: Env, codec: Codec, turns: seq<Turn>, s: System, render: (Path, string) -> Node, files: Files, next: Store,
      t: Path)
    requires Injective(env.hash) && IsSeries(env, codec, turns, s) && AllCompatible(env, turns, s)
    requires AllHarmless(env, codec, turns, s) && BundlesTrue(codec, s, render)
    requires forall k :: 0 <= k < |turns| ==>
               FingerprintsSound(turns[k].files, render) && BundlesReadBack(env, codec, turns[k].files)
    requires FingerprintsSound(files, render) && t in files && LoadedAs(codec, End(turns, s).saved, next)
    ensures var m := Sys(End(turns, s).disk, next); FastAsFull(env, files, m, t) <==> !Unseen(env, files, m, t)
    decreases |turns|
  {
    if turns == [] {
      LoadedBundles(codec, s, next, render);
      FastPathRefines(env, files, Sys(s.disk, next), render, t);
    } else {
      EndOfRest(turns, s);
      HarmlessKeepsBundles(env, codec, turns[0], s, render);
      FastPathRefinesOverRuns(env, codec, turns[1..], turns[0].after, render, files, next, t);
    }
  }

  ghost predicate AllHarmless(env: Env, codec: Codec, turns: seq<Turn>, s: System) {
    turns == [] || (Harmless(env, codec, turns[0], s) && AllHarmless(env, codec, turns[1..], turns[0].after))
  }

  /** Some outcome of an apply of files, on the state it has loaded, makes a fingerprint
      untrue. */
  ghost predicate CanMislead(env: Env, codec: Codec, files: Files, loaded: Store, s: System,
                             render: (Path, string) -> Node) {
    exists c, o, s' :: Transition(env, codec, files, c, loaded, s, o, s') && !BundlesTrue(codec, s', render)
  }

  function TurnOf(env: Env, files: Files, c: Choice, loaded: Store, o: Outcome, s': System): Turn {
    Turn(files, c, env.noCache, env.opens, loaded, o, s')
  }

  /** Which applies can leave a fingerprint that is no longer true: exactly those that
      can be planned and whose work can, if cut short, change a node that a fingerprint of
      the state file describes. Everything on the right is known before the apply
      starts. */
  lemma MisledExactly(env: Env, codec: Codec, files: Files, loaded: Store, s: System, render: (Path, string) -> Node)
    requires Injective(env.hash) && Compatible(env, files, Sys(s.disk, loaded)) && LoadedAs(codec, s.saved, loaded)
    requires FingerprintsSound(files, render) && BundlesReadBack(env, codec, files) && BundlesTrue(codec, s, render)
    ensures CanMislead(env, codec, files, loaded, s, render) <==>
              && !PlanFails(env, files, s.disk, Kept(env.ignore, loaded))
              && BundleExposed(codec, s, WorkOf(env, files, Sys(s.disk, loaded)))
  {
    if CanMislead(env, codec, files, loaded, s, render) {
      var c, o, s' :| Transition(env, codec, files, c, loaded, s, o, s') && !BundlesTrue(codec, s', render);
      Misled(env, codec, files, loaded, s, render, c, o, s');
    }
    var m := Sys(s.disk, loaded);
    if !PlanFails(env, files, s.disk, Kept(env.ignore, loaded)) && BundleExposed(codec, s, WorkOf(env, files, m)) {
      var t :| IsSavedBundle(codec, s, t) && Exposed(s.disk, WorkOf(env, files, m), t);
      var c, s' := ExposedBundle(env, codec, files, loaded, s, render, t);
    }
  }

  lemma Misled(env: Env, codec: Codec, files: Files, loaded: Store, s: System, render: (Path, string) -> Node,
               c: Choice, o: Outcome, s': System)
    requires Injective(env.hash) && Compatible(env, files, Sys(s.disk, loaded))
    requires FingerprintsSound(files, render) && BundlesReadBack(env, codec, files) && BundlesTrue(codec, s, render)
    requires Transition(env, codec, files, c, loaded, s, o, s') && !BundlesTrue(codec, s', render)
    ensures !PlanFails(env, files, s.disk, Kept(env.ignore, loaded))
    ensures BundleExposed(codec, s, WorkOf(env, files, Sys(s.disk, loaded)))
  {
    var turn := TurnOf(env, files, c, loaded, o, s');
    assert EnvFor(env, turn) == env && Before(turn, s) == Sys(s.disk, loaded);
    assert IsTurn(env, codec, turn, s) && TurnCompatible(env, turn, s);
    if Harmless(env, codec, turn, s) {
      HarmlessKeepsBundles(env, codec, turn, s, render);
    }
  }

  lemma ExposedBundle(env: Env, codec: Codec, files: Files, loaded: Store, s: System,
                      render: (Path, string) -> Node, t: Path)
      returns (c: Choice, s': System)
    requires Compatible(env, files, Sys(s.disk, loaded)) && LoadedAs(codec, s.saved, loaded)
    requires !PlanFails(env, files, s.disk, Kept(env.ignore, loaded)) && BundlesTrue(codec, s, render)
    requires IsSavedBundle(codec, s, t) && Exposed(s.disk, WorkOf(env, files, Sys(s.disk, loaded)), t)
    ensures exists o :: Transition(env, codec, files, c, loaded, s, o, s') && !BundlesTrue(codec, s', render)
  {
    var m := Sys(s.disk, loaded);
    var work := WorkOf(env, files, m);
    WorkNotNested(env, files, m);
    var r :| r in s.saved && codec.read(r) == Some(t) && IsBundle(s.saved[r]);
    assert BundleTrue(codec, s, render, r);
    var sched := ExposedChanges(s.disk, work, t);
    c := Choice(true, false, true, false, sched);
    UnsavedRun(env, files, c, m);
    s' := System(After(env, files, c, m).disk, s.saved);
    assert !BundleTrue(codec, s', render, r);
    var o := Reconcile.Apply(env, files, c, m).0;
    assert Transition(env, codec, files, c, loaded, s, o, s');
  }

  /** An apply that runs and is not saved leaves the tree of the run and the state as
      it was, finished or not. */
  lemma UnsavedRun(env: Env, files: Files, c: Choice, s: Sys)
    requires !PlanFails(env, files, s.disk, Kept(env.ignore, s.store)) && WorkOf(env, files, s) != map[]
    requires c.loadOk && !c.dryRun && c.hooksOk && !c.saveOk
    ensures var work := WorkOf(env, files, s);
            After(env, files, c, s) == Sys(Run(work, Start(s.disk, work), c.sched).disk, s.store)
    ensures Reconcile.Apply(env, files, c, s).0 in {ExecFailed, SaveFailed}
  {
  }

  /** Among them are applies that do all their work and then fail to save: exactly
      where all work is doable and its outcome changes such a node. */
  lemma MisledBySave(env: Env, codec: Codec, files: Files, loaded: Store, s: System, render: (Path, string) -> Node)
    requires Compatible(env, files, Sys(s.disk, loaded)) && LoadedAs(codec, s.saved, loaded)
    requires BundlesTrue(codec, s, render)
    ensures var work := WorkOf(env, files, Sys(s.disk, loaded));
            (exists c, s' ::
               Transition(env, codec, files, c, loaded, s, SaveFailed, s') && !BundlesTrue(codec, s', render)) <==>
              && !PlanFails(env, files, s.disk, Kept(env.ignore, loaded)) && AllDoable(s.disk, work)
              && exists t :: IsSavedBundle(codec, s, t) && Final(s.disk, work, t) != At(s.disk, t)
  {
    var m := Sys(s.disk, loaded);
    var work := WorkOf(env, files, m);
    if c, s' :| Transition(env, codec, files, c, loaded, s, SaveFailed, s') && !BundlesTrue(codec, s', render) {
      UnsavedIsFinal(env, files, c, m);
      var r :| r in s'.saved && !BundleTrue(codec, s', render, r);
      assert BundleTrue(codec, s, render, r);
      assert IsSavedBundle(codec, s, codec.read(r).value);
    }
    if !PlanFails(env, files, s.disk, Kept(env.ignore, loaded)) && AllDoable(s.disk, work) {
      if t :| IsSavedBundle(codec, s, t) && Final(s.disk, work, t) != At(s.disk, t) {
        var c, s' := SaveMisleads(env, codec, files, loaded, s, render, t);
      }
    }
  }

  lemma SaveMisleads(env: Env, codec: Codec, files: Files, loaded: Store, s: System,
                     render: (Path, string) -> Node, t: Path)
      returns (c: Choice, s': System)
    requires Compatible(env, files, Sys(s.disk, loaded)) && LoadedAs(codec, s.saved, loaded)
    requires BundlesTrue(codec, s, render)
    requires !PlanFails(env, files, s.disk, Kept(env.ignore, loaded))
    requires AllDoable(s.disk, WorkOf(env, files, Sys(s.disk, loaded)))
    requires IsSavedBundle(codec, s, t) && Final(s.disk, WorkOf(env, files, Sys(s.disk, loaded)), t) != At(s.disk, t)
    ensures Transition(env, codec, files, c, loaded, s, SaveFailed, s') && !BundlesTrue(codec, s', render)
  {
    var m := Sys(s.disk, loaded);
    var work := WorkOf(env, files, m);
    assert work != map[];
    var r :| r in s.saved && codec.read(r) == Some(t) && IsBundle(s.saved[r]);
    assert BundleTrue(codec, s, render, r);
    c := FinishesUnsaved(env, files, m);
    UnsavedIsFinal(env, files, c, m);
    s' := System(After(env, files, c, m).disk, s.saved);
    NodeChanged(codec, s, s', render, r, t);
    UnsavedTransition(env, codec, files, c, loaded, s, s');
  }

  lemma FinishesUnsaved(env: Env, files: Files, s: Sys) returns (c: Choice)
    requires Compatible(env, files, s) && WorkOf(env, files, s) != map[]
    requires !PlanFails(env, files, s.disk, Kept(env.ignore, s.store)) && AllDoable(s.disk, WorkOf(env, files, s))
    ensures c.loadOk && Reconcile.Apply(env, files, c, s).0 == SaveFailed
  {
    WorkNotNested(env, files, s);
    var sched := DoableCompletes(s.disk, WorkOf(env, files, s));
    c := Choice(true, false, true, false, sched);
  }

  lemma UnsavedTransition(env: Env, codec: Codec, files: Files, c: Choice, loaded: Store, s: System, s': System)
    requires c.loadOk && LoadedAs(codec, s.saved, loaded)
    requires Reconcile.Apply(env, files, c, Sys(s.disk, loaded)).0 == SaveFailed
    requires s' == System(After(env, files, c, Sys(s.disk, loaded)).disk, s.saved)
    ensures Transition(env, codec, files, c, loaded, s, SaveFailed, s')
  {
  }

  /** A fingerprint is untrue once the node it describes has changed. */
  lemma NodeChanged(codec: Codec, s: System, s': System, render: (Path, string) -> Node, r: string, t: Path)
    requires r in s.saved && BundleTrue(codec, s, render, r) && s'.saved == s.saved
    requires codec.read(r) == Some(t) && IsBundle(s.saved[r]) && At(s'.disk, t) != At(s.disk, t)
    ensures !BundlesTrue(codec, s', render)
  {
    assert !BundleTrue(codec, s', render, r);
  }

  /** An apply that only fails to save leaves the state as it was, and the tree a
      successful one would leave. */
  lemma UnsavedIsFinal(env: Env, files: Files, c: Choice, s: Sys)
    requires Compatible(env, files, s) && Apply(env, files, c, s).0 == SaveFailed
    ensures After(env, files, c, s).store == s.store
    ensures forall p :: At(After(env, files, c, s).disk, p) == Final(s.disk, WorkOf(env, files, s), p)
    ensures !PlanFails(env, files, s.disk, Kept(env.ignore, s.store)) && AllDoable(s.disk, WorkOf(env, files, s))
  {
    var work := WorkOf(env, files, s);
    WorkNotNested(env, files, s);
    if work != map[] {
      RunEndsInFinal(s.disk, work, c.sched, Run(work, Start(s.disk, work), c.sched));
    }
  }

  // A bundle file on disk as recorded, its next version, and a file whose
  // source cannot be read.
  const A: Path := ["a"]
  const B: Path := ["b"]
  const ONE := SourceFile("bundle:1", Regular(420, Some([1])))
  const TWO := SourceFile("bundle:2", Regular(493, Some([1])))
  const BAD := SourceFile("plain", Regular(420, None))
  const SETTLED := Sys(map[[] := Dir(DIR_PERM), A := File(420, [1])], map[A := "bundle:1"])
  const MIXED: Files := map[A := TWO, B := BAD]
  const MIXED_WORK: Tasks := map[A := Put(TWO), B := Put(BAD)]
  const HALF_WAY: seq<Event> := [Event(A, false), Event(A, false), Event(A, false), Event(B, true)]

  lemma BundleNotes()
    ensures IsBundle("bundle:1") && IsBundle("bundle:2") && !IsBundle("plain")
  {
    assert Text.OccursAt("bundle:1", "bundle:", 0) && Text.OccursAt("bundle:2", "bundle:", 0);
  }

  lemma HalfWayRun()
    ensures var e := Run(MIXED_WORK, Start(SETTLED.disk, MIXED_WORK), HALF_WAY);
            Failed(e) && e.disk == SETTLED.disk[A := File(493, [1])]
  {
    var d, e0 := SETTLED.disk, Start(SETTLED.disk, MIXED_WORK);
    assert Ancestors(A) == {[]};
    assert ParentsClear(d, A);
    assert MkParents(d, A).value == d;
    ThreeGoodSteps(MIXED_WORK, e0, A, d, d, d[A := File(493, [1])]);
    RunFour(MIXED_WORK, e0, Event(A, false), Event(A, false), Event(A, false), Event(B, true));
  }

  lemma MixedPlan(env: Env)
    requires !env.noCache && !env.ignore(A)
    ensures !PlanFails(env, MIXED, SETTLED.disk, Kept(env.ignore, SETTLED.store))
    ensures WorkOf(env, MIXED, SETTLED) == MIXED_WORK
  {
    BundleNotes();
    var kept := Kept(env.ignore, SETTLED.store);
    assert kept == SETTLED.store;
    assert DecideAt(env, MIXED, SETTLED.disk, kept, A) == Planned(Update);
    assert DecideAt(env, MIXED, SETTLED.disk, kept, B) == Planned(Create);
    assert WorkOf(env, MIXED, SETTLED).Keys == {A, B};
  }

  /** One of them: an update of a bundle file that was written before another target
      failed leaves the old fingerprint in the state file, and going back to the old bundle
      is then planned as Noop over the wrong file. */
  lemma FailedRunMisleadsFastPath(env: Env, codec: Codec, render: (Path, string) -> Node, s: System, s': System,
                                  next: Store)
    requires !env.noCache && !env.ignore(A)
    requires render(A, "bundle:1") == NodeOf(ONE) && render(A, "bundle:2") == NodeOf(TWO)
    requires ReadBack(codec, A) && s == System(SETTLED.disk, map[codec.stored(A) := "bundle:1"])
    requires s' == System(SETTLED.disk[A := File(493, [1])], s.saved) && LoadedAs(codec, s'.saved, next)
    ensures BundlesTrue(codec, s, render)
    ensures FingerprintsSound(MIXED, render) && FingerprintsSound(map[A := ONE], render)
    ensures Transition(env, codec, MIXED, Choice(true, false, true, true, HALF_WAY), SETTLED.store, s, ExecFailed, s')
    ensures DecideAt(env, map[A := ONE], s'.disk, Kept(env.ignore, next), A) == Planned(Noop)
    ensures At(s'.disk, A) != Some(NodeOf(ONE))
  {
    BundleNotes();
    MixedPlan(env);
    HalfWayRun();
    OneKey(codec, s.saved, SETTLED.store);
    OneKey(codec, s.saved, next);
  }

  lemma OneKey(codec: Codec, saved: StateMap, loaded: Store)
    requires ReadBack(codec, A) && saved == map[codec.stored(A) := "bundle:1"]
    ensures LoadedAs(codec, saved, loaded) <==> loaded == SETTLED.store
  {
    if LoadedAs(codec, saved, loaded) {
      forall t | t in loaded ensures t == A && loaded[t] == "bundle:1" {
        assert LoadedFrom(codec, saved, loaded, t);
      }
      assert codec.stored(A) in saved;
      assert loaded.Keys == {A};
    } else if loaded == SETTLED.store {
      assert LoadedFrom(codec, saved, loaded, A) by {
        assert codec.stored(A) in saved;
      }
    }
  }
}
