/** internal/deployer/planner.go: what to do about each target. */
module Planner {
  import opened Common
  import opened FileTree
  import Executor
  import Text

  /** In-memory state: target -> SourceInfo. */
  type Store = map<Path, string>

  /** What a run depends on besides its files: the gitignore predicate, SHA-256,
      --no-cache, and whether it may open what it finds at a target. */
  datatype Env = Env(ignore: Path -> bool, hash: Bytes -> nat, noCache: bool, opens: Path -> bool)

  ghost predicate Injective(hash: Bytes -> nat) {
    forall a, b :: hash(a) == hash(b) ==> a == b
  }

  datatype ActionType = Create | Update | Delete | Noop

  /** PlanError stands for the error returns of planOne. */
  datatype Decision = Planned(kind: ActionType) | PlanError

  predicate IsBundle(info: string) {
    Text.Contains(info, "bundle:")
  }

  function PermOf(n: Node): nat
    requires !n.Link?
  {
    n.perm
  }

  /** The comparison cannot be made: the source does not open, or the target is
      a directory that cannot be read as a file. */
  predicate CompareFails(n: Node, f: SourceFile, opens: bool) {
    match f.content
    case Symlink(to) => n.Link? && to.None?
    case Regular(perm, bytes) => !n.Link? && PermOf(n) == perm && (bytes.None? || (opens && n.Dir?))
  }

  /** n has the kind, the link or the permission bits and content hash of f. */
  predicate Matches(env: Env, n: Node, f: SourceFile, opens: bool) {
    match f.content
    case Symlink(to) => to.Some? && n == Link(to.value)
    case Regular(perm, bytes) =>
      bytes.Some? && n.File? && n.perm == perm && opens && env.hash(n.bytes) == env.hash(bytes.value)
  }

  /** The full comparison: what planOne does without its bundle fast path. */
  function DecideByContent(env: Env, n: Option<Node>, f: SourceFile, recorded: Option<string>, ignored: bool,
                           opens: bool): Decision {
    if n.None? then Planned(Create)
    else if env.noCache then Planned(Update)
    else if CompareFails(n.value, f, opens) then PlanError
    else if Matches(env, n.value, f, opens) && (ignored || recorded == Some(f.info)) then Planned(Noop)
    else Planned(Update)
  }

  predicate FastPath(env: Env, n: Option<Node>, f: SourceFile, recorded: Option<string>) {
    n.Some? && !env.noCache && recorded == Some(f.info) && IsBundle(f.info)
  }

  function Decide(env: Env, n: Option<Node>, f: SourceFile, recorded: Option<string>, ignored: bool,
                  opens: bool): Decision {
    if FastPath(env, n, f, recorded) then Planned(Noop)
    else DecideByContent(env, n, f, recorded, ignored, opens)
  }

  /** planOne, with its flag and early returns. */
  method PlanOne(env: Env, disk: Disk, target: Path, f: SourceFile, store: Store, ignored: bool) returns (r: Decision)
    ensures r == Decide(env, At(disk, target), f, Recorded(store, target), ignored, env.opens(target))
  {
    if target !in disk {
      return Planned(Create);
    }
    if env.noCache {
      return Planned(Update);
    }
    var info := disk[target];
    var managed := target in store;
    if managed && store[target] == f.info && Text.Contains(store[target], "bundle:") {
      return Planned(Noop);
    }
    var needsUpdate := false;
    if f.content.Symlink? != info.Link? {
      needsUpdate := true;
    } else if f.content.Symlink? {
      if f.content.to.None? {
        return PlanError;
      }
      if f.content.to.value != info.to {
        needsUpdate := true;
      }
    } else {
      if info.perm != f.content.perm {
        needsUpdate := true;
      } else {
        if f.content.bytes.None? {
          return PlanError;
        }
        var desiredHash := env.hash(f.content.bytes.value);
        if !env.opens(target) {
          needsUpdate := true;
        } else {
          if info.Dir? {
            return PlanError;
          }
          var actualHash := env.hash(info.bytes);
          if desiredHash != actualHash {
            needsUpdate := true;
          }
        }
      }
    }
    if needsUpdate {
      return Planned(Update);
    }
    if ignored {
      return Planned(Noop);
    }
    if !managed || store[target] != f.info {
      return Planned(Update);
    }
    return Planned(Noop);
  }

  // ---- the plan of one apply, as the work it hands to the executor ----

  function Recorded(store: Store, t: Path): Option<string> {
    if t in store then Some(store[t]) else None
  }

  function DecideAt(env: Env, files: map<Path, SourceFile>, disk: Disk, store: Store, t: Path): Decision
    requires t in files
  {
    Decide(env, At(disk, t), files[t], Recorded(store, t), env.ignore(t), env.opens(t))
  }

  predicate PlanFails(env: Env, files: map<Path, SourceFile>, disk: Disk, store: Store) {
    exists t :: t in files && DecideAt(env, files, disk, store, t) == PlanError
  }

  predicate Rewrites(env: Env, files: map<Path, SourceFile>, disk: Disk, store: Store, t: Path)
    requires t in files
  {
    DecideAt(env, files, disk, store, t) in {Planned(Create), Planned(Update)}
  }

  /** Writes for the desired files that need one, a removal for every recorded
      target that is no longer desired. */
  function Work(env: Env, files: map<Path, SourceFile>, disk: Disk, store: Store): Executor.Tasks {
    map t | t in files.Keys + store.Keys && (t in files ==> Rewrites(env, files, disk, store, t)) ::
      if t in files then Put(files[t]) else Remove
  }

  /** The source, or the target, cannot be read where it would have to be compared. */
  predicate Unreadable(n: Node, f: SourceFile, opens: bool) {
    if f.content.Symlink? then n.Link? && !Available(f)
    else !n.Link? && n.perm == f.content.perm && (!Available(f) || (n.Dir? && opens))
  }

  /** Each decision by what stands at the target: Create if and only if nothing does; with
      --no-cache anything else is an Update; and without it an error exactly where a
      comparison is needed that cannot be made, and Noop exactly where a fingerprint
      covers the file or it can be seen to be there, and is recorded or ignored. */
  lemma DecidesExactly(env: Env, n: Option<Node>, f: SourceFile, recorded: Option<string>, ignored: bool, opens: bool)
    requires Injective(env.hash)
    ensures var d := Decide(env, n, f, recorded, ignored, opens);
            && (d == Planned(Create) <==> n.None?)
            && (n.Some? && env.noCache ==> d == Planned(Update))
            && (d == PlanError <==>
                  n.Some? && !env.noCache && !Covered(f, recorded) && Unreadable(n.value, f, opens))
            && (d == Planned(Noop) <==>
                  && n.Some? && !env.noCache
                  && (Covered(f, recorded)
                      || (Available(f) && n == Some(Asked(f)) && (f.content.Symlink? || opens)
                          && (ignored || recorded == Some(f.info)))))
            && d != Planned(Delete)
  {
  }

  /** --no-cache needs no hash for that. */
  lemma NoCacheRewrites(env: Env, n: Option<Node>, f: SourceFile, recorded: Option<string>, ignored: bool, opens: bool)
    requires env.noCache
    ensures Decide(env, n, f, recorded, ignored, opens) == Planned(if n.None? then Create else Update)
  {
  }

  /** Noop without the fast path means the target already is what f asks for. */
  lemma NoopMeansEqual(env: Env, n: Option<Node>, f: SourceFile, recorded: Option<string>, ignored: bool, opens: bool)
    requires Injective(env.hash)
    requires Decide(env, n, f, recorded, ignored, opens) == Planned(Noop) && !FastPath(env, n, f, recorded)
    ensures Available(f) && n == Some(Asked(f))
    ensures !ZeroPerm(f) ==> n == Some(NodeOf(f))
  {
  }

  /** A bundle fingerprint stands for f in the state. */
  predicate Covered(f: SourceFile, recorded: Option<string>) {
    recorded == Some(f.info) && IsBundle(f.info)
  }

  /** What the executor installs is Noop for the next plan exactly if a fingerprint stands
      for it, or it is noted as f, or ignored, and f asks for some permission bits (an
      installed 0666 never compares equal) and can be compared. */
  lemma InstalledIsNoop(env: Env, f: SourceFile, recorded: Option<string>, ignored: bool, opens: bool)
    requires Available(f) && !env.noCache
    ensures var d := Decide(env, Some(NodeOf(f)), f, recorded, ignored, opens);
            && (d == Planned(Noop) <==>
                  Covered(f, recorded)
                  || ((ignored || recorded == Some(f.info)) && !ZeroPerm(f) && (f.content.Symlink? || opens)))
            && d in {Planned(Noop), Planned(Update)}
  {
  }
}
