/** The file system as the deployer sees it: a tree of nodes addressed by
    absolute paths, and the file-system steps the executor takes on one target. */
module FileTree {
  import opened Common

  /** An absolute path as its components; "/" is the empty sequence. */
  type Path = seq<string>

  datatype Node = Dir(perm: nat) | File(perm: nat, bytes: Bytes) | Link(to: string)

  /** A path outside the map does not exist. */
  type Disk = map<Path, Node>

  function At(d: Disk, p: Path): Option<Node> {
    if p in d then Some(d[p]) else None
  }

  const DIR_PERM: nat := 0x1ED   // 0755
  const DEFAULT_PERM: nat := 0x1B6  // 0666

  /** What a source file renders to. None stands for a reader or LinkTarget
      call that returns an error. */
  datatype Content =
    | Symlink(to: Option<string>)
    | Regular(perm: nat, bytes: Option<Bytes>)

  datatype SourceFile = SourceFile(info: string, content: Content)

  predicate Available(f: SourceFile) {
    match f.content
    case Symlink(to) => to.Some?
    case Regular(_, bytes) => bytes.Some?
  }

  /** atomicfile.Create chmods the temp to 0666 when no permission is given. */
  function InstalledPerm(perm: nat): nat {
    if perm == 0 then DEFAULT_PERM else perm
  }

  /** The node the executor leaves behind for f. */
  function NodeOf(f: SourceFile): Node
    requires Available(f)
  {
    match f.content
    case Symlink(to) => Link(to.value)
    case Regular(perm, bytes) => File(InstalledPerm(perm), bytes.value)
  }

  /** The node f asks for. */
  function Asked(f: SourceFile): Node
    requires Available(f)
  {
    match f.content
    case Symlink(to) => Link(to.value)
    case Regular(perm, bytes) => File(perm, bytes.value)
  }

  predicate ZeroPerm(f: SourceFile) {
    f.content.Regular? && f.content.perm == 0
  }

  /** No target is at or below another one. */
  ghost predicate Antichain(s: set<Path>) {
    forall a, b :: a in s && b in s && a <= b ==> a == b
  }

  /** Two ancestors of one path are comparable. */
  lemma Comparable(a: Path, b: Path, q: Path)
    requires a <= q && b <= q
    ensures a <= b || b <= a
  {
    assert a == q[..|a|] && b == q[..|b|];
  }

  // ---- one target's file-system work, step by step ----

  datatype Op = Remove | Put(file: SourceFile)

  function StepCount(op: Op): nat {
    if op.Remove? then 1 else 3
  }

  /** Every existing proper ancestor of t is a directory. */
  predicate ParentsClear(d: Disk, t: Path) {
    forall a :: a in d && a < t ==> d[a].Dir?
  }

  /** os.MkdirAll of t's parent: creates the missing ancestors, or fails on a
      non-directory. */
  function MkParents(d: Disk, t: Path): Option<Disk> {
    if ParentsClear(d, t)
    then Some(map p | p in d.Keys + Ancestors(t) :: if p in d then d[p] else Dir(DIR_PERM))
    else None
  }

  function Ancestors(t: Path): (r: set<Path>)
    ensures forall p :: p in r <==> p < t
  {
    var r := set k | 0 <= k < |t| :: t[..k];
    assert forall p: Path :: p < t ==> p == t[..|p|] && p in r;
    r
  }

  /** Does the executor clear whatever is at a target before it installs? */
  predicate MustClear(n: Option<Node>, f: SourceFile) {
    n.Some? && (f.content.Symlink? || !n.value.File?)
  }

  /** os.RemoveAll. */
  function RemoveAll(d: Disk, t: Path): Disk {
    map p | p in d && !(t <= p) :: d[p]
  }

  predicate NonEmptyDir(d: Disk, t: Path) {
    t in d && d[t].Dir? && exists q :: q in d && t < q
  }

  function Install(d: Disk, t: Path, f: SourceFile): Option<Disk> {
    if !Available(f) then None
    else match f.content
      case Symlink(to) =>
        if t in d || (t != [] && !(t[..|t|-1] in d && d[t[..|t|-1]].Dir?)) then None
        else Some(d[t := Link(to.value)])
      case Regular(_, _) =>
        // atomicfile.Create makes the parents again, then renames over t
        var made := MkParents(d, t);
        if made.None? || (t in made.value && made.value[t].Dir?) then None
        else Some(made.value[t := NodeOf(f)])
  }

  /** The k-th step of op at t; None is a file-system error. */
  function StepOp(d: Disk, t: Path, op: Op, k: nat): Option<Disk>
    requires k < StepCount(op)
  {
    match op
    case Remove => if NonEmptyDir(d, t) then None else Some(map p | p in d && p != t :: d[p])
    case Put(f) =>
      if k == 0 then MkParents(d, t)
      else if k == 1 then Some(if MustClear(At(d, t), f) then RemoveAll(d, t) else d)
      else Install(d, t, f)
  }

  predicate IsDir(d: Disk, p: Path) {
    p in d && d[p].Dir?
  }

  /** Which steps fail, with no fault from outside: removing a directory that holds
      something; making parents through what is no directory; a source that cannot be read;
      a link over something or without a directory for it; a file over a directory. */
  lemma StepFails(d: Disk, t: Path, op: Op, k: nat)
    requires k < StepCount(op)
    ensures StepOp(d, t, op, k).None? <==>
              if op.Remove? then IsDir(d, t) && exists q :: q in d && t < q
              else if k == 0 then exists a :: a in d && a < t && !IsDir(d, a)
              else
                k == 2 && (
                  || !Available(op.file)
                  || (op.file.content.Symlink? && (t in d || (t != [] && !IsDir(d, t[..|t|-1]))))
                  || (op.file.content.Regular? && (IsDir(d, t) || exists a :: a in d && a < t && !IsDir(d, a))))
  {
    assert t !in Ancestors(t);
  }

  /** What one successful step does, path by path. */
  lemma StepEffect(d: Disk, t: Path, op: Op, k: nat, p: Path)
    requires k < StepCount(op) && StepOp(d, t, op, k).Some?
    ensures var n := At(StepOp(d, t, op, k).value, p);
            if p == t then
              n == (if op.Remove? then None
                    else if k == 2 then Some(NodeOf(op.file))
                    else if k == 1 && MustClear(At(d, t), op.file) then None else At(d, t))
            else if t < p then
              n == (if op.Put? && k == 1 && MustClear(At(d, t), op.file) then None else At(d, p))
            else if p < t then
              n == (if op.Put? && p !in d && (k == 0 || (k == 2 && op.file.content.Regular?))
                    then Some(Dir(DIR_PERM)) else At(d, p))
            else n == At(d, p)
  {
    assert p < t <==> p in Ancestors(t);
  }
}
