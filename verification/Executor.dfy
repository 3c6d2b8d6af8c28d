/** internal/deployer/executor.go: the parallel map over file-system work. Every
    target's steps run in order; the pool interleaves the targets in any way,
    and any step may fail. */
module Executor {
  import opened Common
  import opened FileTree

  type Tasks = map<Path, Op>

  /** The pool runs the next step of one target; fault is an I/O error that the
      tree itself does not explain. */
  datatype Event = Event(target: Path, fault: bool)

  /** pc counts the steps that each target's work has done; work that meets an error
      does no more, and its target is in dead. */
  datatype Exec = Exec(disk: Disk, pc: map<Path, nat>, dead: set<Path>)

  predicate Failed(e: Exec) {
    e.dead != {}
  }

  ghost predicate Shaped(tasks: Tasks, e: Exec) {
    && e.pc.Keys == tasks.Keys && e.dead <= tasks.Keys
    && forall t :: t in tasks ==> e.pc[t] <= StepCount(tasks[t])
  }

  function Start(d: Disk, tasks: Tasks): Exec {
    Exec(d, map t | t in tasks :: 0, {})
  }

  predicate Finished(tasks: Tasks, e: Exec)
    requires e.pc.Keys == tasks.Keys
  {
    forall t :: t in tasks ==> t in e.dead || e.pc[t] == StepCount(tasks[t])
  }

  function Step(tasks: Tasks, e: Exec, ev: Event): (r: Exec)
    requires Shaped(tasks, e)
    ensures Shaped(tasks, r)
    ensures e.dead <= r.dead
  {
    var t := ev.target;
    if t !in tasks || t in e.dead || e.pc[t] == StepCount(tasks[t]) then e
    else
      var next := StepOp(e.disk, t, tasks[t], e.pc[t]);
      if ev.fault || next.None? then e.(dead := e.dead + {t})
      else Exec(next.value, e.pc[t := e.pc[t] + 1], e.dead)
  }

  function Run(tasks: Tasks, e: Exec, sched: seq<Event>): (r: Exec)
    requires Shaped(tasks, e)
    ensures Shaped(tasks, r)
    ensures e.dead <= r.dead
    decreases |sched|
  {
    if sched == [] then e else Run(tasks, Step(tasks, e, sched[0]), sched[1..])
  }

  // ---- what the tree must look like, from the first tree and the counters ----

  predicate Cleared(d0: Disk, t: Path, op: Op, k: nat) {
    op.Put? && k >= 2 && MustClear(At(d0, t), op.file)
  }

  function LocalAt(d0: Disk, t: Path, op: Op, k: nat): Option<Node> {
    match op
    case Remove => if k >= 1 then None else At(d0, t)
    case Put(f) =>
      if k >= 3 then (if Available(f) then Some(NodeOf(f)) else None)
      else if Cleared(d0, t, op, k) then None
      else At(d0, t)
  }

  ghost predicate ClearedAbove(d0: Disk, tasks: Tasks, pc: map<Path, nat>, p: Path)
    requires pc.Keys == tasks.Keys
  {
    exists t :: t in tasks && t < p && Cleared(d0, t, tasks[t], pc[t])
  }

  ghost predicate Wanted(tasks: Tasks, pc: map<Path, nat>, p: Path)
    requires pc.Keys == tasks.Keys
  {
    exists t :: t in tasks && p < t && tasks[t].Put? && pc[t] >= 1
  }

  ghost function Expected(d0: Disk, tasks: Tasks, pc: map<Path, nat>, p: Path): Option<Node>
    requires pc.Keys == tasks.Keys
  {
    if p in tasks then LocalAt(d0, p, tasks[p], pc[p])
    else if ClearedAbove(d0, tasks, pc, p) then None
    else if p !in d0 && Wanted(tasks, pc, p) then Some(Dir(DIR_PERM))
    else At(d0, p)
  }

  /** Can the k-th step of op succeed, judged on the first tree alone? */
  predicate OkStep(d0: Disk, t: Path, op: Op, k: nat) {
    match op
    case Remove => !NonEmptyDir(d0, t)
    case Put(f) => if k == 0 then ParentsClear(d0, t) else k == 2 ==> Available(f)
  }

  ghost predicate Inv(d0: Disk, tasks: Tasks, e: Exec)
    requires Shaped(tasks, e)
  {
    && (forall p :: At(e.disk, p) == Expected(d0, tasks, e.pc, p))
    && (forall t, k :: t in tasks && 0 <= k < e.pc[t] ==> OkStep(d0, t, tasks[t], k))
  }

  /** Below a target only that target's own clearing is felt. */
  lemma Below(d0: Disk, tasks: Tasks, pc: map<Path, nat>, t: Path, q: Path)
    requires Antichain(tasks.Keys) && pc.Keys == tasks.Keys
    requires t in tasks && t < q
    ensures Expected(d0, tasks, pc, q) == if Cleared(d0, t, tasks[t], pc[t]) then None else At(d0, q)
  {
    assert q !in tasks;
    forall u | u in tasks && u < q ensures u == t {
      Comparable(t, u, q);
    }
    assert forall u :: u in tasks && q < u ==> t <= u;
  }

  /** Above a target the tree only gains directories. */
  lemma Above(d0: Disk, tasks: Tasks, pc: map<Path, nat>, t: Path, a: Path)
    requires Antichain(tasks.Keys) && pc.Keys == tasks.Keys
    requires t in tasks && a < t
    ensures Expected(d0, tasks, pc, a) ==
            if a !in d0 && Wanted(tasks, pc, a) then Some(Dir(DIR_PERM)) else At(d0, a)
  {
    assert a !in tasks;
    assert forall u :: u in tasks && u < a ==> u <= t;
  }

  /** A step's success does not depend on how far the other targets are. */
  lemma StepAgrees(d0: Disk, tasks: Tasks, e: Exec, t: Path)
    requires Antichain(tasks.Keys)
    requires Shaped(tasks, e) && Inv(d0, tasks, e)
    requires t in tasks && e.pc[t] < StepCount(tasks[t])
    ensures StepOp(e.disk, t, tasks[t], e.pc[t]).Some? <==> OkStep(d0, t, tasks[t], e.pc[t])
  {
    var k := e.pc[t];
    assert At(e.disk, t) == LocalAt(d0, t, tasks[t], k);
    match tasks[t]
    case Remove =>
      forall q | t < q ensures q in e.disk <==> q in d0 {
        Below(d0, tasks, e.pc, t, q);
        assert At(e.disk, q) == Expected(d0, tasks, e.pc, q);
      }
    case Put(f) =>
      ParentsAgree(d0, tasks, e, t);
      if k == 2 {
        assert OkStep(d0, t, tasks[t], 0);
        if t != [] {
          var a := t[..|t|-1];
          Above(d0, tasks, e.pc, t, a);
          assert At(e.disk, a) == Expected(d0, tasks, e.pc, a);
        }
      }
  }

  lemma ParentsAgree(d0: Disk, tasks: Tasks, e: Exec, t: Path)
    requires Antichain(tasks.Keys)
    requires Shaped(tasks, e) && Inv(d0, tasks, e)
    requires t in tasks
    ensures ParentsClear(e.disk, t) <==> ParentsClear(d0, t)
  {
    forall a | a < t
      ensures (a in e.disk ==> e.disk[a].Dir?) <==> (a in d0 ==> d0[a].Dir?)
    {
      Above(d0, tasks, e.pc, t, a);
      assert At(e.disk, a) == Expected(d0, tasks, e.pc, a);
    }
  }

  /** One event, be it an error, leaves the tree the new counters predict. */
  lemma StepKeepsInv(d0: Disk, tasks: Tasks, e: Exec, ev: Event)
    requires Antichain(tasks.Keys)
    requires Shaped(tasks, e) && Inv(d0, tasks, e)
    ensures Inv(d0, tasks, Step(tasks, e, ev))
  {
    var t, e' := ev.target, Step(tasks, e, ev);
    if e'.pc != e.pc {
      StepAgrees(d0, tasks, e, t);
      StepKeepsTree(d0, tasks, e, t, e'.disk, e'.pc);
      StepsOk(d0, tasks, e, t);
    }
  }

  lemma StepKeepsTree(d0: Disk, tasks: Tasks, e: Exec, t: Path, d: Disk, pc: map<Path, nat>)
    requires Antichain(tasks.Keys)
    requires Shaped(tasks, e) && Inv(d0, tasks, e)
    requires t in tasks && e.pc[t] < StepCount(tasks[t]) && StepOp(e.disk, t, tasks[t], e.pc[t]) == Some(d)
    requires pc == e.pc[t := e.pc[t] + 1]
    ensures forall p :: At(d, p) == Expected(d0, tasks, pc, p)
  {
    forall p ensures At(d, p) == Expected(d0, tasks, pc, p) {
      StepMoves(d0, tasks, e, t, p);
      assert Moved(d0, tasks, e, t, p);
    }
  }

  lemma StepsOk(d0: Disk, tasks: Tasks, e: Exec, t: Path)
    requires Shaped(tasks, e) && t in tasks && OkStep(d0, t, tasks[t], e.pc[t])
    requires forall u, k :: u in tasks && 0 <= k < e.pc[u] ==> OkStep(d0, u, tasks[u], k)
    ensures forall u, k :: u in tasks && 0 <= k < e.pc[t := e.pc[t] + 1][u] ==> OkStep(d0, u, tasks[u], k)
  {
  }

  ghost predicate Moved(d0: Disk, tasks: Tasks, e: Exec, t: Path, p: Path)
    requires Shaped(tasks, e)
    requires t in tasks && e.pc[t] < StepCount(tasks[t])
    requires StepOp(e.disk, t, tasks[t], e.pc[t]).Some?
  {
    At(StepOp(e.disk, t, tasks[t], e.pc[t]).value, p) == Expected(d0, tasks, e.pc[t := e.pc[t] + 1], p)
  }

  lemma StepMoves(d0: Disk, tasks: Tasks, e: Exec, t: Path, p: Path)
    requires Antichain(tasks.Keys)
    requires Shaped(tasks, e) && Inv(d0, tasks, e)
    requires t in tasks && e.pc[t] < StepCount(tasks[t])
    requires StepOp(e.disk, t, tasks[t], e.pc[t]).Some?
    ensures Moved(d0, tasks, e, t, p)
  {
    if p == t || t < p {
      MovesBelow(d0, tasks, e, t, p);
    } else if p < t {
      MovesAbove(d0, tasks, e, t, p);
    } else {
      MovesElsewhere(d0, tasks, e, t, p);
    }
  }

  lemma MovesBelow(d0: Disk, tasks: Tasks, e: Exec, t: Path, p: Path)
    requires Antichain(tasks.Keys)
    requires Shaped(tasks, e) && Inv(d0, tasks, e)
    requires t in tasks && e.pc[t] < StepCount(tasks[t])
    requires StepOp(e.disk, t, tasks[t], e.pc[t]).Some?
    requires t <= p
    ensures Moved(d0, tasks, e, t, p)
  {
    var k, pc' := e.pc[t], e.pc[t := e.pc[t] + 1];
    assert At(e.disk, p) == Expected(d0, tasks, e.pc, p);
    assert At(e.disk, t) == LocalAt(d0, t, tasks[t], k);
    StepEffect(e.disk, t, tasks[t], k, p);
    if t < p {
      Below(d0, tasks, e.pc, t, p);
      Below(d0, tasks, pc', t, p);
    }
  }

  lemma MovesAbove(d0: Disk, tasks: Tasks, e: Exec, t: Path, p: Path)
    requires Antichain(tasks.Keys)
    requires Shaped(tasks, e) && Inv(d0, tasks, e)
    requires t in tasks && e.pc[t] < StepCount(tasks[t])
    requires StepOp(e.disk, t, tasks[t], e.pc[t]).Some?
    requires p < t
    ensures Moved(d0, tasks, e, t, p)
  {
    var k, pc' := e.pc[t], e.pc[t := e.pc[t] + 1];
    assert At(e.disk, p) == Expected(d0, tasks, e.pc, p);
    StepEffect(e.disk, t, tasks[t], k, p);
    Above(d0, tasks, e.pc, t, p);
    Above(d0, tasks, pc', t, p);
    if tasks[t].Put? {
      assert Wanted(tasks, pc', p);
      assert k >= 1 ==> Wanted(tasks, e.pc, p);
    } else {
      assert Wanted(tasks, pc', p) == Wanted(tasks, e.pc, p);
    }
  }

  lemma MovesElsewhere(d0: Disk, tasks: Tasks, e: Exec, t: Path, p: Path)
    requires Shaped(tasks, e) && Inv(d0, tasks, e)
    requires t in tasks && e.pc[t] < StepCount(tasks[t])
    requires StepOp(e.disk, t, tasks[t], e.pc[t]).Some?
    requires !(t <= p) && !(p <= t)
    ensures Moved(d0, tasks, e, t, p)
  {
    var pc' := e.pc[t := e.pc[t] + 1];
    assert At(e.disk, p) == Expected(d0, tasks, e.pc, p);
    StepEffect(e.disk, t, tasks[t], e.pc[t], p);
    assert ClearedAbove(d0, tasks, pc', p) == ClearedAbove(d0, tasks, e.pc, p);
    assert Wanted(tasks, pc', p) == Wanted(tasks, e.pc, p);
  }

  // ---- whole runs ----

  lemma {:induction false} RunKeepsInv(d0: Disk, tasks: Tasks, e: Exec, sched: seq<Event>)
    requires Antichain(tasks.Keys)
    requires Shaped(tasks, e) && Inv(d0, tasks, e)
    ensures Inv(d0, tasks, Run(tasks, e, sched))
    decreases |sched|
  {
    if sched != [] {
      StepKeepsInv(d0, tasks, e, sched[0]);
      RunKeepsInv(d0, tasks, Step(tasks, e, sched[0]), sched[1..]);
    }
  }

  predicate NoFaults(sched: seq<Event>) {
    forall i :: 0 <= i < |sched| ==> !sched[i].fault
  }

  /** The work at t can be done on d0: no file in the way of its parents, a
      readable source, no non-empty directory to remove. */
  ghost predicate Doable(d0: Disk, t: Path, op: Op) {
    forall k :: 0 <= k < StepCount(op) ==> OkStep(d0, t, op, k)
  }

  ghost predicate AllDoable(d0: Disk, tasks: Tasks) {
    forall t :: t in tasks ==> Doable(d0, t, tasks[t])
  }

  lemma {:induction false} DoableRunsThrough(d0: Disk, tasks: Tasks, e: Exec, sched: seq<Event>)
    requires Antichain(tasks.Keys)
    requires Shaped(tasks, e) && Inv(d0, tasks, e) && !Failed(e)
    requires NoFaults(sched) && AllDoable(d0, tasks)
    ensures !Failed(Run(tasks, e, sched))
    decreases |sched|
  {
    if sched != [] {
      var t := sched[0].target;
      if t in tasks && e.pc[t] < StepCount(tasks[t]) {
        StepAgrees(d0, tasks, e, t);
      }
      StepKeepsInv(d0, tasks, e, sched[0]);
      DoableRunsThrough(d0, tasks, Step(tasks, e, sched[0]), sched[1..]);
    }
  }

  /** The tree a successful run leaves, read off the first tree and the work
      alone: no schedule occurs in it. */
  ghost function Final(d0: Disk, tasks: Tasks, p: Path): Option<Node> {
    if p in tasks then
      (if tasks[p].Put? && Available(tasks[p].file) then Some(NodeOf(tasks[p].file)) else None)
    else if exists t :: t in tasks && t < p && tasks[t].Put? && MustClear(At(d0, t), tasks[t].file) then None
    else if p !in d0 && exists t :: t in tasks && p < t && tasks[t].Put? then Some(Dir(DIR_PERM))
    else At(d0, p)
  }

  lemma FinalAbsent(d0: Disk, tasks: Tasks, p: Path)
    requires p !in d0 && (p in tasks ==> tasks[p].Remove?)
    requires forall t :: t in tasks && tasks[t].Put? ==> !(p < t)
    ensures Final(d0, tasks, p) == None
  {
  }

  lemma FinalParent(d0: Disk, tasks: Tasks, t: Path, p: Path)
    requires Antichain(tasks.Keys) && t in tasks && tasks[t].Put? && p < t
    ensures p !in tasks && Final(d0, tasks, p).Some?
  {
    assert forall u :: u in tasks && u < p ==> u <= t;
  }

  lemma StartInv(d0: Disk, tasks: Tasks)
    ensures Inv(d0, tasks, Start(d0, tasks))
  {
  }

  lemma SuccessIsFinal(d0: Disk, tasks: Tasks, e: Exec)
    requires Shaped(tasks, e) && Inv(d0, tasks, e) && Finished(tasks, e) && !Failed(e)
    ensures forall p :: At(e.disk, p) == Final(d0, tasks, p)
    ensures AllDoable(d0, tasks)
  {
    forall p ensures At(e.disk, p) == Final(d0, tasks, p) {
      assert At(e.disk, p) == Expected(d0, tasks, e.pc, p);
      ExpectedAtEnd(d0, tasks, e.pc, p);
    }
  }

  /** Any run, failed or not, leaves the tree its counters predict, and its counters
      only count steps that were possible on the first tree. One that completes
      every target without an error ends in Final; and without outside faults it has
      an error exactly when some piece of work was not doable on the first tree. */
  lemma RunEndsInFinal(d0: Disk, tasks: Tasks, sched: seq<Event>, e: Exec)
    requires Antichain(tasks.Keys)
    requires e == Run(tasks, Start(d0, tasks), sched)
    ensures Inv(d0, tasks, e)
    ensures Finished(tasks, e) && !Failed(e) ==> forall p :: At(e.disk, p) == Final(d0, tasks, p)
    ensures Finished(tasks, e) && !Failed(e) ==> AllDoable(d0, tasks)
    ensures Finished(tasks, e) && NoFaults(sched) ==> (Failed(e) <==> !AllDoable(d0, tasks))
  {
    StartInv(d0, tasks);
    RunKeepsInv(d0, tasks, Start(d0, tasks), sched);
    if Finished(tasks, e) && !Failed(e) {
      SuccessIsFinal(d0, tasks, e);
    } else if NoFaults(sched) && AllDoable(d0, tasks) {
      DoableRunsThrough(d0, tasks, Start(d0, tasks), sched);
    }
  }

  /** What may stand at a target while its work goes on, or after it was cut short: what
      stood there, or what its file renders to; nothing only after an orphan is removed,
      or where nothing stood, or a link is to be made, or no regular file stood there. */
  predicate MayStand(was: Option<Node>, op: Op, n: Option<Node>) {
    || n == was
    || (op.Put? && Available(op.file) && n == Some(NodeOf(op.file)))
    || (n == None && (op.Remove? || op.file.content.Symlink? || (was.Some? && !was.value.File?)))
  }

  /** In any run, complete or not and with any errors, a regular file is never gone while
      a file is to replace it: it stays until the new one stands in its place. */
  lemma OldFileKept(d0: Disk, tasks: Tasks, sched: seq<Event>, t: Path)
    requires Antichain(tasks.Keys) && t in tasks
    ensures MayStand(At(d0, t), tasks[t], At(Run(tasks, Start(d0, tasks), sched).disk, t))
    ensures t in d0 && d0[t].File? && tasks[t].Put? && tasks[t].file.content.Regular? ==>
              var n := At(Run(tasks, Start(d0, tasks), sched).disk, t);
              n == Some(d0[t]) || (Available(tasks[t].file) && n == Some(NodeOf(tasks[t].file)))
  {
    var e := Run(tasks, Start(d0, tasks), sched);
    RunEndsInFinal(d0, tasks, sched, e);
    assert At(e.disk, t) == LocalAt(d0, t, tasks[t], e.pc[t]);
    assert e.pc[t] == 3 ==> OkStep(d0, t, tasks[t], 2);
  }

  lemma ExpectedAtEnd(d0: Disk, tasks: Tasks, pc: map<Path, nat>, p: Path)
    requires pc.Keys == tasks.Keys && forall t :: t in tasks ==> pc[t] == StepCount(tasks[t])
    ensures Expected(d0, tasks, pc, p) == Final(d0, tasks, p)
  {
    assert ClearedAbove(d0, tasks, pc, p) <==>
      exists t :: t in tasks && t < p && tasks[t].Put? && MustClear(At(d0, t), tasks[t].file);
    assert Wanted(tasks, pc, p) <==> exists t :: t in tasks && p < t && tasks[t].Put?;
  }

  /** Every interleaving of the per-target work has the same outcome: the same
      verdict, and on success the same tree. */
  lemma Confluence(d0: Disk, tasks: Tasks, sched: seq<Event>, sched': seq<Event>, e: Exec, e': Exec)
    requires Antichain(tasks.Keys)
    requires e == Run(tasks, Start(d0, tasks), sched) && Finished(tasks, e)
    requires e' == Run(tasks, Start(d0, tasks), sched') && Finished(tasks, e')
    ensures !Failed(e) && !Failed(e') ==> e.disk == e'.disk
    ensures NoFaults(sched) && NoFaults(sched') ==> Failed(e) == Failed(e')
  {
    RunEndsInFinal(d0, tasks, sched, e);
    RunEndsInFinal(d0, tasks, sched', e');
    if !Failed(e) && !Failed(e') {
      SameTree(e.disk, e'.disk);
    }
  }

  lemma SameTree(d: Disk, d': Disk)
    requires forall p :: At(d, p) == At(d', p)
    ensures d == d'
  {
    forall p ensures p in d <==> p in d' {
      assert At(d, p) == At(d', p);
    }
    forall p | p in d ensures d[p] == d'[p] {
      assert At(d, p) == At(d', p);
    }
  }

  /** Even in a run that fails half way, a path that is at or below no target
      keeps its node; the only thing that can appear there is a missing parent
      directory of something to be installed. */
  lemma {:induction false} Frame(tasks: Tasks, e: Exec, sched: seq<Event>, p: Path)
    requires Shaped(tasks, e)
    requires forall t :: t in tasks ==> !(t <= p)
    ensures var d := Run(tasks, e, sched).disk;
            || At(d, p) == At(e.disk, p)
            || (p !in e.disk && At(d, p) == Some(Dir(DIR_PERM)) && exists t :: t in tasks && p < t && tasks[t].Put?)
    decreases |sched|
  {
    if sched != [] {
      var t := sched[0].target;
      if t in tasks && e.pc[t] < StepCount(tasks[t]) && StepOp(e.disk, t, tasks[t], e.pc[t]).Some? {
        StepEffect(e.disk, t, tasks[t], e.pc[t], p);
      }
      Frame(tasks, Step(tasks, e, sched[0]), sched[1..], p);
    }
  }

  lemma RunCons(tasks: Tasks, e: Exec, ev: Event, rest: seq<Event>)
    requires Shaped(tasks, e)
    ensures Run(tasks, e, [ev] + rest) == Run(tasks, Step(tasks, e, ev), rest)
  {
    assert ([ev] + rest)[1..] == rest;
  }

  lemma {:induction false} RunAppend(tasks: Tasks, e: Exec, a: seq<Event>, b: seq<Event>)
    requires Shaped(tasks, e)
    ensures Run(tasks, e, a + b) == Run(tasks, Run(tasks, e, a), b)
    decreases |a|
  {
    if a == [] {
      assert a + b == b;
    } else {
      assert a + b == [a[0]] + (a[1..] + b);
      RunCons(tasks, e, a[0], a[1..] + b);
      RunAppend(tasks, Step(tasks, e, a[0]), a[1..], b);
    }
  }

  /** Left to itself, one target's work gets as far as the first tree allows. */
  lemma {:induction false} CompleteOne(d0: Disk, tasks: Tasks, e: Exec, t: Path, k: nat) returns (sched: seq<Event>)
    requires Antichain(tasks.Keys) && Shaped(tasks, e) && Inv(d0, tasks, e)
    requires t in tasks && t !in e.dead && e.pc[t] <= k <= StepCount(tasks[t])
    requires forall j :: 0 <= j < k ==> OkStep(d0, t, tasks[t], j)
    ensures NoFaults(sched)
    ensures var r := Run(tasks, e, sched);
            r.dead == e.dead && Inv(d0, tasks, r) && r.pc == e.pc[t := k]
    decreases k - e.pc[t]
  {
    sched := [];
    if e.pc[t] < k {
      var ev := Event(t, false);
      var e' := Advance(d0, tasks, e, t);
      var rest := CompleteOne(d0, tasks, e', t, k);
      RunCons(tasks, e, ev, rest);
      sched := [ev] + rest;
      UpdateTwice(e.pc, t, e.pc[t] + 1, k);
    } else {
      assert e.pc[t := k] == e.pc;
    }
  }

  lemma UpdateTwice(pc: map<Path, nat>, t: Path, j: nat, k: nat)
    requires t in pc
    ensures pc[t := j][t := k] == pc[t := k]
  {
  }

  lemma Advance(d0: Disk, tasks: Tasks, e: Exec, t: Path) returns (e': Exec)
    requires Antichain(tasks.Keys) && Shaped(tasks, e) && Inv(d0, tasks, e)
    requires t in tasks && t !in e.dead && e.pc[t] < StepCount(tasks[t]) && OkStep(d0, t, tasks[t], e.pc[t])
    ensures e' == Step(tasks, e, Event(t, false)) && Shaped(tasks, e') && Inv(d0, tasks, e')
    ensures e'.dead == e.dead && e'.pc == e.pc[t := e.pc[t] + 1]
  {
    e' := Step(tasks, e, Event(t, false));
    StepAgrees(d0, tasks, e, t);
    GoodStep(tasks, e, t, StepOp(e.disk, t, tasks[t], e.pc[t]).value);
    StepKeepsInv(d0, tasks, e, Event(t, false));
  }

  // ---- what a run may do to one path before it ends ----

  /** Work at u gets as far as clearing what is there. */
  predicate CanClear(d0: Disk, u: Path, op: Op) {
    op.Put? && ParentsClear(d0, u) && MustClear(At(d0, u), op.file)
  }

  /** Work at t can change the node there, if only half way. */
  predicate Disturbs(d0: Disk, t: Path, op: Op) {
    match op
    case Remove => !NonEmptyDir(d0, t)
    case Put(f) => CanClear(d0, t, op) || (ParentsClear(d0, t) && Available(f) && At(d0, t) != Some(NodeOf(f)))
  }

  ghost predicate Exposed(d0: Disk, tasks: Tasks, t: Path) {
    if t in tasks then Disturbs(d0, t, tasks[t]) else exists u :: u in tasks && u < t && CanClear(d0, u, tasks[u])
  }

  /** Judged on the first tree, an existing node is exposed exactly if some run, cut
      short at some point, changes it. */
  lemma ExposedExactly(d0: Disk, tasks: Tasks, t: Path)
    requires Antichain(tasks.Keys) && t in d0
    ensures Exposed(d0, tasks, t) <==> exists sched :: At(Run(tasks, Start(d0, tasks), sched).disk, t) != At(d0, t)
  {
    if sched :| At(Run(tasks, Start(d0, tasks), sched).disk, t) != At(d0, t) {
      var e := Run(tasks, Start(d0, tasks), sched);
      RunEndsInFinal(d0, tasks, sched, e);
      ChangedIsExposed(d0, tasks, e, t);
    }
    if Exposed(d0, tasks, t) {
      var _ := ExposedChanges(d0, tasks, t);
    }
  }

  lemma ExposedChanges(d0: Disk, tasks: Tasks, t: Path) returns (sched: seq<Event>)
    requires Antichain(tasks.Keys) && t in d0 && Exposed(d0, tasks, t)
    ensures At(Run(tasks, Start(d0, tasks), sched).disk, t) != At(d0, t)
  {
    if t in tasks {
      var k := if tasks[t].Remove? then 1 else if CanClear(d0, t, tasks[t]) then 2 else 3;
      sched := Reached(d0, tasks, t, k);
    } else {
      var u :| u in tasks && u < t && CanClear(d0, u, tasks[u]);
      sched := Reached(d0, tasks, u, 2);
      var e := Run(tasks, Start(d0, tasks), sched);
      assert ClearedAbove(d0, tasks, e.pc, t);
      assert At(e.disk, t) == Expected(d0, tasks, e.pc, t);
    }
  }

  lemma ChangedIsExposed(d0: Disk, tasks: Tasks, e: Exec, t: Path)
    requires Shaped(tasks, e) && Inv(d0, tasks, e) && t in d0 && At(e.disk, t) != At(d0, t)
    ensures Exposed(d0, tasks, t)
  {
    assert At(e.disk, t) == Expected(d0, tasks, e.pc, t);
    if t in tasks {
      assert e.pc[t] >= 1 && OkStep(d0, t, tasks[t], 0);
      assert e.pc[t] >= 3 ==> OkStep(d0, t, tasks[t], 2);
    } else {
      var u :| u in tasks && u < t && Cleared(d0, u, tasks[u], e.pc[u]);
      assert OkStep(d0, u, tasks[u], 0);
    }
  }

  lemma Reached(d0: Disk, tasks: Tasks, t: Path, k: nat) returns (sched: seq<Event>)
    requires Antichain(tasks.Keys) && t in tasks && k <= StepCount(tasks[t])
    requires forall j :: 0 <= j < k ==> OkStep(d0, t, tasks[t], j)
    ensures var e := Run(tasks, Start(d0, tasks), sched);
            Inv(d0, tasks, e) && e.pc[t] == k && At(e.disk, t) == LocalAt(d0, t, tasks[t], k)
  {
    StartInv(d0, tasks);
    sched := CompleteOne(d0, tasks, Start(d0, tasks), t, k);
    var e := Run(tasks, Start(d0, tasks), sched);
    assert At(e.disk, t) == Expected(d0, tasks, e.pc, t);
  }

  lemma {:induction false} CompleteAll(d0: Disk, tasks: Tasks, e: Exec, todo: set<Path>) returns (sched: seq<Event>)
    requires Antichain(tasks.Keys) && Shaped(tasks, e) && Inv(d0, tasks, e) && !Failed(e)
    requires AllDoable(d0, tasks) && todo <= tasks.Keys
    requires forall t :: t in tasks && t !in todo ==> e.pc[t] == StepCount(tasks[t])
    ensures NoFaults(sched) && Finished(tasks, Run(tasks, e, sched)) && !Failed(Run(tasks, e, sched))
    decreases todo
  {
    sched := [];
    if todo != {} {
      var t :| t in todo;
      var first := CompleteOne(d0, tasks, e, t, StepCount(tasks[t]));
      var rest := CompleteAll(d0, tasks, Run(tasks, e, first), todo - {t});
      RunAppend(tasks, e, first, rest);
      sched := first + rest;
    }
  }

  /** Work that is doable on the first tree can be completed. */
  lemma DoableCompletes(d0: Disk, tasks: Tasks) returns (sched: seq<Event>)
    requires Antichain(tasks.Keys) && AllDoable(d0, tasks)
    ensures NoFaults(sched)
    ensures var e := Run(tasks, Start(d0, tasks), sched); Finished(tasks, e) && !Failed(e)
  {
    StartInv(d0, tasks);
    sched := CompleteAll(d0, tasks, Start(d0, tasks), tasks.Keys);
  }

  /** Why targets may not nest: with an orphaned file at o and a desired file
      below it, the order the pool picks decides whether the run succeeds. */
  lemma NestedTargetsRace(d0: Disk, o: Path, t: Path, f: SourceFile, tasks: Tasks)
    requires o < t && Available(f) && o in d0 && d0[o].File?
    requires forall a :: a in d0 && a < t && a != o ==> d0[a].Dir?
    requires forall p :: p in d0 ==> !(t <= p)
    requires tasks == map[o := Remove, t := Put(f)]
    ensures exists sched :: NoFaults(sched)
              && Finished(tasks, Run(tasks, Start(d0, tasks), sched)) && !Failed(Run(tasks, Start(d0, tasks), sched))
    ensures exists sched :: NoFaults(sched)
              && Finished(tasks, Run(tasks, Start(d0, tasks), sched)) && Failed(Run(tasks, Start(d0, tasks), sched))
  {
    RemoveFirst(d0, o, t, f, tasks);
    PutFirst(d0, o, t, f, tasks);
  }

  lemma PutFirst(d0: Disk, o: Path, t: Path, f: SourceFile, tasks: Tasks)
    requires o < t && Available(f) && o in d0 && d0[o].File?
    requires tasks == map[o := Remove, t := Put(f)]
    ensures exists sched :: NoFaults(sched)
              && Finished(tasks, Run(tasks, Start(d0, tasks), sched)) && Failed(Run(tasks, Start(d0, tasks), sched))
  {
    var put, rm, e0 := Event(t, false), Event(o, false), Start(d0, tasks);
    assert !ParentsClear(d0, t);
    var e1 := Step(tasks, e0, put);
    assert e1.dead == {t};
    var e2 := Step(tasks, e1, rm);
    RunCons(tasks, e0, put, [rm]);
    RunCons(tasks, e1, rm, []);
    assert Run(tasks, e0, [put] + [rm]) == e2;
  }

  lemma RunFour(tasks: Tasks, e: Exec, a: Event, b: Event, c: Event, d: Event)
    requires Shaped(tasks, e)
    ensures Run(tasks, e, [a, b, c, d]) == Step(tasks, Step(tasks, Step(tasks, Step(tasks, e, a), b), c), d)
  {
    RunCons(tasks, e, a, [b, c, d]);
    RunCons(tasks, Step(tasks, e, a), b, [c, d]);
    RunCons(tasks, Step(tasks, Step(tasks, e, a), b), c, [d]);
    RunCons(tasks, Step(tasks, Step(tasks, Step(tasks, e, a), b), c), d, []);
    assert [a] + [b, c, d] == [a, b, c, d] && [b] + [c, d] == [b, c, d] && [c] + [d] == [c, d] && [d] + [] == [d];
  }

  lemma GoodStep(tasks: Tasks, e: Exec, t: Path, d: Disk)
    requires Shaped(tasks, e)
    requires t in tasks && t !in e.dead && e.pc[t] < StepCount(tasks[t])
    requires StepOp(e.disk, t, tasks[t], e.pc[t]) == Some(d)
    ensures Step(tasks, e, Event(t, false)) == Exec(d, e.pc[t := e.pc[t] + 1], e.dead)
  {
  }

  lemma ThreeGoodSteps(tasks: Tasks, e: Exec, t: Path, d1: Disk, d2: Disk, d3: Disk)
    requires Shaped(tasks, e) && t in tasks && t !in e.dead && tasks[t].Put? && e.pc[t] == 0
    requires StepOp(e.disk, t, tasks[t], 0) == Some(d1)
    requires StepOp(d1, t, tasks[t], 1) == Some(d2)
    requires StepOp(d2, t, tasks[t], 2) == Some(d3)
    ensures var put := Event(t, false);
            Step(tasks, Step(tasks, Step(tasks, e, put), put), put) == Exec(d3, e.pc[t := 3], e.dead)
  {
    GoodStep(tasks, e, t, d1);
    var e1 := Exec(d1, e.pc[t := 1], e.dead);
    GoodStep(tasks, e1, t, d2);
    var e2 := Exec(d2, e.pc[t := 2], e.dead);
    assert e1.pc[t := 2] == e2.pc;
    GoodStep(tasks, e2, t, d3);
    assert e2.pc[t := 3] == e.pc[t := 3];
  }

  lemma RemoveFirst(d0: Disk, o: Path, t: Path, f: SourceFile, tasks: Tasks)
    requires o < t && Available(f) && o in d0 && d0[o].File?
    requires forall a :: a in d0 && a < t && a != o ==> d0[a].Dir?
    requires forall p :: p in d0 ==> !(t <= p)
    requires tasks == map[o := Remove, t := Put(f)]
    ensures exists sched :: NoFaults(sched)
              && Finished(tasks, Run(tasks, Start(d0, tasks), sched)) && !Failed(Run(tasks, Start(d0, tasks), sched))
  {
    var d1 := OrphanGone(d0, o, t);
    PutAlone(d1, t, f);
    var d2 := MkParents(d1, t).value;
    var put, rm, e0 := Event(t, false), Event(o, false), Start(d0, tasks);
    assert e0.pc == map[o := 0, t := 0];
    RemoveThenPut(tasks, o, t, e0, d1, d2, Install(d2, t, f).value);
    var sched := FourEvents(tasks, e0, rm, put, put, put);
  }

  lemma FourEvents(tasks: Tasks, e: Exec, a: Event, b: Event, c: Event, d: Event) returns (sched: seq<Event>)
    requires Shaped(tasks, e) && !a.fault && !b.fault && !c.fault && !d.fault
    ensures NoFaults(sched)
    ensures Run(tasks, e, sched) == Step(tasks, Step(tasks, Step(tasks, Step(tasks, e, a), b), c), d)
  {
    RunFour(tasks, e, a, b, c, d);
    sched := [a, b, c, d];
  }

  lemma RemoveThenPut(tasks: Tasks, o: Path, t: Path, e0: Exec, d1: Disk, d2: Disk, d3: Disk)
    requires Shaped(tasks, e0) && e0.dead == {} && e0.pc == map[o := 0, t := 0]
    requires o != t && tasks.Keys == {o, t} && tasks[o].Remove? && tasks[t].Put?
    requires StepOp(e0.disk, o, tasks[o], 0) == Some(d1) && StepOp(d1, t, tasks[t], 0) == Some(d2)
    requires StepOp(d2, t, tasks[t], 1) == Some(d2) && StepOp(d2, t, tasks[t], 2) == Some(d3)
    ensures var put, rm := Event(t, false), Event(o, false);
            var e := Step(tasks, Step(tasks, Step(tasks, Step(tasks, e0, rm), put), put), put);
            Finished(tasks, e) && !Failed(e)
  {
    GoodStep(tasks, e0, o, d1);
    ThreeGoodSteps(tasks, Step(tasks, e0, Event(o, false)), t, d2, d2, d3);
  }

  lemma OrphanGone(d0: Disk, o: Path, t: Path) returns (d1: Disk)
    requires o < t && o in d0 && d0[o].File?
    requires forall a :: a in d0 && a < t && a != o ==> d0[a].Dir?
    requires forall p :: p in d0 ==> !(t <= p)
    ensures StepOp(d0, o, Remove, 0) == Some(d1) && ParentsClear(d1, t) && t !in d1
  {
    d1 := map p | p in d0 && p != o :: d0[p];
    assert t <= t;
  }

  /** Where nothing is in the way, the three steps of an installation succeed. */
  lemma PutAlone(d: Disk, t: Path, f: SourceFile)
    requires Available(f) && ParentsClear(d, t) && t !in d && t != []
    ensures StepOp(d, t, Put(f), 0) == MkParents(d, t) && MkParents(d, t).Some?
    ensures var made := MkParents(d, t).value;
            StepOp(made, t, Put(f), 1) == Some(made) && StepOp(made, t, Put(f), 2) == Install(made, t, f)
            && Install(made, t, f).Some?
  {
    NotOwnAncestor(d, t);
    ReadyToInstall(d, MkParents(d, t).value, t, f);
  }

  lemma NotOwnAncestor(d: Disk, t: Path)
    requires t !in d && ParentsClear(d, t)
    ensures t !in MkParents(d, t).value
  {
    assert t !in Ancestors(t);
  }

  lemma ReadyToInstall(d: Disk, made: Disk, t: Path, f: SourceFile)
    requires Available(f) && ParentsClear(d, t) && made == MkParents(d, t).value && t !in made && t != []
    ensures Install(made, t, f).Some?
  {
    assert t[..|t|-1] in Ancestors(t);
    assert t !in Ancestors(t);
  }
}
