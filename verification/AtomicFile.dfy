/** internal/atomicfile/atomicfile.go: install by temp and rename. First the
    calls of one File, then any number of writers interleaved call by call. */
module AtomicFile {
  import opened Common

  type Name = string
  type Files = map<Name, Bytes>

  function At(files: Files, n: Name): Option<Bytes> {
    if n in files then Some(files[n]) else None
  }

  /** rename(2) over an existing or missing destination. */
  function Renamed(files: Files, a: Name, b: Name): Files
    requires a in files
  {
    (files - {a})[b := files[a]]
  }

  // ---- the File object ----

  class Disk {
    var files: Files
  }

  class File {
    const final: Name
    var tmp: Name     // "" once the temp is no longer ours
    var open: bool    // f.f != nil
    var done: bool

    /** An open or closed temp next to final, or nothing left to do. */
    ghost predicate Valid(disk: Disk)
      reads this, disk
    {
      && (!done ==> tmp != "" && tmp != final && tmp in disk.files)
      && (done ==> tmp == "" && !open)
    }

    constructor (final: Name, tmp: Name)
      ensures this.final == final && this.tmp == tmp && open && !done
    {
      this.final, this.tmp, open, done := final, tmp, true, false;
    }

    /** Create: a fresh, empty temp; on a chmod error it is removed again. opens says
        whether the directory and the temp can be made at all. */
    static method Create(disk: Disk, path: Name, tmp: Name, opens: bool, chmodFails: bool, removeFails: bool)
        returns (f: File?)
      requires tmp !in disk.files && tmp != path && tmp != ""
      modifies disk
      ensures f == null <==> !opens || chmodFails
      ensures f == null ==>
                disk.files == if opens && removeFails then old(disk.files)[tmp := []] else old(disk.files)
      ensures f != null ==> fresh(f) && f.Valid(disk) && f.final == path && f.tmp == tmp && f.open && !f.done
      ensures f != null ==> disk.files == old(disk.files)[tmp := []]
    {
      if !opens {
        return null;
      }
      disk.files := disk.files[tmp := []];
      if chmodFails {
        if !removeFails {
          disk.files := disk.files - {tmp};
        }
        return null;
      }
      f := new File(path, tmp);
    }

    /** Write: k of the bytes of p reach the temp; fewer than all is an error. */
    method Write(disk: Disk, p: Bytes, k: nat) returns (n: nat, ok: bool)
      requires Valid(disk) && k <= |p|
      modifies disk
      ensures Valid(disk)
      ensures done || !open ==> disk.files == old(disk.files) && n == 0 && !ok
      ensures !done && open ==>
                disk.files == old(disk.files)[tmp := old(disk.files)[tmp] + p[..k]] && n == k && ok == (k == |p|)
    {
      if !open || done {
        return 0, false;
      }
      disk.files := disk.files[tmp := disk.files[tmp] + p[..k]];
      return k, k == |p|;
    }

    /** Abort: closes and removes the temp, once. */
    method Abort(disk: Disk, closeFails: bool, removeFails: bool) returns (ok: bool)
      requires Valid(disk)
      modifies disk, this`tmp, this`open, this`done
      ensures Valid(disk) && done
      ensures old(done) ==> disk.files == old(disk.files) && ok
      ensures !old(done) ==> disk.files == if removeFails then old(disk.files) else old(disk.files) - {old(tmp)}
      ensures !old(done) ==> ok == (!(old(open) && closeFails) && !removeFails)
    {
      if done {
        return true;
      }
      done := true;
      ok := true;
      if open {
        ok := !closeFails;
        open := false;
      }
      if tmp != "" {
        if removeFails {
          ok := false;
        } else {
          disk.files := disk.files - {tmp};
        }
        tmp := "";
      }
    }

    /** commit: close, rename over final, chmod. All bytes of the temp are
        installed, or final is left as it was. */
    method Commit(disk: Disk, closeFails: bool, renameFails: bool, removeFails: bool, chmodFails: bool)
        returns (ok: bool)
      requires Valid(disk)
      modifies disk, this`tmp, this`open, this`done
      ensures Valid(disk) && done
      ensures old(done) ==> disk.files == old(disk.files) && ok
      ensures !old(done) ==> ok == (!(old(open) && closeFails) && !renameFails && !chmodFails)
      ensures !old(done) ==>
                disk.files == if (old(open) && closeFails) || renameFails
                              then (if removeFails then old(disk.files) else old(disk.files) - {old(tmp)})
                              else Renamed(old(disk.files), old(tmp), final)
    {
      if done {
        return true;
      }
      if open {
        open := false;
        if closeFails {
          var aborted := Abort(disk, false, removeFails);
          return false;
        }
      }
      if renameFails {
        if !removeFails {
          disk.files := disk.files - {tmp};
        }
        ok := false;
      } else {
        disk.files := Renamed(disk.files, tmp, final);
        ok := !chmodFails;
      }
      done := true;
      tmp := "";
    }
  }

  // ---- many writers, one system call at a time ----

  /** Where a writer is; the number of bytes it has written so far. */
  datatype Phase =
    | Idle
    | Created
    | Open(written: nat)
    | Closed
    | Installed            // renamed, chmod still to come
    | Cleaning             // failed before the rename, temp still to be removed
    | Finished             // returned, its deferred Abort included
    | Dead                 // crashed, or its temp could not be removed

  datatype Writer = Writer(data: Bytes, tmp: Name, phase: Phase)

  /** last is a history variable: the writer whose rename happened last. */
  datatype World = World(files: Files, writers: seq<Writer>, last: Option<nat>)

  datatype Call =
    | CreateTemp(name: Name)
    | Chmod(fails: bool)
    | Write(count: nat)
    | ReadError            // the reader or the disk fails half way
    | Close(fails: bool)
    | Rename(fails: bool)
    | FinalChmod
    | RemoveTemp(fails: bool)
    | AbortAgain           // a deferred Abort after everything
    | Crash

  function Set(w: World, i: nat, phase: Phase): World
    requires i < |w.writers|
  {
    w.(writers := w.writers[i := w.writers[i].(phase := phase)])
  }

  /** One system call of writer i; calls that its code would not make there do
      nothing. final is the path all writers install to. */
  function Do(final: Name, w: World, i: nat, c: Call): World
    requires i < |w.writers|
  {
    var me := w.writers[i];
    match (me.phase, c)
    case (Dead, _) => w
    case (Finished, _) => w
    case (_, Crash) => Set(w, i, Dead)
    case (Idle, CreateTemp(name)) =>
      // CreateTemp only takes a name that does not exist, next to final
      if name in w.files || name == final then w
      else World(w.files[name := []], w.writers[i := Writer(me.data, name, Created)], w.last)
    case (Created, Chmod(fails)) => Set(w, i, if fails then Cleaning else Open(0))
    case (Open(n), Write(count)) =>
      if n + count > |me.data| || me.tmp !in w.files then w
      else Set(w.(files := w.files[me.tmp := w.files[me.tmp] + me.data[n..n+count]]), i, Open(n + count))
    case (Open(n), ReadError) => Set(w, i, Cleaning)
    case (Open(n), Close(fails)) =>
      if n < |me.data| then w else Set(w, i, if fails then Cleaning else Closed)
    case (Closed, Rename(fails)) =>
      if fails || me.tmp !in w.files then Set(w, i, Cleaning)
      else Set(World(Renamed(w.files, me.tmp, final), w.writers, Some(i)), i, Installed)
    case (Installed, FinalChmod) => Set(w, i, Finished)
    case (Cleaning, RemoveTemp(fails)) =>
      if fails then Set(w, i, Dead) else Set(w.(files := w.files - {me.tmp}), i, Finished)
    case _ => w
  }

  datatype Event = Event(writer: nat, call: Call)

  function Step(final: Name, w: World, e: Event): (r: World)
    ensures |r.writers| == |w.writers|
  {
    if e.writer < |w.writers| then Do(final, w, e.writer, e.call) else w
  }

  function Run(final: Name, w: World, events: seq<Event>): (r: World)
    ensures |r.writers| == |w.writers|
    decreases |events|
  {
    if events == [] then w else Run(final, Step(final, w, events[0]), events[1..])
  }

  /** The writer owns its temp and will still touch it. */
  predicate Active(me: Writer) {
    me.phase in {Created, Closed, Cleaning} || me.phase.Open?
  }

  /** What the temp of an active writer holds. */
  predicate TempOk(files: Files, me: Writer) {
    && me.tmp in files
    && (me.phase == Created ==> files[me.tmp] == [])
    && (me.phase.Open? ==> me.phase.written <= |me.data| && files[me.tmp] == me.data[..me.phase.written])
    && (me.phase == Closed ==> files[me.tmp] == me.data)
  }

  /** The final path holds what the last rename installed, or its first content. */
  ghost predicate FinalOk(final: Name, first: Files, w: World) {
    && (w.last.Some? ==> w.last.value < |w.writers| && w.writers[w.last.value].phase in {Installed, Finished, Dead})
    && At(w.files, final) == (if w.last.Some? then Some(w.writers[w.last.value].data) else At(first, final))
  }

  /** No two writers share a temp, and each temp holds a prefix of its data. */
  ghost predicate TempsOk(final: Name, first: Files, w: World) {
    && (forall i :: 0 <= i < |w.writers| && Active(w.writers[i]) ==>
          TempOk(w.files, w.writers[i]) && w.writers[i].tmp != final && w.writers[i].tmp !in first)
    && (forall i, j :: 0 <= i < j < |w.writers| && Active(w.writers[i]) && Active(w.writers[j]) ==>
          w.writers[i].tmp != w.writers[j].tmp)
  }

  /** What was there first is still there. */
  ghost predicate OthersOk(final: Name, first: Files, w: World) {
    forall n :: n in first && n != final ==> n in w.files && w.files[n] == first[n]
  }

  /** What is new is a temp. */
  ghost predicate LeftoversOk(final: Name, first: Files, w: World) {
    forall n :: n in w.files && n != final && n !in first ==> Accounted(w, n)
  }

  ghost predicate Inv(final: Name, first: Files, w: World) {
    FinalOk(final, first, w) && TempsOk(final, first, w) && OthersOk(final, first, w) && LeftoversOk(final, first, w)
  }

  /** n is the temp of a writer that is still at work, or that died over it. */
  ghost predicate Accounted(w: World, n: Name) {
    exists i :: 0 <= i < |w.writers| && w.writers[i].tmp == n && (Active(w.writers[i]) || w.writers[i].phase == Dead)
  }

  lemma StepFinal(final: Name, first: Files, w: World, e: Event)
    requires FinalOk(final, first, w) && TempsOk(final, first, w)
    ensures FinalOk(final, first, Step(final, w, e))
  {
  }

  /** A call changes its writer, its writer's temp and the final path only. */
  lemma StepLocal(final: Name, w: World, e: Event, n: Name)
    requires e.writer < |w.writers| && n != final && n != Step(final, w, e).writers[e.writer].tmp
    ensures At(Step(final, w, e).files, n) == At(w.files, n)
    ensures forall j :: 0 <= j < |w.writers| && j != e.writer ==> Step(final, w, e).writers[j] == w.writers[j]
  {
  }

  /** The caller's own temp, after its call. */
  lemma StepOwn(final: Name, w: World, e: Event)
    requires e.writer < |w.writers| && (Active(w.writers[e.writer]) ==>
               TempOk(w.files, w.writers[e.writer]) && w.writers[e.writer].tmp != final)
    ensures var me, me' := w.writers[e.writer], Step(final, w, e).writers[e.writer];
            Active(me') ==> TempOk(Step(final, w, e).files, me') && me'.tmp != final
                            && (if Active(me) then me'.tmp == me.tmp else me'.tmp !in w.files)
    ensures var me, me' := w.writers[e.writer], Step(final, w, e).writers[e.writer];
            me'.tmp == me.tmp || Active(me')
    ensures !Active(w.writers[e.writer]) && !Active(Step(final, w, e).writers[e.writer]) ==>
              Step(final, w, e).files == w.files
  {
  }

  lemma StepKeepsOther(final: Name, first: Files, w: World, e: Event, j: nat)
    requires TempsOk(final, first, w) && e.writer < |w.writers|
    requires j < |w.writers| && j != e.writer && Active(w.writers[j])
    ensures var w' := Step(final, w, e);
            && w'.writers[j] == w.writers[j] && TempOk(w'.files, w.writers[j])
            && (Active(w'.writers[e.writer]) ==> w.writers[j].tmp != w'.writers[e.writer].tmp)
  {
    StepOwn(final, w, e);
    var own, own', me := w.writers[e.writer], Step(final, w, e).writers[e.writer], w.writers[j];
    assert TempOk(w.files, me) && me.tmp != final;
    assert Active(own) ==> me.tmp != own.tmp;
    if Active(own) || Active(own') {
      StepLocal(final, w, e, me.tmp);
      assert At(Step(final, w, e).files, me.tmp) == At(w.files, me.tmp);
    } else {
      StepLocalWriters(final, w, e, j);
    }
  }

  lemma StepLocalWriters(final: Name, w: World, e: Event, j: nat)
    requires e.writer < |w.writers| && j < |w.writers| && j != e.writer
    ensures Step(final, w, e).writers[j] == w.writers[j]
  {
  }

  lemma StepOthers(final: Name, first: Files, w: World, e: Event)
    requires TempsOk(final, first, w) && OthersOk(final, first, w)
    ensures OthersOk(final, first, Step(final, w, e))
  {
    if e.writer < |w.writers| {
      StepOwn(final, w, e);
      var w' := Step(final, w, e);
      forall n | n in first && n != final ensures n in w'.files && w'.files[n] == first[n] {
        if Active(w.writers[e.writer]) || Active(w'.writers[e.writer]) {
          StepLocal(final, w, e, n);
          assert At(w'.files, n) == At(w.files, n);
        }
      }
    }
  }

  lemma StepTemps(final: Name, first: Files, w: World, e: Event)
    requires TempsOk(final, first, w) && OthersOk(final, first, w)
    ensures TempsOk(final, first, Step(final, w, e))
  {
    if e.writer < |w.writers| {
      var w' := Step(final, w, e);
      StepOwn(final, w, e);
      forall j | 0 <= j < |w.writers| && j != e.writer
        ensures w'.writers[j] == w.writers[j]
        ensures Active(w.writers[j]) ==> TempOk(w'.files, w.writers[j])
        ensures Active(w.writers[j]) && Active(w'.writers[e.writer]) ==> w.writers[j].tmp != w'.writers[e.writer].tmp
      {
        StepLocalWriters(final, w, e, j);
        if Active(w.writers[j]) {
          StepKeepsOther(final, first, w, e, j);
        }
      }
    }
  }

  lemma StepAccounts(final: Name, w: World, e: Event, n: Name)
    requires n in Step(final, w, e).files && n != final && (n in w.files ==> Accounted(w, n))
    ensures Accounted(Step(final, w, e), n)
  {
    var w' := Step(final, w, e);
    if n in w.files {
      var i :| 0 <= i < |w.writers| && w.writers[i].tmp == n && (Active(w.writers[i]) || w.writers[i].phase == Dead);
      assert w'.writers[i].tmp == n && (Active(w'.writers[i]) || w'.writers[i].phase == Dead);
    } else {
      assert w'.writers[e.writer].tmp == n && Active(w'.writers[e.writer]);
    }
  }

  lemma StepKeepsInv(final: Name, first: Files, w: World, e: Event)
    requires Inv(final, first, w)
    ensures Inv(final, first, Step(final, w, e))
  {
    StepFinal(final, first, w, e);
    StepTemps(final, first, w, e);
    StepOthers(final, first, w, e);
    var w' := Step(final, w, e);
    forall n | n in w'.files && n != final && n !in first ensures Accounted(w', n) {
      StepAccounts(final, w, e, n);
    }
  }

  lemma {:induction false} RunKeepsInv(final: Name, first: Files, w: World, events: seq<Event>)
    requires Inv(final, first, w)
    ensures Inv(final, first, Run(final, w, events))
    decreases |events|
  {
    if events != [] {
      StepKeepsInv(final, first, w, events[0]);
      RunKeepsInv(final, first, Step(final, w, events[0]), events[1..]);
    }
  }

  /** Any number of writers, each with all of its data still to be written. */
  predicate Fresh(w: World) {
    w.last.None? && forall i :: 0 <= i < |w.writers| ==> w.writers[i].phase == Idle
  }

  lemma {:induction false} DataFixed(final: Name, w: World, events: seq<Event>, i: nat)
    requires i < |w.writers|
    ensures |Run(final, w, events).writers| == |w.writers| && Run(final, w, events).writers[i].data == w.writers[i].data
    decreases |events|
  {
    if events != [] {
      DataFixed(final, Step(final, w, events[0]), events[1..], i);
    }
  }

  /** Atomic install under concurrency: whatever the interleaving, the failures and
      the crashes, the final path holds its first content or all bytes of one
      writer, namely the last that reached its rename; every other file of the
      directory is untouched, and a temp is left only by a writer that is still
      at work or died. */
  lemma FinalIsComplete(final: Name, w: World, events: seq<Event>)
    requires Fresh(w)
    ensures var r := Run(final, w, events);
            && (At(r.files, final) == At(w.files, final)
                || exists i :: 0 <= i < |w.writers| && At(r.files, final) == Some(w.writers[i].data)
                               && r.writers[i].phase in {Installed, Finished, Dead})
            && (forall n :: n in w.files && n != final ==> At(r.files, n) == At(w.files, n))
            && (forall n :: n in r.files && n != final && n !in w.files ==> Accounted(r, n))
  {
    RunKeepsInv(final, w.files, w, events);
    var r := Run(final, w, events);
    if r.last.Some? {
      DataFixed(final, w, events, r.last.value);
    }
  }

  /** Only a successful rename changes the final path, and it installs the whole
      data of its writer. */
  lemma OnlyRenameInstalls(final: Name, first: Files, w: World, e: Event)
    requires Inv(final, first, w)
    ensures var r := Step(final, w, e);
            if e.writer < |w.writers| && w.writers[e.writer].phase == Closed && e.call == Rename(false)
            then At(r.files, final) == Some(w.writers[e.writer].data) && r.last == Some(e.writer)
            else At(r.files, final) == At(w.files, final) && r.last == w.last
  {
  }

  // ---- a writer can finish ----

  /** The call that brings a writer on, if nothing fails; name is for its temp. */
  function NextCall(me: Writer, name: Name): Call {
    match me.phase
    case Idle => CreateTemp(name)
    case Created => Chmod(false)
    case Open(n) => if n < |me.data| then Write(|me.data| - n) else Close(false)
    case Closed => Rename(false)
    case Cleaning => RemoveTemp(false)
    case _ => FinalChmod
  }

  function ToGo(me: Writer): nat {
    match me.phase
    case Idle => 6
    case Created => 5
    case Open(n) => if n < |me.data| then 4 else 3
    case Closed => 2
    case Installed => 1
    case Cleaning => 1
    case _ => 0
  }

  /** It has not failed and not installed yet. */
  predicate OnItsWay(me: Writer) {
    me.phase in {Idle, Created, Closed} || me.phase.Open?
  }

  lemma CallBringsOn(final: Name, first: Files, w: World, i: nat, name: Name)
    requires Inv(final, first, w) && i < |w.writers| && w.writers[i].phase !in {Finished, Dead}
    requires w.writers[i].phase == Idle ==> name !in w.files && name != final
    ensures var me, r := w.writers[i], Step(final, w, Event(i, NextCall(w.writers[i], name)));
            var me' := r.writers[i];
            && ToGo(me') < ToGo(me) && me'.data == me.data && me'.phase != Dead
            && me'.phase != Idle
            && (OnItsWay(me) ==> OnItsWay(me') || (me'.phase == Installed && At(r.files, final) == Some(me.data)))
            && (!OnItsWay(me) ==> !OnItsWay(me') && At(r.files, final) == At(w.files, final))
  {
    var me := w.writers[i];
    if Active(me) {
      assert TempOk(w.files, me) && me.tmp != final;
    }
  }

  /** In any state that a run can reach a writer left to itself, whose calls do not fail,
      finishes; and if it had not failed before, its whole data is installed. */
  lemma {:induction false} CanFinish(final: Name, first: Files, w: World, i: nat, name: Name)
      returns (events: seq<Event>)
    requires Inv(final, first, w) && i < |w.writers| && w.writers[i].phase != Dead
    requires w.writers[i].phase == Idle ==> name !in w.files && name != final
    ensures Run(final, w, events).writers[i].phase == Finished
    ensures At(Run(final, w, events).files, final) ==
              if OnItsWay(w.writers[i]) then Some(w.writers[i].data) else At(w.files, final)
    decreases ToGo(w.writers[i])
  {
    var me := w.writers[i];
    if me.phase == Finished {
      return [];
    }
    var e := Event(i, NextCall(me, name));
    CallBringsOn(final, first, w, i, name);
    StepKeepsInv(final, first, w, e);
    var rest := CanFinish(final, first, Step(final, w, e), i, name);
    events := [e] + rest;
    assert events[1..] == rest;
  }

  // ---- one File's calls are such sequences ----

  /** Past the chance to rename: the rename failed or was never reached, or is done. */
  predicate Spent(me: Writer) {
    me.phase in {Installed, Cleaning, Finished, Dead}
  }

  lemma {:induction false} StaysSpent(final: Name, w: World, events: seq<Event>, i: nat)
    requires i < |w.writers| && Spent(w.writers[i])
    ensures Spent(Run(final, w, events).writers[i])
    ensures w.last != Some(i) ==> Run(final, w, events).last != Some(i)
    decreases |events|
  {
    if events != [] {
      var w' := Step(final, w, events[0]);
      assert Spent(w'.writers[i]) && (w.last != Some(i) ==> w'.last != Some(i));
      StaysSpent(final, w', events[1..], i);
    }
  }

  /** Once a writer has failed before its rename, or has returned or died, whatever the
      others do meanwhile, no call it still makes changes the final path. */
  lemma FailedWriterHarmless(final: Name, first: Files, w: World, events: seq<Event>, i: nat, c: Call)
    requires Inv(final, first, w) && i < |w.writers| && Spent(w.writers[i])
    ensures var r := Run(final, w, events);
            At(Step(final, r, Event(i, c)).files, final) == At(r.files, final)
    ensures w.last != Some(i) ==> Run(final, w, events).last != Some(i)
  {
    RunKeepsInv(final, first, w, events);
    StaysSpent(final, w, events, i);
    OnlyRenameInstalls(final, first, Run(final, w, events), Event(i, c));
  }

  /** The calls Commit makes for an open file. */
  function CommitCalls(i: nat, closeFails: bool, renameFails: bool, removeFails: bool, chmodFails: bool): seq<Event> {
    if closeFails then [Event(i, Close(true)), Event(i, RemoveTemp(removeFails))]
    else if renameFails then [Event(i, Close(false)), Event(i, Rename(true)), Event(i, RemoveTemp(removeFails))]
    else [Event(i, Close(false)), Event(i, Rename(false)), Event(i, FinalChmod)]
  }

  /** Undisturbed, those calls change the directory as Commit says. */
  lemma CommitIsItsCalls(final: Name, w: World, i: nat, closeFails: bool, renameFails: bool, removeFails: bool,
                         chmodFails: bool)
    requires i < |w.writers| && w.writers[i].phase == Open(|w.writers[i].data|) && w.writers[i].tmp in w.files
    ensures var r := Run(final, w, CommitCalls(i, closeFails, renameFails, removeFails, chmodFails));
            && r.files == (if closeFails || renameFails
                           then (if removeFails then w.files else w.files - {w.writers[i].tmp})
                           else Renamed(w.files, w.writers[i].tmp, final))
            && r.writers[i].phase in {Finished, Dead}
  {
    var events := CommitCalls(i, closeFails, renameFails, removeFails, chmodFails);
    var w1 := Step(final, w, events[0]);
    var w2 := Step(final, w1, events[1]);
    RunUnfold(final, w, events);
  }

  lemma RunUnfold(final: Name, w: World, events: seq<Event>)
    requires 2 <= |events| <= 3
    ensures var w2 := Step(final, Step(final, w, events[0]), events[1]);
            Run(final, w, events) == if |events| == 2 then w2 else Step(final, w2, events[2])
  {
    var w1 := Step(final, w, events[0]);
    var w2 := Step(final, w1, events[1]);
    assert Run(final, w, events) == Run(final, w1, events[1..]);
    assert Run(final, w1, events[1..]) == Run(final, w2, events[1..][1..]);
    assert events[1..][1..] == events[2..];
    if |events| == 3 {
      assert Run(final, w2, events[2..]) == Run(final, Step(final, w2, events[2]), events[2..][1..]);
      assert events[2..][1..] == [];
    }
  }
}
