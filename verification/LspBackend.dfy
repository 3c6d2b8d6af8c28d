/** internal/lsp/backend.go: requests, the read loop and the failing of pending
    requests, as steps of goroutines that share one mutex. */
module LspBackend {
  import opened Common
  import opened Text

  /** A response; id is the raw JSON text it is looked up by. */
  datatype Msg = Msg(id: string, body: string)

  /** Where a call of Request is. */
  datatype Phase =
    | New
    | Numbered
    | Writing              // registered, its message being written
    | Waiting              // in the select
    | Leaving              // write failed or context done: entry still to be deleted
    | Done(result: Option<Msg>)

  /** inbox is the channel of capacity one; sends counts what was ever put in. */
  datatype Waiter = Waiter(id: nat, phase: Phase, inbox: Option<Msg>, sends: nat)

  datatype Reader = Reading | Holding(msg: Msg, waiter: nat) | ReaderFailing | ReaderGone

  datatype Exit = Running | ExitFailing | ExitGone

  datatype State = State(
    nextID: nat,
    pending: map<string, nat>,
    waiters: seq<Waiter>,
    reader: Reader,
    exit: Exit
  )

  datatype Event =
    | TakeId(w: nat)
    | Register(w: nat)
    | Write(w: nat, fails: bool)
    | ContextDone(w: nat)
    | Unregister(w: nat)
    | Receive(w: nat)
    | ReadResponse(msg: Msg)
    | Deliver
    | ReadEnds
    | ProcessExits
    | FailOne(key: string, byReader: bool)
    | FailEnds(byReader: bool)

  /** failPending holds the mutex from its first to its last entry. */
  predicate Locked(s: State) {
    s.reader.ReaderFailing? || s.exit.ExitFailing?
  }

  function Key(w: Waiter): string {
    Itoa(w.id)
  }

  function SetPhase(s: State, w: nat, phase: Phase): State
    requires w < |s.waiters|
  {
    s.(waiters := s.waiters[w := s.waiters[w].(phase := phase)])
  }

  /** A send on the waiter's channel; only possible while it is empty. */
  function Send(s: State, w: nat, msg: Msg): State
    requires w < |s.waiters|
  {
    var me := s.waiters[w];
    s.(waiters := s.waiters[w := me.(inbox := Some(msg), sends := me.sends + 1)])
  }

  /** A blocked or impossible event leaves the state alone. */
  function Step(s: State, e: Event): (r: State)
    ensures |r.waiters| == |s.waiters|
  {
    match e
    case TakeId(w) =>
      if w < |s.waiters| && s.waiters[w].phase == New
      then s.(nextID := s.nextID + 1, waiters := s.waiters[w := s.waiters[w].(id := s.nextID + 1, phase := Numbered)])
      else s
    case Register(w) =>
      if w < |s.waiters| && s.waiters[w].phase == Numbered && !Locked(s)
      then SetPhase(s.(pending := s.pending[Key(s.waiters[w]) := w]), w, Writing)
      else s
    case Write(w, fails) =>
      if w < |s.waiters| && s.waiters[w].phase == Writing then SetPhase(s, w, if fails then Leaving else Waiting) else s
    case ContextDone(w) =>
      if w < |s.waiters| && s.waiters[w].phase == Waiting then SetPhase(s, w, Leaving) else s
    case Unregister(w) =>
      if w < |s.waiters| && s.waiters[w].phase == Leaving && !Locked(s)
      then SetPhase(s.(pending := s.pending - {Key(s.waiters[w])}), w, Done(None))
      else s
    case Receive(w) =>
      if w < |s.waiters| && s.waiters[w].phase == Waiting && s.waiters[w].inbox.Some?
      then s.(waiters := s.waiters[w := s.waiters[w].(phase := Done(s.waiters[w].inbox), inbox := None)])
      else s
    case ReadResponse(msg) =>
      if s.reader == Reading && !Locked(s) && msg.id in s.pending
      then s.(pending := s.pending - {msg.id}, reader := Holding(msg, s.pending[msg.id]))
      else s
    case Deliver =>
      if s.reader.Holding? && s.reader.waiter < |s.waiters| && s.waiters[s.reader.waiter].inbox.None?
      then Send(s, s.reader.waiter, s.reader.msg).(reader := Reading)
      else s
    case ReadEnds =>
      if s.reader == Reading && !Locked(s) then s.(reader := ReaderFailing) else s
    case ProcessExits =>
      if s.exit == Running && !Locked(s) then s.(exit := ExitFailing) else s
    case FailOne(key, byReader) =>
      if (if byReader then s.reader.ReaderFailing? else s.exit.ExitFailing?) && key in s.pending
         && s.pending[key] < |s.waiters| && s.waiters[s.pending[key]].inbox.None?
      then Send(s, s.pending[key], Msg(key, "error")).(pending := s.pending - {key})
      else s
    case FailEnds(byReader) =>
      if s.pending != map[] then s
      else if byReader && s.reader.ReaderFailing? then s.(reader := ReaderGone)
      else if !byReader && s.exit.ExitFailing? then s.(exit := ExitGone)
      else s
  }

  function Run(s: State, events: seq<Event>): (r: State)
    ensures |r.waiters| == |s.waiters|
    decreases |events|
  {
    if events == [] then s else Run(Step(s, events[0]), events[1..])
  }

  /** A started backend and any number of calls to come. */
  predicate Initial(s: State) {
    && s.nextID == 0 && s.pending == map[] && s.reader == Reading && s.exit == Running
    && forall w :: 0 <= w < |s.waiters| ==> s.waiters[w] == Waiter(0, New, None, 0)
  }

  // ---- the invariant ----

  predicate HasId(me: Waiter) {
    me.phase != New
  }

  /** Ids were handed out once each. */
  ghost predicate IdsOk(s: State) {
    && (forall w :: 0 <= w < |s.waiters| && HasId(s.waiters[w]) ==> 1 <= s.waiters[w].id <= s.nextID)
    && (forall v, w :: 0 <= v < w < |s.waiters| && HasId(s.waiters[v]) && HasId(s.waiters[w]) ==>
          s.waiters[v].id != s.waiters[w].id)
  }

  /** Nothing has been sent to me yet. */
  predicate Untouched(me: Waiter) {
    me.inbox.None? && me.sends == 0
  }

  predicate MsgFor(me: Waiter, m: Option<Msg>) {
    m.Some? ==> m.value.id == Key(me)
  }

  ghost predicate WaitersOk(s: State) {
    forall w :: 0 <= w < |s.waiters| ==>
      && s.waiters[w].sends <= 1
      && MsgFor(s.waiters[w], s.waiters[w].inbox)
      && (s.waiters[w].phase.Done? ==> MsgFor(s.waiters[w], s.waiters[w].phase.result))
      && (s.waiters[w].phase in {New, Numbered} ==> Untouched(s.waiters[w]))
  }

  /** An entry belongs to the waiter with that id, who has not been sent anything. */
  ghost predicate PendingOk(s: State) {
    forall k :: k in s.pending ==> EntryOk(s, k)
  }

  predicate EntryOk(s: State, k: string)
    requires k in s.pending
  {
    && s.pending[k] < |s.waiters|
    && k == Key(s.waiters[s.pending[k]])
    && (s.waiters[s.pending[k]].phase in {Writing, Waiting, Leaving})
    && Untouched(s.waiters[s.pending[k]])
  }

  /** The reader's message is for a waiter whose entry it has taken out. */
  ghost predicate ReaderOk(s: State) {
    s.reader.Holding? ==>
      && s.reader.waiter < |s.waiters|
      && s.reader.msg.id == Key(s.waiters[s.reader.waiter])
      && s.waiters[s.reader.waiter].phase !in {New, Numbered}
      && Untouched(s.waiters[s.reader.waiter])
      && s.reader.msg.id !in s.pending
  }

  /** A waiting call is still registered, or has its message, or its message is in
      the reader's hands. */
  ghost predicate NoneLost(s: State) {
    forall w :: 0 <= w < |s.waiters| && s.waiters[w].phase in {Writing, Waiting} ==> Reachable(s, w)
  }

  predicate Reachable(s: State, w: nat)
    requires w < |s.waiters|
  {
    || (Key(s.waiters[w]) in s.pending && s.pending[Key(s.waiters[w])] == w)
    || s.waiters[w].inbox.Some?
    || (s.reader.Holding? && s.reader.waiter == w)
  }

  ghost predicate Inv(s: State) {
    IdsOk(s) && WaitersOk(s) && PendingOk(s) && ReaderOk(s) && NoneLost(s)
    && !(s.reader.ReaderFailing? && s.exit.ExitFailing?)
  }

  lemma KeyInjective(m: nat, n: nat)
    requires Itoa(m) == Itoa(n)
    ensures m == n
  {
    DigitsRoundTrip(m);
    DigitsRoundTrip(n);
  }

  /** Two waiters with ids have different keys. */
  lemma KeysDiffer(s: State, v: nat, w: nat)
    requires IdsOk(s) && v < |s.waiters| && w < |s.waiters| && v != w
    requires HasId(s.waiters[v]) && HasId(s.waiters[w])
    ensures Key(s.waiters[v]) != Key(s.waiters[w])
  {
    assert s.waiters[v].id != s.waiters[w].id by {
      assert v < w || w < v;
    }
    if Key(s.waiters[v]) == Key(s.waiters[w]) {
      KeyInjective(s.waiters[v].id, s.waiters[w].id);
    }
  }

  /** Only TakeId gives an id, and it gives a new one. */
  lemma StepId(s: State, e: Event, w: nat)
    requires w < |s.waiters|
    ensures var me, r := s.waiters[w], Step(s, e);
            if e == TakeId(w) && me.phase == New then
              HasId(r.waiters[w]) && r.waiters[w].id == r.nextID == s.nextID + 1
            else r.waiters[w].id == me.id && HasId(r.waiters[w]) == HasId(me) && r.nextID >= s.nextID
  {
  }

  lemma StepKeepsIds(s: State, e: Event)
    requires IdsOk(s)
    ensures IdsOk(Step(s, e))
  {
    var r := Step(s, e);
    forall w | 0 <= w < |s.waiters| && HasId(r.waiters[w]) ensures 1 <= r.waiters[w].id <= r.nextID {
      StepId(s, e, w);
    }
    forall v, w | 0 <= v < w < |s.waiters| && HasId(r.waiters[v]) && HasId(r.waiters[w])
      ensures r.waiters[v].id != r.waiters[w].id
    {
      StepId(s, e, v);
      StepId(s, e, w);
    }
  }

  lemma StepKeepsWaiters(s: State, e: Event)
    requires IdsOk(s) && WaitersOk(s) && PendingOk(s) && ReaderOk(s)
    ensures WaitersOk(Step(s, e))
  {
  }

  lemma StepKeepsPending(s: State, e: Event)
    requires IdsOk(s) && WaitersOk(s) && PendingOk(s) && ReaderOk(s)
    ensures PendingOk(Step(s, e))
  {
    forall k | k in Step(s, e).pending ensures EntryOk(Step(s, e), k) {
      StepKeepsEntry(s, e, k);
    }
  }

  lemma StepKeepsEntry(s: State, e: Event, k: string)
    requires IdsOk(s) && WaitersOk(s) && ReaderOk(s) && k in Step(s, e).pending
    requires k in s.pending ==> EntryOk(s, k)
    requires forall j :: j in s.pending ==> EntryOk(s, j)
    ensures EntryOk(Step(s, e), k)
  {
    if e.Register? || e.Unregister? {
      RegistryEntry(s, e, k);
    } else {
      MailEntry(s, e, k);
    }
  }

  /** The other events at most take entries out. */
  lemma MailEntry(s: State, e: Event, k: string)
    requires ReaderOk(s) && !e.Register? && !e.Unregister? && k in Step(s, e).pending
    requires k in s.pending && EntryOk(s, k)
    requires forall j :: j in s.pending ==> EntryOk(s, j)
    ensures EntryOk(Step(s, e), k)
  {
    StepId(s, e, s.pending[k]);
  }

  /** The two events that write the table on behalf of a call. */
  lemma RegistryEntry(s: State, e: Event, k: string)
    requires IdsOk(s) && WaitersOk(s) && k in Step(s, e).pending && (e.Register? || e.Unregister?)
    requires k in s.pending ==> EntryOk(s, k)
    ensures EntryOk(Step(s, e), k)
  {
    if e.w < |s.waiters| && k in s.pending && s.pending[k] != e.w && HasId(s.waiters[e.w]) {
      KeysDiffer(s, s.pending[k], e.w);
    }
  }

  lemma StepKeepsReader(s: State, e: Event)
    requires IdsOk(s) && WaitersOk(s) && PendingOk(s) && ReaderOk(s)
    ensures ReaderOk(Step(s, e))
  {
    if e.Register? && e.w < |s.waiters| && s.waiters[e.w].phase == Numbered && s.reader.Holding? {
      KeysDiffer(s, s.reader.waiter, e.w);
    }
  }

  lemma StepKeepsReachable(s: State, e: Event, w: nat)
    requires IdsOk(s) && PendingOk(s)
    requires w < |s.waiters| && Step(s, e).waiters[w].phase in {Writing, Waiting}
    requires s.waiters[w].phase in {Writing, Waiting} ==> Reachable(s, w)
    ensures Reachable(Step(s, e), w)
  {
    if e.Register? || e.Unregister? {
      RegistryReachable(s, e, w);
    } else if s.waiters[w].phase in {Writing, Waiting} {
      MailReachable(s, e, w);
    }
  }

  /** The other events pass a message on or mark a call. */
  lemma MailReachable(s: State, e: Event, w: nat)
    requires !e.Register? && !e.Unregister? && w < |s.waiters| && Reachable(s, w)
    requires s.waiters[w].phase in {Writing, Waiting} && Step(s, e).waiters[w].phase in {Writing, Waiting}
    ensures Reachable(Step(s, e), w)
  {
    StepId(s, e, w);
  }

  lemma RegistryReachable(s: State, e: Event, w: nat)
    requires IdsOk(s) && (e.Register? || e.Unregister?)
    requires w < |s.waiters| && Step(s, e).waiters[w].phase in {Writing, Waiting}
    requires s.waiters[w].phase in {Writing, Waiting} ==> Reachable(s, w)
    ensures Reachable(Step(s, e), w)
  {
    if e.w < |s.waiters| && e.w != w && HasId(s.waiters[e.w]) {
      KeysDiffer(s, w, e.w);
    }
  }

  lemma StepLosesNone(s: State, e: Event)
    requires Inv(s)
    ensures NoneLost(Step(s, e))
  {
    forall w | 0 <= w < |s.waiters| && Step(s, e).waiters[w].phase in {Writing, Waiting}
      ensures Reachable(Step(s, e), w)
    {
      StepKeepsReachable(s, e, w);
    }
  }

  lemma StepKeepsInv(s: State, e: Event)
    requires Inv(s)
    ensures Inv(Step(s, e))
  {
    StepKeepsIds(s, e);
    StepKeepsWaiters(s, e);
    StepKeepsPending(s, e);
    StepKeepsReader(s, e);
    StepLosesNone(s, e);
  }

  lemma {:induction false} RunKeepsInv(s: State, events: seq<Event>)
    requires Inv(s)
    ensures Inv(Run(s, events))
    decreases |events|
  {
    if events != [] {
      StepKeepsInv(s, events[0]);
      RunKeepsInv(Step(s, events[0]), events[1..]);
    }
  }

  // ---- what every reachable state promises ----

  /** Request correlation: over any run, each channel is sent at most one message,
      whatever arrives carries the waiter's own id, two calls never have the same id,
      and a call that waits has its entry in the table, or its message in its channel
      or in the reader's hands. */
  lemma Correlation(s: State, events: seq<Event>, w: nat)
    requires Initial(s) && w < |s.waiters|
    ensures var me := Run(s, events).waiters[w];
            && me.sends <= 1
            && MsgFor(me, me.inbox) && (me.phase.Done? ==> MsgFor(me, me.phase.result))
            && (forall v :: 0 <= v < |s.waiters| && v != w && HasId(me) && HasId(Run(s, events).waiters[v]) ==>
                  Run(s, events).waiters[v].id != me.id)
    ensures NoneLost(Run(s, events))
  {
    RunKeepsInv(s, events);
    var r := Run(s, events);
    assert WaitersOk(r);
    forall v | 0 <= v < |s.waiters| && v != w && HasId(r.waiters[w]) && HasId(r.waiters[v])
      ensures r.waiters[v].id != r.waiters[w].id
    {
      assert v < w || w < v;
    }
  }

  // ---- how a call ends ----

  /** The call has given up, or returned without a message. */
  predicate GaveUp(me: Waiter) {
    me.phase == Leaving || me.phase == Done(None)
  }

  /** What makes the call give up: its write fails, or its own context ends. */
  predicate IsTold(e: Event, w: nat) {
    e == Write(w, true) || e == ContextDone(w)
  }

  predicate Told(events: seq<Event>, w: nat) {
    exists k :: 0 <= k < |events| && IsTold(events[k], w)
  }

  lemma ToldNext(events: seq<Event>, w: nat)
    requires events != []
    ensures Told(events, w) <==> IsTold(events[0], w) || Told(events[1..], w)
  {
    if Told(events, w) {
      var k :| 0 <= k < |events| && IsTold(events[k], w);
      assert k > 0 ==> events[1..][k-1] == events[k];
    }
    if Told(events[1..], w) {
      var k :| 0 <= k < |events[1..]| && IsTold(events[1..][k], w);
      assert events[k+1] == events[1..][k];
    }
  }

  /** A call gives up only if its own write fails or its own context ends; whatever else
      happens to the backend, it waits or returns a message. */
  lemma {:induction false} GivesUpOnlyIfTold(s: State, events: seq<Event>, w: nat)
    requires w < |s.waiters| && !GaveUp(s.waiters[w])
    ensures GaveUp(Run(s, events).waiters[w]) ==> Told(events, w)
    decreases |events|
  {
    if events != [] {
      ToldNext(events, w);
      StepGivesUp(s, events[0], w);
      if !GaveUp(Step(s, events[0]).waiters[w]) {
        GivesUpOnlyIfTold(Step(s, events[0]), events[1..], w);
      }
    }
  }

  lemma StepGivesUp(s: State, e: Event, w: nat)
    requires w < |s.waiters| && !GaveUp(s.waiters[w])
    ensures GaveUp(Step(s, e).waiters[w]) ==> IsTold(e, w)
  {
  }

  /** And a call that has given up returns no message any more. */
  lemma {:induction false} GivenUpForGood(s: State, events: seq<Event>, w: nat)
    requires w < |s.waiters| && GaveUp(s.waiters[w])
    ensures GaveUp(Run(s, events).waiters[w])
    decreases |events|
  {
    if events != [] {
      GivenUpStep(s, events[0], w);
      GivenUpForGood(Step(s, events[0]), events[1..], w);
    }
  }

  lemma GivenUpStep(s: State, e: Event, w: nat)
    requires w < |s.waiters| && GaveUp(s.waiters[w])
    ensures GaveUp(Step(s, e).waiters[w])
  {
  }

  /** It waits or has returned a message. */
  predicate Sent(me: Waiter) {
    me.phase == Waiting || (me.phase.Done? && me.phase.result.Some?)
  }

  /** Only a call whose message was written waits or returns a message. */
  lemma {:induction false} AnsweredWasWritten(s: State, events: seq<Event>, w: nat)
    requires w < |s.waiters| && !Sent(s.waiters[w])
    ensures Sent(Run(s, events).waiters[w]) ==> Write(w, false) in events
    decreases |events|
  {
    if events != [] {
      StepSends(s, events[0], w);
      if !Sent(Step(s, events[0]).waiters[w]) {
        AnsweredWasWritten(Step(s, events[0]), events[1..], w);
      }
    }
  }

  lemma StepSends(s: State, e: Event, w: nat)
    requires w < |s.waiters| && !Sent(s.waiters[w])
    ensures Sent(Step(s, e).waiters[w]) ==> e == Write(w, false)
  {
  }

  /** m is somewhere between the connection and the callers. */
  predicate Carried(s: State, m: Msg) {
    || (s.reader.Holding? && s.reader.msg == m)
    || exists w :: 0 <= w < |s.waiters| && Has(s.waiters[w], m)
  }

  predicate Has(me: Waiter, m: Msg) {
    me.inbox == Some(m) || me.phase == Done(Some(m))
  }

  /** m was read from the connection, or is the error of failPending under its key. */
  predicate Brings(e: Event, m: Msg) {
    e == ReadResponse(m) || (e.FailOne? && m == Msg(e.key, "error"))
  }

  /** No message is made up: what a call has, or returns, was read from the connection, or
      is failPending's error under the call's own id. */
  lemma {:induction false} NothingMadeUp(s: State, events: seq<Event>, m: Msg)
    requires Carried(Run(s, events), m) && !Carried(s, m)
    ensures exists k :: 0 <= k < |events| && Brings(events[k], m)
    decreases |events|
  {
    if Carried(Step(s, events[0]), m) {
      StepBrings(s, events[0], m);
    } else {
      NothingMadeUp(Step(s, events[0]), events[1..], m);
      var k :| 0 <= k < |events[1..]| && Brings(events[1..][k], m);
      assert events[k+1] == events[1..][k];
    }
  }

  lemma StepBrings(s: State, e: Event, m: Msg)
    requires Carried(Step(s, e), m) && !Carried(s, m)
    ensures Brings(e, m)
  {
    var r := Step(s, e);
    if !(r.reader.Holding? && r.reader.msg == m) {
      var w :| 0 <= w < |r.waiters| && Has(r.waiters[w], m);
      assert !Has(s.waiters[w], m);
    }
  }

  lemma AnswerWasBrought(s: State, events: seq<Event>, w: nat, m: Msg)
    requires Initial(s) && w < |s.waiters| && Has(Run(s, events).waiters[w], m)
    ensures exists k :: 0 <= k < |events| && Brings(events[k], m)
    ensures m.id == Key(Run(s, events).waiters[w])
  {
    Correlation(s, events, w);
    assert !Carried(s, m);
    NothingMadeUp(s, events, m);
  }

  /** m is in the call's channel, or the call has returned it. */
  predicate Gets(me: Waiter, m: Msg) {
    || (me.phase in {Writing, Waiting} && me.inbox == Some(m))
    || me.phase == Done(Some(m))
  }

  /** A message in the channel of a call that is not told to give up stays there until the
      call returns it. */
  lemma {:induction false} MessageReturned(s: State, events: seq<Event>, w: nat, m: Msg)
    requires Inv(s) && w < |s.waiters| && Gets(s.waiters[w], m) && !Told(events, w)
    ensures Gets(Run(s, events).waiters[w], m)
    decreases |events|
  {
    if events != [] {
      ToldNext(events, w);
      StepKeepsInv(s, events[0]);
      GetsNext(s, events[0], w, m);
      MessageReturned(Step(s, events[0]), events[1..], w, m);
    }
  }

  lemma GetsNext(s: State, e: Event, w: nat, m: Msg)
    requires WaitersOk(s) && PendingOk(s) && ReaderOk(s)
    requires w < |s.waiters| && Gets(s.waiters[w], m) && !IsTold(e, w)
    ensures Gets(Step(s, e).waiters[w], m)
  {
  }

  /** A registered call can be answered: its response, or failPending's error, goes into
      its channel and the call returns it. */
  lemma CanBeAnswered(s: State, events: seq<Event>, w: nat, m: Msg)
    requires Initial(s) && w < |s.waiters|
    requires var r := Run(s, events);
             r.waiters[w].phase == Waiting && m.id == Key(r.waiters[w]) && m.id in r.pending && r.pending[m.id] == w
    ensures var r := Run(s, events);
            && (r.reader == Reading && !Locked(r) ==>
                  Step(Step(Step(r, ReadResponse(m)), Deliver), Receive(w)).waiters[w].phase == Done(Some(m)))
            && (Locked(r) ==>
                  Step(Step(r, FailOne(m.id, r.reader.ReaderFailing?)), Receive(w)).waiters[w].phase
                    == Done(Some(Msg(m.id, "error"))))
  {
    RunKeepsInv(s, events);
    assert EntryOk(Run(s, events), m.id);
  }

  /** The call has its message, or is about to get it from the reader, or has given up
      or returned. */
  predicate Served(s: State, w: nat)
    requires w < |s.waiters|
  {
    || s.waiters[w].inbox.Some?
    || s.waiters[w].phase == Leaving || s.waiters[w].phase.Done?
    || (s.reader.Holding? && s.reader.waiter == w)
  }

  lemma {:induction false} StaysServed(s: State, events: seq<Event>, w: nat)
    requires w < |s.waiters| && HasId(s.waiters[w]) && s.waiters[w].phase != Numbered && Served(s, w)
    ensures Served(Run(s, events), w)
    decreases |events|
  {
    if events != [] {
      ServedNext(s, events[0], w);
      StaysServed(Step(s, events[0]), events[1..], w);
    }
  }

  lemma ServedNext(s: State, e: Event, w: nat)
    requires w < |s.waiters| && HasId(s.waiters[w]) && s.waiters[w].phase != Numbered && Served(s, w)
    ensures var r := Step(s, e);
            HasId(r.waiters[w]) && r.waiters[w].phase != Numbered && Served(r, w)
  {
    StepId(s, e, w);
  }

  /** When failPending ends, every call registered by then is served, and stays so:
      nobody waits for a reader or a process that is gone. */
  lemma FailPendingServesAll(s: State, events: seq<Event>, byReader: bool, more: seq<Event>, w: nat)
    requires Initial(s) && w < |s.waiters|
    requires var r := Run(s, events);
             Step(r, FailEnds(byReader)) != r && HasId(r.waiters[w]) && r.waiters[w].phase != Numbered
    ensures Served(Run(Step(Run(s, events), FailEnds(byReader)), more), w)
  {
    RunKeepsInv(s, events);
    var r := Run(s, events);
    assert r.waiters[w].phase in {Writing, Waiting} ==> Reachable(r, w);
    var ended := Step(r, FailEnds(byReader));
    assert ended.waiters == r.waiters;
    assert Served(ended, w);
    StaysServed(ended, more, w);
  }

  /** A call that registers after both have ended is served by nobody: until its own
      context ends, nothing moves it. */
  lemma {:induction false} LateCallWaits(s: State, events: seq<Event>, w: nat)
    requires s.reader == ReaderGone && s.exit == ExitGone && w < |s.waiters|
    requires s.waiters[w].phase == Waiting && s.waiters[w].inbox == None
    requires forall k :: 0 <= k < |events| ==> events[k] != ContextDone(w)
    ensures Run(s, events).waiters[w] == s.waiters[w]
    decreases |events|
  {
    if events != [] {
      LateCallStep(s, events[0], w);
      assert forall k :: 0 <= k < |events[1..]| ==> events[1..][k] == events[k+1];
      LateCallWaits(Step(s, events[0]), events[1..], w);
    }
  }

  lemma LateCallStep(s: State, e: Event, w: nat)
    requires s.reader == ReaderGone && s.exit == ExitGone && w < |s.waiters|
    requires s.waiters[w].phase == Waiting && s.waiters[w].inbox == None && e != ContextDone(w)
    ensures var r := Step(s, e); r.reader == ReaderGone && r.exit == ExitGone && r.waiters[w] == s.waiters[w]
  {
  }

  /** No send can block: when the reader holds a message its Deliver goes through,
      and whoever holds the mutex in failPending can send to every entry that is
      left, and release the mutex when none is. */
  lemma NoSendBlocks(s: State, events: seq<Event>, key: string)
    requires Initial(s)
    ensures var r := Run(s, events);
            && (r.reader.Holding? ==> Step(r, Deliver).reader == Reading)
            && (Locked(r) && key in r.pending ==>
                  Step(r, FailOne(key, r.reader.ReaderFailing?)).pending == r.pending - {key})
            && (Locked(r) && r.pending == map[] ==> !Locked(Step(r, FailEnds(r.reader.ReaderFailing?))))
  {
    RunKeepsInv(s, events);
    var r := Run(s, events);
    if r.reader.Holding? {
      DeliverGoes(r);
    }
    if Locked(r) {
      FailGoes(r, key);
    }
  }

  lemma DeliverGoes(s: State)
    requires ReaderOk(s) && s.reader.Holding?
    ensures Step(s, Deliver).reader == Reading
  {
  }

  lemma FailGoes(s: State, key: string)
    requires Locked(s) && !(s.reader.ReaderFailing? && s.exit.ExitFailing?)
    requires key in s.pending ==> EntryOk(s, key)
    ensures key in s.pending ==> Step(s, FailOne(key, s.reader.ReaderFailing?)).pending == s.pending - {key}
    ensures s.pending == map[] ==> !Locked(Step(s, FailEnds(s.reader.ReaderFailing?)))
  {
  }

  /** While one goroutine is in failPending the table changes by its deletions alone, and
      the other does not enter. */
  lemma LockExcludes(s: State, e: Event)
    requires Locked(s) && !(s.reader.ReaderFailing? && s.exit.ExitFailing?)
    ensures Step(s, e).pending != s.pending ==>
              e.FailOne? && e.key in s.pending && Step(s, e).pending == s.pending - {e.key}
    ensures s.reader.ReaderFailing? ==> Step(s, e).exit == s.exit
    ensures s.exit.ExitFailing? ==> !Step(s, e).reader.ReaderFailing?
  {
  }

  /** The read loop and the wait for the process go their ways: read, hand over, read on;
      and each fails what is pending once, with the mutex, and ends when nothing is. */
  lemma GoroutinesGo(s: State, e: Event)
    ensures var r := Step(s, e);
            && (r.exit != s.exit ==>
                  || (s.exit == Running && !Locked(s) && e == ProcessExits && r.exit == ExitFailing)
                  || (s.exit == ExitFailing && s.pending == map[] && e == FailEnds(false) && r.exit == ExitGone))
            && (r.reader != s.reader ==>
                  || (s.reader == Reading && !Locked(s) && e == ReadEnds && r.reader == ReaderFailing)
                  || (s.reader == Reading && !Locked(s) && e.ReadResponse? && r.reader.Holding?)
                  || (s.reader.Holding? && e == Deliver && r.reader == Reading)
                  || (s.reader == ReaderFailing && s.pending == map[] && e == FailEnds(true)
                      && r.reader == ReaderGone))
            && (s.reader == Reading && !Locked(s) && e == ReadEnds ==> r.reader == ReaderFailing)
            && (s.exit == Running && !Locked(s) && e == ProcessExits ==> r.exit == ExitFailing)
  {
  }

  lemma {:induction false} RunAppend(s: State, a: seq<Event>, b: seq<Event>)
    ensures Run(s, a + b) == Run(Run(s, a), b)
    decreases |a|
  {
    if a == [] {
      assert a + b == b;
    } else {
      assert (a + b)[1..] == a[1..] + b;
      RunAppend(Step(s, a[0]), a[1..], b);
    }
  }

  predicate SamePhases(s: State, r: State)
    requires |s.waiters| == |r.waiters|
  {
    forall w :: 0 <= w < |s.waiters| ==> r.waiters[w].phase == s.waiters[w].phase
  }

  /** Whoever is in failPending can come out of it. */
  lemma {:induction false} CanUnlock(s: State) returns (events: seq<Event>)
    requires Inv(s)
    ensures Inv(Run(s, events)) && !Locked(Run(s, events)) && SamePhases(s, Run(s, events))
    decreases |s.pending|
  {
    if !Locked(s) {
      return [];
    }
    var e := FailNext(s);
    StepKeepsInv(s, e);
    var rest: seq<Event> := [];
    if Locked(Step(s, e)) {
      rest := CanUnlock(Step(s, e));
    }
    events := [e] + rest;
    assert events[1..] == rest;
  }

  lemma FailNext(s: State) returns (e: Event)
    requires Locked(s) && PendingOk(s) && !(s.reader.ReaderFailing? && s.exit.ExitFailing?)
    ensures SamePhases(s, Step(s, e))
    ensures |Step(s, e).pending| < |s.pending| || !Locked(Step(s, e))
  {
    if key :| key in s.pending {
      e := FailOne(key, s.reader.ReaderFailing?);
      assert EntryOk(s, key);
      FailGoes(s, key);
      FewerKeys(s.pending, key);
      FailKeepsPhases(s, key);
    } else {
      FailGoes(s, "");
      e := FailEnds(s.reader.ReaderFailing?);
      assert Step(s, e).waiters == s.waiters;
    }
  }

  lemma FailKeepsPhases(s: State, key: string)
    ensures SamePhases(s, Step(s, FailOne(key, s.reader.ReaderFailing?)))
  {
  }

  lemma FewerKeys(pending: map<string, nat>, key: string)
    requires key in pending
    ensures |pending - {key}| < |pending|
  {
    assert (pending - {key}).Keys == pending.Keys - {key};
    assert |pending.Keys - {key}| == |pending.Keys| - 1;
  }

  /** One step of a call, once the mutex is free: it is on its way, or out. */
  function NextOf(w: nat, phase: Phase): Event {
    match phase
    case New => TakeId(w)
    case Numbered => Register(w)
    case Writing => Write(w, true)
    case Waiting => ContextDone(w)
    case Leaving => Unregister(w)
    case Done(_) => Unregister(w)
  }

  function ToGo(phase: Phase): nat {
    match phase
    case New => 4
    case Numbered => 3
    case Writing => 2
    case Waiting => 2
    case Leaving => 1
    case Done(_) => 0
  }

  /** No deadlock: from every state that a run can reach, every call can be brought to its
      return by its own context alone, however the reader and the process stand. */
  lemma {:induction false} CanReturn(s: State, w: nat) returns (events: seq<Event>)
    requires Inv(s) && w < |s.waiters|
    ensures Run(s, events).waiters[w].phase.Done?
    decreases ToGo(s.waiters[w].phase)
  {
    if s.waiters[w].phase.Done? {
      return [];
    }
    var free := CanUnlock(s);
    var e := NextOf(w, s.waiters[w].phase);
    var r := Run(s, free);
    StepKeepsInv(r, e);
    var rest := CanReturn(Step(r, e), w);
    events := free + ([e] + rest);
    RunAppend(s, free, [e] + rest);
    assert ([e] + rest)[1..] == rest;
  }

  /** In particular after any run. */
  lemma NoDeadlock(s: State, events: seq<Event>, w: nat) returns (more: seq<Event>)
    requires Initial(s) && w < |s.waiters|
    ensures Run(Run(s, events), more).waiters[w].phase.Done?
  {
    RunKeepsInv(s, events);
    more := CanReturn(Run(s, events), w);
  }

  /** Once given, an id stays with its call. */
  lemma {:induction false} IdStays(s: State, events: seq<Event>, w: nat)
    requires w < |s.waiters| && HasId(s.waiters[w])
    ensures Run(s, events).waiters[w].id == s.waiters[w].id && HasId(Run(s, events).waiters[w])
    decreases |events|
  {
    if events != [] {
      StepId(s, events[0], w);
      IdStays(Step(s, events[0]), events[1..], w);
    }
  }

  // ---- the critical sections on the object itself ----

  class Chan {
    var buf: Option<Msg>

    constructor ()
      ensures buf == None
    {
      buf := None;
    }

    /** ch <- msg on a channel of capacity one. */
    method Send(msg: Msg)
      requires buf.None?
      modifies this
      ensures buf == Some(msg)
    {
      buf := Some(msg);
    }
  }

  ghost predicate Apart(m: map<string, Chan>) {
    forall j, k :: j in m && k in m && j != k ==> m[j] != m[k]
  }

  class Backend {
    var nextID: nat
    var pending: map<string, Chan>

    /** Entries were made for numbers handed out, have their own channel each, and
        nothing was sent on it. */
    ghost predicate Valid()
      reads this, pending.Values
    {
      && (forall k :: k in pending ==> pending[k].buf == None)
      && Apart(pending)
      && (forall k :: k in pending ==> exists n :: 1 <= n <= nextID && k == Itoa(n))
    }

    constructor ()
      ensures Valid() && pending == map[] && nextID == 0
    {
      nextID, pending := 0, map[];
    }

    /** Request up to the write: a new id, registered with a new channel. */
    method Begin() returns (key: string, ch: Chan)
      requires Valid()
      modifies this
      ensures Valid() && fresh(ch) && nextID == old(nextID) + 1 && key == Itoa(nextID)
      ensures key !in old(pending) && pending == old(pending)[key := ch]
    {
      nextID := nextID + 1;
      key := Itoa(nextID);
      ch := new Chan();
      assert key !in pending by {
        if key in pending {
          var n :| 1 <= n <= nextID - 1 && key == Itoa(n);
          KeyInjective(n, nextID);
        }
      }
      pending := pending[key := ch];
    }

    /** A failed write or a cancelled context takes the entry out. */
    method Forget(key: string)
      requires Valid()
      modifies this`pending
      ensures Valid() && pending == old(pending) - {key}
    {
      pending := pending - {key};
    }

    /** One response in the read loop: its waiter, and nobody else, is sent it. */
    method Dispatch(msg: Msg)
      requires Valid()
      modifies this`pending, pending.Values
      ensures Valid() && pending == old(pending) - {msg.id}
      ensures msg.id in old(pending) ==> old(pending)[msg.id].buf == Some(msg)
      ensures forall k :: k in old(pending) && k != msg.id ==> old(pending)[k].buf == None
    {
      if msg.id in pending {
        var ch := pending[msg.id];
        pending := pending - {msg.id};
        ch.Send(msg);
      }
    }

    /** failPending: every entry is sent an error under its own id and deleted. */
    method FailPending(error: string)
      requires Valid()
      modifies this`pending, pending.Values
      ensures Valid() && pending == map[]
      ensures forall k :: k in old(pending) ==> old(pending)[k].buf == Some(Msg(k, error))
    {
      ghost var all := pending;
      while pending != map[]
        invariant Apart(all) && pending.Keys <= all.Keys && forall k :: k in pending ==> pending[k] == all[k]
        invariant forall k :: k in all ==> all[k].buf == if k in pending then None else Some(Msg(k, error))
        decreases pending.Keys
      {
        var key :| key in pending;
        pending[key].Send(Msg(key, error));
        pending := pending - {key};
      }
    }
  }
}
