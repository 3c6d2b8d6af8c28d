/** internal/dotfiles/manager.go together with internal/deployer/state.go: an apply that
    loads its state from the state file and saves it there. The file's keys are coded. */
module Persist {
  import opened Common
  import opened FileTree
  import opened Executor
  import opened Planner
  import opened Reconcile
  import Sorting
  import StateKeys
  import Text

  type StateMap = map<string, string>

  /** The name of a target, what it is stored under, and which target a stored key is
      read as; None is a key that names no absolute path. */
  datatype Codec = Codec(name: Path -> string, stored: Path -> string, read: string -> Option<Path>)

  /** The tree on disk and the state file. */
  datatype System = System(disk: Disk, saved: StateMap)

  function NameOf(p: Path): string {
    StateKeys.Show(StateKeys.Lexical(true, p))
  }

  predicate ReadBack(codec: Codec, t: Path) {
    codec.read(codec.stored(t)) == Some(t)
  }

  /** Load: every key under the target it is read as; of two keys for one target either
      may win. */
  ghost predicate LoadedAs(codec: Codec, saved: StateMap, loaded: Store) {
    && (forall r :: r in saved && codec.read(r).Some? ==> codec.read(r).value in loaded)
    && (forall t :: t in loaded ==> LoadedFrom(codec, saved, loaded, t))
  }

  ghost predicate LoadedFrom(codec: Codec, saved: StateMap, loaded: Store, t: Path)
    requires t in loaded
  {
    exists r :: r in saved && codec.read(r) == Some(t) && saved[r] == loaded[t]
  }

  /** t is a target stored under r, and none stored there is after it in string order. */
  predicate LastFor(codec: Codec, owned: Store, r: string, t: Path) {
    && t in owned && codec.stored(t) == r
    && forall u :: u in owned && codec.stored(u) == r ==> !Sorting.StringLess(codec.name(t), codec.name(u))
  }

  /** Save: every target under its key; of two targets for one key the last wins. */
  ghost predicate SavedAs(codec: Codec, owned: Store, saved: StateMap) {
    && (forall t :: t in owned ==> codec.stored(t) in saved)
    && (forall r :: r in saved ==> exists t :: LastFor(codec, owned, r, t) && saved[r] == owned[t])
  }

  /** Does an apply with this outcome write the state file? */
  predicate Saves(env: Env, c: Choice, loaded: Store, o: Outcome) {
    o == Applied || (o == NoChanges && !c.dryRun && Kept(env.ignore, loaded) != loaded)
  }

  /** The apply ended in r, as to outcome, tree and state, and saved that state if it saves. */
  ghost predicate Ends(env: Env, codec: Codec, c: Choice, loaded: Store, r: (Outcome, Sys), s: System, o: Outcome,
                       s': System) {
    && o == r.0 && s'.disk == r.1.disk
    && if Saves(env, c, loaded, o) then SavedAs(codec, r.1.store, s'.saved) else s'.saved == s.saved
  }

  /** One apply: load, then what Reconcile describes, then save. */
  ghost predicate Transition(env: Env, codec: Codec, files: Files, c: Choice, loaded: Store, s: System, o: Outcome,
                             s': System) {
    && (c.loadOk ==> LoadedAs(codec, s.saved, loaded))
    && Ends(env, codec, c, loaded, Reconcile.Apply(env, files, c, Sys(s.disk, loaded)), s, o, s')
  }

  predicate Success(c: Choice, o: Outcome) {
    !c.dryRun && o in {NoChanges, Applied}
  }

  /** An apply with work that is stopped before it, by a before hook that fails or else,
      leaves tree and state file as they are. */
  lemma StoppedBefore(env: Env, codec: Codec, files: Files, c: Choice, loaded: Store, s: System, o: Outcome, s': System)
    requires Transition(env, codec, files, c, loaded, s, o, s') && WorkOf(env, files, Sys(s.disk, loaded)) != map[]
    requires !c.hooksOk || c.dryRun || !c.loadOk || PlanFails(env, files, s.disk, Kept(env.ignore, loaded))
    ensures s' == s && !Success(c, o)
  {
    HookStops(env, files, c, Sys(s.disk, loaded));
  }

  /** All keys that are read as one target say the same of it. */
  predicate Unambiguous(codec: Codec, saved: StateMap) {
    forall r, q :: r in saved && q in saved && codec.read(r).Some? && codec.read(r) == codec.read(q) ==>
      saved[r] == saved[q]
  }

  // ---- what a load gives after a save ----

  lemma SameKeys(codec: Codec, saved: StateMap, a: Store, b: Store)
    requires LoadedAs(codec, saved, a) && LoadedAs(codec, saved, b)
    ensures a.Keys == b.Keys
  {
    forall t | t in a ensures t in b {
      assert LoadedFrom(codec, saved, a, t);
    }
    forall t | t in b ensures t in a {
      assert LoadedFrom(codec, saved, b, t);
    }
  }

  lemma SameLoad(codec: Codec, saved: StateMap, a: Store, b: Store)
    requires LoadedAs(codec, saved, a) && LoadedAs(codec, saved, b) && Unambiguous(codec, saved)
    ensures a == b
  {
    SameKeys(codec, saved, a, b);
    forall t | t in a ensures a[t] == b[t] {
      assert LoadedFrom(codec, saved, a, t) && LoadedFrom(codec, saved, b, t);
    }
  }

  /** What is loaded is the note of a target whose key, where it was the last, is read as
      t. */
  lemma LoadOfSave(codec: Codec, owned: Store, saved: StateMap, loaded: Store, t: Path) returns (u: Path)
    requires SavedAs(codec, owned, saved) && LoadedAs(codec, saved, loaded) && t in loaded
    ensures LastFor(codec, owned, codec.stored(u), u) && codec.read(codec.stored(u)) == Some(t) && loaded[t] == owned[u]
  {
    assert LoadedFrom(codec, saved, loaded, t);
    var r :| r in saved && codec.read(r) == Some(t) && saved[r] == loaded[t];
    u :| LastFor(codec, owned, r, u) && saved[r] == owned[u];
  }

  /** No other target is stored under t's key, and no other target's key is read as t. */
  predicate Alone(codec: Codec, owned: Store, t: Path) {
    forall u :: u in owned && u != t ==> codec.stored(u) != codec.stored(t) && codec.read(codec.stored(u)) != Some(t)
  }

  /** A target by itself in that sense is remembered exactly if its key is read back. */
  lemma RememberedExactly(codec: Codec, owned: Store, saved: StateMap, loaded: Store, t: Path)
    requires SavedAs(codec, owned, saved) && LoadedAs(codec, saved, loaded) && t in owned && Alone(codec, owned, t)
    ensures t in loaded <==> ReadBack(codec, t)
    ensures Recorded(loaded, t) == Some(owned[t]) <==> ReadBack(codec, t)
  {
    assert codec.stored(t) in saved;
    if t in loaded {
      var u := LoadOfSave(codec, owned, saved, loaded, t);
    }
  }

  /** If all keys are read back a load gives what was saved. */
  lemma LoadAfterSave(codec: Codec, owned: Store, saved: StateMap, loaded: Store)
    requires SavedAs(codec, owned, saved) && LoadedAs(codec, saved, loaded)
    requires forall t :: t in owned ==> ReadBack(codec, t)
    ensures loaded == owned
  {
    forall t | t in owned ensures t in loaded {
      assert ReadBack(codec, t) && codec.stored(t) in saved;
    }
    forall t | t in loaded ensures t in owned && loaded[t] == owned[t] {
      var u := LoadOfSave(codec, owned, saved, loaded, t);
      assert ReadBack(codec, u);
    }
  }

  predicate AllReadBack(env: Env, codec: Codec, files: Files) {
    forall t :: t in files && !env.ignore(t) ==> ReadBack(codec, t)
  }

  /** After a successful apply the state file holds the non-ignored desired files, or it
      was left alone and that is what it was loaded as. */
  lemma StateFileExact(env: Env, codec: Codec, files: Files, c: Choice, loaded: Store, s: System, o: Outcome,
                       s': System)
    requires Transition(env, codec, files, c, loaded, s, o, s') && Success(c, o)
    ensures Saves(env, c, loaded, o) ==> SavedAs(codec, OwnedBy(env, files), s'.saved)
    ensures !Saves(env, c, loaded, o) ==> s'.saved == s.saved && loaded == OwnedBy(env, files)
    ensures c.loadOk && Succeeds(env, files, c, Sys(s.disk, loaded))
  {
    ExactState(env, files, c, Sys(s.disk, loaded));
  }

  /** So the next load finds exactly their targets, if their keys are read back, and
      exactly their notes, unless an old file that was left alone was ambiguous. */
  lemma NextLoad(env: Env, codec: Codec, files: Files, c: Choice, loaded: Store, s: System, o: Outcome, s': System,
                 next: Store)
    requires Transition(env, codec, files, c, loaded, s, o, s') && Success(c, o)
    requires AllReadBack(env, codec, files) && LoadedAs(codec, s'.saved, next)
    ensures next.Keys == OwnedBy(env, files).Keys
    ensures Saves(env, c, loaded, o) || Unambiguous(codec, s.saved) ==> next == OwnedBy(env, files)
  {
    StateFileExact(env, codec, files, c, loaded, s, o, s');
    if Saves(env, c, loaded, o) {
      LoadAfterSave(codec, OwnedBy(env, files), s'.saved, next);
    } else {
      SameKeys(codec, s.saved, loaded, next);
      if Unambiguous(codec, s.saved) {
        SameLoad(codec, s.saved, loaded, next);
      }
    }
  }

  // ---- the next apply ----

  /** Idempotence, exactly: where the state was written and t's key stands by itself, the
      next plan has no work at t if and only if t is ignored and looks as desired, or its
      key is read back and it has a fingerprint or looks as desired. */
  lemma SecondPlan(env: Env, env': Env, codec: Codec, files: Files, c: Choice, loaded: Store, s: System, o: Outcome,
                   s': System, next: Store, t: Path)
    requires Transition(env, codec, files, c, loaded, s, o, s') && Success(c, o) && Saves(env, c, loaded, o)
    requires Compatible(env, files, Sys(s.disk, loaded)) && LoadedAs(codec, s'.saved, next)
    requires env'.ignore == env.ignore && env'.hash == env.hash && !env'.noCache
    requires t in files && Alone(codec, OwnedBy(env, files), t)
    ensures DecideAt(env', files, s'.disk, Kept(env.ignore, next), t) == Planned(Noop) <==>
              var alike := SeenAlike(env', files, WorkOf(env, files, Sys(s.disk, loaded)), t);
              if env.ignore(t) then alike else ReadBack(codec, t) && (IsBundle(files[t].info) || alike)
  {
    StateFileExact(env, codec, files, c, loaded, s, o, s');
    NextPlan(env, env', files, c, Sys(s.disk, loaded), next, t);
    if !env.ignore(t) {
      RememberedExactly(codec, OwnedBy(env, files), s'.saved, next, t);
    }
  }

  /** Every target can be told to be as desired, given that it is remembered. */
  predicate AllTold(env: Env, env': Env, files: Files, loaded: Store, disk: Disk) {
    forall t :: t in files ==>
      || (!env.ignore(t) && IsBundle(files[t].info))
      || SeenAlike(env', files, WorkOf(env, files, Sys(disk, loaded)), t)
  }

  /** A second apply, whatever it loads, then plans nothing and changes neither the tree
      nor the state file. */
  lemma SecondApplyIsIdle(env: Env, env': Env, codec: Codec, files: Files, c: Choice, loaded: Store, s: System,
                          o: Outcome, s': System, c': Choice, next: Store, o': Outcome, s'': System)
    requires Transition(env, codec, files, c, loaded, s, o, s') && Success(c, o)
    requires Saves(env, c, loaded, o) || Unambiguous(codec, s.saved)
    requires Compatible(env, files, Sys(s.disk, loaded)) && AllReadBack(env, codec, files)
    requires env'.ignore == env.ignore && env'.hash == env.hash && !env'.noCache
    requires AllTold(env, env', files, loaded, s.disk)
    requires Transition(env', codec, files, c', next, s', o', s'') && c'.loadOk
    ensures o' == NoChanges && s'' == s'
  {
    var work := WorkOf(env, files, Sys(s.disk, loaded));
    NextLoad(env, codec, files, c, loaded, s, o, s', next);
    StateFileExact(env, codec, files, c, loaded, s, o, s');
    forall t | t in files ensures UpToDate(env', files, work, next, t) {
      assert !env.ignore(t) ==> t in OwnedBy(env, files) && next[t] == files[t].info;
    }
    IdleAgain(env, env', files, c, c', Sys(s.disk, loaded), next);
  }

  // ---- a key that is not read back ----

  /** If t's key is read as q, the next plan removes q, which nobody desired, and writes
      t again, although nothing was edited. */
  lemma LostKey(env: Env, env': Env, codec: Codec, files: Files, c: Choice, loaded: Store, s: System, o: Outcome,
                s': System, next: Store, t: Path, q: Path)
    requires Transition(env, codec, files, c, loaded, s, o, s') && Success(c, o) && Saves(env, c, loaded, o)
    requires Compatible(env, files, Sys(s.disk, loaded)) && LoadedAs(codec, s'.saved, next)
    requires env'.ignore == env.ignore && env'.hash == env.hash && !env'.noCache
    requires t in files && !env.ignore(t) && Alone(codec, OwnedBy(env, files), t)
    requires codec.read(codec.stored(t)) == Some(q) && q != t && q !in files && !env.ignore(q)
    ensures var work := WorkOf(env', files, Sys(s'.disk, next));
            && q in work && work[q] == Remove
            && DecideAt(env', files, s'.disk, Kept(env.ignore, next), t) != Planned(Noop)
  {
    StateFileExact(env, codec, files, c, loaded, s, o, s');
    assert codec.stored(t) in s'.saved;
    SecondPlan(env, env', codec, files, c, loaded, s, o, s', next, t);
  }

  /** If that next apply succeeds q is gone. */
  lemma LostKeyDeletes(env: Env, files: Files, c: Choice, next: Store, s: System, q: Path)
    requires Compatible(env, files, Sys(s.disk, next)) && Succeeds(env, files, c, Sys(s.disk, next))
    requires q in WorkOf(env, files, Sys(s.disk, next)) && WorkOf(env, files, Sys(s.disk, next))[q] == Remove
    ensures q !in After(env, files, c, Sys(s.disk, next)).disk
  {
    TreeAfter(env, files, c, Sys(s.disk, next), q);
  }

  // ---- the codec of the state file ----

  predicate GoodPath(p: Path) {
    StateKeys.Canonical(StateKeys.Lexical(true, p))
  }

  function PathOf(s: string): Option<Path> {
    if StateKeys.Rooted(s) then Some(StateKeys.Parse(s).comps) else None
  }

  /** A codec of names, as one of targets. */
  function Named(stored: string -> string, read: string -> string): Codec {
    Codec(NameOf, t => stored(NameOf(t)), r => PathOf(read(r)))
  }

  /** RelToRoot and AbsFromRoot on the names of targets. */
  function FileCodec(root: string, keys: StateKeys.Env): Codec {
    Named(StateKeys.StoredUnder(root), StateKeys.ReadUnder(root, keys))
  }

  lemma NamesBack(p: Path)
    requires GoodPath(p)
    ensures StateKeys.CleanAbs(NameOf(p)) && PathOf(NameOf(p)) == Some(p)
  {
    StateKeys.SplitShow(StateKeys.Lexical(true, p));
    StateKeys.ParseShow(StateKeys.Lexical(true, p));
  }

  lemma NamesApart(p: Path, q: Path)
    requires GoodPath(p) && GoodPath(q) && NameOf(p) == NameOf(q)
    ensures p == q
  {
    NamesBack(p);
    NamesBack(q);
  }

  /** What is read is empty or a clean path. */
  ghost predicate ReadsClean(read: string -> string) {
    forall r :: read(r) == "" || StateKeys.Clean(read(r)) == read(r)
  }

  lemma FileReadsClean(root: string, keys: StateKeys.Env)
    ensures ReadsClean(StateKeys.ReadUnder(root, keys))
  {
    forall r ensures var a := StateKeys.ReadUnder(root, keys)(r); a == "" || StateKeys.Clean(a) == a {
      StateKeys.AbsIsClean(r, root, keys);
    }
  }

  /** A path that is read from a key is named by what the key leads to. */
  lemma NameRead(a: string, p: Path)
    requires (a == "" || StateKeys.Clean(a) == a) && PathOf(a) == Some(p)
    ensures GoodPath(p) && NameOf(p) == a
  {
    StateKeys.ParseCanonical(a);
  }

  lemma NamedReadBack(stored: string -> string, read: string -> string, t: Path)
    requires ReadsClean(read) && GoodPath(t)
    ensures ReadBack(Named(stored, read), t) <==> read(stored(NameOf(t))) == NameOf(t)
  {
    NamesBack(t);
    if ReadBack(Named(stored, read), t) {
      NameRead(read(stored(NameOf(t))), t);
    }
  }

  /** The premise of the results above, for the state file: a target whose key has no '$'
      and no leading "~" is read back exactly if neither its name nor its key has space
      at an end. */
  lemma KeyReadBack(root: string, keys: StateKeys.Env, t: Path)
    requires StateKeys.Sane(keys) && GoodPath(t)
    requires var r := StateKeys.RelToRoot(NameOf(t), root); '$' !in r && !StateKeys.Tilde(Text.TrimSpace(r))
    ensures ReadBack(FileCodec(root, keys), t) <==>
              Text.Trimmed(NameOf(t)) && Text.Trimmed(StateKeys.RelToRoot(NameOf(t), root))
  {
    FileReadsClean(root, keys);
    NamesBack(t);
    NamedReadBack(StateKeys.StoredUnder(root), StateKeys.ReadUnder(root, keys), t);
    StateKeys.KeyRoundTrip(NameOf(t), root, keys);
  }

  /** A store by the names of its targets, no two of which are the same. */
  ghost predicate ByName(name: Path -> string, named: StateMap, store: Store) {
    && (forall t :: t in store ==> name(t) in named && named[name(t)] == store[t])
    && (forall k :: k in named ==> exists t :: t in store && name(t) == k)
    && (forall t, u :: t in store && u in store && name(t) == name(u) ==> t == u)
  }

  /** The codec stores a target under what stored gives for its name. */
  ghost predicate StoresNames(codec: Codec, stored: string -> string, store: Store) {
    forall t :: t in store ==> codec.stored(t) == stored(codec.name(t))
  }

  /** The codec reads a key as the target named by what read gives. */
  ghost predicate ReadsNames(codec: Codec, read: string -> string, saved: StateMap, store: Store) {
    && (forall r :: r in saved ==> codec.read(r).Some? && codec.name(codec.read(r).value) == read(r))
    && (forall r, t :: r in saved && t in store && codec.name(t) == read(r) ==> codec.read(r) == Some(t))
  }

  /** Through names, saving is what FileStateStore.Save does. */
  lemma SaveIsFileSave(codec: Codec, stored: string -> string, owned: Store, named: StateMap, saved: StateMap)
    requires ByName(codec.name, named, owned) && StoresNames(codec, stored, owned)
    ensures SavedAs(codec, owned, saved) <==> StateKeys.SavedAs(named, saved, stored)
  {
    if SavedAs(codec, owned, saved) {
      SavedByName(codec, stored, owned, named, saved);
    }
    if StateKeys.SavedAs(named, saved, stored) {
      forall t | t in owned ensures codec.stored(t) in saved {
        assert stored(codec.name(t)) in saved;
      }
      forall r | r in saved ensures exists t :: LastFor(codec, owned, r, t) && saved[r] == owned[t] {
        var k :| StateKeys.LastFor(named, stored, r, k) && saved[r] == named[k];
        var t :| t in owned && codec.name(t) == k;
        SameLast(codec, stored, owned, named, r, t);
      }
    }
  }

  lemma SavedByName(codec: Codec, stored: string -> string, owned: Store, named: StateMap, saved: StateMap)
    requires ByName(codec.name, named, owned) && StoresNames(codec, stored, owned) && SavedAs(codec, owned, saved)
    ensures StateKeys.SavedAs(named, saved, stored)
  {
    forall k | k in named ensures stored(k) in saved {
      var t :| t in owned && codec.name(t) == k;
      assert codec.stored(t) in saved;
    }
    forall r | r in saved ensures exists k :: StateKeys.LastFor(named, stored, r, k) && saved[r] == named[k] {
      var t :| LastFor(codec, owned, r, t) && saved[r] == owned[t];
      SameLast(codec, stored, owned, named, r, t);
    }
  }

  lemma SameLast(codec: Codec, stored: string -> string, owned: Store, named: StateMap, r: string, t: Path)
    requires ByName(codec.name, named, owned) && StoresNames(codec, stored, owned) && t in owned
    ensures LastFor(codec, owned, r, t) <==> StateKeys.LastFor(named, stored, r, codec.name(t))
  {
    if LastFor(codec, owned, r, t) {
      forall k | k in named && stored(k) == r && k != codec.name(t) ensures Sorting.StringLess(k, codec.name(t)) {
        var u :| u in owned && codec.name(u) == k;
        assert codec.stored(u) == r;
        Sorting.StringTotal(k, codec.name(t));
      }
    }
    if StateKeys.LastFor(named, stored, r, codec.name(t)) {
      forall u | u in owned && codec.stored(u) == r ensures !Sorting.StringLess(codec.name(t), codec.name(u)) {
        assert stored(codec.name(u)) == r;
        Sorting.StringTotal(codec.name(u), codec.name(t));
      }
    }
  }

  /** And loading is what FileStateStore.Load does, where every key names an absolute
      path. */
  lemma LoadIsFileLoad(codec: Codec, read: string -> string, saved: StateMap, loaded: Store, named: StateMap)
    requires ByName(codec.name, named, loaded) && ReadsNames(codec, read, saved, loaded)
    ensures LoadedAs(codec, saved, loaded) <==> StateKeys.LoadedFrom(saved, named, read)
  {
    if LoadedAs(codec, saved, loaded) {
      forall r | r in saved ensures read(r) in named {
        assert codec.read(r).value in loaded;
      }
      forall k | k in named ensures exists r :: r in saved && read(r) == k && saved[r] == named[k] {
        var t :| t in loaded && codec.name(t) == k;
        assert LoadedFrom(codec, saved, loaded, t);
        var r :| r in saved && codec.read(r) == Some(t) && saved[r] == loaded[t];
      }
    }
    if StateKeys.LoadedFrom(saved, named, read) {
      forall t | t in loaded ensures LoadedFrom(codec, saved, loaded, t) {
        assert codec.name(t) in named;
        var r :| r in saved && read(r) == codec.name(t) && saved[r] == named[codec.name(t)];
      }
      forall r | r in saved ensures codec.read(r).value in loaded {
        var t :| t in loaded && codec.name(t) == read(r);
      }
    }
  }

  /** Both premises hold of the codec of the state file. */
  lemma FileCodecNames(root: string, keys: StateKeys.Env, saved: StateMap, store: Store)
    requires forall t :: t in store ==> GoodPath(t)
    ensures StoresNames(FileCodec(root, keys), StateKeys.StoredUnder(root), store)
    ensures (forall r :: r in saved ==> StateKeys.Rooted(StateKeys.ReadUnder(root, keys)(r))) ==>
              ReadsNames(FileCodec(root, keys), StateKeys.ReadUnder(root, keys), saved, store)
    ensures forall t, u :: t in store && u in store && NameOf(t) == NameOf(u) ==> t == u
  {
    FileReadsClean(root, keys);
    NamedReads(StateKeys.StoredUnder(root), StateKeys.ReadUnder(root, keys), saved, store);
    forall t, u | t in store && u in store && NameOf(t) == NameOf(u) ensures t == u {
      NamesApart(t, u);
    }
  }

  lemma NamedReads(stored: string -> string, read: string -> string, saved: StateMap, store: Store)
    requires ReadsClean(read) && forall t :: t in store ==> GoodPath(t)
    ensures (forall r :: r in saved ==> StateKeys.Rooted(read(r))) ==>
              ReadsNames(Named(stored, read), read, saved, store)
  {
    if forall r :: r in saved ==> StateKeys.Rooted(read(r)) {
      forall r | r in saved ensures PathOf(read(r)).Some? && NameOf(PathOf(read(r)).value) == read(r) {
        NameRead(read(r), PathOf(read(r)).value);
      }
      forall r, t | r in saved && t in store && NameOf(t) == read(r) ensures PathOf(read(r)) == Some(t) {
        NamesBack(t);
      }
    }
  }

  // ---- the input ----

  const SPACED: Path := ["h", "foo "]
  const BARE: Path := ["h", "foo"]

  /** Under the root "/h" the key of "/h/foo " is read as "/h/foo". */
  lemma SpacedKey(keys: StateKeys.Env)
    requires StateKeys.Sane(keys)
    ensures var codec := FileCodec("/h", keys);
            codec.read(codec.stored(SPACED)) == Some(BARE)
  {
    SpacedStored();
    SpacedFacts();
    ReadAs("/h", keys, SPACED, "foo", BARE);
  }

  lemma SpacedFacts()
    ensures GoodPath(BARE) && Plain("foo") && Text.Trimmed(NameOf(BARE))
  {
    SpacedNames();
    assert Text.Trimmed("foo") && Text.Trimmed("/h/foo");
    Text.TrimTrimmed("foo");
  }

  predicate Plain(key: string) {
    '$' !in key && !StateKeys.Tilde(Text.TrimSpace(key)) && Text.Trimmed(key)
  }

  /** A target stored under the key of another one is read as that one. */
  lemma ReadAs(root: string, keys: StateKeys.Env, t: Path, key: string, q: Path)
    requires StateKeys.Sane(keys) && GoodPath(q) && Text.Trimmed(NameOf(q)) && Plain(key)
    requires StateKeys.RelToRoot(NameOf(t), root) == key && StateKeys.RelToRoot(NameOf(q), root) == key
    ensures var codec := FileCodec(root, keys); codec.read(codec.stored(t)) == Some(q)
  {
    NamesBack(q);
    StateKeys.KeyRoundTrip(NameOf(q), root, keys);
  }

  lemma SpacedStored()
    ensures StateKeys.RelToRoot(NameOf(SPACED), "/h") == StateKeys.RelToRoot(NameOf(BARE), "/h") == "foo"
  {
    SpacedNames();
    assert Text.TrimSpace("/h/foo ") == "/h/foo" by {
      assert "/h/foo "[..6] == "/h/foo" && Text.Trimmed("/h/foo");
      Text.TrimTrimmed("/h/foo");
    }
    Text.TrimTrimmed("/h/foo");
    Text.TrimTrimmed("/h");
    BareParses();
  }

  lemma BareParses()
    ensures StateKeys.Parse("/h/foo") == StateKeys.Lexical(true, BARE)
    ensures StateKeys.Parse("/h") == StateKeys.Lexical(true, ["h"])
    ensures StateKeys.Show(StateKeys.Lexical(false, ["foo"])) == "foo"
  {
    SpacedNames();
    StateKeys.ParseShow(StateKeys.Lexical(true, BARE));
    StateKeys.ParseShow(StateKeys.Lexical(true, ["h"]));
  }

  lemma SpacedNames()
    ensures NameOf(SPACED) == "/h/foo " && NameOf(BARE) == "/h/foo" && NameOf(["h"]) == "/h"
  {
    assert SPACED[1..] == ["foo "] && BARE[1..] == ["foo"];
  }

  /** A file whose name ends in a space: after it has been applied from an empty state, the
      next apply writes it again and removes the file without the space, which nobody
      desired or recorded. */
  lemma SpacedFileLost(env: Env, env': Env, keys: StateKeys.Env, f: SourceFile, c: Choice, s: System, o: Outcome,
                       s': System, next: Store)
    requires StateKeys.Sane(keys) && s.saved == map[] && !env.ignore(SPACED) && !env.ignore(BARE)
    requires Transition(env, FileCodec("/h", keys), map[SPACED := f], c, map[], s, o, s') && o == Applied
    requires LoadedAs(FileCodec("/h", keys), s'.saved, next)
    requires env'.ignore == env.ignore && env'.hash == env.hash && !env'.noCache
    ensures var files := map[SPACED := f];
            var work := WorkOf(env', files, Sys(s'.disk, next));
            && BARE in work && work[BARE] == Remove
            && DecideAt(env', files, s'.disk, Kept(env.ignore, next), SPACED) != Planned(Noop)
  {
    SpacedKey(keys);
    SpacedApart();
    OnlyFileLost(env, env', FileCodec("/h", keys), f, c, s, o, s', next, SPACED, BARE);
  }

  lemma SpacedApart()
    ensures SPACED != BARE
  {
    assert |SPACED[1]| != |BARE[1]|;
  }

  lemma OnlyFileLost(env: Env, env': Env, codec: Codec, f: SourceFile, c: Choice, s: System, o: Outcome, s': System,
                     next: Store, t: Path, q: Path)
    requires !env.ignore(t) && !env.ignore(q) && codec.read(codec.stored(t)) == Some(q) && q != t
    requires Transition(env, codec, map[t := f], c, map[], s, o, s') && o == Applied && LoadedAs(codec, s'.saved, next)
    requires env'.ignore == env.ignore && env'.hash == env.hash && !env'.noCache
    ensures var files := map[t := f];
            var work := WorkOf(env', files, Sys(s'.disk, next));
            && q in work && work[q] == Remove
            && DecideAt(env', files, s'.disk, Kept(env.ignore, next), t) != Planned(Noop)
  {
    AppliedSaves(env, codec, map[t := f], c, map[], s, o, s');
    assert Targets(env, map[t := f], Sys(s.disk, map[])) == {t};
    LostKey(env, env', codec, map[t := f], c, map[], s, o, s', next, t, q);
  }

  lemma AppliedSaves(env: Env, codec: Codec, files: Files, c: Choice, loaded: Store, s: System, o: Outcome, s': System)
    requires Transition(env, codec, files, c, loaded, s, o, s') && o == Applied
    ensures Success(c, o) && Saves(env, c, loaded, o)
  {
  }
}
