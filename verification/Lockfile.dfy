/** internal/modfile: the lock file's rows, the upserts that keep them keyed, the
    in-memory tool index beside them, and the merge of generated rows. */
module Lockfile {
  import opened Common
  import opened Text
  import Sorting
  import Keyed

  /** RenovateDependency; rest stands for the fields no code here looks at. */
  datatype Row = Row(
    kind: string,
    ref: string,
    depName: string,
    packageName: string,
    currentValue: string,
    currentDigest: string,
    currentVersion: string,
    datasource: string,
    versioning: string,
    rest: string
  )

  datatype LockedTool = LockedTool(
    ref: string,
    version: string,
    depName: string,
    datasource: string,
    packageName: string,
    versioning: string
  )

  // ---- one upsert, as a change of the rows ----

  /** A tool lock, or the enriched row of a source lock. */
  datatype Update = Tool(lock: LockedTool) | Source(row: Row)

  function KindOf(u: Update): string {
    if u.Tool? then "tool" else "source"
  }

  function RefOf(u: Update): string {
    if u.Tool? then u.lock.ref else u.row.ref
  }

  /** The row appended when there is none yet. */
  function FreshRow(u: Update): Row {
    match u
    case Tool(l) => Row("tool", l.ref, l.depName, l.packageName, l.version, "", "", l.datasource, l.versioning, "")
    case Source(r) => r
  }

  function Prefer(a: string, b: string): string {
    if a != "" then a else b
  }

  /** The field-by-field edit of an existing row. */
  function Edit(u: Update, d: Row): Row {
    match u
    case Tool(l) => d.(
      currentValue := l.version,
      depName := Prefer(l.depName, d.depName),
      datasource := Prefer(l.datasource, d.datasource),
      packageName := Prefer(l.packageName, d.packageName),
      versioning := Prefer(l.versioning, d.versioning))
    case Source(r) => d.(
      currentValue := r.currentValue,
      currentDigest := r.currentDigest,
      depName := Prefer(r.depName, d.depName),
      datasource := Prefer(r.datasource, d.datasource),
      packageName := Prefer(r.packageName, d.packageName),
      versioning := r.versioning)
  }

  predicate Hits(u: Update, d: Row) {
    d.kind == KindOf(u) && TrimSpace(d.ref) == RefOf(u)
  }

  function PutRow(rows: seq<Row>, u: Update): seq<Row> {
    if rows == [] then [FreshRow(u)]
    else if Hits(u, rows[0]) then [Edit(u, rows[0])] + rows[1..]
    else [rows[0]] + PutRow(rows[1..], u)
  }

  /** The row that the upsert writes is the row that it looks for. */
  predicate FindsItself(u: Update) {
    TrimSpace(RefOf(u)) == RefOf(u) && (u.Source? ==> u.row.kind == "source")
  }

  /** A usable key: not empty, no space at its ends. */
  predicate StableRef(u: Update) {
    RefOf(u) != "" && FindsItself(u)
  }

  predicate SameKey(a: Row, b: Row) {
    a.kind == b.kind && TrimSpace(a.ref) == TrimSpace(b.ref)
  }

  predicate Unique(rows: seq<Row>) {
    forall i, j :: 0 <= i < j < |rows| ==> !SameKey(rows[i], rows[j])
  }

  /** Where the upsert lands: the first hit, or past the end. */
  function Slot(rows: seq<Row>, u: Update): (k: nat)
    ensures k <= |rows|
    ensures forall i :: 0 <= i < k ==> !Hits(u, rows[i])
    ensures k < |rows| ==> Hits(u, rows[k])
  {
    if rows == [] || Hits(u, rows[0]) then 0 else 1 + Slot(rows[1..], u)
  }

  /** The whole effect: one row is edited or appended, no other row changes. */
  lemma {:induction false} PutRowAt(rows: seq<Row>, u: Update)
    ensures var k := Slot(rows, u);
            PutRow(rows, u) == if k < |rows| then rows[k := Edit(u, rows[k])] else rows + [FreshRow(u)]
  {
    if rows != [] && !Hits(u, rows[0]) {
      var rest := rows[1..];
      var k := Slot(rest, u);
      PutRowAt(rest, u);
      assert rows == [rows[0]] + rest;
      if k < |rest| {
        Keyed.ConsUpdate(rows[0], rest, k, Edit(u, rest[k]));
      } else {
        Keyed.ConsAppend(rows[0], rest, FreshRow(u));
      }
    }
  }

  // ---- what an upsert writes, field by field ----

  /** The update's word where it has one, else the old one. */
  predicate Chosen(now: string, update: string, was: string) {
    (update != "" ==> now == update) && (update == "" ==> now == was)
  }

  /** A tool row after an upsert that found it. */
  predicate ToolUpdated(l: LockedTool, was: Row, d: Row) {
    && d.kind == was.kind && d.ref == was.ref && d.currentValue == l.version
    && Chosen(d.depName, l.depName, was.depName)
    && Chosen(d.datasource, l.datasource, was.datasource)
    && Chosen(d.packageName, l.packageName, was.packageName)
    && Chosen(d.versioning, l.versioning, was.versioning)
    && d.currentDigest == was.currentDigest && d.currentVersion == was.currentVersion && d.rest == was.rest
  }

  predicate ToolAppended(l: LockedTool, d: Row) {
    && d.kind == "tool" && d.ref == l.ref && d.currentValue == l.version
    && d.depName == l.depName && d.datasource == l.datasource && d.packageName == l.packageName
    && d.versioning == l.versioning
    && d.currentDigest == "" && d.currentVersion == "" && d.rest == ""
  }

  predicate SourceUpdated(r: Row, was: Row, d: Row) {
    && d.kind == was.kind && d.ref == was.ref && d.currentValue == r.currentValue
    && d.currentDigest == r.currentDigest && d.versioning == r.versioning
    && Chosen(d.depName, r.depName, was.depName)
    && Chosen(d.datasource, r.datasource, was.datasource)
    && Chosen(d.packageName, r.packageName, was.packageName)
    && d.currentVersion == was.currentVersion && d.rest == was.rest
  }

  predicate Written(u: Update, was: Row, d: Row) {
    match u
    case Tool(l) => ToolUpdated(l, was, d)
    case Source(r) => SourceUpdated(r, was, d)
  }

  predicate Appended(u: Update, d: Row) {
    match u
    case Tool(l) => ToolAppended(l, d)
    case Source(r) => d == r
  }

  predicate OfKey(d: Row, kind: string, ref: string) {
    d.kind == kind && TrimSpace(d.ref) == ref
  }

  /** rows' is rows with the first row of the update's key written at k, or with a new
      row at its end where there is none. */
  ghost predicate Upserted(rows: seq<Row>, rows': seq<Row>, u: Update, k: nat) {
    var kind, ref := if u.Tool? then "tool" else "source", if u.Tool? then u.lock.ref else u.row.ref;
    && k <= |rows| && k < |rows'| && |rows'| == (if k < |rows| then |rows| else |rows| + 1)
    && (forall i :: 0 <= i < |rows| && i != k ==> rows'[i] == rows[i])
    && (forall i :: 0 <= i < k ==> !OfKey(rows[i], kind, ref))
    && if k < |rows| then OfKey(rows[k], kind, ref) && Written(u, rows[k], rows'[k]) else Appended(u, rows'[k])
  }

  /** So does every upsert. */
  lemma PutRowWrites(rows: seq<Row>, u: Update)
    ensures Upserted(rows, PutRow(rows, u), u, Slot(rows, u))
  {
    PutRowAt(rows, u);
    var k := Slot(rows, u);
    forall i | 0 <= i < k ensures !OfKey(rows[i], if u.Tool? then "tool" else "source", RefOf(u)) {
      assert !Hits(u, rows[i]);
    }
  }

  /** Afterwards a row of that key says what the update says. */
  lemma PutRowSays(rows: seq<Row>, u: Update) returns (d: Row)
    requires FindsItself(u)
    ensures d in PutRow(rows, u) && OfKey(d, if u.Tool? then "tool" else "source", RefOf(u))
    ensures u.Tool? ==> d.currentValue == u.lock.version
    ensures u.Source? ==>
              && d.currentValue == u.row.currentValue && d.currentDigest == u.row.currentDigest
              && d.versioning == u.row.versioning
  {
    PutRowWrites(rows, u);
    d := PutRow(rows, u)[Slot(rows, u)];
  }

  lemma PutRowOthers(rows: seq<Row>, u: Update, d: Row)
    requires StableRef(u) && Unique(rows) && !Hits(u, d)
    ensures d in PutRow(rows, u) <==> d in rows
  {
    PutRowAt(rows, u);
    var k := Slot(rows, u);
    if k < |rows| {
      forall i | 0 <= i < |rows| && i != k ensures PutRow(rows, u)[i] == rows[i] {}
      assert Hits(u, Edit(u, rows[k]));
      if d in rows {
        var i :| 0 <= i < |rows| && rows[i] == d;
        assert PutRow(rows, u)[i] == d;
      }
    }
  }

  /** Keys stay unique. */
  lemma PutRowUnique(rows: seq<Row>, u: Update)
    requires StableRef(u) && Unique(rows)
    ensures Unique(PutRow(rows, u))
  {
    PutRowAt(rows, u);
  }

  /** The same upsert again changes nothing. */
  lemma PutRowTwice(rows: seq<Row>, u: Update)
    requires FindsItself(u)
    ensures PutRow(PutRow(rows, u), u) == PutRow(rows, u)
  {
    PutRowAt(rows, u);
    var once, k := PutRow(rows, u), Slot(rows, u);
    PutRowAt(once, u);
    assert Hits(u, once[k]);
    assert Slot(once, u) == k;
    assert Edit(u, once[k]) == once[k];
  }

  /** And so it is exactly for upserts that find the row they write: any other one
      appends that row again. */
  lemma RepeatsExactly(u: Update)
    ensures FindsItself(u) <==> forall rows :: PutRow(PutRow(rows, u), u) == PutRow(rows, u)
    ensures !FindsItself(u) ==> PutRow(PutRow([], u), u) == [FreshRow(u), FreshRow(u)]
  {
    if FindsItself(u) {
      forall rows ensures PutRow(PutRow(rows, u), u) == PutRow(rows, u) {
        PutRowTwice(rows, u);
      }
    } else {
      TrimmedIsTrimmed(FreshRow(u).ref);
      TrimShorter(RefOf(u));
      assert !Hits(u, FreshRow(u));
      assert PutRow([], u) == [FreshRow(u)];
      assert [FreshRow(u)][1..] == [];
      var none: seq<Row> := [];
      assert PutRow(PutRow(none, u), u) == [FreshRow(u)] + PutRow(none, u);
      assert PutRow(PutRow(none, u), u) != PutRow(none, u);
    }
  }

  function CountSources(rows: seq<Row>): nat {
    if rows == [] then 0 else (if TrimSpace(rows[0].kind) == "source" then 1 else 0) + CountSources(rows[1..])
  }

  lemma {:induction false} PutRowCount(rows: seq<Row>, u: Update)
    ensures CountSources(rows) <= CountSources(PutRow(rows, u))
  {
    if rows != [] && !Hits(u, rows[0]) {
      PutRowCount(rows[1..], u);
    }
  }

  function SourceRows(rows: seq<Row>): set<nat> {
    set i: nat | i < |rows| && TrimSpace(rows[i].kind) == "source"
  }

  /** The number of source rows. */
  lemma {:induction false} CountsRows(rows: seq<Row>)
    ensures CountSources(rows) == |SourceRows(rows)|
  {
    if rows != [] {
      var n := |rows| - 1;
      CountsRows(rows[..n]);
      CountLast(rows[..n], rows[n]);
      assert rows == rows[..n] + [rows[n]];
      SourceRowsLast(rows[..n], rows[n]);
    }
  }

  lemma SourceRowsLast(rows: seq<Row>, d: Row)
    ensures |SourceRows(rows + [d])| == |SourceRows(rows)| + if TrimSpace(d.kind) == "source" then 1 else 0
  {
    assert |rows| !in SourceRows(rows);
    assert SourceRows(rows + [d]) == SourceRows(rows) + if TrimSpace(d.kind) == "source" then {|rows|} else {};
  }

  lemma {:induction false} CountLast(rows: seq<Row>, d: Row)
    ensures CountSources(rows + [d]) == CountSources(rows) + if TrimSpace(d.kind) == "source" then 1 else 0
  {
    if rows == [] {
      assert [] + [d] == [d] && [d][1..] == [];
    } else {
      assert (rows + [d])[1..] == rows[1..] + [d];
      CountLast(rows[1..], d);
    }
  }

  // ---- any series of upserts ----

  function PutAll(rows: seq<Row>, us: seq<Update>): seq<Row>
    decreases |us|
  {
    if us == [] then rows else PutAll(PutRow(rows, us[0]), us[1..])
  }

  predicate Stable(us: seq<Update>) {
    forall k :: 0 <= k < |us| ==> StableRef(us[k])
  }

  /** Over any series of upserts the number of source rows never falls. */
  lemma {:induction false} PutAllCount(rows: seq<Row>, us: seq<Update>)
    ensures CountSources(rows) <= CountSources(PutAll(rows, us))
    decreases |us|
  {
    if us != [] {
      PutRowCount(rows, us[0]);
      PutAllCount(PutRow(rows, us[0]), us[1..]);
    }
  }

  /** An upsert that has nothing to change. */
  predicate Settled(rows: seq<Row>, u: Update) {
    PutRow(rows, u) == rows
  }

  /** No two upserts of the series are for one key. */
  predicate OneEach(us: seq<Update>) {
    forall j, k :: 0 <= j < k < |us| ==> KindOf(us[j]) != KindOf(us[k]) || RefOf(us[j]) != RefOf(us[k])
  }

  lemma SettledAt(rows: seq<Row>, u: Update)
    ensures Settled(rows, u) <==> Slot(rows, u) < |rows| && Edit(u, rows[Slot(rows, u)]) == rows[Slot(rows, u)]
  {
    PutRowAt(rows, u);
    var k := Slot(rows, u);
    if k < |rows| {
      assert rows[k := Edit(u, rows[k])][k] == Edit(u, rows[k]);
      assert Edit(u, rows[k]) == rows[k] ==> rows[k := Edit(u, rows[k])] == rows;
    } else {
      assert |rows + [FreshRow(u)]| != |rows|;
    }
  }

  lemma EditKeepsKey(u: Update, v: Update, d: Row)
    ensures Hits(u, Edit(v, d)) <==> Hits(u, d)
  {
  }

  lemma SettledStays(rows: seq<Row>, u: Update, v: Update)
    requires Settled(rows, u) && (KindOf(u) != KindOf(v) || RefOf(u) != RefOf(v))
    ensures Settled(PutRow(rows, v), u)
  {
    SettledAt(rows, u);
    PutRowAt(rows, v);
    SettledBeside(rows, u, v, Slot(rows, u), Slot(rows, v));
  }

  lemma SettledBeside(rows: seq<Row>, u: Update, v: Update, k: nat, m: nat)
    requires k < |rows| && Slot(rows, u) == k && Edit(u, rows[k]) == rows[k] && k != m <= |rows|
    ensures Settled(if m < |rows| then rows[m := Edit(v, rows[m])] else rows + [FreshRow(v)], u)
  {
    var rows' := if m < |rows| then rows[m := Edit(v, rows[m])] else rows + [FreshRow(v)];
    forall i | 0 <= i < k ensures !Hits(u, rows'[i]) {
      if i == m {
        EditKeepsKey(u, v, rows[i]);
      }
    }
    assert rows'[k] == rows[k];
    SettledAt(rows', u);
  }

  predicate SettledAll(rows: seq<Row>, us: seq<Update>) {
    forall i :: 0 <= i < |us| ==> Settled(rows, us[i])
  }

  lemma SettledNext(rows: seq<Row>, done: seq<Update>, v: Update)
    requires SettledAll(rows, done) && OneEach(done + [v]) && FindsItself(v)
    ensures SettledAll(PutRow(rows, v), done + [v])
  {
    PutRowTwice(rows, v);
    forall i | 0 <= i < |done| ensures Settled(PutRow(rows, v), done[i]) {
      assert (done + [v])[i] == done[i] && (done + [v])[|done|] == v;
      SettledStays(rows, done[i], v);
    }
  }

  lemma OneEachFront(us: seq<Update>, k: nat)
    requires OneEach(us) && k <= |us|
    ensures OneEach(us[..k])
  {
  }

  lemma OneMoreSettled(rows: seq<Row>, us: seq<Update>, done: seq<Update>)
    requires us != [] && Stable(us) && OneEach(done + us) && SettledAll(rows, done)
    ensures SettledAll(PutRow(rows, us[0]), done + [us[0]])
  {
    assert (done + us)[..|done|+1] == done + [us[0]];
    OneEachFront(done + us, |done| + 1);
    SettledNext(rows, done, us[0]);
  }

  lemma {:induction false} AllSettled(rows: seq<Row>, us: seq<Update>, done: seq<Update>)
    requires Stable(us) && OneEach(done + us) && SettledAll(rows, done)
    ensures SettledAll(PutAll(rows, us), done + us)
    decreases |us|
  {
    if us == [] {
      assert done + us == done;
    } else {
      OneMoreSettled(rows, us, done);
      assert done + [us[0]] + us[1..] == done + us;
      AllSettled(PutRow(rows, us[0]), us[1..], done + [us[0]]);
    }
  }

  lemma {:induction false} NothingChanges(rows: seq<Row>, us: seq<Update>)
    requires SettledAll(rows, us)
    ensures PutAll(rows, us) == rows && !AnyChange(rows, us)
    decreases |us|
  {
    if us != [] {
      assert Settled(rows, us[0]);
      NothingChanges(rows, us[1..]);
    }
  }

  /** A series with one upsert a key, repeated, changes nothing. */
  lemma PutAllTwice(rows: seq<Row>, us: seq<Update>)
    requires Stable(us) && OneEach(us)
    ensures PutAll(PutAll(rows, us), us) == PutAll(rows, us) && !AnyChange(PutAll(rows, us), us)
  {
    assert [] + us == us;
    AllSettled(rows, us, []);
    NothingChanges(PutAll(rows, us), us);
  }

  /** Some upsert of the series changes the rows it finds. */
  predicate AnyChange(rows: seq<Row>, us: seq<Update>)
    decreases |us|
  {
    us != [] && (PutRow(rows, us[0]) != rows || AnyChange(PutRow(rows, us[0]), us[1..]))
  }

  /** Over any series of upserts keys stay unique, the number of source rows never
      falls, and rows whose key was never upserted are neither lost nor changed. */
  lemma {:induction false} PutAllKeeps(rows: seq<Row>, us: seq<Update>)
    requires Unique(rows) && Stable(us)
    ensures Unique(PutAll(rows, us))
    ensures CountSources(rows) <= CountSources(PutAll(rows, us))
    ensures forall d :: (forall k :: 0 <= k < |us| ==> !Hits(us[k], d)) ==> (d in PutAll(rows, us) <==> d in rows)
    decreases |us|
  {
    if us != [] {
      var next := PutRow(rows, us[0]);
      PutRowUnique(rows, us[0]);
      PutRowCount(rows, us[0]);
      PutAllKeeps(next, us[1..]);
      forall d | forall k :: 0 <= k < |us| ==> !Hits(us[k], d)
        ensures d in PutAll(rows, us) <==> d in rows
      {
        PutRowOthers(rows, us[0], d);
        assert forall k :: 0 <= k < |us[1..]| ==> us[1..][k] == us[k+1];
      }
    }
  }

  // ---- the tool index ----

  type ToolIndex = map<string, LockedTool>

  function RebuildKey(d: Row): string {
    if TrimSpace(d.ref) != "" then TrimSpace(d.ref) else TrimSpace(d.depName)
  }

  function RebuildVersion(d: Row): string {
    if TrimSpace(d.currentValue) != "" then TrimSpace(d.currentValue) else TrimSpace(d.currentVersion)
  }

  predicate Rebuilds(d: Row) {
    d.kind == "tool" && RebuildKey(d) != "" && RebuildVersion(d) != ""
  }

  function ToolOf(d: Row): LockedTool {
    LockedTool(RebuildKey(d), RebuildVersion(d), TrimSpace(d.depName), TrimSpace(d.datasource),
               TrimSpace(d.packageName), TrimSpace(d.versioning))
  }

  /** rebuildToolLocksFromDependencies: later rows win. */
  function Rebuild(rows: seq<Row>): ToolIndex {
    if rows == [] then map[]
    else
      var d := rows[|rows|-1];
      if Rebuilds(d) then Rebuild(rows[..|rows|-1])[RebuildKey(d) := ToolOf(d)] else Rebuild(rows[..|rows|-1])
  }

  /** The row stands in the index under key with that version: its ref, or without one its
      name, and its value, or without one its version. */
  predicate Tells(d: Row, key: string, version: string) {
    && d.kind == "tool" && key != "" && version != ""
    && (TrimSpace(d.ref) == key || (TrimSpace(d.ref) == "" && TrimSpace(d.depName) == key))
    && (TrimSpace(d.currentValue) == version
        || (TrimSpace(d.currentValue) == "" && TrimSpace(d.currentVersion) == version))
  }

  ghost predicate TellsOf(d: Row, key: string) {
    exists version :: Tells(d, key, version)
  }

  /** Row i tells of key, and none behind it does. */
  ghost predicate TellsLast(rows: seq<Row>, key: string, i: nat) {
    i < |rows| && TellsOf(rows[i], key) && forall j :: i < j < |rows| ==> !TellsOf(rows[j], key)
  }

  /** The lock of a row. */
  predicate LockOf(d: Row, key: string, t: LockedTool) {
    && Tells(d, key, t.version) && t.ref == key
    && t.depName == TrimSpace(d.depName) && t.datasource == TrimSpace(d.datasource)
    && t.packageName == TrimSpace(d.packageName) && t.versioning == TrimSpace(d.versioning)
  }

  /** The rebuilt index has the keys that some row tells of, each with the lock of the last
      such row. */
  lemma RebuildSays(rows: seq<Row>, key: string)
    ensures key in Rebuild(rows) <==> exists i: nat :: TellsLast(rows, key, i)
    ensures forall i: nat :: TellsLast(rows, key, i) ==> LockOf(rows[i], key, Rebuild(rows)[key])
  {
    forall i: nat ensures TellsLast(rows, key, i) <==> LastAs(rows, key, i) {
      forall j | i <= j < |rows| ensures TellsOf(rows[j], key) <==> RebuildsAs(rows[j], key) {
        TellsExactly(rows[j], key);
      }
    }
    forall i: nat | LastAs(rows, key, i) ensures key in Rebuild(rows) && LockOf(rows[i], key, Rebuild(rows)[key]) {
      LastRow(rows, key, i);
      TellsExactly(rows[i], key);
    }
    if key in Rebuild(rows) {
      var i := RowOfKey(rows, key);
    }
  }

  lemma {:induction false} RowOfKey(rows: seq<Row>, key: string) returns (i: nat)
    requires key in Rebuild(rows)
    ensures LastAs(rows, key, i)
  {
    var n := |rows| - 1;
    RebuildNext(rows[..n], rows[n], key);
    assert rows == rows[..n] + [rows[n]];
    if RebuildsAs(rows[n], key) {
      i := n;
    } else {
      i := RowOfKey(rows[..n], key);
      assert forall j :: i < j < n ==> rows[..n][j] == rows[j];
    }
  }

  lemma TellsExactly(d: Row, key: string)
    ensures TellsOf(d, key) <==> Rebuilds(d) && RebuildKey(d) == key
    ensures TellsOf(d, key) ==> Tells(d, key, RebuildVersion(d))
  {
    if Rebuilds(d) && RebuildKey(d) == key {
      assert Tells(d, key, RebuildVersion(d));
    }
  }

  /** UpsertTool's writes to the index. */
  function Indexed(index: ToolIndex, name: string, lock: LockedTool): ToolIndex {
    var stable := index[lock.ref := lock];
    if name != "" && name != lock.ref then stable[name := lock] else stable
  }

  /** The lock stands under its ref, and under the caller's name if there is one; nothing
      else changes. */
  lemma IndexedSays(index: ToolIndex, name: string, lock: LockedTool, key: string)
    ensures var r := Indexed(index, name, lock);
            if key == lock.ref || (name != "" && key == name) then key in r && r[key] == lock
            else (key in r <==> key in index) && (key in r ==> r[key] == index[key])
  {
  }

  function VersionIn(index: ToolIndex, key: string): Option<string> {
    if key in index then Some(index[key].version) else None
  }

  predicate IsTool(d: Row) {
    d.kind == "tool"
  }

  predicate HasRef(d: Row) {
    TrimSpace(d.ref) != ""
  }

  /** Among tool rows, one without a ref never follows one with a ref. */
  predicate StubsFirst(rows: seq<Row>) {
    forall i, j :: 0 <= i < j < |rows| && IsTool(rows[i]) && IsTool(rows[j]) && HasRef(rows[i]) ==> HasRef(rows[j])
  }

  /** The order that every load and every save apply. */
  predicate RefLess(a: Row, b: Row) {
    Sorting.StringLess(TrimSpace(a.ref), TrimSpace(b.ref))
  }

  /** The trimming that comes before it. */
  function Trimmed(rows: seq<Row>): seq<Row> {
    if rows == [] then []
    else
      var d := rows[0];
      [d.(kind := TrimSpace(d.kind), ref := TrimSpace(d.ref), depName := TrimSpace(d.depName),
          currentValue := TrimSpace(d.currentValue), datasource := TrimSpace(d.datasource),
          packageName := TrimSpace(d.packageName), versioning := TrimSpace(d.versioning))] + Trimmed(rows[1..])
  }

  /** Whatever the sorting algorithm does with equal refs. */
  lemma NormalizedStubsFirst(rows: seq<Row>, r: seq<Row>)
    requires multiset(r) == multiset(Trimmed(rows)) && Sorting.Ordered(r, RefLess)
    ensures StubsFirst(r)
  {
    forall i, j | 0 <= i < j < |r| && HasRef(r[i]) ensures HasRef(r[j]) {
      assert !RefLess(r[j], r[i]);
    }
  }

  /** The last row of a key decides. */
  lemma {:induction false} RebuildLast(rows: seq<Row>, k: nat)
    requires k < |rows| && Rebuilds(rows[k])
    requires forall j :: k < j < |rows| && rows[j].kind == "tool" ==> RebuildKey(rows[j]) != RebuildKey(rows[k])
    ensures VersionIn(Rebuild(rows), RebuildKey(rows[k])) == Some(RebuildVersion(rows[k]))
  {
    if k < |rows| - 1 {
      RebuildLast(rows[..|rows|-1], k);
    }
  }

  /** A row of another key, or one that is no tool, does not matter for key. */
  lemma {:induction false} RebuildElsewhere(rows: seq<Row>, k: nat, d: Row, key: string)
    requires k < |rows|
    requires rows[k].kind == d.kind && (d.kind == "tool" ==> RebuildKey(rows[k]) == RebuildKey(d) != key)
    ensures VersionIn(Rebuild(rows[k := d]), key) == VersionIn(Rebuild(rows), key)
  {
    var n := |rows| - 1;
    if k < n {
      RebuildElsewhere(rows[..n], k, d, key);
      assert rows[k := d][..n] == rows[..n][k := d];
    } else {
      assert rows[k := d][..n] == rows[..n];
    }
  }

  lemma PutRowStubsFirst(rows: seq<Row>, u: Update)
    requires StableRef(u) && StubsFirst(rows)
    ensures StubsFirst(PutRow(rows, u))
  {
    PutRowAt(rows, u);
  }

  predicate RebuildsAs(d: Row, key: string) {
    Rebuilds(d) && RebuildKey(d) == key
  }

  /** Row j is the last that rebuilds under key. */
  predicate LastAs(rows: seq<Row>, key: string, j: nat) {
    j < |rows| && RebuildsAs(rows[j], key) && forall i :: j < i < |rows| ==> !RebuildsAs(rows[i], key)
  }

  lemma {:induction false} LastRow(rows: seq<Row>, key: string, j: nat)
    requires LastAs(rows, key, j)
    ensures VersionIn(Rebuild(rows), key) == Some(RebuildVersion(rows[j]))
    ensures Rebuild(rows)[key] == ToolOf(rows[j])
  {
    var n := |rows| - 1;
    RebuildNext(rows[..n], rows[n], key);
    assert rows == rows[..n] + [rows[n]];
    if j < n {
      assert forall i :: j < i < n ==> rows[..n][i] == rows[i];
      assert !RebuildsAs(rows[n], key);
      LastRow(rows[..n], key, j);
    }
  }

  lemma RebuildNext(rows: seq<Row>, d: Row, key: string)
    ensures var index := Rebuild(rows + [d]);
            if RebuildsAs(d, key) then key in index && index[key] == ToolOf(d)
            else (key in index <==> key in Rebuild(rows)) && (key in index ==> index[key] == Rebuild(rows)[key])
  {
    assert (rows + [d])[..|rows|] == rows;
  }

  /** The last row behind the upserted one that rebuilds under its ref, if there is
      any, has the upserted version. */
  predicate LaterRowsAgree(rows: seq<Row>, u: Update)
    requires u.Tool?
  {
    forall j :: Slot(rows, u) < j < |rows| && LastAs(rows, RefOf(u), j) ==> RebuildVersion(rows[j]) == u.lock.version
  }

  predicate Usable(u: Update) {
    u.Tool? && StableRef(u) && u.lock.version != "" && TrimSpace(u.lock.version) == u.lock.version
  }

  /** Whatever the rows, a rebuild finds the version of a tool upsert exactly if no
      later row of the same ref overrules it. */
  lemma RebuildExactly(rows: seq<Row>, u: Update)
    requires Usable(u)
    ensures VersionIn(Rebuild(PutRow(rows, u)), RefOf(u)) == Some(u.lock.version) <==> LaterRowsAgree(rows, u)
  {
    var rows', k, key := PutRow(rows, u), Slot(rows, u), RefOf(u);
    PutRowTail(rows, u);
    var j := FindLast(rows', key, k);
    LastRow(rows', key, j);
    if j > k {
      LastMoves(rows', rows, key, k, j);
    } else {
      NoneLater(rows', rows, key, k);
    }
  }

  /** The row written, and those behind it. */
  lemma PutRowTail(rows: seq<Row>, u: Update)
    requires Usable(u)
    ensures var rows', k := PutRow(rows, u), Slot(rows, u);
            && k < |rows'| && |rows| <= |rows'| && (k < |rows| ==> |rows'| == |rows|)
            && (k == |rows| ==> |rows'| == k + 1)
            && RebuildsAs(rows'[k], RefOf(u)) && RebuildVersion(rows'[k]) == u.lock.version
            && forall i :: k < i < |rows'| ==> rows'[i] == rows[i]
  {
    PutRowAt(rows, u);
  }

  lemma LastMoves(rows': seq<Row>, rows: seq<Row>, key: string, k: nat, j: nat)
    requires LastAs(rows', key, j) && k < j && |rows'| == |rows| && forall i :: k < i < |rows'| ==> rows'[i] == rows[i]
    ensures forall i :: k < i < |rows| && LastAs(rows, key, i) <==> i == j
  {
    forall i | k < i < |rows| && LastAs(rows, key, i) ensures i == j {
      assert RebuildsAs(rows'[i], key) && RebuildsAs(rows[j], key);
    }
  }

  lemma NoneLater(rows': seq<Row>, rows: seq<Row>, key: string, k: nat)
    requires LastAs(rows', key, k) && |rows| <= |rows'| && forall i :: k < i < |rows| ==> rows'[i] == rows[i]
    ensures forall i :: k < i < |rows| ==> !LastAs(rows, key, i)
  {
    forall i | k < i < |rows| ensures !LastAs(rows, key, i) {
      assert !RebuildsAs(rows'[i], key);
    }
  }

  lemma FindLast(rows: seq<Row>, key: string, k: nat) returns (j: nat)
    requires k < |rows| && RebuildsAs(rows[k], key)
    ensures k <= j && LastAs(rows, key, j)
  {
    j := k;
    for i := k + 1 to |rows|
      invariant k <= j < i && RebuildsAs(rows[j], key) && forall m :: j < m < i ==> !RebuildsAs(rows[m], key)
    {
      if RebuildsAs(rows[i], key) {
        j := i;
      }
    }
  }

  /** With unique keys and stubs first nothing can overrule it. */
  lemma UniqueRowsAgree(rows: seq<Row>, u: Update)
    requires Usable(u) && Unique(rows) && StubsFirst(rows)
    ensures LaterRowsAgree(rows, u)
  {
    var k := Slot(rows, u);
    forall j | k < j < |rows| ensures !RebuildsAs(rows[j], RefOf(u)) {
      assert !SameKey(rows[k], rows[j]);
    }
  }

  lemma RebuildAfterPut(rows: seq<Row>, u: Update)
    requires Usable(u) && Unique(rows) && StubsFirst(rows)
    ensures VersionIn(Rebuild(PutRow(rows, u)), RefOf(u)) == Some(u.lock.version)
  {
    UniqueRowsAgree(rows, u);
    RebuildExactly(rows, u);
  }

  /** Any upsert leaves what a rebuild finds for the other keys. */
  lemma RebuildAfterPutElsewhere(rows: seq<Row>, u: Update, key: string)
    requires StableRef(u) && (u.Tool? ==> key != RefOf(u))
    ensures VersionIn(Rebuild(PutRow(rows, u)), key) == VersionIn(Rebuild(rows), key)
  {
    PutRowAt(rows, u);
    var k := Slot(rows, u);
    if k < |rows| {
      RebuildElsewhere(rows, k, Edit(u, rows[k]), key);
    } else {
      assert PutRow(rows, u)[..|rows|] == rows;
    }
  }

  /** One call on the object: an upsert, with the name the caller uses for a tool. */
  datatype Call = Call(name: string, update: Update)

  predicate CallOk(c: Call) {
    StableRef(c.update) && (c.update.Tool? ==> Usable(c.update))
  }

  predicate Shadows(c: Call, key: string) {
    c.update.Tool? && c.name == key && c.name != c.update.lock.ref
  }

  function RowsAfter(rows: seq<Row>, calls: seq<Call>): seq<Row> {
    if calls == [] then rows
    else PutRow(RowsAfter(rows, calls[..|calls|-1]), calls[|calls|-1].update)
  }

  function IndexAfter(index: ToolIndex, calls: seq<Call>): ToolIndex {
    if calls == [] then index
    else
      var before, c := IndexAfter(index, calls[..|calls|-1]), calls[|calls|-1];
      if c.update.Tool? then Indexed(before, c.name, c.update.lock) else before
  }

  /** The last call for key found no later row that overrules it; without such a call,
      index and rows agreed from the start. */
  predicate LastWriteStands(rows: seq<Row>, index: ToolIndex, calls: seq<Call>, key: string) {
    if calls == [] then VersionIn(index, key) == VersionIn(Rebuild(rows), key)
    else
      var front, u := calls[..|calls|-1], calls[|calls|-1].update;
      if u.Tool? && RefOf(u) == key then LaterRowsAgree(RowsAfter(rows, front), u)
      else LastWriteStands(rows, index, front, key)
  }

  ghost predicate CallsOk(calls: seq<Call>, key: string) {
    forall k :: 0 <= k < |calls| ==> CallOk(calls[k]) && !Shadows(calls[k], key)
  }

  /** Over any series of upserts on any rows, for a key that no alias shadows, the
      in-memory index and a rebuild from the rows know the same version exactly if the
      last write to that key stands. */
  lemma {:induction false} IndexAgreesExactly(rows: seq<Row>, index: ToolIndex, calls: seq<Call>, key: string)
    requires CallsOk(calls, key)
    ensures VersionIn(IndexAfter(index, calls), key) == VersionIn(Rebuild(RowsAfter(rows, calls)), key) <==>
              LastWriteStands(rows, index, calls, key)
  {
    if calls != [] {
      var front, c := calls[..|calls|-1], calls[|calls|-1];
      assert CallOk(c) && !Shadows(c, key);
      if c.update.Tool? {
        IndexedVersion(IndexAfter(index, front), c, key);
      }
      if c.update.Tool? && RefOf(c.update) == key {
        RebuildExactly(RowsAfter(rows, front), c.update);
      } else {
        RebuildAfterPutElsewhere(RowsAfter(rows, front), c.update, key);
        FrontOk(calls, key);
        IndexAgreesExactly(rows, index, front, key);
      }
    }
  }

  lemma FrontOk(calls: seq<Call>, key: string)
    requires calls != [] && CallsOk(calls, key)
    ensures CallsOk(calls[..|calls|-1], key)
  {
  }

  lemma IndexedVersion(index: ToolIndex, c: Call, key: string)
    requires !Shadows(c, key) && c.update.Tool?
    ensures VersionIn(Indexed(index, c.name, c.update.lock), key) ==
            if RefOf(c.update) == key then Some(c.update.lock.version) else VersionIn(index, key)
  {
  }

  lemma {:induction false} RowsStayKeyed(rows: seq<Row>, calls: seq<Call>)
    requires Unique(rows) && StubsFirst(rows) && (forall k :: 0 <= k < |calls| ==> CallOk(calls[k]))
    ensures Unique(RowsAfter(rows, calls)) && StubsFirst(RowsAfter(rows, calls))
  {
    if calls != [] {
      var front, u := calls[..|calls|-1], calls[|calls|-1].update;
      RowsStayKeyed(rows, front);
      assert CallOk(calls[|calls|-1]);
      PutRowUnique(RowsAfter(rows, front), u);
      PutRowStubsFirst(RowsAfter(rows, front), u);
    }
  }

  lemma {:induction false} LastWriteAlwaysStands(rows: seq<Row>, index: ToolIndex, calls: seq<Call>, key: string)
    requires Unique(rows) && StubsFirst(rows) && VersionIn(index, key) == VersionIn(Rebuild(rows), key)
    requires CallsOk(calls, key)
    ensures LastWriteStands(rows, index, calls, key)
  {
    if calls != [] {
      var front, c := calls[..|calls|-1], calls[|calls|-1];
      assert CallOk(c);
      FrontOk(calls, key);
      if c.update.Tool? && RefOf(c.update) == key {
        RowsStayKeyed(rows, front);
        UniqueRowsAgree(RowsAfter(rows, front), c.update);
      } else {
        LastWriteAlwaysStands(rows, index, front, key);
      }
    }
  }

  /** So they always agree on rows with unique keys and stubs first. */
  lemma IndexAgrees(rows: seq<Row>, index: ToolIndex, calls: seq<Call>, key: string)
    requires Unique(rows) && StubsFirst(rows) && VersionIn(index, key) == VersionIn(Rebuild(rows), key)
    requires CallsOk(calls, key)
    ensures VersionIn(IndexAfter(index, calls), key) == VersionIn(Rebuild(RowsAfter(rows, calls)), key)
  {
    LastWriteAlwaysStands(rows, index, calls, key);
    IndexAgreesExactly(rows, index, calls, key);
  }

  /** Rows that repeat a key, which nothing refuses: of two rows for one tool the
      upsert edits the first, and the rebuild reads the second. */
  lemma DuplicateRowsDisagree(a: Row, b: Row, lock: LockedTool)
    requires Usable(Tool(lock)) && a.kind == b.kind == "tool" && TrimSpace(a.ref) == TrimSpace(b.ref) == lock.ref
    requires RebuildVersion(b) != "" && RebuildVersion(b) != lock.version
    ensures VersionIn(Indexed(Rebuild([a, b]), lock.ref, lock), lock.ref)
              != VersionIn(Rebuild(PutRow([a, b], Tool(lock))), lock.ref)
  {
    var rows := [a, b];
    assert Hits(Tool(lock), rows[0]) && Slot(rows, Tool(lock)) == 0;
    assert LastAs(rows, lock.ref, 1);
    RebuildExactly(rows, Tool(lock));
  }

  // ---- the object ----

  datatype LockedSource = LockedSource(provider: string, path: string, repo: string, ref: string, url: string,
                                       hash: string, versioning: string)

  /** A source provider, as far as an upsert uses it. */
  datatype Provider = Provider(enrich: (Row, LockedSource) -> Row, canPersist: (Row, LockedSource) -> bool)

  function TrimTool(l: LockedTool): LockedTool {
    LockedTool(TrimSpace(l.ref), TrimSpace(l.version), TrimSpace(l.depName), TrimSpace(l.datasource),
               TrimSpace(l.packageName), TrimSpace(l.versioning))
  }

  predicate IsTrimmed(l: LockedTool, lock: LockedTool) {
    && l.ref == TrimSpace(lock.ref) && l.version == TrimSpace(lock.version)
    && l.depName == TrimSpace(lock.depName) && l.datasource == TrimSpace(lock.datasource)
    && l.packageName == TrimSpace(lock.packageName) && l.versioning == TrimSpace(lock.versioning)
  }

  function TrimSource(l: LockedSource): LockedSource {
    l.(provider := TrimSpace(l.provider), ref := TrimSpace(l.ref), hash := TrimSpace(l.hash), url := TrimSpace(l.url),
       repo := TrimSpace(l.repo))
  }

  const SOURCE_ROW := Row("source", "", "", "", "", "", "", "", "", "")

  /** The row a source lock is stored as, or None where the upsert declines. */
  function SourceRow(providers: map<string, Provider>, l: LockedSource): Option<Row> {
    if l.provider == "" || l.hash == "" || (l.ref == "" && l.url == "") then None
    else
      var known := l.provider in providers;
      var filled := if known then providers[l.provider].enrich(SOURCE_ROW, l) else SOURCE_ROW;
      var row := if TrimSpace(filled.ref) == "" then filled.(ref := l.ref, currentValue := l.ref) else filled;
      if (known && !providers[l.provider].canPersist(row, l)) || TrimSpace(row.ref) == "" then None else Some(row)
  }

  /** What the provider makes of a lock, or the blank row where there is no provider. */
  function FilledIn(providers: map<string, Provider>, l: LockedSource): Row {
    if l.provider in providers then providers[l.provider].enrich(SOURCE_ROW, l) else SOURCE_ROW
  }

  /** The row stored for a lock is what its provider fills in, with the lock's own ref and
      value where the provider gives no ref; it is declined exactly without a provider
      name, a hash, or both ref and url, without any ref, or where the provider does. */
  lemma StoredRow(providers: map<string, Provider>, l: LockedSource, row: Row)
    requires var filled := FilledIn(providers, l);
             && row.ref == (if TrimSpace(filled.ref) != "" then filled.ref else l.ref)
             && row.currentValue == (if TrimSpace(filled.ref) != "" then filled.currentValue else l.ref)
             && row.(ref := "", currentValue := "") == filled.(ref := "", currentValue := "")
    ensures SourceRow(providers, l).Some? ==> SourceRow(providers, l).value == row
    ensures SourceRow(providers, l).None? <==>
              || l.provider == "" || l.hash == "" || (l.ref == "" && l.url == "") || TrimSpace(row.ref) == ""
              || (l.provider in providers && !providers[l.provider].canPersist(row, l))
  {
  }

  /** Providers fill in a ref without space at its ends, or a blank one, and leave the
      kind as it is. */
  ghost predicate Tidy(providers: map<string, Provider>) {
    forall p, l :: p in providers ==> TidyRow(providers[p].enrich(SOURCE_ROW, l))
  }

  predicate TidyRow(row: Row) {
    row.kind == "source" && (TrimSpace(row.ref) == "" || TrimSpace(row.ref) == row.ref)
  }

  /** Then whatever row an upsert stores is one it finds again. */
  lemma TidyIsStable(providers: map<string, Provider>, lock: LockedSource)
    requires Tidy(providers) && SourceRow(providers, TrimSource(lock)).Some?
    ensures StableRef(Source(SourceRow(providers, TrimSource(lock)).value))
  {
    var l := TrimSource(lock);
    TrimmedIsTrimmed(lock.ref);
    TrimTrimmed(TrimSpace(lock.ref));
    if l.provider in providers {
      assert TidyRow(providers[l.provider].enrich(SOURCE_ROW, l));
    }
  }

  lemma {:induction false} TidyUpdates(providers: map<string, Provider>, entries: seq<LockedSource>)
    requires Tidy(providers)
    ensures Stable(UpdatesOf(providers, entries))
  {
    if entries != [] {
      TidyUpdates(providers, entries[1..]);
      if SourceRow(providers, TrimSource(entries[0])).Some? {
        TidyIsStable(providers, entries[0]);
      }
    }
  }

  /** A provider that fills in " x": the row it stores is never found again, so every
      call appends it once more and reports a change. */
  lemma UntidyDuplicates(rows: seq<Row>, row: Row, l: LockedSource)
    requires row == SOURCE_ROW.(ref := " x") && l.provider == "p" && l.hash != "" && l.ref != ""
    ensures var untidy := map["p" := Provider((_, _) => row, (_, _) => true)];
            SourceRow(untidy, l) == Some(row) && PutRow(rows, Source(row)) == rows + [row]
  {
    assert " x"[1..] == "x";
    TrimTrimmed("x");
    forall d ensures !Hits(Source(row), d) {
      TrimmedIsTrimmed(d.ref);
    }
    PutRowAt(rows, Source(row));
  }

  /** The rows the update closure upserts, entry by entry. */
  function UpdatesOf(providers: map<string, Provider>, entries: seq<LockedSource>): seq<Update> {
    if entries == [] then []
    else
      var r := SourceRow(providers, TrimSource(entries[0]));
      (if r.Some? then [Source(r.value)] else []) + UpdatesOf(providers, entries[1..])
  }

  lemma NextUpdate(providers: map<string, Provider>, entries: seq<LockedSource>, i: nat, rows: seq<Row>)
    requires i < |entries|
    ensures var r := SourceRow(providers, TrimSource(entries[i]));
            var us, next := UpdatesOf(providers, entries[i..]), UpdatesOf(providers, entries[i+1..]);
            var after := if r.None? then rows else PutRow(rows, Source(r.value));
            PutAll(rows, us) == PutAll(after, next) && AnyChange(rows, us) == (after != rows || AnyChange(after, next))
  {
    var r := SourceRow(providers, TrimSource(entries[i]));
    var next := UpdatesOf(providers, entries[i+1..]);
    assert entries[i..][1..] == entries[i+1..];
    if r.Some? {
      assert ([Source(r.value)] + next)[1..] == next;
    } else {
      assert [] + next == next;
    }
  }

  /** A second call of the update closure with the same entries, of which no two have
      one ref, finds nothing to change. */
  lemma UpdateTwice(providers: map<string, Provider>, entries: seq<LockedSource>, rows: seq<Row>)
    requires Tidy(providers) && OneEach(UpdatesOf(providers, entries))
    ensures var us := UpdatesOf(providers, entries);
            PutAll(PutAll(rows, us), us) == PutAll(rows, us) && !AnyChange(PutAll(rows, us), us)
  {
    TidyUpdates(providers, entries);
    PutAllTwice(rows, UpdatesOf(providers, entries));
  }

  class SumFile {
    var rows: seq<Row>
    var toolLocks: Option<ToolIndex>

    constructor (rows: seq<Row>)
      ensures this.rows == rows && toolLocks == None
    {
      this.rows, toolLocks := rows, None;
    }

    /** rebuildToolLocksFromDependencies. */
    method RebuildToolLocks() returns (index: ToolIndex)
      ensures index == Rebuild(rows)
    {
      index := map[];
      for i := 0 to |rows|
        invariant index == Rebuild(rows[..i])
      {
        assert rows[..i+1][..i] == rows[..i];
        var d := rows[i];
        if d.kind != "tool" {
          continue;
        }
        var key := TrimSpace(d.ref);
        if key == "" {
          key := TrimSpace(d.depName);
        }
        if key == "" {
          continue;
        }
        var version := TrimSpace(d.currentValue);
        if version == "" {
          version := TrimSpace(d.currentVersion);
        }
        if version == "" {
          continue;
        }
        index := index[key := ToolOf(d)];
      }
      assert rows[..|rows|] == rows;
    }

    /** The edit of the row found, one field at a time. */
    method EditRow(u: Update, was: Row) returns (d: Row, changed: bool)
      ensures d == Edit(u, was) && (changed <==> d != was)
    {
      d, changed := was, false;
      var value := if u.Tool? then u.lock.version else u.row.currentValue;
      if d.currentValue != value {
        d, changed := d.(currentValue := value), true;
      }
      if u.Source? && d.currentDigest != u.row.currentDigest {
        d, changed := d.(currentDigest := u.row.currentDigest), true;
      }
      var depName := if u.Tool? then u.lock.depName else u.row.depName;
      if depName != "" && d.depName != depName {
        d, changed := d.(depName := depName), true;
      }
      var datasource := if u.Tool? then u.lock.datasource else u.row.datasource;
      if datasource != "" && d.datasource != datasource {
        d, changed := d.(datasource := datasource), true;
      }
      var packageName := if u.Tool? then u.lock.packageName else u.row.packageName;
      if packageName != "" && d.packageName != packageName {
        d, changed := d.(packageName := packageName), true;
      }
      var versioning := if u.Tool? then u.lock.versioning else u.row.versioning;
      if (u.Source? || versioning != "") && d.versioning != versioning {
        d, changed := d.(versioning := versioning), true;
      }
    }

    /** The row loop of both upserts. */
    method PutInRows(u: Update) returns (changed: bool)
      modifies this`rows
      ensures rows == PutRow(old(rows), u)
      ensures changed <==> rows != old(rows)
      ensures exists k :: Upserted(old(rows), rows, u, k)
    {
      PutRowAt(rows, u);
      PutRowWrites(rows, u);
      for i := 0 to |rows|
        invariant rows == old(rows) && forall k :: 0 <= k < i ==> !Hits(u, rows[k])
      {
        var d := rows[i];
        if d.kind != KindOf(u) || TrimSpace(d.ref) != RefOf(u) {
          continue;
        }
        assert Slot(rows, u) == i;
        PutRowWrites(rows, u);
        d, changed := EditRow(u, d);
        rows := rows[i := d];
        assert rows[i] == d;
        return;
      }
      assert Slot(rows, u) == |rows|;
      rows := rows + [FreshRow(u)];
      assert |rows| == |old(rows)| + 1;
      return true;
    }

    method UpsertTool(name: string, lock: LockedTool) returns (changed: bool)
      modifies this
      ensures changed <==> rows != old(rows)
      ensures var l := TrimTool(lock);
              if l.ref == "" || l.version == "" then rows == old(rows) && toolLocks == old(toolLocks)
              else
                && rows == PutRow(old(rows), Tool(l))
                && toolLocks == Some(Indexed(
                     if old(toolLocks).Some? then old(toolLocks).value else Rebuild(old(rows)), TrimSpace(name), l))
      ensures TrimSpace(lock.ref) != "" && TrimSpace(lock.version) != "" ==>
                exists l, k :: IsTrimmed(l, lock) && Upserted(old(rows), rows, Tool(l), k)
    {
      var l := TrimTool(lock);
      if l.ref == "" || l.version == "" {
        return false;
      }
      var index: ToolIndex;
      if toolLocks.None? {
        index := RebuildToolLocks();
      } else {
        index := toolLocks.value;
      }
      index := index[l.ref := l];
      var alias := TrimSpace(name);
      if alias != "" && alias != l.ref {
        index := index[alias := l];
      }
      toolLocks := Some(index);
      changed := PutInRows(Tool(l));
    }

    method UpsertSource(providers: map<string, Provider>, lock: LockedSource) returns (changed: bool)
      modifies this`rows
      ensures changed <==> rows != old(rows)
      ensures var r := SourceRow(providers, TrimSource(lock));
              && (rows == if r.None? then old(rows) else PutRow(old(rows), Source(r.value)))
              && (Tidy(providers) && r.Some? ==> PutRow(rows, Source(r.value)) == rows)
              && (r.Some? ==> exists k :: Upserted(old(rows), rows, Source(r.value), k))
      ensures Tidy(providers) && Unique(old(rows)) ==> Unique(rows)
    {
      var l := TrimSource(lock);
      if l.provider == "" || l.hash == "" {
        return false;
      }
      if l.ref == "" && l.url == "" {
        return false;
      }
      var row := SOURCE_ROW;
      var known := l.provider in providers;
      if known {
        row := providers[l.provider].enrich(row, l);
      }
      if TrimSpace(row.ref) == "" {
        row := row.(ref := l.ref, currentValue := l.ref);
      }
      if known && !providers[l.provider].canPersist(row, l) {
        return false;
      }
      if TrimSpace(row.ref) == "" {
        return false;
      }
      changed := PutInRows(Source(row));
      ghost var u := Source(row);
      if Tidy(providers) {
        TidyIsStable(providers, lock);
        PutRowTwice(old(rows), u);
        if Unique(old(rows)) {
          PutRowUnique(old(rows), u);
        }
      }
    }

    method CountSourceDependencies() returns (n: nat)
      ensures n == CountSources(rows)
    {
      n := 0;
      for i := 0 to |rows|
        invariant n + CountSources(rows[i..]) == CountSources(rows)
      {
        assert rows[i..][1..] == rows[i+1..];
        if TrimSpace(rows[i].kind) == "source" {
          n := n + 1;
        }
      }
    }

    /** The update closure of GenerateLockWithConfig: its shrink guard never fires. */
    method UpdateSources(providers: map<string, Provider>, entries: seq<LockedSource>)
        returns (changed: bool, shrunk: bool)
      modifies this`rows
      ensures rows == PutAll(old(rows), UpdatesOf(providers, entries))
      ensures changed == AnyChange(old(rows), UpdatesOf(providers, entries))
      ensures !shrunk && CountSources(old(rows)) <= CountSources(rows)
      ensures Tidy(providers) && Unique(old(rows)) ==> Unique(rows)
    {
      var before := CountSourceDependencies();
      changed := false;
      assert entries[0..] == entries;
      for i := 0 to |entries|
        invariant before == CountSources(old(rows)) <= CountSources(rows)
        invariant Tidy(providers) && Unique(old(rows)) ==> Unique(rows)
        invariant PutAll(rows, UpdatesOf(providers, entries[i..])) == PutAll(old(rows), UpdatesOf(providers, entries))
        invariant (changed || AnyChange(rows, UpdatesOf(providers, entries[i..])))
               == AnyChange(old(rows), UpdatesOf(providers, entries))
      {
        var r := SourceRow(providers, TrimSource(entries[i]));
        if r.Some? {
          PutRowCount(rows, Source(r.value));
        }
        NextUpdate(providers, entries, i, rows);
        var c := UpsertSource(providers, entries[i]);
        changed := changed || c;
      }
      assert entries[|entries|..] == [];
      var after := CountSourceDependencies();
      shrunk := after < before;
    }
  }

  // ---- renovate.go: merging generated rows into existing ones ----

  function MergeKey(d: Row): string {
    if TrimSpace(d.kind) != "" && TrimSpace(d.ref) != "" then TrimSpace(d.kind) + ":" + TrimSpace(d.ref)
    else if TrimSpace(d.datasource) != "" && TrimSpace(d.depName) != ""
      then TrimSpace(d.datasource) + ":" + TrimSpace(d.depName)
    else ""
  }

  predicate MergeLess(a: Row, b: Row) {
    if a.kind != b.kind then Sorting.StringLess(a.kind, b.kind)
    else if a.ref != b.ref then Sorting.StringLess(a.ref, b.ref)
    else if a.datasource != b.datasource then Sorting.StringLess(a.datasource, b.datasource)
    else Sorting.StringLess(a.depName, b.depName)
  }

  /** The rows that survive, before sorting. */
  function Survivors(existing: seq<Row>, generated: seq<Row>): seq<Row> {
    Keyed.LastWins(existing + generated, MergeKey)
  }

  /** MergeRenovateDependencies, with a stable sort for sort.Slice. */
  method MergeRenovateDependencies(existing: seq<Row>, generated: seq<Row>) returns (out: seq<Row>)
    ensures out == Sorting.Sort(Survivors(existing, generated), MergeLess)
  {
    var index: map<string, nat>;
    out, index := Keyed.MergeInto([], existing, [], map[], MergeKey);
    assert [] + existing == existing;
    out, index := Keyed.MergeInto(existing, generated, out, index, MergeKey);
    out := Sorting.Sort(out, MergeLess);
  }

  lemma MergeOrder()
    ensures Sorting.StrictWeak(MergeLess)
  {
    forall a, b | MergeLess(a, b) ensures !MergeLess(b, a) {
      Sorting.StringTotal(a.kind, b.kind);
      Sorting.StringTotal(a.ref, b.ref);
      Sorting.StringTotal(a.datasource, b.datasource);
      Sorting.StringTotal(a.depName, b.depName);
    }
    forall a, b, c | MergeLess(a, c) ensures MergeLess(a, b) || MergeLess(b, c) {
      MergeSplit(a, b, c);
    }
  }

  lemma MergeSplit(a: Row, b: Row, c: Row)
    requires MergeLess(a, c)
    ensures MergeLess(a, b) || MergeLess(b, c)
  {
    if a.kind != c.kind {
      Sorting.StringSplit(a.kind, b.kind, c.kind);
    } else if a.ref != c.ref {
      Sorting.StringSplit(a.ref, b.ref, c.ref);
    } else if a.datasource != c.datasource {
      Sorting.StringSplit(a.datasource, b.datasource, c.datasource);
    } else {
      Sorting.StringSplit(a.depName, b.depName, c.depName);
    }
    Sorting.StringTotal(a.kind, b.kind);
    Sorting.StringTotal(a.ref, b.ref);
    Sorting.StringTotal(a.datasource, b.datasource);
  }

  /** Rows that tie in the sort have the same key. */
  lemma TiesShareKey(x: Row, y: Row)
    requires !MergeLess(x, y) && !MergeLess(y, x)
    ensures MergeKey(x) == MergeKey(y)
  {
    Sorting.StringTotal(x.kind, y.kind);
    Sorting.StringTotal(x.ref, y.ref);
    Sorting.StringTotal(x.datasource, y.datasource);
    Sorting.StringTotal(x.depName, y.depName);
  }

  /** a may stand before b: by kind, ref, datasource and name. */
  predicate InMergeOrder(a: Row, b: Row) {
    && !Sorting.StringLess(b.kind, a.kind)
    && (a.kind == b.kind ==> !Sorting.StringLess(b.ref, a.ref))
    && (a.kind == b.kind && a.ref == b.ref ==> !Sorting.StringLess(b.datasource, a.datasource))
    && (a.kind == b.kind && a.ref == b.ref && a.datasource == b.datasource ==>
          !Sorting.StringLess(b.depName, a.depName))
  }

  lemma MergeLessOrders(a: Row, b: Row)
    requires !MergeLess(b, a)
    ensures InMergeOrder(a, b)
  {
    Sorting.StringTotal(a.kind, b.kind);
    Sorting.StringTotal(a.ref, b.ref);
    Sorting.StringTotal(a.datasource, b.datasource);
  }

  /** What a row is identified by: kind and ref, or where one is blank datasource and
      name. */
  predicate Identified(d: Row, x: string, y: string) {
    var kind, ref := TrimSpace(d.kind), TrimSpace(d.ref);
    && x != "" && y != ""
    && ((x == kind && y == ref)
        || ((kind == "" || ref == "") && x == TrimSpace(d.datasource) && y == TrimSpace(d.depName)))
  }

  ghost predicate HasIdentity(d: Row) {
    exists x, y :: Identified(d, x, y)
  }

  ghost predicate SameIdentity(a: Row, b: Row) {
    exists x, y :: Identified(a, x, y) && Identified(b, x, y)
  }

  predicate NoColon(d: Row) {
    ':' !in TrimSpace(d.kind) && ':' !in TrimSpace(d.datasource)
  }

  lemma KeyOfIdentity(d: Row, x: string, y: string)
    requires Identified(d, x, y)
    ensures MergeKey(d) == x + ":" + y && MergeKey(d) != ""
  {
  }

  lemma IdentityOfKey(d: Row) returns (x: string, y: string)
    requires MergeKey(d) != ""
    ensures Identified(d, x, y) && (NoColon(d) ==> ':' !in x)
  {
    x, y := TrimSpace(d.kind), TrimSpace(d.ref);
    if x == "" || y == "" {
      x, y := TrimSpace(d.datasource), TrimSpace(d.depName);
    }
  }

  /** Keys stand for identities, where no kind and no datasource has a colon. */
  lemma KeysSeparate(a: Row, b: Row)
    ensures MergeKey(a) != "" <==> HasIdentity(a)
    ensures SameIdentity(a, b) ==> MergeKey(a) == MergeKey(b) != ""
    ensures NoColon(a) && NoColon(b) && MergeKey(a) == MergeKey(b) != "" ==> SameIdentity(a, b)
  {
    if x, y :| Identified(a, x, y) {
      KeyOfIdentity(a, x, y);
    }
    if x, y :| Identified(a, x, y) && Identified(b, x, y) {
      KeyOfIdentity(a, x, y);
      KeyOfIdentity(b, x, y);
    }
    if MergeKey(a) != "" {
      var x, y := IdentityOfKey(a);
      if NoColon(a) && NoColon(b) && MergeKey(a) == MergeKey(b) {
        var x', y' := IdentityOfKey(b);
        KeyOfIdentity(a, x, y);
        KeyOfIdentity(b, x', y');
        ColonSplits(x, y, x', y');
      }
    }
  }

  lemma {:induction false} ColonSplits(x: string, y: string, x': string, y': string)
    requires ':' !in x && ':' !in x' && x + ":" + y == x' + ":" + y'
    ensures x == x' && y == y'
    decreases |x|
  {
    var s := x + ":" + y;
    assert s == x' + ":" + y';
    HeadColon(x, y);
    HeadColon(x', y');
    if x != "" {
      assert s[1..] == x[1..] + ":" + y && s[1..] == x'[1..] + ":" + y';
      ColonSplits(x[1..], y, x'[1..], y');
      assert x == [x[0]] + x[1..] && x' == [x'[0]] + x'[1..];
    }
  }

  lemma HeadColon(x: string, y: string)
    requires ':' !in x
    ensures var s := x + ":" + y; s[0] == ':' <==> x == ""
    ensures x == "" ==> (x + ":" + y)[1..] == y
  {
    assert x != "" ==> x[0] in x;
  }

  /** With a colon there two rows of different kinds can share a key. */
  lemma ColonsCollide(d: Row)
    ensures var a, b := d.(kind := "a:b", ref := "c"), d.(kind := "a", ref := "b:c");
            MergeKey(a) == MergeKey(b) && !SameIdentity(a, b)
  {
    assert TrimSpace("a:b") == "a:b" && TrimSpace("c") == "c" && TrimSpace("a") == "a" && TrimSpace("b:c") == "b:c" by {
      TrimTrimmed("a:b");
      TrimTrimmed("c");
      TrimTrimmed("a");
      TrimTrimmed("b:c");
    }
  }

  /** d is a row that none of the same identity follows. */
  ghost predicate LastIdentified(rows: seq<Row>, d: Row) {
    exists i :: 0 <= i < |rows| && rows[i] == d && forall j :: i < j < |rows| ==> !SameIdentity(rows[j], d)
  }

  /** So the merge keeps the last row of each identity, generated ones over existing
      ones. */
  lemma MergeKeepsLast(existing: seq<Row>, generated: seq<Row>, other: seq<Row>, d: Row)
    requires multiset(other) == multiset(Survivors(existing, generated)) && Sorting.Ordered(other, MergeLess)
    requires forall x :: x in existing + generated ==> NoColon(x)
    ensures d in other <==> HasIdentity(d) && LastIdentified(existing + generated, d)
    ensures forall i, j :: 0 <= i < j < |other| ==> InMergeOrder(other[i], other[j])
  {
    var rows := existing + generated;
    MergeDeterministic(existing, generated, other);
    KeysSeparate(d, d);
    if d in rows {
      forall i | 0 <= i < |rows|
        ensures HasIdentity(d) ==> (SameIdentity(rows[i], d) <==> MergeKey(rows[i]) == MergeKey(d)) {
        assert rows[i] in rows;
        KeysSeparate(rows[i], d);
      }
    }
    forall i, j | 0 <= i < j < |other| ensures InMergeOrder(other[i], other[j]) {
      MergeLessOrders(other[i], other[j]);
    }
  }

  /** The merge result: a row is in it if and only if it is the last of its key in
      the input, no key comes twice, and any arrangement of these rows that is in
      order is the result, whatever algorithm sorted it. */
  lemma MergeDeterministic(existing: seq<Row>, generated: seq<Row>, other: seq<Row>)
    requires multiset(other) == multiset(Survivors(existing, generated)) && Sorting.Ordered(other, MergeLess)
    ensures other == Sorting.Sort(Survivors(existing, generated), MergeLess)
    ensures forall d :: d in other <==> MergeKey(d) != "" && Keyed.IsLast(existing + generated, d, MergeKey)
    ensures Keyed.Distinct(Survivors(existing, generated), MergeKey)
  {
    MergeOrder();
    Keyed.LastWinsExactly(existing + generated, MergeKey);
    forall x, y | !MergeLess(x, y) && !MergeLess(y, x) ensures MergeKey(x) == MergeKey(y) {
      TiesShareKey(x, y);
    }
    Keyed.OneArrangement(Survivors(existing, generated), other, MergeKey, MergeLess);
  }
}
