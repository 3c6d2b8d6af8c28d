/** internal/source/compose_dest.go: the path index that replaces the pairwise
    overlap scan, and the grouping loop that relies on it. */
module DestPaths {
  import opened Common
  import FileTree
  import Sorting

  /** lewpath.Path, cleaned: "." is the empty relative path, "/" the empty
      absolute one. */
  datatype Name = Name(abs: bool, parts: seq<string>)

  const DOT := Name(false, [])

  function Parent(p: Name): Name {
    if p.parts == [] then p else p.(parts := p.parts[..|p.parts|-1])
  }

  /** a is a proper ancestor of b. */
  predicate Above(a: Name, b: Name) {
    a.abs == b.abs && a.parts < b.parts
  }

  /** The pairwise comparison the index stands for. "." is nobody's ancestor here,
      as neither loop of the index ever looks at it. */
  predicate Clash(a: Name, b: Name) {
    a == b || (a != DOT && Above(a, b)) || (b != DOT && Above(b, a))
  }

  /** Two paths clash exactly if one is at or below the other; "." only with itself. */
  lemma ClashExactly(a: Name, b: Name)
    ensures a != DOT && b != DOT ==>
              (Clash(a, b) <==> a.abs == b.abs && (a.parts <= b.parts || b.parts <= a.parts))
    ensures a == DOT || b == DOT ==> (Clash(a, b) <==> a == b)
  {
  }

  /** The keys add puts in dirs for f: its proper ancestors but ".", and for "/"
      itself the root again. */
  predicate DirOf(q: Name, f: Name) {
    q != DOT && (Above(q, f) || (q == f == Name(true, [])))
  }

  class PathSet {
    var files: set<Name>
    var dirs: set<Name>

    ghost predicate Valid()
      reads this
    {
      forall q :: q in dirs <==> exists f :: f in files && DirOf(q, f)
    }

    constructor ()
      ensures Valid() && files == {}
    {
      files, dirs := {}, {};
    }

    method Add(name: Name)
      requires Valid()
      modifies this
      ensures Valid() && files == old(files) + {name}
    {
      files := files + {name};
      var parent := Parent(name);
      while parent != DOT
        invariant files == old(files) + {name}
        invariant parent.abs == name.abs && parent.parts <= name.parts
        invariant parent == name ==> name.parts == []
        invariant forall q :: q in dirs <==> q in old(dirs) || (DirOf(q, name) && Above(parent, q))
        decreases |parent.parts|
      {
        ghost var was := dirs;
        dirs := dirs + {parent};
        assert forall q :: DirOf(q, name) && parent.parts != [] ==>
          (Above(Parent(parent), q) <==> q == parent || Above(parent, q)) by {
          forall q | DirOf(q, name) && parent.parts != []
            ensures Above(Parent(parent), q) <==> q == parent || Above(parent, q)
          {
            Chain(Parent(parent), parent, q, name);
          }
        }
        if Parent(parent) == parent {
          assert parent.parts == [] && parent.abs;
          assert forall q :: DirOf(q, name) ==> q == parent || Above(parent, q);
          break;
        }
        parent := Parent(parent);
      }
      assert parent == DOT ==> forall q :: DirOf(q, name) ==> Above(parent, q);
      forall q ensures q in dirs <==> exists f :: f in files && DirOf(q, f) {
        assert q in dirs <==> q in old(dirs) || DirOf(q, name);
      }
    }

    /** overlaps: two set lookups and a walk up decide the pairwise question. */
    method Overlaps(name: Name) returns (r: bool)
      requires Valid()
      ensures r <==> exists f :: f in files && Clash(f, name)
    {
      if name in files {
        assert Clash(name, name);
        return true;
      }
      if name in dirs {
        ghost var f :| f in files && DirOf(name, f);
        assert Clash(f, name);
        return true;
      }
      var parent := Parent(name);
      while parent != DOT
        invariant parent.abs == name.abs && parent.parts <= name.parts
        invariant parent == name ==> name.parts == []
        invariant forall f :: f in files && f != DOT && Above(f, name) ==> f == parent || Above(f, parent)
        decreases |parent.parts|
      {
        if parent in files {
          assert Clash(parent, name);
          return true;
        }
        if Parent(parent) == parent {
          break;
        }
        forall f | f in files && f != DOT && Above(f, name) && Above(f, parent)
          ensures f == Parent(parent) || Above(f, Parent(parent))
        {
          NextUp(f, parent, name);
        }
        parent := Parent(parent);
      }
      forall f | f in files ensures !Clash(f, name) {
        assert f != DOT && Above(f, name) ==> f == parent || Above(f, parent);
        assert DirOf(name, f) <==> name != DOT && Above(name, f);
      }
      return false;
    }
  }

  lemma NextUp(f: Name, parent: Name, name: Name)
    requires Above(f, name) && Above(f, parent) && parent.parts <= name.parts
    ensures f == Parent(parent) || Above(f, Parent(parent))
  {
    assert f.parts == parent.parts[..|f.parts|];
  }

  /** Among the ancestors of one path, those below m's parent are m and those
      below m. */
  lemma Chain(p: Name, m: Name, q: Name, name: Name)
    requires m.parts != [] && p == Parent(m) && m.abs == q.abs == name.abs
    requires m.parts <= name.parts && q.parts <= name.parts
    ensures Above(p, q) <==> q == m || Above(m, q)
  {
    assert m.parts == name.parts[..|m.parts|] && q.parts == name.parts[..|q.parts|];
    assert p.parts == name.parts[..|m.parts|-1];
  }

  // ---- the grouping loop of composeTracked, for one profile ----

  /** A placed file: its relative path as written, whether that path lies in a
      ".d.tmpl" directory, and what the compose tree records of it (None when it
      cannot be read). */
  datatype Placed = Placed(rel: string, dotd: bool, record: Option<string>)

  datatype GroupError = Conflict | Overlap | InvalidPath | Unreadable

  predicate ValidName(name: Name) {
    name != DOT && !name.abs
  }

  /** needsMerge, against the paths the CUE tree declares. clean is lewpath.New. */
  ghost predicate Merges(clean: string -> Name, f: Placed, cue: set<Name>) {
    f.dotd || exists c :: c in cue && Clash(c, clean(f.rel))
  }

  class ProfileFiles {
    const clean: string -> Name
    var direct: map<string, Placed>
    var recorded: map<Name, string>
    const paths: PathSet

    ghost predicate Valid()
      reads this, paths
    {
      && paths.Valid()
      && (forall r :: r in direct ==> direct[r].rel == r && clean(r) in paths.files)
      && (forall n :: n in paths.files ==> exists r :: r in direct && clean(r) == n)
    }

    constructor (clean: string -> Name)
      ensures Valid() && fresh(paths) && this.clean == clean
      ensures direct == map[] && recorded == map[] && paths.files == {}
    {
      this.clean, direct, recorded := clean, map[], map[];
      paths := new PathSet();
    }

    /** addDirect: refused exactly when the path clashes with an earlier one. */
    method AddDirect(f: Placed) returns (err: Option<GroupError>)
      requires Valid()
      modifies this`direct, paths
      ensures Valid()
      ensures err.None? <==> forall n :: n in old(paths.files) ==> !Clash(n, clean(f.rel))
      ensures err.None? ==> direct == old(direct)[f.rel := f] && paths.files == old(paths.files) + {clean(f.rel)}
      ensures err.Some? ==> direct == old(direct) && paths.files == old(paths.files)
    {
      if f.rel in direct {
        assert Clash(clean(f.rel), clean(f.rel));
        return Some(Conflict);
      }
      var o := paths.Overlaps(clean(f.rel));
      if o {
        return Some(Overlap);
      }
      direct := direct[f.rel := f];
      paths.Add(clean(f.rel));
      return None;
    }

    /** add: a merged file may repeat a path only with the same record. */
    method AddMerged(f: Placed) returns (err: Option<GroupError>)
      modifies this`recorded
      ensures err.None? <==> (ValidName(clean(f.rel)) && f.record.Some?
                              && (clean(f.rel) in old(recorded) ==> old(recorded)[clean(f.rel)] == f.record.value))
      ensures err == Some(InvalidPath) <==> clean(f.rel).abs || clean(f.rel).parts == []
      ensures recorded == if err.None? then old(recorded)[clean(f.rel) := f.record.value] else old(recorded)
    {
      var name := clean(f.rel);
      if name == DOT || name.abs {
        return Some(InvalidPath);
      }
      if f.record.None? {
        return Some(Unreadable);
      }
      if name in recorded {
        if recorded[name] != f.record.value {
          return Some(Conflict);
        }
        return None;
      }
      recorded := recorded[name := f.record.value];
      return None;
    }
  }

  /** indexTree. */
  method IndexTree(names: seq<Name>) returns (index: PathSet)
    ensures index.Valid() && fresh(index) && index.files == set n | n in names
  {
    index := new PathSet();
    for i := 0 to |names|
      invariant index.Valid() && fresh(index) && index.files == set n | n in names[..i]
    {
      assert names[..i+1] == names[..i] + [names[i]];
      index.Add(names[i]);
    }
    assert names[..|names|] == names;
  }

  // What makes the loop refuse: one merged file alone, or two files together.

  ghost predicate BadAlone(clean: string -> Name, cue: set<Name>, f: Placed) {
    Merges(clean, f, cue) && (!ValidName(clean(f.rel)) || f.record.None?)
  }

  ghost predicate BadPair(clean: string -> Name, cue: set<Name>, f: Placed, g: Placed) {
    if Merges(clean, f, cue) then Merges(clean, g, cue) && clean(f.rel) == clean(g.rel) && f.record != g.record
    else !Merges(clean, g, cue) && Clash(clean(f.rel), clean(g.rel))
  }

  ghost predicate Acceptable(clean: string -> Name, cue: set<Name>, files: seq<Placed>) {
    && (forall i :: 0 <= i < |files| ==> !BadAlone(clean, cue, files[i]))
    && (forall i, j :: 0 <= i < j < |files| ==> !BadPair(clean, cue, files[i], files[j]))
  }

  /** What the profile holds after files: the direct ones are indexed, the merged
      ones are recorded. */
  ghost predicate Grouped(clean: string -> Name, cue: set<Name>, files: seq<Placed>, indexed: set<Name>,
                          recorded: map<Name, string>) {
    && (forall n :: n in indexed <==> HasDirect(clean, cue, files, n))
    && (forall n :: n in recorded ==> HasMerged(clean, cue, files, n, Some(recorded[n])))
    && (forall i :: 0 <= i < |files| && Merges(clean, files[i], cue) ==> clean(files[i].rel) in recorded)
  }

  ghost predicate HasDirect(clean: string -> Name, cue: set<Name>, files: seq<Placed>, n: Name) {
    exists i :: 0 <= i < |files| && !Merges(clean, files[i], cue) && clean(files[i].rel) == n
  }

  ghost predicate HasMerged(clean: string -> Name, cue: set<Name>, files: seq<Placed>, n: Name,
                            record: Option<string>) {
    exists i :: 0 <= i < |files| && Merges(clean, files[i], cue) && clean(files[i].rel) == n
      && files[i].record == record
  }

  /** f joins files without a conflict. */
  ghost predicate Fits(clean: string -> Name, cue: set<Name>, files: seq<Placed>, f: Placed) {
    !BadAlone(clean, cue, f) && forall i :: 0 <= i < |files| ==> !BadPair(clean, cue, files[i], f)
  }

  lemma AcceptableAppend(clean: string -> Name, cue: set<Name>, files: seq<Placed>, f: Placed)
    ensures Acceptable(clean, cue, files + [f]) <==> Acceptable(clean, cue, files) && Fits(clean, cue, files, f)
  {
    var all := files + [f];
    assert all[|files|] == f && forall i :: 0 <= i < |files| ==> all[i] == files[i];
    if Acceptable(clean, cue, all) {
      forall i | 0 <= i < |files| ensures !BadPair(clean, cue, files[i], f) && !BadAlone(clean, cue, files[i]) {
        assert !BadPair(clean, cue, all[i], all[|files|]) && !BadAlone(clean, cue, all[i]);
      }
      forall i, j | 0 <= i < j < |files| ensures !BadPair(clean, cue, files[i], files[j]) {
        assert !BadPair(clean, cue, all[i], all[j]);
      }
    }
  }

  lemma AcceptablePrefix(clean: string -> Name, cue: set<Name>, files: seq<Placed>, k: nat)
    requires k <= |files|
    ensures Acceptable(clean, cue, files) ==> Acceptable(clean, cue, files[..k])
  {
  }

  lemma HasAppend(clean: string -> Name, cue: set<Name>, files: seq<Placed>, f: Placed, n: Name, record: Option<string>)
    ensures HasDirect(clean, cue, files + [f], n) <==>
              HasDirect(clean, cue, files, n) || (!Merges(clean, f, cue) && clean(f.rel) == n)
    ensures HasMerged(clean, cue, files, n, record) ==> HasMerged(clean, cue, files + [f], n, record)
    ensures Merges(clean, f, cue) && clean(f.rel) == n && f.record == record ==>
              HasMerged(clean, cue, files + [f], n, record)
  {
    var all := files + [f];
    assert all[|files|] == f;
    if HasDirect(clean, cue, files, n) {
      var i :| 0 <= i < |files| && !Merges(clean, files[i], cue) && clean(files[i].rel) == n;
      assert all[i] == files[i];
    }
    if HasMerged(clean, cue, files, n, record) {
      var i :| 0 <= i < |files| && Merges(clean, files[i], cue) && clean(files[i].rel) == n
        && files[i].record == record;
      assert all[i] == files[i];
    }
  }

  lemma GroupedDirect(clean: string -> Name, cue: set<Name>, files: seq<Placed>, f: Placed, indexed: set<Name>,
                      recorded: map<Name, string>)
    requires Grouped(clean, cue, files, indexed, recorded) && !Merges(clean, f, cue)
    ensures Grouped(clean, cue, files + [f], indexed + {clean(f.rel)}, recorded)
  {
    forall n ensures n in indexed + {clean(f.rel)} <==> HasDirect(clean, cue, files + [f], n) {
      HasAppend(clean, cue, files, f, n, None);
    }
    forall n | n in recorded ensures HasMerged(clean, cue, files + [f], n, Some(recorded[n])) {
      HasAppend(clean, cue, files, f, n, Some(recorded[n]));
    }
  }

  lemma GroupedMerged(clean: string -> Name, cue: set<Name>, files: seq<Placed>, f: Placed, indexed: set<Name>,
                      recorded: map<Name, string>)
    requires Grouped(clean, cue, files, indexed, recorded) && Merges(clean, f, cue) && f.record.Some?
    ensures Grouped(clean, cue, files + [f], indexed, recorded[clean(f.rel) := f.record.value])
  {
    var recorded' := recorded[clean(f.rel) := f.record.value];
    forall n ensures n in indexed <==> HasDirect(clean, cue, files + [f], n) {
      HasAppend(clean, cue, files, f, n, None);
    }
    forall n | n in recorded' ensures HasMerged(clean, cue, files + [f], n, Some(recorded'[n])) {
      HasAppend(clean, cue, files, f, n, Some(recorded'[n]));
    }
  }

  lemma DirectFits(clean: string -> Name, cue: set<Name>, files: seq<Placed>, f: Placed, indexed: set<Name>,
                   recorded: map<Name, string>)
    requires Grouped(clean, cue, files, indexed, recorded) && !Merges(clean, f, cue)
    ensures Fits(clean, cue, files, f) <==> forall n :: n in indexed ==> !Clash(n, clean(f.rel))
  {
    if Fits(clean, cue, files, f) {
      forall n | n in indexed ensures !Clash(n, clean(f.rel)) {
        var i :| 0 <= i < |files| && !Merges(clean, files[i], cue) && clean(files[i].rel) == n;
        assert !BadPair(clean, cue, files[i], f);
      }
    }
    if forall n :: n in indexed ==> !Clash(n, clean(f.rel)) {
      forall i | 0 <= i < |files| ensures !BadPair(clean, cue, files[i], f) {
        if !Merges(clean, files[i], cue) {
          assert HasDirect(clean, cue, files, clean(files[i].rel));
        }
      }
    }
  }

  predicate CanMerge(n: Name, record: Option<string>, recorded: map<Name, string>) {
    ValidName(n) && record.Some? && (n in recorded ==> recorded[n] == record.value)
  }

  lemma MergeFits(clean: string -> Name, cue: set<Name>, files: seq<Placed>, f: Placed, indexed: set<Name>,
                  recorded: map<Name, string>)
    requires Grouped(clean, cue, files, indexed, recorded) && Merges(clean, f, cue)
    requires Acceptable(clean, cue, files)
    ensures Fits(clean, cue, files, f) <==> CanMerge(clean(f.rel), f.record, recorded)
  {
    var n := clean(f.rel);
    if n in recorded {
      assert HasMerged(clean, cue, files, n, Some(recorded[n]));
      var i :| 0 <= i < |files| && Merges(clean, files[i], cue) && clean(files[i].rel) == n
               && files[i].record == Some(recorded[n]);
      assert BadPair(clean, cue, files[i], f) <==> files[i].record != f.record;
      forall j | 0 <= j < |files| && Merges(clean, files[j], cue) && clean(files[j].rel) == n
        ensures files[j].record == files[i].record
      {
        assert i < j ==> !BadPair(clean, cue, files[i], files[j]);
        assert j < i ==> !BadPair(clean, cue, files[j], files[i]);
      }
    }
  }

  /** One turn of the loop. */
  method GroupOne(profile: ProfileFiles, index: PathSet, ghost files: seq<Placed>, f: Placed)
      returns (err: Option<GroupError>)
    requires index.Valid() && profile.Valid() && index != profile.paths
    requires Acceptable(profile.clean, index.files, files)
    requires Grouped(profile.clean, index.files, files, profile.paths.files, profile.recorded)
    modifies profile, profile.paths
    ensures profile.Valid() && index.Valid()
    ensures err.None? <==> Fits(profile.clean, index.files, files, f)
    ensures err.None? ==> Grouped(profile.clean, index.files, files + [f], profile.paths.files, profile.recorded)
  {
    ghost var indexed, recorded := profile.paths.files, profile.recorded;
    var merge := f.dotd;
    if !merge {
      merge := index.Overlaps(profile.clean(f.rel));
    }
    assert merge == Merges(profile.clean, f, index.files);
    if merge {
      MergeFits(profile.clean, index.files, files, f, indexed, recorded);
      err := profile.AddMerged(f);
      if err.None? {
        GroupedMerged(profile.clean, index.files, files, f, indexed, recorded);
      }
    } else {
      DirectFits(profile.clean, index.files, files, f, indexed, recorded);
      err := profile.AddDirect(f);
      if err.None? {
        GroupedDirect(profile.clean, index.files, files, f, indexed, recorded);
      }
    }
  }

  /** The loop: it goes through exactly on the acceptable inputs. */
  method Group(clean: string -> Name, index: PathSet, files: seq<Placed>)
      returns (profile: ProfileFiles, err: Option<GroupError>)
    requires index.Valid()
    ensures err.None? <==> Acceptable(clean, index.files, files)
    ensures profile.Valid() && profile.clean == clean
    ensures err.None? ==> Grouped(clean, index.files, files, profile.paths.files, profile.recorded)
  {
    profile := new ProfileFiles(clean);
    for i := 0 to |files|
      invariant profile.Valid() && fresh(profile) && fresh(profile.paths) && profile.clean == clean && index.Valid()
      invariant Acceptable(clean, index.files, files[..i])
      invariant Grouped(clean, index.files, files[..i], profile.paths.files, profile.recorded)
    {
      assert files[..i+1] == files[..i] + [files[i]];
      AcceptableAppend(clean, index.files, files[..i], files[i]);
      AcceptablePrefix(clean, index.files, files, i + 1);
      err := GroupOne(profile, index, files[..i], files[i]);
      if err.Some? {
        return;
      }
    }
    assert files[..|files|] == files;
    return profile, None;
  }

  // ---- what the loop's answer means ----

  /** No accepted direct file overlaps a path of the CUE tree or another direct
      file. */
  lemma DirectFilesApart(clean: string -> Name, cue: set<Name>, files: seq<Placed>, i: nat, j: nat)
    requires Acceptable(clean, cue, files) && i < |files| && j < |files| && i != j
    requires !Merges(clean, files[i], cue) && !Merges(clean, files[j], cue)
    ensures !Clash(clean(files[i].rel), clean(files[j].rel))
    ensures forall c :: c in cue ==> !Clash(c, clean(files[i].rel))
  {
    assert i < j ==> !BadPair(clean, cue, files[i], files[j]);
    assert j < i ==> !BadPair(clean, cue, files[j], files[i]);
  }

  /** The targets of accepted direct files under one apply directory are pairwise
      non-nested, as the executor needs them. */
  lemma DirectTargetsAntichain(clean: string -> Name, cue: set<Name>, files: seq<Placed>, base: FileTree.Path,
                               targets: set<FileTree.Path>)
    requires Acceptable(clean, cue, files)
    requires forall i :: 0 <= i < |files| ==> ValidName(clean(files[i].rel))
    requires forall t :: t in targets ==>
               exists i :: 0 <= i < |files| && !Merges(clean, files[i], cue) && base + clean(files[i].rel).parts == t
    ensures FileTree.Antichain(targets)
  {
    forall a, b | a in targets && b in targets && a <= b ensures a == b {
      var i :| 0 <= i < |files| && !Merges(clean, files[i], cue) && base + clean(files[i].rel).parts == a;
      var j :| 0 <= j < |files| && !Merges(clean, files[j], cue) && base + clean(files[j].rel).parts == b;
      var x, y := clean(files[i].rel), clean(files[j].rel);
      assert x.parts == a[|base|..] && y.parts == b[|base|..];
      if i != j {
        DirectFilesApart(clean, cue, files, i, j);
      }
    }
  }

  /** The answer does not depend on the input order. */
  lemma OrderIrrelevant(clean: string -> Name, cue: set<Name>, files: seq<Placed>, files': seq<Placed>)
    requires multiset(files) == multiset(files')
    requires Acceptable(clean, cue, files)
    ensures Acceptable(clean, cue, files')
  {
    forall i | 0 <= i < |files'| ensures !BadAlone(clean, cue, files'[i]) {
      assert files'[i] in multiset(files');
      assert files'[i] in files;
    }
    forall i, j | 0 <= i < j < |files'| ensures !BadPair(clean, cue, files'[i], files'[j]) {
      var i', j' := Sorting.TwoPositions(files, files', i, j);
      assert i' < j' ==> !BadPair(clean, cue, files[i'], files[j']);
      assert j' < i' ==> !BadPair(clean, cue, files[j'], files[i']);
    }
  }
}
