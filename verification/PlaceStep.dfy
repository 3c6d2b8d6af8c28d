/** internal/placestep/step.go: renames over the entries of one origin tree. */
module PlaceStep {
  import opened Common
  import opened Text
  import Sorting

  /** What stays with a file whatever its path becomes. */
  datatype Origin = Origin(abs: string, mode: nat, symlink: bool)

  datatype Entry = Entry(rel: string, origin: Origin)

  /** A step as Apply sees it; require stands for any check of the entries that
      either passes or fails the pipeline. */
  datatype Step =
    | Move(from: string, to: string)
    | Require(passes: seq<Entry> -> bool)
    | Skipped

  datatype Warning = MissingSource(from: string) | Overwrites(rel: string, newRel: string, prevAbs: string)

  // ---- Clean ----

  function TrimSlashes(p: string): string {
    if p != [] && p[0] == '/' then TrimSlashes(p[1..])
    else if p != [] && p[|p|-1] == '/' then TrimSlashes(p[..|p|-1])
    else p
  }

  /** path.Clean on a relative path without ".." segments: empty and "." segments
      go. */
  function Kept(segs: seq<string>): seq<string> {
    if segs == [] then []
    else (if segs[0] == "" || segs[0] == "." then [] else [segs[0]]) + Kept(segs[1..])
  }

  /** None stands for the three errors of Clean. */
  function Clean(p: string): Option<string> {
    var q := TrimSlashes(TrimSpace(p));
    if q == "" || q == "." || ".." in Split(q, '/') || Kept(Split(q, '/')) == [] then None
    else Some(Join(Kept(Split(q, '/')), '/'))
  }

  // ---- Rewrite and move ----

  predicate AtOrBelow(rel: string, from: string) {
    rel == from || from + "/" <= rel
  }

  function Rewrite(rel: string, from: string, to: string): string {
    if rel == from then to
    else
      var rest := TrimPrefix(rel, from + "/");
      if to == "" then rest else to + "/" + rest
  }

  predicate RelLess(a: Entry, b: Entry) {
    Sorting.StringLess(a.rel, b.rel)
  }

  predicate DistinctRels(entries: seq<Entry>) {
    forall i, j :: 0 <= i < j < |entries| ==> entries[i].rel != entries[j].rel
  }

  /** The entries stand in the order of their paths, each path once. */
  predicate ByPath(entries: seq<Entry>) {
    forall i, j :: 0 <= i < j < |entries| ==> Sorting.StringLess(entries[i].rel, entries[j].rel)
  }

  function Moving(entries: seq<Entry>, from: string): seq<Entry> {
    if entries == [] then []
    else (if AtOrBelow(entries[0].rel, from) then [entries[0]] else []) + Moving(entries[1..], from)
  }

  function Staying(entries: seq<Entry>, from: string): seq<Entry> {
    if entries == [] then []
    else (if AtOrBelow(entries[0].rel, from) then [] else [entries[0]]) + Staying(entries[1..], from)
  }

  function Moved(e: Entry, from: string, to: string): Entry {
    e.(rel := Rewrite(e.rel, from, to))
  }

  function MovedAll(entries: seq<Entry>, from: string, to: string): seq<Entry> {
    if entries == [] then [] else [Moved(entries[0], from, to)] + MovedAll(entries[1..], from, to)
  }

  function Rels(entries: seq<Entry>): set<string> {
    set e | e in entries :: e.rel
  }

  /** The entries whose path is not taken. */
  function Free(entries: seq<Entry>, taken: set<string>): seq<Entry> {
    if entries == [] then []
    else (if entries[0].rel in taken then [] else [entries[0]]) + Free(entries[1..], taken)
  }

  /** The entries after a move: those that stay and are not overwritten, and the
      renamed ones, by path. A move without a source changes nothing. */
  function MoveTo(entries: seq<Entry>, from: string, to: string): seq<Entry> {
    var moved := MovedAll(Moving(entries, from), from, to);
    if moved == [] then entries
    else Sorting.Sort(Free(Staying(entries, from), Rels(moved)) + moved, RelLess)
  }

  /** How many staying entries the move overwrites. */
  function Overwritten(entries: seq<Entry>, from: string, to: string): nat
  {
    var moved := MovedAll(Moving(entries, from), from, to);
    FreeShorter(Staying(entries, from), Rels(moved));
    |Staying(entries, from)| - |Free(Staying(entries, from), Rels(moved))|
  }

  lemma {:induction false} FreeShorter(entries: seq<Entry>, taken: set<string>)
    ensures |Free(entries, taken)| <= |entries|
  {
    if entries != [] {
      FreeShorter(entries[1..], taken);
    }
  }

  // ---- facts about the parts ----

  lemma RelOrder()
    ensures Sorting.StrictWeak(RelLess)
  {
    forall a, b | RelLess(a, b) ensures !RelLess(b, a) {
      Sorting.StringTotal(a.rel, b.rel);
    }
    forall a, b, c | RelLess(a, c) ensures RelLess(a, b) || RelLess(b, c) {
      Sorting.StringSplit(a.rel, b.rel, c.rel);
    }
  }

  /** A path moved below to can be moved back, and stands at or below to. */
  lemma RewriteBack(rel: string, from: string, to: string)
    requires from != "" && to != "" && AtOrBelow(rel, from)
    ensures AtOrBelow(Rewrite(rel, from, to), to)
    ensures Rewrite(Rewrite(rel, from, to), to, from) == rel
  {
    if rel != from {
      var rest := rel[|from|+1..];
      assert rel == from + "/" + rest;
      assert Rewrite(rel, from, to) == to + "/" + rest;
      assert (to + "/" + rest)[|to|+1..] == rest;
    }
  }

  lemma BelowSegments(from: string, rest: string)
    ensures Split(from + "/" + rest, '/') == Split(from, '/') + Split(rest, '/')
  {
    assert from + "/" + rest == from + (['/'] + rest);
    SplitTwo(from, rest, '/');
  }

  /** A path is at or below another exactly if its segments start with the other's. */
  lemma AtOrBelowExactly(rel: string, from: string)
    ensures AtOrBelow(rel, from) <==> Split(from, '/') <= Split(rel, '/')
  {
    if AtOrBelow(rel, from) && rel != from {
      var rest := rel[|from|+1..];
      assert rel == from + "/" + rest;
      BelowSegments(from, rest);
    }
    var f, r := Split(from, '/'), Split(rel, '/');
    JoinSplit(rel, '/');
    JoinSplit(from, '/');
    if f <= r {
      if |f| == |r| {
        assert f == r;
      } else {
        PrefixBelow(f, r);
      }
    }
  }

  lemma PrefixBelow(f: seq<string>, r: seq<string>)
    requires f != [] && f < r
    ensures Join(f, '/') + "/" <= Join(r, '/')
  {
    JoinAppend(f, r[|f|..]);
    assert r == f + r[|f|..];
  }

  lemma {:induction false} JoinAppend(a: seq<string>, b: seq<string>)
    requires a != [] && b != []
    ensures Join(a + b, '/') == (Join(a, '/') + "/") + Join(b, '/')
  {
    assert (a + b)[1..] == a[1..] + b;
    if |a| > 1 {
      JoinAppend(a[1..], b);
    } else {
      assert a[1..] + b == b;
    }
  }

  /** Renaming puts the destination's segments in the place of the source's. */
  lemma RewriteSegments(rel: string, from: string, to: string)
    requires AtOrBelow(rel, from)
    ensures Split(from, '/') <= Split(rel, '/')
    ensures var rest := Split(rel, '/')[|Split(from, '/')|..];
            Split(Rewrite(rel, from, to), '/') == if to == "" && rel != from then rest else Split(to, '/') + rest
  {
    AtOrBelowExactly(rel, from);
    if rel != from {
      var rest := rel[|from|+1..];
      assert rel == from + "/" + rest;
      RewriteBelow(from, to, rest);
      BelowSegments(from, rest);
      BelowSegments(to, rest);
    }
  }

  lemma RewriteBelow(from: string, to: string, rest: string)
    ensures Rewrite(from + "/" + rest, from, to) == if to == "" then rest else to + "/" + rest
  {
    var rel := from + "/" + rest;
    assert rel == (from + "/") + rest && |rel| > |from|;
    assert TrimPrefix(rel, from + "/") == rest;
  }

  lemma {:induction false} MovingExactly(entries: seq<Entry>, from: string)
    ensures forall e :: e in Moving(entries, from) <==> e in entries && AtOrBelow(e.rel, from)
    ensures forall e :: e in Staying(entries, from) <==> e in entries && !AtOrBelow(e.rel, from)
    ensures |Moving(entries, from)| + |Staying(entries, from)| == |entries|
    ensures multiset(Moving(entries, from)) + multiset(Staying(entries, from)) == multiset(entries)
  {
    if entries != [] {
      MovingExactly(entries[1..], from);
      assert entries == [entries[0]] + entries[1..];
    }
  }

  lemma {:induction false} PartsDistinct(entries: seq<Entry>, from: string)
    requires DistinctRels(entries)
    ensures DistinctRels(Moving(entries, from)) && DistinctRels(Staying(entries, from))
  {
    if entries != [] {
      PartsDistinct(entries[1..], from);
      MovingExactly(entries[1..], from);
      HeadDiffers(entries);
      ConsDistinct(entries[0], Moving(entries[1..], from));
      ConsDistinct(entries[0], Staying(entries[1..], from));
    }
  }

  lemma ConsDistinct(e: Entry, s: seq<Entry>)
    requires DistinctRels(s) && forall x :: x in s ==> x.rel != e.rel
    ensures DistinctRels([e] + s) && DistinctRels([] + s)
  {
    assert [] + s == s;
    var r := [e] + s;
    forall i, j | 0 <= i < j < |r| ensures r[i].rel != r[j].rel {
      assert r[j] == s[j-1] && s[j-1] in s;
      assert i > 0 ==> r[i] == s[i-1];
    }
  }

  lemma HeadDiffers(entries: seq<Entry>)
    requires entries != [] && DistinctRels(entries)
    ensures DistinctRels(entries[1..]) && forall e :: e in entries[1..] ==> e.rel != entries[0].rel
  {
  }

  lemma {:induction false} FreeExactly(entries: seq<Entry>, taken: set<string>)
    ensures forall e :: e in Free(entries, taken) <==> e in entries && e.rel !in taken
  {
    if entries != [] {
      FreeExactly(entries[1..], taken);
      assert entries == [entries[0]] + entries[1..];
    }
  }

  lemma {:induction false} FreeDistinct(entries: seq<Entry>, taken: set<string>)
    requires DistinctRels(entries)
    ensures DistinctRels(Free(entries, taken))
  {
    if entries != [] {
      HeadDiffers(entries);
      FreeDistinct(entries[1..], taken);
      FreeExactly(entries[1..], taken);
    }
  }

  lemma {:induction false} MovedAt(entries: seq<Entry>, from: string, to: string)
    ensures |MovedAll(entries, from, to)| == |entries|
    ensures forall i :: 0 <= i < |entries| ==> MovedAll(entries, from, to)[i] == Moved(entries[i], from, to)
  {
    if entries != [] {
      MovedAt(entries[1..], from, to);
      var rest := MovedAll(entries[1..], from, to);
      assert forall i :: 0 < i < |entries| ==> rest[i-1] == Moved(entries[i], from, to);
    }
  }

  lemma MovedExactly(entries: seq<Entry>, from: string, to: string)
    requires from != "" && to != "" && forall e :: e in entries ==> AtOrBelow(e.rel, from)
    ensures |MovedAll(entries, from, to)| == |entries|
    ensures forall i :: 0 <= i < |entries| ==> MovedAll(entries, from, to)[i] == Moved(entries[i], from, to)
    ensures DistinctRels(entries) ==> DistinctRels(MovedAll(entries, from, to))
  {
    MovedAt(entries, from, to);
    if DistinctRels(entries) {
      var moved := MovedAll(entries, from, to);
      forall i, j | 0 <= i < j < |moved| ensures moved[i].rel != moved[j].rel {
        RewriteBack(entries[i].rel, from, to);
        RewriteBack(entries[j].rel, from, to);
      }
    }
  }

  // ---- conservation ----

  function Origins(entries: seq<Entry>): multiset<Origin> {
    if entries == [] then multiset{} else multiset{entries[0].origin} + Origins(entries[1..])
  }

  lemma {:induction false} OriginsAppend(a: seq<Entry>, b: seq<Entry>)
    ensures Origins(a + b) == Origins(a) + Origins(b)
  {
    if a == [] {
      assert a + b == b;
    } else {
      assert (a + b)[1..] == a[1..] + b;
      OriginsAppend(a[1..], b);
    }
  }

  lemma OriginsCons(e: Entry, s: seq<Entry>)
    ensures Origins([e] + s) == multiset{e.origin} + Origins(s)
  {
    assert ([e] + s)[1..] == s;
  }

  lemma {:induction false} OriginsFree(entries: seq<Entry>, taken: set<string>)
    ensures Origins(Free(entries, taken)) <= Origins(entries)
  {
    if entries != [] {
      OriginsFree(entries[1..], taken);
      OriginsCons(entries[0], Free(entries[1..], taken));
      assert entries[0].rel in taken ==> Free(entries, taken) == Free(entries[1..], taken);
    }
  }

  lemma {:induction false} OriginsParts(entries: seq<Entry>, from: string, to: string)
    ensures Origins(MovedAll(Moving(entries, from), from, to)) + Origins(Staying(entries, from)) == Origins(entries)
  {
    if entries != [] {
      var e, rest := entries[0], entries[1..];
      OriginsParts(rest, from, to);
      if AtOrBelow(e.rel, from) {
        assert Moving(entries, from)[1..] == Moving(rest, from);
        OriginsCons(Moved(e, from, to), MovedAll(Moving(rest, from), from, to));
        assert Staying(entries, from) == Staying(rest, from);
      } else {
        OriginsCons(e, Staying(rest, from));
        assert Moving(entries, from) == Moving(rest, from);
      }
    }
  }

  lemma {:induction false} OriginsInsert(e: Entry, s: seq<Entry>)
    ensures Origins(Sorting.Insert(e, s, RelLess)) == multiset{e.origin} + Origins(s)
  {
    if s != [] && RelLess(s[0], e) {
      OriginsInsert(e, s[1..]);
      assert ([s[0]] + Sorting.Insert(e, s[1..], RelLess))[1..] == Sorting.Insert(e, s[1..], RelLess);
    } else {
      assert ([e] + s)[1..] == s;
    }
  }

  lemma {:induction false} OriginsSort(s: seq<Entry>)
    ensures Origins(Sorting.Sort(s, RelLess)) == Origins(s)
  {
    if s != [] {
      OriginsSort(s[1..]);
      OriginsInsert(s[0], Sorting.Sort(s[1..], RelLess));
    }
  }

  lemma JoinDistinct(a: seq<Entry>, b: seq<Entry>)
    requires DistinctRels(a) && DistinctRels(b) && forall x, y :: x in a && y in b ==> x.rel != y.rel
    ensures DistinctRels(a + b)
  {
  }

  lemma SortDistinct(s: seq<Entry>)
    requires DistinctRels(s)
    ensures var r := Sorting.Sort(s, RelLess);
            DistinctRels(r) && |r| == |s| && (forall e :: e in r <==> e in s) && ByPath(r)
  {
    RelOrder();
    Sorting.SortCorrect(s, RelLess);
    var r := Sorting.Sort(s, RelLess);
    forall e ensures e in r <==> e in s {
      assert e in r <==> e in multiset(r);
      assert e in s <==> e in multiset(s);
    }
    forall i, j | 0 <= i < j < |r| ensures r[i].rel != r[j].rel {
      var i', j' := Sorting.TwoPositions(s, r, i, j);
      assert i' < j' ==> s[i'].rel != s[j'].rel;
      assert j' < i' ==> s[j'].rel != s[i'].rel;
    }
    forall i, j | 0 <= i < j < |r| ensures Sorting.StringLess(r[i].rel, r[j].rel) {
      Sorting.StringTotal(r[i].rel, r[j].rel);
    }
  }

  /** One move keeps paths distinct; every entry that comes out is one that went in,
      perhaps renamed, and each counts once; the ones missing are exactly the
      overwritten ones. */
  lemma MoveConserves(entries: seq<Entry>, from: string, to: string)
    requires from != "" && to != "" && DistinctRels(entries)
    ensures DistinctRels(MoveTo(entries, from, to))
    ensures Origins(MoveTo(entries, from, to)) <= Origins(entries)
    ensures |MoveTo(entries, from, to)| + Overwritten(entries, from, to) == |entries|
    ensures Moving(entries, from) != [] ==> ByPath(MoveTo(entries, from, to))
  {
    var moving, staying := Moving(entries, from), Staying(entries, from);
    var moved := MovedAll(moving, from, to);
    var free := Free(staying, Rels(moved));
    MovingExactly(entries, from);
    PartsDistinct(entries, from);
    MovedExactly(moving, from, to);
    FreeExactly(staying, Rels(moved));
    FreeDistinct(staying, Rels(moved));
    OriginsParts(entries, from, to);
    if moved == [] {
      NothingTaken(staying);
    } else {
      JoinDistinct(free, moved);
      SortDistinct(free + moved);
      OriginsSort(free + moved);
      OriginsAppend(free, moved);
      OriginsFree(staying, Rels(moved));
      FreeShorter(staying, Rels(moved));
    }
  }

  lemma {:induction false} NothingTaken(s: seq<Entry>)
    ensures Free(s, {}) == s && Rels([]) == {}
  {
    if s != [] {
      NothingTaken(s[1..]);
    }
  }

  /** Some entry is renamed to rel. */
  ghost predicate Lands(entries: seq<Entry>, from: string, to: string, rel: string) {
    exists e :: e in entries && AtOrBelow(e.rel, from) && Rewrite(e.rel, from, to) == rel
  }

  /** What a move leaves, entry by entry: what is at or below the source goes to the same
      place below the destination, and what stays and is not in its way stays. */
  lemma MoveElements(entries: seq<Entry>, from: string, to: string, x: Entry)
    requires from != "" && to != "" && DistinctRels(entries)
    ensures x in MoveTo(entries, from, to) <==>
              || (x in entries && !AtOrBelow(x.rel, from) && !Lands(entries, from, to, x.rel))
              || (AtOrBelow(x.rel, to) && Moved(x, to, from) in entries && AtOrBelow(Rewrite(x.rel, to, from), from))
    ensures (forall e :: e in entries && !AtOrBelow(e.rel, from) ==> !Lands(entries, from, to, e.rel)) ==>
              Overwritten(entries, from, to) == 0
  {
    var moving, staying := Moving(entries, from), Staying(entries, from);
    var moved := MovedAll(moving, from, to);
    var free := Free(staying, Rels(moved));
    MovingExactly(entries, from);
    PartsDistinct(entries, from);
    MovedExactly(moving, from, to);
    FreeExactly(staying, Rels(moved));
    FreeDistinct(staying, Rels(moved));
    LandsExactly(entries, moving, moved, from, to);
    MovedElement(moving, moved, from, to, x);
    if moved != [] {
      JoinDistinct(free, moved);
      SortDistinct(free + moved);
    }
    if forall e :: e in entries && !AtOrBelow(e.rel, from) ==> !Lands(entries, from, to, e.rel) {
      FreeAll(staying, Rels(moved));
    }
  }

  lemma LandsExactly(entries: seq<Entry>, moving: seq<Entry>, moved: seq<Entry>, from: string, to: string)
    requires forall e :: e in moving <==> e in entries && AtOrBelow(e.rel, from)
    requires |moved| == |moving| && forall i :: 0 <= i < |moved| ==> moved[i] == Moved(moving[i], from, to)
    ensures forall rel :: Lands(entries, from, to, rel) <==> rel in Rels(moved)
  {
    forall rel ensures Lands(entries, from, to, rel) <==> rel in Rels(moved) {
      if Lands(entries, from, to, rel) {
        var e :| e in entries && AtOrBelow(e.rel, from) && Rewrite(e.rel, from, to) == rel;
        var i :| 0 <= i < |moving| && moving[i] == e;
        assert moved[i] in moved && moved[i].rel == rel;
      }
      if rel in Rels(moved) {
        var m :| m in moved && m.rel == rel;
        var i :| 0 <= i < |moved| && moved[i] == m;
        assert moving[i] in moving;
      }
    }
  }

  /** A move to where nothing that stays is in the way. */
  lemma FreeMove(entries: seq<Entry>, from: string, to: string, x: Entry)
    requires from != "" && to != "" && DistinctRels(entries)
    requires forall e :: e in entries && !AtOrBelow(e.rel, from) ==> !AtOrBelow(e.rel, to)
    ensures x in MoveTo(entries, from, to) <==>
              (x in entries && !AtOrBelow(x.rel, from))
              || (AtOrBelow(x.rel, to) && Moved(x, to, from) in entries && AtOrBelow(Rewrite(x.rel, to, from), from))
    ensures Overwritten(entries, from, to) == 0
  {
    forall rel | Lands(entries, from, to, rel) ensures AtOrBelow(rel, to) {
      var e :| e in entries && AtOrBelow(e.rel, from) && Rewrite(e.rel, from, to) == rel;
      RewriteBack(e.rel, from, to);
    }
    MoveElements(entries, from, to, x);
  }

  lemma MovedElement(moving: seq<Entry>, moved: seq<Entry>, from: string, to: string, x: Entry)
    requires from != "" && to != "" && forall e :: e in moving ==> AtOrBelow(e.rel, from)
    requires moved == MovedAll(moving, from, to)
    ensures x in moved <==> AtOrBelow(x.rel, to) && Moved(x, to, from) in moving
  {
    MovedExactly(moving, from, to);
    if x in moved {
      var i :| 0 <= i < |moved| && moved[i] == x;
      RewriteBack(moving[i].rel, from, to);
      assert Moved(x, to, from) == moving[i];
    }
    if AtOrBelow(x.rel, to) && Moved(x, to, from) in moving {
      var i :| 0 <= i < |moving| && moving[i] == Moved(x, to, from);
      RewriteBack(x.rel, to, from);
      assert moved[i] == x;
    }
  }

  lemma {:induction false} FreeAll(s: seq<Entry>, taken: set<string>)
    requires forall e :: e in s ==> e.rel !in taken
    ensures Free(s, taken) == s
  {
    if s != [] {
      FreeAll(s[1..], taken);
    }
  }

  /** Moving to and back restores the entries, when nothing that stays is at or
      below the destination: not even one entry, its path or its origin changes. */
  lemma MoveBack(entries: seq<Entry>, from: string, to: string)
    requires from != "" && to != "" && DistinctRels(entries)
    requires forall e :: e in entries && !AtOrBelow(e.rel, from) ==> !AtOrBelow(e.rel, to)
    ensures var back := MoveTo(MoveTo(entries, from, to), to, from);
            DistinctRels(back) && |back| == |entries| && forall e :: e in back <==> e in entries
  {
    var there := MoveTo(entries, from, to);
    MoveConserves(entries, from, to);
    MoveConserves(there, to, from);
    MovingExactly(entries, from);
    MovingExactly(there, to);
    if Moving(entries, from) == [] {
      assert there == entries;
      HeadIn(Moving(there, to));
    } else {
      MoveBackElements(entries, from, to, there);
    }
  }

  lemma HeadIn(s: seq<Entry>)
    ensures s == [] || s[0] in s
  {
  }

  lemma MoveBackElements(entries: seq<Entry>, from: string, to: string, there: seq<Entry>)
    requires from != "" && to != "" && DistinctRels(entries) && Moving(entries, from) != []
    requires forall e :: e in entries && !AtOrBelow(e.rel, from) ==> !AtOrBelow(e.rel, to)
    requires there == MoveTo(entries, from, to) && DistinctRels(there)
    ensures forall e :: e in MoveTo(there, to, from) <==> e in entries
    ensures Overwritten(entries, from, to) == 0 && Overwritten(there, to, from) == 0
  {
    MovingExactly(entries, from);
    MovingExactly(there, to);
    var e0 := Moving(entries, from)[0];
    assert e0 in entries && AtOrBelow(e0.rel, from);
    RewriteBack(e0.rel, from, to);
    var m0 := Moved(e0, from, to);
    assert Moved(m0, to, from) == e0;
    FreeMove(entries, from, to, m0);
    assert m0 in there && m0 in Moving(there, to);
    forall e | e in there && !AtOrBelow(e.rel, to) ensures !AtOrBelow(e.rel, from) {
      FreeMove(entries, from, to, e);
    }
    forall e ensures e in MoveTo(there, to, from) <==> e in entries {
      FreeMove(there, to, from, e);
      FreeMove(entries, from, to, e);
      if AtOrBelow(e.rel, from) {
        RewriteBack(e.rel, from, to);
        FreeMove(entries, from, to, Moved(e, from, to));
      }
    }
    FreeMove(there, to, from, m0);
  }

  // ---- the loops of move ----

  type ByRel = map<string, Entry>

  /** byRel holds exactly the listed entries. */
  ghost predicate Lists(byRel: ByRel, entries: seq<Entry>) {
    && (forall e :: e in entries ==> e.rel in byRel && byRel[e.rel] == e)
    && (forall r :: r in byRel ==> byRel[r] in entries && byRel[r].rel == r)
  }

  lemma SplitNext(entries: seq<Entry>, from: string, i: nat)
    requires i < |entries|
    ensures var m := AtOrBelow(entries[i].rel, from);
            && Moving(entries[i..], from) == (if m then [entries[i]] else []) + Moving(entries[i+1..], from)
            && Staying(entries[i..], from) == (if m then [] else [entries[i]]) + Staying(entries[i+1..], from)
  {
    assert entries[i..][1..] == entries[i+1..];
  }

  /** The first loop. */
  method SplitEntries(entries: seq<Entry>, from: string) returns (moving: seq<Entry>, staying: seq<Entry>)
    ensures moving == Moving(entries, from) && staying == Staying(entries, from)
  {
    moving, staying := [], [];
    var prefix := from + "/";
    for i := 0 to |entries|
      invariant moving + Moving(entries[i..], from) == Moving(entries, from)
      invariant staying + Staying(entries[i..], from) == Staying(entries, from)
    {
      SplitNext(entries, from, i);
      if entries[i].rel == from || prefix <= entries[i].rel {
        moving := moving + [entries[i]];
      } else {
        staying := staying + [entries[i]];
      }
    }
    assert entries[|entries|..] == [];
  }

  method IndexStaying(staying: seq<Entry>) returns (byRel: ByRel)
    requires DistinctRels(staying)
    ensures Lists(byRel, staying)
  {
    byRel := map[];
    for i := 0 to |staying|
      invariant Lists(byRel, staying[..i])
    {
      assert staying[..i+1] == staying[..i] + [staying[i]];
      byRel := byRel[staying[i].rel := staying[i]];
    }
    assert staying[..|staying|] == staying;
  }

  /** One rename into the map, with a warning for an entry that is overwritten. */
  method PlaceOne(staying: seq<Entry>, ghost moved: seq<Entry>, i: nat, entry: Entry, from: string, to: string,
                  byRel: ByRel, warnings: seq<Warning>)
      returns (byRel': ByRel, warnings': seq<Warning>)
    requires DistinctRels(staying) && DistinctRels(moved) && i < |moved| && moved[i] == Moved(entry, from, to)
    requires Lists(byRel, Free(staying, Rels(moved[..i])) + moved[..i])
    ensures Lists(byRel', Free(staying, Rels(moved[..i+1])) + moved[..i+1])
    ensures |warnings'| - |warnings| == |Free(staying, Rels(moved[..i]))| - |Free(staying, Rels(moved[..i+1]))|
    ensures warnings <= warnings' && forall k :: |warnings| <= k < |warnings'| ==> warnings'[k].Overwrites?
  {
    var newRel := Rewrite(entry.rel, from, to);
    warnings' := warnings;
    FreeNext(staying, moved, i, byRel);
    if newRel in byRel {
      warnings' := warnings' + [Overwrites(entry.rel, newRel, byRel[newRel].origin.abs)];
    }
    byRel' := byRel[newRel := entry.(rel := newRel)];
  }

  /** A rename takes at most one entry off the free ones, and that exactly when its
      new path was in the map. */
  lemma FreeNext(staying: seq<Entry>, moved: seq<Entry>, i: nat, byRel: ByRel)
    requires DistinctRels(staying) && DistinctRels(moved) && i < |moved|
    requires Lists(byRel, Free(staying, Rels(moved[..i])) + moved[..i])
    ensures var free, free' := Free(staying, Rels(moved[..i])), Free(staying, Rels(moved[..i+1]));
            && |free'| == |free| - (if moved[i].rel in byRel then 1 else 0)
            && Lists(byRel[moved[i].rel := moved[i]], free' + moved[..i+1])
  {
    var m, taken := moved[i], Rels(moved[..i]);
    assert moved[..i+1] == moved[..i] + [m];
    assert Rels(moved[..i+1]) == taken + {m.rel};
    assert forall e :: e in moved[..i] ==> e.rel != m.rel;
    FreeExactly(staying, taken);
    FreeExactly(staying, taken + {m.rel});
    FreeMore(staying, taken, m.rel);
    InFree(staying, taken, moved[..i], m.rel, byRel);
    ListsNext(byRel, Free(staying, taken), Free(staying, taken + {m.rel}), moved[..i], m);
  }

  lemma ListsNext(byRel: ByRel, free: seq<Entry>, free': seq<Entry>, placed: seq<Entry>, m: Entry)
    requires Lists(byRel, free + placed) && forall e :: e in placed ==> e.rel != m.rel
    requires forall e :: e in free' <==> e in free && e.rel != m.rel
    ensures Lists(byRel[m.rel := m], free' + (placed + [m]))
  {
    var next := free' + (placed + [m]);
    assert forall e :: e in next <==> e in free' || e in placed || e == m;
    assert forall e :: e in free + placed <==> e in free || e in placed;
  }

  lemma InFree(staying: seq<Entry>, taken: set<string>, placed: seq<Entry>, r: string, byRel: ByRel)
    requires Lists(byRel, Free(staying, taken) + placed) && r !in taken && forall e :: e in placed ==> e.rel != r
    ensures r in byRel <==> exists e :: e in staying && e.rel == r
  {
    FreeExactly(staying, taken);
    if r in byRel {
      assert byRel[r] in Free(staying, taken);
    }
  }

  /** The second loop. */
  method PlaceMoving(staying: seq<Entry>, moving: seq<Entry>, from: string, to: string, byRel: ByRel,
                     warnings: seq<Warning>)
      returns (byRel': ByRel, warnings': seq<Warning>)
    requires DistinctRels(staying) && DistinctRels(moving) && Lists(byRel, staying)
    requires from != "" && to != "" && forall e :: e in moving ==> AtOrBelow(e.rel, from)
    ensures var moved := MovedAll(moving, from, to);
            && Lists(byRel', Free(staying, Rels(moved)) + moved)
            && |warnings'| == |warnings| + |staying| - |Free(staying, Rels(moved))|
    ensures warnings <= warnings' && forall k :: |warnings| <= k < |warnings'| ==> warnings'[k].Overwrites?
  {
    byRel', warnings' := byRel, warnings;
    ghost var moved := MovedAll(moving, from, to);
    MovedExactly(moving, from, to);
    NothingTaken(staying);
    assert moved[..0] == [] && staying + [] == staying;
    for i := 0 to |moving|
      invariant Lists(byRel', Free(staying, Rels(moved[..i])) + moved[..i])
      invariant |warnings'| == |warnings| + |staying| - |Free(staying, Rels(moved[..i]))|
      invariant warnings <= warnings' && forall k :: |warnings| <= k < |warnings'| ==> warnings'[k].Overwrites?
    {
      byRel', warnings' := PlaceOne(staying, moved, i, moving[i], from, to, byRel', warnings');
    }
    assert moved[..|moving|] == moved;
  }

  lemma {:induction false} FreeMore(s: seq<Entry>, taken: set<string>, r: string)
    requires DistinctRels(s) && r !in taken
    ensures |Free(s, taken + {r})| == |Free(s, taken)| - (if exists e :: e in s && e.rel == r then 1 else 0)
  {
    if s != [] {
      HeadDiffers(s);
      FreeMore(s[1..], taken, r);
      assert s == [s[0]] + s[1..];
    }
  }

  /** The entries of the map in whatever order the map is walked, then sorted. */
  method Collect(byRel: ByRel, ghost entries: seq<Entry>) returns (out: seq<Entry>)
    requires DistinctRels(entries) && Lists(byRel, entries)
    ensures out == Sorting.Sort(entries, RelLess)
  {
    out := [];
    var todo := byRel.Keys;
    while todo != {}
      invariant todo <= byRel.Keys
      invariant forall e :: e in out <==> e in entries && e.rel !in todo
      invariant DistinctRels(out)
    {
      var r :| r in todo;
      out := out + [byRel[r]];
      todo := todo - {r};
    }
    SameMultiset(out, entries);
    RelOrder();
    SortDistinct(entries);
    Sorting.SortCorrect(entries, RelLess);
    Sorting.SortCorrect(out, RelLess);
    forall x, y | x in multiset(out) && y in multiset(out) && x != y ensures RelLess(x, y) || RelLess(y, x) {
      DistinctDiffer(out, x, y);
      Sorting.StringTotal(x.rel, y.rel);
    }
    Sorting.OrderedIsUnique(Sorting.Sort(out, RelLess), Sorting.Sort(entries, RelLess), RelLess);
    out := Sorting.Sort(out, RelLess);
  }

  lemma DistinctDiffer(s: seq<Entry>, x: Entry, y: Entry)
    requires DistinctRels(s) && x in s && y in s && x != y
    ensures x.rel != y.rel
  {
    var i :| 0 <= i < |s| && s[i] == x;
    var j :| 0 <= j < |s| && s[j] == y;
  }

  lemma {:induction false} SameMultiset(a: seq<Entry>, b: seq<Entry>)
    requires DistinctRels(a) && DistinctRels(b) && forall e :: e in a <==> e in b
    ensures multiset(a) == multiset(b)
  {
    forall e ensures multiset(a)[e] == multiset(b)[e] {
      CountOnce(a, e);
      CountOnce(b, e);
    }
  }

  lemma {:induction false} CountOnce(s: seq<Entry>, e: Entry)
    requires DistinctRels(s)
    ensures multiset(s)[e] == if e in s then 1 else 0
  {
    if s != [] {
      HeadDiffers(s);
      CountOnce(s[1..], e);
      assert s == [s[0]] + s[1..];
    }
  }

  /** move, with the paths already cleaned. */
  method MoveStep(entries: seq<Entry>, from: string, to: string, warnings: seq<Warning>)
      returns (out: seq<Entry>, warnings': seq<Warning>)
    requires from != "" && to != "" && DistinctRels(entries)
    ensures out == MoveTo(entries, from, to)
    ensures warnings <= warnings'
    ensures Moving(entries, from) == [] ==> warnings' == warnings + [MissingSource(from)]
    ensures Moving(entries, from) != [] ==>
              |warnings'| == |warnings| + Overwritten(entries, from, to)
              && forall k :: |warnings| <= k < |warnings'| ==> warnings'[k].Overwrites?
  {
    var moving, staying := SplitEntries(entries, from);
    PartsDistinct(entries, from);
    MovingExactly(entries, from);
    MovedExactly(moving, from, to);
    if |moving| == 0 {
      return entries, warnings + [MissingSource(from)];
    }
    var byRel := IndexStaying(staying);
    byRel, warnings' := PlaceMoving(staying, moving, from, to, byRel, warnings);
    ghost var moved := MovedAll(moving, from, to);
    FreeExactly(staying, Rels(moved));
    FreeDistinct(staying, Rels(moved));
    JoinDistinct(Free(staying, Rels(moved)), moved);
    out := Collect(byRel, Free(staying, Rels(moved)) + moved);
  }

  // ---- facts about Clean ----

  /** A segment that path.Clean keeps. */
  predicate Proper(seg: string) {
    seg != "" && seg != "." && seg != ".." && '/' !in seg
  }

  lemma {:induction false} KeptExactly(segs: seq<string>)
    ensures forall x :: x in Kept(segs) <==> x in segs && x != "" && x != "."
  {
    if segs != [] {
      KeptExactly(segs[1..]);
      assert segs == [segs[0]] + segs[1..];
    }
  }

  lemma {:induction false} KeptShorter(segs: seq<string>)
    requires Kept(segs) != []
    ensures |Join(Kept(segs), '/')| <= |Join(segs, '/')|
  {
    var rest := segs[1..];
    var kept := Kept(rest);
    if kept != [] {
      KeptShorter(rest);
      if Kept(segs) == kept {
        assert Join(segs, '/') == segs[0] + "/" + Join(rest, '/');
      } else {
        assert Kept(segs) == [segs[0]] + kept && ([segs[0]] + kept)[1..] == kept;
        assert Join(Kept(segs), '/') == segs[0] + "/" + Join(kept, '/');
      }
    } else {
      assert Kept(segs) == [segs[0]];
    }
  }

  lemma {:induction false} KeptAll(segs: seq<string>)
    requires forall x :: x in segs ==> Proper(x)
    ensures Kept(segs) == segs
  {
    if segs != [] {
      assert segs[0] in segs;
      KeptAll(segs[1..]);
    }
  }

  lemma {:induction false} JoinEnds(segs: seq<string>)
    requires segs != [] && forall x :: x in segs ==> Proper(x)
    ensures Join(segs, '/') != "" && Join(segs, '/')[0] != '/' && Join(segs, '/')[|Join(segs, '/')|-1] != '/'
  {
    assert segs[0] in segs;
    if |segs| > 1 {
      JoinEnds(segs[1..]);
    }
  }

  lemma {:induction false} SlashesShorter(p: string)
    ensures |TrimSlashes(p)| <= |p|
    ensures p == [] || (p[0] != '/' && p[|p|-1] != '/') ==> TrimSlashes(p) == p
  {
    if p != [] && p[0] == '/' {
      SlashesShorter(p[1..]);
    } else if p != [] && p[|p|-1] == '/' {
      SlashesShorter(p[..|p|-1]);
    }
  }

  /** What Clean accepts it turns into proper segments joined by single slashes. */
  lemma CleanSegments(p: string) returns (segs: seq<string>)
    requires Clean(p).Some?
    ensures segs != [] && (forall x :: x in segs ==> Proper(x)) && Clean(p).value == Join(segs, '/')
    ensures |Clean(p).value| <= |TrimSpace(p)| && Clean(p).value != ""
  {
    var q := TrimSlashes(TrimSpace(p));
    segs := Kept(Split(q, '/'));
    KeptExactly(Split(q, '/'));
    KeptShorter(Split(q, '/'));
    JoinSplit(q, '/');
    SlashesShorter(TrimSpace(p));
    JoinEnds(segs);
  }

  /** Cleaning again changes nothing, unless trimming the slashes has laid bare a
      space at an end: space is only trimmed before the slashes are. */
  lemma CleanAgain(p: string)
    requires Clean(p).Some?
    ensures Clean(Clean(p).value) == Clean(p) <==> Trimmed(Clean(p).value)
  {
    var c := Clean(p).value;
    var segs := CleanSegments(p);
    TrimShorter(c);
    if Trimmed(c) {
      JoinEnds(segs);
      SlashesShorter(c);
      SplitJoin(segs, '/');
      KeptAll(segs);
      JoinProper(segs);
    } else if Clean(c).Some? {
      var _ := CleanSegments(c);
    }
  }

  lemma JoinProper(segs: seq<string>)
    requires segs != [] && forall x :: x in segs ==> Proper(x)
    ensures Join(segs, '/') != "."
  {
    assert segs[0] in segs;
    if |segs| > 1 {
      assert segs[1] in segs;
    }
  }

  /** A path that leads out of the tree or nowhere: some segment is "..", or all are empty
      or ".". */
  predicate Unclean(p: string) {
    var segs := Split(TrimSpace(p), '/');
    ".." in segs || forall x :: x in segs ==> x == "" || x == "."
  }

  /** Clean refuses those paths and no others. */
  lemma CleanRefuses(p: string)
    ensures Clean(p).None? <==> Unclean(p)
  {
    var q := TrimSlashes(TrimSpace(p));
    SlashesSegments(TrimSpace(p));
    KeptExactly(Split(q, '/'));
    if q == "" || q == "." {
      SplitNone(q, '/');
    }
    if Kept(Split(q, '/')) != [] {
      assert Kept(Split(q, '/'))[0] in Kept(Split(q, '/'));
    }
  }

  /** Trimming slashes takes only empty segments away. */
  lemma {:induction false} SlashesSegments(p: string)
    ensures forall x :: x != "" ==> (x in Split(p, '/') <==> x in Split(TrimSlashes(p), '/'))
    decreases |p|
  {
    if p != [] && p[0] == '/' {
      SlashesSegments(p[1..]);
      assert p == [] + (['/'] + p[1..]);
      SplitFirst([], p[1..], '/');
    } else if p != [] && p[|p|-1] == '/' {
      SlashesSegments(p[..|p|-1]);
      SplitEnd(p[..|p|-1]);
      assert p == p[..|p|-1] + ['/'];
    }
  }

  lemma {:induction false} SplitEnd(p: string)
    ensures Split(p + ['/'], '/') == Split(p, '/') + [""]
  {
    if p == [] {
      assert ([] + ['/']) == ['/'] && ['/'][1..] == [];
    } else {
      assert (p + ['/'])[1..] == p[1..] + ['/'];
      SplitEnd(p[1..]);
    }
  }

  // ---- the pipeline ----

  /** One step; None is an error that ends the pipeline. */
  function StepTo(entries: seq<Entry>, step: Step): Option<seq<Entry>> {
    match step
    case Skipped => Some(entries)
    case Require(passes) => if passes(entries) then Some(entries) else None
    case Move(from, to) =>
      if Clean(from).None? || Clean(to).None? then None
      else Some(MoveTo(entries, Clean(from).value, Clean(to).value))
  }

  function StepsTo(entries: seq<Entry>, steps: seq<Step>): Option<seq<Entry>>
    decreases |steps|
  {
    if steps == [] then Some(entries)
    else
      var next := StepTo(entries, steps[0]);
      if next.None? then None else StepsTo(next.value, steps[1..])
  }

  /** The step cannot be done on these entries. */
  predicate Stops(step: Step, entries: seq<Entry>) {
    match step
    case Skipped => false
    case Require(passes) => !passes(entries)
    case Move(from, to) => Unclean(from) || Unclean(to)
  }

  /** Step k is reached, on these entries, and cannot be done. */
  predicate StopsAt(entries: seq<Entry>, steps: seq<Step>, k: nat)
    requires k < |steps|
  {
    var reached := StepsTo(entries, steps[..k]);
    reached.Some? && Stops(steps[k], reached.value)
  }

  /** A pipeline fails if and only if some step that is reached has an unclean path or a
      check that does not pass. */
  lemma {:induction false} FailsExactly(entries: seq<Entry>, steps: seq<Step>)
    ensures StepsTo(entries, steps).None? <==> exists k :: 0 <= k < |steps| && StopsAt(entries, steps, k)
    decreases |steps|
  {
    if steps != [] {
      var next := StepTo(entries, steps[0]);
      StepStops(entries, steps[0]);
      assert steps[..0] == [];
      assert StopsAt(entries, steps, 0) <==> next.None?;
      if next.Some? {
        FailsExactly(next.value, steps[1..]);
        forall k | 0 < k < |steps| ensures StopsAt(entries, steps, k) <==> StopsAt(next.value, steps[1..], k - 1) {
          assert steps[..k][1..] == steps[1..][..k-1];
        }
        if k :| 0 <= k < |steps[1..]| && StopsAt(next.value, steps[1..], k) {
          assert StopsAt(entries, steps, k + 1);
        }
      }
    }
  }

  lemma StepStops(entries: seq<Entry>, step: Step)
    ensures StepTo(entries, step).None? <==> Stops(step, entries)
  {
    if step.Move? {
      CleanRefuses(step.from);
      CleanRefuses(step.to);
    }
  }

  function CountOverwrites(ws: seq<Warning>): nat {
    if ws == [] then 0 else (if ws[|ws|-1].Overwrites? then 1 else 0) + CountOverwrites(ws[..|ws|-1])
  }

  lemma {:induction false} CountMore(ws: seq<Warning>, ws': seq<Warning>)
    requires ws <= ws' && forall k :: |ws| <= k < |ws'| ==> ws'[k].Overwrites?
    ensures CountOverwrites(ws') == CountOverwrites(ws) + |ws'| - |ws|
    decreases |ws'|
  {
    if ws != ws' {
      CountMore(ws, ws'[..|ws'|-1]);
    }
  }

  function StepsOf(steps: map<string, Step>, names: seq<string>): seq<Step>
    requires forall n :: n in names ==> n in steps
  {
    seq(|names|, i requires 0 <= i < |names| => steps[names[i]])
  }

  /** The outcome of the steps in name order; there is one such order
      (Sorting.ListingUnique). */
  ghost predicate InNameOrder(out: Option<seq<Entry>>, entries: seq<Entry>, steps: map<string, Step>) {
    exists names :: Sorting.Listing(names, steps.Keys) && out == StepsTo(entries, StepsOf(steps, names))
  }

  ghost predicate FailsInNameOrder(entries: seq<Entry>, steps: map<string, Step>) {
    exists names, k :: Sorting.Listing(names, steps.Keys) && 0 <= k < |names|
                       && StopsAt(entries, StepsOf(steps, names), k)
  }

  /** Apply: it fails exactly if some step stops it; if it succeeds, paths are distinct,
      every file that comes out is one that went in, and what went in is what came out
      plus one file for every overwrite warning. */
  method Apply(steps: map<string, Step>, entries: seq<Entry>) returns (out: Option<seq<Entry>>, warnings: seq<Warning>)
    requires DistinctRels(entries)
    ensures InNameOrder(out, entries, steps)
    ensures out.None? <==> FailsInNameOrder(entries, steps)
    ensures out.Some? ==> DistinctRels(out.value) && Origins(out.value) <= Origins(entries)
    ensures out.Some? ==> |out.value| + CountOverwrites(warnings) == |entries|
  {
    var names := Sorting.SortedKeys(steps.Keys);
    out, warnings := ApplyAll(StepsOf(steps, names), entries);
    FailsExactly(entries, StepsOf(steps, names));
    forall names' | Sorting.Listing(names', steps.Keys) ensures names' == names {
      Sorting.ListingUnique(names, names', steps.Keys);
    }
  }

  /** The loop over the named steps. */
  method ApplyAll(steps: seq<Step>, entries: seq<Entry>) returns (out: Option<seq<Entry>>, warnings: seq<Warning>)
    requires DistinctRels(entries)
    ensures out == StepsTo(entries, steps)
    ensures out.Some? ==> DistinctRels(out.value) && Origins(out.value) <= Origins(entries)
    ensures out.Some? ==> |out.value| + CountOverwrites(warnings) == |entries|
  {
    var current := entries;
    warnings := [];
    for i := 0 to |steps|
      invariant StepsTo(current, steps[i..]) == StepsTo(entries, steps)
      invariant DistinctRels(current) && Origins(current) <= Origins(entries)
      invariant |current| + CountOverwrites(warnings) == |entries|
    {
      assert steps[i..][1..] == steps[i+1..];
      var ok;
      ok, current, warnings := ApplyOne(steps[i], current, warnings);
      if !ok {
        return None, warnings;
      }
    }
    assert steps[|steps|..] == [];
    return Some(current), warnings;
  }

  method ApplyOne(step: Step, entries: seq<Entry>, warnings: seq<Warning>)
      returns (ok: bool, out: seq<Entry>, warnings': seq<Warning>)
    requires DistinctRels(entries)
    ensures ok == StepTo(entries, step).Some?
    ensures ok ==> out == StepTo(entries, step).value && DistinctRels(out) && Origins(out) <= Origins(entries)
    ensures ok ==> |out| + CountOverwrites(warnings') == |entries| + CountOverwrites(warnings)
  {
    match step
    case Skipped => return true, entries, warnings;
    case Require(passes) => return passes(entries), entries, warnings;
    case Move(rawFrom, rawTo) =>
      var from := Clean(rawFrom);
      if from.None? {
        return false, entries, warnings;
      }
      var to := Clean(rawTo);
      if to.None? {
        return false, entries, warnings;
      }
      ghost var _ := CleanSegments(rawFrom);
      ghost var _ := CleanSegments(rawTo);
      MoveConserves(entries, from.value, to.value);
      out, warnings' := MoveStep(entries, from.value, to.value, warnings);
      ok := true;
      if Moving(entries, from.value) == [] {
        assert warnings'[..|warnings|] == warnings;
      } else {
        CountMore(warnings, warnings');
      }
  }
}
