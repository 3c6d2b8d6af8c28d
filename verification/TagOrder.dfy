/** internal/modfile/tag_spec.go: ranking release tags and picking the newest. */
module TagOrder {
  import opened Common
  import opened Text
  import Sorting
  import SemVer

  datatype Rank = Rank(nums: seq<int>, pre: seq<string>, raw: string, lexical: bool)

  // ---- the order ----

  /** What a version is compared by, position by position. Behind the end of a
      prerelease stands Absent; a release stands above every prerelease. */
  datatype Key = Absent | Num(n: int) | Alpha(s: string) | Release

  function Class(k: Key): nat {
    match k case Absent => 0 case Num(_) => 1 case Alpha(_) => 2 case Release => 3
  }

  predicate KeyAbove(k: Key, l: Key) {
    if Class(k) != Class(l) then Class(k) > Class(l)
    else (k.Num? && k.n > l.n) || (k.Alpha? && Sorting.StringLess(l.s, k.s))
  }

  /** An identifier that reads as a number is one. */
  function KeyOf(ident: string): Key {
    var n := Atoi(ident);
    if n.Some? then Num(n.value) else Alpha(ident)
  }

  datatype Keys = Nums(nums: seq<int>) | Pre(pre: seq<string>)

  /** Numbers go on with zeros. */
  function At(k: Keys, i: nat): Key {
    match k
    case Nums(nums) => Num(if i < |nums| then nums[i] else 0)
    case Pre(pre) =>
      if pre == [] then Release
      else if i < |pre| then KeyOf(pre[i])
      else Absent
  }

  predicate AgreeTo(k: Keys, l: Keys, n: nat) {
    forall i: nat :: i < n ==> At(k, i) == At(l, i)
  }

  ghost predicate Same(k: Keys, l: Keys) {
    forall i: nat :: At(k, i) == At(l, i)
  }

  /** The first position where they differ decides. */
  ghost predicate Above(k: Keys, l: Keys) {
    exists i: nat :: AgreeTo(k, l, i) && KeyAbove(At(k, i), At(l, i))
  }

  /** What newerThan makes of two ranks that were parsed as numbers. */
  ghost predicate Precedes(b: Rank, a: Rank) {
    || Above(Nums(a.nums), Nums(b.nums))
    || (Same(Nums(a.nums), Nums(b.nums)) && Above(Pre(a.pre), Pre(b.pre)))
  }

  ghost predicate Newer(a: Rank, b: Rank) {
    if a.lexical || b.lexical then Sorting.StringLess(b.raw, a.raw) else Precedes(b, a)
  }

  ghost predicate SameRank(a: Rank, b: Rank) {
    if a.lexical || b.lexical then a.raw == b.raw
    else Same(Nums(a.nums), Nums(b.nums)) && Same(Pre(a.pre), Pre(b.pre))
  }

  lemma KeyOrder(k: Key, l: Key)
    ensures KeyAbove(k, l) || KeyAbove(l, k) <==> k != l
    ensures !(KeyAbove(k, l) && KeyAbove(l, k))
  {
    if k.Alpha? && l.Alpha? {
      Sorting.StringTotal(k.s, l.s);
    }
  }

  lemma KeySplit(k: Key, l: Key, m: Key)
    requires KeyAbove(k, m)
    ensures KeyAbove(k, l) || KeyAbove(l, m)
  {
    if k.Alpha? && l.Alpha? && m.Alpha? {
      Sorting.StringSplit(m.s, l.s, k.s);
    }
  }

  lemma {:induction false} FirstDifference(k: Keys, l: Keys, n: nat) returns (i: nat)
    ensures i <= n && AgreeTo(k, l, i)
    ensures i < n ==> At(k, i) != At(l, i)
  {
    i := 0;
    while i < n && At(k, i) == At(l, i)
      invariant i <= n && AgreeTo(k, l, i)
    {
      i := i + 1;
    }
  }

  lemma AboveTotal(k: Keys, l: Keys)
    requires !Same(k, l)
    ensures Above(k, l) || Above(l, k)
  {
    var n: nat :| At(k, n) != At(l, n);
    var i := FirstDifference(k, l, n);
    KeyOrder(At(k, i), At(l, i));
    assert AgreeTo(l, k, i);
  }

  lemma AboveStrict(k: Keys, l: Keys)
    requires Above(k, l)
    ensures !Same(k, l) && !Above(l, k)
  {
    var i: nat :| AgreeTo(k, l, i) && KeyAbove(At(k, i), At(l, i));
    KeyOrder(At(k, i), At(l, i));
    forall j: nat | AgreeTo(l, k, j) ensures !KeyAbove(At(l, j), At(k, j)) {
      KeyOrder(At(l, j), At(k, j));
    }
  }

  lemma AboveOrder(k: Keys, l: Keys)
    ensures Above(k, l) || Above(l, k) <==> !Same(k, l)
    ensures !(Above(k, l) && Above(l, k))
  {
    if !Same(k, l) {
      AboveTotal(k, l);
    }
    if Above(k, l) {
      AboveStrict(k, l);
    }
    if Above(l, k) {
      AboveStrict(l, k);
    }
  }

  lemma AboveSplit(k: Keys, l: Keys, m: Keys)
    requires Above(k, m)
    ensures Above(k, l) || Above(l, m)
  {
    var n: nat :| AgreeTo(k, m, n) && KeyAbove(At(k, n), At(m, n));
    var i := FirstDifference(k, l, n);
    if i < n {
      KeyOrder(At(k, i), At(l, i));
      assert AgreeTo(l, m, i) && At(m, i) == At(k, i);
    } else {
      KeySplit(At(k, n), At(l, n), At(m, n));
      assert AgreeTo(l, m, n);
    }
  }

  lemma AboveSame(k: Keys, k': Keys, l: Keys, l': Keys)
    requires Same(k, k') && Same(l, l') && Above(k, l)
    ensures Above(k', l')
  {
    var n: nat :| AgreeTo(k, l, n) && KeyAbove(At(k, n), At(l, n));
    assert AgreeTo(k', l', n);
  }

  /** On ranks parsed alike, newer is a strict weak order; what ties has the same
      numbers, up to trailing zeros, and the same prerelease. */
  lemma NewerIsWeakOrder(a: Rank, b: Rank, c: Rank)
    requires a.lexical == b.lexical == c.lexical
    ensures !(Newer(a, b) && Newer(b, a))
    ensures Newer(a, c) ==> Newer(a, b) || Newer(b, c)
    ensures !Newer(a, b) && !Newer(b, a) <==> SameRank(a, b)
  {
    if a.lexical {
      Sorting.StringTotal(a.raw, b.raw);
      if Newer(a, c) {
        Sorting.StringSplit(c.raw, b.raw, a.raw);
      }
    } else {
      PrecedesOrder(a, b);
      if Newer(a, c) {
        PrecedesSplit(a, b, c);
      }
    }
  }

  lemma PrecedesOrder(a: Rank, b: Rank)
    ensures !(Precedes(b, a) && Precedes(a, b))
    ensures !Precedes(b, a) && !Precedes(a, b) <==> Same(Nums(a.nums), Nums(b.nums)) && Same(Pre(a.pre), Pre(b.pre))
  {
    AboveOrder(Nums(a.nums), Nums(b.nums));
    AboveOrder(Nums(b.nums), Nums(a.nums));
    AboveOrder(Pre(a.pre), Pre(b.pre));
    AboveOrder(Pre(b.pre), Pre(a.pre));
  }

  lemma PrecedesSplit(a: Rank, b: Rank, c: Rank)
    requires Precedes(c, a)
    ensures Precedes(b, a) || Precedes(c, b)
  {
    var ka, kb, kc := Nums(a.nums), Nums(b.nums), Nums(c.nums);
    AboveOrder(ka, kb);
    AboveOrder(kb, kc);
    if Above(ka, kc) {
      AboveSplit(ka, kb, kc);
    } else if Same(ka, kb) {
      assert Same(kb, kc);
      AboveSplit(Pre(a.pre), Pre(b.pre), Pre(c.pre));
    } else if Above(kb, ka) {
      AboveSame(kb, kb, ka, kc);
    }
  }

  /** Read together the two kinds of rank have no order: each of three tags is newer
      than the next, all around. */
  lemma MixedRanksCycle() returns (a: string, b: string, c: string)
    ensures var x, y, z := ParseRank(a), ParseRank(b), ParseRank(c);
            Newer(x, y) && Newer(y, z) && Newer(z, x)
  {
    a, b, c := "10", "9", "5x";
    TenNine();
    FiveX();
    CycleOrder("10", "9", "5x");
  }

  lemma CycleOrder(ten: string, nine: string, five: string)
    requires ten != "" && ten[0] == '1' && nine != "" && nine[0] == '9' && five != "" && five[0] == '5'
    ensures var x, y, z := Rank([10], [], ten, false), Rank([9], [], nine, false), Rank([], [], five, true);
            Newer(x, y) && Newer(y, z) && Newer(z, x)
  {
    assert At(Nums([10]), 0) == Num(10) && At(Nums([9]), 0) == Num(9);
    assert AgreeTo(Nums([10]), Nums([9]), 0);
  }

  lemma TenNine()
    ensures ParseRank("10") == Rank([10], [], "10", false) && ParseRank("9") == Rank([9], [], "9", false)
  {
    OneNumber(10);
    OneNumber(9);
    assert Itoa(10) == "10" && Itoa(9) == "9";
    PrintedParses([10], []);
    PrintedParses([9], []);
  }

  lemma FiveX()
    ensures ParseRank("5x") == Rank([], [], "5x", true)
  {
    NotANumber("5x");
    RankParts("5x", "5x", "");
  }

  lemma NotANumber(s: string)
    requires s != [] && '.' !in s && IsDigit(s[0]) && !IsDigit(s[|s|-1])
    ensures ParseNums(Split(s, '.'), Atoi) == None
  {
    SplitNone(s, '.');
  }

  lemma OneNumber(n: nat)
    ensures PrintVersion([n], []) == Itoa(n)
  {
    assert PrintNums([n]) == [Itoa(n)];
  }

  // ---- against section 11 of Semantic Versioning ----

  function VersionOf(r: Rank): SemVer.Version {
    SemVer.Version(r.nums, SemVer.WithoutBuild(r.pre))
  }

  /** An identifier without build metadata whose digits fit 64 bits, and that reads as
      a number only if it is all digits. */
  predicate WellRead(id: string) {
    && '+' !in id
    && (SemVer.IsNumeric(id) ==> ValueOf(id) <= MAX_INT)
    && (Atoi(id).Some? ==> SemVer.IsNumeric(id))
  }

  predicate AllWellRead(pre: seq<string>) {
    forall i :: 0 <= i < |pre| ==> WellRead(pre[i])
  }

  lemma WellReadKey(id: string)
    requires WellRead(id)
    ensures KeyOf(id) == if SemVer.IsNumeric(id) then Num(ValueOf(id)) else Alpha(id)
  {
    if SemVer.IsNumeric(id) {
      assert IsDigit(id[0]);
    }
  }

  lemma IdentsAgree(x: string, y: string)
    requires WellRead(x) && WellRead(y)
    ensures SemVer.IdentBelow(x, y) <==> KeyAbove(KeyOf(y), KeyOf(x))
  {
    WellReadKey(x);
    WellReadKey(y);
  }

  lemma {:induction false} NumsAgree(m: seq<int>, n: seq<int>)
    ensures SemVer.NumsBelow(m, n) <==> Above(Nums(n), Nums(m))
    decreases |m| + |n|
  {
    if m != [] || n != [] {
      var m', n' := SemVer.Rest(m), SemVer.Rest(n);
      NumsAgree(m', n');
      if SemVer.First(m) < SemVer.First(n) {
        AboveAt(Nums(n), Nums(m), 0);
      } else if SemVer.First(n) < SemVer.First(m) {
        AboveAt(Nums(m), Nums(n), 0);
      } else {
        NumsShift(m, n);
      }
    }
  }

  lemma NumsShift(m: seq<int>, n: seq<int>)
    requires SemVer.First(m) == SemVer.First(n)
    ensures Above(Nums(n), Nums(m)) <==> Above(Nums(SemVer.Rest(n)), Nums(SemVer.Rest(m)))
  {
    var k, l := Nums(n), Nums(m);
    var k', l' := Nums(SemVer.Rest(n)), Nums(SemVer.Rest(m));
    assert forall i: nat :: At(k', i) == At(k, i + 1) && At(l', i) == At(l, i + 1);
    assert At(k, 0) == At(l, 0);
    if Above(k, l) {
      var i: nat :| AgreeTo(k, l, i) && KeyAbove(At(k, i), At(l, i));
      KeyOrder(At(k, 0), At(l, 0));
      assert AgreeTo(k', l', i - 1);
    }
    if Above(k', l') {
      var i: nat :| AgreeTo(k', l', i) && KeyAbove(At(k', i), At(l', i));
      forall j: nat | j < i + 1 ensures At(k, j) == At(l, j) {
        assert j > 0 ==> At(k', j - 1) == At(l', j - 1);
      }
      assert AgreeTo(k, l, i + 1);
    }
  }

  /** Behind n equal identifiers. */
  lemma {:induction false} PreAgree(p: seq<string>, q: seq<string>, n: nat)
    requires p != [] && q != [] && AllWellRead(p) && AllWellRead(q)
    requires n <= |p| && n <= |q| && AgreeTo(Pre(q), Pre(p), n)
    ensures SemVer.PreBelow(p[n..], q[n..]) <==> Above(Pre(q), Pre(p))
    decreases |p| - n
  {
    if n == |q| {
      forall i: nat | AgreeTo(Pre(q), Pre(p), i) ensures !KeyAbove(At(Pre(q), i), At(Pre(p), i)) {
        KeyOrder(At(Pre(q), i), At(Pre(p), i));
      }
    } else if n == |p| {
      AboveAt(Pre(q), Pre(p), n);
    } else {
      IdentsAgree(p[n], q[n]);
      IdentsAgree(q[n], p[n]);
      KeyOrder(KeyOf(p[n]), KeyOf(q[n]));
      assert p[n..][1..] == p[n+1..] && q[n..][1..] == q[n+1..];
      if SemVer.IdentBelow(p[n], q[n]) {
        AboveAt(Pre(q), Pre(p), n);
      } else if SemVer.IdentBelow(q[n], p[n]) {
        AboveAt(Pre(p), Pre(q), n);
        SemVer.IdentStrict(p[n], q[n]);
      } else {
        PreAgree(p, q, n + 1);
      }
    }
  }

  lemma NothingToDrop(pre: seq<string>)
    requires AllWellRead(pre)
    ensures SemVer.WithoutBuild(pre) == pre
  {
    forall id | id in pre ensures '+' !in id {
      var i :| 0 <= i < |pre| && pre[i] == id;
      assert WellRead(pre[i]);
    }
    SemVer.BuildBehind(pre, []);
    assert pre + [] == pre;
  }

  /** A release is above what has a prerelease, and nothing else is decided by having
      none. */
  lemma ReleaseAbove(p: seq<string>, q: seq<string>)
    requires p == [] || q == []
    ensures Above(Pre(q), Pre(p)) <==> p != [] && q == []
  {
    if p != [] && q == [] {
      assert At(Pre(p), 0) != Release;
      AboveAt(Pre(q), Pre(p), 0);
    } else if p == [] && q != [] {
      assert At(Pre(q), 0) != Release;
      AboveAt(Pre(p), Pre(q), 0);
    }
  }

  /** On identifiers that are well read newerThan is precedence. */
  lemma WellReadAgree(a: Rank, b: Rank)
    requires !a.lexical && !b.lexical && AllWellRead(a.pre) && AllWellRead(b.pre)
    ensures Newer(a, b) <==> SemVer.Below(VersionOf(b), VersionOf(a))
  {
    NothingToDrop(a.pre);
    NothingToDrop(b.pre);
    NumsAgree(b.nums, a.nums);
    NumsAgree(a.nums, b.nums);
    AboveOrder(Nums(a.nums), Nums(b.nums));
    AboveOrder(Nums(b.nums), Nums(a.nums));
    if a.pre == [] || b.pre == [] {
      ReleaseAbove(b.pre, a.pre);
    } else {
      PreAgree(b.pre, a.pre, 0);
      assert b.pre[0..] == b.pre && a.pre[0..] == a.pre;
    }
  }

  // One identifier that is not well read is enough to be ranked wrongly against some
  // version whose identifiers all are.

  /** The two verdicts on x and y are strictly opposed. */
  predicate Opposed(x: string, y: string) {
    || (KeyAbove(KeyOf(x), KeyOf(y)) && SemVer.IdentBelow(x, y))
    || (KeyAbove(KeyOf(y), KeyOf(x)) && SemVer.IdentBelow(y, x))
  }

  lemma LongNumber(x: string)
    requires SemVer.IsNumeric(x) && ValueOf(x) > MAX_INT
    ensures WellRead("-") && Opposed(x, "-")
  {
    assert IsDigit(x[0]);
    assert "-"[1..] == "";
  }

  lemma SignedNumber(x: string)
    requires '+' !in x && Atoi(x).Some? && !SemVer.IsNumeric(x)
    ensures WellRead("1") && Opposed(x, "1")
  {
    assert x[0] in x;
    assert "1"[..0] == "" && ValueOf("1") == 1;
  }

  lemma NoNumber(x: string, i: nat)
    requires 0 < i < |x| && !IsDigit(x[i])
    ensures Atoi(x) == None && !SemVer.IsNumeric(x)
  {
    assert x[1..][i-1] == x[i];
  }

  /** Build metadata behind what is itself not well read. */
  lemma BuildBehindBad(x: string, core: string, build: string)
    requires x == core + ("+" + build) && '+' !in core && !WellRead(core)
    ensures WellRead(core + "!") && KeyAbove(KeyOf(x), KeyOf(core + "!")) && SemVer.IdentBelow(core, core + "!")
  {
    assert core != "" by {
      assert Atoi("").None?;
    }
    var y := core + "!";
    NoNumber(x, |core|);
    NoNumber(y, |core|);
    LessBehind(core, "!", "+" + build);
    LessBehind(core, "", "!");
    assert core + "" == core;
  }

  lemma {:induction false} LessBehind(c: string, a: string, b: string)
    ensures Sorting.StringLess(c + a, c + b) == Sorting.StringLess(a, b)
  {
    if c == "" {
      assert c + a == a && c + b == b;
    } else {
      assert (c + a)[1..] == c[1..] + a && (c + b)[1..] == c[1..] + b;
      LessBehind(c[1..], a, b);
    }
  }

  lemma BuildMatters(x: string, core: string, build: string)
    requires x == core + ("+" + build)
    ensures KeyOf(x) != KeyOf(core)
  {
    if core != "" {
      NoNumber(x, |core|);
    } else {
      assert Atoi("").None? && x != "";
    }
  }

  ghost predicate Disagree(a: Rank, b: Rank) {
    || (Newer(a, b) != SemVer.Below(VersionOf(b), VersionOf(a)))
    || (Newer(b, a) != SemVer.Below(VersionOf(a), VersionOf(b)))
  }

  /** A version that is like a up to identifier k, and then ends with y. */
  function Rival(a: Rank, k: nat, y: string): Rank
    requires k < |a.pre|
  {
    Rank(a.nums, a.pre[..k] + [y], "", false)
  }

  lemma RivalVerdict(a: Rank, k: nat, y: string)
    requires !a.lexical && k < |a.pre| && KeyOf(a.pre[k]) != KeyOf(y)
    ensures var b := Rival(a, k, y);
            && (Newer(a, b) <==> KeyAbove(KeyOf(a.pre[k]), KeyOf(y)))
            && (Newer(b, a) <==> KeyAbove(KeyOf(y), KeyOf(a.pre[k])))
  {
    var b := Rival(a, k, y);
    assert AgreeTo(Pre(a.pre), Pre(b.pre), k) && AgreeTo(Pre(b.pre), Pre(a.pre), k);
    assert At(Pre(a.pre), k) == KeyOf(a.pre[k]) && At(Pre(b.pre), k) == KeyOf(y);
    KeyOrder(KeyOf(a.pre[k]), KeyOf(y));
    AboveOrder(Nums(a.nums), Nums(b.nums));
    if KeyAbove(KeyOf(a.pre[k]), KeyOf(y)) {
      AboveAt(Pre(a.pre), Pre(b.pre), k);
    } else {
      AboveAt(Pre(b.pre), Pre(a.pre), k);
    }
  }

  lemma RivalPrecedence(a: Rank, k: nat, y: string)
    requires k < |a.pre| && AllWellRead(a.pre[..k]) && WellRead(y)
    ensures var b, rest := Rival(a, k, y), SemVer.WithoutBuild(a.pre[k..]);
            && AllWellRead(b.pre)
            && (SemVer.Below(VersionOf(a), VersionOf(b)) <==> SemVer.PreBelow(rest, [y]))
            && (SemVer.Below(VersionOf(b), VersionOf(a)) <==> SemVer.PreBelow([y], rest))
  {
    var b, c := Rival(a, k, y), a.pre[..k];
    NothingToDrop(b.pre);
    forall id | id in c ensures '+' !in id {
      var i :| 0 <= i < |c| && c[i] == id;
      assert WellRead(c[i]);
    }
    assert a.pre == c + a.pre[k..];
    SemVer.BuildBehind(c, a.pre[k..]);
    SemVer.CommonPrefix(c, SemVer.WithoutBuild(a.pre[k..]), [y]);
    SemVer.CommonPrefix(c, [y], SemVer.WithoutBuild(a.pre[k..]));
    SemVer.NumsStrict(a.nums, a.nums);
    assert SemVer.WithoutBuild(a.pre[k..]) != [];
  }

  lemma OpposedRival(a: Rank, k: nat, y: string)
    requires !a.lexical && k < |a.pre| && AllWellRead(a.pre[..k]) && WellRead(y)
    requires '+' !in a.pre[k] && Opposed(a.pre[k], y)
    ensures AllWellRead(Rival(a, k, y).pre) && Disagree(a, Rival(a, k, y))
  {
    var x := a.pre[k];
    KeyOrder(KeyOf(x), KeyOf(y));
    SemVer.IdentStrict(x, y);
    RivalVerdict(a, k, y);
    RivalPrecedence(a, k, y);
    assert a.pre[k..][0] == x;
    SemVer.BelowStrict(VersionOf(a), VersionOf(Rival(a, k, y)));
  }

  lemma BuildRival(a: Rank, k: nat) returns (y: string)
    requires !a.lexical && k < |a.pre| && AllWellRead(a.pre[..k]) && '+' in a.pre[k]
    ensures AllWellRead(Rival(a, k, y).pre) && Disagree(a, Rival(a, k, y))
    ensures WellRead(SemVer.BeforePlus(a.pre[k])) ==> y == SemVer.BeforePlus(a.pre[k])
  {
    var x := a.pre[k];
    var core := SemVer.BeforePlus(x);
    var build := SemVer.BeforePlusSplits(x);
    assert a.pre[k..][0] == x && SemVer.WithoutBuild(a.pre[k..]) == [core];
    if WellRead(core) {
      y := core;
      BuildMatters(x, core, build);
      SemVer.IdentStrict(core, core);
    } else {
      y := core + "!";
      BuildBehindBad(x, core, build);
      SemVer.IdentStrict(core, y);
    }
    KeyOrder(KeyOf(x), KeyOf(y));
    RivalVerdict(a, k, y);
    RivalPrecedence(a, k, y);
  }

  /** Over arbitrary identifiers: newerThan ranks against every list of well read ones
      as section 11 does exactly if all identifiers are well read. */
  lemma RanksAnyAsSemVer(a: Rank)
    requires !a.lexical
    ensures AllWellRead(a.pre) <==> forall b: Rank :: !b.lexical && AllWellRead(b.pre) ==> !Disagree(a, b)
  {
    if AllWellRead(a.pre) {
      forall b: Rank | !b.lexical && AllWellRead(b.pre) ensures !Disagree(a, b) {
        WellReadAgree(a, b);
        WellReadAgree(b, a);
      }
    } else {
      var k := FirstIllRead(a.pre);
      if '+' in a.pre[k] {
        var y := BuildRival(a, k);
      } else {
        var y := PlainRival(a, k);
      }
    }
  }

  lemma PlainRival(a: Rank, k: nat) returns (y: string)
    requires !a.lexical && k < |a.pre| && AllWellRead(a.pre[..k]) && '+' !in a.pre[k] && !WellRead(a.pre[k])
    ensures SemVer.Legal(y) && AllWellRead(Rival(a, k, y).pre) && Disagree(a, Rival(a, k, y))
  {
    var x := a.pre[k];
    if Atoi(x).Some? && !SemVer.IsNumeric(x) {
      SignedNumber(x);
      y := "1";
    } else {
      LongNumber(x);
      y := "-";
    }
    OpposedRival(a, k, y);
  }

  // Over semantic versions there is one more that is ranked right.

  /** A signed number with build metadata: the plus sign keeps it from being read as a
      number, and sorts before everything an identifier may go on with. */
  predicate SignedBuild(x: string) {
    var core := SemVer.BeforePlus(x);
    '+' in x && Atoi(core).Some? && !SemVer.IsNumeric(core)
  }

  /** Well read, up to build metadata behind a signed number. */
  predicate RankedRight(pre: seq<string>) {
    || pre == []
    || (if '+' in pre[0] then SignedBuild(pre[0]) else WellRead(pre[0]) && RankedRight(pre[1..]))
  }

  /** The identifiers of a semantic version are legal, what follows them aside. */
  predicate IsSemVer(r: Rank) {
    !r.lexical && SemVer.AllLegal(SemVer.WithoutBuild(r.pre))
  }

  lemma {:induction false} SplitRight(pre: seq<string>) returns (k: nat)
    requires RankedRight(pre)
    ensures k <= |pre| && AllWellRead(pre[..k]) && (k < |pre| ==> SignedBuild(pre[k]))
  {
    if pre == [] || '+' in pre[0] {
      k := 0;
    } else {
      k := SplitRight(pre[1..]);
      assert pre[..k+1] == [pre[0]] + pre[1..][..k];
      k := k + 1;
    }
  }

  lemma {:induction false} SplitWrong(pre: seq<string>) returns (k: nat)
    requires !RankedRight(pre)
    ensures k < |pre| && AllWellRead(pre[..k])
    ensures if '+' in pre[k] then !SignedBuild(pre[k]) else !WellRead(pre[k])
  {
    if '+' in pre[0] || !WellRead(pre[0]) {
      k := 0;
    } else {
      k := SplitWrong(pre[1..]);
      assert pre[..k+1] == [pre[0]] + pre[1..][..k];
      k := k + 1;
    }
  }

  lemma BuildAt(pre: seq<string>, k: nat)
    requires k < |pre| && AllWellRead(pre[..k])
    ensures SemVer.WithoutBuild(pre) == pre[..k] + SemVer.WithoutBuild(pre[k..])
    ensures '+' in pre[k] ==> SemVer.WithoutBuild(pre[k..]) == [SemVer.BeforePlus(pre[k])]
  {
    forall id | id in pre[..k] ensures '+' !in id {
      var i :| 0 <= i < |pre[..k]| && pre[..k][i] == id;
      assert WellRead(pre[..k][i]);
    }
    SemVer.BuildBehind(pre[..k], pre[k..]);
    assert pre == pre[..k] + pre[k..];
  }

  /** Ending in a character before all legal ones changes no comparison with another
      legal string. */
  lemma {:induction false} EndsLow(core: string, tail: string, y: string)
    requires tail != "" && tail[0] in {'!', '+'} && y != core
    requires forall i :: 0 <= i < |y| ==> SemVer.LegalChar(y[i])
    ensures Sorting.StringLess(core + tail, y) == Sorting.StringLess(core, y)
    ensures Sorting.StringLess(y, core + tail) == Sorting.StringLess(y, core)
  {
    if core == "" {
      assert core + tail == tail;
    } else {
      assert (core + tail)[1..] == core[1..] + tail;
      if y != "" && y[0] == core[0] {
        assert y == [y[0]] + y[1..] && core == [core[0]] + core[1..];
        EndsLow(core[1..], tail, y[1..]);
      }
    }
  }

  /** Stands to y as z does, for the code and for the standard. */
  predicate StandsAlike(x: string, core: string, z: string, y: string) {
    && KeyOf(x) != KeyOf(y) && KeyOf(z) != KeyOf(y)
    && KeyAbove(KeyOf(x), KeyOf(y)) == KeyAbove(KeyOf(z), KeyOf(y))
    && KeyAbove(KeyOf(y), KeyOf(x)) == KeyAbove(KeyOf(y), KeyOf(z))
    && SemVer.IdentBelow(core, y) == SemVer.IdentBelow(z, y)
    && SemVer.IdentBelow(y, core) == SemVer.IdentBelow(y, z)
  }

  lemma SignedStands(x: string, core: string, build: string, y: string)
    requires x == core + ("+" + build) && '+' !in core && Atoi(core).Some? && !SemVer.IsNumeric(core)
    requires SemVer.Legal(y) && WellRead(y)
    ensures StandsAlike(x, core, core + "!", y)
  {
    var z := core + "!";
    assert core != "" by {
      assert Atoi("").None?;
    }
    NoNumber(x, |core|);
    NoNumber(z, |core|);
    WellReadKey(y);
    EndsLow(core, "+" + build, y);
    EndsLow(core, "!", y);
    assert x[|core|] == '+' && z[|core|] == '!';
    assert !SemVer.LegalChar('+') && !SemVer.LegalChar('!');
    assert y != x && y != z;
  }

  /** Lists that share k identifiers and then stand alike to q. */
  lemma SameStanding(p: seq<string>, p': seq<string>, q: seq<string>, k: nat, core: string)
    requires k < |p| && |p'| == k + 1 && p'[..k] == p[..k]
    requires k < |q| ==> StandsAlike(p[k], core, p'[k], q[k])
    ensures Above(Pre(p), Pre(q)) == Above(Pre(p'), Pre(q)) && Above(Pre(q), Pre(p)) == Above(Pre(q), Pre(p'))
  {
    assert At(Pre(p), k) == KeyOf(p[k]) && At(Pre(p'), k) == KeyOf(p'[k]);
    var i := FirstDifference(Pre(p), Pre(q), k);
    forall j: nat | j < k ensures At(Pre(p'), j) == At(Pre(p), j) {
      assert p'[..k][j] == p[..k][j];
    }
    assert AgreeTo(Pre(p'), Pre(q), i) && AgreeTo(Pre(q), Pre(p'), i) && AgreeTo(Pre(q), Pre(p), i);
    KeyOrder(At(Pre(p), i), At(Pre(q), i));
    if KeyAbove(At(Pre(p), i), At(Pre(q), i)) {
      AboveAt(Pre(p), Pre(q), i);
      AboveAt(Pre(p'), Pre(q), i);
    } else {
      AboveAt(Pre(q), Pre(p), i);
      AboveAt(Pre(q), Pre(p'), i);
    }
  }

  lemma {:induction false} SamePrecedence(c: seq<string>, x: string, core: string, z: string, q: seq<string>)
    requires forall i :: 0 <= i < |q| ==> StandsAlike(x, core, z, q[i])
    ensures SemVer.PreBelow(c + [core], q) == SemVer.PreBelow(c + [z], q)
    ensures SemVer.PreBelow(q, c + [core]) == SemVer.PreBelow(q, c + [z])
  {
    if c == [] {
      assert c + [core] == [core] && c + [z] == [z];
      assert [core][1..] == [] && [z][1..] == [];
    } else if q != [] {
      assert (c + [core])[1..] == c[1..] + [core] && (c + [z])[1..] == c[1..] + [z];
      SamePrecedence(c[1..], x, core, z, q[1..]);
    }
  }

  lemma SignedBuildAgrees(a: Rank, b: Rank, k: nat)
    requires !a.lexical && !b.lexical && AllWellRead(b.pre) && SemVer.AllLegal(b.pre)
    requires k < |a.pre| && AllWellRead(a.pre[..k]) && SignedBuild(a.pre[k])
    ensures !Disagree(a, b)
  {
    var x := a.pre[k];
    var core := SemVer.BeforePlus(x);
    var build := SemVer.BeforePlusSplits(x);
    var z, c := core + "!", a.pre[..k];
    SignedStandsAll(x, core, build, b.pre);
    var a' := Rival(a, k, z);
    EndsWellRead(core);
    assert AllWellRead(a'.pre);
    BuildAt(a.pre, k);
    NothingToDrop(a'.pre);
    NothingToDrop(b.pre);
    SameStanding(a.pre, a'.pre, b.pre, k, core);
    SamePrecedence(c, x, core, z, b.pre);
    StandIn(a, a', b);
  }

  /** A version that stands to b as a well read one does is ranked right against b. */
  lemma StandIn(a: Rank, a': Rank, b: Rank)
    requires !a.lexical && !a'.lexical && !b.lexical && AllWellRead(a'.pre) && AllWellRead(b.pre)
    requires a.nums == a'.nums && VersionOf(a).pre != [] && VersionOf(a').pre != []
    requires Above(Pre(a.pre), Pre(b.pre)) == Above(Pre(a'.pre), Pre(b.pre))
    requires Above(Pre(b.pre), Pre(a.pre)) == Above(Pre(b.pre), Pre(a'.pre))
    requires var p, p', q := VersionOf(a).pre, VersionOf(a').pre, VersionOf(b).pre;
             SemVer.PreBelow(p, q) == SemVer.PreBelow(p', q) && SemVer.PreBelow(q, p) == SemVer.PreBelow(q, p')
    ensures !Disagree(a, b)
  {
    WellReadAgree(a', b);
    WellReadAgree(b, a');
  }

  lemma SignedStandsAll(x: string, core: string, build: string, pre: seq<string>)
    requires x == core + ("+" + build) && '+' !in core && Atoi(core).Some? && !SemVer.IsNumeric(core)
    requires AllWellRead(pre) && SemVer.AllLegal(pre)
    ensures forall i :: 0 <= i < |pre| ==> StandsAlike(x, core, core + "!", pre[i])
  {
    forall i | 0 <= i < |pre| ensures StandsAlike(x, core, core + "!", pre[i]) {
      assert SemVer.Legal(pre[i]) && WellRead(pre[i]);
      SignedStands(x, core, build, pre[i]);
    }
  }

  lemma EndsWellRead(core: string)
    requires '+' !in core && core != ""
    ensures WellRead(core + "!")
  {
    NoNumber(core + "!", |core|);
  }

  /** A legal version whose build metadata, or whose identifiers, mislead newerThan has a
      legal rival against which they do. */
  lemma LegalRival(a: Rank, k: nat) returns (y: string)
    requires IsSemVer(a) && k < |a.pre| && AllWellRead(a.pre[..k])
    requires if '+' in a.pre[k] then !SignedBuild(a.pre[k]) else !WellRead(a.pre[k])
    ensures AllWellRead(Rival(a, k, y).pre) && SemVer.AllLegal(Rival(a, k, y).pre) && Disagree(a, Rival(a, k, y))
  {
    var x, c := a.pre[k], a.pre[..k];
    BuildAt(a.pre, k);
    var pre := SemVer.WithoutBuild(a.pre);
    assert forall i :: 0 <= i < k ==> pre[i] == c[i] && SemVer.Legal(pre[i]);
    if '+' !in x {
      y := PlainRival(a, k);
    } else {
      var core := SemVer.BeforePlus(x);
      assert pre[k] == core;
      assert SemVer.Legal(core) && '+' !in core by {
        var build := SemVer.BeforePlusSplits(x);
      }
      if WellRead(core) {
        y := BuildRival(a, k);
      } else {
        y := LongBuildRival(a, k);
      }
    }
  }

  lemma LongBuildRival(a: Rank, k: nat) returns (y: string)
    requires !a.lexical && k < |a.pre| && AllWellRead(a.pre[..k]) && '+' in a.pre[k] && !SignedBuild(a.pre[k])
    requires !WellRead(SemVer.BeforePlus(a.pre[k]))
    ensures y == "-" && AllWellRead(Rival(a, k, y).pre) && Disagree(a, Rival(a, k, y))
  {
    var x := a.pre[k];
    var core := SemVer.BeforePlus(x);
    var build := SemVer.BeforePlusSplits(x);
    y := "-";
    LongNumber(core);
    NoNumber(x, |core|);
    assert IsDigit(core[0]) && x[0] == core[0];
    KeyOrder(KeyOf(x), KeyOf(y));
    SemVer.IdentStrict(core, y);
    BuildAt(a.pre, k);
    RivalVerdict(a, k, y);
    RivalPrecedence(a, k, y);
  }

  /** newerThan ranks a semantic version as section 11 does, against every one whose
      identifiers are all well read and that has no build metadata, exactly if its own
      identifiers are well read, up to build metadata behind a signed number. */
  lemma RanksAsSemVer(a: Rank)
    requires IsSemVer(a)
    ensures RankedRight(a.pre) <==>
              forall b: Rank :: !b.lexical && AllWellRead(b.pre) && SemVer.AllLegal(b.pre) ==> !Disagree(a, b)
  {
    if RankedRight(a.pre) {
      var k := SplitRight(a.pre);
      forall b: Rank | !b.lexical && AllWellRead(b.pre) && SemVer.AllLegal(b.pre) ensures !Disagree(a, b) {
        if k < |a.pre| {
          SignedBuildAgrees(a, b, k);
        } else {
          assert a.pre[..k] == a.pre;
          WellReadAgree(a, b);
          WellReadAgree(b, a);
        }
      }
    } else {
      var k := SplitWrong(a.pre);
      var y := LegalRival(a, k);
    }
  }

  lemma FirstIllRead(pre: seq<string>) returns (k: nat)
    requires !AllWellRead(pre)
    ensures k < |pre| && !WellRead(pre[k]) && AllWellRead(pre[..k])
  {
    k := 0;
    while k < |pre| && WellRead(pre[k])
      invariant k <= |pre| && forall i :: 0 <= i < k ==> WellRead(pre[i])
    {
      k := k + 1;
    }
  }

  // ---- parsing ----

  function ParseNums(parts: seq<string>, number: string -> Option<int>): Option<seq<int>> {
    if parts == [] then Some([])
    else
      var n := number(parts[0]);
      var rest := ParseNums(parts[1..], number);
      if n.None? || rest.None? then None else Some([n.value] + rest.value)
  }

  /** What parseVersionRank computes. */
  function ParseRank(text: string): Rank {
    var trimmed := TrimSpace(text);
    var raw := if trimmed != [] && trimmed[0] in {'v', 'V'} then trimmed[1..] else trimmed;
    var cut := Cut(raw, "-");
    if cut.Some? then RankOfParts(cut.value.0, Split(cut.value.1, '.'), raw) else RankOfParts(raw, [], raw)
  }

  function RankOfParts(main: string, pre: seq<string>, raw: string): Rank {
    var nums := if main == "" then None else ParseNums(Split(main, '.'), Atoi);
    if nums.Some? then Rank(nums.value, pre, raw, false) else Rank([], pre, raw, true)
  }

  method ParseVersionRank(text: string) returns (rank: Rank)
    ensures rank == ParseRank(text)
  {
    var raw := TrimSpace(text);
    if raw != "" && (raw[0] == 'v' || raw[0] == 'V') {
      raw := raw[1..];
    }
    var cut := Cut(raw, "-");
    var main := raw;
    var pre: seq<string> := [];
    if cut.Some? {
      main := cut.value.0;
      pre := Split(cut.value.1, '.');
    }
    if main == "" {
      return Rank([], pre, raw, true);
    }
    var nums := Numbers(Split(main, '.'), Atoi);
    return if nums.None? then Rank([], pre, raw, true) else Rank(nums.value, pre, raw, false);
  }

  /** The loop over the parts; None where the rank becomes lexical. */
  method Numbers(parts: seq<string>, number: string -> Option<int>) returns (r: Option<seq<int>>)
    ensures r == ParseNums(parts, number)
  {
    var nums: seq<int> := [];
    PrependedNothing(ParseNums(parts, number));
    assert parts[0..] == parts;
    for i := 0 to |parts|
      invariant ParseNums(parts, number) == Prepended(nums, ParseNums(parts[i..], number))
    {
      var n := number(parts[i]);
      assert parts[i..][1..] == parts[i+1..];
      if n.None? {
        return None;
      }
      PrependedMore(nums, n.value, ParseNums(parts[i+1..], number));
      nums := nums + [n.value];
    }
    assert parts[|parts|..] == [] && nums + [] == nums;
    return Some(nums);
  }

  function Prepended(nums: seq<int>, rest: Option<seq<int>>): Option<seq<int>> {
    if rest.None? then None else Some(nums + rest.value)
  }

  lemma PrependedNothing(rest: Option<seq<int>>)
    ensures Prepended([], rest) == rest
  {
    if rest.Some? {
      assert [] + rest.value == rest.value;
    }
  }

  lemma PrependedMore(nums: seq<int>, n: int, rest: Option<seq<int>>)
    ensures Prepended(nums + [n], rest) == Prepended(nums, Prepended([n], rest))
  {
    if rest.Some? {
      assert nums + [n] + rest.value == nums + ([n] + rest.value);
    }
  }

  /** A version written out as in section 2 and section 9 of Semantic Versioning. */
  function PrintNums(nums: seq<nat>): seq<string> {
    if nums == [] then [] else [Itoa(nums[0])] + PrintNums(nums[1..])
  }

  function PrintVersion(nums: seq<nat>, pre: seq<string>): string
    requires nums != []
  {
    var main := Join(PrintNums(nums), '.');
    if pre == [] then main else main + ("-" + Join(pre, '.'))
  }

  predicate Printable(s: string) {
    '.' !in s && s != "" && !IsSpace(s[|s|-1])
  }

  lemma NumsCons(part: string, n: int, parts: seq<string>, nums: seq<int>)
    requires Atoi(part) == Some(n) && ParseNums(parts, Atoi) == Some(nums)
    ensures ParseNums([part] + parts, Atoi) == Some([n] + nums)
  {
    assert ([part] + parts)[1..] == parts;
  }

  lemma {:induction false} PrintedNums(nums: seq<nat>)
    requires forall n :: n in nums ==> n <= MAX_INT
    ensures ParseNums(PrintNums(nums), Atoi) == Some(nums)
    ensures |PrintNums(nums)| == |nums|
    ensures forall p :: p in PrintNums(nums) ==> p != [] && AllDigits(p)
  {
    if nums != [] {
      assert nums[0] in nums;
      ItoaRoundTrip(nums[0]);
      forall n | n in nums[1..] ensures n <= MAX_INT {
        assert n in nums;
      }
      PrintedNums(nums[1..]);
      NumsCons(Itoa(nums[0]), nums[0], PrintNums(nums[1..]), nums[1..]);
      assert nums == [nums[0]] + nums[1..];
    }
  }

  /** Joined digit strings start and end with a digit and hold only digits and dots. */
  lemma {:induction false} JoinedDigits(parts: seq<string>)
    requires parts != [] && forall p :: p in parts ==> p != [] && AllDigits(p)
    ensures var s := Join(parts, '.');
            s != [] && IsDigit(s[0]) && IsDigit(s[|s|-1]) && forall c :: c in s ==> IsDigit(c) || c == '.'
  {
    assert parts[0] in parts;
    var s := Join(parts, '.');
    if |parts| > 1 {
      forall p | p in parts[1..] ensures p != [] && AllDigits(p) {
        assert p in parts;
      }
      JoinedDigits(parts[1..]);
      assert s == parts[0] + (['.'] + Join(parts[1..], '.'));
      forall c | c in s ensures IsDigit(c) || c == '.' {
        assert c in parts[0] || c == '.' || c in Join(parts[1..], '.');
      }
    }
  }

  lemma {:induction false} JoinedIdents(pre: seq<string>)
    requires pre != [] && forall p :: p in pre ==> Printable(p)
    ensures Join(pre, '.') != [] && !IsSpace(Join(pre, '.')[|Join(pre, '.')|-1])
  {
    assert pre[0] in pre;
    if |pre| > 1 {
      JoinedIdents(pre[1..]);
    }
  }

  lemma {:induction false} NoCut(s: string, sep: char)
    requires sep !in s
    ensures Cut(s, [sep]) == None
  {
    if s != [] {
      NoCut(s[1..], sep);
      assert s[0] in s && s[0] != sep;
    }
  }

  lemma RankParts(text: string, main: string, pre: string)
    requires Trimmed(text) && '-' !in main && main != [] && main[0] !in {'v', 'V'} && !IsSpace(main[0])
    ensures text == main ==> ParseRank(text) == ParseRank("v" + text) == RankOfParts(main, [], text)
    ensures text == main + ("-" + pre) ==>
              ParseRank(text) == ParseRank("v" + text) == RankOfParts(main, Split(pre, '.'), text)
  {
    TrimTrimmed(text);
    TrimTrimmed("v" + text);
    assert ("v" + text)[1..] == text;
    NoCut(main, '-');
    CutBehind(main, "-", pre);
  }

  lemma NumsOfMain(nums: seq<nat>)
    requires nums != [] && (forall n :: n in nums ==> n <= MAX_INT)
    ensures var main := Join(PrintNums(nums), '.');
            && main != [] && IsDigit(main[0]) && IsDigit(main[|main|-1]) && '-' !in main
            && ParseNums(Split(main, '.'), Atoi) == Some(nums)
  {
    PrintedNums(nums);
    JoinedDigits(PrintNums(nums));
    forall p | p in PrintNums(nums) ensures '.' !in p {
      NotADigit(p, '.');
    }
    SplitJoin(PrintNums(nums), '.');
  }

  /** Parsing a printed version gives its numbers and its prerelease back. */
  lemma PrintedParses(nums: seq<nat>, pre: seq<string>)
    requires nums != [] && (forall n :: n in nums ==> n <= MAX_INT)
    requires forall p :: p in pre ==> Printable(p)
    ensures var text := PrintVersion(nums, pre);
            && ParseRank(text) == Rank(nums, pre, text, false)
            && ParseRank("v" + text) == Rank(nums, pre, text, false)
  {
    var main := Join(PrintNums(nums), '.');
    NumsOfMain(nums);
    if pre == [] {
      WithoutPre(nums, main);
    } else {
      JoinedIdents(pre);
      SplitIdents(pre);
      WithPre(nums, main, pre, Join(pre, '.'));
    }
  }

  lemma SplitIdents(pre: seq<string>)
    requires pre != [] && forall p :: p in pre ==> Printable(p)
    ensures Split(Join(pre, '.'), '.') == pre
  {
    SplitJoin(pre, '.');
  }

  lemma WithoutPre(nums: seq<int>, main: string)
    requires main != [] && IsDigit(main[0]) && IsDigit(main[|main|-1]) && '-' !in main
    requires ParseNums(Split(main, '.'), Atoi) == Some(nums)
    ensures ParseRank(main) == ParseRank("v" + main) == Rank(nums, [], main, false)
  {
    RankParts(main, main, "");
  }

  lemma WithPre(nums: seq<int>, main: string, idents: seq<string>, pre: string)
    requires main != [] && IsDigit(main[0]) && '-' !in main && ParseNums(Split(main, '.'), Atoi) == Some(nums)
    requires pre != [] && !IsSpace(pre[|pre|-1]) && Split(pre, '.') == idents
    ensures var text := main + ("-" + pre);
            ParseRank(text) == ParseRank("v" + text) == Rank(nums, idents, text, false)
  {
    var text := main + ("-" + pre);
    assert text[0] == main[0] && text[|text|-1] == pre[|pre|-1];
    RankParts(text, main, pre);
  }

  /** The newer of these two tags is not the one of higher precedence. */
  ghost predicate Misranked(newer: string, higher: string) {
    var a, b := ParseRank(newer), ParseRank(higher);
    !a.lexical && !b.lexical && Newer(a, b) && SemVer.Below(VersionOf(a), VersionOf(b))
  }

  lemma OneZeroZero(pre: seq<string>)
    requires forall p :: p in pre ==> Printable(p)
    ensures ParseRank(PrintVersion([1, 0, 0], pre)) == Rank([1, 0, 0], pre, PrintVersion([1, 0, 0], pre), false)
  {
    PrintedParses([1, 0, 0], pre);
  }

  lemma Misranks(front: seq<string>, x: string, y: string)
    requires AllWellRead(front) && forall p :: p in front + [x, y] ==> Printable(p)
    requires KeyAbove(KeyOf(x), KeyOf(y))
    requires SemVer.IdentBelow(SemVer.WithoutBuild([x])[0], SemVer.WithoutBuild([y])[0])
    ensures Misranked(PrintVersion([1, 0, 0], front + [x]), PrintVersion([1, 0, 0], front + [y]))
  {
    forall p | p in front + [x] || p in front + [y] ensures Printable(p) {
      assert p in front + [x, y];
    }
    OneZeroZero(front + [x]);
    OneZeroZero(front + [y]);
    var a, b := ParseRank(PrintVersion([1, 0, 0], front + [x])), ParseRank(PrintVersion([1, 0, 0], front + [y]));
    NewerOf(a, b, front, x, y);
    BelowOf([1, 0, 0], front, x, y);
  }

  lemma NewerOf(a: Rank, b: Rank, front: seq<string>, x: string, y: string)
    requires !a.lexical && !b.lexical && a.nums == b.nums && a.pre == front + [x] && b.pre == front + [y]
    requires KeyAbove(KeyOf(x), KeyOf(y))
    ensures Newer(a, b)
  {
    assert AgreeTo(Pre(a.pre), Pre(b.pre), |front|);
    AboveAt(Pre(a.pre), Pre(b.pre), |front|);
  }

  lemma BelowOf(nums: seq<int>, front: seq<string>, x: string, y: string)
    requires AllWellRead(front)
    requires SemVer.IdentBelow(SemVer.WithoutBuild([x])[0], SemVer.WithoutBuild([y])[0])
    ensures SemVer.Below(SemVer.Version(nums, SemVer.WithoutBuild(front + [x])),
                         SemVer.Version(nums, SemVer.WithoutBuild(front + [y])))
  {
    forall id | id in front ensures '+' !in id {
      var i :| 0 <= i < |front| && front[i] == id;
      assert WellRead(front[i]);
    }
    SemVer.BuildBehind(front, [x]);
    SemVer.BuildBehind(front, [y]);
    SemVer.CommonPrefix(front, SemVer.WithoutBuild([x]), SemVer.WithoutBuild([y]));
    SemVer.NumsStrict(nums, nums);
  }

  /** "1.0.0-0" is taken for newer than "1.0.0--1", whose identifier is no number. */
  lemma SignedNumberMisranks()
    ensures Misranked(PrintVersion([1, 0, 0], ["0"]), PrintVersion([1, 0, 0], ["-1"]))
  {
    assert "-1"[1..] == "1" && "1"[..0] == "" && "0"[..0] == "";
    assert Atoi("-1") == Some(-1) && Atoi("0") == Some(0);
    assert !IsDigit("-1"[0]);
    Misranks([], "0", "-1");
    assert [] + ["0"] == ["0"] && [] + ["-1"] == ["-1"];
  }

  /** "1.0.0-rc.2+x" is taken for newer than "1.0.0-rc.10+x". */
  lemma BuildMetadataMisranks()
    ensures Misranked(PrintVersion([1, 0, 0], ["rc"] + ["2+x"]), PrintVersion([1, 0, 0], ["rc"] + ["10+x"]))
  {
    TwoAndTen();
    RcPrints();
    Misranks(["rc"], "2+x", "10+x");
  }

  lemma RcPrints()
    ensures AllWellRead(["rc"]) && forall p :: p in ["rc"] + ["2+x", "10+x"] ==> Printable(p)
  {
    assert !IsDigit("rc"[0]);
  }

  lemma TwoAndTen()
    ensures KeyAbove(KeyOf("2+x"), KeyOf("10+x"))
    ensures SemVer.IdentBelow(SemVer.WithoutBuild(["2+x"])[0], SemVer.WithoutBuild(["10+x"])[0])
  {
    NoNumber("2+x", 1);
    NoNumber("10+x", 2);
    assert SemVer.BeforePlus("2+x") == "2" by {
      assert "2+x"[1..] == "+x";
    }
    assert SemVer.BeforePlus("10+x") == "10" by {
      assert "10+x"[1..] == "0+x" && "0+x"[1..] == "+x";
    }
    assert "2"[..0] == "" && "10"[..1] == "1" && "1"[..0] == "" && ValueOf("2") == 2 && ValueOf("10") == 10;
  }

  /** A number past 64 bits is taken for newer than the identifier "-", which is no
      number. */
  lemma LongNumberMisranks(n: nat)
    requires n > MAX_INT
    ensures Misranked(PrintVersion([1, 0, 0], [Itoa(n)]), PrintVersion([1, 0, 0], ["-"]))
  {
    var x := Itoa(n);
    DigitsRoundTrip(n);
    NotADigit(x, '.');
    NotADigit(x, '+');
    LongNumber(x);
    assert IsDigit(x[0]) && IsDigit(x[|x|-1]);
    Misranks([], x, "-");
    assert [] + [x] == [x] && [] + ["-"] == ["-"];
  }

  // ---- comparing ----

  /** cmpPreIdent. */
  function CmpPreIdent(a: string, b: string): (r: int)
    ensures r == 1 <==> KeyAbove(KeyOf(a), KeyOf(b))
    ensures r == -1 <==> KeyAbove(KeyOf(b), KeyOf(a))
    ensures r == 0 <==> KeyOf(a) == KeyOf(b)
  {
    KeyOrder(KeyOf(a), KeyOf(b));
    var ai, bi := Atoi(a), Atoi(b);
    if ai.Some? && bi.Some? then
      if ai.value == bi.value then 0 else if ai.value > bi.value then 1 else -1
    else if ai.Some? then -1
    else if bi.Some? then 1
    else if a == b then 0
    else if Sorting.StringLess(b, a) then 1
    else -1
  }

  lemma AboveAt(k: Keys, l: Keys, i: nat)
    requires AgreeTo(k, l, i) && KeyAbove(At(k, i), At(l, i))
    ensures Above(k, l) && !Above(l, k) && !Same(k, l) && !Same(l, k)
  {
    KeyOrder(At(k, i), At(l, i));
    AboveOrder(k, l);
  }

  /** The two loops find the first difference of the numbers and, if there is none,
      of the prereleases. */
  method NewerThan(a: Rank, b: Rank) returns (newer: bool)
    ensures newer == Newer(a, b)
  {
    if a.lexical || b.lexical {
      return Sorting.StringLess(b.raw, a.raw);
    }
    ghost var ka, kb := Nums(a.nums), Nums(b.nums);
    var n := |a.nums|;
    if |b.nums| > n {
      n := |b.nums|;
    }
    for i := 0 to n
      invariant AgreeTo(ka, kb, i)
    {
      var av, bv := 0, 0;
      if i < |a.nums| {
        av := a.nums[i];
      }
      if i < |b.nums| {
        bv := b.nums[i];
      }
      assert At(ka, i) == Num(av) && At(kb, i) == Num(bv);
      if av > bv {
        AboveAt(ka, kb, i);
        return true;
      }
      if av < bv {
        AboveAt(kb, ka, i);
        return false;
      }
    }
    assert Same(ka, kb);
    AboveOrder(ka, kb);
    newer := PreNewer(a.pre, b.pre);
  }

  method PreNewer(a: seq<string>, b: seq<string>) returns (newer: bool)
    ensures newer == Above(Pre(a), Pre(b))
  {
    ghost var ka, kb := Pre(a), Pre(b);
    if |a| == 0 && |b| > 0 {
      assert At(ka, 0) == Release;
      AboveAt(ka, kb, 0);
      return true;
    }
    if |a| > 0 && |b| == 0 {
      assert At(kb, 0) == Release;
      AboveAt(kb, ka, 0);
      return false;
    }
    var pn := |a|;
    if |b| > pn {
      pn := |b|;
    }
    for i := 0 to pn
      invariant AgreeTo(ka, kb, i)
    {
      if i >= |a| {
        AboveAt(kb, ka, i);
        return false;
      }
      if i >= |b| {
        AboveAt(ka, kb, i);
        return true;
      }
      var cmp := CmpPreIdent(a[i], b[i]);
      if cmp == 1 {
        AboveAt(ka, kb, i);
        return true;
      }
      if cmp == -1 {
        AboveAt(kb, ka, i);
        return false;
      }
    }
    assert Same(ka, kb);
    AboveOrder(ka, kb);
    return false;
  }

  // ---- picking ----

  /** A compiled pattern: the names of its groups, and the text of each group where
      it matches; group 0 is the whole match. */
  datatype Regexp = Regexp(names: seq<string>, groups: string -> Option<seq<string>>)

  datatype Selected = Tag(tag: string) | EmptyPattern | InvalidPattern | NoMatchingTag

  /** The text of the last group with this name. */
  function LastNamed(names: seq<string>, texts: seq<string>, name: string): string
    decreases |names|
  {
    var k := |names| - 1;
    if k <= 0 then ""
    else if names[k] == name && k < |texts| then texts[k]
    else LastNamed(names[..k], texts, name)
  }

  predicate HasNamed(names: seq<string>, texts: seq<string>, name: string) {
    exists k :: 0 < k < |names| && k < |texts| && names[k] == name
  }

  function OrZero(s: string): string { if s == "" then "0" else s }

  function VersionTextOf(names: seq<string>, texts: seq<string>): string {
    var version := LastNamed(names, texts, "version");
    if version != "" then version
    else if HasNamed(names, texts, "major") || HasNamed(names, texts, "minor") || HasNamed(names, texts, "patch") then
      OrZero(LastNamed(names, texts, "major")) + "." + OrZero(LastNamed(names, texts, "minor")) + "."
      + OrZero(LastNamed(names, texts, "patch"))
    else if texts != [] then texts[0]
    else ""
  }

  method VersionText(names: seq<string>, texts: seq<string>) returns (text: string)
    ensures text == VersionTextOf(names, texts)
  {
    var version, major, minor, patch, hasParts := "", "", "", "", false;
    for i := 0 to |names|
      invariant version == LastNamed(names[..i], texts, "version")
      invariant major == LastNamed(names[..i], texts, "major")
      invariant minor == LastNamed(names[..i], texts, "minor")
      invariant patch == LastNamed(names[..i], texts, "patch")
      invariant hasParts <==> exists k ::
                                && 0 < k < i && k < |texts|
                                && names[k] in {"major", "minor", "patch"}
    {
      assert names[..i+1][..i] == names[..i];
      if i > 0 && i < |texts| {
        match names[i]
        case "version" => version := texts[i];
        case "major" => major, hasParts := texts[i], true;
        case "minor" => minor, hasParts := texts[i], true;
        case "patch" => patch, hasParts := texts[i], true;
        case _ =>
      }
    }
    assert names[..|names|] == names;
    if version != "" {
      return version;
    }
    if hasParts {
      return OrZero(major) + "." + OrZero(minor) + "." + OrZero(patch);
    }
    if |texts| > 0 {
      return texts[0];
    }
    return "";
  }

  /** The rank of a tag, if it takes part at all. */
  function RankOf(re: Regexp, tag: string): Option<Rank> {
    var name := TrimSpace(tag);
    if name == "" || re.groups(name).None? then None
    else
      var text := VersionTextOf(re.names, re.groups(name).value);
      if TrimSpace(text) == "" then None else Some(ParseRank(text))
  }

  // ---- which text is ranked ----

  /** Group k of the match has this name; group 0 is the whole match. */
  predicate Names(names: seq<string>, texts: seq<string>, name: string, k: int) {
    0 < k < |names| && k < |texts| && names[k] == name
  }

  ghost predicate NamesLast(names: seq<string>, texts: seq<string>, name: string, k: int) {
    Names(names, texts, name, k) && forall j :: j > k ==> !Names(names, texts, name, j)
  }

  /** text is what the last group with this name holds, and empty if there is none. */
  ghost predicate Holds(names: seq<string>, texts: seq<string>, name: string, text: string) {
    || (text == "" && forall k :: !Names(names, texts, name, k))
    || exists k :: NamesLast(names, texts, name, k) && texts[k] == text
  }

  lemma {:induction false} LastNamedHolds(names: seq<string>, texts: seq<string>, name: string)
    ensures Holds(names, texts, name, LastNamed(names, texts, name))
    decreases |names|
  {
    var k := |names| - 1;
    if k > 0 && !(names[k] == name && k < |texts|) {
      LastNamedHolds(names[..k], texts, name);
      assert forall j :: Names(names, texts, name, j) <==> Names(names[..k], texts, name, j);
      assert forall j :: NamesLast(names, texts, name, j) <==> NamesLast(names[..k], texts, name, j);
    } else if k > 0 {
      assert NamesLast(names, texts, name, k);
    }
  }

  lemma HoldsOne(names: seq<string>, texts: seq<string>, name: string, text: string)
    requires Holds(names, texts, name, text)
    ensures LastNamed(names, texts, name) == text
  {
    LastNamedHolds(names, texts, name);
    if (exists k :: NamesLast(names, texts, name, k) && texts[k] == text) && exists j :: Names(names, texts, name, j) {
      var k :| NamesLast(names, texts, name, k) && texts[k] == text;
      var j :| NamesLast(names, texts, name, j) && texts[j] == LastNamed(names, texts, name);
      assert j <= k && k <= j;
    }
  }

  predicate IsPart(name: string) {
    name in {"major", "minor", "patch"}
  }

  /** The match names some part of a version, and no text for the version itself. */
  ghost predicate InParts(names: seq<string>, texts: seq<string>) {
    Holds(names, texts, "version", "") && exists name, k :: IsPart(name) && Names(names, texts, name, k)
  }

  /** The group holds n in digits, or is empty or missing for 0. */
  ghost predicate HoldsNumber(names: seq<string>, texts: seq<string>, name: string, n: nat) {
    Holds(names, texts, name, Itoa(n)) || (n == 0 && Holds(names, texts, name, ""))
  }

  /** The match says major.minor.patch. */
  ghost predicate HoldsTriple(names: seq<string>, texts: seq<string>, t: Triple) {
    && InParts(names, texts) && t.major <= MAX_INT && t.minor <= MAX_INT && t.patch <= MAX_INT
    && HoldsNumber(names, texts, "major", t.major)
    && HoldsNumber(names, texts, "minor", t.minor)
    && HoldsNumber(names, texts, "patch", t.patch)
  }

  datatype Triple = Triple(major: nat, minor: nat, patch: nat)

  function NumsOfTriple(t: Triple): seq<nat> {
    [t.major, t.minor, t.patch]
  }

  predicate TripleBelow(t: Triple, u: Triple) {
    || t.major < u.major
    || (t.major == u.major && (t.minor < u.minor || (t.minor == u.minor && t.patch < u.patch)))
  }

  /** A tag whose parts are numbers is ranked by them, in that order, as a release. */
  lemma PartsRanked(re: Regexp, tag: string, t: Triple)
    requires TrimSpace(tag) != "" && re.groups(TrimSpace(tag)).Some?
    requires HoldsTriple(re.names, re.groups(TrimSpace(tag)).value, t)
    ensures RankOf(re, tag).Some?
    ensures var r := RankOf(re, tag).value; r.nums == NumsOfTriple(t) && r.pre == [] && !r.lexical
  {
    var names, texts := re.names, re.groups(TrimSpace(tag)).value;
    var text := PrintVersion(NumsOfTriple(t), []);
    HoldsOne(names, texts, "version", "");
    PartText(names, texts, "major", t.major);
    PartText(names, texts, "minor", t.minor);
    PartText(names, texts, "patch", t.patch);
    PartNamed(names, texts);
    TripleText(t);
    PrintedParses(NumsOfTriple(t), []);
    assert VersionTextOf(names, texts) == text;
  }

  lemma PartText(names: seq<string>, texts: seq<string>, name: string, n: nat)
    requires HoldsNumber(names, texts, name, n)
    ensures OrZero(LastNamed(names, texts, name)) == Itoa(n)
  {
    DigitsRoundTrip(n);
    assert Itoa(0) == "0";
    if Holds(names, texts, name, Itoa(n)) {
      HoldsOne(names, texts, name, Itoa(n));
    } else {
      HoldsOne(names, texts, name, "");
    }
  }

  lemma PartNamed(names: seq<string>, texts: seq<string>)
    requires InParts(names, texts)
    ensures HasNamed(names, texts, "major") || HasNamed(names, texts, "minor") || HasNamed(names, texts, "patch")
  {
    var name, k :| IsPart(name) && Names(names, texts, name, k);
    assert HasNamed(names, texts, name);
  }

  lemma TripleText(t: Triple)
    ensures PrintVersion(NumsOfTriple(t), [])
              == Itoa(t.major) + "." + Itoa(t.minor) + "." + Itoa(t.patch)
    ensures TrimSpace(PrintVersion(NumsOfTriple(t), [])) != ""
  {
    var nums := NumsOfTriple(t);
    assert nums[1..] == [t.minor, t.patch] && nums[1..][1..] == [t.patch] && nums[1..][1..][1..] == [];
    assert PrintNums([t.patch]) == [Itoa(t.patch)] + PrintNums([]) by {
      assert [t.patch][1..] == [];
    }
    assert PrintNums([t.minor, t.patch]) == [Itoa(t.minor), Itoa(t.patch)];
    assert PrintNums(nums) == [Itoa(t.major), Itoa(t.minor), Itoa(t.patch)];
    JoinThree(Itoa(t.major), Itoa(t.minor), Itoa(t.patch));
    DigitsRoundTrip(t.major);
    DigitsRoundTrip(t.patch);
  }

  lemma JoinThree(a: string, b: string, c: string)
    ensures Join([a, b, c], '.') == a + "." + b + "." + c
  {
    assert [a, b, c][1..] == [b, c] && [b, c][1..] == [c];
    assert Join([b, c], '.') == b + ("." + c);
    assert a + "." + b + "." + c == a + ("." + (b + ("." + c)));
  }

  /** A version group with text is what is ranked; where neither it nor a part is named,
      the whole match is; and a text that is blank keeps the tag out. */
  lemma VersionRanked(re: Regexp, tag: string, text: string)
    requires TrimSpace(tag) != "" && re.groups(TrimSpace(tag)).Some?
    requires var names, texts := re.names, re.groups(TrimSpace(tag)).value;
             || (text != "" && Holds(names, texts, "version", text))
             || (Holds(names, texts, "version", "") && texts != [] && text == texts[0]
                 && forall name, k :: IsPart(name) ==> !Names(names, texts, name, k))
    ensures RankOf(re, tag) == if TrimSpace(text) == "" then None else Some(ParseRank(text))
  {
    var names, texts := re.names, re.groups(TrimSpace(tag)).value;
    if text != "" && Holds(names, texts, "version", text) {
      HoldsOne(names, texts, "version", text);
    } else {
      HoldsOne(names, texts, "version", "");
      forall name | IsPart(name) ensures !HasNamed(names, texts, name) {
        if HasNamed(names, texts, name) {
          var k :| 0 < k < |names| && k < |texts| && names[k] == name;
          assert Names(names, texts, name, k);
        }
      }
    }
  }

  /** A tag that is blank or does not match takes no part. */
  lemma NotRanked(re: Regexp, tag: string)
    requires TrimSpace(tag) == "" || re.groups(TrimSpace(tag)).None?
    ensures RankOf(re, tag).None?
  {
  }

  /** The triple a tag is ranked by. */
  ghost predicate HasTriple(re: Regexp, tag: string, t: Triple) {
    && TrimSpace(tag) != "" && re.groups(TrimSpace(tag)).Some?
    && HoldsTriple(re.names, re.groups(TrimSpace(tag)).value, t)
  }

  datatype Candidate = Candidate(tag: string, rank: Rank)

  type Ranker = string -> Option<Rank>

  /** The scan of the source: a later tag wins only if it is newer. */
  ghost function Scan(rank: Ranker, tags: seq<string>): Option<Candidate> {
    if tags == [] then None
    else
      var k := |tags| - 1;
      Pick(Scan(rank, tags[..k]), tags[k], rank(tags[k]))
  }

  ghost function Pick(best: Option<Candidate>, tag: string, r: Option<Rank>): Option<Candidate> {
    if r.Some? && (best.None? || Newer(r.value, best.value.rank)) then
      Some(Candidate(TrimSpace(tag), r.value))
    else best
  }

  /** Ranks parsed alike: all as numbers, or all as text. */
  ghost predicate Uniform(rank: Ranker, tags: seq<string>) {
    exists lexical :: AllLexical(rank, tags, lexical)
  }

  predicate AllLexical(rank: Ranker, tags: seq<string>, lexical: bool) {
    forall i :: 0 <= i < |tags| ==> RankedAs(rank, tags[i], lexical)
  }

  predicate RankedAs(rank: Ranker, tag: string, lexical: bool) {
    rank(tag).Some? ==> rank(tag).value.lexical == lexical
  }

  ghost predicate NotAbove(rank: Ranker, tag: string, best: Rank) {
    rank(tag).Some? ==> !Newer(rank(tag).value, best)
  }

  ghost predicate Below(rank: Ranker, tag: string, best: Rank) {
    rank(tag).Some? ==> Newer(best, rank(tag).value)
  }

  /** None is newer than best, and everything before position i is older. */
  ghost predicate EarliestNewest(rank: Ranker, tags: seq<string>, i: nat, best: Rank) {
    && i < |tags|
    && rank(tags[i]) == Some(best)
    && (forall j :: 0 <= j < |tags| ==> NotAbove(rank, tags[j], best))
    && (forall j :: 0 <= j < i ==> Below(rank, tags[j], best))
  }

  lemma PrefixLexical(rank: Ranker, tags: seq<string>, lexical: bool)
    requires tags != [] && AllLexical(rank, tags, lexical)
    ensures AllLexical(rank, tags[..|tags|-1], lexical)
  {
  }

  /** Where all ranks are numbers, or all are text, the scan finds a tag none is newer
      than, and the earliest of those. */
  lemma {:induction false} ScanFindsNewest(rank: Ranker, tags: seq<string>, lexical: bool) returns (i: nat)
    requires AllLexical(rank, tags, lexical)
    ensures Found(rank, tags, Scan(rank, tags), i)
  {
    i := 0;
    if tags != [] {
      var k := |tags| - 1;
      PrefixLexical(rank, tags, lexical);
      i := ScanFindsNewest(rank, tags[..k], lexical);
      i := ScanNext(rank, tags, Scan(rank, tags[..k]), i, lexical);
    }
  }

  ghost predicate Found(rank: Ranker, tags: seq<string>, best: Option<Candidate>, i: nat) {
    if best.None? then forall j :: 0 <= j < |tags| ==> rank(tags[j]).None?
    else EarliestNewest(rank, tags, i, best.value.rank) && best.value.tag == TrimSpace(tags[i])
  }

  lemma ScanNext(rank: Ranker, tags: seq<string>, was: Option<Candidate>, i: nat, lexical: bool) returns (i': nat)
    requires tags != [] && AllLexical(rank, tags, lexical) && Found(rank, tags[..|tags|-1], was, i)
    ensures Found(rank, tags, Pick(was, tags[|tags|-1], rank(tags[|tags|-1])), i')
  {
    var k := |tags| - 1;
    assert RankedAs(rank, tags[k], lexical);
    i' := i;
    if rank(tags[k]).Some? {
      var last := rank(tags[k]).value;
      if was.None? {
        i' := k;
        NewerIsWeakOrder(last, last, last);
        assert forall j :: 0 <= j < k ==> tags[..k][j] == tags[j];
        OnlyOne(rank, tags, last);
      } else {
        PickKeeps(rank, tags, i, was.value.rank, last, lexical);
        if Newer(last, was.value.rank) {
          i' := k;
        }
      }
    } else {
      NotPicked(rank, tags, was, i);
    }
  }

  lemma NotPicked(rank: Ranker, tags: seq<string>, was: Option<Candidate>, i: nat)
    requires tags != [] && Found(rank, tags[..|tags|-1], was, i) && rank(tags[|tags|-1]).None?
    ensures Found(rank, tags, was, i)
  {
    var k := |tags| - 1;
    assert forall j :: 0 <= j < k ==> tags[..k][j] == tags[j];
  }

  lemma OnlyOne(rank: Ranker, tags: seq<string>, last: Rank)
    requires tags != [] && rank(tags[|tags|-1]) == Some(last) && !Newer(last, last)
    requires forall j :: 0 <= j < |tags| - 1 ==> rank(tags[j]).None?
    ensures EarliestNewest(rank, tags, |tags| - 1, last)
  {
  }

  lemma PickKeeps(rank: Ranker, tags: seq<string>, i: nat, best: Rank, last: Rank, lexical: bool)
    requires tags != [] && AllLexical(rank, tags, lexical) && EarliestNewest(rank, tags[..|tags|-1], i, best)
    requires rank(tags[|tags|-1]) == Some(last)
    ensures if Newer(last, best) then EarliestNewest(rank, tags, |tags| - 1, last)
              else EarliestNewest(rank, tags, i, best)
  {
    var k := |tags| - 1;
    assert RankedAs(rank, tags[k], lexical) && RankedAs(rank, tags[i], lexical);
    forall j | 0 <= j < |tags|
      ensures if Newer(last, best) then NotAbove(rank, tags[j], last) else NotAbove(rank, tags[j], best)
      ensures j < k && Newer(last, best) ==> Below(rank, tags[j], last)
      ensures j < i && !Newer(last, best) ==> Below(rank, tags[j], best)
    {
      assert RankedAs(rank, tags[j], lexical);
      if j < k {
        assert tags[..k][j] == tags[j];
        assert NotAbove(rank, tags[..k][j], best) && (j < i ==> Below(rank, tags[..k][j], best));
        PickOne(rank, tags[j], best, last, lexical);
      } else {
        NewerIsWeakOrder(last, last, last);
      }
    }
  }

  lemma PickOne(rank: Ranker, tag: string, best: Rank, last: Rank, lexical: bool)
    requires best.lexical == last.lexical == lexical && RankedAs(rank, tag, lexical) && NotAbove(rank, tag, best)
    ensures Newer(last, best) ==> NotAbove(rank, tag, last) && Below(rank, tag, last)
  {
    if rank(tag).Some? {
      var r := rank(tag).value;
      NewerIsWeakOrder(last, r, best);
      NewerIsWeakOrder(last, r, r);
    }
  }

  /** Where all ranks are numbers with well read identifiers, no tag has a higher
      precedence than the one picked. */
  lemma PicksHighest(rank: Ranker, tags: seq<string>, i: nat)
    requires AllLexical(rank, tags, false) && i < |tags|
    requires forall j :: 0 <= j < |tags| ==> RanksWellRead(rank, tags[j])
    requires rank(tags[i]).Some?
    ensures Scan(rank, tags).Some?
    ensures !SemVer.Below(VersionOf(Scan(rank, tags).value.rank), VersionOf(rank(tags[i]).value))
  {
    var best := ScanFindsNewest(rank, tags, false);
    assert RankedAs(rank, tags[i], false) && RankedAs(rank, tags[best], false);
    assert RanksWellRead(rank, tags[i]) && RanksWellRead(rank, tags[best]);
    assert NotAbove(rank, tags[i], Scan(rank, tags).value.rank);
    WellReadAgree(rank(tags[i]).value, Scan(rank, tags).value.rank);
  }

  predicate RanksWellRead(rank: Ranker, tag: string) {
    rank(tag).Some? ==> AllWellRead(rank(tag).value.pre)
  }

  /** The order of the tags decides only between equal ranks. */
  lemma ScanOfPermutation(rank: Ranker, tags: seq<string>, tags': seq<string>)
    requires Uniform(rank, tags) && multiset(tags) == multiset(tags')
    ensures Scan(rank, tags).Some? == Scan(rank, tags').Some?
    ensures Scan(rank, tags).Some? ==> SameRank(Scan(rank, tags).value.rank, Scan(rank, tags').value.rank)
  {
    var lexical :| AllLexical(rank, tags, lexical);
    forall j | 0 <= j < |tags'| ensures RankedAs(rank, tags'[j], lexical) {
      var _ := Elsewhere(tags', tags, j);
    }
    var i := ScanFindsNewest(rank, tags, lexical);
    var i' := ScanFindsNewest(rank, tags', lexical);
    if Scan(rank, tags).Some? {
      var j' := Elsewhere(tags, tags', i);
      assert rank(tags'[j']).Some?;
      var j := Elsewhere(tags', tags, i');
      assert RankedAs(rank, tags[i], lexical) && RankedAs(rank, tags'[i'], lexical);
      assert NotAbove(rank, tags[j], Scan(rank, tags).value.rank)
        && NotAbove(rank, tags'[j'], Scan(rank, tags').value.rank);
      NewerIsWeakOrder(Scan(rank, tags).value.rank, Scan(rank, tags').value.rank, Scan(rank, tags).value.rank);
    } else if Scan(rank, tags').Some? {
      var j := Elsewhere(tags', tags, i');
    }
  }

  lemma Elsewhere(s: seq<string>, s': seq<string>, i: nat) returns (j: nat)
    requires multiset(s) == multiset(s') && i < |s|
    ensures j < |s'| && s'[j] == s[i]
  {
    assert s[i] in multiset(s');
    j :| 0 <= j < |s'| && s'[j] == s[i];
  }

  function RankerOf(re: Regexp): Ranker {
    tag => RankOf(re, tag)
  }

  ghost function SelectTo(tags: seq<string>, pattern: string, compile: string -> Option<Regexp>): Selected {
    var p := TrimSpace(pattern);
    if p == "" then EmptyPattern
    else if compile(p).None? then InvalidPattern
    else
      var best := Scan(RankerOf(compile(p).value), tags);
      if best.None? then NoMatchingTag else Tag(best.value.tag)
  }

  /** Each failure has its own reason, and nothing else fails. */
  lemma {:induction false} SelectFails(tags: seq<string>, pattern: string, compile: string -> Option<Regexp>)
    ensures var r, compiled := SelectTo(tags, pattern, compile), compile(TrimSpace(pattern));
            && (r == EmptyPattern <==> TrimSpace(pattern) == "")
            && (r == InvalidPattern <==> TrimSpace(pattern) != "" && compiled.None?)
            && (r == NoMatchingTag <==>
                  && TrimSpace(pattern) != "" && compiled.Some?
                  && forall j :: 0 <= j < |tags| ==> RankOf(compiled.value, tags[j]).None?)
  {
    if compile(TrimSpace(pattern)).Some? {
      ScanFinds(RankerOf(compile(TrimSpace(pattern)).value), tags);
    }
  }

  lemma {:induction false} ScanFinds(rank: Ranker, tags: seq<string>)
    ensures Scan(rank, tags).None? <==> forall j :: 0 <= j < |tags| ==> rank(tags[j]).None?
  {
    if tags != [] {
      var k := |tags| - 1;
      ScanFinds(rank, tags[..k]);
      assert forall j :: 0 <= j < k ==> tags[..k][j] == tags[j];
    }
  }

  lemma TriplesOrder(a: Rank, b: Rank, t: Triple, u: Triple)
    requires a.nums == NumsOfTriple(t) && b.nums == NumsOfTriple(u)
    requires a.pre == b.pre == [] && !a.lexical && !b.lexical
    ensures Newer(a, b) <==> TripleBelow(u, t)
  {
    var k, l := Nums(a.nums), Nums(b.nums);
    assert forall i: nat :: i < 3 ==> At(k, i) == Num(a.nums[i]) && At(l, i) == Num(b.nums[i]);
    if t.major != u.major {
      FirstOf(k, l, 0);
    } else if t.minor != u.minor {
      FirstOf(k, l, 1);
    } else if t.patch != u.patch {
      FirstOf(k, l, 2);
    } else {
      AboveOrder(k, l);
    }
    AboveOrder(Pre([]), Pre([]));
  }

  lemma FirstOf(k: Keys, l: Keys, i: nat)
    requires AgreeTo(k, l, i) && At(k, i) != At(l, i)
    ensures Above(k, l) <==> KeyAbove(At(k, i), At(l, i))
    ensures !Same(k, l)
  {
    KeyOrder(At(k, i), At(l, i));
    if KeyAbove(At(k, i), At(l, i)) {
      AboveAt(k, l, i);
    } else {
      AboveAt(l, k, i);
    }
  }

  /** Where every tag that takes part is ranked by its parts, the tag selected has the
      greatest triple, and is the first with that one; and there is one selected if any
      takes part. */
  lemma SelectsGreatest(tags: seq<string>, pattern: string, compile: string -> Option<Regexp>, re: Regexp, i: nat,
                        t: Triple)
      returns (k: nat, u: Triple)
    requires TrimSpace(pattern) != "" && compile(TrimSpace(pattern)) == Some(re)
    requires forall j :: 0 <= j < |tags| ==> RankOf(re, tags[j]).None? || exists v :: HasTriple(re, tags[j], v)
    requires i < |tags| && HasTriple(re, tags[i], t)
    ensures k < |tags| && SelectTo(tags, pattern, compile) == Tag(TrimSpace(tags[k])) && HasTriple(re, tags[k], u)
    ensures !TripleBelow(u, t) && (i < k ==> TripleBelow(t, u))
  {
    var rank := RankerOf(re);
    forall j | 0 <= j < |tags| ensures RankedAs(rank, tags[j], false) {
      if rank(tags[j]).Some? {
        var v :| HasTriple(re, tags[j], v);
        PartsRanked(re, tags[j], v);
      }
    }
    k := ScanFindsNewest(rank, tags, false);
    PartsRanked(re, tags[i], t);
    assert rank(tags[i]).Some?;
    var best := Scan(rank, tags).value.rank;
    assert rank(tags[k]) == Some(best) && NotAbove(rank, tags[i], best);
    u :| HasTriple(re, tags[k], u);
    PartsRanked(re, tags[k], u);
    TriplesOrder(rank(tags[i]).value, best, t, u);
    TriplesOrder(best, rank(tags[i]).value, u, t);
    assert i < k ==> Below(rank, tags[i], best);
  }

  method RankTag(re: Regexp, tag: string) returns (rank: Option<Rank>)
    ensures rank == RankOf(re, tag)
  {
    var name := TrimSpace(tag);
    if name == "" || re.groups(name).None? {
      return None;
    }
    var text := VersionText(re.names, re.groups(name).value);
    if TrimSpace(text) == "" {
      return None;
    }
    var r := ParseVersionRank(text);
    return Some(r);
  }

  method SelectNewestTag(tags: seq<string>, rawPattern: string, compile: string -> Option<Regexp>) returns (r: Selected)
    ensures r == SelectTo(tags, rawPattern, compile)
  {
    var pattern := TrimSpace(rawPattern);
    if pattern == "" {
      return EmptyPattern;
    }
    var compiled := compile(pattern);
    if compiled.None? {
      return InvalidPattern;
    }
    var best: Option<Candidate> := Newest(compiled.value, tags);
    return if best.None? then NoMatchingTag else Tag(best.value.tag);
  }

  /** The loop of SelectNewestTag. */
  method Newest(re: Regexp, tags: seq<string>) returns (best: Option<Candidate>)
    ensures best == Scan(RankerOf(re), tags)
  {
    best := None;
    for i := 0 to |tags|
      invariant best == Scan(RankerOf(re), tags[..i])
    {
      assert tags[..i+1][..i] == tags[..i];
      var rank := RankTag(re, tags[i]);
      if rank.Some? {
        var newer := best.None?;
        if best.Some? {
          newer := NewerThan(rank.value, best.value.rank);
        }
        if newer {
          best := Some(Candidate(TrimSpace(tags[i]), rank.value));
        }
      }
    }
    assert tags[..|tags|] == tags;
  }
}
