/** Precedence of versions as section 11 of Semantic Versioning 2.0.0 defines it, on its
    own terms. Versions may have any number of numeric fields; missing ones are 0. */
module SemVer {
  import opened Text
  import Sorting

  datatype Version = Version(nums: seq<int>, pre: seq<string>)

  function First(nums: seq<int>): int { if nums == [] then 0 else nums[0] }

  function Rest(nums: seq<int>): seq<int> { if nums == [] then [] else nums[1..] }

  /** Section 11.2: the first difference of the numeric fields decides. */
  predicate NumsBelow(m: seq<int>, n: seq<int>)
    decreases |m| + |n|
  {
    (m != [] || n != [])
    && (First(m) < First(n) || (First(m) == First(n) && NumsBelow(Rest(m), Rest(n))))
  }

  predicate IsNumeric(id: string) {
    id != "" && AllDigits(id)
  }

  /** Sections 11.4.1 to 11.4.3: numbers by value, however long; everything else in
      ASCII order; numbers below everything else. */
  predicate IdentBelow(x: string, y: string) {
    if IsNumeric(x) && IsNumeric(y) then ValueOf(x) < ValueOf(y)
    else if IsNumeric(x) != IsNumeric(y) then IsNumeric(x)
    else Sorting.StringLess(x, y)
  }

  /** Section 11.4: identifiers are compared from left to right until a difference is
      found; with all of them equal the longer list is higher (11.4.4). */
  predicate PreBelow(p: seq<string>, q: seq<string>)
    decreases |p|
  {
    q != [] && (p == [] || IdentBelow(p[0], q[0]) || (!IdentBelow(q[0], p[0]) && PreBelow(p[1..], q[1..])))
  }

  /** Section 11.3: a pre-release is below its release. */
  predicate Below(a: Version, b: Version) {
    || NumsBelow(a.nums, b.nums)
    || (!NumsBelow(b.nums, a.nums) && a.pre != [] && (b.pre == [] || PreBelow(a.pre, b.pre)))
  }

  predicate LegalChar(c: char) {
    '0' <= c <= '9' || 'A' <= c <= 'Z' || 'a' <= c <= 'z' || c == '-'
  }

  /** Section 9: what an identifier may be. */
  predicate Legal(id: string) {
    && id != "" && (forall i :: 0 <= i < |id| ==> LegalChar(id[i]))
    && (IsNumeric(id) ==> |id| == 1 || id[0] != '0')
  }

  predicate AllLegal(pre: seq<string>) {
    forall i :: 0 <= i < |pre| ==> Legal(pre[i])
  }

  function BeforePlus(id: string): string {
    if id == "" || id[0] == '+' then "" else [id[0]] + BeforePlus(id[1..])
  }

  /** Section 10: build metadata follows the first plus sign, to the end, and is
      ignored. */
  function WithoutBuild(pre: seq<string>): seq<string> {
    if pre == [] then []
    else if '+' in pre[0] then [BeforePlus(pre[0])]
    else [pre[0]] + WithoutBuild(pre[1..])
  }

  lemma IdentStrict(x: string, y: string)
    ensures !(IdentBelow(x, y) && IdentBelow(y, x))
  {
    Sorting.StringTotal(x, y);
  }

  lemma {:induction false} PreStrict(p: seq<string>, q: seq<string>)
    ensures !(PreBelow(p, q) && PreBelow(q, p))
    decreases |p|
  {
    if p != [] && q != [] {
      IdentStrict(p[0], q[0]);
      PreStrict(p[1..], q[1..]);
    }
  }

  lemma {:induction false} NumsStrict(m: seq<int>, n: seq<int>)
    ensures !(NumsBelow(m, n) && NumsBelow(n, m))
    decreases |m| + |n|
  {
    if m != [] || n != [] {
      NumsStrict(Rest(m), Rest(n));
    }
  }

  lemma BelowStrict(a: Version, b: Version)
    ensures !(Below(a, b) && Below(b, a))
  {
    NumsStrict(a.nums, b.nums);
    PreStrict(a.pre, b.pre);
  }

  lemma {:induction false} CommonPrefix(c: seq<string>, p: seq<string>, q: seq<string>)
    ensures PreBelow(c + p, c + q) == PreBelow(p, q)
  {
    if c == [] {
      assert c + p == p && c + q == q;
    } else {
      IdentStrict(c[0], c[0]);
      assert (c + p)[1..] == c[1..] + p && (c + q)[1..] == c[1..] + q;
      CommonPrefix(c[1..], p, q);
    }
  }

  lemma {:induction false} BuildBehind(c: seq<string>, rest: seq<string>)
    requires forall id :: id in c ==> '+' !in id
    ensures WithoutBuild(c + rest) == c + WithoutBuild(rest)
  {
    if c == [] {
      assert c + rest == rest && c + WithoutBuild(rest) == WithoutBuild(rest);
    } else {
      assert c[0] in c && (c + rest)[1..] == c[1..] + rest;
      BuildBehind(c[1..], rest);
    }
  }

  lemma {:induction false} BeforePlusSplits(id: string) returns (build: string)
    requires '+' in id
    ensures id == BeforePlus(id) + ("+" + build) && '+' !in BeforePlus(id)
  {
    if id[0] == '+' {
      build := id[1..];
    } else {
      build := BeforePlusSplits(id[1..]);
      assert id == [id[0]] + id[1..];
    }
  }
}
