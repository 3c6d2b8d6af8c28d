/** String operations the source takes from Go's standard library. */
module Text {
  import opened Common

  /** sub occurs in s at position k. */
  predicate OccursAt(s: string, sub: string, k: nat) {
    k + |sub| <= |s| && s[k..k+|sub|] == sub
  }

  /** strings.Contains. */
  predicate Contains(s: string, sub: string) {
    exists k :: 0 <= k <= |s| && OccursAt(s, sub, k)
  }

  /** strings.TrimPrefix. */
  function TrimPrefix(s: string, prefix: string): string {
    if prefix <= s then s[|prefix|..] else s
  }

  // ---- strings.Split and strings.Join on a single character ----

  function Split(s: string, c: char): (r: seq<string>)
    ensures r != []
  {
    if s == [] then [""]
    else
      var rest := Split(s[1..], c);
      if s[0] == c then [""] + rest else [[s[0]] + rest[0]] + rest[1..]
  }

  function Join(parts: seq<string>, c: char): string
    requires parts != []
  {
    if |parts| == 1 then parts[0] else parts[0] + ([c] + Join(parts[1..], c))
  }

  lemma {:induction false} SplitTwo(a: string, b: string, c: char)
    ensures Split(a + ([c] + b), c) == Split(a, c) + Split(b, c)
  {
    if a == [] {
      assert a + ([c] + b) == [c] + b && ([c] + b)[1..] == b;
    } else {
      assert (a + ([c] + b))[1..] == a[1..] + ([c] + b) && (a + ([c] + b))[0] == a[0];
      SplitTwo(a[1..], b, c);
    }
  }

  lemma {:induction false} SplitFirst(a: string, rest: string, c: char)
    requires c !in a
    ensures Split(a + ([c] + rest), c) == [a] + Split(rest, c)
  {
    if a == [] {
      assert a + ([c] + rest) == [c] + rest;
      assert ([c] + rest)[1..] == rest;
    } else {
      assert (a + ([c] + rest))[1..] == a[1..] + ([c] + rest);
      SplitFirst(a[1..], rest, c);
      assert [a[0]] + a[1..] == a;
    }
  }

  lemma {:induction false} SplitNone(a: string, c: char)
    requires c !in a
    ensures Split(a, c) == [a]
  {
    if a != [] {
      SplitNone(a[1..], c);
      assert [a[0]] + a[1..] == a;
    }
  }

  /** Splitting what was joined gives the parts back. */
  lemma {:induction false} SplitJoin(parts: seq<string>, c: char)
    requires parts != [] && forall p :: p in parts ==> c !in p
    ensures Split(Join(parts, c), c) == parts
  {
    if |parts| == 1 {
      SplitNone(parts[0], c);
    } else {
      SplitFirst(parts[0], Join(parts[1..], c), c);
      SplitJoin(parts[1..], c);
    }
  }

  lemma {:induction false} JoinSplit(s: string, c: char)
    ensures Join(Split(s, c), c) == s
    ensures forall p :: p in Split(s, c) ==> c !in p
  {
    if s != [] {
      JoinSplit(s[1..], c);
      var rest := Split(s[1..], c);
      if s[0] == c {
        assert ([""] + rest)[1..] == rest;
      } else {
        var r := [[s[0]] + rest[0]] + rest[1..];
        assert r[1..] == rest[1..];
        if |rest| > 1 {
          assert [s[0]] + rest[0] + ([c] + Join(rest[1..], c)) == [s[0]] + (rest[0] + ([c] + Join(rest[1..], c)));
        }
      }
    }
  }

  // ---- strings.Index, strings.Cut and strings.Split on a longer separator ----

  function Index(s: string, sub: string): (r: Option<nat>)
    ensures r.Some? ==> OccursAt(s, sub, r.value)
  {
    if sub <= s then Some(0)
    else if s == [] then None
    else
      var r := Index(s[1..], sub);
      if r.None? then None else Some(r.value + 1)
  }

  /** The parts around the first separator. */
  function Cut(s: string, sep: string): Option<(string, string)> {
    var i := Index(s, sep);
    if i.None? then None else Some((s[..i.value], s[i.value+|sep|..]))
  }

  function SplitOn(s: string, sep: string): seq<string>
    requires sep != []
    decreases |s|
  {
    var c := Cut(s, sep);
    if c.None? then [s] else [c.value.0] + SplitOn(c.value.1, sep)
  }

  lemma OccursChars(s: string, sub: string, k: nat)
    ensures OccursAt(s, sub, k) <==> k + |sub| <= |s| && forall i :: 0 <= i < |sub| ==> s[k+i] == sub[i]
  {
    if k + |sub| <= |s| && forall i :: 0 <= i < |sub| ==> s[k+i] == sub[i] {
      assert s[k..k+|sub|] == sub;
    } else if k + |sub| <= |s| {
      var i :| 0 <= i < |sub| && s[k+i] != sub[i];
      assert s[k..k+|sub|][i] != sub[i];
    }
  }

  lemma OccursShift(s: string, sub: string, k: nat)
    requires s != []
    ensures OccursAt(s[1..], sub, k) <==> OccursAt(s, sub, k + 1)
  {
    assert k + 1 + |sub| <= |s| ==> s[1..][k..k+|sub|] == s[k+1..k+1+|sub|];
  }

  lemma OccursFirst(s: string, sub: string)
    ensures OccursAt(s, sub, 0) <==> sub <= s
  {
    assert |sub| <= |s| ==> s[0..0+|sub|] == s[..|sub|];
  }

  lemma {:induction false} IndexIs(s: string, sub: string, n: nat)
    requires OccursAt(s, sub, n) && forall k :: 0 <= k < n ==> !OccursAt(s, sub, k)
    ensures Index(s, sub) == Some(n)
  {
    OccursFirst(s, sub);
    if n > 0 {
      assert !OccursAt(s, sub, 0);
      assert s != [];
      OccursShift(s, sub, n - 1);
      forall k | 0 <= k < n - 1 ensures !OccursAt(s[1..], sub, k) {
        OccursShift(s, sub, k);
      }
      IndexIs(s[1..], sub, n - 1);
    }
  }

  /** A separator whose first character is not in a is first found behind a. */
  lemma CutBehind(a: string, sep: string, rest: string)
    requires sep != [] && sep[0] !in a
    ensures Cut(a + (sep + rest), sep) == Some((a, rest))
  {
    var s := a + (sep + rest);
    assert s[|a|..|a|+|sep|] == sep;
    forall k | 0 <= k < |a| ensures !OccursAt(s, sep, k) {
      OccursChars(s, sep, k);
      assert s[k+0] == a[k];
    }
    IndexIs(s, sep, |a|);
    assert s[..|a|] == a && s[|a|+|sep|..] == rest;
  }

  // ---- strings.TrimSpace ----

  predicate IsSpace(c: char) {
    c in {' ', '\t', '\n', '\r', '\U{0B}', '\U{0C}', '\U{85}', '\U{A0}', '\U{1680}', '\U{2028}', '\U{2029}',
      '\U{202F}', '\U{205F}', '\U{3000}'}
    || '\U{2000}' <= c <= '\U{200A}'
  }

  function TrimLeft(s: string): string {
    if s != [] && IsSpace(s[0]) then TrimLeft(s[1..]) else s
  }

  function TrimRight(s: string): string {
    if s != [] && IsSpace(s[|s|-1]) then TrimRight(s[..|s|-1]) else s
  }

  function TrimSpace(s: string): string {
    TrimRight(TrimLeft(s))
  }

  /** No space at either end. */
  predicate Trimmed(s: string) {
    s == [] || (!IsSpace(s[0]) && !IsSpace(s[|s|-1]))
  }

  lemma TrimTrimmed(s: string)
    requires Trimmed(s)
    ensures TrimSpace(s) == s
  {
  }

  lemma {:induction false} TrimShorter(s: string)
    ensures TrimSpace(s) == s || |TrimSpace(s)| < |s|
    ensures TrimSpace(s) == s <==> Trimmed(s)
  {
    TrimLeftShorter(s);
    TrimRightShorter(TrimLeft(s));
  }

  lemma {:induction false} TrimLeftShorter(s: string)
    ensures if s != [] && IsSpace(s[0]) then |TrimLeft(s)| < |s| else TrimLeft(s) == s
  {
    if s != [] && IsSpace(s[0]) {
      TrimLeftShorter(s[1..]);
    }
  }

  lemma {:induction false} TrimRightShorter(s: string)
    ensures if s != [] && IsSpace(s[|s|-1]) then |TrimRight(s)| < |s| else TrimRight(s) == s
  {
    if s != [] && IsSpace(s[|s|-1]) {
      TrimRightShorter(s[..|s|-1]);
    }
  }

  lemma TrimmedIsTrimmed(s: string)
    ensures Trimmed(TrimSpace(s))
  {
    TrimLeftEnds(s);
    TrimRightEnds(TrimLeft(s));
  }

  lemma {:induction false} TrimLeftEnds(s: string)
    ensures var t := TrimLeft(s); t == [] || !IsSpace(t[0])
  {
    if s != [] && IsSpace(s[0]) {
      TrimLeftEnds(s[1..]);
    }
  }

  lemma {:induction false} TrimRightEnds(s: string)
    ensures var t := TrimRight(s); t <= s && (t == [] || !IsSpace(t[|t|-1]))
  {
    if s != [] && IsSpace(s[|s|-1]) {
      TrimRightEnds(s[..|s|-1]);
    }
  }

  /** Space around a string does not change what is left. */
  lemma {:induction false} TrimPadded(s: string, c: char, d: char)
    requires IsSpace(c) && IsSpace(d)
    ensures TrimSpace([c] + s + [d]) == TrimSpace(s)
  {
    assert ([c] + s + [d])[1..] == s + [d];
    TrimPaddedRight(s, d);
  }

  lemma {:induction false} TrimPaddedRight(s: string, d: char)
    requires IsSpace(d)
    ensures TrimSpace(s + [d]) == TrimSpace(s)
  {
    if s != [] && IsSpace(s[0]) {
      assert (s + [d])[1..] == s[1..] + [d];
      TrimPaddedRight(s[1..], d);
    } else if s == [] {
      assert (s + [d])[1..] == [];
    } else {
      assert TrimLeft(s + [d]) == s + [d];
      assert (s + [d])[..|s|] == s;
    }
  }

  // ---- strconv.Itoa and strconv.Atoi ----

  const MAX_INT := 0x7FFF_FFFF_FFFF_FFFF

  predicate IsDigit(c: char) {
    '0' <= c <= '9'
  }

  function Digit(d: nat): char
    requires d < 10
  {
    '0' + d as char
  }

  function DigitsOf(n: nat): string {
    if n < 10 then [Digit(n)] else DigitsOf(n / 10) + [Digit(n % 10)]
  }

  function Itoa(n: int): string {
    if n < 0 then "-" + DigitsOf(-n) else DigitsOf(n)
  }

  predicate AllDigits(s: string) {
    forall k :: 0 <= k < |s| ==> IsDigit(s[k])
  }

  function ValueOf(s: string): nat
    requires AllDigits(s)
  {
    if s == [] then 0 else ValueOf(s[..|s|-1]) * 10 + (s[|s|-1] as int - '0' as int)
  }

  /** Atoi: an optional sign, then digits, within 64 bits. */
  function Atoi(s: string): Option<int> {
    var signed := s != [] && s[0] in {'+', '-'};
    var digits := if signed then s[1..] else s;
    if digits == [] || !AllDigits(digits) then None
    else
      var n: int := ValueOf(digits);
      var v := if signed && s[0] == '-' then -n else n;
      if -MAX_INT - 1 <= v <= MAX_INT then Some(v) else None
  }

  lemma {:induction false} DigitsRoundTrip(n: nat)
    ensures DigitsOf(n) != [] && AllDigits(DigitsOf(n)) && ValueOf(DigitsOf(n)) == n
  {
    if n >= 10 {
      DigitsRoundTrip(n / 10);
      assert DigitsOf(n)[..|DigitsOf(n)|-1] == DigitsOf(n / 10);
    } else {
      assert DigitsOf(n)[..0] == [];
    }
  }

  lemma NotADigit(s: string, c: char)
    requires AllDigits(s) && !IsDigit(c)
    ensures c !in s
  {
    forall k | 0 <= k < |s| ensures s[k] != c {
      assert IsDigit(s[k]);
    }
  }

  /** Printing and parsing a number are inverse. */
  lemma ItoaRoundTrip(n: nat)
    requires n <= MAX_INT
    ensures Atoi(Itoa(n)) == Some(n)
    ensures AllDigits(Itoa(n)) && Itoa(n) != []
  {
    DigitsRoundTrip(n);
  }
}
