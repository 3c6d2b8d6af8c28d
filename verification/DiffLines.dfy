/** internal/checks/review/review.go: which lines a unified diff adds. */
module DiffLines {
  import opened Common
  import opened Text

  /** The loop's variables; file "" means no current file. */
  datatype State = State(file: string, newLine: int, keys: set<string>)

  function Key(path: string, line: int): string {
    path + ([':'] + Itoa(line))
  }

  /** The first part of a hunk header that names the new side. */
  function PlusPart(parts: seq<string>): Option<string> {
    if parts == [] then None
    else if "+" <= parts[0] && !("+++" <= parts[0]) then Some(parts[0])
    else PlusPart(parts[1..])
  }

  /** A part that names lines of the new side, and is not the "+++" of a file header. */
  predicate NamesNew(part: string) {
    part != "" && part[0] == '+' && !(|part| >= 3 && part[1] == '+' && part[2] == '+')
  }

  predicate FirstNew(parts: seq<string>, part: string, k: nat) {
    k < |parts| && parts[k] == part && NamesNew(part) && forall j :: 0 <= j < k ==> !NamesNew(parts[j])
  }

  /** It is the first such part. */
  lemma {:induction false} FirstPlusPart(parts: seq<string>) returns (k: nat)
    ensures PlusPart(parts).Some? ==> FirstNew(parts, PlusPart(parts).value, k)
    ensures PlusPart(parts).None? ==> forall j :: 0 <= j < |parts| ==> !NamesNew(parts[j])
  {
    k := 0;
    if parts != [] && !NamesNew(parts[0]) {
      k := FirstPlusPart(parts[1..]);
      k := k + 1;
      assert forall j :: 0 < j < |parts| ==> parts[1..][j-1] == parts[j];
    }
  }

  function HunkStart(line: string, newLine: int): int {
    var p := PlusPart(Split(line, ' '));
    if p.None? then newLine
    else
      var n := Atoi(Split(TrimPrefix(p.value, "+"), ',')[0]);
      if n.Some? then n.value else newLine
  }

  /** A hunk header starts at the number its first such part begins with; without one, or
      where it is no number, the counter stays where it is. */
  lemma HeaderSays(line: string, newLine: int, part: string, k: nat)
    requires FirstNew(Split(line, ' '), part, k)
    ensures var n := Atoi(Split(part[1..], ',')[0]);
            HunkStart(line, newLine) == if n.Some? then n.value else newLine
  {
    var k' := FirstPlusPart(Split(line, ' '));
    assert k' == k;
    assert TrimPrefix(part, "+") == part[1..];
  }

  lemma HeaderSilent(line: string, newLine: int)
    requires forall part :: part in Split(line, ' ') ==> !NamesNew(part)
    ensures HunkStart(line, newLine) == newLine
  {
    var k := FirstPlusPart(Split(line, ' '));
  }

  function Step(s: State, line: string): State {
    if "+++ " <= line then
      var p := TrimPrefix(TrimPrefix(line, "+++ "), "b/");
      s.(file := if p == "/dev/null" then "" else p)
    else if "@@ " <= line then s.(newLine := HunkStart(line, s.newLine))
    else if s.file == "" then s
    else if "+" <= line && !("+++" <= line) then
      State(s.file, s.newLine + 1, s.keys + {Key(s.file, s.newLine)})
    else if "-" <= line && !("---" <= line) then s
    else if !("\\" <= line) && line != "" then s.(newLine := s.newLine + 1)
    else s
  }

  function Steps(s: State, lines: seq<string>): State
    decreases |lines|
  {
    if lines == [] then s else Steps(Step(s, lines[0]), lines[1..])
  }

  const START := State("", 0, {})

  /** The loop over the parts of a hunk header. */
  method ReadHunkStart(line: string, newLine: int) returns (n: int)
    ensures n == HunkStart(line, newLine)
  {
    var parts := Split(line, ' ');
    var j := 0;
    while j < |parts|
      invariant 0 <= j <= |parts|
      invariant PlusPart(parts[j..]) == PlusPart(parts)
    {
      var p := parts[j];
      assert parts[j..][1..] == parts[j+1..];
      if "+" <= p && !("+++" <= p) {
        var num := Atoi(Split(TrimPrefix(p, "+"), ',')[0]);
        return if num.Some? then num.value else newLine;
      }
      j := j + 1;
    }
    return newLine;
  }

  method ParseUnifiedDiffLines(diff: string) returns (keys: set<string>)
    ensures keys == Steps(START, Split(diff, '\n')).keys
  {
    keys := {};
    var file, newLine := "", 0;
    var lines := Split(diff, '\n');
    for i := 0 to |lines|
      invariant Steps(State(file, newLine, keys), lines[i..]) == Steps(START, lines)
    {
      var line := lines[i];
      ghost var s := State(file, newLine, keys);
      assert Steps(s, lines[i..]) == Steps(Step(s, line), lines[i+1..]) by {
        assert lines[i..][1..] == lines[i+1..];
      }
      if "+++ " <= line {
        var p := TrimPrefix(line, "+++ ");
        p := TrimPrefix(p, "b/");
        file := if p == "/dev/null" then "" else p;
      } else if "@@ " <= line {
        newLine := ReadHunkStart(line, newLine);
      } else if file == "" {
      } else if "+" <= line && !("+++" <= line) {
        keys := keys + {Key(file, newLine)};
        newLine := newLine + 1;
      } else if "-" <= line && !("---" <= line) {
      } else if !("\\" <= line) && line != "" {
        newLine := newLine + 1;
      }
      assert State(file, newLine, keys) == Step(s, line);
    }
    assert lines[|lines|..] == [];
  }

  // ---- printed diffs ----

  datatype Line = Added(text: string) | Deleted(text: string) | Context(text: string) | NoNewline(text: string)

  /** oldRange is "-a,b"; count is the optional ",d"; tail is what follows "@@". */
  datatype Hunk = Hunk(oldRange: string, start: nat, count: Option<nat>, tail: string, body: seq<Line>)

  /** A diff as a stream: header and other stray lines, the "+++" line of a file
      (None for a deleted file), and hunks. */
  datatype Section = Stray(line: string) | NewFile(name: Option<string>) | Change(hunk: Hunk)

  function PrintLine(l: Line): string {
    match l
    case Added(t) => ['+'] + t
    case Deleted(t) => ['-'] + t
    case Context(t) => [' '] + t
    case NoNewline(t) => ['\\'] + t
  }

  function PrintLines(body: seq<Line>): seq<string> {
    if body == [] then [] else [PrintLine(body[0])] + PrintLines(body[1..])
  }

  function PlusRange(h: Hunk): string {
    ['+'] + (Itoa(h.start) + (if h.count.Some? then [','] + Itoa(h.count.value) else ""))
  }

  function PrintHeader(h: Hunk): string {
    "@@" + ([' '] + (h.oldRange + ([' '] + (PlusRange(h) + ([' '] + ("@@" + h.tail))))))
  }

  function PrintSection(x: Section): seq<string> {
    match x
    case Stray(line) => [line]
    case NewFile(name) => ["+++ " + (if name.Some? then "b/" + name.value else "/dev/null")]
    case Change(h) => [PrintHeader(h)] + PrintLines(h.body)
  }

  function PrintSections(xs: seq<Section>): seq<string> {
    if xs == [] then [] else PrintSection(xs[0]) + PrintSections(xs[1..])
  }

  /** The text of a diff: every line ended by a newline. */
  function PrintDiff(xs: seq<Section>): string {
    Join(PrintSections(xs) + [""], '\n')
  }

  /** Added text that makes its line look like a file header. */
  predicate Loses(l: Line) {
    l.Added? && "++" <= l.text
  }

  /** Deleted text that makes its line look like a file header. */
  predicate Shifts(l: Line) {
    l.Deleted? && "--" <= l.text
  }

  predicate LineOk(l: Line) {
    !Loses(l) && !Shifts(l)
  }

  predicate HasAdded(body: seq<Line>) {
    exists k :: 0 <= k < |body| && body[k].Added?
  }

  /** No added text starts with "++", and no deleted text that starts with "--" stands
      before an added line. */
  predicate CountsRight(body: seq<Line>) {
    && (forall k :: 0 <= k < |body| ==> !Loses(body[k]))
    && forall j, k :: 0 <= j < k < |body| && Shifts(body[j]) ==> !body[k].Added?
  }

  predicate HunkOk(h: Hunk) {
    && "-" <= h.oldRange && ' ' !in h.oldRange && '\n' !in h.oldRange && '\n' !in h.tail
    && h.start <= MAX_INT && CountsRight(h.body)
    && forall k :: 0 <= k < |h.body| ==> '\n' !in h.body[k].text
  }

  predicate SectionOk(x: Section) {
    match x
    case Stray(line) => '\n' !in line && !("+" <= line) && !("@@ " <= line)
    case NewFile(name) => name.Some? ==> name.value != "" && name.value != "/dev/null" && '\n' !in name.value
    case Change(h) => HunkOk(h)
  }

  predicate DiffOk(xs: seq<Section>) {
    forall k :: 0 <= k < |xs| ==> SectionOk(xs[k])
  }

  // ---- the lines a diff adds, read off its structure ----

  function AddedIn(file: string, start: int, body: seq<Line>): set<(string, int)>
    decreases |body|
  {
    if body == [] then {}
    else match body[0]
      case Added(_) => {(file, start)} + AddedIn(file, start + 1, body[1..])
      case Context(_) => AddedIn(file, start + 1, body[1..])
      case Deleted(_) => AddedIn(file, start, body[1..])
      case NoNewline(_) => AddedIn(file, start, body[1..])
  }

  function AddedBy(file: Option<string>, xs: seq<Section>): set<(string, int)>
    decreases |xs|
  {
    if xs == [] then {}
    else match xs[0]
      case Stray(_) => AddedBy(file, xs[1..])
      case NewFile(name) => AddedBy(name, xs[1..])
      case Change(h) => (if file.Some? then AddedIn(file.value, h.start, h.body) else {}) + AddedBy(file, xs[1..])
  }

  function Keys(pairs: set<(string, int)>): set<string> {
    set p | p in pairs :: Key(p.0, p.1)
  }

  // ---- proofs ----

  lemma {:induction false} StepsAppend(s: State, a: seq<string>, b: seq<string>)
    ensures Steps(s, a + b) == Steps(Steps(s, a), b)
    decreases |a|
  {
    if a == [] {
      assert a + b == b;
    } else {
      assert (a + b)[1..] == a[1..] + b;
      StepsAppend(Step(s, a[0]), a[1..], b);
    }
  }

  lemma PrefixCons(p: string, t: string)
    requires p != []
    ensures p <= t <==> t != [] && t[0] == p[0] && p[1..] <= t[1..]
  {
  }

  /** A printed hunk line that passes LineOk is taken for what it is. */
  lemma LineShape(l: Line)
    requires LineOk(l)
    ensures !("+++" <= PrintLine(l)) && !("---" <= PrintLine(l)) && !("@@ " <= PrintLine(l))
    ensures "+" <= PrintLine(l) <==> l.Added?
    ensures "-" <= PrintLine(l) <==> l.Deleted?
    ensures "\\" <= PrintLine(l) <==> l.NoNewline?
    ensures PrintLine(l) != ""
  {
    PrefixCons("+++", PrintLine(l));
    PrefixCons("---", PrintLine(l));
    PrefixCons("@@ ", PrintLine(l));
    assert PrintLine(l)[1..] == l.text;
  }

  /** What one hunk line means for the reader. */
  function Meaning(s: State, l: Line): State {
    if s.file == "" then s
    else match l
      case Added(_) => State(s.file, s.newLine + 1, s.keys + {Key(s.file, s.newLine)})
      case Context(_) => s.(newLine := s.newLine + 1)
      case Deleted(_) => s
      case NoNewline(_) => s
  }

  lemma LineStep(s: State, l: Line)
    requires LineOk(l)
    ensures Step(s, PrintLine(l)) == Meaning(s, l)
  {
    LineShape(l);
    PrefixCons("+++ ", PrintLine(l));
    PrefixCons("+++", PrintLine(l));
  }

  lemma CountsTail(body: seq<Line>)
    requires body != []
    ensures CountsRight(body) <==>
              !Loses(body[0]) && (Shifts(body[0]) ==> !HasAdded(body[1..])) && CountsRight(body[1..])
    ensures HasAdded(body) <==> body[0].Added? || HasAdded(body[1..])
  {
    var rest := body[1..];
    assert forall k :: 0 <= k < |rest| ==> rest[k] == body[k+1];
    assert forall k :: 0 < k < |body| ==> body[k] == rest[k-1];
  }

  /** A line that is not added adds no key and stays in its file, whatever its text. */
  lemma NotAddedStep(s: State, l: Line)
    requires !l.Added?
    ensures Step(s, PrintLine(l)).keys == s.keys && Step(s, PrintLine(l)).file == s.file
  {
    PrefixCons("+++ ", PrintLine(l));
    PrefixCons("@@ ", PrintLine(l));
    PrefixCons("+", PrintLine(l));
  }

  lemma {:induction false} NoneAdded(s: State, body: seq<Line>)
    requires !HasAdded(body)
    ensures Steps(s, PrintLines(body)).file == s.file && Steps(s, PrintLines(body)).keys == s.keys
    ensures AddedIn(s.file, s.newLine, body) == {}
    ensures forall n :: AddedIn(s.file, n, body) == {}
    decreases |body|
  {
    if body != [] {
      CountsTail(body);
      NotAddedStep(s, body[0]);
      NoneAdded(Step(s, PrintLine(body[0])), body[1..]);
      assert PrintLines(body)[1..] == PrintLines(body[1..]);
    }
  }

  lemma {:induction false} BodySteps(s: State, body: seq<Line>)
    requires CountsRight(body)
    ensures Steps(s, PrintLines(body)).file == s.file
    ensures Steps(s, PrintLines(body)).keys
         == s.keys + (if s.file == "" then {} else Keys(AddedIn(s.file, s.newLine, body)))
    decreases |body|
  {
    if body != [] {
      CountsTail(body);
      assert PrintLines(body)[1..] == PrintLines(body[1..]);
      var s' := Step(s, PrintLine(body[0]));
      if Shifts(body[0]) {
        NotAddedStep(s, body[0]);
        NoneAdded(s', body[1..]);
      } else {
        LineStep(s, body[0]);
        BodySteps(s', body[1..]);
        if s.file != "" {
          KeysUnion({(s.file, s.newLine)}, AddedIn(s.file, s'.newLine, body[1..]));
          KeysOne(s.file, s.newLine);
        }
      }
    }
  }

  // ---- where a hunk is misread ----

  function CountAdded(body: seq<Line>, plain: bool): nat {
    if body == [] then 0
    else (if body[0].Added? && (plain ==> !Loses(body[0])) then 1 else 0) + CountAdded(body[1..], plain)
  }

  lemma {:induction false} FewerPlain(body: seq<Line>)
    ensures CountAdded(body, true) <= CountAdded(body, false)
    ensures (exists k :: 0 <= k < |body| && Loses(body[k])) ==> CountAdded(body, true) < CountAdded(body, false)
  {
    if body != [] {
      FewerPlain(body[1..]);
      if k :| 0 <= k < |body| && Loses(body[k]) {
        assert k > 0 ==> Loses(body[1..][k-1]);
      }
    }
  }

  /** A reader finds at most one key for each added line it does not take for a
      header. */
  lemma {:induction false} KeysFound(s: State, body: seq<Line>)
    ensures |Steps(s, PrintLines(body)).keys| <= |s.keys| + CountAdded(body, true)
    decreases |body|
  {
    if body != [] {
      var s' := Step(s, PrintLine(body[0]));
      OneKey(s, body[0]);
      KeysFound(s', body[1..]);
      assert PrintLines(body)[1..] == PrintLines(body[1..]);
    }
  }

  lemma OneKey(s: State, l: Line)
    ensures |Step(s, PrintLine(l)).keys| <= |s.keys| + if l.Added? && !Loses(l) then 1 else 0
  {
    if !l.Added? {
      NotAddedStep(s, l);
    } else if Loses(l) {
      LosesKey(s, l);
    } else {
      LineStep(s, l);
    }
  }

  /** An added line that looks like a header is not counted. */
  lemma LosesKey(s: State, l: Line)
    requires Loses(l)
    ensures Step(s, PrintLine(l)).keys == s.keys
  {
    PrefixCons("+++", PrintLine(l));
    PrefixCons("@@ ", PrintLine(l));
  }

  lemma {:induction false} KeysWanted(file: string, n: nat, body: seq<Line>)
    ensures |Keys(AddedIn(file, n, body))| == CountAdded(body, false)
    ensures forall p :: p in AddedIn(file, n, body) ==> p.0 == file && p.1 >= n
    decreases |body|
  {
    if body != [] {
      var rest := body[1..];
      KeysWanted(file, if body[0].Added? || body[0].Context? then n + 1 else n, rest);
      if body[0].Added? {
        var later := AddedIn(file, n + 1, rest);
        KeysUnion({(file, n)}, later);
        KeysOne(file, n);
        if Key(file, n) in Keys(later) {
          var p :| p in later && Key(p.0, p.1) == Key(file, n);
          KeyInjective(p.0, p.1, file, n);
        }
      }
    }
  }

  /** What a reader finds where no added line is lost: every deleted line that looks
      like a header moves the count. */
  function FoundIn(file: string, start: int, body: seq<Line>): set<(string, int)>
    decreases |body|
  {
    if body == [] then {}
    else if body[0].Added? then {(file, start)} + FoundIn(file, start + 1, body[1..])
    else FoundIn(file, if body[0].Context? || Shifts(body[0]) then start + 1 else start, body[1..])
  }

  lemma ShiftStep(s: State, l: Line)
    requires Shifts(l) && s.file != ""
    ensures Step(s, PrintLine(l)) == s.(newLine := s.newLine + 1)
  {
    PrefixCons("---", PrintLine(l));
    PrefixCons("-", PrintLine(l));
    NotAddedStep(s, l);
    PrefixCons("+++ ", PrintLine(l));
    PrefixCons("@@ ", PrintLine(l));
    PrefixCons("+", PrintLine(l));
    PrefixCons("\\", PrintLine(l));
  }

  lemma {:induction false} StepsFind(s: State, body: seq<Line>)
    requires s.file != "" && forall k :: 0 <= k < |body| ==> !Loses(body[k])
    ensures Steps(s, PrintLines(body)).keys == s.keys + Keys(FoundIn(s.file, s.newLine, body))
    decreases |body|
  {
    if body != [] {
      var s' := Step(s, PrintLine(body[0]));
      assert PrintLines(body)[1..] == PrintLines(body[1..]);
      if Shifts(body[0]) {
        ShiftStep(s, body[0]);
      } else {
        LineStep(s, body[0]);
      }
      StepsFind(s', body[1..]);
      KeysUnion({(s.file, s.newLine)}, FoundIn(s.file, s.newLine + 1, body[1..]));
      KeysOne(s.file, s.newLine);
    }
  }

  /** A reader that is ahead stays ahead at the last added line. */
  lemma {:induction false} StaysAhead(file: string, n: nat, m: nat, body: seq<Line>) returns (k: nat)
    requires n < m && HasAdded(body)
    ensures (file, k) in FoundIn(file, m, body) && k >= m
    ensures forall p :: p in AddedIn(file, n, body) ==> p.1 < k
    decreases |body|
  {
    var rest := body[1..];
    CountsTail(body);
    var n' := if body[0].Added? || body[0].Context? then n + 1 else n;
    var m' := if body[0].Added? || body[0].Context? || Shifts(body[0]) then m + 1 else m;
    if HasAdded(rest) {
      k := StaysAhead(file, n', m', rest);
    } else {
      NoneAdded(State(file, n', {}), rest);
      k := m;
    }
  }

  lemma {:induction false} GetsAhead(file: string, n: nat, body: seq<Line>) returns (k: nat)
    requires (forall i :: 0 <= i < |body| ==> !Loses(body[i])) && !CountsRight(body)
    ensures (file, k) in FoundIn(file, n, body) && k >= n
    ensures forall p :: p in AddedIn(file, n, body) ==> p.1 < k
    decreases |body|
  {
    var rest := body[1..];
    CountsTail(body);
    assert forall i :: 0 <= i < |rest| ==> rest[i] == body[i+1];
    if Shifts(body[0]) && HasAdded(rest) {
      k := StaysAhead(file, n, n + 1, rest);
    } else {
      k := GetsAhead(file, if body[0].Added? || body[0].Context? then n + 1 else n, rest);
    }
  }

  /** One hunk of a file is read right exactly if no added text in it starts with "++"
      and no deleted text that starts with "--" stands before an added line. */
  lemma HunkReadRight(s: State, body: seq<Line>)
    requires s.file != "" && s.keys == {} && s.newLine >= 0
    ensures Steps(s, PrintLines(body)).keys == Keys(AddedIn(s.file, s.newLine, body)) <==> CountsRight(body)
  {
    var found, wanted := Steps(s, PrintLines(body)).keys, AddedIn(s.file, s.newLine, body);
    if CountsRight(body) {
      BodySteps(s, body);
    } else if exists k :: 0 <= k < |body| && Loses(body[k]) {
      FewerPlain(body);
      KeysFound(s, body);
      KeysWanted(s.file, s.newLine, body);
    } else {
      StepsFind(s, body);
      KeysWanted(s.file, s.newLine, body);
      var k := GetsAhead(s.file, s.newLine, body);
      assert Key(s.file, k) in found;
      if Key(s.file, k) in Keys(wanted) {
        var p :| p in wanted && Key(p.0, p.1) == Key(s.file, k);
        KeyInjective(p.0, p.1, s.file, k);
      }
    }
  }

  lemma KeysUnion(a: set<(string, int)>, b: set<(string, int)>)
    ensures Keys(a + b) == Keys(a) + Keys(b)
  {
  }

  lemma KeysOne(file: string, line: int)
    ensures Keys({(file, line)}) == {Key(file, line)}
  {
    assert (file, line) in {(file, line)};
  }

  lemma PlusRangeStart(h: Hunk)
    requires HunkOk(h)
    ensures ' ' !in PlusRange(h) && "+" <= PlusRange(h) && !("+++" <= PlusRange(h))
    ensures Atoi(Split(TrimPrefix(PlusRange(h), "+"), ',')[0]) == Some(h.start)
  {
    var n := Itoa(h.start);
    ItoaRoundTrip(h.start);
    NotADigit(n, ' ');
    NotADigit(n, ',');
    PrefixCons("+++", PlusRange(h));
    assert TrimPrefix(PlusRange(h), "+") == PlusRange(h)[1..];
    assert PlusRange(h)[1] == n[0] && IsDigit(n[0]);
    if h.count.Some? {
      var m := Itoa(h.count.value);
      DigitsRoundTrip(h.count.value);
      NotADigit(m, ' ');
      SplitFirst(n, m, ',');
      assert PlusRange(h)[1..] == n + ([','] + m);
    } else {
      SplitNone(n, ',');
      assert PlusRange(h)[1..] == n;
    }
  }

  /** The header of a printed hunk is read back as its first new line. */
  lemma HeaderStart(h: Hunk, newLine: int)
    requires HunkOk(h)
    ensures "@@ " <= PrintHeader(h) && !("+++ " <= PrintHeader(h))
    ensures HunkStart(PrintHeader(h), newLine) == h.start
  {
    var plus, last := PlusRange(h), "@@" + h.tail;
    PlusRangeStart(h);
    var end := plus + ([' '] + last);
    SplitFirst(plus, last, ' ');
    SplitFirst(h.oldRange, end, ' ');
    SplitFirst("@@", h.oldRange + ([' '] + end), ' ');
    var rest := [plus] + Split(last, ' ');
    var parts := Split(PrintHeader(h), ' ');
    assert parts == ["@@"] + ([h.oldRange] + rest);
    assert parts[1..] == [h.oldRange] + rest && parts[1..][1..] == rest;
    assert PlusPart(rest) == Some(plus);
    PrefixCons("+", h.oldRange);
    PrefixCons("-", h.oldRange);
    assert PlusPart(parts[1..]) == Some(plus);
    PrefixCons("+++ ", PrintHeader(h));
    assert PrintHeader(h)[..3] == "@@ ";
  }

  /** The set after one section, from the current file on. */
  lemma SectionSteps(s: State, x: Section)
    requires SectionOk(x)
    ensures var r := Steps(s, PrintSection(x));
            && r.file == (if x.NewFile? then (if x.name.Some? then x.name.value else "") else s.file)
            && r.keys == s.keys + (
                 if x.Change? && s.file != "" then Keys(AddedIn(s.file, x.hunk.start, x.hunk.body)) else {})
  {
    var lines := PrintSection(x);
    match x
    case Stray(line) =>
      PrefixCons("+++ ", line);
      PrefixCons("+", line);
      assert lines[1..] == [];
    case NewFile(name) =>
      var p := if name.Some? then "b/" + name.value else "/dev/null";
      assert TrimPrefix(lines[0], "+++ ") == p;
      if name.Some? {
        assert TrimPrefix(p, "b/") == name.value;
      } else {
        PrefixCons("b/", p);
      }
      assert lines[1..] == [];
    case Change(h) =>
      HeaderStart(h, s.newLine);
      assert lines[1..] == PrintLines(h.body);
      BodySteps(s.(newLine := h.start), h.body);
  }

  lemma {:induction false} SectionsSteps(s: State, xs: seq<Section>)
    requires DiffOk(xs)
    ensures Steps(s, PrintSections(xs)).keys
         == s.keys + Keys(AddedBy(if s.file == "" then None else Some(s.file), xs))
    decreases |xs|
  {
    if xs != [] {
      SectionSteps(s, xs[0]);
      var s' := Steps(s, PrintSection(xs[0]));
      StepsAppend(s, PrintSection(xs[0]), PrintSections(xs[1..]));
      SectionsSteps(s', xs[1..]);
      if xs[0].Change? && s.file != "" {
        KeysUnion(AddedIn(s.file, xs[0].hunk.start, xs[0].hunk.body), AddedBy(Some(s.file), xs[1..]));
      }
    }
  }

  lemma {:induction false} NoNewlines(xs: seq<Section>)
    requires DiffOk(xs)
    ensures forall p :: p in PrintSections(xs) ==> '\n' !in p
  {
    if xs != [] {
      NoNewlines(xs[1..]);
      SectionNoNewlines(xs[0]);
    }
  }

  lemma SectionNoNewlines(x: Section)
    requires SectionOk(x)
    ensures forall p :: p in PrintSection(x) ==> '\n' !in p
  {
    if x.Change? {
      BodyNoNewlines(x.hunk.body);
      PlusRangeNoNewline(x.hunk);
    }
  }

  lemma PlusRangeNoNewline(h: Hunk)
    requires HunkOk(h)
    ensures '\n' !in PlusRange(h)
  {
    ItoaRoundTrip(h.start);
    NotADigit(Itoa(h.start), '\n');
    if h.count.Some? {
      DigitsRoundTrip(h.count.value);
      NotADigit(Itoa(h.count.value), '\n');
    }
  }

  lemma {:induction false} BodyNoNewlines(body: seq<Line>)
    requires forall k :: 0 <= k < |body| ==> '\n' !in body[k].text
    ensures forall p :: p in PrintLines(body) ==> '\n' !in p
  {
    if body != [] {
      BodyNoNewlines(body[1..]);
    }
  }

  /** The keys separate file and line. */
  lemma KeyInjective(p: string, m: nat, q: string, n: nat)
    requires Key(p, m) == Key(q, n)
    ensures p == q && m == n
  {
    DigitsRoundTrip(m);
    DigitsRoundTrip(n);
    NotADigit(Itoa(m), ':');
    NotADigit(Itoa(n), ':');
    LastColon(p, Itoa(m), q, Itoa(n));
  }

  lemma LastColon(a: string, b: string, a': string, b': string)
    requires a + ([':'] + b) == a' + ([':'] + b') && ':' !in b && ':' !in b'
    ensures a == a' && b == b'
  {
    var s := a + ([':'] + b);
    assert s[|a|] == ':' && s[|a'|] == ':';
    assert forall k :: |a| < k < |s| ==> s[k] == b[k - |a| - 1];
    assert forall k :: |a'| < k < |s| ==> s[k] == b'[k - |a'| - 1];
    assert a == s[..|a|] && a' == s[..|a'|];
    assert b == s[|a|+1..] && b' == s[|a'|+1..];
  }

  lemma {:induction false} LinesPositive(file: string, start: nat, body: seq<Line>)
    ensures forall p :: p in AddedIn(file, start, body) ==> p.1 >= 0
    decreases |body|
  {
    if body != [] {
      LinesPositive(file, if body[0].Added? || body[0].Context? then start + 1 else start, body[1..]);
    }
  }

  lemma {:induction false} AllLinesPositive(file: Option<string>, xs: seq<Section>)
    ensures forall p :: p in AddedBy(file, xs) ==> p.1 >= 0
    decreases |xs|
  {
    if xs != [] {
      AllLinesPositive(match xs[0] case NewFile(name) => name case _ => file, xs[1..]);
      if xs[0].Change? && file.Some? {
        LinesPositive(file.value, xs[0].hunk.start, xs[0].hunk.body);
      }
    }
  }

  /** Diff round trip: of a printed diff, over any number of files, deleted files,
      hunks and stray lines, the keys found are exactly those of its added lines. */
  lemma DiffRoundTrip(xs: seq<Section>, file: string, line: nat)
    requires DiffOk(xs)
    ensures Steps(START, Split(PrintDiff(xs), '\n')).keys == Keys(AddedBy(None, xs))
    ensures Key(file, line) in Steps(START, Split(PrintDiff(xs), '\n')).keys <==> (file, line) in AddedBy(None, xs)
  {
    var lines := PrintSections(xs);
    NoNewlines(xs);
    SplitJoin(lines + [""], '\n');
    StepsAppend(START, lines, [""]);
    assert [""][1..] == [];
    SectionsSteps(START, xs);
    assert START.keys + Keys(AddedBy(None, xs)) == Keys(AddedBy(None, xs));
    AllLinesPositive(None, xs);
    if Key(file, line) in Keys(AddedBy(None, xs)) {
      var p :| p in AddedBy(None, xs) && Key(p.0, p.1) == Key(file, line);
      KeyInjective(p.0, p.1, file, line);
    }
  }

  /** The smallest hunk that is misread for its added text: it is not counted. */
  lemma PlusPlusLost(s: State, t: string)
    requires "++" <= t && s.file != ""
    ensures Step(s, PrintLine(Added(t))).keys == s.keys
    ensures Keys(AddedIn(s.file, s.newLine, [Added(t)])) == {Key(s.file, s.newLine)}
  {
    PrefixCons("+++", PrintLine(Added(t)));
    PrefixCons("@@ ", PrintLine(Added(t)));
    KeysOne(s.file, s.newLine);
    assert AddedIn(s.file, s.newLine, [Added(t)]) == {(s.file, s.newLine)};
  }

  /** The smallest one for its deleted text: the deletion is counted as a line of the
      new file, and the next added line gets the wrong number. */
  lemma DashDashShifts(s: State, t: string, u: string)
    requires "--" <= t && s.file != "" && LineOk(Added(u)) && s.keys == {}
    ensures Steps(s, PrintLines([Deleted(t), Added(u)])).keys == {Key(s.file, s.newLine + 1)}
    ensures Keys(AddedIn(s.file, s.newLine, [Deleted(t), Added(u)])) == {Key(s.file, s.newLine)}
  {
    var line := PrintLine(Deleted(t));
    PrefixCons("---", line);
    PrefixCons("+++ ", line);
    PrefixCons("@@ ", line);
    var s' := s.(newLine := s.newLine + 1);
    assert Step(s, line) == s';
    LineStep(s', Added(u));
    assert [Deleted(t), Added(u)][1..] == [Added(u)];
    assert PrintLines([Added(u)]) == [PrintLine(Added(u))] + PrintLines([]);
    assert PrintLines([Deleted(t), Added(u)]) == [line] + PrintLines([Added(u)]);
    StepsAppend(s, [line], PrintLines([Added(u)]));
    assert [line][1..] == [];
    assert PrintLines([Added(u)])[1..] == [];
    KeysOne(s.file, s.newLine);
    assert AddedIn(s.file, s.newLine, [Added(u)]) == {(s.file, s.newLine)};
  }
}
