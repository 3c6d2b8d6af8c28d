/** internal/template/multifile.go and the "file" and "endfile" printers of
    internal/template/funcmap.go. */
module MultiFile {
  import opened Common
  import opened Text

  const FILE_START := "<<<MODOT_FILE:"
  const FILE_END := "<<<MODOT_ENDFILE>>>"
  const DEFAULT_MODE: nat := 0x1A4   // 0644

  datatype File = File(name: string, mode: nat, content: string)

  predicate IsOctal(s: string) {
    s != [] && forall k :: 0 <= k < |s| ==> '0' <= s[k] <= '7'
  }

  function OctalValue(s: string): nat
    requires forall k :: 0 <= k < |s| ==> '0' <= s[k] <= '7'
  {
    if s == [] then 0 else OctalValue(s[..|s|-1]) * 8 + (s[|s|-1] as int - '0' as int)
  }

  /** strconv.ParseUint(s, 8, 32), with 0644 for an empty or rejected mode. */
  function ModeOf(s: string): nat {
    if IsOctal(s) && OctalValue(s) < 0x1_0000_0000 then OctalValue(s) else DEFAULT_MODE
  }

  /** A number in octal digits, as a mode is written. */
  function Octal(n: nat): string {
    if n < 8 then [Digit(n)] else Octal(n / 8) + [Digit(n % 8)]
  }

  function Zeros(k: nat): string {
    seq(k, _ => '0')
  }

  /** A written mode is read as its number, however many zeros stand in front, if it fits
      32 bits, and as 0644 otherwise. */
  lemma ModeRead(zeros: nat, n: nat)
    ensures ModeOf(Zeros(zeros) + Octal(n)) == if n < 0x1_0000_0000 then n else 0x1A4
  {
    ZerosRead(zeros);
    OctalRead(Zeros(zeros), n);
  }

  lemma {:induction false} OctalRead(zeros: string, n: nat)
    requires (forall k :: 0 <= k < |zeros| ==> zeros[k] == '0') && OctalValue(zeros) == 0
    ensures IsOctal(zeros + Octal(n)) && OctalValue(zeros + Octal(n)) == n
  {
    if n >= 8 {
      var q, r := n / 8, n % 8;
      OctalRead(zeros, q);
      NextDigit(zeros + Octal(q), r);
      assert Octal(n) == Octal(q) + [Digit(r)];
      assert zeros + Octal(n) == (zeros + Octal(q)) + [Digit(r)];
    } else {
      NextDigit(zeros, n);
    }
  }

  lemma NextDigit(s: string, d: nat)
    requires d < 8 && forall k :: 0 <= k < |s| ==> '0' <= s[k] <= '7'
    ensures IsOctal(s + [Digit(d)]) && OctalValue(s + [Digit(d)]) == OctalValue(s) * 8 + d
  {
    assert (s + [Digit(d)])[..|s|] == s;
  }

  lemma {:induction false} ZerosRead(k: nat)
    ensures OctalValue(Zeros(k)) == 0
  {
    if k > 0 {
      ZerosRead(k - 1);
      assert Zeros(k)[..k-1] == Zeros(k - 1);
    }
  }

  /** What is not all octal digits is read as 0644. */
  lemma ModeRejected(s: string)
    requires s == "" || exists k :: 0 <= k < |s| && !('0' <= s[k] <= '7')
    ensures ModeOf(s) == 0x1A4
  {
  }

  /** One part behind a start marker: name:mode>>> and the content up to the end
      marker, or to the end of the part. */
  function ParsePart(part: string): Option<File> {
    var c := Cut(part, ">>>");
    if c.None? then None
    else
      var h := Cut(c.value.0, ":");
      if h.None? then None
      else
        var rest := c.value.1;
        var end := Index(rest, FILE_END);
        Some(File(h.value.0, ModeOf(h.value.1), TrimSpace(if end.Some? then rest[..end.value] else rest)))
  }

  function ParseParts(parts: seq<string>): seq<File> {
    if parts == [] then []
    else
      var f := ParsePart(parts[0]);
      (if f.Some? then [f.value] else []) + ParseParts(parts[1..])
  }

  function Parse(content: string): seq<File> {
    var parts := SplitOn(content, FILE_START);
    ParseParts(parts[1..])
  }

  /** The body of the loop, up to the append. */
  method ReadPart(part: string) returns (f: Option<File>)
    ensures f == ParsePart(part)
  {
    var c := Cut(part, ">>>");
    if c.None? {
      return None;
    }
    var h := Cut(c.value.0, ":");
    if h.None? {
      return None;
    }
    var rest := c.value.1;
    var end := Index(rest, FILE_END);
    var endIdx := |rest|;
    if end.Some? {
      endIdx := end.value;
    }
    var mode := DEFAULT_MODE;
    if h.value.1 != "" && IsOctal(h.value.1) && OctalValue(h.value.1) < 0x1_0000_0000 {
      mode := OctalValue(h.value.1);
    }
    assert rest[..|rest|] == rest;
    return Some(File(h.value.0, mode, TrimSpace(rest[..endIdx])));
  }

  lemma NoStartNothing(content: string)
    requires Index(content, FILE_START).None?
    ensures Parse(content) == []
  {
  }

  method ParseMultiFile(content: string) returns (files: seq<File>, ok: bool)
    ensures files == Parse(content) && ok == (files != [])
  {
    files := [];
    if Index(content, FILE_START).None? {
      NoStartNothing(content);
      return [], false;
    }
    var parts := SplitOn(content, FILE_START);
    for i := 1 to |parts|
      invariant files + ParseParts(parts[i..]) == Parse(content)
    {
      assert parts[i..][1..] == parts[i+1..];
      var f := ReadPart(parts[i]);
      if f.Some? {
        files := files + [f.value];
      }
    }
    assert parts[|parts|..] == [];
    ok := |files| > 0;
  }

  // ---- what a template prints ----

  /** A file a template emits, and the text between its end marker and the next
      file. */
  datatype Emitted = Emitted(name: string, perm: string, content: string, gap: string)

  /** {{ file name perm }} */
  function PrintFile(name: string, perm: string): string {
    FILE_START + (name + (":" + (perm + ">>>\n")))
  }

  /** {{ endfile }} */
  function PrintEnd(): string {
    "\n" + (FILE_END + "\n")
  }

  function Body(f: Emitted): string {
    f.name + (":" + (f.perm + (">>>" + ("\n" + (f.content + ("\n" + (FILE_END + ("\n" + f.gap))))))))
  }

  function Print(files: seq<Emitted>): string {
    if files == [] then ""
    else PrintFile(files[0].name, files[0].perm) + files[0].content + PrintEnd() + files[0].gap + Print(files[1..])
  }

  predicate NoneOf(s: string, cs: set<char>) {
    forall k :: 0 <= k < |s| ==> s[k] !in cs
  }

  predicate EmittedOk(f: Emitted) {
    && NoneOf(f.name, {':', '<', '>'})
    && IsOctal(f.perm)
    && !Contains(f.content, FILE_START) && !Contains(f.content, FILE_END)
    && NoneOf(f.gap, {'<'})
  }

  predicate AllOk(files: seq<Emitted>) {
    forall k :: 0 <= k < |files| ==> EmittedOk(files[k])
  }

  function Meant(files: seq<Emitted>): seq<File> {
    if files == [] then []
    else [File(files[0].name, ModeOf(files[0].perm), TrimSpace(files[0].content))] + Meant(files[1..])
  }

  // ---- proofs ----

  /** A marker has no newline, so in text lines it occurs only inside one piece. */
  lemma NotAcross(before: string, c: string, after: string, marker: string, k: nat)
    requires '\n' !in marker && marker != [] && !Contains(c, marker)
    requires |before| <= k < |before| + |c|
    ensures !OccursAt(before + (c + ("\n" + after)), marker, k)
  {
    var s := before + (c + ("\n" + after));
    var j := k - |before|;
    OccursChars(s, marker, k);
    OccursChars(c, marker, j);
    assert s[|before| + |c|] == '\n';
    assert forall i :: k <= i < |before| + |c| ==> s[i] == c[i - |before|];
    if j + |marker| <= |c| {
      assert !OccursAt(c, marker, j);
    } else {
      assert s[k + (|c| - j)] == '\n' && marker[|c| - j] != '\n';
    }
  }

  lemma NotAtOther(s: string, marker: string, k: nat)
    requires marker != [] && k < |s| && s[k] != marker[0]
    ensures !OccursAt(s, marker, k)
  {
    OccursChars(s, marker, k);
    assert s[k+0] != marker[0];
  }

  /** The end marker, too, holds no start marker. */
  lemma NotInEnd(s: string, k: nat, j: nat)
    requires j < 3 && k >= j && k - j + |FILE_END| <= |s| && s[k-j..k-j+|FILE_END|] == FILE_END
    ensures !OccursAt(s, FILE_START, k)
  {
    OccursChars(s, FILE_START, k);
    OccursChars(s, FILE_END, k - j);
    var at := k - j;
    assert s[at+3] == FILE_END[3] == 'M' && s[at+9] == FILE_END[9] == 'E';
    var i := if j == 0 then 9 else 3 - j;
    assert FILE_START[1] == FILE_START[2] == '<' && FILE_START[9] == 'F';
    assert s[k+i] != FILE_START[i];
  }

  /** One position of a printed body, which is head, content, newline, end marker
      and gap. */
  lemma NoStartAt(head: string, content: string, gap: string, tail: string, k: nat)
    requires NoneOf(head, {'<'}) && !Contains(content, FILE_START) && NoneOf(gap, {'<'})
    requires k < |head| + |content| + 1 + |FILE_END| + |gap|
    ensures !OccursAt(head + (content + ("\n" + (FILE_END + gap + tail))), FILE_START, k)
  {
    var end := FILE_END + gap;
    var s := head + (content + ("\n" + (end + tail)));
    var at := |head| + |content| + 1;
    if k < |head| {
      assert s[k] == head[k];
      NotAtOther(s, FILE_START, k);
    } else if k < |head| + |content| {
      NotAcross(head, content, end + tail, FILE_START, k);
    } else if k < at {
      NotAtOther(s, FILE_START, k);
    } else if k < at + 3 {
      assert s[at..at+|FILE_END|] == FILE_END;
      NotInEnd(s, k, k - at);
    } else {
      assert s[k] == end[k - at];
      EndPlain(gap, k - at);
      NotAtOther(s, FILE_START, k);
    }
  }

  lemma EndPlain(gap: string, i: nat)
    requires NoneOf(gap, {'<'}) && 3 <= i < |FILE_END| + |gap|
    ensures (FILE_END + gap)[i] != '<'
  {
  }

  function Head(f: Emitted): string {
    f.name + (":" + (f.perm + (">>>" + "\n")))
  }

  lemma HeadPlain(f: Emitted)
    requires EmittedOk(f)
    ensures NoneOf(Head(f), {'<'})
  {
    var rest := f.perm + (">>>" + "\n");
    assert NoneOf(rest, {'<'});
    assert Head(f) == f.name + (":" + rest);
  }

  lemma BodyLaid(f: Emitted, tail: string)
    ensures Body(f) + tail == Head(f) + (f.content + ("\n" + (FILE_END + ("\n" + f.gap) + tail)))
    ensures |Body(f)| == |Head(f)| + |f.content| + 1 + |FILE_END| + |"\n" + f.gap|
  {
    assert Body(f) == Head(f) + (f.content + ("\n" + (FILE_END + ("\n" + f.gap))));
  }

  /** No start marker begins inside a printed body, whatever follows it. */
  lemma NoStartInBody(f: Emitted, tail: string)
    requires EmittedOk(f)
    ensures forall k :: 0 <= k < |Body(f)| ==> !OccursAt(Body(f) + tail, FILE_START, k)
  {
    HeadPlain(f);
    BodyLaid(f, tail);
    forall k | 0 <= k < |Body(f)| ensures !OccursAt(Body(f) + tail, FILE_START, k) {
      NoStartAt(Head(f), f.content, "\n" + f.gap, tail, k);
    }
  }

  lemma {:induction false} SplitBodies(files: seq<Emitted>, lead: string)
    requires AllOk(files) && NoneOf(lead, {'<'})
    ensures SplitOn(lead + Print(files), FILE_START)[0] == lead
    ensures SplitOn(lead + Print(files), FILE_START)[1..] == Bodies(files)
  {
    if files == [] {
      NoMarker(lead);
      assert lead + "" == lead;
    } else {
      SplitFirstBody(files, lead);
      BodiesSplit(files);
    }
  }

  function Bodies(files: seq<Emitted>): seq<string> {
    if files == [] then [] else [Body(files[0])] + Bodies(files[1..])
  }

  lemma NoMarker(s: string)
    requires NoneOf(s, {'<'})
    ensures SplitOn(s, FILE_START) == [s]
  {
    forall k | 0 <= k < |s| ensures !OccursAt(s, FILE_START, k) {
      NotAtOther(s, FILE_START, k);
    }
  }

  lemma PrintFirst(files: seq<Emitted>)
    requires files != []
    ensures Print(files) == FILE_START + (Body(files[0]) + Print(files[1..]))
  {
    var f := files[0];
    var head, end := f.name + (":" + (f.perm + ">>>\n")), "\n" + (FILE_END + "\n");
    assert Print(files) == (FILE_START + head) + f.content + end + f.gap + Print(files[1..]);
    Regroup(FILE_START, head, f.content, end, f.gap, Print(files[1..]));
    BodyRegrouped(f.name, f.perm, f.content, FILE_END, f.gap);
  }

  lemma Regroup(start: string, head: string, content: string, end: string, gap: string, rest: string)
    ensures (start + head) + content + end + gap + rest == start + ((head + content + end + gap) + rest)
  {
  }

  lemma BodyRegrouped(name: string, perm: string, content: string, end: string, gap: string)
    ensures name + (":" + (perm + ">>>\n")) + content + ("\n" + (end + "\n")) + gap
         == name + (":" + (perm + (">>>" + ("\n" + (content + ("\n" + (end + ("\n" + gap))))))))
  {
    assert ">>>" + "\n" == ">>>\n";
  }

  lemma SplitFirstBody(files: seq<Emitted>, lead: string)
    requires files != [] && AllOk(files) && NoneOf(lead, {'<'})
    ensures SplitOn(lead + Print(files), FILE_START) == [lead] + SplitOn(Body(files[0]) + Print(files[1..]), FILE_START)
  {
    PrintFirst(files);
    CutBehind(lead, FILE_START, Body(files[0]) + Print(files[1..]));
  }

  lemma SplitWhole(s: string, sep: string)
    requires sep != [] && forall k :: 0 <= k < |s| ==> !OccursAt(s, sep, k)
    ensures SplitOn(s, sep) == [s]
  {
  }

  lemma SplitBehind(a: string, sep: string, tail: string)
    requires sep != [] && forall k :: 0 <= k < |a| ==> !OccursAt(a + (sep + tail), sep, k)
    ensures SplitOn(a + (sep + tail), sep) == [a] + SplitOn(tail, sep)
  {
    var s := a + (sep + tail);
    assert s[|a|..|a|+|sep|] == sep;
    IndexIs(s, sep, |a|);
    assert s[..|a|] == a && s[|a|+|sep|..] == tail;
  }

  lemma {:induction false} BodiesSplit(files: seq<Emitted>)
    requires files != [] && AllOk(files)
    ensures SplitOn(Body(files[0]) + Print(files[1..]), FILE_START) == Bodies(files)
  {
    var body, rest := Body(files[0]), files[1..];
    NoStartInBody(files[0], Print(rest));
    if rest == [] {
      assert body + "" == body;
      SplitWhole(body, FILE_START);
    } else {
      PrintFirst(rest);
      SplitBehind(body, FILE_START, Body(rest[0]) + Print(rest[1..]));
      BodiesSplit(rest);
    }
  }

  /** The part of a name, a mode and a text with one end marker in it. */
  lemma ParseLaid(name: string, perm: string, text: string, after: string)
    requires NoneOf(name, {':', '<', '>'}) && IsOctal(perm)
    requires forall k :: 0 <= k < |text| ==> !OccursAt(text + (FILE_END + after), FILE_END, k)
    ensures ParsePart(name + (":" + perm) + (">>>" + (text + (FILE_END + after)))) ==
            Some(File(name, ModeOf(perm), TrimSpace(text)))
  {
    var header, rest := name + (":" + perm), text + (FILE_END + after);
    CutBehind(header, ">>>", rest);
    CutBehind(name, ":", perm);
    assert rest[|text|..|text|+|FILE_END|] == FILE_END;
    IndexIs(rest, FILE_END, |text|);
    assert rest[..|text|] == text;
  }

  lemma NoEndAt(content: string, after: string, k: nat)
    requires !Contains(content, FILE_END) && k < |content| + 2
    ensures !OccursAt("\n" + (content + ("\n" + (FILE_END + after))), FILE_END, k)
  {
    var s := "\n" + (content + ("\n" + (FILE_END + after)));
    if k == 0 || k == |content| + 1 {
      NotAtOther(s, FILE_END, k);
    } else {
      NotAcross("\n", content, FILE_END + after, FILE_END, k);
    }
  }

  /** One printed body parses to the file it was printed for. */
  lemma ParseBody(f: Emitted)
    requires EmittedOk(f)
    ensures ParsePart(Body(f)) == Some(File(f.name, ModeOf(f.perm), TrimSpace(f.content)))
  {
    var text, after := ['\n'] + f.content + ['\n'], "\n" + f.gap;
    BodyText(f, text, after);
    forall k | 0 <= k < |text| ensures !OccursAt(text + (FILE_END + after), FILE_END, k) {
      NoEndAt(f.content, after, k);
    }
    ParseLaid(f.name, f.perm, text, after);
    TrimPadded(f.content, '\n', '\n');
  }

  lemma BodyText(f: Emitted, text: string, after: string)
    requires text == ['\n'] + f.content + ['\n'] && after == "\n" + f.gap
    ensures text + (FILE_END + after) == "\n" + (f.content + ("\n" + (FILE_END + after)))
    ensures Body(f) == f.name + (":" + f.perm) + (">>>" + (text + (FILE_END + after)))
  {
    var rest := "\n" + (f.content + ("\n" + (FILE_END + after)));
    assert text + (FILE_END + after) == rest;
    assert Body(f) == f.name + (":" + (f.perm + (">>>" + rest)));
  }

  lemma {:induction false} ParseBodies(files: seq<Emitted>)
    requires AllOk(files)
    ensures ParseParts(Bodies(files)) == Meant(files)
  {
    if files != [] {
      ParseBody(files[0]);
      ParseBodies(files[1..]);
      assert Bodies(files)[1..] == Bodies(files[1..]);
    }
  }

  /** Multi-file round trip: what a template emits with file and endfile parses to
      the same names, modes and trimmed contents in the same order, with any text
      without "<" before, between and after the files. */
  lemma MultiFileRoundTrip(files: seq<Emitted>, lead: string)
    requires AllOk(files) && NoneOf(lead, {'<'})
    ensures Parse(lead + Print(files)) == Meant(files)
  {
    SplitBodies(files, lead);
    ParseBodies(files);
  }
}
