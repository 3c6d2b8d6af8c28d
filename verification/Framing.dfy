/** internal/lsp/jsonrpc.go: Content-Length framing. A stream is a string of bytes. */
module Framing {
  import opened Common
  import opened Text

  /** A message: its protocol version and everything else. */
  datatype Message = Message(jsonrpc: string, content: string)

  datatype Result = Body(body: string) | Ended | BadLength | MissingLength

  /** What a read gives, and what it leaves unread. */
  datatype Read = Read(result: Result, rest: string)

  const NAME := "Content-Length:"

  function LowerChar(c: char): char {
    if 'A' <= c <= 'Z' then (c as int + 32) as char else c
  }

  function Lower(s: string): string {
    if s == [] then [] else [LowerChar(s[0])] + Lower(s[1..])
  }

  predicate IsLineEnd(c: char) { c == '\r' || c == '\n' }

  /** strings.TrimRight(line, "\r\n"). */
  function TrimLineEnd(line: string): string {
    if line != [] && IsLineEnd(line[|line|-1]) then TrimLineEnd(line[..|line|-1]) else line
  }

  /** Where the first line ends, behind its newline. */
  function LineLength(s: string): (n: Option<nat>)
    ensures n.Some? ==> 0 < n.value <= |s|
  {
    if s == [] then None
    else if s[0] == '\n' then Some(1)
    else
      var n := LineLength(s[1..]);
      if n.None? then None else Some(n.value + 1)
  }

  lemma {:induction false} LowerLength(s: string)
    ensures |Lower(s)| == |s|
  {
    if s != [] {
      LowerLength(s[1..]);
    }
  }

  /** The same character, or the same letter in the other case. */
  predicate SameLetter(a: char, b: char) {
    || a == b
    || ('A' <= a <= 'Z' && b as int == a as int - 'A' as int + 'a' as int)
    || ('A' <= b <= 'Z' && a as int == b as int - 'A' as int + 'a' as int)
  }

  /** Folding makes two texts equal exactly if they differ in the case of letters alone. */
  lemma {:induction false} LowerEqual(a: string, b: string)
    ensures Lower(a) == Lower(b) <==> |a| == |b| && forall k :: 0 <= k < |a| ==> SameLetter(a[k], b[k])
  {
    LowerLength(a);
    LowerLength(b);
    if a != [] && b != [] {
      LowerEqual(a[1..], b[1..]);
      LetterEqual(a[0], b[0]);
      assert Lower(a)[1..] == Lower(a[1..]) && Lower(b)[1..] == Lower(b[1..]);
      assert Lower(a)[0] == LowerChar(a[0]) && Lower(b)[0] == LowerChar(b[0]);
      assert forall k :: 0 < k < |a| && |a| == |b| ==> a[k] == a[1..][k-1] && b[k] == b[1..][k-1];
    }
  }

  lemma LetterEqual(a: char, b: char)
    ensures LowerChar(a) == LowerChar(b) <==> SameLetter(a, b)
  {
  }

  datatype Field = Other | Length(n: int) | Bad

  type FieldParser = string -> Field

  /** A header line against the name of the length header, in any letter case. */
  function FieldNamed(line: string, name: string): Field {
    if !(Lower(name) <= Lower(line)) then Other
    else
      LowerLength(line);
      LowerLength(name);
      var n := Atoi(TrimSpace(line[|name|..]));
      if n.None? then Bad else Length(n.value)
  }

  function FieldOf(line: string): Field {
    FieldNamed(line, NAME)
  }

  /** Reading on with the length seen so far. */
  function ReadFrom(s: string, length: int, field: FieldParser): Read
    decreases |s|
  {
    var n := LineLength(s);
    if n.None? then Read(Ended, "")
    else
      var line, rest := TrimLineEnd(s[..n.value]), s[n.value..];
      if line == "" then ReadBody(rest, length)
      else
        match field(line)
        case Other => ReadFrom(rest, length, field)
        case Length(n) => ReadFrom(rest, n, field)
        case Bad => Read(BadLength, rest)
  }

  function ReadBody(s: string, length: int): Read {
    if length < 0 then Read(MissingLength, s)
    else if |s| < length then Read(Ended, "")
    else Read(Body(s[..length]), s[length..])
  }

  // ---- reading one frame ----

  /** A header other than the length. */
  predicate OtherHeader(h: string, field: FieldParser) {
    h != [] && '\n' !in h && h[|h|-1] != '\r' && field(h) == Other
  }

  function Headers(hs: seq<string>): string {
    if hs == [] then [] else hs[0] + ("\r\n" + Headers(hs[1..]))
  }

  /** A frame with the given length line and any other headers around it. */
  function FrameWith(before: seq<string>, line: string, after: seq<string>, body: string): string {
    Headers(before) + (line + ("\r\n" + (Headers(after) + ("\r\n" + body))))
  }

  /** What WriteMessage writes. */
  function Frame(body: string): string {
    FrameWith([], LengthHeader(|body|), [], body)
  }

  lemma FrameParts(body: string)
    ensures Frame(body) == LengthHeader(|body|) + ("\r\n" + "\r\n") + body
  {
    TwoParts([], LengthHeader(|body|), "\r\n", body);
  }

  lemma TwoParts(before: string, line: string, eol: string, body: string)
    ensures before == [] ==> before + (line + (eol + (before + (eol + body)))) == line + (eol + eol) + body
  {
  }

  function LengthHeader(n: nat): string {
    NAME + (" " + Itoa(n))
  }

  lemma {:induction false} LineAt(line: string, rest: string)
    requires '\n' !in line
    ensures LineLength(line + "\r\n" + rest) == Some(|line| + 2)
  {
    var s := line + "\r\n" + rest;
    if line == [] {
      assert s[1..][0] == '\n';
    } else {
      assert s[1..] == line[1..] + "\r\n" + rest;
      LineAt(line[1..], rest);
    }
  }

  lemma LineTrimmed(line: string)
    requires line == [] || !IsLineEnd(line[|line|-1])
    ensures TrimLineEnd(line + "\r\n") == line
  {
    var s := line + "\r\n";
    assert s[|s|-1] == '\n';
    assert s[..|s|-1] == line + "\r";
    assert (line + "\r")[|line|] == '\r' && (line + "\r")[..|line|] == line;
    assert TrimLineEnd(s) == TrimLineEnd(line + "\r") == TrimLineEnd(line);
  }

  /** One line read. */
  lemma ReadLine(line: string, rest: string, length: int, field: FieldParser)
    requires '\n' !in line && (line == [] || line[|line|-1] != '\r')
    ensures ReadFrom(line + "\r\n" + rest, length, field) ==
            if line == "" then ReadBody(rest, length)
            else
              match field(line)
              case Other => ReadFrom(rest, length, field)
              case Length(n) => ReadFrom(rest, n, field)
              case Bad => Read(BadLength, rest)
  {
    var s := line + "\r\n" + rest;
    LineAt(line, rest);
    assert line != [] ==> line[|line|-1] in line;
    LineTrimmed(line);
    assert s[..|line|+2] == line + "\r\n" && s[|line|+2..] == rest;
  }

  lemma AddBehind(h: string, eol: string, more: string, rest: string)
    ensures h + (eol + more) + rest == h + eol + (more + rest)
  {
  }

  lemma {:induction false} ReadHeaders(hs: seq<string>, rest: string, length: int, field: FieldParser)
    requires forall h :: h in hs ==> OtherHeader(h, field)
    ensures ReadFrom(Headers(hs) + rest, length, field) == ReadFrom(rest, length, field)
  {
    if hs == [] {
      assert Headers(hs) + rest == rest;
    } else {
      assert hs[0] in hs && forall h :: h in hs[1..] ==> h in hs;
      AddBehind(hs[0], "\r\n", Headers(hs[1..]), rest);
      ReadLine(hs[0], Headers(hs[1..]) + rest, length, field);
      ReadHeaders(hs[1..], rest, length, field);
    }
  }

  lemma {:induction false} LowerAppend(a: string, b: string)
    ensures Lower(a + b) == Lower(a) + Lower(b)
  {
    if a == [] {
      assert a + b == b;
    } else {
      assert (a + b)[1..] == a[1..] + b;
      LowerAppend(a[1..], b);
    }
  }

  /** The length header in any letter case. */
  predicate LengthLine(line: string, n: nat, field: FieldParser) {
    '\n' !in line && line != [] && line[|line|-1] != '\r' && field(line) == Length(n)
  }

  lemma LengthLineNamed(name: string, header: string, n: nat)
    requires Lower(name) == Lower(header) && '\n' !in header && n <= MAX_INT
    ensures LengthLine(name + (" " + Itoa(n)), n, line => FieldNamed(line, header))
  {
    ItoaRoundTrip(n);
    NamedLine(name, header, Itoa(n), n);
  }

  lemma NamedLine(name: string, header: string, digits: string, n: nat)
    requires Lower(name) == Lower(header) && '\n' !in header
    requires digits != [] && AllDigits(digits) && Atoi(digits) == Some(n)
    ensures LengthLine(name + (" " + digits), n, line => FieldNamed(line, header))
  {
    Digits(digits);
    TrimSpaced(digits);
    NoNewline(name, header);
    LineEnds(name, " " + digits);
    NameMatches(name, header, " " + digits);
    FieldIs(name + (" " + digits), header, " " + digits, digits, n);
  }

  lemma FieldIs(line: string, header: string, value: string, digits: string, n: int)
    requires |header| <= |line| && Lower(header) <= Lower(line) && line[|header|..] == value
    requires TrimSpace(value) == digits && Atoi(digits) == Some(n)
    ensures FieldNamed(line, header) == Length(n)
  {
  }

  lemma LineEnds(name: string, value: string)
    requires '\n' !in name && '\n' !in value && value != "" && value[|value|-1] != '\r'
    ensures var line := name + value; '\n' !in line && line != [] && line[|line|-1] != '\r'
  {
  }

  lemma NameMatches(name: string, header: string, value: string)
    requires Lower(name) == Lower(header)
    ensures |name| == |header| && Lower(header) <= Lower(name + value) && (name + value)[|header|..] == value
  {
    LowerLength(name);
    LowerLength(header);
    LowerAppend(name, value);
  }

  lemma TrimSpaced(s: string)
    requires s != [] && Trimmed(s)
    ensures TrimSpace(" " + s) == s
  {
    assert (" " + s)[1..] == s;
    TrimTrimmed(s);
  }

  lemma Digits(s: string)
    requires AllDigits(s) && s != []
    ensures Trimmed(s) && '\n' !in s && '\r' !in s
  {
    NotADigit(s, '\n');
    NotADigit(s, '\r');
    assert IsDigit(s[0]) && IsDigit(s[|s|-1]);
  }

  lemma {:induction false} NoNewline(a: string, b: string)
    requires Lower(a) == Lower(b) && '\n' !in b
    ensures '\n' !in a
  {
    LowerLength(a);
    LowerLength(b);
    if a != [] {
      assert b[0] in b && Lower(a)[0] == LowerChar(a[0]) && Lower(b)[0] == LowerChar(b[0]);
      assert Lower(a)[1..] == Lower(a[1..]) && Lower(b)[1..] == Lower(b[1..]);
      assert forall c :: c in b[1..] ==> c in b;
      NoNewline(a[1..], b[1..]);
      assert a == [a[0]] + a[1..];
    }
  }

  lemma ReadsBody(body: string, rest: string)
    ensures ReadBody(body + rest, |body|) == Read(Body(body), rest)
  {
    assert (body + rest)[..|body|] == body && (body + rest)[|body|..] == rest;
  }

  lemma Regroup(before: string, line: string, after: string, eol: string, body: string, rest: string)
    ensures before + (line + (eol + (after + (eol + body)))) + rest
              == before + (line + eol + (after + (eol + body + rest)))
    ensures eol + body + rest == "" + eol + (body + rest)
  {
  }

  /** Reading a frame gives its body and stops right behind it. */
  lemma ReadsFrame(before: seq<string>, line: string, after: seq<string>, body: string, rest: string,
                   field: FieldParser)
    requires LengthLine(line, |body|, field)
    requires (forall h :: h in before ==> OtherHeader(h, field)) && (forall h :: h in after ==> OtherHeader(h, field))
    ensures ReadFrom(FrameWith(before, line, after, body) + rest, -1, field) == Read(Body(body), rest)
  {
    var tail := "\r\n" + body + rest;
    Regroup(Headers(before), line, Headers(after), "\r\n", body, rest);
    ReadHeaders(before, line + "\r\n" + (Headers(after) + tail), -1, field);
    ReadLine(line, Headers(after) + tail, -1, field);
    ReadHeaders(after, tail, |body|, field);
    ReadLine("", body + rest, |body|, field);
    ReadsBody(body, rest);
  }

  /** So it does for the length header in any letter case and any other headers
      around it. */
  lemma ReadsAnyFrame(before: seq<string>, name: string, after: seq<string>, body: string)
    requires Lower(name) == Lower(NAME) && |body| <= MAX_INT
    requires (forall h :: h in before ==> OtherHeader(h, FieldOf))
               && (forall h :: h in after ==> OtherHeader(h, FieldOf))
    ensures IsFrame(Framed(FrameWith(before, name + (" " + Itoa(|body|)), after, body), body), FieldOf)
  {
    NameIsPlain();
    LengthLineNamed(name, NAME, |body|);
    forall rest ensures ReadFrom(FrameWith(before, name + (" " + Itoa(|body|)), after, body) + rest, -1, FieldOf)
                        == Read(Body(body), rest) {
      ReadsFrame(before, name + (" " + Itoa(|body|)), after, body, rest, FieldOf);
    }
  }

  lemma NameIsPlain()
    ensures '\n' !in NAME
  {
  }

  // ---- reading a stream ----

  /** Up to n messages, as far as reads succeed. */
  function ReadMany(s: string, n: nat, field: FieldParser): (seq<string>, string)
    decreases n
  {
    if n == 0 then ([], s)
    else
      var r := ReadFrom(s, -1, field);
      if !r.result.Body? then ([], r.rest)
      else
        var more := ReadMany(r.rest, n - 1, field);
        ([r.result.body] + more.0, more.1)
  }

  /** A body and the characters it is sent as. */
  datatype Framed = Framed(frame: string, body: string)

  function Stream(sent: seq<Framed>): string {
    if sent == [] then [] else sent[0].frame + Stream(sent[1..])
  }

  function Bodies(sent: seq<Framed>): seq<string> {
    if sent == [] then [] else [sent[0].body] + Bodies(sent[1..])
  }

  /** Whatever follows the frame, a read gives the body and leaves what follows. */
  ghost predicate IsFrame(f: Framed, field: FieldParser) {
    forall rest :: ReadFrom(f.frame + rest, -1, field) == Read(Body(f.body), rest)
  }

  ghost predicate AllFrames(sent: seq<Framed>, field: FieldParser) {
    forall i :: 0 <= i < |sent| ==> IsFrame(sent[i], field)
  }

  lemma {:induction false} ReadsFrames(sent: seq<Framed>, rest: string, field: FieldParser)
    requires AllFrames(sent, field)
    ensures ReadMany(Stream(sent) + rest, |sent|, field) == (Bodies(sent), rest)
  {
    if sent == [] {
      assert Stream(sent) + rest == rest;
    } else {
      var more := Stream(sent[1..]) + rest;
      assert IsFrame(sent[0], field);
      assert Stream(sent) + rest == sent[0].frame + more;
      ReadsFrames(sent[1..], rest, field);
    }
  }

  /** The frames WriteMessage makes of these bodies. */
  function Written(bodies: seq<string>): seq<Framed> {
    seq(|bodies|, i requires 0 <= i < |bodies| => Framed(Frame(bodies[i]), bodies[i]))
  }

  lemma WrittenFrame(body: string)
    requires |body| <= MAX_INT
    ensures IsFrame(Framed(Frame(body), body), FieldOf)
  {
    NameIsPlain();
    LengthLineNamed(NAME, NAME, |body|);
    forall rest ensures ReadFrom(Frame(body) + rest, -1, FieldOf) == Read(Body(body), rest) {
      ReadsFrame([], LengthHeader(|body|), [], body, rest, FieldOf);
    }
  }

  lemma {:induction false} WrittenBodies(bodies: seq<string>)
    ensures Bodies(Written(bodies)) == bodies
  {
    if bodies != [] {
      assert Written(bodies)[1..] == Written(bodies[1..]);
      WrittenBodies(bodies[1..]);
    }
  }

  lemma NothingToRead(field: FieldParser)
    ensures ReadFrom("", -1, field) == Read(Ended, "")
  {
  }

  /** Reading what any sequence of writes left in the stream gives the same bodies in
      the same order and stops exactly behind them; one more read finds the end. */
  lemma ReadsWhatWasWritten(bodies: seq<string>, rest: string)
    requires forall i :: 0 <= i < |bodies| ==> |bodies[i]| <= MAX_INT
    ensures ReadMany(Stream(Written(bodies)) + rest, |bodies|, FieldOf) == (bodies, rest)
    ensures ReadMany(Stream(Written(bodies)), |bodies|, FieldOf) == (bodies, "")
              && ReadFrom("", -1, FieldOf).result == Ended
  {
    var sent := Written(bodies);
    forall i | 0 <= i < |sent| ensures IsFrame(sent[i], FieldOf) {
      WrittenFrame(bodies[i]);
    }
    WrittenBodies(bodies);
    ReadsFrames(sent, rest, FieldOf);
    ReadsFrames(sent, "", FieldOf);
    assert Stream(sent) + "" == Stream(sent);
    NothingToRead(FieldOf);
  }

  // ---- a stream that is cut off ----

  lemma {:induction false} LineStable(s: string, more: string)
    requires LineLength(s).Some?
    ensures LineLength(s + more) == LineLength(s)
  {
    assert (s + more)[1..] == s[1..] + more;
    if s[0] != '\n' {
      LineStable(s[1..], more);
    }
  }

  /** What has been decided on part of the stream does not change when more
      arrives. */
  lemma {:induction false} ReadStable(s: string, more: string, length: int, field: FieldParser)
    ensures var r := ReadFrom(s, length, field);
            if r.result == Ended then r.rest == ""
            else ReadFrom(s + more, length, field) == Read(r.result, r.rest + more)
    decreases |s|
  {
    if LineLength(s).Some? {
      var n := LineLength(s).value;
      LineStable(s, more);
      assert (s + more)[..n] == s[..n] && (s + more)[n..] == s[n..] + more;
      var line, rest := TrimLineEnd(s[..n]), s[n..];
      if line == "" {
        BodyStable(rest, more, length);
      } else {
        match field(line)
        case Other => ReadStable(rest, more, length, field);
        case Length(n) => ReadStable(rest, more, n, field);
        case Bad =>
      }
    }
  }

  lemma BodyStable(s: string, more: string, length: int)
    ensures var r := ReadBody(s, length);
            if r.result == Ended then r.rest == "" else ReadBody(s + more, length) == Read(r.result, r.rest + more)
  {
    if 0 <= length <= |s| {
      assert (s + more)[..length] == s[..length] && (s + more)[length..] == s[length..] + more;
    }
  }

  /** A frame that is cut off anywhere gives the end of input, never a message. */
  lemma CutFrameEnds(f: Framed, part: string, missing: string, field: FieldParser)
    requires IsFrame(f, field) && part + missing == f.frame && missing != ""
    ensures ReadFrom(part, -1, field) == Read(Ended, "")
  {
    assert ReadFrom(f.frame + "", -1, field) == Read(Body(f.body), "");
    assert f.frame + "" == f.frame;
    ReadStable(part, missing, -1, field);
    assert |ReadFrom(part, -1, field).rest + missing| != 0;
  }

  /** The number of frames that are complete in the first n characters. */
  function Complete(sent: seq<Framed>, n: nat): (k: nat)
    ensures k <= |sent|
  {
    if sent == [] || |sent[0].frame| > n then 0
    else Complete(sent[1..], n - |sent[0].frame|) + 1
  }

  /** Reading n times gives the first k bodies and then the end. */
  predicate GivesFirst(part: string, n: nat, sent: seq<Framed>, k: nat, field: FieldParser) {
    k <= |sent| && ReadMany(part, n, field) == (Bodies(sent[..k]), "")
  }

  /** A stream cut off anywhere gives exactly the messages complete in it, then the
      end, however many reads are tried. */
  lemma {:induction false} CutStream(sent: seq<Framed>, part: string, n: nat, field: FieldParser)
    requires AllFrames(sent, field) && part <= Stream(sent) && n > Complete(sent, |part|)
    ensures GivesFirst(part, n, sent, Complete(sent, |part|), field)
  {
    if sent == [] {
      NothingToRead(field);
    } else {
      var f, rest := sent[0], sent[1..];
      assert IsFrame(f, field);
      var part' := CutOne(f, Stream(rest), part, field);
      if |f.frame| <= |part| {
        CutStream(rest, part', n - 1, field);
        ReadFirst(f, rest, part, part', n, Complete(rest, |part'|), field);
        assert [f] + rest == sent;
      }
    }
  }

  /** Reading the first frame, if all of it is there. */
  lemma CutOne(f: Framed, rest: string, part: string, field: FieldParser) returns (part': string)
    requires IsFrame(f, field) && part <= f.frame + rest
    ensures if |f.frame| <= |part| then
              ReadFrom(part, -1, field) == Read(Body(f.body), part') && part' <= rest && |part'| == |part| - |f.frame|
            else ReadFrom(part, -1, field) == Read(Ended, "")
  {
    part' := "";
    if |f.frame| <= |part| {
      part' := part[|f.frame|..];
      CutBehind(f.frame, rest, part);
      assert ReadFrom(f.frame + part', -1, field) == Read(Body(f.body), part');
    } else {
      CutWithin(f.frame, rest, part);
      CutFrameEnds(f, part, f.frame[|part|..], field);
    }
  }

  lemma ReadFirst(f: Framed, rest: seq<Framed>, part: string, part': string, n: nat, k: nat, field: FieldParser)
    requires n > 0 && k <= |rest|
    requires ReadFrom(part, -1, field) == Read(Body(f.body), part') && GivesFirst(part', n - 1, rest, k, field)
    ensures GivesFirst(part, n, [f] + rest, k + 1, field)
  {
    assert ([f] + rest)[..k+1] == [f] + rest[..k];
    assert ([f] + rest[..k])[1..] == rest[..k];
  }

  lemma CutBehind(f: string, rest: string, part: string)
    requires part <= f + rest && |f| <= |part|
    ensures part == f + part[|f|..] && part[|f|..] <= rest
  {
    assert part == (f + rest)[..|part|];
    assert (f + rest)[..|part|] == f + rest[..|part|-|f|];
  }

  lemma CutWithin(f: string, rest: string, part: string)
    requires part <= f + rest && |part| < |f|
    ensures part == f[..|part|]
  {
    assert part == (f + rest)[..|part|];
  }

  // ---- the connection ----

  class Conn {
    var input: string
    var output: string

    constructor(input: string)
      ensures this.input == input && output == ""
    {
      this.input, this.output := input, "";
    }

    /** encode stands for json.Marshal; room is how much the stream takes before a
        write to it fails. */
    method WriteMessage(m: Message, encode: Message -> Option<string>, room: nat) returns (ok: bool)
      modifies this`output
      ensures encode(WithVersion(m)).None? ==> !ok && output == old(output)
      ensures encode(WithVersion(m)).Some? ==>
                var frame := Frame(encode(WithVersion(m)).value);
                if room < |frame| then !ok && output == old(output) + frame[..room]
                else ok && output == old(output) + frame
    {
      var msg := m;
      if msg.jsonrpc == "" {
        msg := msg.(jsonrpc := "2.0");
      }
      var encoded := encode(msg);
      if encoded.None? {
        return false;
      }
      var body := encoded.value;
      var header := LengthHeader(|body|) + ("\r\n" + "\r\n");
      FrameParts(body);
      if room < |header| {
        output := output + header[..room];
        return false;
      }
      output := output + header;
      if room - |header| < |body| {
        CutParts(header, body, room);
        output := output + body[..room-|header|];
        return false;
      }
      output := output + body;
      return true;
    }

    /** ReadMessage up to the decoding of the body. */
    method ReadBytes() returns (r: Result)
      modifies this`input
      ensures Read(r, input) == ReadFrom(old(input), -1, FieldOf)
    {
      var contentLen := -1;
      while true
        invariant ReadFrom(input, contentLen, FieldOf) == ReadFrom(old(input), -1, FieldOf)
        decreases |input|
      {
        var n := LineLength(input);
        if n.None? {
          input := "";
          return Ended;
        }
        var line := TrimLineEnd(input[..n.value]);
        input := input[n.value..];
        if line == "" {
          break;
        }
        match FieldOf(line)
        case Other =>
        case Length(v) => contentLen := v;
        case Bad => return BadLength;
      }
      if contentLen < 0 {
        return MissingLength;
      }
      if |input| < contentLen {
        input := "";
        return Ended;
      }
      r := Body(input[..contentLen]);
      input := input[contentLen..];
    }

    method ReadMessage(decode: string -> Option<Message>) returns (m: Option<Message>, r: Result)
      modifies this`input
      ensures Read(r, input) == ReadFrom(old(input), -1, FieldOf)
      ensures m == if r.Body? then Versioned(decode(r.body)) else None
      ensures m.Some? <==> r.Body? && decode(r.body).Some?
      ensures m.Some? ==> m.value.jsonrpc != "" && m.value == WithVersion(decode(r.body).value)
    {
      r := ReadBytes();
      m := None;
      if r.Body? {
        m := decode(r.body);
        if m.Some? && m.value.jsonrpc == "" {
          m := Some(m.value.(jsonrpc := "2.0"));
        }
      }
    }
  }

  lemma CutParts(header: string, body: string, room: nat)
    requires |header| <= room <= |header| + |body|
    ensures (header + body)[..room] == header + body[..room-|header|]
  {
  }

  function WithVersion(m: Message): Message {
    if m.jsonrpc == "" then m.(jsonrpc := "2.0") else m
  }

  /** A message without a version gets "2.0", and nothing else changes. */
  lemma VersionDefault(m: Message)
    ensures WithVersion(m).jsonrpc == "2.0" <==> m.jsonrpc in {"", "2.0"}
    ensures m.jsonrpc != "" ==> WithVersion(m) == m
    ensures WithVersion(m).(jsonrpc := m.jsonrpc) == m
  {
  }

  function Versioned(m: Option<Message>): Option<Message> {
    if m.None? then None else Some(WithVersion(m.value))
  }
}
