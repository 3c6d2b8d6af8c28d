/** internal/checks/codec/eslint.go: finding the JSON value in a tool's output
    and escaping raw control characters inside its strings. Bytes are modelled
    as the characters of the same code. */
module EslintOutput {
  import opened Common

  // ---- extractFirstJSONValue ----

  /** The scanner's variables. */
  datatype Scan = Scan(depth: int, inString: bool, escaped: bool)

  function Closer(opener: char): char {
    if opener == '{' then '}' else ']'
  }

  function Next(s: Scan, c: char, opener: char): Scan {
    if s.inString then
      if s.escaped then s.(escaped := false)
      else if c == '\\' then s.(escaped := true)
      else if c == '"' then s.(inString := false)
      else s
    else if c == '"' then s.(inString := true)
    else if c == opener then s.(depth := s.depth + 1)
    else if c == Closer(opener) then s.(depth := s.depth - 1)
    else s
  }

  function Feed(s: Scan, t: string, opener: char): Scan
    decreases |t|
  {
    if t == [] then s else Feed(Next(s, t[0], opener), t[1..], opener)
  }

  /** How many characters of t the scanner reads until its depth is back at 0. */
  function CloseAfter(s: Scan, t: string, opener: char): Option<nat>
    decreases |t|
  {
    if t == [] then None
    else if Next(s, t[0], opener).depth == 0 then Some(1)
    else
      var r := CloseAfter(Next(s, t[0], opener), t[1..], opener);
      if r.None? then None else Some(1 + r.value)
  }

  predicate IsBracket(c: char) { c == '[' || c == '{' }

  /** The text from the first bracket of raw to where the scanner closes it. */
  function Extract(raw: string): Option<string> {
    if raw == [] then None
    else if !IsBracket(raw[0]) then Extract(raw[1..])
    else
      var n := CloseAfter(Scan(0, false, false), raw, raw[0]);
      if n.Some? && n.value <= |raw| then Some(raw[..n.value]) else None
  }

  lemma {:induction false} CloseAfterBound(s: Scan, t: string, opener: char)
    ensures CloseAfter(s, t, opener).Some? ==> 1 <= CloseAfter(s, t, opener).value <= |t|
    decreases |t|
  {
    if t != [] {
      CloseAfterBound(Next(s, t[0], opener), t[1..], opener);
    }
  }

  lemma {:induction false} ExtractSkips(prefix: string, rest: string)
    requires forall k :: 0 <= k < |prefix| ==> !IsBracket(prefix[k])
    ensures Extract(prefix + rest) == Extract(rest)
  {
    if prefix == [] {
      assert prefix + rest == rest;
    } else {
      assert (prefix + rest)[1..] == prefix[1..] + rest;
      ExtractSkips(prefix[1..], rest);
    }
  }

  /** The first loop. */
  method FirstBracket(raw: string) returns (start: int)
    ensures if start == -1 then Extract(raw) == None
            else 0 <= start < |raw| && IsBracket(raw[start]) && Extract(raw) == Extract(raw[start..])
  {
    for j := 0 to |raw|
      invariant Extract(raw) == Extract(raw[j..])
    {
      if raw[j] == '[' || raw[j] == '{' {
        return j;
      }
      assert raw[j..][1..] == raw[j+1..];
    }
    return -1;
  }

  method ExtractFirstJSONValue(raw: string) returns (value: string, ok: bool)
    ensures (if ok then Some(value) else None) == Extract(raw)
  {
    var start := FirstBracket(raw);
    if start == -1 {
      return [], false;
    }
    var opener := raw[start];
    var closer := if opener == '{' then '}' else ']';
    var depth, inString, escaped := 0, false, false;
    ghost var goal := CloseAfter(Scan(0, false, false), raw[start..], opener);
    CloseAfterBound(Scan(0, false, false), raw[start..], opener);
    var i := start;
    while i < |raw|
      invariant start <= i <= |raw|
      invariant i == start ==> depth == 0 && !inString && !escaped
      invariant i > start ==> depth >= 1
      invariant var r := CloseAfter(Scan(depth, inString, escaped), raw[i..], opener);
                goal == if r.Some? then Some(r.value + i - start) else None
    {
      ghost var s := Scan(depth, inString, escaped);
      var c := raw[i];
      assert raw[i..][1..] == raw[i+1..];
      if inString {
        if escaped {
          escaped := false;
        } else if c == '\\' {
          escaped := true;
        } else if c == '"' {
          inString := false;
        }
      } else if c == '"' {
        inString := true;
      } else if c == opener {
        depth := depth + 1;
      } else if c == closer {
        depth := depth - 1;
        if depth == 0 {
          assert raw[start..][..i+1-start] == raw[start..i+1];
          return raw[start..i+1], true;
        }
      }
      assert Next(s, c, opener) == Scan(depth, inString, escaped);
      i := i + 1;
    }
    return [], false;
  }

  // ---- printed JSON, sections 2 and 7 of RFC 8259 ----

  predicate IsWs(t: string) {
    forall k :: 0 <= k < |t| ==> t[k] in {' ', '\t', '\n', '\r'}
  }

  /** Numbers and the literals true, false, null. */
  predicate IsAtom(t: string) {
    forall k :: 0 <= k < |t| ==>
      '0' <= t[k] <= '9' || 'a' <= t[k] <= 'z' || 'A' <= t[k] <= 'Z' || t[k] in {'+', '-', '.'}
  }

  /** A character of a string: itself, or a backslash and the escaped one. */
  datatype StrChar = Plain(c: char) | Escaped(c: char)

  predicate StrCharOk(x: StrChar) {
    x.c >= ' ' && (x.Plain? ==> x.c != '"' && x.c != '\\')
  }

  datatype Json =
    | Atom(text: string)
    | Str(chars: seq<StrChar>)
    | Arr(items: Items)
    | Obj(members: Members)

  datatype Items = NoItems(pad: string) | Item(pre: string, v: Json, post: string, rest: Items)

  datatype Members =
    | NoMembers(pad: string)
    | Member(pre: string, key: seq<StrChar>, mid: string, mid': string, v: Json, post: string, rest: Members)

  predicate CharsOk(chars: seq<StrChar>) {
    forall k :: 0 <= k < |chars| ==> StrCharOk(chars[k])
  }

  predicate JsonOk(v: Json) {
    match v
    case Atom(text) => IsAtom(text)
    case Str(chars) => CharsOk(chars)
    case Arr(items) => ItemsOk(items)
    case Obj(members) => MembersOk(members)
  }

  predicate ItemsOk(items: Items) {
    match items
    case NoItems(pad) => IsWs(pad)
    case Item(pre, v, post, rest) => IsWs(pre) && JsonOk(v) && IsWs(post) && ItemsOk(rest)
  }

  predicate MembersOk(members: Members) {
    match members
    case NoMembers(pad) => IsWs(pad)
    case Member(pre, key, mid, mid', v, post, rest) =>
      IsWs(pre) && CharsOk(key) && IsWs(mid) && IsWs(mid') && JsonOk(v) && IsWs(post) && MembersOk(rest)
  }

  function PrintChars(chars: seq<StrChar>): string {
    if chars == [] then ""
    else (if chars[0].Plain? then [chars[0].c] else ['\\', chars[0].c]) + PrintChars(chars[1..])
  }

  function PrintStr(chars: seq<StrChar>): string {
    ['"'] + PrintChars(chars) + ['"']
  }

  function Print(v: Json): string {
    match v
    case Atom(text) => text
    case Str(chars) => PrintStr(chars)
    case Arr(items) => ['['] + PrintItems(items, true) + [']']
    case Obj(members) => ['{'] + PrintMembers(members, true) + ['}']
  }

  function PrintItems(items: Items, first: bool): string {
    match items
    case NoItems(pad) => pad
    case Item(pre, v, post, rest) =>
      (if first then "" else ",") + (pre + (Print(v) + (post + PrintItems(rest, false))))
  }

  function PrintMembers(members: Members, first: bool): string {
    match members
    case NoMembers(pad) => pad
    case Member(pre, key, mid, mid', v, post, rest) =>
      (if first then "" else ",")
        + (pre + (PrintStr(key) + (mid + ([':'] + (mid' + (Print(v) + (post + PrintMembers(rest, false))))))))
  }

  // ---- the scanner over printed JSON ----

  /** Reading t from s brings the scanner back to s without ever closing. */
  ghost predicate Balanced(s: Scan, t: string, opener: char) {
    Feed(s, t, opener) == s && StaysOpen(s, t, opener) && NoRaw(s, t, opener)
  }

  /** Inside strings there are no unescaped control characters. */
  predicate NoRaw(s: Scan, t: string, opener: char)
    decreases |t|
  {
    t == [] || (!(s.inString && !s.escaped && t[0] < ' ') && NoRaw(Next(s, t[0], opener), t[1..], opener))
  }

  predicate StaysOpen(s: Scan, t: string, opener: char)
    decreases |t|
  {
    t == [] || (Next(s, t[0], opener).depth >= 1 && StaysOpen(Next(s, t[0], opener), t[1..], opener))
  }

  lemma {:induction false} FeedAppend(s: Scan, a: string, b: string, opener: char)
    ensures Feed(s, a + b, opener) == Feed(Feed(s, a, opener), b, opener)
    ensures StaysOpen(s, a + b, opener) <==> StaysOpen(s, a, opener) && StaysOpen(Feed(s, a, opener), b, opener)
    ensures NoRaw(s, a + b, opener) <==> NoRaw(s, a, opener) && NoRaw(Feed(s, a, opener), b, opener)
    decreases |a|
  {
    if a == [] {
      assert a + b == b;
    } else {
      assert (a + b)[1..] == a[1..] + b;
      FeedAppend(Next(s, a[0], opener), a[1..], b, opener);
    }
  }

  lemma BalancedAppend(s: Scan, a: string, b: string, opener: char)
    requires Balanced(s, a, opener) && Balanced(s, b, opener)
    ensures Balanced(s, a + b, opener)
  {
    FeedAppend(s, a, b, opener);
  }

  /** Text without quotes and brackets does not move the scanner. */
  lemma {:induction false} CalmText(s: Scan, t: string, opener: char)
    requires IsBracket(opener) && !s.inString && s.depth >= 1
    requires forall k :: 0 <= k < |t| ==> t[k] !in {'"', '[', ']', '{', '}'}
    ensures Balanced(s, t, opener)
  {
    if t != [] {
      CalmText(s, t[1..], opener);
    }
  }

  lemma OneChar(s: Scan, x: StrChar, opener: char)
    requires s.inString && !s.escaped && s.depth >= 1 && StrCharOk(x)
    ensures Balanced(s, if x.Plain? then [x.c] else ['\\', x.c], opener)
  {
    if x.Escaped? {
      FeedAppend(s, ['\\'], [x.c], opener);
      assert ['\\', x.c] == ['\\'] + [x.c];
    }
  }

  lemma {:induction false} CharsBalanced(s: Scan, chars: seq<StrChar>, opener: char)
    requires s.inString && !s.escaped && s.depth >= 1 && CharsOk(chars)
    ensures Balanced(s, PrintChars(chars), opener)
  {
    if chars != [] {
      CharsBalanced(s, chars[1..], opener);
      var one := if chars[0].Plain? then [chars[0].c] else ['\\', chars[0].c];
      OneChar(s, chars[0], opener);
      BalancedAppend(s, one, PrintChars(chars[1..]), opener);
    }
  }

  lemma StrBalanced(s: Scan, chars: seq<StrChar>, opener: char)
    requires IsBracket(opener) && !s.inString && !s.escaped && s.depth >= 1 && CharsOk(chars)
    ensures Balanced(s, PrintStr(chars), opener)
  {
    var q := s.(inString := true);
    CharsBalanced(q, chars, opener);
    FeedAppend(q, PrintChars(chars), ['"'], opener);
    assert PrintStr(chars) == ['"'] + (PrintChars(chars) + ['"']);
    FeedAppend(s, ['"'], PrintChars(chars) + ['"'], opener);
  }

  /** A bracketed text whose inside is balanced one level down (or at the same
      level, for brackets of the other kind) is balanced. */
  lemma WrapBalanced(s: Scan, o: char, t: string, opener: char)
    requires IsBracket(opener) && IsBracket(o) && !s.inString && !s.escaped && s.depth >= 1
    requires Balanced(if o == opener then s.(depth := s.depth + 1) else s, t, opener)
    ensures Balanced(s, [o] + t + [Closer(o)], opener)
  {
    var q := if o == opener then s.(depth := s.depth + 1) else s;
    assert Next(s, o, opener) == q;
    assert Next(q, Closer(o), opener) == s;
    FeedAppend(q, t, [Closer(o)], opener);
    FeedAppend(s, [o], t + [Closer(o)], opener);
    assert [o] + t + [Closer(o)] == [o] + (t + [Closer(o)]);
  }

  lemma {:induction false} JsonBalanced(s: Scan, v: Json, opener: char)
    requires IsBracket(opener) && !s.inString && !s.escaped && s.depth >= 1 && JsonOk(v)
    ensures Balanced(s, Print(v), opener)
    decreases v, 1
  {
    match v
    case Atom(text) => CalmText(s, text, opener);
    case Str(chars) => StrBalanced(s, chars, opener);
    case Arr(items) =>
      ItemsBalanced(if '[' == opener then s.(depth := s.depth + 1) else s, items, true, opener);
      WrapBalanced(s, '[', PrintItems(items, true), opener);
    case Obj(members) =>
      MembersBalanced(if '{' == opener then s.(depth := s.depth + 1) else s, members, true, opener);
      WrapBalanced(s, '{', PrintMembers(members, true), opener);
  }

  lemma {:induction false} ItemsBalanced(s: Scan, items: Items, first: bool, opener: char)
    requires IsBracket(opener) && !s.inString && !s.escaped && s.depth >= 1 && ItemsOk(items)
    ensures Balanced(s, PrintItems(items, first), opener)
    decreases items, 0
  {
    match items
    case NoItems(pad) => CalmText(s, pad, opener);
    case Item(pre, v, post, rest) =>
      var t := PrintItems(rest, false);
      ItemsBalanced(s, rest, false, opener);
      CalmText(s, post, opener);
      BalancedAppend(s, post, t, opener);
      JsonBalanced(s, v, opener);
      BalancedAppend(s, Print(v), post + t, opener);
      CalmText(s, pre, opener);
      BalancedAppend(s, pre, Print(v) + (post + t), opener);
      var comma := if first then "" else ",";
      CalmText(s, comma, opener);
      BalancedAppend(s, comma, pre + (Print(v) + (post + t)), opener);
  }

  lemma {:induction false} MembersBalanced(s: Scan, members: Members, first: bool, opener: char)
    requires IsBracket(opener) && !s.inString && !s.escaped && s.depth >= 1 && MembersOk(members)
    ensures Balanced(s, PrintMembers(members, first), opener)
    decreases members, 0
  {
    match members
    case NoMembers(pad) => CalmText(s, pad, opener);
    case Member(pre, key, mid, mid', v, post, rest) =>
      var t := PrintMembers(rest, false);
      MembersBalanced(s, rest, false, opener);
      CalmText(s, post, opener);
      BalancedAppend(s, post, t, opener);
      JsonBalanced(s, v, opener);
      BalancedAppend(s, Print(v), post + t, opener);
      var value := Print(v) + (post + t);
      CalmText(s, mid', opener);
      BalancedAppend(s, mid', value, opener);
      CalmText(s, [':'], opener);
      BalancedAppend(s, [':'], mid' + value, opener);
      CalmText(s, mid, opener);
      BalancedAppend(s, mid, [':'] + (mid' + value), opener);
      StrBalanced(s, key, opener);
      BalancedAppend(s, PrintStr(key), mid + ([':'] + (mid' + value)), opener);
      CalmText(s, pre, opener);
      BalancedAppend(s, pre, PrintStr(key) + (mid + ([':'] + (mid' + value))), opener);
      var comma := if first then "" else ",";
      CalmText(s, comma, opener);
      BalancedAppend(s, comma, pre + (PrintStr(key) + (mid + ([':'] + (mid' + value)))), opener);
  }

  lemma {:induction false} CloseSkips(s: Scan, a: string, b: string, opener: char)
    requires StaysOpen(s, a, opener)
    ensures var r := CloseAfter(Feed(s, a, opener), b, opener);
            CloseAfter(s, a + b, opener) == if r.Some? then Some(|a| + r.value) else None
    decreases |a|
  {
    if a == [] {
      assert a + b == b;
    } else {
      assert (a + b)[1..] == a[1..] + b;
      CloseSkips(Next(s, a[0], opener), a[1..], b, opener);
    }
  }

  /** The scanner, started on a bracketed text, closes exactly at its end. */
  lemma ClosesAtEnd(o: char, inside: string, trailer: string)
    requires IsBracket(o) && Balanced(Scan(1, false, false), inside, o)
    ensures CloseAfter(Scan(0, false, false), [o] + inside + [Closer(o)] + trailer, o) == Some(|inside| + 2)
  {
    var s0, s1 := Scan(0, false, false), Scan(1, false, false);
    var tail := [Closer(o)] + trailer;
    CloseSkips(s0, [o], inside + tail, o);
    CloseSkips(s1, inside, tail, o);
    assert Next(s1, Closer(o), o).depth == 0;
    assert [o] + inside + [Closer(o)] + trailer == [o] + (inside + tail);
  }

  /** First-value extraction: after any text without brackets, and before any
      trailer, exactly the printed array or object is found, however deep it
      nests and whatever its strings hold. */
  lemma ExtractsPrinted(prefix: string, v: Json, trailer: string)
    requires forall k :: 0 <= k < |prefix| ==> !IsBracket(prefix[k])
    requires (v.Arr? || v.Obj?) && JsonOk(v)
    ensures Extract(prefix + Print(v) + trailer) == Some(Print(v))
  {
    if v.Arr? {
      ItemsBalanced(Scan(1, false, false), v.items, true, '[');
      ClosesAtEnd('[', PrintItems(v.items, true), trailer);
    } else {
      MembersBalanced(Scan(1, false, false), v.members, true, '{');
      ClosesAtEnd('{', PrintMembers(v.members, true), trailer);
    }
    assert prefix + Print(v) + trailer == prefix + (Print(v) + trailer);
    ExtractSkips(prefix, Print(v) + trailer);
    assert (Print(v) + trailer)[..|Print(v)|] == Print(v);
  }

  // ---- escapeInvalidStringControlChars ----

  /** Where the copy loop is: outside a string, inside one, after a backslash. */
  datatype Where = Outside | Inside | Escaping

  function Track(w: Where, c: char): Where {
    match w
    case Outside => if c == '"' then Inside else Outside
    case Inside => if c == '\\' then Escaping else if c == '"' then Outside else Inside
    case Escaping => Inside
  }

  function TrackAll(w: Where, t: string): Where
    decreases |t|
  {
    if t == [] then w else TrackAll(Track(w, t[0]), t[1..])
  }

  predicate IsRawControl(w: Where, c: char) {
    w == Inside && c < ' '
  }

  function Emit(w: Where, c: char): string {
    if !IsRawControl(w, c) then [c]
    else if c == '\n' then ['\\', 'n']
    else if c == '\r' then ['\\', 'r']
    else if c == '\t' then ['\\', 't']
    else [' ']
  }

  function Escape(w: Where, t: string): string
    decreases |t|
  {
    if t == [] then "" else Emit(w, t[0]) + Escape(Track(w, t[0]), t[1..])
  }

  function WhereOf(inString: bool, escaped: bool): Where {
    if escaped then Escaping else if inString then Inside else Outside
  }

  lemma EscapeStep(out: string, w: Where, raw: string, i: nat)
    requires i < |raw|
    ensures out + Escape(w, raw[i..]) == (out + Emit(w, raw[i])) + Escape(Track(w, raw[i]), raw[i+1..])
  {
    assert raw[i..][1..] == raw[i+1..];
  }

  method EscapeInvalidStringControlChars(raw: string) returns (out: string)
    ensures out == Escape(Outside, raw)
  {
    out := [];
    var inString, escaped := false, false;
    var i := 0;
    while i < |raw|
      invariant 0 <= i <= |raw|
      invariant escaped ==> inString
      invariant out + Escape(WhereOf(inString, escaped), raw[i..]) == Escape(Outside, raw)
    {
      var c := raw[i];
      ghost var w, was := WhereOf(inString, escaped), out;
      EscapeStep(out, w, raw, i);
      if inString {
        if escaped {
          out := out + [c];
          escaped := false;
        } else if c == '\\' {
          out := out + [c];
          escaped := true;
        } else if c == '"' {
          out := out + [c];
          inString := false;
        } else if c == '\n' {
          out := out + ['\\', 'n'];
        } else if c == '\r' {
          out := out + ['\\', 'r'];
        } else if c == '\t' {
          out := out + ['\\', 't'];
        } else if c < ' ' {
          out := out + [' '];
        } else {
          out := out + [c];
        }
      } else {
        out := out + [c];
        if c == '"' {
          inString := true;
        }
      }
      assert out == was + Emit(w, c) && WhereOf(inString, escaped) == Track(w, c);
      i := i + 1;
    }
    assert raw[i..] == [];
  }

  /** No control character stands unescaped inside a string. */
  predicate Clean(w: Where, t: string)
    decreases |t|
  {
    t == [] || (!IsRawControl(w, t[0]) && Clean(Track(w, t[0]), t[1..]))
  }

  lemma {:induction false} TrackAppend(w: Where, a: string, b: string)
    ensures TrackAll(w, a + b) == TrackAll(TrackAll(w, a), b)
    ensures Clean(w, a + b) <==> Clean(w, a) && Clean(TrackAll(w, a), b)
    decreases |a|
  {
    if a == [] {
      assert a + b == b;
    } else {
      assert (a + b)[1..] == a[1..] + b;
      TrackAppend(Track(w, a[0]), a[1..], b);
    }
  }

  lemma EmitInStep(w: Where, c: char)
    ensures TrackAll(w, Emit(w, c)) == Track(w, c) && Clean(w, Emit(w, c))
  {
    var e := Emit(w, c);
    if |e| == 2 {
      assert e[1..] == [e[1]];
      assert TrackAll(Escaping, e[1..]) == Inside;
    }
  }

  /** The output's scan state stays in step with the input's, and the output has
      no raw control character inside a string. */
  lemma {:induction false} EscapeInStep(w: Where, t: string)
    ensures TrackAll(w, Escape(w, t)) == TrackAll(w, t)
    ensures Clean(w, Escape(w, t))
    decreases |t|
  {
    if t != [] {
      EscapeInStep(Track(w, t[0]), t[1..]);
      EmitInStep(w, t[0]);
      TrackAppend(w, Emit(w, t[0]), Escape(Track(w, t[0]), t[1..]));
    }
  }

  /** Escaping is the identity exactly on the texts that need no escaping. */
  lemma {:induction false} EscapeIdentity(w: Where, t: string)
    ensures Escape(w, t) == t <==> Clean(w, t)
    ensures |Escape(w, t)| >= |t|
    decreases |t|
  {
    if t != [] {
      EscapeIdentity(Track(w, t[0]), t[1..]);
      assert t == [t[0]] + t[1..];
      if !IsRawControl(w, t[0]) {
        assert ([t[0]] + Escape(Track(w, t[0]), t[1..]))[1..] == Escape(Track(w, t[0]), t[1..]);
      } else {
        assert Escape(w, t)[0] == Emit(w, t[0])[0] != t[0];
      }
    }
  }

  lemma EscapeIdempotent(t: string)
    ensures Escape(Outside, Escape(Outside, t)) == Escape(Outside, t)
  {
    EscapeInStep(Outside, t);
    EscapeIdentity(Outside, Escape(Outside, t));
  }

  // ---- what the escaped text says ----

  /** Where a reader of JSON strings is (section 7 of RFC 8259); code is what the first n
      of four hexadecimal digits say. */
  datatype Reading = InText | InString | AfterSlash | InHex(n: nat, code: nat)

  function HexValue(c: char): Option<nat> {
    if '0' <= c <= '9' then Some(c as int - '0' as int)
    else if 'a' <= c <= 'f' then Some(c as int - 'a' as int + 10)
    else if 'A' <= c <= 'F' then Some(c as int - 'A' as int + 10)
    else None
  }

  /** The character that a backslash and c stand for. */
  function Unescaped(c: char): Option<nat> {
    match c
    case '"' => Some('"' as int)
    case '\\' => Some('\\' as int)
    case '/' => Some('/' as int)
    case 'b' => Some(8)
    case 'f' => Some(12)
    case 'n' => Some(10)
    case 'r' => Some(13)
    case 't' => Some(9)
    case _ => None
  }

  /** A raw control character as a tolerant reader takes it: line feed, carriage return
      and tab as themselves, any other as a space. */
  function Tamed(c: char): nat {
    if c < ' ' && c as int !in {9, 10, 13} then ' ' as int else c as int
  }

  /** One character: where the reader is next, and the characters it has read; None is
      malformed. */
  function ReadChar(r: Reading, c: char, tolerant: bool): Option<(Reading, seq<nat>)> {
    match r
    case InText => Some((if c == '"' then InString else InText, [c as int]))
    case InString =>
      if c == '\\' then Some((AfterSlash, []))
      else if c == '"' then Some((InText, [c as int]))
      else Some((InString, [if tolerant then Tamed(c) else c as int]))
    case AfterSlash =>
      if c == 'u' then Some((InHex(0, 0), []))
      else if Unescaped(c).Some? then Some((InString, [Unescaped(c).value]))
      else None
    case InHex(n, code) =>
      if HexValue(c).None? then None
      else
        var next := code * 16 + HexValue(c).value;
        if n < 3 then Some((InHex(n + 1, next), [])) else Some((InString, [next]))
  }

  /** The text with the escapes in its strings decoded. */
  function Read(r: Reading, t: string, tolerant: bool): Option<seq<nat>>
    decreases |t|
  {
    if t == [] then Some([])
    else
      var one := ReadChar(r, t[0], tolerant);
      if one.None? then None
      else
        var rest := Read(one.value.0, t[1..], tolerant);
        if rest.None? then None else Some(one.value.1 + rest.value)
  }

  function WhereReading(r: Reading): Where {
    match r
    case InText => Outside
    case AfterSlash => Escaping
    case _ => Inside
  }

  lemma ReadCons(r: Reading, a: string, t: string)
    requires a != [] && |a| <= 2
    ensures var one := ReadChar(r, a[0], false);
            Read(r, a + t, false) ==
              if one.None? then None
              else
                var rest := Read(one.value.0, a[1..] + t, false);
                if rest.None? then None else Some(one.value.1 + rest.value)
  {
    assert (a + t)[1..] == a[1..] + t;
  }

  /** Escaping keeps what a text says: decoded, the escaped text is what a tolerant reader
      makes of the raw one, its malformed escapes included. */
  lemma {:induction false} EscapedReadsAlike(r: Reading, t: string)
    ensures Read(r, Escape(WhereReading(r), t), false) == Read(r, t, true)
    decreases |t|
  {
    if t != [] {
      var w, c := WhereReading(r), t[0];
      var one := ReadChar(r, c, true);
      if one.Some? {
        WhereNext(r, c);
        EscapedReadsAlike(one.value.0, t[1..]);
      }
      EmittedReadsAlike(r, c, Escape(Track(w, c), t[1..]));
    }
  }

  lemma WhereNext(r: Reading, c: char)
    requires ReadChar(r, c, true).Some?
    ensures WhereReading(ReadChar(r, c, true).value.0) == Track(WhereReading(r), c)
  {
  }

  /** What is emitted for c reads as c does. */
  lemma EmittedReadsAlike(r: Reading, c: char, rest: string)
    ensures var one := ReadChar(r, c, true);
            Read(r, Emit(WhereReading(r), c) + rest, false) ==
              if one.None? || Read(one.value.0, rest, false).None? then None
              else Some(one.value.1 + Read(one.value.0, rest, false).value)
  {
    var e := Emit(WhereReading(r), c);
    if |e| == 2 {
      EscapedControl(r, c, rest);
      OnceEscaped(c);
    } else {
      ReadCons(r, e, rest);
      assert e[1..] + rest == rest;
    }
  }

  /** A control character that is written as an escape. */
  lemma EscapedControl(r: Reading, c: char, rest: string)
    requires WhereReading(r) == Inside && c in {'\n', '\r', '\t'}
    ensures Read(r, Emit(Inside, c) + rest, false) ==
              if r != InString || Read(InString, rest, false).None? then None
              else Some([c as int] + Read(InString, rest, false).value)
  {
    var e := Emit(Inside, c);
    ReadCons(r, e, rest);
    OnceEscaped(c);
    assert e[1..] == [e[1]];
    ReadCons(AfterSlash, e[1..], rest);
    assert e[1..][1..] + rest == rest;
    if r == InString && Read(InString, rest, false).Some? {
      assert [] + ([c as int] + Read(InString, rest, false).value) == [c as int] + Read(InString, rest, false).value;
    }
  }

  lemma OnceEscaped(c: char)
    requires c in {'\n', '\r', '\t'}
    ensures Unescaped(Emit(Inside, c)[1]) == Some(c as int) && Tamed(c) == c as int
  {
  }

  /** Without raw control characters in strings the tolerant reader is the strict one. */
  lemma {:induction false} StrictReader(r: Reading, t: string)
    requires Clean(WhereReading(r), t)
    ensures Read(r, t, true) == Read(r, t, false)
    decreases |t|
  {
    if t != [] && ReadChar(r, t[0], true).Some? {
      StrictReader(ReadChar(r, t[0], true).value.0, t[1..]);
    }
  }

  // ---- both steps on printed JSON ----

  /** sanitizeESLintOutput after the trimming of space and byte order mark. */
  function Sanitize(b: string): string {
    if b != [] && !IsBracket(b[0]) && Extract(b).Some? then Escape(Outside, Extract(b).value)
    else Escape(Outside, b)
  }

  /** The two scanners agree on where raw control characters stand. */
  lemma {:induction false} SameRaw(s: Scan, t: string, opener: char)
    requires IsBracket(opener) && (s.escaped ==> s.inString)
    ensures NoRaw(s, t, opener) <==> Clean(WhereOf(s.inString, s.escaped), t)
    decreases |t|
  {
    if t != [] {
      SameRaw(Next(s, t[0], opener), t[1..], opener);
    }
  }

  /** Tool chatter without brackets in front of a JSON array or object, and
      anything behind it, is removed; the JSON itself comes through unchanged. */
  lemma SanitizesPrinted(prefix: string, v: Json, trailer: string)
    requires prefix != [] && forall k :: 0 <= k < |prefix| ==> !IsBracket(prefix[k])
    requires (v.Arr? || v.Obj?) && JsonOk(v)
    ensures Sanitize(prefix + Print(v) + trailer) == Print(v)
  {
    ExtractsPrinted(prefix, v, trailer);
    assert (prefix + Print(v) + trailer)[0] == prefix[0];
    JsonBalanced(Scan(1, false, false), v, '[');
    SameRaw(Scan(1, false, false), Print(v), '[');
    EscapeIdentity(Outside, Print(v));
  }
}
