/** internal/deployer/state.go and the path codecs of internal/deployer/executor.go:
    state keys are stored relative to a root. Paths are slash-separated. */
module StateKeys {
  import opened Common
  import opened Text
  import Sorting

  // ---- filepath.Clean, Rel and Join ----

  /** A path read lexically: whether it is absolute, and its components. */
  datatype Lexical = Lexical(rooted: bool, comps: seq<string>)

  function Push(stack: seq<string>, seg: string, rooted: bool): seq<string> {
    if seg == "" || seg == "." then stack
    else if seg != ".." then stack + [seg]
    else if stack != [] && stack[|stack|-1] != ".." then stack[..|stack|-1]
    else if rooted then stack
    else stack + [seg]
  }

  function PushAll(stack: seq<string>, segs: seq<string>, rooted: bool): seq<string>
    decreases |segs|
  {
    if segs == [] then stack else PushAll(Push(stack, segs[0], rooted), segs[1..], rooted)
  }

  predicate Rooted(s: string) {
    s != "" && s[0] == '/'
  }

  function Parse(s: string): Lexical {
    Lexical(Rooted(s), PushAll([], Split(s, '/'), Rooted(s)))
  }

  function Show(p: Lexical): string {
    if p.rooted then "/" + (if p.comps == [] then "" else Join(p.comps, '/'))
    else if p.comps == [] then "."
    else Join(p.comps, '/')
  }

  function Clean(s: string): string {
    Show(Parse(s))
  }

  /** filepath.Join of two elements. */
  function JoinPath(a: string, b: string): string {
    if a == "" then (if b == "" then "" else Clean(b))
    else if b == "" then Clean(a)
    else Clean(a + ("/" + b))
  }

  predicate Component(c: string) {
    c != "" && c != "." && '/' !in c
  }

  predicate Canonical(p: Lexical) {
    && (forall i :: 0 <= i < |p.comps| ==> Component(p.comps[i]))
    && (p.rooted ==> ".." !in p.comps)
    && (forall i, j :: 0 <= i < j < |p.comps| && p.comps[j] == ".." ==> p.comps[i] == "..")
  }

  lemma PushCanonical(stack: seq<string>, seg: string, rooted: bool)
    requires Canonical(Lexical(rooted, stack)) && '/' !in seg
    ensures Canonical(Lexical(rooted, Push(stack, seg, rooted)))
  {
    if seg == ".." && stack != [] && stack[|stack|-1] == ".." {
      assert stack[|stack|-1] in stack;
    }
  }

  lemma {:induction false} PushAllCanonical(stack: seq<string>, segs: seq<string>, rooted: bool)
    requires Canonical(Lexical(rooted, stack)) && forall x :: x in segs ==> '/' !in x
    ensures Canonical(Lexical(rooted, PushAll(stack, segs, rooted)))
    decreases |segs|
  {
    if segs != [] {
      PushCanonical(stack, segs[0], rooted);
      PushAllCanonical(Push(stack, segs[0], rooted), segs[1..], rooted);
    }
  }

  lemma {:induction false} PushAllKeeps(a: seq<string>, b: seq<string>, rooted: bool)
    requires Canonical(Lexical(rooted, a + b))
    ensures PushAll(a, b, rooted) == a + b
    decreases |b|
  {
    if b == [] {
      assert a + b == a;
    } else {
      assert (a + b)[|a|] == b[0] && Component((a + b)[|a|]);
      if b[0] == ".." {
        assert b[0] in a + b;
        assert a != [] ==> (a + b)[|a|-1] == a[|a|-1] == "..";
      }
      assert a + [b[0]] + b[1..] == a + b;
      PushAllKeeps(a + [b[0]], b[1..], rooted);
    }
  }

  lemma {:induction false} PushAllAppend(stack: seq<string>, a: seq<string>, b: seq<string>, rooted: bool)
    ensures PushAll(stack, a + b, rooted) == PushAll(PushAll(stack, a, rooted), b, rooted)
    decreases |a|
  {
    if a == [] {
      assert a + b == b;
    } else {
      assert (a + b)[0] == a[0] && (a + b)[1..] == a[1..] + b;
      PushAllAppend(Push(stack, a[0], rooted), a[1..], b, rooted);
    }
  }

  lemma ParseCanonical(s: string)
    ensures Canonical(Parse(s))
  {
    JoinSplit(s, '/');
    PushAllCanonical([], Split(s, '/'), Rooted(s));
  }

  lemma SplitShow(p: Lexical)
    requires Canonical(p)
    ensures Rooted(Show(p)) == p.rooted
    ensures Split(Show(p), '/') ==
            if p.comps == [] then (if p.rooted then ["", ""] else ["."])
            else (if p.rooted then [""] else []) + p.comps
  {
    if p.comps != [] {
      forall c | c in p.comps ensures '/' !in c {
        var i :| 0 <= i < |p.comps| && p.comps[i] == c;
        assert Component(p.comps[i]);
      }
      SplitJoin(p.comps, '/');
      var j := Join(p.comps, '/');
      assert Component(p.comps[0]) && j[0] == p.comps[0][0] && p.comps[0][0] in p.comps[0];
      assert ("/" + j)[1..] == j;
    } else if p.rooted {
      assert "/"[1..] == "";
    } else {
      SplitNone(".", '/');
    }
  }

  lemma ParseShow(p: Lexical)
    requires Canonical(p)
    ensures Parse(Show(p)) == p
  {
    SplitShow(p);
    PushAllKeeps([], p.comps, p.rooted);
    assert [] + p.comps == p.comps;
    if p.comps == [] {
      assert PushAll([], ["."], p.rooted) == PushAll([], ["."][1..], p.rooted);
      assert PushAll([], ["", ""], p.rooted) == PushAll([], ["", ""][1..], p.rooted)
        == PushAll([], ["", ""][1..][1..], p.rooted);
    } else {
      assert ([""] + p.comps)[1..] == p.comps;
      assert p.rooted ==> PushAll([], [""] + p.comps, p.rooted) == PushAll([], p.comps, p.rooted);
      assert [] + p.comps == p.comps;
    }
  }

  /** Cleaning twice is cleaning once. */
  lemma CleanIdempotent(s: string)
    ensures Clean(Clean(s)) == Clean(s)
  {
    ParseCanonical(s);
    ParseShow(Parse(s));
  }

  // ---- the codecs ----

  predicate Up(rel: seq<string>) {
    rel != [] && rel[0] == ".."
  }

  /** filepath.Rel and the test behind it: None where the path does not lie under the
      root and Rel fails or starts with "..". */
  function RelUnder(root: Lexical, path: Lexical): Option<seq<string>> {
    if root.rooted == path.rooted && root.comps <= path.comps && !Up(path.comps[|root.comps|..]) then
      Some(path.comps[|root.comps|..])
    else None
  }

  function RelToRoot(rawPath: string, rawRoot: string): string {
    var path, root := TrimSpace(rawPath), TrimSpace(rawRoot);
    if path == "" || root == "" then path
    else
      var rel := RelUnder(Parse(root), Parse(path));
      if rel.None? then Clean(path) else Show(Lexical(false, rel.value))
  }

  /** The home directory, empty if it is not known, and os.ExpandEnv. */
  datatype Env = Env(home: string, expand: string -> string)

  ghost predicate Sane(env: Env) {
    forall s :: '$' !in s ==> env.expand(s) == s
  }

  predicate Tilde(s: string) {
    s == "~" || "~/" <= s
  }

  function ExpandPath(path: string, env: Env): string {
    if env.home != "" && Tilde(path) then
      if path == "~" then env.home else JoinPath(env.home, path[2..])
    else env.expand(path)
  }

  function AbsFromRoot(rawPath: string, rawRoot: string, env: Env): string {
    var path := TrimSpace(rawPath);
    if path == "" then path
    else
      var expanded := ExpandPath(path, env);
      var root := TrimSpace(rawRoot);
      if Rooted(expanded) || root == "" then Clean(expanded)
      else Clean(JoinPath(root, expanded))
  }

  /** What a key leads to is empty or clean. */
  lemma AbsIsClean(r: string, root: string, env: Env)
    ensures var a := AbsFromRoot(r, root, env); a == "" || Clean(a) == a
  {
    var path := TrimSpace(r);
    if path != "" {
      var expanded := ExpandPath(path, env);
      CleanIdempotent(expanded);
      CleanIdempotent(JoinPath(TrimSpace(root), expanded));
    }
  }

  predicate CleanAbs(path: string) {
    Rooted(path) && Clean(path) == path
  }

  /** The key a clean absolute path without space at its end is stored under: path
      itself, or what is left of it below the root. */
  lemma StoredKey(path: string, rawRoot: string)
    requires CleanAbs(path) && Trimmed(path)
    ensures var root, r := TrimSpace(rawRoot), RelToRoot(path, rawRoot);
            || r == path
            || (root != "" && RelUnder(Parse(root), Parse(path)).Some?
                && r == Show(Lexical(false, RelUnder(Parse(root), Parse(path)).value)))
  {
    TrimTrimmed(path);
  }

  lemma UnderCanonical(root: Lexical, path: Lexical)
    requires Canonical(path) && RelUnder(root, path).Some?
    ensures Canonical(Lexical(false, RelUnder(root, path).value))
    ensures root.comps + RelUnder(root, path).value == path.comps
  {
  }

  lemma JoinParses(root: string, rel: string)
    requires root != "" && rel != ""
    ensures JoinPath(root, rel)
              == Show(Lexical(Rooted(root), PushAll(Parse(root).comps, Split(rel, '/'), Rooted(root))))
  {
    SplitTwo(root, rel, '/');
    PushAllAppend([], Split(root, '/'), Split(rel, '/'), Rooted(root));
  }

  /** Where a relative key leads. */
  lemma RelKey(rel: string, root: string, env: Env)
    requires Sane(env) && root != "" && Trimmed(root) && rel != "" && Trimmed(rel)
    requires '$' !in rel && !Tilde(rel) && !Rooted(rel)
    ensures AbsFromRoot(rel, root, env) ==
            Show(Lexical(Rooted(root), PushAll(Parse(root).comps, Split(rel, '/'), Rooted(root))))
  {
    TrimTrimmed(rel);
    TrimTrimmed(root);
    JoinParses(root, rel);
    CleanIdempotent(root + ("/" + rel));
  }

  lemma PushRel(base: seq<string>, rest: seq<string>)
    requires Canonical(Lexical(true, base + rest)) && Canonical(Lexical(false, rest))
    ensures PushAll(base, Split(Show(Lexical(false, rest)), '/'), true) == base + rest
  {
    SplitShow(Lexical(false, rest));
    if rest == [] {
      assert PushAll(base, ["."], true) == PushAll(base, ["."][1..], true);
      assert base + rest == base;
    } else {
      assert [] + rest == rest;
      PushAllKeeps(base, rest, true);
    }
  }

  /** Below the root, a key without space at an end is read back. */
  lemma RelKeyBack(path: string, root: string, rest: seq<string>, env: Env)
    requires Sane(env) && CleanAbs(path) && root != "" && Trimmed(root)
    requires RelUnder(Parse(root), Parse(path)) == Some(rest)
    requires var r := Show(Lexical(false, rest)); Trimmed(r) && '$' !in r && !Tilde(r)
    ensures AbsFromRoot(Show(Lexical(false, rest)), root, env) == path
  {
    ParseCanonical(path);
    UnderCanonical(Parse(root), Parse(path));
    SplitShow(Lexical(false, rest));
    var r := Show(Lexical(false, rest));
    assert Split("", '/') == [""];
    RelKey(r, root, env);
    PushRel(Parse(root).comps, rest);
  }

  // ---- a key with space at an end is not read back ----

  function Size(comps: seq<string>): nat {
    if comps == [] then 0 else |comps[0]| + 1 + Size(comps[1..])
  }

  lemma {:induction false} SizeAppend(a: seq<string>, b: seq<string>)
    ensures Size(a + b) == Size(a) + Size(b)
  {
    if a == [] {
      assert a + b == b;
    } else {
      assert (a + b)[1..] == a[1..] + b;
      SizeAppend(a[1..], b);
    }
  }

  lemma {:induction false} JoinSize(comps: seq<string>)
    requires comps != []
    ensures |Join(comps, '/')| + 1 == Size(comps)
  {
    if |comps| > 1 {
      JoinSize(comps[1..]);
    } else {
      assert comps[1..] == [];
    }
  }

  lemma PushSize(stack: seq<string>, seg: string, rooted: bool)
    ensures Size(Push(stack, seg, rooted)) <= Size(stack) + |seg| + 1
  {
    SizeAppend(stack, [seg]);
    assert Size([seg]) == |seg| + 1 + Size([seg][1..]);
    if stack != [] {
      var k := |stack| - 1;
      assert stack == stack[..k] + [stack[k]];
      SizeAppend(stack[..k], [stack[k]]);
    }
  }

  lemma {:induction false} PushAllSize(stack: seq<string>, segs: seq<string>, rooted: bool)
    ensures Size(PushAll(stack, segs, rooted)) <= Size(stack) + Size(segs)
    decreases |segs|
  {
    if segs != [] {
      PushSize(stack, segs[0], rooted);
      PushAllSize(Push(stack, segs[0], rooted), segs[1..], rooted);
    }
  }

  lemma SplitSize(s: string)
    ensures Size(Split(s, '/')) == |s| + 1
  {
    JoinSplit(s, '/');
    JoinSize(Split(s, '/'));
  }

  lemma ShowSize(p: Lexical)
    ensures p.rooted ==> |Show(p)| == if p.comps == [] then 1 else Size(p.comps)
    ensures !p.rooted && p.comps != [] ==> |Show(p)| + 1 == Size(p.comps)
  {
    if p.comps != [] {
      JoinSize(p.comps);
    }
  }

  lemma {:induction false} TrimChars(s: string, c: char)
    requires c !in s
    ensures c !in TrimSpace(s)
  {
    TrimLeftChars(s, c);
    TrimRightEnds(TrimLeft(s));
  }

  lemma {:induction false} TrimLeftChars(s: string, c: char)
    requires c !in s
    ensures c !in TrimLeft(s)
  {
    if s != [] && IsSpace(s[0]) {
      TrimLeftChars(s[1..], c);
    }
  }

  lemma ShorterKey(path: string, root: string, rest: seq<string>, env: Env)
    requires Sane(env) && CleanAbs(path) && root != "" && Trimmed(root)
    requires RelUnder(Parse(root), Parse(path)) == Some(rest)
    requires var r := Show(Lexical(false, rest)); !Trimmed(r) && '$' !in r && !Tilde(TrimSpace(r))
    ensures AbsFromRoot(Show(Lexical(false, rest)), root, env) != path
  {
    var r := Show(Lexical(false, rest));
    var t := TrimSpace(r);
    var base := Parse(root).comps;
    TrimShorter(r);
    TrimmedIsTrimmed(r);
    TrimTrimmed(t);
    TrimChars(r, '$');
    ParseCanonical(path);
    ShowSize(Parse(path));
    SizeAppend(base, rest);
    UnderCanonical(Parse(root), Parse(path));
    ShowSize(Lexical(false, rest));
    if t != "" {
      SplitSize(t);
      if Rooted(t) {
        PushAllSize([], Split(t, '/'), true);
        ShowSize(Parse(t));
      } else {
        RelKey(t, root, env);
        AbsOfTrimmed(r, root, env);
        PushAllSize(base, Split(t, '/'), true);
        ShowSize(Lexical(true, PushAll(base, Split(t, '/'), true)));
      }
    }
  }

  lemma AbsOfTrimmed(r: string, root: string, env: Env)
    ensures AbsFromRoot(r, root, env) == AbsFromRoot(TrimSpace(r), root, env)
  {
    TrimmedIsTrimmed(r);
    TrimTrimmed(TrimSpace(r));
  }

  lemma AbsOfTrimmedRoot(r: string, root: string, env: Env)
    ensures AbsFromRoot(r, root, env) == AbsFromRoot(r, TrimSpace(root), env)
  {
    TrimmedIsTrimmed(root);
    TrimTrimmed(TrimSpace(root));
  }

  /** Trimming an absolute path leaves an absolute path. */
  lemma TrimRooted(s: string)
    requires Rooted(s)
    ensures Rooted(TrimSpace(s)) && |TrimSpace(s)| <= |s|
  {
    TrimShorter(s);
    TrimRightKeeps(s);
  }

  lemma {:induction false} TrimRightKeeps(s: string)
    requires Rooted(s)
    ensures Rooted(TrimRight(s))
  {
    if IsSpace(s[|s|-1]) {
      TrimRightKeeps(s[..|s|-1]);
    }
  }

  /** Cleaning an absolute path does not make it longer. */
  lemma CleanShorter(s: string)
    requires Rooted(s)
    ensures |Clean(s)| <= |s|
  {
    SplitSize(s);
    assert s == "/" + s[1..] && s[0] == '/';
    assert Split(s, '/')[0] == "" && Split(s, '/') == [""] + Split(s[1..], '/');
    assert PushAll([], Split(s, '/'), true) == PushAll([], Split(s[1..], '/'), true);
    SplitSize(s[1..]);
    PushAllSize([], Split(s[1..], '/'), true);
    ShowSize(Parse(s));
  }

  lemma AbsOfRooted(r: string, root: string, env: Env)
    requires Sane(env) && Rooted(r) && '$' !in r
    ensures AbsFromRoot(r, root, env) == Clean(TrimSpace(r)) && |AbsFromRoot(r, root, env)| <= |r|
  {
    TrimRooted(r);
    TrimChars(r, '$');
    CleanShorter(TrimSpace(r));
  }

  /** A clean absolute key in the state file is read back whatever the root, exactly if
      it has no space at its end. */
  lemma AbsoluteKeyStays(path: string, root: string, env: Env)
    requires Sane(env) && CleanAbs(path) && '$' !in path
    ensures AbsFromRoot(path, root, env) == path <==> Trimmed(path)
  {
    TrimShorter(path);
    AbsOfRooted(path, root, env);
    TrimRooted(path);
    CleanShorter(TrimSpace(path));
  }

  /** What a relative key below a root leads to is no longer than base and rest. */
  lemma RelKeySize(rest: seq<string>, root: string, env: Env)
    requires Sane(env) && root != "" && Trimmed(root) && Rooted(root)
               && Canonical(Lexical(true, Parse(root).comps + rest))
    requires Canonical(Lexical(false, rest))
    requires var r := Show(Lexical(false, rest)); '$' !in r && !Tilde(TrimSpace(r))
    ensures |AbsFromRoot(Show(Lexical(false, rest)), root, env)| <= |Show(Lexical(true, Parse(root).comps + rest))|
  {
    var r, base := Show(Lexical(false, rest)), Parse(root).comps;
    var t := TrimSpace(r);
    TrimShorter(r);
    TrimmedIsTrimmed(r);
    TrimChars(r, '$');
    SizeAppend(base, rest);
    ShowSize(Lexical(false, rest));
    ShowSize(Lexical(true, base + rest));
    AbsOfTrimmed(r, root, env);
    if rest == [] {
      assert t == "." by { TrimTrimmed("."); }
      RelKey(t, root, env);
      PushRel(base, rest);
    } else if t != "" {
      if Rooted(t) {
        AbsOfRooted(t, root, env);
      } else {
        RelKey(t, root, env);
        SplitSize(t);
        PushAllSize(base, Split(t, '/'), true);
        ShowSize(Lexical(true, PushAll(base, Split(t, '/'), true)));
      }
    }
  }

  /** A key with space at its end is stored without it, and never comes back. */
  lemma UntrimmedLost(path: string, rawRoot: string, env: Env)
    requires Sane(env) && CleanAbs(path) && !Trimmed(path)
    requires var r := RelToRoot(path, rawRoot); '$' !in r && !Tilde(TrimSpace(r))
    ensures AbsFromRoot(RelToRoot(path, rawRoot), rawRoot, env) != path
  {
    var short, root, r := TrimSpace(path), TrimSpace(rawRoot), RelToRoot(path, rawRoot);
    TrimShorter(path);
    TrimRooted(path);
    CleanShorter(short);
    TrimmedIsTrimmed(rawRoot);
    AbsOfTrimmedRoot(r, rawRoot, env);
    ParseCanonical(short);
    var rel := if root == "" then None else RelUnder(Parse(root), Parse(short));
    if rel.None? {
      SplitShow(Parse(short));
      AbsOfRooted(r, root, env);
    } else {
      UnderCanonical(Parse(root), Parse(short));
      RelKeySize(rel.value, root, env);
    }
  }

  /** A clean absolute key whose stored form has no '$' and no leading "~" is read back
      exactly if neither the key nor its stored form has space at an end. */
  lemma KeyRoundTrip(path: string, root: string, env: Env)
    requires Sane(env) && CleanAbs(path)
    requires var r := RelToRoot(path, root); '$' !in r && !Tilde(TrimSpace(r))
    ensures AbsFromRoot(RelToRoot(path, root), root, env) == path <==>
            Trimmed(path) && Trimmed(RelToRoot(path, root))
  {
    var r := RelToRoot(path, root);
    if !Trimmed(path) {
      UntrimmedLost(path, root, env);
    } else {
      StoredKey(path, root);
      if r == path {
        AbsoluteKeyStays(path, root, env);
      } else {
        var trimmed := TrimSpace(root);
        TrimmedIsTrimmed(root);
        var rest := RelUnder(Parse(trimmed), Parse(path)).value;
        AbsOfTrimmedRoot(r, root, env);
        if Trimmed(r) {
          TrimTrimmed(r);
          RelKeyBack(path, trimmed, rest, env);
        } else {
          ShorterKey(path, trimmed, rest, env);
        }
      }
    }
  }

  /** A path at or below the root is stored as what is left of it there, and one elsewhere
      as it is. */
  lemma StoredBelow(rawPath: string, rawRoot: string, base: seq<string>, comps: seq<string>)
    requires Canonical(Lexical(true, base)) && Canonical(Lexical(true, comps))
    requires TrimSpace(rawRoot) == Show(Lexical(true, base)) && TrimSpace(rawPath) == Show(Lexical(true, comps))
    ensures RelToRoot(rawPath, rawRoot) ==
              if base <= comps then Show(Lexical(false, comps[|base|..])) else Show(Lexical(true, comps))
  {
    ParseShow(Lexical(true, base));
    ParseShow(Lexical(true, comps));
    if base <= comps && |base| < |comps| {
      assert comps[|base|] in comps;
    }
  }

  /** Without a root a path is stored as it is, and no path as none. */
  lemma StoredPlain(rawPath: string, rawRoot: string)
    requires TrimSpace(rawPath) == "" || TrimSpace(rawRoot) == ""
    ensures RelToRoot(rawPath, rawRoot) == TrimSpace(rawPath)
  {
  }

  /** A blank key leads nowhere; one that expands to an absolute path leads there whatever
      the root, and without a root so does any other. */
  lemma ReadPlain(key: string, rawRoot: string, env: Env)
    ensures TrimSpace(key) == "" ==> AbsFromRoot(key, rawRoot, env) == ""
    ensures var k := TrimSpace(key);
            k != "" && (env.home == "" || (k != "~" && !("~/" <= k)))
            && ((env.expand(k) != "" && env.expand(k)[0] == '/') || TrimSpace(rawRoot) == "") ==>
              AbsFromRoot(key, rawRoot, env) == Clean(env.expand(k))
  {
  }

  /** A key that starts with "~/" leads below the home directory, whatever the root, and
      "~" to it. */
  lemma HomeKey(key: string, rawRoot: string, env: Env, home: seq<string>, rest: seq<string>)
    requires Canonical(Lexical(true, home)) && Canonical(Lexical(true, home + rest)) && Canonical(Lexical(false, rest))
    requires env.home == Show(Lexical(true, home)) && Trimmed(key)
    requires key == if rest == [] then "~" else "~/" + Show(Lexical(false, rest))
    ensures AbsFromRoot(key, rawRoot, env) == Show(Lexical(true, home + rest))
  {
    TrimTrimmed(key);
    HomeExpands(key, env, home, rest);
    SplitShow(Lexical(true, home + rest));
    ParseShow(Lexical(true, home + rest));
    AbsOfExpanded(key, rawRoot, env, Show(Lexical(true, home + rest)));
  }

  lemma AbsOfExpanded(key: string, rawRoot: string, env: Env, path: string)
    requires key != "" && TrimSpace(key) == key && ExpandPath(key, env) == path && CleanAbs(path)
    ensures AbsFromRoot(key, rawRoot, env) == path
  {
  }

  lemma HomeExpands(key: string, env: Env, home: seq<string>, rest: seq<string>)
    requires Canonical(Lexical(true, home)) && Canonical(Lexical(true, home + rest)) && Canonical(Lexical(false, rest))
    requires env.home == Show(Lexical(true, home))
    requires key == if rest == [] then "~" else "~/" + Show(Lexical(false, rest))
    ensures ExpandPath(key, env) == Show(Lexical(true, home + rest))
  {
    SplitShow(Lexical(true, home));
    if rest == [] {
      assert home + rest == home;
    } else {
      SplitShow(Lexical(false, rest));
      HomePath(Show(Lexical(true, home)), Show(Lexical(false, rest)), home, rest);
      assert key[2..] == Show(Lexical(false, rest));
    }
  }

  /** The home directory joined with a clean relative path. */
  lemma HomePath(base: string, rel: string, home: seq<string>, rest: seq<string>)
    requires Canonical(Lexical(true, home)) && Canonical(Lexical(true, home + rest)) && Canonical(Lexical(false, rest))
    requires base == Show(Lexical(true, home)) && rel == Show(Lexical(false, rest))
    ensures JoinPath(base, rel) == Show(Lexical(true, home + rest))
  {
    SplitShow(Lexical(true, home));
    ParseShow(Lexical(true, home));
    SplitShow(Lexical(false, rest));
    assert Split("", '/') == [""];
    JoinParses(base, rel);
    PushRel(home, rest);
  }

  // ---- the store ----

  type Files<Info> = map<string, Info>

  /** The codecs of one root, as functions of the key alone. */
  function StoredUnder(root: string): string -> string {
    k => RelToRoot(k, root)
  }

  function ReadUnder(root: string, env: Env): string -> string {
    r => AbsFromRoot(r, root, env)
  }

  /** k is the last of the state's keys, in string order, that is stored under r. */
  predicate LastFor<Info>(files: Files<Info>, stored: string -> string, r: string, k: string) {
    && k in files && stored(k) == r
    && forall k' :: k' in files && stored(k') == r && k' != k ==> Sorting.StringLess(k', k)
  }

  ghost predicate SavedAs<Info(!new)>(files: Files<Info>, disk: Files<Info>, stored: string -> string) {
    && (forall k :: k in files ==> stored(k) in disk)
    && (forall r :: r in disk ==> exists k :: LastFor(files, stored, r, k) && disk[r] == files[k])
  }

  ghost predicate LoadedFrom<Info(!new)>(disk: Files<Info>, files: Files<Info>, read: string -> string) {
    && (forall r :: r in disk ==> read(r) in files)
    && (forall k :: k in files ==> exists r :: r in disk && read(r) == k && disk[r] == files[k])
  }

  predicate ReadsBack(k: string, root: string) {
    && CleanAbs(k) && Trimmed(k)
    && var r := RelToRoot(k, root);
       '$' !in r && !Tilde(r) && Trimmed(r)
  }

  /** With any codecs, reading back what each key is stored under is enough. */
  lemma MapsBack<Info(!new)>(files: Files<Info>, disk: Files<Info>, loaded: Files<Info>,
                             stored: string -> string, read: string -> string)
    requires forall k :: k in files ==> read(stored(k)) == k
    requires SavedAs(files, disk, stored) && LoadedFrom(disk, loaded, read)
    ensures loaded == files
  {
    forall k | k in files ensures k in loaded {
      assert stored(k) in disk && read(stored(k)) == k;
    }
    forall k | k in loaded ensures k in files && loaded[k] == files[k] {
      var r :| r in disk && read(r) == k && disk[r] == loaded[k];
      var k' :| LastFor(files, stored, r, k') && disk[r] == files[k'];
      assert read(stored(k')) == k';
    }
  }

  lemma KeyReadsBack(k: string, root: string, env: Env)
    requires Sane(env) && ReadsBack(k, root)
    ensures ReadUnder(root, env)(StoredUnder(root)(k)) == k
  {
    TrimTrimmed(RelToRoot(k, root));
    KeyRoundTrip(k, root, env);
  }

  /** Loading what was saved gives the same state. */
  lemma LoadAfterSave<Info(!new)>(files: Files<Info>, disk: Files<Info>, loaded: Files<Info>, root: string, env: Env)
    requires Sane(env) && forall k :: k in files ==> ReadsBack(k, root)
    requires SavedAs(files, disk, StoredUnder(root)) && LoadedFrom(disk, loaded, ReadUnder(root, env))
    ensures loaded == files
  {
    forall k | k in files ensures ReadUnder(root, env)(StoredUnder(root)(k)) == k {
      KeyReadsBack(k, root, env);
    }
    MapsBack(files, disk, loaded, StoredUnder(root), ReadUnder(root, env));
  }

  class FileStateStore<Info(!new)> {
    const root: string
    /** The state file; None if there is none. */
    var disk: Option<Files<Info>>

    constructor(root: string)
      ensures this.root == root && disk == None
    {
      this.root, this.disk := root, None;
    }

    /** writeOk says whether encoding and the atomic write succeed. */
    method Save(files: Files<Info>, writeOk: bool) returns (ok: bool)
      modifies this
      ensures ok == writeOk
      ensures if ok then disk.Some? && SavedAs(files, disk.value, StoredUnder(root)) else disk == old(disk)
    {
      var keys := Sorting.SortedKeys(files.Keys);
      var out: Files<Info> := map[];
      for i := 0 to |keys|
        invariant disk == old(disk) && SavedTo(files, keys, i, StoredUnder(root), out)
      {
        var rel := RelToRoot(keys[i], root);
        SaveNext(files, keys, i, StoredUnder(root), out);
        out := out[rel := files[keys[i]]];
      }
      AllSaved(files, keys, StoredUnder(root), out);
      if !writeOk {
        return false;
      }
      disk := Some(out);
      assert SavedAs(files, disk.value, StoredUnder(root));
      return true;
    }

    /** readOk says whether a file that exists can be read and parsed. */
    method Load(env: Env, readOk: bool) returns (ok: bool, files: Files<Info>)
      ensures ok == (disk.None? || readOk)
      ensures disk.None? || !ok ==> files == map[]
      ensures disk.Some? && ok ==> LoadedFrom(disk.value, files, ReadUnder(root, env))
    {
      files := map[];
      if disk.None? {
        return true, files;
      }
      if !readOk {
        return false, files;
      }
      ok := true;
      ghost var read := ReadUnder(root, env);
      var todo := disk.value.Keys;
      while todo != {}
        invariant todo <= disk.value.Keys
        invariant forall r :: r in disk.value && r !in todo ==> read(r) in files
        invariant forall k :: k in files ==> exists r :: r in disk.value && read(r) == k && disk.value[r] == files[k]
      {
        var key :| key in todo;
        assert read(key) == AbsFromRoot(key, root, env);
        files := files[AbsFromRoot(key, root, env) := disk.value[key]];
        todo := todo - {key};
      }
    }
  }

  // The saving loop, for keys of any type.

  predicate LastOf<K>(keys: seq<K>, n: nat, stored: K -> string, r: string, j: nat) {
    && j < n <= |keys| && stored(keys[j]) == r
    && forall i :: j < i < n ==> stored(keys[i]) != r
  }

  ghost predicate SavedTo<K(!new), Info(!new)>(files: map<K, Info>, keys: seq<K>, n: nat, stored: K -> string,
                                               out: Files<Info>)
    requires n <= |keys| && forall k :: k in keys ==> k in files
  {
    && (forall j :: 0 <= j < n ==> stored(keys[j]) in out)
    && (forall r :: r in out ==> exists j: nat :: LastOf(keys, n, stored, r, j) && out[r] == files[keys[j]])
  }

  lemma SaveNext<K(!new), Info(!new)>(files: map<K, Info>, keys: seq<K>, i: nat, stored: K -> string, out: Files<Info>)
    requires i < |keys| && (forall k :: k in keys ==> k in files) && SavedTo(files, keys, i, stored, out)
    ensures SavedTo(files, keys, i + 1, stored, out[stored(keys[i]) := files[keys[i]]])
  {
    var rel := stored(keys[i]);
    var next := out[rel := files[keys[i]]];
    assert LastOf(keys, i + 1, stored, rel, i);
    forall r | r in next ensures exists j: nat :: LastOf(keys, i + 1, stored, r, j) && next[r] == files[keys[j]] {
      if r != rel {
        var j: nat :| LastOf(keys, i, stored, r, j) && out[r] == files[keys[j]];
        assert LastOf(keys, i + 1, stored, r, j);
      }
    }
  }

  lemma AllSaved<Info(!new)>(files: Files<Info>, keys: seq<string>, stored: string -> string, out: Files<Info>)
    requires Sorting.Listing(keys, files.Keys)
    requires SavedTo(files, keys, |keys|, stored, out)
    ensures SavedAs(files, out, stored)
  {
    forall k | k in files ensures stored(k) in out {
      assert k in keys;
      var j :| 0 <= j < |keys| && keys[j] == k;
      assert stored(keys[j]) in out;
    }
    forall r | r in out ensures exists k :: LastFor(files, stored, r, k) && out[r] == files[k] {
      var j: nat :| LastOf(keys, |keys|, stored, r, j) && out[r] == files[keys[j]];
      LastIsLast(files, keys, stored, r, j);
    }
  }

  lemma LastIsLast<Info(!new)>(files: Files<Info>, keys: seq<string>, stored: string -> string, r: string, j: nat)
    requires Sorting.Listing(keys, files.Keys)
    requires LastOf(keys, |keys|, stored, r, j)
    ensures LastFor(files, stored, r, keys[j])
  {
    forall k | k in files && stored(k) == r && k != keys[j] ensures Sorting.StringLess(k, keys[j]) {
      var i :| 0 <= i < |keys| && keys[i] == k;
      assert stored(keys[i]) == r;
    }
  }

  // ---- findGitRoot ----

  /** The nearest directory at or above dir that holds a work tree. */
  method FindGitRoot(start: seq<string>, isGitWorkTree: seq<string> -> bool) returns (root: Option<seq<string>>)
    ensures root.None? ==> forall n :: 0 <= n <= |start| ==> !isGitWorkTree(start[..n])
    ensures root.Some? ==> root.value <= start && isGitWorkTree(root.value)
    ensures root.Some? ==> forall n :: |root.value| < n <= |start| ==> !isGitWorkTree(start[..n])
  {
    var dir := start;
    assert start[..|start|] == start;
    while true
      invariant dir <= start
      invariant forall n :: |dir| < n <= |start| ==> !isGitWorkTree(start[..n])
      decreases |dir|
    {
      assert start[..|dir|] == dir;
      if isGitWorkTree(dir) {
        return Some(dir);
      }
      var parent := if dir == [] then dir else dir[..|dir|-1];
      if parent == dir {
        return None;
      }
      dir := parent;
    }
  }
}
