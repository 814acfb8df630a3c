/**
 The C library's path normaliser: components are split off into an array of entries, `.` is
 dropped, each `..` clears the used-flag of the nearest earlier entry still in use, and the
 entries left are joined again. `Location` is the independent meaning of a path, the stack of
 names a left-to-right walk from the root ends on.
 */
module Paths {
  import opened Words

  const MAX_PATH: nat := 255

  // ---------- What a path means ----------

  function SkipSlashes(s: string): (r: string)
    ensures |r| <= |s| && (r != "" ==> r[0] != '/')
    ensures s != "" && s[0] != '/' ==> r == s
  {
    if s == "" || s[0] != '/' then s else SkipSlashes(s[1..])
  }

  function TokenLength(s: string): (n: nat)
    ensures n <= |s| && '/' !in s[..n]
    ensures n < |s| ==> s[n] == '/'
    ensures s != "" && s[0] != '/' ==> n > 0
  {
    if s == "" || s[0] == '/' then 0
    else
      var n := 1 + TokenLength(s[1..]);
      assert s[..n] == [s[0]] + s[1..][..n - 1];
      n
  }

  /** The successive tokens `strtok_r` finds between slashes: never empty. */
  function Components(s: string): seq<string>
    decreases |s|
  {
    var t := SkipSlashes(s);
    if t == "" then [] else [t[..TokenLength(t)]] + Components(t[TokenLength(t)..])
  }

  function Up(stack: seq<string>): seq<string> { if stack == [] then [] else stack[..|stack| - 1] }

  /** One step of the walk: `.` stays, `..` goes up and does nothing at the root. */
  function Visit(stack: seq<string>, c: string): seq<string> {
    if c == "." then stack
    else if c == ".." then Up(stack)
    else stack + [c]
  }

  function Walk(stack: seq<string>, cs: seq<string>): seq<string> {
    if cs == [] then stack else Visit(Walk(stack, cs[..|cs| - 1]), cs[|cs| - 1])
  }

  function Location(path: string): seq<string> { Walk([], Components(path)) }

  lemma {:induction false} WalkAppend(stack: seq<string>, a: seq<string>, b: seq<string>)
    ensures Walk(stack, a + b) == Walk(Walk(stack, a), b)
  {
    if b == [] {
      assert a + b == a;
    } else {
      WalkAppend(stack, a, b[..|b| - 1]);
      assert (a + b)[..|a + b| - 1] == a + b[..|b| - 1];
    }
  }

  // ---------- Components and slashes ----------

  lemma {:induction false} TokenLengthSlash(a: string, b: string)
    ensures TokenLength(a + "/" + b) == TokenLength(a)
  {
    if a != "" && a[0] != '/' {
      assert (a + "/" + b)[1..] == a[1..] + "/" + b;
      TokenLengthSlash(a[1..], b);
    }
  }

  lemma LeadingSlash(s: string)
    requires s != "" && s[0] == '/'
    ensures Components(s) == Components(s[1..])
  {
  }

  /** A slash separates: the components of both sides, one after the other. */
  lemma {:induction false} ComponentsSlash(a: string, b: string)
    ensures Components(a + "/" + b) == Components(a) + Components(b)
    decreases |a|
  {
    var s := a + "/" + b;
    if a == "" {
      assert s[1..] == b;
      LeadingSlash(s);
    } else if a[0] == '/' {
      assert s[1..] == a[1..] + "/" + b;
      LeadingSlash(s);
      LeadingSlash(a);
      ComponentsSlash(a[1..], b);
    } else {
      TokenThenSlash(a, b);
      var n := TokenLength(a);
      if n < |a| { ComponentsSlash(a[n..], b); }
    }
  }

  lemma FirstToken(s: string)
    requires s != "" && s[0] != '/'
    ensures Components(s) == [s[..TokenLength(s)]] + Components(s[TokenLength(s)..])
  {
  }

  lemma TokenThenSlash(a: string, b: string)
    requires a != "" && a[0] != '/'
    ensures var n := TokenLength(a);
            if n < |a| then Components(a + "/" + b) == [a[..n]] + Components(a[n..] + "/" + b)
            else Components(a + "/" + b) == [a] + Components(b) && Components(a) == [a]
  {
    var s, n := a + "/" + b, TokenLength(a);
    TokenLengthSlash(a, b);
    FirstToken(s);
    assert s[..n] == a[..n];
    if n < |a| {
      assert s[n..] == a[n..] + "/" + b;
    } else {
      assert s[n..] == "/" + b && s[n..][1..] == b;
      LeadingSlash(s[n..]);
      FirstToken(a);
      assert a[..n] == a && a[n..] == "";
    }
  }

  /** A component a file name may be: not empty, no slash, no terminator. */
  ghost predicate Name(c: string) { c != "" && '/' !in c && '\0' !in c }

  ghost predicate Names(cs: seq<string>) { forall c | c in cs :: Name(c) }

  lemma {:induction false} SkippedIsSuffix(s: string)
    ensures forall x | x in SkipSlashes(s) :: x in s
  {
    if s != "" && s[0] == '/' { SkippedIsSuffix(s[1..]); }
  }

  lemma {:induction false} ComponentsAreNames(s: string)
    requires '\0' !in s
    ensures Names(Components(s))
    decreases |s|
  {
    var t := SkipSlashes(s);
    SkippedIsSuffix(s);
    if t != "" {
      var n := TokenLength(t);
      assert '\0' !in t[..n] && '\0' !in t[n..];
      ComponentsAreNames(t[n..]);
    }
  }

  lemma SingleComponent(c: string)
    requires Name(c)
    ensures Components(c) == [c]
  {
    var n := TokenLength(c);
    assert n == |c| && c[..n] == c && c[n..] == "";
    assert Components(c) == [c] + Components("");
  }

  lemma StepInto(path: string, c: string)
    requires Name(c)
    ensures Location(path + "/" + c) == Visit(Location(path), c)
  {
    var front := Components(path);
    ComponentsSlash(path, c);
    SingleComponent(c);
    assert (front + [c])[..|front|] == front;
  }

  /** A name leads one place down, `.` leads nowhere, and `..` undoes a name and stays at the root. */
  lemma WhereNamesLead(path: string, c: string)
    requires Name(c) && c != "." && c != ".."
    ensures Location(path + "/" + c) == Location(path) + [c]
    ensures Location(path + "/" + ".") == Location(path)
    ensures Location(path + "/" + c + "/" + "..") == Location(path)
    ensures Location(path) == [] ==> Location(path + "/" + "..") == []
  {
    StepInto(path, c);
    StepInto(path, ".");
    StepInto(path, "..");
    StepInto(path + "/" + c, "..");
  }

  // ---------- Joining ----------

  function Render(cs: seq<string>): string {
    if cs == [] then "" else Render(cs[..|cs| - 1]) + "/" + cs[|cs| - 1]
  }

  /** The absolute path that names a stack directly. */
  function Normal(cs: seq<string>): string { if cs == [] then "/" else Render(cs) }

  lemma EmptyRender(cs: seq<string>)
    ensures |Render(cs)| == 0 <==> cs == []
  {
  }

  lemma {:induction false} ComponentsOfRender(cs: seq<string>)
    requires Names(cs)
    ensures Components(Render(cs)) == cs
  {
    if cs != [] {
      var front, last := cs[..|cs| - 1], cs[|cs| - 1];
      ComponentsOfRender(front);
      ComponentsSlash(Render(front), last);
      assert Name(last);
      SingleComponent(last);
      assert cs == front + [last];
    }
  }

  lemma ComponentsOfNormal(cs: seq<string>)
    requires Names(cs)
    ensures Components(Normal(cs)) == cs
  {
    ComponentsOfRender(cs);
    if cs == [] { LeadingSlash("/"); }
  }

  lemma {:induction false} RenderLength(cs: seq<string>)
    requires Names(cs)
    ensures |Render(cs)| >= 2 * |cs| && (cs != [] ==> Render(cs)[0] == '/')
    ensures '\0' !in Render(cs)
  {
    if cs != [] {
      assert Name(cs[|cs| - 1]);
      RenderLength(cs[..|cs| - 1]);
    }
  }

  // ---------- The walk leaves plain names ----------

  ghost predicate Plain(cs: seq<string>) { forall c | c in cs :: Name(c) && c != "." && c != ".." }

  lemma {:induction false} WalkIsPlain(stack: seq<string>, cs: seq<string>)
    requires Plain(stack) && Names(cs)
    ensures Plain(Walk(stack, cs))
  {
    if cs != [] {
      var last := cs[|cs| - 1];
      WalkIsPlain(stack, cs[..|cs| - 1]);
      assert Name(last);
      assert forall c | c in Walk(stack, cs) :: c in Walk(stack, cs[..|cs| - 1]) || (c == last && last != "." && last != "..");
    }
  }

  lemma {:induction false} PlainWalksToItself(cs: seq<string>)
    requires Plain(cs)
    ensures Walk([], cs) == cs
  {
    if cs != [] {
      PlainWalksToItself(cs[..|cs| - 1]);
      assert cs[|cs| - 1] in cs && cs == cs[..|cs| - 1] + [cs[|cs| - 1]];
    }
  }

  function NoDots(cs: seq<string>): seq<string> {
    if cs == [] then [] else NoDots(cs[..|cs| - 1]) + if cs[|cs| - 1] == "." then [] else [cs[|cs| - 1]]
  }

  lemma {:induction false} NoDotsSameWalk(stack: seq<string>, cs: seq<string>)
    ensures Walk(stack, NoDots(cs)) == Walk(stack, cs)
  {
    if cs != [] {
      var front, last := cs[..|cs| - 1], cs[|cs| - 1];
      NoDotsSameWalk(stack, front);
      var d := NoDots(cs);
      if last == "." {
        assert d == NoDots(front);
      } else {
        assert d[..|d| - 1] == NoDots(front);
      }
    }
  }

  lemma {:induction false} NoDotsOfPlain(cs: seq<string>)
    requires Plain(cs)
    ensures NoDots(cs) == cs
  {
    if cs != [] {
      NoDotsOfPlain(cs[..|cs| - 1]);
      assert cs[|cs| - 1] in cs && cs == cs[..|cs| - 1] + [cs[|cs| - 1]];
    }
  }

  // ---------- The normaliser as a function of the path ----------

  function Realpath(path: string): (r: Option<string>) {
    if path == "" then None
    else if path[0] == '/' && '.' !in path then Some(path)
    else if path[0] != '/' || 1 + |NoDots(Components(path))| > MAX_PATH || |Render(Location(path))| >= MAX_PATH then None
    else Some(Normal(Location(path)))
  }

  lemma LocationIsPlain(path: string)
    requires '\0' !in path
    ensures Plain(Location(path))
  {
    ComponentsAreNames(path);
    WalkIsPlain([], Components(path));
  }

  /** Normalising never changes the place a path names. */
  lemma RealpathSameLocation(path: string)
    requires '\0' !in path && Realpath(path).Some?
    ensures Location(Realpath(path).value) == Location(path)
  {
    if '.' in path {
      LocationIsPlain(path);
      ComponentsOfNormal(Location(path));
      PlainWalksToItself(Location(path));
    }
  }

  lemma {:induction false} ComponentCharacters(s: string, x: char)
    requires x !in s
    ensures forall c | c in Components(s) :: x !in c
    decreases |s|
  {
    var t := SkipSlashes(s);
    SkippedIsSuffix(s);
    if t != "" {
      var n := TokenLength(t);
      assert x !in t[..n] && x !in t[n..];
      ComponentCharacters(t[n..], x);
    }
  }

  lemma DotlessIsPlain(p: string)
    requires '.' !in p && '\0' !in p
    ensures Plain(Components(p)) && Location(p) == Components(p)
  {
    ComponentsAreNames(p);
    ComponentCharacters(p, '.');
    forall c | c in Components(p) ensures c != "." && c != ".." {
      assert '.' !in c && "."[0] == '.' && ".."[0] == '.';
    }
    PlainWalksToItself(Components(p));
  }

  /** The result is absolute and has no `.` and no `..` component. */
  lemma RealpathHasNoDots(path: string)
    requires '\0' !in path && Realpath(path).Some?
    ensures var out := Realpath(path).value; out != "" && out[0] == '/' && Plain(Components(out))
  {
    if '.' in path {
      LocationIsPlain(path);
      ComponentsOfNormal(Location(path));
      RenderLength(Location(path));
    } else {
      DotlessIsPlain(path);
    }
  }

  lemma RealpathIdempotent(path: string)
    requires '\0' !in path && Realpath(path).Some?
    ensures Realpath(Realpath(path).value) == Realpath(path)
  {
    if '.' in path {
      var st := Location(path);
      var out := Normal(st);
      LocationIsPlain(path);
      ComponentsOfNormal(st);
      PlainWalksToItself(st);
      NoDotsOfPlain(st);
      RenderLength(st);
    }
  }

  // ---------- When a path resolves ----------

  /** The characters needed to write the names down, a slash in front of each. */
  function Span(cs: seq<string>): nat { if cs == [] then 0 else Span(cs[..|cs| - 1]) + 1 + |cs[|cs| - 1]| }

  lemma {:induction false} RenderSpan(cs: seq<string>)
    ensures |Render(cs)| == Span(cs)
  {
    if cs != [] { RenderSpan(cs[..|cs| - 1]); }
  }

  lemma {:induction false} SpanCons(c: string, cs: seq<string>)
    ensures Span([c] + cs) == 1 + |c| + Span(cs)
  {
    if cs == [] {
      assert [c] + cs == [c] && [c][..0] == [];
    } else {
      SpanCons(c, cs[..|cs| - 1]);
      assert ([c] + cs)[..|cs|] == [c] + cs[..|cs| - 1];
    }
  }

  lemma {:induction false} SkipShortens(s: string)
    ensures s != "" && s[0] == '/' ==> |SkipSlashes(s)| < |s|
  {
  }

  /** Every component stands behind its own slash. */
  lemma {:induction false} ComponentsFit(s: string)
    requires s == "" || s[0] == '/'
    ensures Span(Components(s)) <= |s|
    decreases |s|
  {
    var t := SkipSlashes(s);
    SkipShortens(s);
    if t != "" {
      var n := TokenLength(t);
      ComponentsFit(t[n..]);
      SpanCons(t[..n], Components(t[n..]));
    }
  }

  /** Walking only ever makes the path shorter. */
  lemma {:induction false} WalkFits(cs: seq<string>)
    ensures Span(Walk([], cs)) <= Span(cs)
  {
    if cs != [] {
      WalkFits(cs[..|cs| - 1]);
      var stack := Walk([], cs[..|cs| - 1]);
      assert (stack + [cs[|cs| - 1]])[..|stack|] == stack;
    }
  }

  lemma {:induction false} FewComponents(cs: seq<string>)
    requires Names(cs)
    ensures 2 * |NoDots(cs)| <= Span(cs)
  {
    if cs != [] {
      assert Name(cs[|cs| - 1]);
      FewComponents(cs[..|cs| - 1]);
    }
  }

  /** Every absolute path of fewer than 255 characters resolves, and one with dots to the place its walk ends on. */
  lemma ShortPathsResolve(path: string)
    requires '\0' !in path && path != "" && path[0] == '/' && |path| < 255
    ensures Realpath(path) == Some(if '.' in path then Normal(Location(path)) else path)
  {
    ComponentsAreNames(path);
    ComponentsFit(path);
    WalkFits(Components(path));
    RenderSpan(Location(path));
    FewComponents(Components(path));
  }

  /** Null exactly for a relative path, and for one with dots that has 255 entries or a result of 255 characters. */
  lemma NullExactly(path: string)
    ensures Realpath(path) == None <==>
            || path == "" || path[0] != '/'
            || ('.' in path && (|NoDots(Components(path))| >= 255 || Span(Location(path)) >= 255))
  {
    RenderSpan(Location(path));
  }

  /** `/..`, n times over. */
  function Ups(n: nat): string { if n == 0 then "" else Ups(n - 1) + "/" + ".." }

  lemma OneUp(path: string, up: string)
    requires up == ".." && Location(path) == []
    ensures Location(path + "/" + up) == []
    ensures |NoDots(Components(path + "/" + up))| == |NoDots(Components(path))| + 1
  {
    var front := Components(path);
    StepInto(path, up);
    ComponentsSlash(path, up);
    SingleComponent(up);
    assert (front + [up])[..|front|] == front;
  }

  lemma {:induction false} UpsStayAtRoot(n: nat)
    ensures Location(Ups(n)) == [] && |NoDots(Components(Ups(n)))| == n
  {
    if n > 0 {
      UpsStayAtRoot(n - 1);
      OneUp(Ups(n - 1), "..");
    }
  }

  lemma {:induction false} UpsIsAbsolute(n: nat)
    requires n > 0
    ensures Ups(n)[0] == '/' && '.' in Ups(n)
  {
    if n > 1 { UpsIsAbsolute(n - 1); }
    assert Ups(n)[|Ups(n)| - 1] == '.';
  }

  /** The limit on entries is real: going up from the root 254 times still leads to the root, once more is null. */
  lemma TooManyEntries(n: nat)
    requires n > 0
    ensures Realpath(Ups(n)) == if n < 255 then Some("/") else None
  {
    UpsIsAbsolute(n);
    UpsStayAtRoot(n);
    EmptyRender([]);
  }

  // ---------- When the result is canonical ----------

  /** No two slashes in a row, and none at the end. */
  ghost predicate Tidy(p: string) {
    && p != "" && p[|p| - 1] != '/'
    && forall i | 0 < i < |p| :: !(p[i - 1] == '/' && p[i] == '/')
  }

  /** The paths whose result is the normal path of the place they name. */
  ghost predicate Canonical(p: string) { '.' in p || p == "/" || Tidy(p) }

  lemma TidyAppend(a: string, c: string)
    requires (a == "" || Tidy(a)) && Name(c)
    ensures Tidy(a + "/" + c)
  {
    var t := a + "/" + c;
    assert t[|t| - 1] == c[|c| - 1];
    forall i | 0 < i < |t| ensures !(t[i - 1] == '/' && t[i] == '/') {
      if i < |a| {
        assert t[i - 1] == a[i - 1] && t[i] == a[i];
      } else if i == |a| {
        assert t[i - 1] == a[|a| - 1];
      } else {
        assert t[i] == c[i - |a| - 1];
      }
    }
  }

  lemma {:induction false} RenderTidy(cs: seq<string>)
    requires Names(cs) && cs != []
    ensures Tidy(Render(cs))
  {
    var front, last := cs[..|cs| - 1], cs[|cs| - 1];
    if front != [] { RenderTidy(front); }
    assert Name(last);
    TidyAppend(Render(front), last);
  }

  /** Where the last component of an absolute path begins. */
  ghost function LastSlash(p: string): (k: nat)
    requires p != "" && p[0] == '/'
    ensures k < |p| && p[k] == '/' && '/' !in p[k + 1..]
  {
    if p[|p| - 1] == '/' then |p| - 1
    else
      var k := LastSlash(p[..|p| - 1]);
      assert p[k + 1..] == p[..|p| - 1][k + 1..] + [p[|p| - 1]];
      k
  }

  lemma TidyFront(p: string, k: nat)
    requires Tidy(p) && 0 < k < |p| && p[k] == '/'
    ensures Tidy(p[..k])
  {
    assert p[k - 1] != '/';
  }

  lemma RenderSnoc(cs: seq<string>, c: string)
    ensures Render(cs + [c]) == Render(cs) + "/" + c
  {
    assert (cs + [c])[..|cs|] == cs;
  }

  /** A tidy absolute path is the rendering of its components. */
  lemma {:induction false} TidyIsRender(p: string)
    requires Tidy(p) && p[0] == '/' && '\0' !in p
    ensures Render(Components(p)) == p
    decreases |p|
  {
    var k := LastSlash(p);
    var a, c := p[..k], p[k + 1..];
    assert p == a + "/" + c;
    ComponentsSlash(a, c);
    SingleComponent(c);
    RenderSnoc(Components(a), c);
    if k > 0 {
      TidyFront(p, k);
      TidyIsRender(a);
    }
  }

  /** Without dots a path is returned as it stands, so its result is normal exactly when it was tidy. */
  lemma CanonicalExactly(p: string)
    requires '\0' !in p && Realpath(p).Some?
    ensures Realpath(p) == Some(Normal(Location(p))) <==> Canonical(p)
  {
    if '.' !in p {
      DotlessIsPlain(p);
      var cs := Components(p);
      if Tidy(p) {
        TidyIsRender(p);
        EmptyRender(cs);
      } else if p == Normal(cs) && cs != [] {
        RenderTidy(cs);
      }
      if p == "/" { LeadingSlash(p); }
    }
  }

  /** Two paths have one result if and only if they lead to one place and are both canonical, or are the same. */
  lemma RealpathCanonical(p: string, q: string)
    requires '\0' !in p && '\0' !in q && Realpath(p).Some? && Realpath(q).Some?
    ensures Realpath(p) == Realpath(q) <==>
            Location(p) == Location(q) && ((Canonical(p) && Canonical(q)) || p == q)
  {
    RealpathSameLocation(p);
    RealpathSameLocation(q);
    CanonicalExactly(p);
    CanonicalExactly(q);
  }

  lemma DoubledSlash(a: string, b: string)
    ensures Components(a + "/" + "/" + b) == Components(a + "/" + b)
  {
    ComponentsSlash(a + "/", b);
    ComponentsSlash(a, "");
    ComponentsSlash(a, b);
    assert a + "/" + "" == a + "/" && Components(a) + Components("") == Components(a);
  }

  /** A doubled slash leads to the same place and is kept: one place, two results. */
  lemma SlashesKept(a: string, b: string)
    requires (a == "" || a[0] == '/') && '.' !in a && '.' !in b
    ensures var p, q := a + "/" + "/" + b, a + "/" + b;
            Location(p) == Location(q) && Realpath(p) == Some(p) && Realpath(q) == Some(q) && p != q
  {
    DoubledSlash(a, b);
    var p, q := a + "/" + "/" + b, a + "/" + b;
    assert p[0] == '/' && q[0] == '/' && '.' !in p && '.' !in q && |p| == |q| + 1;
  }

  // ---------- Joining a base directory and a relative path ----------

  function ConcatPaths(p1: string, p2: string): string {
    if p1 == "" then p2
    else if p2 == "" then p1
    else if p1[|p1| - 1] == '/' && p2[0] == '/' then p1 + p2[1..]
    else if p1[|p1| - 1] != '/' && p2[0] != '/' then p1 + "/" + p2
    else p1 + p2
  }

  lemma ConcatComponents(p1: string, p2: string)
    ensures Components(ConcatPaths(p1, p2)) == Components(p1) + Components(p2)
  {
    if p1 != "" && p2 != "" {
      if p1[|p1| - 1] == '/' { TrailingSlash(p1, p2); }
      if p2[0] == '/' {
        LeadingSlash(p2);
        if p1[|p1| - 1] == '/' {
          TrailingSlash(p1, p2[1..]);
        } else {
          assert p1 + p2 == p1 + "/" + p2[1..];
          ComponentsSlash(p1, p2[1..]);
        }
      } else if p1[|p1| - 1] != '/' {
        ComponentsSlash(p1, p2);
      }
    }
  }

  lemma TrailingSlash(p: string, q: string)
    requires p != "" && p[|p| - 1] == '/'
    ensures Components(p + q) == Components(p) + Components(q)
  {
    var front := p[..|p| - 1];
    CutSlash(p);
    ComponentsSlash(front, q);
    SlashInside(p, q);
  }

  lemma SlashInside(p: string, q: string)
    requires p != "" && p[|p| - 1] == '/'
    ensures p[..|p| - 1] + "/" + q == p + q
  {
    assert p == p[..|p| - 1] + "/";
  }

  /** Between two texts that are not empty stands exactly the one slash that separates them. */
  lemma OneSlash(p1: string, p2: string)
    requires p1 != "" && p2 != ""
    ensures var front := if p1[|p1| - 1] == '/' then p1[..|p1| - 1] else p1;
            var back := if p2[0] == '/' then p2[1..] else p2;
            ConcatPaths(p1, p2) == front + "/" + back
  {
    if p1[|p1| - 1] == '/' { SlashInside(p1, if p2[0] == '/' then p2[1..] else p2); }
    if p2[0] == '/' { assert p2 == "/" + p2[1..]; }
  }

  /** A relative path resolved against a base names where the walk leads from the base. */
  lemma RelativeResolution(base: string, rel: string)
    requires '\0' !in base && '\0' !in rel
    ensures Location(ConcatPaths(base, rel)) == Walk(Location(base), Components(rel))
    ensures var r := Realpath(ConcatPaths(base, rel));
            r.Some? ==> Location(r.value) == Walk(Location(base), Components(rel))
  {
    ConcatComponents(base, rel);
    WalkAppend([], Components(base), Components(rel));
    var p := ConcatPaths(base, rel);
    if Realpath(p).Some? { RealpathSameLocation(p); }
  }

  lemma ConcatFits(base: string, rel: string)
    requires base != "" && '\0' !in base && '\0' !in rel
    ensures var p := ConcatPaths(base, rel); '\0' !in p && |p| <= |base| + 1 + |rel| && p != "" && p[0] == base[0]
  {
  }

  /** It does resolve whenever the two together have fewer than 254 characters. */
  lemma RelativeResolves(base: string, rel: string)
    requires '\0' !in base && '\0' !in rel && base != "" && base[0] == '/' && |base| + |rel| < 254
    ensures Realpath(ConcatPaths(base, rel)).Some?
  {
    ConcatFits(base, rel);
    ShortPathsResolve(ConcatPaths(base, rel));
  }

  // ---------- The entries in place ----------

  datatype Entry = Entry(value: string, used: bool) {
    predicate IsDotDot() { value == ".." }
  }

  /** The values of the entries still in use, in order. */
  ghost function Kept(es: seq<Entry>): seq<string> {
    if es == [] then []
    else Kept(es[..|es| - 1]) + if es[|es| - 1].used then [es[|es| - 1].value] else []
  }

  /** The entries `splitPath` makes for a list of components: all in use. */
  ghost function Entries(cs: seq<string>): seq<Entry> {
    seq(|cs|, i requires 0 <= i < |cs| => Entry(cs[i], true))
  }

  lemma {:induction false} KeptNone(es: seq<Entry>)
    requires forall e | e in es :: !e.used
    ensures Kept(es) == []
  {
    if es != [] {
      assert es[|es| - 1] in es;
      KeptNone(es[..|es| - 1]);
    }
  }

  /** Clearing the last flag still set drops the last kept value. */
  lemma {:induction false} KeptDropLast(es: seq<Entry>, j: nat)
    requires j < |es| && es[j].used && (forall m | j < m < |es| :: !es[m].used)
    ensures Kept(es) != []
    ensures Kept(es[j := es[j].(used := false)]) == Kept(es)[..|Kept(es)| - 1]
  {
    var front := es[..|es| - 1];
    var es' := es[j := es[j].(used := false)];
    if j == |es| - 1 {
      assert es'[..|es| - 1] == front;
    } else {
      KeptDropLast(front, j);
      assert es'[..|es| - 1] == front[j := front[j].(used := false)];
    }
  }

  lemma {:induction false} NoDotsPrefix(cs: seq<string>, k: nat)
    requires k <= |cs|
    ensures |NoDots(cs[..k])| <= |NoDots(cs)|
  {
    if k < |cs| {
      NoDotsPrefix(cs[..|cs| - 1], k);
      assert cs[..|cs| - 1][..k] == cs[..k];
    } else {
      assert cs[..k] == cs;
    }
  }

  lemma CutSlash(s: string)
    requires s != "" && s[|s| - 1] == '/'
    ensures Components(s[..|s| - 1]) == Components(s)
  {
    assert s == s[..|s| - 1] + "/" + "";
    ComponentsSlash(s[..|s| - 1], "");
  }

  /** Taking one token off the text takes one component off the list. */
  lemma NextToken(all: seq<string>, k: nat, rest: string)
    requires k <= |all| && Components(rest) == all[k..] && SkipSlashes(rest) != ""
    ensures var t := SkipSlashes(rest);
            k < |all| && t[..TokenLength(t)] == all[k] && Components(t[TokenLength(t)..]) == all[k + 1..]
    ensures NoDots(all[..k + 1]) == NoDots(all[..k]) + if all[k] == "." then [] else [all[k]]
  {
    var t := SkipSlashes(rest);
    assert Components(rest) == [t[..TokenLength(t)]] + Components(t[TokenLength(t)..]);
    assert all[k..][0] == all[k] && all[k..][1..] == all[k + 1..];
    assert all[..k + 1][..k] == all[..k];
  }

  /** The `strtok_r` loop of `splitPath`: `rest` is what the tokenizer has not consumed. */
  method SplitComponents(buf: string, dest: array<Entry>) returns (ok: bool, destIdx: nat)
    requires dest.Length > 0
    modifies dest
    ensures ok <==> 1 + |NoDots(Components(buf))| <= dest.Length
    ensures dest[0] == old(dest[0])
    ensures ok ==> destIdx == 1 + |NoDots(Components(buf))|
    ensures ok ==> dest[1..destIdx] == Entries(NoDots(Components(buf)))
  {
    ghost var all, k := Components(buf), 0;
    destIdx := 1;
    var rest := buf;
    assert all[0..] == all && all[..0] == [];
    while SkipSlashes(rest) != ""
      invariant k <= |all| && Components(rest) == all[k..]
      invariant destIdx == 1 + |NoDots(all[..k])| <= dest.Length
      invariant dest[1..destIdx] == Entries(NoDots(all[..k])) && dest[0] == old(dest[0])
      decreases |rest|
    {
      NextToken(all, k, rest);
      var t := SkipSlashes(rest);
      var component := t[..TokenLength(t)];
      rest := t[TokenLength(t)..];
      k := k + 1;
      if component != "." {
        if destIdx >= dest.Length {
          NoDotsPrefix(all, k);
          return false, destIdx;
        }
        dest[destIdx] := Entry(component, true);
        destIdx := destIdx + 1;
      }
    }
    assert all[k..] == [] && all[..k] == all;
    return true, destIdx;
  }

  /** Fills the entries; entry 0 stands for the root and `num` counts the entries filled in. */
  method SplitPath(path: string, dest: array<Entry>) returns (ok: bool, num: nat)
    requires path != ""
    modifies dest
    ensures ok <==> path[0] == '/' && dest.Length > 0 &&
                    (path == "/" || 1 + |NoDots(Components(path))| <= dest.Length)
    ensures ok ==> num == if path == "/" then dest.Length else 1 + |NoDots(Components(path))|
    ensures ok ==> dest[0] == Entry("", true)
    ensures ok && path != "/" ==> dest[1..num] == Entries(NoDots(Components(path)))
  {
    num := dest.Length;
    if path[0] != '/' || num == 0 { return false, num; }
    forall i | 0 <= i < num { dest[i] := Entry("", false); }
    dest[0] := Entry("", true);
    if |path| == 1 { return true, num; }
    var buf := path[1..];
    LeadingSlash(path);
    if buf[|buf| - 1] == '/' {
      CutSlash(buf);
      buf := buf[..|buf| - 1];
    }
    ok, num := SplitComponents(buf, dest);
  }

  // ---------- The used-flags ----------

  /** The scan back from entry `i` for the nearest entry in use. */
  method ClearNearest(parts: array<Entry>, i: nat)
    requires 1 <= i < parts.Length
    requires forall m | 1 <= m < i && parts[m].IsDotDot() :: !parts[m].used
    modifies parts
    ensures forall m | m == 0 || i <= m < parts.Length :: parts[m] == old(parts[m])
    ensures forall m | 1 <= m < i && parts[m].IsDotDot() :: !parts[m].used
    ensures Kept(parts[1..i]) == Up(Kept(old(parts[1..i])))
  {
    var j := i - 1;
    while j >= 1
      invariant 0 <= j < i && parts[..] == old(parts[..])
      invariant forall m | j < m < i :: !parts[m].used
    {
      if parts[j].IsDotDot() || !parts[j].used {
        j := j - 1;
      } else {
        KeptDropLast(parts[1..i], j - 1);
        ghost var before := parts[1..i];
        parts[j] := parts[j].(used := false);
        assert parts[1..i] == before[j - 1 := before[j - 1].(used := false)];
        return;
      }
    }
    KeptNone(parts[1..i]);
  }

  /** One more component: its flag as `splitPath` set it, after the scan if it is `..`. */
  lemma KeptStep(es: seq<Entry>, e: Entry)
    ensures Kept(es + [e]) == if e.used then Kept(es) + [e.value] else Kept(es)
  {
    assert (es + [e])[..|es|] == es;
  }

  /** An entry `..` clears the nearest one and itself. */
  method ResolveDotDot(parts: array<Entry>, i: nat)
    requires 1 <= i < parts.Length && parts[i].IsDotDot()
    requires forall m | 1 <= m < i && parts[m].IsDotDot() :: !parts[m].used
    modifies parts
    ensures forall m | m == 0 || i < m < parts.Length :: parts[m] == old(parts[m])
    ensures forall m | 1 <= m <= i && parts[m].IsDotDot() :: !parts[m].used
    ensures Kept(parts[1..i + 1]) == Up(Kept(old(parts[1..i])))
  {
    ClearNearest(parts, i);
    ghost var front := parts[1..i];
    parts[i] := parts[i].(used := false);
    assert parts[1..i + 1] == front + [parts[i]];
    KeptStep(front, parts[i]);
  }

  /** One entry of the pass over the parts. */
  method ResolveOne(parts: array<Entry>, i: nat)
    requires 1 <= i < parts.Length && parts[i].used && parts[i].value != "."
    requires forall m | 1 <= m < i && parts[m].IsDotDot() :: !parts[m].used
    modifies parts
    ensures forall m | m == 0 || i < m < parts.Length :: parts[m] == old(parts[m])
    ensures forall m | 1 <= m <= i && parts[m].IsDotDot() :: !parts[m].used
    ensures Kept(parts[1..i + 1]) == Visit(Kept(old(parts[1..i])), old(parts[i].value))
  {
    if parts[i].IsDotDot() {
      ResolveDotDot(parts, i);
    } else {
      assert parts[1..i + 1] == parts[1..i] + [parts[i]];
      KeptStep(parts[1..i], parts[i]);
    }
  }

  /** The backward scans leave in use exactly the stack of the left-to-right walk. */
  method ResolveDotDots(parts: array<Entry>, num: nat, ghost cs: seq<string>)
    requires 1 <= num <= parts.Length && parts[0] == Entry("", true)
    requires parts[1..num] == Entries(cs) && "." !in cs
    modifies parts
    ensures parts[0] == old(parts[0]) && Kept(parts[1..num]) == Walk([], cs)
  {
    assert forall m | 1 <= m < num :: parts[m] == parts[1..num][m - 1];
    var i := 1;  // entry 0 is the empty string, never `..`
    while i < num
      invariant 1 <= i <= num && parts[0] == old(parts[0])
      invariant forall m | i <= m < num :: parts[m] == Entry(cs[m - 1], true)
      invariant forall m | 1 <= m < i && parts[m].IsDotDot() :: !parts[m].used
      invariant Kept(parts[1..i]) == Walk([], cs[..i - 1])
    {
      assert cs[..i][..i - 1] == cs[..i - 1];
      ResolveOne(parts, i);
      i := i + 1;
    }
    assert cs[..num - 1] == cs;
  }

  // ---------- The output buffer ----------

  ghost predicate ZeroFrom(a: array<char>, k: nat)
    reads a
  {
    forall i | k <= i < a.Length :: a[i] == '\0'
  }

  /** Writes one component behind the text so far. */
  method Append(dest: array<char>, idx: nat, value: string)
    requires idx + |value| + 1 < dest.Length && ZeroFrom(dest, idx + 1)
    modifies dest
    ensures dest[..idx + |value| + 1] == old(dest[..idx]) + "/" + value
    ensures ZeroFrom(dest, idx + |value| + 1)
  {
    dest[idx] := '/';
    for i := 0 to |value|
      invariant dest[..idx + 1 + i] == old(dest[..idx]) + "/" + value[..i]
      invariant ZeroFrom(dest, idx + 1 + i)
    {
      dest[idx + 1 + i] := value[i];
    }
  }

  /** The buffer holds a text and nothing behind it; an empty text shows as the root. */
  ghost predicate Holds(dest: array<char>, idx: nat, text: string)
    reads dest
  {
    && idx < dest.Length && dest[..idx] == text
    && if idx == 0 then dest[0] == '/' && ZeroFrom(dest, 1) else ZeroFrom(dest, idx)
  }

  method JoinEntry(entry: Entry, dest: array<char>, idx: nat, sizedest: nat, ghost text: string)
    returns (ok: bool, idx': nat)
    requires Holds(dest, idx, text) && idx < sizedest < dest.Length
    modifies dest
    ensures ok <==> !entry.used || |text| + |entry.value| + 1 < sizedest
    ensures ok ==> idx' < sizedest && Holds(dest, idx', if entry.used then text + "/" + entry.value else text)
  {
    if !entry.used { return true, idx; }
    if idx + |entry.value| + 1 >= sizedest { return false, idx; }
    Append(dest, idx, entry.value);
    return true, idx + |entry.value| + 1;
  }

  /** The text of the first `k` entries. */
  ghost function Text(es: seq<Entry>, k: nat): string
    requires k <= |es|
  {
    if k == 0 then "" else if es[k - 1].used then Text(es, k - 1) + "/" + es[k - 1].value else Text(es, k - 1)
  }

  lemma {:induction false} TextIsRender(es: seq<Entry>, k: nat)
    requires k <= |es|
    ensures Text(es, k) == Render(Kept(es[..k]))
  {
    if k > 0 {
      TextIsRender(es, k - 1);
      assert es[..k] == es[..k - 1] + [es[k - 1]];
      KeptStep(es[..k - 1], es[k - 1]);
      RenderSnoc(Kept(es[..k - 1]), es[k - 1].value);
    }
  }

  lemma {:induction false} TextGrows(es: seq<Entry>, k: nat, n: nat)
    requires k <= n <= |es|
    ensures |Text(es, k)| <= |Text(es, n)|
    decreases n - k
  {
    if k < n { TextGrows(es, k, n - 1); }
  }

  method Join(parts: array<Entry>, num: nat, dest: array<char>, sizedest: nat) returns (ok: bool, idx: nat)
    requires 1 <= num <= parts.Length && parts[0].used
    requires 0 < sizedest < dest.Length && ZeroFrom(dest, 0)
    modifies dest
    ensures ok <==> |Text(parts[1..num], num - 1)| < sizedest
    ensures ok ==> idx < sizedest && Holds(dest, idx, Text(parts[1..num], num - 1))
  {
    ghost var es := parts[1..num];
    idx := 0;
    dest[0] := '/';
    var i := 1;  // the first entry in use is the root, which writes nothing
    while i < num
      invariant 1 <= i <= num && idx < sizedest && parts[1..num] == es
      invariant Holds(dest, idx, Text(es, i - 1))
    {
      assert parts[i] == es[i - 1];
      ok, idx := JoinEntry(parts[i], dest, idx, sizedest, Text(es, i - 1));
      if !ok {
        TextGrows(es, i, num - 1);
        return;
      }
      i := i + 1;
    }
    ok := true;
  }

  /** What a reader finds in the buffer that `Join` leaves. */
  lemma BufferText(buffer: seq<char>, text: string, idx: nat)
    requires idx + 1 < |buffer| && buffer[..idx] == text && '\0' !in text
    requires if idx == 0 then buffer[0] == '/' && buffer[1] == '\0' else buffer[idx] == '\0'
    ensures CString(buffer, '\0') == if text == "" then "/" else text
  {
    var shown := if text == "" then "/" else text;
    assert buffer == shown + buffer[|shown|..];
    CStringOf(shown, buffer[|shown|..], '\0');
  }

  lemma HeldText(dest: array<char>, idx: nat, text: string)
    requires Holds(dest, idx, text) && idx + 1 < dest.Length && '\0' !in text
    ensures CString(dest[..], '\0') == if text == "" then "/" else text
  {
    assert dest[..][..idx] == dest[..idx];
    BufferText(dest[..], text, idx);
  }

  lemma {:induction false} NoDotsHasNone(cs: seq<string>)
    ensures "." !in NoDots(cs)
  {
    if cs != [] { NoDotsHasNone(cs[..|cs| - 1]); }
  }

  /** `mergePath` into a zeroed buffer of one byte more than the limit it is given. */
  method MergePath(parts: array<Entry>, num: nat, ghost cs: seq<string>) returns (text: Option<string>)
    requires 1 <= num <= parts.Length && parts[0] == Entry("", true)
    requires parts[1..num] == Entries(cs) && "." !in cs && '\0' !in Normal(Walk([], cs))
    modifies parts
    ensures text == if |Render(Walk([], cs))| < MAX_PATH then Some(Normal(Walk([], cs))) else None
  {
    ResolveDotDots(parts, num, cs);
    var dest := new char[MAX_PATH + 1](_ => '\0');
    ghost var es := parts[1..num];
    assert es[..num - 1] == es;
    TextIsRender(es, num - 1);
    var ok, idx := Join(parts, num, dest, MAX_PATH);
    if !ok { return None; }
    EmptyRender(Kept(es));
    HeldText(dest, idx, Render(Kept(es)));
    return Some(CString(dest[..], '\0'));
  }

  /** `doRealpath`: null is `None`. */
  method DoRealpath(path: string) returns (resolved: Option<string>)
    requires '\0' !in path
    ensures resolved == Realpath(path)
  {
    if path == "" { return None; }
    if path[0] == '/' && '.' !in path { return Some(path); }
    var entries := new Entry[MAX_PATH](_ => Entry("", false));
    var ok, num := SplitPath(path, entries);
    if !ok { return None; }
    NoDotsHasNone(Components(path));
    NoDotsSameWalk([], Components(path));
    NormalHasNoNul(path);
    resolved := MergePath(entries, num, NoDots(Components(path)));
  }

  lemma NormalHasNoNul(path: string)
    requires '\0' !in path
    ensures '\0' !in Normal(Location(path))
  {
    LocationIsPlain(path);
    RenderLength(Location(path));
  }
}
