// Lexical path handling: the part of the path jail that works on strings alone.
//
// A Go string is a sequence of bytes. Here it is a Dafny `string` in which the
// character of code c stands for the byte c, so |s| is Go's len(s).
//
// The operations follow Go's path/filepath on Unix. They are defined through
// the slash-separated components of a string, and the lemmas say what they do
// on canonical absolute paths, which are determined by their components.
module Paths {
  type Path = seq<string>

  // The path of the root directory's own page, and of a request without a path.
  const DEFAULT_BROWSE_PATH := "."

  // An ordinary component: a name the file system can hold in a directory.
  predicate Plain(c: string) {
    c != "" && c != "." && c != ".." && '/' !in c
  }

  predicate AllPlain(p: Path) {
    forall i :: 0 <= i < |p| ==> Plain(p[i])
  }

  predicate SlashFree(cs: seq<string>) {
    forall i :: 0 <= i < |cs| ==> '/' !in cs[i]
  }

  // strings.Split(s, "/")
  function Split(s: string): (cs: seq<string>)
    ensures |cs| >= 1 && SlashFree(cs)
  {
    if s == "" then [""] else Prepend(s[0], Split(s[1..]))
  }

  // The components of a string with one more character in front.
  function Prepend(c: char, cs: seq<string>): (r: seq<string>)
    requires cs != []
  {
    if c == '/' then [""] + cs else [[c] + cs[0]] + cs[1..]
  }

  // strings.Join(cs, "/")
  function Unsplit(cs: seq<string>): string {
    if cs == [] then "" else if |cs| == 1 then cs[0] else cs[0] + "/" + Unsplit(cs[1..])
  }

  predicate IsAbs(s: string) {
    s != "" && s[0] == '/'
  }

  // The string form of the canonical absolute path with these components.
  function Render(p: Path): (s: string)
    ensures IsAbs(s)
  {
    "/" + Unsplit(p)
  }

  // Walks the components `todo` lexically from the absolute directory `at`.
  function Normalize(at: Path, todo: seq<string>): (p: Path)
    requires AllPlain(at) && SlashFree(todo)
    ensures AllPlain(p)
    decreases |todo|
  {
    if todo == [] then at
    else if todo[0] == "" || todo[0] == "." then Normalize(at, todo[1..])
    else if todo[0] == ".." then Normalize(Parent(at), todo[1..])
    else Normalize(at + [todo[0]], todo[1..])
  }

  // The directory above; the root is its own parent.
  function Parent(p: Path): Path {
    if p == [] then [] else p[..|p| - 1]
  }

  predicate Climbs(p: seq<string>) {
    forall i :: 0 <= i < |p| ==> p[i] == ".."
  }

  // Cleaned relative paths: some ".." components followed by ordinary ones.
  function CleanRelative(ups: nat, names: Path, todo: seq<string>): (r: (nat, Path))
    requires AllPlain(names) && SlashFree(todo)
    ensures AllPlain(r.1)
    decreases |todo|
  {
    if todo == [] then (ups, names)
    else if todo[0] == "" || todo[0] == "." then CleanRelative(ups, names, todo[1..])
    else if todo[0] == ".." then
      if names == [] then CleanRelative(ups + 1, names, todo[1..])
      else CleanRelative(ups, Parent(names), todo[1..])
    else CleanRelative(ups, names + [todo[0]], todo[1..])
  }

  function Dots(n: nat): (d: seq<string>)
    ensures |d| == n && Climbs(d) && SlashFree(d)
  {
    seq(n, i => "..")
  }

  // filepath.Clean
  function Clean(s: string): string {
    if IsAbs(s) then Render(Normalize([], Split(s)))
    else
      var (ups, names) := CleanRelative(0, [], Split(s));
      if ups == 0 && names == [] then "." else Unsplit(Dots(ups) + names)
  }

  // filepath.Join with two elements
  function Join(a: string, b: string): string {
    if a != "" then Clean(a + "/" + b) else if b != "" then Clean(b) else ""
  }

  // filepath.Abs in the working directory cwd
  function Abs(cwd: string, s: string): (r: string)
    requires IsAbs(cwd)
    ensures IsAbs(r)
  {
    if IsAbs(s) then Clean(s) else Join(cwd, s)
  }

  // filepath.Dir: everything up to the last slash, cleaned
  function DirOf(s: string): string {
    var cs := Split(s);
    Clean(Unsplit(cs[..|cs| - 1] + [""]))
  }

  function LastNonEmpty(cs: seq<string>): string {
    if cs == [] then "" else if cs[|cs| - 1] != "" then cs[|cs| - 1] else LastNonEmpty(cs[..|cs| - 1])
  }

  // filepath.Base: the last component, trailing slashes ignored
  function Base(s: string): string {
    if s == "" then "." else
      var c := LastNonEmpty(Split(s));
      if c == "" then "/" else c
  }

  // strings.HasPrefix
  predicate HasPrefix(s: string, prefix: string) {
    prefix <= s
  }

  predicate IsWithinRoot(path: string, root: string) {
    path == root || HasPrefix(path, root + "/")
  }

  // ---- Splitting and joining ----

  lemma UnsplitPrepend(c: char, cs: seq<string>)
    requires cs != []
    ensures Unsplit(Prepend(c, cs)) == [c] + Unsplit(cs)
  {
    var r := Prepend(c, cs);
    if c == '/' {
      assert r[1..] == cs;
    } else {
      assert r[1..] == cs[1..];
      if |cs| > 1 {
        assert [c] + cs[0] + "/" + Unsplit(cs[1..]) == [c] + (cs[0] + "/" + Unsplit(cs[1..]));
      }
    }
  }

  lemma {:induction false} UnsplitSplit(s: string)
    ensures Unsplit(Split(s)) == s
  {
    if s != "" {
      UnsplitSplit(s[1..]);
      UnsplitPrepend(s[0], Split(s[1..]));
    }
  }

  lemma {:induction false} SplitConcat(a: string, b: string)
    ensures Split(a + "/" + b) == Split(a) + Split(b)
  {
    var ab := a + "/" + b;
    if a == "" {
      assert ab[1..] == b;
    } else {
      SplitConcat(a[1..], b);
      assert ab[0] == a[0] && ab[1..] == a[1..] + "/" + b;
      PrependConcat(a[0], Split(a[1..]), Split(b));
    }
  }

  lemma PrependConcat(c: char, x: seq<string>, y: seq<string>)
    requires x != []
    ensures Prepend(c, x + y) == Prepend(c, x) + y
  {
    assert (x + y)[1..] == x[1..] + y;
  }

  lemma {:induction false} SplitSlashFree(c: string)
    requires '/' !in c
    ensures Split(c) == [c]
  {
    if c != "" {
      SplitSlashFree(c[1..]);
      assert [c[0]] + c[1..] == c;
    }
  }

  lemma {:induction false} SplitUnsplit(cs: seq<string>)
    requires cs != [] && SlashFree(cs)
    ensures Split(Unsplit(cs)) == cs
  {
    SplitSlashFree(cs[0]);
    if |cs| > 1 {
      SplitUnsplit(cs[1..]);
      SplitConcat(cs[0], Unsplit(cs[1..]));
      assert [cs[0]] + cs[1..] == cs;
    }
  }

  // ---- Canonical paths ----

  lemma {:induction false} SplitRender(p: Path)
    requires AllPlain(p)
    ensures Split(Render(p)) == [""] + (if p == [] then [""] else p)
  {
    assert Render(p)[1..] == Unsplit(p);
    if p != [] {
      SplitUnsplit(p);
    }
  }

  lemma {:induction false} NormalizePlain(at: Path, p: Path)
    requires AllPlain(at) && AllPlain(p)
    ensures Normalize(at, p) == at + p
    decreases |p|
  {
    if p != [] {
      NormalizePlain(at + [p[0]], p[1..]);
      assert at + [p[0]] + p[1..] == at + p;
    } else {
      assert at + p == at;
    }
  }

  lemma {:induction false} NormalizeConcat(at: Path, xs: seq<string>, ys: seq<string>)
    requires AllPlain(at) && SlashFree(xs) && SlashFree(ys)
    ensures SlashFree(xs + ys)
    ensures Normalize(at, xs + ys) == Normalize(Normalize(at, xs), ys)
    decreases |xs|
  {
    if xs == [] {
      assert xs + ys == ys;
    } else {
      assert (xs + ys)[1..] == xs[1..] + ys;
      var at' := if xs[0] == "" || xs[0] == "." then at
                 else if xs[0] == ".." then Parent(at) else at + [xs[0]];
      NormalizeConcat(at', xs[1..], ys);
    }
  }

  // A canonical path is recovered from its string.
  // What one component does to the place that is reached. With NormalizeConcat this
  // says where any components lead.
  lemma LexicalStep(at: Path, c: string)
    requires AllPlain(at) && '/' !in c
    ensures Normalize(at, [c]) == if c == "" || c == "." then at
                                  else if c == ".." then (if at == [] then [] else at[..|at| - 1])
                                  else at + [c]
  {
    assert [c][1..] == [];
  }

  lemma RenderInjective(p: Path, q: Path)
    requires AllPlain(p) && AllPlain(q) && Render(p) == Render(q)
    ensures p == q
  {
    SplitRender(p);
    SplitRender(q);
    assert p != [] ==> p == Split(Render(p))[1..] && Plain(p[0]);
    assert q != [] ==> q == Split(Render(q))[1..] && Plain(q[0]);
  }

  lemma CleanRender(p: Path)
    requires AllPlain(p)
    ensures Clean(Render(p)) == Render(p)
  {
    SplitRender(p);
    if p == [] {
      var cs := ["", ""];
      assert Split(Render(p)) == cs && cs[1..] == [""] && [""][1..] == [];
      assert Normalize([], cs) == Normalize([], [""]) == [];
    } else {
      assert (([""] + p))[1..] == p;
      NormalizePlain([], p);
      assert [] + p == p;
    }
  }

  // Cleaning twice is cleaning once.
  lemma CleanIdempotent(s: string)
    ensures Clean(Clean(s)) == Clean(s)
  {
    if IsAbs(s) {
      CleanRender(Normalize([], Split(s)));
    } else {
      CleanRelativeFixed(s);
    }
  }

  lemma CleanRelativeFixed(s: string)
    requires !IsAbs(s)
    ensures !IsAbs(Clean(s))
    ensures CleanRelative(0, [], Split(Clean(s))) == CleanRelative(0, [], Split(s))
    ensures Clean(Clean(s)) == Clean(s)
  {
    var (ups, names) := CleanRelative(0, [], Split(s));
    if ups == 0 && names == [] {
      assert Clean(s) == ".";
      assert Split(".") == ["."] by { SplitUnsplit(["."]); }
    } else {
      var cs := Dots(ups) + names;
      SplitUnsplit(cs);
      assert cs[0] != "" && cs[0][0] != '/';
      assert Unsplit(cs)[0] == cs[0][0];
      CleanRelativeDots(ups, names);
    }
  }

  lemma {:induction false} CleanRelativeDots(ups: nat, names: Path)
    requires AllPlain(names)
    ensures SlashFree(Dots(ups) + names)
    ensures CleanRelative(0, [], Dots(ups) + names) == (ups, names)
  {
    CleanRelativeDotsFrom(0, ups, names);
  }

  lemma {:induction false} CleanRelativeDotsFrom(done: nat, ups: nat, names: Path)
    requires AllPlain(names)
    ensures CleanRelative(done, [], Dots(ups) + names) == (done + ups, names)
    decreases ups
  {
    if ups == 0 {
      assert Dots(ups) + names == names;
      CleanRelativePlain(done, [], names);
    } else {
      assert (Dots(ups) + names)[1..] == Dots(ups - 1) + names;
      CleanRelativeDotsFrom(done + 1, ups - 1, names);
    }
  }

  lemma {:induction false} CleanRelativePlain(ups: nat, pre: Path, names: Path)
    requires AllPlain(pre) && AllPlain(names)
    ensures CleanRelative(ups, pre, names) == (ups, pre + names)
    decreases |names|
  {
    if names == [] {
      assert pre + names == pre;
    } else {
      CleanRelativePlain(ups, pre + [names[0]], names[1..]);
      assert pre + [names[0]] + names[1..] == pre + names;
    }
  }

  // ---- Joining a request to a root ----

  // How many components of a directory are left after climbing `ups` levels.
  function Kept(p: Path, ups: nat): nat {
    if ups <= |p| then |p| - ups else 0
  }

  lemma ParentOfConcat(p: Path, q: Path)
    requires q != []
    ensures Parent(p + q) == p + Parent(q)
  {
  }

  lemma OneMoreName(p: Path, q: Path, name: string)
    ensures (p + q) + [name] == p + (q + [name])
  {
  }

  lemma KeptParent(p: Path, ups: nat, none: Path)
    requires none == []
    ensures Parent(p[..Kept(p, ups)] + none) == p[..Kept(p, ups + 1)] + none
  {
    assert p[..Kept(p, ups)] + none == p[..Kept(p, ups)];
    assert p[..Kept(p, ups + 1)] + none == p[..Kept(p, ups + 1)];
  }

  // Walking a relative path from `at` climbs and descends as its cleaned form says.
  lemma {:induction false} NormalizeByCleaning(at: Path, ups: nat, names: Path, todo: seq<string>)
    requires AllPlain(at) && AllPlain(names) && SlashFree(todo)
    ensures var r := CleanRelative(ups, names, todo);
            Normalize(at[..Kept(at, ups)] + names, todo) == at[..Kept(at, r.0)] + r.1
    decreases |todo|
  {
    if todo == [] {
    } else if todo[0] == "" || todo[0] == "." {
      NormalizeByCleaning(at, ups, names, todo[1..]);
    } else if todo[0] == ".." && names == [] {
      NormalizeByCleaning(at, ups + 1, names, todo[1..]);
      KeptParent(at, ups, names);
    } else if todo[0] == ".." {
      NormalizeByCleaning(at, ups, Parent(names), todo[1..]);
      ParentOfConcat(at[..Kept(at, ups)], names);
    } else {
      NormalizeByCleaning(at, ups, names + [todo[0]], todo[1..]);
      OneMoreName(at[..Kept(at, ups)], names, todo[0]);
    }
  }

  lemma NormalizeRequest(r: Path, req: string)
    requires AllPlain(r)
    ensures var (ups, names) := CleanRelative(0, [], Split(req));
            Normalize(r, Split(req)) == r[..Kept(r, ups)] + names
  {
    NormalizeByCleaning(r, 0, [], Split(req));
    assert r[..Kept(r, 0)] + [] == r;
  }

  // Climbing some levels and going down by names; the root is its own parent.
  lemma NormalizeUpDown(at: Path, ups: nat, names: Path)
    requires AllPlain(at) && AllPlain(names)
    ensures SlashFree(Dots(ups) + names)
    ensures Normalize(at, Dots(ups) + names) == (if ups <= |at| then at[..|at| - ups] else []) + names
  {
    CleanRelativeDots(ups, names);
    NormalizeByCleaning(at, 0, [], Dots(ups) + names);
    assert at[..Kept(at, 0)] + [] == at;
  }

  lemma NormalizeClean(r: Path, req: string)
    requires AllPlain(r) && !IsAbs(req)
    ensures Normalize(r, Split(Clean(req))) == Normalize(r, Split(req))
  {
    CleanRelativeFixed(req);
    NormalizeRequest(r, req);
    NormalizeRequest(r, Clean(req));
  }

  lemma NormalizeRender(r: Path)
    requires AllPlain(r)
    ensures Normalize([], Split(Render(r))) == r
  {
    SplitRender(r);
    if r == [] {
      assert Split(Render(r)) == ["", ""] && ["", ""][1..] == [""] && [""][1..] == [];
    } else {
      assert ([""] + r)[1..] == r;
      NormalizePlain([], r);
      assert [] + r == r;
    }
  }

  // Joining a relative request to a canonical root walks the request's
  // components from the root, whatever dots and slashes it contains.
  lemma JoinRoot(r: Path, req: string)
    requires AllPlain(r) && !IsAbs(req)
    ensures Join(Render(r), Clean(req)) == Render(Normalize(r, Split(req)))
  {
    var c := Clean(req);
    var s := Render(r) + "/" + c;
    assert IsAbs(s);
    SplitConcat(Render(r), c);
    NormalizeConcat([], Split(Render(r)), Split(c));
    NormalizeRender(r);
    NormalizeClean(r, req);
  }

  // Joining several names at once extends its components by those names.
  lemma JoinNames(r: Path, rel: string, names: Path)
    requires AllPlain(r) && !IsAbs(rel) && AllPlain(names) && names != []
    ensures !IsAbs(Join(rel, Unsplit(names)))
    ensures Normalize(r, Split(Join(rel, Unsplit(names)))) == Normalize(r, Split(rel)) + names
  {
    var at, below := Normalize(r, Split(rel)), Unsplit(names);
    SplitUnsplit(names);
    NormalizePlain(at, names);
    assert Plain(names[0]) && below[0] == names[0][0];
    if rel == "" {
      NormalizeClean(r, below);
      CleanRelativeFixed(below);
      assert Normalize(r, [""]) == r;
    } else {
      var s := rel + "/" + below;
      assert !IsAbs(s);
      SplitConcat(rel, below);
      NormalizeConcat(r, Split(rel), Split(below));
      NormalizeClean(r, s);
      CleanRelativeFixed(s);
    }
  }

  // Joining a name to a relative path extends its components by that name.
  lemma JoinName(r: Path, rel: string, name: string)
    requires AllPlain(r) && !IsAbs(rel) && Plain(name)
    ensures !IsAbs(Join(rel, name))
    ensures Normalize(r, Split(Join(rel, name))) == Normalize(r, Split(rel)) + [name]
  {
    JoinNames(r, rel, [name]);
  }

  // ---- DirOf and Base on canonical paths ----

  lemma DirOfRender(p: Path)
    requires AllPlain(p)
    ensures DirOf(Render(p)) == Render(Parent(p))
    ensures p != [] ==> Base(Render(p)) == p[|p| - 1]
  {
    SplitRender(p);
    CutLast(p);
    SplitUnsplit([""] + (Parent(p) + [""]));
    NormalizeSlashed(Parent(p));
  }

  // The components of a path without the last.
  lemma CutLast(p: Path)
    ensures var cs := [""] + (if p == [] then [""] else p);
            cs[..|cs| - 1] + [""] == [""] + (Parent(p) + [""])
  {
    if p != [] {
      assert ([""] + p)[..|p|] == [""] + p[..|p| - 1];
    }
  }

  // Slashes around a path do not change where it leads.
  lemma NormalizeSlashed(p: Path)
    requires AllPlain(p)
    ensures Normalize([], [""] + (p + [""])) == p
  {
    assert ([""] + (p + [""]))[1..] == p + [""];
    NormalizeConcat([], p, [""]);
    NormalizePlain([], p);
    assert [] + p == p;
    NormalizeEmpty(p);
  }

  lemma NormalizeEmpty(p: Path)
    requires AllPlain(p)
    ensures Normalize(p, [""]) == p
  {
    assert [""][1..] == [];
  }

  // ---- The separator-aware prefix test ----

  // The string test accepts exactly the paths below the root, component by
  // component. The root "/" is the exception: there it accepts "/" alone,
  // because it looks for the prefix "//".
  lemma WithinRootIsComponentPrefix(p: Path, r: Path)
    requires AllPlain(p) && AllPlain(r)
    ensures IsWithinRoot(Render(p), Render(r)) <==> Within(p, r)
  {
    if HasPrefix(Render(p), Render(r) + "/") {
      PrefixGivesComponents(p, r);
    }
    if Within(p, r) && p != r {
      UnsplitConcat(r, p[|r|..]);
      assert p == r + p[|r|..];
    }
    if Render(p) == Render(r) {
      RenderInjective(p, r);
    }
  }

  lemma DropFirst(a: string, xs: seq<string>, ys: seq<string>, zs: seq<string>)
    requires [a] + xs == ([a] + ys) + zs
    ensures xs == ys + zs
  {
    assert ([a] + xs)[1..] == xs && (([a] + ys) + zs)[1..] == ys + zs;
  }

  // A path whose components go on after r's has r as a proper prefix, and r is
  // not "/", whose one component is empty.
  lemma LongerStart(p: Path, r: Path, more: seq<string>)
    requires AllPlain(p) && more != []
    requires (if p == [] then [""] else p) == (if r == [] then [""] else r) + more
    ensures r != [] && r <= p
  {
    assert p != [] && Plain(p[0]);
  }

  lemma AfterPrefix(s: string, prefix: string) returns (x: string)
    requires HasPrefix(s, prefix + "/")
    ensures s == prefix + "/" + x
  {
    x := s[|prefix| + 1..];
  }

  lemma PrefixGivesComponents(p: Path, r: Path)
    requires AllPlain(p) && AllPlain(r) && HasPrefix(Render(p), Render(r) + "/")
    ensures r != [] && r <= p
  {
    var x := AfterPrefix(Render(p), Render(r));
    SplitConcat(Render(r), x);
    SplitRender(p);
    SplitRender(r);
    DropFirst("", if p == [] then [""] else p, if r == [] then [""] else r, Split(x));
    LongerStart(p, r, Split(x));
  }

  // What isWithinRoot decides, on components.
  predicate Within(p: Path, r: Path) {
    r <= p && (r != [] || p == [])
  }

  lemma {:induction false} UnsplitConcat(a: seq<string>, b: seq<string>)
    requires a != [] && b != []
    ensures Unsplit(a + b) == Unsplit(a) + "/" + Unsplit(b)
  {
    if |a| == 1 {
      assert (a + b)[1..] == b;
    } else {
      UnsplitConcat(a[1..], b);
      assert (a + b)[1..] == a[1..] + b;
    }
  }

  // The prefix test refuses the files of a server rooted at "/".
  lemma RootSlashRefusesItsFiles()
    ensures !IsWithinRoot(Render(["etc"]), Render([]))
  {
    WithinRootIsComponentPrefix(["etc"], []);
  }

  // Which requests the lexical check lets through. A cleaned request climbs
  // `ups` levels and then descends through `names`; it stays in the jail
  // exactly when the descent starts by retracing the levels it climbed.
  lemma LexicalAcceptance(r: Path, req: string)
    requires AllPlain(r) && r != [] && !IsAbs(req)
    ensures var (ups, names) := CleanRelative(0, [], Split(req));
            IsWithinRoot(Join(Render(r), Clean(req)), Render(r)) <==> r[Kept(r, ups)..] <= names
  {
    var (ups, names) := CleanRelative(0, [], Split(req));
    JoinRoot(r, req);
    NormalizeRequest(r, req);
    WithinRootIsComponentPrefix(r[..Kept(r, ups)] + names, r);
    PrefixAfterSplice(r, Kept(r, ups), names);
  }

  lemma PrefixAfterSplice(r: Path, k: nat, names: Path)
    requires k <= |r|
    ensures r <= r[..k] + names <==> r[k..] <= names
  {
    var p := r[..k] + names;
    if r[k..] <= names {
      assert p[..|r|] == r[..k] + r[k..] == r;
    }
    if r <= p {
      assert names[..|r| - k] == p[k..|r|] == r[k..];
    }
  }

  // ---- Null bytes ----

  predicate NulFree(cs: seq<string>) {
    forall i :: 0 <= i < |cs| ==> '\0' !in cs[i]
  }

  lemma {:induction false} SplitNulFree(s: string)
    requires '\0' !in s
    ensures NulFree(Split(s))
  {
    if s != "" {
      SplitNulFree(s[1..]);
    }
  }

  lemma {:induction false} UnsplitNulFree(cs: seq<string>)
    requires NulFree(cs)
    ensures '\0' !in Unsplit(cs)
  {
    if |cs| > 1 {
      UnsplitNulFree(cs[1..]);
    }
  }

  lemma {:induction false} CleanRelativeNulFree(ups: nat, names: Path, todo: seq<string>)
    requires AllPlain(names) && SlashFree(todo) && NulFree(names) && NulFree(todo)
    ensures NulFree(CleanRelative(ups, names, todo).1)
    decreases |todo|
  {
    if todo != [] {
      if todo[0] == "" || todo[0] == "." {
        CleanRelativeNulFree(ups, names, todo[1..]);
      } else if todo[0] == ".." && names == [] {
        CleanRelativeNulFree(ups + 1, names, todo[1..]);
      } else if todo[0] == ".." {
        CleanRelativeNulFree(ups, Parent(names), todo[1..]);
      } else {
        CleanRelativeNulFree(ups, names + [todo[0]], todo[1..]);
      }
    }
  }

  // Joining relative paths brings in no null bytes.
  lemma JoinNulFree(a: string, b: string)
    requires !IsAbs(a) && !IsAbs(b) && '\0' !in a && '\0' !in b
    ensures '\0' !in Join(a, b)
  {
    CleanNulFree(b);
    if a != "" {
      CleanNulFree(a + "/" + b);
    }
  }

  lemma CleanNulFree(s: string)
    requires !IsAbs(s) && '\0' !in s
    ensures '\0' !in Clean(s)
  {
    SplitNulFree(s);
    CleanRelativeNulFree(0, [], Split(s));
    var (ups, names) := CleanRelative(0, [], Split(s));
    UnsplitNulFree(Dots(ups) + names);
  }
}
