// An abstract file system and the resolution of symbolic links in it, in the
// style of section 4.13 of POSIX.1-2017 (Pathname Resolution).
module FileTree {
  import opened Paths
  import opened Errors

  datatype Inode =
    | Dir(entries: map<string, Inode>)
    | File(data: seq<bv8>)
    | Link(target: string)


  // The inode at a path, following no links.
  function Lookup(t: Inode, p: Path): Option<Inode> {
    if p == [] then Some(t)
    else if t.Dir? && p[0] in t.entries then Lookup(t.entries[p[0]], p[1..])
    else None
  }

  predicate Exists(t: Inode, p: Path) {
    Lookup(t, p).Some?
  }

  predicate IsDir(t: Inode, p: Path) {
    Lookup(t, p).Some? && Lookup(t, p).value.Dir?
  }

  predicate IsLink(t: Inode, p: Path) {
    Lookup(t, p).Some? && Lookup(t, p).value.Link?
  }

  // A path with no symbolic link on it, to something that exists.
  predicate Canonical(t: Inode, p: Path) {
    AllPlain(p) && Exists(t, p) && !IsLink(t, p)
  }

  // The result of resolving a path. `left` is the number of links that may
  // still be followed.
  datatype Outcome =
    | Found(path: Path, left: nat)
    | NotExist
    | NotDirectory
    | TooManyLinks

  // Resolves the components `todo` one by one from the directory `at`,
  // following at most `links` symbolic links.
  function Walk(t: Inode, at: Path, todo: seq<string>, links: nat): (r: Outcome)
    decreases links, |todo|
  {
    if todo == [] then Found(at, links)
    else if todo[0] == "" || todo[0] == "." then Walk(t, at, todo[1..], links)
    else if todo[0] == ".." then Walk(t, Parent(at), todo[1..], links)
    else
      match Lookup(t, at + [todo[0]])
      case None => NotExist
      case Some(Dir(_)) => Walk(t, at + [todo[0]], todo[1..], links)
      case Some(File(_)) => if |todo| > 1 then NotDirectory else Found(at + [todo[0]], links)
      case Some(Link(target)) =>
        if links == 0 then TooManyLinks
        else Walk(t, if IsAbs(target) then [] else at, Split(target) + todo[1..], links - 1)
  }

  // filepath.EvalSymlinks gives up after 255 links, the kernel after 40.
  const EVAL_LINKS: nat := 255
  const KERNEL_LINKS: nat := 40

  function Resolve(t: Inode, p: Path): Outcome {
    Walk(t, [], p, EVAL_LINKS)
  }

  // filepath.EvalSymlinks on an absolute path
  function EvalSymlinks(t: Inode, s: string): Outcome
    requires IsAbs(s)
  {
    Walk(t, [], Split(s), EVAL_LINKS)
  }

  // os.Stat on a canonical path string
  function Stat(t: Inode, p: Path): Outcome {
    Walk(t, [], p, KERNEL_LINKS)
  }

  // ---- Lookup ----

  lemma {:induction false} LookupConcat(t: Inode, p: Path, q: Path)
    ensures Lookup(t, p + q) ==
            match Lookup(t, p) case Some(n) => Lookup(n, q) case None => None
  {
    if p == [] {
      assert p + q == q;
    } else {
      assert (p + q)[1..] == p[1..] + q;
      if t.Dir? && p[0] in t.entries {
        LookupConcat(t.entries[p[0]], p[1..], q);
      }
    }
  }

  lemma LookupChild(t: Inode, p: Path, name: string)
    ensures Exists(t, p + [name]) ==> IsDir(t, p)
    ensures IsDir(t, p) ==>
      Lookup(t, p + [name]) == var m := Lookup(t, p).value.entries;
                               if name in m then Some(m[name]) else None
  {
    LookupConcat(t, p, [name]);
    if IsDir(t, p) {
      var d := Lookup(t, p).value;
      if name in d.entries {
        assert Lookup(d.entries[name], [name][1..]) == Some(d.entries[name]);
      }
    }
  }

  // Everything above something that exists is a directory.
  lemma AncestorIsDir(t: Inode, p: Path, k: nat)
    requires Exists(t, p) && k < |p|
    ensures IsDir(t, p[..k])
  {
    assert p == p[..k] + p[k..];
    LookupConcat(t, p[..k], p[k..]);
  }

  lemma ParentIsDir(t: Inode, p: Path)
    requires IsDir(t, p)
    ensures IsDir(t, Parent(p))
  {
    if p != [] {
      AncestorIsDir(t, p, |p| - 1);
    }
  }

  // ---- Resolution ----

  // A resolved path is canonical: resolution never stops on a link.
  lemma {:induction false} WalkFindsCanonical(t: Inode, at: Path, todo: seq<string>, links: nat)
    requires IsDir(t, at) && AllPlain(at) && SlashFree(todo)
    ensures Walk(t, at, todo, links).Found? ==>
      Canonical(t, Walk(t, at, todo, links).path) && Walk(t, at, todo, links).left <= links
    decreases links, |todo|
  {
    if todo == [] {
    } else if todo[0] == "" || todo[0] == "." {
      WalkFindsCanonical(t, at, todo[1..], links);
    } else if todo[0] == ".." {
      ParentIsDir(t, at);
      WalkFindsCanonical(t, Parent(at), todo[1..], links);
    } else {
      match Lookup(t, at + [todo[0]])
      case None =>
      case Some(Dir(_)) => WalkFindsCanonical(t, at + [todo[0]], todo[1..], links);
      case Some(File(_)) =>
      case Some(Link(target)) =>
        if links > 0 {
          WalkFindsCanonical(t, if IsAbs(target) then [] else at, Split(target) + todo[1..], links - 1);
        }
    }
  }

  // Resolving further components from where a resolution ended.
  function Onward(t: Inode, r: Outcome, ys: seq<string>): Outcome {
    if !r.Found? then r else if IsDir(t, r.path) then Walk(t, r.path, ys, r.left) else NotDirectory
  }

  // Resolution is compositional: resolving xs and then ys from where xs leads
  // is resolving xs + ys, and the links followed add up.
  lemma {:induction false} WalkConcat(t: Inode, at: Path, xs: seq<string>, ys: seq<string>, links: nat)
    requires IsDir(t, at) && AllPlain(at) && SlashFree(xs) && ys != []
    ensures Walk(t, at, xs + ys, links) == Onward(t, Walk(t, at, xs, links), ys)
    decreases links, |xs|
  {
    if xs == [] {
      assert xs + ys == ys;
    } else {
      assert (xs + ys)[0] == xs[0] && (xs + ys)[1..] == xs[1..] + ys;
      if xs[0] == "" || xs[0] == "." {
        WalkConcat(t, at, xs[1..], ys, links);
      } else if xs[0] == ".." {
        ParentIsDir(t, at);
        WalkConcat(t, Parent(at), xs[1..], ys, links);
      } else {
        match Lookup(t, at + [xs[0]])
        case None =>
        case Some(Dir(_)) => WalkConcat(t, at + [xs[0]], xs[1..], ys, links);
        case Some(File(_)) =>
        case Some(Link(target)) =>
          if links > 0 {
            WalkConcat(t, if IsAbs(target) then [] else at, Split(target) + xs[1..], ys, links - 1);
            assert Split(target) + xs[1..] + ys == Split(target) + (xs[1..] + ys);
          }
      }
    }
  }

  // A larger budget changes nothing but the failures for too many links.
  lemma {:induction false} WalkMoreLinks(t: Inode, at: Path, todo: seq<string>, links: nat, extra: nat)
    ensures match Walk(t, at, todo, links)
            case Found(p, left) => Walk(t, at, todo, links + extra) == Found(p, left + extra)
            case TooManyLinks => true
            case failed => Walk(t, at, todo, links + extra) == failed
    decreases links, |todo|
  {
    if todo == [] {
    } else if todo[0] == "" || todo[0] == "." {
      WalkMoreLinks(t, at, todo[1..], links, extra);
    } else if todo[0] == ".." {
      WalkMoreLinks(t, Parent(at), todo[1..], links, extra);
    } else {
      match Lookup(t, at + [todo[0]])
      case None =>
      case Some(Dir(_)) => WalkMoreLinks(t, at + [todo[0]], todo[1..], links, extra);
      case Some(File(_)) =>
      case Some(Link(target)) =>
        if links > 0 {
          WalkMoreLinks(t, if IsAbs(target) then [] else at, Split(target) + todo[1..], links - 1, extra);
        }
    }
  }

  // A canonical path resolves to itself without following any link.
  lemma {:induction false} WalkCanonicalFrom(t: Inode, at: Path, rest: Path, links: nat)
    requires Canonical(t, at + rest) && AllPlain(rest)
    ensures Walk(t, at, rest, links) == Found(at + rest, links)
    decreases |rest|
  {
    if rest == [] {
      assert at + rest == at;
    } else {
      var next := at + [rest[0]];
      assert next + rest[1..] == at + rest;
      if |rest| > 1 {
        AncestorIsDir(t, at + rest, |next|);
        assert (at + rest)[..|next|] == next;
      } else {
        assert next == at + rest;
      }
      if IsDir(t, next) {
        WalkCanonicalFrom(t, next, rest[1..], links);
      }
    }
  }

  lemma WalkCanonical(t: Inode, p: Path, links: nat)
    requires Canonical(t, p)
    ensures Walk(t, [], p, links) == Found(p, links)
  {
    assert [] + p == p;
    WalkCanonicalFrom(t, [], p, links);
  }

  // What resolution finds, resolution leaves alone.
  lemma ResolveIdempotent(t: Inode, p: Path)
    requires t.Dir? && SlashFree(p) && Resolve(t, p).Found?
    ensures Resolve(t, Resolve(t, p).path) == Found(Resolve(t, p).path, EVAL_LINKS)
    ensures Canonical(t, Resolve(t, p).path)
  {
    WalkFindsCanonical(t, [], p, EVAL_LINKS);
    WalkCanonical(t, Resolve(t, p).path, EVAL_LINKS);
  }

  // On canonical strings EvalSymlinks is resolution of the components.
  lemma EvalSymlinksRender(t: Inode, p: Path)
    requires AllPlain(p)
    ensures EvalSymlinks(t, Render(p)) == Resolve(t, p)
  {
    SplitRender(p);
    assert Split(Render(p))[1..] == (if p == [] then [""] else p);
    if p == [] {
      assert Walk(t, [], [""], EVAL_LINKS) == Walk(t, [], [""][1..], EVAL_LINKS);
      assert [""][1..] == [];
    }
  }

  // Resolving one more component.
  lemma ResolveChild(t: Inode, p: Path, name: string)
    requires t.Dir? && AllPlain(p) && Plain(name)
    ensures Resolve(t, p + [name]) == Onward(t, Resolve(t, p), [name])
  {
    WalkConcat(t, [], p, [name], EVAL_LINKS);
  }

  // ---- Growth of the tree ----

  // t' has everything t has, at the same places, with the same contents.
  ghost predicate Extends(t: Inode, t': Inode) {
    forall p :: Exists(t, p) ==>
      Exists(t', p) && (Lookup(t, p).value.Dir? ==> IsDir(t', p))
                    && (!Lookup(t, p).value.Dir? ==> Lookup(t', p) == Lookup(t, p))
  }

  // What resolves keeps resolving to the same path when the tree grows.
  lemma {:induction false} WalkExtends(t: Inode, t': Inode, at: Path, todo: seq<string>, links: nat)
    requires Extends(t, t') && Walk(t, at, todo, links).Found?
    ensures Walk(t', at, todo, links) == Walk(t, at, todo, links)
    decreases links, |todo|
  {
    if todo == [] {
    } else if todo[0] == "" || todo[0] == "." {
      WalkExtends(t, t', at, todo[1..], links);
    } else if todo[0] == ".." {
      WalkExtends(t, t', Parent(at), todo[1..], links);
    } else {
      assert Exists(t, at + [todo[0]]);
      match Lookup(t, at + [todo[0]])
      case Some(Dir(_)) => WalkExtends(t, t', at + [todo[0]], todo[1..], links);
      case Some(File(_)) =>
      case Some(Link(target)) =>
        WalkExtends(t, t', if IsAbs(target) then [] else at, Split(target) + todo[1..], links - 1);
    }
  }
}
