// The mutable file system: a tree of inodes and the operations on it that the
// storage engine uses. Each operation changes the entries of one directory.
module Disks {
  import opened Errors
  import opened Paths
  import opened FileTree

  function Entries(t: Inode, p: Path): map<string, Inode>
    requires IsDir(t, p)
  {
    Lookup(t, p).value.entries
  }

  // The tree with the entries of the directory p replaced.
  function Replace(t: Inode, p: Path, m: map<string, Inode>): (t': Inode)
    requires IsDir(t, p)
    ensures t'.Dir?
  {
    if p == [] then Dir(m) else Dir(t.entries[p[0] := Replace(t.entries[p[0]], p[1..], m)])
  }

  lemma {:induction false} ReplaceLookup(t: Inode, p: Path, m: map<string, Inode>, q: Path)
    requires IsDir(t, p)
    ensures p <= q ==> Lookup(Replace(t, p, m), q) == Lookup(Dir(m), q[|p|..])
    ensures q <= p && q != p ==> IsDir(Replace(t, p, m), q) && IsDir(t, q)
    ensures !(p <= q) && !(q <= p) ==> Lookup(Replace(t, p, m), q) == Lookup(t, q)
  {
    if p == [] {
      assert q[0..] == q;
    } else if q != [] {
      assert p == [p[0]] + p[1..] && q == [q[0]] + q[1..];
      ReplaceLookup(t.entries[p[0]], p[1..], m, q[1..]);
      assert p[0] == q[0] ==> ((p <= q) == (p[1..] <= q[1..])) && ((q <= p) == (q[1..] <= p[1..]));
      if p <= q {
        assert q[1..][|p| - 1..] == q[|p|..];
      }
    }
  }

  lemma ReplaceEntries(t: Inode, p: Path, m: map<string, Inode>)
    requires IsDir(t, p)
    ensures IsDir(Replace(t, p, m), p) && Entries(Replace(t, p, m), p) == m
  {
    ReplaceLookup(t, p, m, p);
    assert p[|p|..] == [];
  }

  lemma {:induction false} ReplaceSame(t: Inode, p: Path)
    requires IsDir(t, p)
    ensures Replace(t, p, Entries(t, p)) == t
  {
    if p != [] {
      ReplaceSame(t.entries[p[0]], p[1..]);
      assert t.entries[p[0] := t.entries[p[0]]] == t.entries;
    }
  }

  lemma {:induction false} ReplaceTwice(t: Inode, p: Path, m: map<string, Inode>, m': map<string, Inode>)
    requires IsDir(t, p)
    ensures IsDir(Replace(t, p, m), p) && Replace(Replace(t, p, m), p, m') == Replace(t, p, m')
  {
    ReplaceEntries(t, p, m);
    if p != [] {
      var sub := Replace(t.entries[p[0]], p[1..], m);
      ReplaceTwice(t.entries[p[0]], p[1..], m, m');
      assert t.entries[p[0] := sub][p[0] := Replace(sub, p[1..], m')] == t.entries[p[0] := Replace(sub, p[1..], m')];
    }
  }

  // Adding entries to a directory keeps everything else.
  lemma ReplaceExtends(t: Inode, p: Path, m: map<string, Inode>)
    requires IsDir(t, p)
    requires forall n :: n in Entries(t, p) ==> n in m && m[n] == Entries(t, p)[n]
    ensures Extends(t, Replace(t, p, m))
  {
    forall q | Exists(t, q)
      ensures Exists(Replace(t, p, m), q)
      ensures Lookup(t, q).value.Dir? ==> IsDir(Replace(t, p, m), q)
      ensures !Lookup(t, q).value.Dir? ==> Lookup(Replace(t, p, m), q) == Lookup(t, q)
    {
      ReplaceLookup(t, p, m, q);
      if p <= q {
        var rest := q[|p|..];
        assert q == p + rest;
        LookupConcat(t, p, rest);
      } else if q <= p {
        AncestorIsDir(t, p, |q|);
        assert p[..|q|] == q;
      }
    }
  }

  lemma ExtendsTransitive(a: Inode, b: Inode, c: Inode)
    requires Extends(a, b) && Extends(b, c)
    ensures Extends(a, c)
  {
    forall p | Exists(a, p)
      ensures Exists(c, p) && (Lookup(a, p).value.Dir? ==> IsDir(c, p))
                           && (!Lookup(a, p).value.Dir? ==> Lookup(c, p) == Lookup(a, p))
    {
      assert Exists(b, p);
    }
  }

  // ---- Making directories ----

  // The tree with the directories along p made where they are missing.
  function MakeDirs(t: Inode, p: Path): (t': Inode)
    requires t.Dir?
    ensures t'.Dir?
    decreases |p|
  {
    if p == [] then t
    else if p[0] !in t.entries then Dir(t.entries[p[0] := MakeDirs(Dir(map[]), p[1..])])
    else if t.entries[p[0]].Dir? then Dir(t.entries[p[0] := MakeDirs(t.entries[p[0]], p[1..])])
    else t
  }

  // A path whose existing part consists of directories.
  predicate Makeable(t: Inode, p: Path) {
    forall j :: 0 <= j <= |p| && Exists(t, p[..j]) ==> IsDir(t, p[..j])
  }

  lemma MakeableTail(t: Inode, p: Path)
    requires t.Dir? && p != [] && Makeable(t, p)
    ensures p[0] in t.entries ==> t.entries[p[0]].Dir? && Makeable(t.entries[p[0]], p[1..])
  {
    if p[0] in t.entries {
      forall j | 0 <= j <= |p[1..]| && Exists(t.entries[p[0]], p[1..][..j])
        ensures IsDir(t.entries[p[0]], p[1..][..j])
      {
        assert p[..j + 1][1..] == p[1..][..j];
      }
      assert p[1..][..0] == [];
    }
  }

  lemma EmptyMakeable(p: Path)
    ensures Makeable(Dir(map[]), p)
  {
  }

  // Exactly the directories along p are added.
  lemma {:induction false} MakeDirsLookup(t: Inode, p: Path, q: Path)
    requires t.Dir? && Makeable(t, p)
    ensures q <= p ==> IsDir(MakeDirs(t, p), q)
    ensures !(q <= p) ==> (Exists(MakeDirs(t, p), q) <==> Exists(t, q))
    ensures !(q <= p) && Exists(t, q) && !IsDir(t, q) ==> Lookup(MakeDirs(t, p), q) == Lookup(t, q)
    ensures IsDir(t, q) ==> IsDir(MakeDirs(t, p), q)
    decreases |p|
  {
    if p != [] && q != [] {
      MakeableTail(t, p);
      EmptyMakeable(p[1..]);
      var sub := if p[0] in t.entries then t.entries[p[0]] else Dir(map[]);
      MakeDirsLookup(sub, p[1..], q[1..]);
      assert q[0] == p[0] ==> (q <= p <==> q[1..] <= p[1..]) by {
        assert p == [p[0]] + p[1..] && q == [q[0]] + q[1..];
      }
      if q[0] == p[0] && p[0] !in t.entries {
        assert q[1..] != [] ==> !Exists(Dir(map[]), q[1..]);
      }
    }
  }

  lemma MakeDirsExtends(t: Inode, p: Path)
    requires t.Dir? && Makeable(t, p)
    ensures Extends(t, MakeDirs(t, p)) && IsDir(MakeDirs(t, p), p)
  {
    forall q | Exists(t, q)
      ensures Exists(MakeDirs(t, p), q) && (IsDir(t, q) ==> IsDir(MakeDirs(t, p), q))
      ensures !IsDir(t, q) ==> Lookup(MakeDirs(t, p), q) == Lookup(t, q)
    {
      MakeDirsLookup(t, p, q);
      if q <= p {
        assert p[..|q|] == q;
      }
    }
    MakeDirsLookup(t, p, p);
  }

  // Making one more level is adding one empty directory.
  lemma {:induction false} MakeDirsStep(t: Inode, p: Path, name: string)
    requires t.Dir? && Makeable(t, p) && !Exists(t, p + [name])
    ensures IsDir(MakeDirs(t, p), p) && name !in Entries(MakeDirs(t, p), p)
    ensures MakeDirs(t, p + [name]) == Replace(MakeDirs(t, p), p, Entries(MakeDirs(t, p), p)[name := Dir(map[])])
    decreases |p|
  {
    var p' := p + [name];
    MakeDirsLookup(t, p, p);
    MakeDirsLookup(t, p, p');
    LookupChild(MakeDirs(t, p), p, name);
    if p == [] {
      LookupChild(t, [], name);
      assert p'[1..] == [];
    } else {
      assert p'[1..] == p[1..] + [name] && p'[0] == p[0];
      MakeableTail(t, p);
      EmptyMakeable(p[1..]);
      var sub := if p[0] in t.entries then t.entries[p[0]] else Dir(map[]);
      MakeDirsStep(sub, p[1..], name);
    }
  }

  lemma {:induction false} MakeDirsExisting(t: Inode, p: Path)
    requires IsDir(t, p)
    ensures MakeDirs(t, p) == t
  {
    if p != [] {
      MakeDirsExisting(t.entries[p[0]], p[1..]);
      assert t.entries[p[0] := t.entries[p[0]]] == t.entries;
    }
  }

  // ---- Changes inside one directory ----

  // Changing a directory below p is changing p's entries.
  lemma {:induction false} ReplaceBelow(t: Inode, p: Path, q: Path, m: map<string, Inode>)
    requires IsDir(t, p + q)
    ensures IsDir(t, p) && IsDir(Dir(Entries(t, p)), q)
    ensures Entries(t, p + q) == Entries(Dir(Entries(t, p)), q)
    ensures Replace(t, p + q, m) == Replace(t, p, Replace(Dir(Entries(t, p)), q, m).entries)
  {
    LookupConcat(t, p, q);
    if q != [] {
      AncestorIsDir(t, p + q, |p|);
      assert (p + q)[..|p|] == p;
    } else {
      assert p + q == p;
    }
    if p == [] {
      assert p + q == q;
    } else {
      assert (p + q)[1..] == p[1..] + q;
      ReplaceBelow(t.entries[p[0]], p[1..], q, m);
    }
  }

  // Making directories below an existing one changes only its entries.
  lemma {:induction false} MakeDirsBelow(t: Inode, p: Path, q: Path)
    requires IsDir(t, p)
    ensures MakeDirs(t, p + q) == Replace(t, p, MakeDirs(Dir(Entries(t, p)), q).entries)
  {
    if p == [] {
      assert p + q == q;
    } else {
      assert (p + q)[1..] == p[1..] + q && (p + q)[0] == p[0];
      MakeDirsBelow(t.entries[p[0]], p[1..], q);
    }
  }

  // ---- The disk ----

  datatype MkdirResult = Made | AlreadyExists | Failed

  // The directory a path's parent leads to, if it leads to one.
  function ParentDir(t: Inode, p: Path): (d: Option<Path>)
    requires t.Dir? && AllPlain(p)
    ensures d.Some? ==> IsDir(t, d.value)
  {
    var found := Stat(t, Parent(p));
    if found.Found? && IsDir(t, found.path) then Some(found.path) else None
  }

  class Disk {
    var tree: Inode

    constructor (t: Inode)
      ensures tree == t
    {
      tree := t;
    }

    // os.CreateTemp: an exclusive create, so the name must be free.
    method CreateTemp(dir: Path, name: string) returns (ok: bool)
      requires IsDir(tree, dir)
      modifies this
      ensures ok == (name !in Entries(old(tree), dir))
      ensures !ok ==> tree == old(tree)
      ensures ok ==> tree == Replace(old(tree), dir, Entries(old(tree), dir)[name := File([])])
    {
      ok := name !in Entries(tree, dir);
      if ok {
        tree := Replace(tree, dir, Entries(tree, dir)[name := File([])]);
      }
    }

    method Append(dir: Path, name: string, data: seq<bv8>)
      requires IsDir(tree, dir) && name in Entries(tree, dir) && Entries(tree, dir)[name].File?
      modifies this
      ensures tree == var m := Entries(old(tree), dir);
                      Replace(old(tree), dir, m[name := File(m[name].data + data)])
    {
      var m := Entries(tree, dir);
      tree := Replace(tree, dir, m[name := File(m[name].data + data)]);
    }

    // os.Link: fails with "exists" if the new name is taken.
    method Link(dir: Path, from: string, to: string) returns (ok: bool)
      requires IsDir(tree, dir) && from in Entries(tree, dir)
      modifies this
      ensures ok == (to !in Entries(old(tree), dir))
      ensures !ok ==> tree == old(tree)
      ensures ok ==> tree == var m := Entries(old(tree), dir); Replace(old(tree), dir, m[to := m[from]])
    {
      var m := Entries(tree, dir);
      ok := to !in m;
      if ok {
        tree := Replace(tree, dir, m[to := m[from]]);
      }
    }

    // os.Remove on an existing file
    method Remove(dir: Path, name: string)
      requires IsDir(tree, dir)
      modifies this
      ensures tree == Replace(old(tree), dir, Entries(old(tree), dir) - {name})
    {
      tree := Replace(tree, dir, Entries(tree, dir) - {name});
    }

    // os.Rename of a file: replaces whatever is at the new name, except a directory.
    method Rename(dir: Path, from: string, to: string) returns (ok: bool)
      requires IsDir(tree, dir) && from in Entries(tree, dir)
      modifies this
      ensures ok == !(to in Entries(old(tree), dir) && Entries(old(tree), dir)[to].Dir?)
      ensures !ok ==> tree == old(tree)
      ensures ok ==> tree == var m := Entries(old(tree), dir); Replace(old(tree), dir, (m - {from})[to := m[from]])
    {
      var m := Entries(tree, dir);
      ok := !(to in m && m[to].Dir?);
      if ok {
        tree := Replace(tree, dir, (m - {from})[to := m[from]]);
      }
    }

    // os.Mkdir, which follows links on the way to the parent. `fails` stands for an
    // error of the file system other than "exists".
    method Mkdir(p: Path, fails: bool) returns (r: MkdirResult)
      requires tree.Dir? && AllPlain(p)
      modifies this
      ensures r != Made ==> tree == old(tree)
      ensures Exists(old(tree), p) ==> r == AlreadyExists
      ensures p != [] && IsDir(old(tree), Parent(p)) && !Exists(old(tree), p) ==>
        r == (if fails then Failed else Made)
      ensures p != [] && IsDir(old(tree), Parent(p)) && r == Made ==>
        tree == Replace(old(tree), Parent(p), Entries(old(tree), Parent(p))[p[|p| - 1] := Dir(map[])])
      ensures p != [] && !IsDir(old(tree), Parent(p)) ==>
        var dir := ParentDir(old(tree), p);
        && (dir.None? ==> r == Failed)
        && (dir.Some? && p[|p| - 1] in Entries(old(tree), dir.value) ==> r == AlreadyExists)
        && (dir.Some? && p[|p| - 1] !in Entries(old(tree), dir.value) ==> r == (if fails then Failed else Made))
        && (r == Made ==>
             tree == Replace(old(tree), dir.value, Entries(old(tree), dir.value)[p[|p| - 1] := Dir(map[])]))
    {
      if p == [] {
        return AlreadyExists;
      }
      var parent, name := Parent(p), p[|p| - 1];
      assert p == parent + [name];
      LookupChild(tree, parent, name);
      if IsDir(tree, parent) {
        WalkCanonical(tree, parent, KERNEL_LINKS);
      }
      var found := Stat(tree, parent);
      if !found.Found? || !IsDir(tree, found.path) {
        return Failed;
      }
      if name in Entries(tree, found.path) {
        return AlreadyExists;
      }
      if fails {
        return Failed;
      }
      tree := Replace(tree, found.path, Entries(tree, found.path)[name := Dir(map[])]);
      r := Made;
    }

    // os.MkdirAll on a path every level of which is canonical or does not
    // resolve, as SafePath's answers are. On failure it leaves the directories
    // made so far: those along the first `made` components.
    method MkdirAll(p: Path, fails: set<Path>) returns (ok: bool, ghost made: nat)
      requires tree.Dir? && AllPlain(p) && Jailed(tree, p)
      modifies this
      ensures made <= |p| && Makeable(old(tree), p[..made]) && tree == MakeDirs(old(tree), p[..made])
      ensures ok ==> made == |p|
      ensures ok <==> Makeable(old(tree), p) && MissingLevelsAvoid(old(tree), p, fails)
      ensures IsDir(old(tree), p) ==> ok
      decreases |p|
    {
      assert p[..|p|] == p;
      var found := Stat(tree, p);
      if found.Found? {
        WalkCanonical(tree, p, KERNEL_LINKS);
        CanonicalMakeable(tree, p);
        made := 0;
        if IsDir(tree, p) {
          NothingMissing(tree, p, fails);
          MakeDirsExisting(tree, p);
          made := |p|;
        }
        return IsDir(tree, found.path), made;
      }
      UnresolvedIsNoDir(tree, p);
      var parent, name := Parent(p), p[|p| - 1];
      JailedParent(tree, p);
      AvoidParent(tree, p, fails);
      ok, made := MkdirAll(parent, fails);
      assert p[..made] == parent[..made];
      if !ok {
        return false, made;
      }
      ghost var before := tree;
      assert p == parent + [name] && parent[..|parent|] == parent;
      MakeDirsExtends(old(tree), parent);
      MakeDirsLookup(old(tree), parent, p);
      MakeableChild(old(tree), p);
      var r := Mkdir(p, p in fails);
      if r == Made {
        MakeDirsStep(old(tree), parent, name);
        made := |p|;
        return true, made;
      }
      // Only a link can already have the name, and Lstat says it is no directory.
      return false, made;
    }
  }

  // None of the directories that are to be made is one whose mkdir fails.
  predicate MissingLevelsAvoid(t: Inode, p: Path, fails: set<Path>) {
    forall j :: 0 <= j <= |p| && !Exists(t, p[..j]) ==> p[..j] !in fails
  }

  lemma AvoidParent(t: Inode, p: Path, fails: set<Path>)
    requires p != []
    ensures MissingLevelsAvoid(t, p, fails) <==>
              MissingLevelsAvoid(t, Parent(p), fails) && (Exists(t, p) || p !in fails)
  {
    assert p[..|p|] == p;
    assert forall j :: 0 <= j < |p| ==> p[..j] == Parent(p)[..j];
  }

  lemma NothingMissing(t: Inode, p: Path, fails: set<Path>)
    requires IsDir(t, p)
    ensures MissingLevelsAvoid(t, p, fails)
  {
    forall j | 0 <= j < |p|
      ensures Exists(t, p[..j])
    {
      AncestorIsDir(t, p, j);
    }
    assert p[..|p|] == p;
  }

  // What SafePath's answers look like to MkdirAll.
  predicate Jailed(t: Inode, p: Path) {
    forall j :: 0 <= j <= |p| ==> Canonical(t, p[..j]) || !Stat(t, p[..j]).Found?
  }

  lemma JailedParent(t: Inode, p: Path)
    requires p != [] && Jailed(t, p)
    ensures Jailed(t, Parent(p))
    ensures Makeable(t, p) ==> Makeable(t, Parent(p))
  {
    assert forall j :: 0 <= j <= |Parent(p)| ==> Parent(p)[..j] == p[..j];
  }

  lemma CanonicalMakeable(t: Inode, p: Path)
    requires t.Dir? && Canonical(t, p)
    ensures Makeable(t, p) <==> IsDir(t, p)
    ensures Makeable(t, p[..0])
  {
    assert p[..|p|] == p;
    forall j | 0 <= j < |p| ensures IsDir(t, p[..j]) {
      AncestorIsDir(t, p, j);
    }
    if p != [] {
      assert p[..0] == [];
    }
  }

  lemma UnresolvedIsNoDir(t: Inode, p: Path)
    requires t.Dir? && AllPlain(p) && !Stat(t, p).Found?
    ensures p != [] && !IsDir(t, p)
  {
    if IsDir(t, p) {
      WalkCanonical(t, p, KERNEL_LINKS);
    }
  }

  // If the parent can be made, the path can be made unless its name is taken.
  lemma MakeableChild(t: Inode, p: Path)
    requires t.Dir? && p != [] && Makeable(t, Parent(p)) && AllPlain(p) && !Stat(t, p).Found?
    ensures Makeable(t, p) <==> !Exists(t, p)
  {
    assert p[..|p|] == p;
    assert forall j :: 0 <= j < |p| ==> p[..j] == Parent(p)[..j];
    UnresolvedIsNoDir(t, p);
  }
}
