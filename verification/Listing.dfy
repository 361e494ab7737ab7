// Directory listings: reading, sorting, and the links built from them.
module Listing {
  import opened Paths
  import opened FileTree
  import opened Errors
  import opened Jail
  import opened Disks
  import opened WritePipeline
  import Sorting
  import StableSort

  datatype FileEntry = FileEntry(name: string, isDir: bool, size: nat, modTime: int)

  // ---- The order ----

  // A sort order; `lower` is strings.ToLower, about which nothing is assumed.
  datatype Order = Order(sortBy: string, desc: bool, lower: string -> string)

  predicate LexLess(a: seq<int>, b: seq<int>) {
    b != [] && (a == [] || a[0] < b[0] || (a[0] == b[0] && LexLess(a[1..], b[1..])))
  }

  lemma {:induction false} LexTotal(a: seq<int>, b: seq<int>)
    ensures !LexLess(a, a)
    ensures LexLess(a, b) || LexLess(b, a) || a == b
    ensures !(LexLess(a, b) && LexLess(b, a))
  {
    if a != [] {
      LexTotal(a[1..], if b != [] then b[1..] else []);
      assert b != [] && a[0] == b[0] && a[1..] == b[1..] ==> a == [a[0]] + a[1..] == b;
    }
  }

  lemma {:induction false} LexTransitive(a: seq<int>, b: seq<int>, c: seq<int>)
    requires !LexLess(b, a) && !LexLess(c, b)
    ensures !LexLess(c, a)
  {
    if a != [] && b != [] && c != [] && a[0] == b[0] == c[0] {
      LexTransitive(a[1..], b[1..], c[1..]);
    }
  }

  function Chars(s: string): seq<int> {
    seq(|s|, i requires 0 <= i < |s| => s[i] as int)
  }

  function Key(e: FileEntry, o: Order): seq<int> {
    if o.sortBy == "date" then [e.modTime]
    else if o.sortBy == "size" then [e.size]
    else Chars(o.lower(e.name))
  }

  // The comparison sortFileEntries hands to the sort. Descending, it also holds
  // of entries with equal keys.
  predicate Comes(x: FileEntry, y: FileEntry, o: Order) {
    if x.isDir != y.isDir then x.isDir
    else if o.desc then !LexLess(Key(x, o), Key(y, o))
    else LexLess(Key(x, o), Key(y, o))
  }

  // What a listing promises of x before y: directories first, then the keys in
  // the requested direction.
  predicate InOrder(x: FileEntry, y: FileEntry, o: Order) {
    if x.isDir != y.isDir then x.isDir
    else if o.desc then !LexLess(Key(x, o), Key(y, o))
    else !LexLess(Key(y, o), Key(x, o))
  }

  function Less(o: Order): (FileEntry, FileEntry) -> bool {
    (x, y) => Comes(x, y, o)
  }

  function Le(o: Order): (FileEntry, FileEntry) -> bool {
    (x, y) => InOrder(x, y, o)
  }

  lemma OrderLaws(x: FileEntry, y: FileEntry, z: FileEntry, o: Order)
    ensures InOrder(x, y, o) || InOrder(y, x, o)
    ensures InOrder(x, y, o) && InOrder(y, z, o) ==> InOrder(x, z, o)
    ensures Comes(x, y, o) ==> InOrder(x, y, o)
    ensures !Comes(x, y, o) ==> InOrder(y, x, o)
    ensures InOrder(x, y, o) && InOrder(y, x, o) ==> Comes(x, y, o) == o.desc
  {
    var a, b, c := Key(x, o), Key(y, o), Key(z, o);
    LexTotal(a, b);
    if !LexLess(b, a) && !LexLess(c, b) {
      LexTransitive(a, b, c);
    }
    if !LexLess(b, c) && !LexLess(a, b) {
      LexTransitive(c, b, a);
    }
  }

  lemma OrderRanks(o: Order)
    ensures Sorting.Ranks(Less(o), Le(o)) && Sorting.OnTies(Less(o), Le(o), o.desc)
  {
    forall x, y, z
      ensures Sorting.RankLaws(Less(o), Le(o), x, y, z) && Sorting.TieLaw(Less(o), Le(o), x, y, o.desc)
    {
      OrderLaws(x, y, z, o);
    }
  }

  // ---- Sorting a listing ----

  // Orders other than "desc" are ascending; fields other than "date" and "size"
  // are the name.
  function Asked(sortBy: string, sortOrder: string, lower: string -> string): Order {
    Order(if sortBy == "" then "name" else sortBy, sortOrder == "desc", lower)
  }

  predicate PrecedesAt(a: string, b: string, k: int) {
    0 <= k <= |a| && k < |b| && a[..k] == b[..k] && (k == |a| || a[k] as int < b[k] as int)
  }

  // The order of strings: a is a proper beginning of b, or they first differ where
  // a has the smaller character.
  ghost predicate Precedes(a: string, b: string) {
    exists k: int :: PrecedesAt(a, b, k)
  }

  // What the query promises of x before y.
  ghost predicate AsAsked(sortBy: string, sortOrder: string, lower: string -> string, x: FileEntry, y: FileEntry) {
    if x.isDir != y.isDir then x.isDir
    else if sortBy == "date" then if sortOrder == "desc" then x.modTime >= y.modTime else x.modTime <= y.modTime
    else if sortBy == "size" then if sortOrder == "desc" then x.size >= y.size else x.size <= y.size
    else if sortOrder == "desc" then !Precedes(lower(x.name), lower(y.name))
    else !Precedes(lower(y.name), lower(x.name))
  }

  lemma {:induction false} LexMeans(a: string, b: string)
    ensures LexLess(Chars(a), Chars(b)) <==> Precedes(a, b)
  {
    if a == "" || b == "" {
      assert b != "" ==> PrecedesAt(a, b, 0);
    } else {
      LexMeans(a[1..], b[1..]);
      assert Chars(a)[1..] == Chars(a[1..]) && Chars(b)[1..] == Chars(b[1..]);
      PrecedesTail(a, b);
    }
  }

  lemma PrecedesTail(a: string, b: string)
    requires a != "" && b != ""
    ensures Precedes(a, b) <==> a[0] as int < b[0] as int || (a[0] == b[0] && Precedes(a[1..], b[1..]))
  {
    if k :| PrecedesAt(a, b, k) {
      if k > 0 {
        CutFirst(a, b, k - 1);
        assert PrecedesAt(a[1..], b[1..], k - 1);
      }
    }
    if a[0] as int < b[0] as int {
      assert PrecedesAt(a, b, 0);
    } else if a[0] == b[0] && Precedes(a[1..], b[1..]) {
      var k :| PrecedesAt(a[1..], b[1..], k);
      CutFirst(a, b, k);
      assert PrecedesAt(a, b, k + 1);
    }
  }

  lemma CutFirst(a: string, b: string, k: nat)
    requires k < |a| && k < |b|
    ensures a[..k + 1] == b[..k + 1] <==> a[0] == b[0] && a[1..][..k] == b[1..][..k]
  {
    assert a[..k + 1] == [a[0]] + a[1..][..k] && b[..k + 1] == [b[0]] + b[1..][..k];
  }

  lemma LexOne(x: int, y: int)
    ensures LexLess([x], [y]) <==> x < y
  {
  }

  lemma InOrderAsAsked(x: FileEntry, y: FileEntry, sortBy: string, sortOrder: string, lower: string -> string)
    ensures InOrder(x, y, Asked(sortBy, sortOrder, lower)) <==> AsAsked(sortBy, sortOrder, lower, x, y)
  {
    LexMeans(lower(x.name), lower(y.name));
    LexMeans(lower(y.name), lower(x.name));
    LexOne(x.modTime, y.modTime);
    LexOne(y.modTime, x.modTime);
    LexOne(x.size, y.size);
    LexOne(y.size, x.size);
  }

  lemma SortedAsAsked(s: seq<FileEntry>, sortBy: string, sortOrder: string, lower: string -> string)
    ensures var r := Sorting.InsertionSort(s, Less(Asked(sortBy, sortOrder, lower)));
            && multiset(r) == multiset(s)
            && forall i, j :: 0 <= i < j < |r| ==> AsAsked(sortBy, sortOrder, lower, r[i], r[j])
  {
    var o := Asked(sortBy, sortOrder, lower);
    ListingIsSorted(s, o);
    var r := Sorting.InsertionSort(s, Less(o));
    forall i, j | 0 <= i < j < |r|
      ensures AsAsked(sortBy, sortOrder, lower, r[i], r[j])
    {
      InOrderAsAsked(r[i], r[j], sortBy, sortOrder, lower);
    }
  }

  method SortFileEntries(entries: array<FileEntry>, sortBy: string, sortOrder: string, lower: string -> string)
    modifies entries
    ensures entries[..] == Sorting.InsertionSort(old(entries[..]), Less(Asked(sortBy, sortOrder, lower)))
  {
    ghost var o := Asked(sortBy, sortOrder, lower);
    OrderRanks(o);
    StableSort.SortInPlace(entries, Less(Asked(sortBy, sortOrder, lower)), Le(o), o.desc);
  }

  // A listing is a permutation of the entries, directories first, keys in the
  // requested direction. Entries with equal keys keep their order when the
  // direction is ascending, and are reversed when it is descending.
  lemma {:induction false} ListingIsSorted(s: seq<FileEntry>, o: Order)
    ensures var r := Sorting.InsertionSort(s, Less(o));
            && multiset(r) == multiset(s)
            && (forall i, j :: 0 <= i < j < |r| ==> InOrder(r[i], r[j], o))
            && (forall e :: Sorting.Ties(r, e, Le(o)) ==
                  if o.desc then Sorting.Reverse(Sorting.Ties(s, e, Le(o))) else Sorting.Ties(s, e, Le(o)))
  {
    OrderRanks(o);
    Sorting.SortSorts(s, Less(o), Le(o));
    forall e
      ensures Sorting.Ties(Sorting.InsertionSort(s, Less(o)), e, Le(o)) ==
                if o.desc then Sorting.Reverse(Sorting.Ties(s, e, Le(o))) else Sorting.Ties(s, e, Le(o))
    {
      Sorting.SortTreatsTies(s, e, Less(o), Le(o), o.desc);
    }
    var r := Sorting.InsertionSort(s, Less(o));
    forall i, j | 0 <= i < j < |r|
      ensures InOrder(r[i], r[j], o)
    {
      Sorting.SortedAt(r, i, j, Le(o));
    }
  }

  // In ascending order, whatever stable sort is used, this is the listing.
  lemma {:induction false} AscendingListingIsUnique(s: seq<FileEntry>, r: seq<FileEntry>, o: Order)
    requires !o.desc && (forall i, j :: 0 <= i < j < |r| ==> InOrder(r[i], r[j], o))
    requires forall e :: Sorting.Ties(r, e, Le(o)) == Sorting.Ties(s, e, Le(o))
    ensures r == Sorting.InsertionSort(s, Less(o))
  {
    var sorted := Sorting.InsertionSort(s, Less(o));
    ListingIsSorted(s, o);
    forall e
      ensures Le(o)(e, e)
    {
      OrderLaws(e, e, e, o);
    }
    forall i, j
      ensures Sorting.InOrderAt(r, i, j, Le(o)) && Sorting.InOrderAt(sorted, i, j, Le(o))
    {
    }
    forall e
      ensures Sorting.Ties(r, e, Le(o)) == Sorting.Ties(sorted, e, Le(o))
    {
    }
    Sorting.StableSortIsUnique(r, sorted, Le(o));
  }

  // ---- ListDirectory ----

  // What os.ReadDir and Info say of the directory: whether reading it fails, its
  // names in some order, the names whose Info fails, and the modification times.
  datatype DirView = DirView(readFails: bool, names: seq<string>, noInfo: set<string>, modTime: string -> int) {
    ghost predicate Shows(m: map<string, Inode>) {
      && (forall n :: n in m <==> n in names)
      && (forall i, j :: 0 <= i < j < |names| ==> names[i] != names[j])
    }
  }

  // Lstat's view of an entry; the size of a link is that of its target string.
  function EntryOf(m: map<string, Inode>, name: string, view: DirView): FileEntry
    requires name in m
  {
    FileEntry(name, m[name].Dir?,
              match m[name] case Dir(_) => 0 case File(data) => |data| case Link(target) => |target|,
              view.modTime(name))
  }

  function EntriesOf(m: map<string, Inode>, names: seq<string>, view: DirView): seq<FileEntry>
    requires forall n :: n in names ==> n in m
  {
    if names == [] then []
    else
      var last := names[|names| - 1];
      EntriesOf(m, names[..|names| - 1], view) + if last in view.noInfo then [] else [EntryOf(m, last, view)]
  }

  // The entry shows what is there: whether it is a directory, the length of a file
  // or of a link's target, and its modification time.
  predicate Shows(t: Inode, p: Path, view: DirView, e: FileEntry) {
    && e.name in view.names && e.name !in view.noInfo && Exists(t, p + [e.name])
    && (e.isDir <==> IsDir(t, p + [e.name]))
    && (IsDir(t, p + [e.name]) ==> e.size == 0)
    && (Lookup(t, p + [e.name]).value.File? ==> e.size == |Lookup(t, p + [e.name]).value.data|)
    && (IsLink(t, p + [e.name]) ==> e.size == |Lookup(t, p + [e.name]).value.target|)
    && e.modTime == view.modTime(e.name)
  }

  // Every entry shows what is there, and every readable name has exactly one.
  ghost predicate Complete(t: Inode, p: Path, view: DirView, listed: seq<FileEntry>) {
    && (forall i :: 0 <= i < |listed| ==> Shows(t, p, view, listed[i]))
    && (forall i, j :: 0 <= i < j < |listed| ==> listed[i].name != listed[j].name)
    && (forall n :: n in view.names && n !in view.noInfo ==> exists i :: 0 <= i < |listed| && listed[i].name == n)
  }

  lemma EntryShows(t: Inode, p: Path, view: DirView, e: FileEntry)
    requires IsDir(t, p) && e.name in Entries(t, p) && e.name in view.names && e.name !in view.noInfo
    requires e == EntryOf(Entries(t, p), e.name, view)
    ensures Shows(t, p, view, e)
  {
    LookupChild(t, p, e.name);
  }

  lemma SameTwice<T>(s: seq<T>, i: nat, j: nat)
    requires i < j < |s| && s[i] == s[j]
    ensures multiset(s)[s[i]] >= 2
  {
    assert s == s[..j] + s[j..];
    assert s[i] in multiset(s[..j]) && s[j] in multiset(s[j..]);
  }

  lemma {:induction false} EntriesOnce(m: map<string, Inode>, names: seq<string>, view: DirView, e: FileEntry)
    requires (forall n :: n in names ==> n in m) && forall i, j :: 0 <= i < j < |names| ==> names[i] != names[j]
    ensures multiset(EntriesOf(m, names, view))[e] <= 1
  {
    if names != [] {
      var front, last := names[..|names| - 1], names[|names| - 1];
      EntriesOnce(m, front, view, e);
      ListedEntriesExist(m, front, view, e);
    }
  }

  // However the entries are put in order, the listing is complete.
  lemma SortedIsComplete(t: Inode, p: Path, view: DirView, listed: seq<FileEntry>)
    requires IsDir(t, p) && view.Shows(Entries(t, p))
    requires multiset(listed) == multiset(EntriesOf(Entries(t, p), view.names, view))
    ensures Complete(t, p, view, listed)
  {
    var m := Entries(t, p);
    var entries := EntriesOf(m, view.names, view);
    forall e
      ensures e in listed <==> e.name in view.names && e.name !in view.noInfo && e == EntryOf(m, e.name, view)
    {
      ListedEntriesExist(m, view.names, view, e);
      assert e in listed <==> e in multiset(listed);
      assert e in entries <==> e in multiset(entries);
    }
    forall i | 0 <= i < |listed|
      ensures Shows(t, p, view, listed[i])
    {
      assert listed[i] in listed;
      EntryShows(t, p, view, listed[i]);
    }
    forall i, j | 0 <= i < j < |listed|
      ensures listed[i].name != listed[j].name
    {
      NamedOnce(m, view, listed, i, j);
    }
    forall n | n in view.names && n !in view.noInfo
      ensures exists i :: 0 <= i < |listed| && listed[i].name == n
    {
      assert EntryOf(m, n, view) in listed;
    }
  }

  lemma NamedOnce(m: map<string, Inode>, view: DirView, listed: seq<FileEntry>, i: nat, j: nat)
    requires view.Shows(m) && multiset(listed) == multiset(EntriesOf(m, view.names, view)) && i < j < |listed|
    requires forall e :: e in listed ==> e.name in m && e == EntryOf(m, e.name, view)
    ensures listed[i].name != listed[j].name
  {
    assert listed[i] in listed && listed[j] in listed;
    if listed[i] == listed[j] {
      SameTwice(listed, i, j);
      EntriesOnce(m, view.names, view, listed[i]);
    }
  }

  function ListError(found: Outcome): FsError {
    if found.NotExist? then NotFound else if found.Found? then NotADirectory else ListDirError
  }

  // Why there is nothing to list: SafePath's reason, a file there, or nothing; what
  // is behind a link that SafePath could not follow may also not be looked up.
  ghost predicate NothingToList(t: Inode, target: Result<Path, FsError>, error: FsError) {
    match target
    case Err(e) => error == e
    case Ok(p) =>
      && !IsDir(t, p)
      && (if Exists(t, p) && !IsLink(t, p) then error == NotADirectory else error in {NotFound, ListDirError})
      && (NoLinkOn(t, p) && !Exists(t, p) ==> error == NotFound)
  }

  predicate NoLinkOn(t: Inode, p: Path) {
    forall j :: 0 <= j <= |p| ==> !IsLink(t, p[..j])
  }

  // Without a link on it, an answer that does not exist is seen not to exist.
  lemma MissingIsSeen(t: Inode, root: Path, req: string)
    requires t.Dir? && AllPlain(root) && SafeTarget(t, root, req).Ok?
    requires var p := SafeTarget(t, root, req).value; NoLinkOn(t, p) && !Exists(t, p)
    ensures Stat(t, SafeTarget(t, root, req).value) == NotExist
  {
    var p := SafeTarget(t, root, req).value;
    JailSound(t, root, req);
    if !Resolve(t, p).Found? {
      var a :| 0 <= a < |p| && IsDir(t, p[..a]) && Canonical(t, p[..a]) && Resolve(t, p[..a + 1]) == NotExist;
      MissingAt(t, p, a);
    }
  }

  lemma MissingAt(t: Inode, p: Path, a: nat)
    requires AllPlain(p) && a < |p| && IsDir(t, p[..a]) && Canonical(t, p[..a]) && !IsLink(t, p[..a + 1])
    requires Resolve(t, p[..a + 1]) == NotExist
    ensures Stat(t, p) == NotExist
  {
    var first := p[a];
    assert p[..a + 1] == p[..a] + [first];
    if Exists(t, p[..a + 1]) {
      WalkCanonical(t, p[..a + 1], EVAL_LINKS);
    }
    assert p == p[..a] + p[a..] && p[a..][0] == first;
    WalkCanonical(t, p[..a], KERNEL_LINKS);
    WalkConcat(t, [], p[..a], p[a..], KERNEL_LINKS);
  }

  // The first half of ListDirectory: the directory to list.
  method FindListed(t: Inode, site: Site, relPath: string) returns (r: Result<Path, FsError>)
    requires t.Dir? && site.Valid()
    ensures var target := SafeTarget(t, site.Root(), relPath);
            && (r.Ok? <==> target.Ok? && IsDir(t, target.value))
            && (r.Ok? ==> r.value == target.value)
            && (r.Err? ==> NothingToList(t, target, r.error))
            && (r.Err? && target.Ok? ==> r.error == ListError(Stat(t, target.value)))
  {
    var safe := SafePath(t, site, relPath);
    if safe.Err? {
      return Err(safe.error);
    }
    SafeTargetStat(t, site.Root(), relPath);
    JailSound(t, site.Root(), relPath);
    ComponentsRender(SafeTarget(t, site.Root(), relPath).value);
    var p := Components(safe.value);
    if NoLinkOn(t, p) && !Exists(t, p) {
      MissingIsSeen(t, site.Root(), relPath);
    }
    var info := Stat(t, p);
    if info == NotExist {
      return Err(NotFound);
    }
    if !info.Found? {
      return Err(ListDirError);
    }
    if !IsDir(t, info.path) {
      return Err(NotADirectory);
    }
    return Ok(p);
  }

  // Go's ListDirectory: the readable entries of the directory, sorted.
  method ListDirectory(t: Inode, site: Site, relPath: string, sortBy: string, sortOrder: string,
                       view: DirView, lower: string -> string)
    returns (r: Result<seq<FileEntry>, FsError>)
    requires t.Dir? && site.Valid()
    requires var target := SafeTarget(t, site.Root(), relPath);
             target.Ok? && IsDir(t, target.value) && !view.readFails ==> view.Shows(Entries(t, target.value))
    ensures var target := SafeTarget(t, site.Root(), relPath);
            && (target.Err? ==> r == Err(target.error))
            && (target.Ok? && !IsDir(t, target.value) ==> r == Err(ListError(Stat(t, target.value))))
            && (target.Ok? && IsDir(t, target.value) && view.readFails ==> r == Err(ListDirError))
            && (target.Ok? && IsDir(t, target.value) && !view.readFails ==>
                 r == Ok(Sorting.InsertionSort(EntriesOf(Entries(t, target.value), view.names, view),
                                               Less(Asked(sortBy, sortOrder, lower)))))
    ensures r.Ok? ==> Complete(t, SafeTarget(t, site.Root(), relPath).value, view, r.value)
    ensures r.Ok? ==> forall i, j :: 0 <= i < j < |r.value| ==> AsAsked(sortBy, sortOrder, lower, r.value[i], r.value[j])
    ensures r.Err? ==> var target := SafeTarget(t, site.Root(), relPath);
                       if target.Ok? && IsDir(t, target.value) then r.error == ListDirError && view.readFails
                       else NothingToList(t, target, r.error)
  {
    var found := FindListed(t, site, relPath);
    if found.Err? {
      return Err(found.error);
    }
    var p := found.value;
    if view.readFails {
      return Err(ListDirError);
    }
    var entries := ReadEntries(Entries(t, p), view);
    ghost var unsorted := entries[..];
    SortFileEntries(entries, sortBy, sortOrder, lower);
    SortedAsAsked(unsorted, sortBy, sortOrder, lower);
    SortedIsComplete(t, p, view, entries[..]);
    return Ok(entries[..]);
  }

  // The loop of ListDirectory: entries without Info are skipped.
  method ReadEntries(m: map<string, Inode>, view: DirView) returns (entries: array<FileEntry>)
    requires view.Shows(m)
    ensures fresh(entries) && entries[..] == EntriesOf(m, view.names, view)
  {
    var result := [];
    for i := 0 to |view.names|
      invariant result == EntriesOf(m, view.names[..i], view)
    {
      assert view.names[..i + 1][..i] == view.names[..i];
      if view.names[i] in view.noInfo {
        continue;
      }
      result := result + [EntryOf(m, view.names[i], view)];
    }
    assert view.names[..|view.names|] == view.names;
    entries := new FileEntry[|result|](i requires 0 <= i < |result| => result[i]);
    assert entries[..] == result;
  }

  // Every listed entry is there, and nothing readable is left out or repeated.
  lemma {:induction false} ListedEntriesExist(m: map<string, Inode>, names: seq<string>, view: DirView, e: FileEntry)
    requires forall n :: n in names ==> n in m
    ensures e in EntriesOf(m, names, view) <==>
              e.name in names && e.name !in view.noInfo && e == EntryOf(m, e.name, view)
  {
    if names != [] {
      ListedEntriesExist(m, names[..|names| - 1], view, e);
    }
  }
}
