// Dropping a folder on the page: flattening it in the browser, and the server
// rebuilding it from the flattened files.
module FolderUpload {
  import opened Paths
  import opened FileTree
  import opened Errors
  import opened Jail
  import opened Names
  import opened Disks
  import opened WritePipeline
  import opened DirectoryWrites
  import opened UploadBatch

  // ---- The browser's half ----

  // An entry of the drop. Entries the browser fails to read are skipped.
  datatype Entry =
    | FileEntry(name: string, readable: bool, data: seq<bv8>)
    | DirEntry(name: string, readable: bool, children: seq<Entry>)

  // A file with its path inside the drop.
  datatype Pair = Pair(name: string, data: seq<bv8>, relpath: string)

  // traverseEntry, and its recursion into all children
  function TraverseEntry(entry: Entry, basePath: string): seq<Pair> {
    if !entry.readable then []
    else match entry
      case FileEntry(name, _, data) => [Pair(name, data, basePath)]
      case DirEntry(_, _, children) => TraverseAll(children, basePath)
  }

  function TraverseAll(entries: seq<Entry>, basePath: string): seq<Pair> {
    if entries == [] then []
    else
      var n := |entries| - 1;
      var child := entries[n];
      var childPath := if basePath != "" then basePath + "/" + child.name else child.name;
      TraverseAll(entries[..n], basePath) + TraverseEntry(child, childPath)
  }

  // The directory part of a path inside the drop.
  function DirPart(relpath: string): string {
    var parts := Split(relpath);
    if |parts| > 1 then Unsplit(parts[..|parts| - 1]) else ""
  }

  // The form uploadFilesWithPaths builds: two fields, in step with each other.
  method UploadFilesWithPaths(pairs: seq<Pair>) returns (files: seq<(string, seq<bv8>)>, relPaths: seq<string>)
    ensures |files| == |relPaths| == |pairs|
    ensures forall i :: 0 <= i < |pairs| ==> files[i] == (pairs[i].name, pairs[i].data)
    ensures forall i :: 0 <= i < |pairs| ==> relPaths[i] == DirPart(pairs[i].relpath)
  {
    files, relPaths := [], [];
    for i := 0 to |pairs|
      invariant |files| == |relPaths| == i
      invariant forall j :: 0 <= j < i ==> files[j] == (pairs[j].name, pairs[j].data)
      invariant forall j :: 0 <= j < i ==> relPaths[j] == DirPart(pairs[j].relpath)
    {
      files := files + [(pairs[i].name, pairs[i].data)];
      relPaths := relPaths + [DirPart(pairs[i].relpath)];
    }
  }

  // ---- What is dropped, as a tree ----

  // A file of the drop, below the directories that lead to it.
  datatype Item = Item(dirs: Path, name: string, data: seq<bv8>)

  function Below(dir: string, items: seq<Item>): (r: seq<Item>)
    ensures |r| == |items|
    ensures forall i :: 0 <= i < |r| ==> r[i] == Item([dir] + items[i].dirs, items[i].name, items[i].data)
  {
    seq(|items|, i requires 0 <= i < |items| => Item([dir] + items[i].dirs, items[i].name, items[i].data))
  }

  function ItemsOf(entry: Entry): seq<Item> {
    if !entry.readable then []
    else match entry
      case FileEntry(name, _, data) => [Item([], name, data)]
      case DirEntry(name, _, children) => Below(name, Items(children))
  }

  function Items(entries: seq<Entry>): seq<Item> {
    if entries == [] then [] else Items(entries[..|entries| - 1]) + ItemsOf(entries[|entries| - 1])
  }

  // The directory the drop stands for, without what could not be read and
  // without directories that hold no file.
  function Tree(entries: seq<Entry>): map<string, Inode> {
    if entries == [] then map[] else Tree(entries[..|entries| - 1]) + TreeOf(entries[|entries| - 1])
  }

  function TreeOf(entry: Entry): map<string, Inode> {
    if !entry.readable then map[]
    else match entry
      case FileEntry(name, _, data) => map[name := File(data)]
      case DirEntry(name, _, children) => if Tree(children) == map[] then map[] else map[name := Dir(Tree(children))]
  }

  function NamesOf(entries: seq<Entry>): set<string> {
    if entries == [] then {} else NamesOf(entries[..|entries| - 1]) + {entries[|entries| - 1].name}
  }

  // No two entries of a directory share a name, at any depth.
  predicate Distinct(entries: seq<Entry>) {
    entries == [] ||
    var front, last := entries[..|entries| - 1], entries[|entries| - 1];
    Distinct(front) && last.name !in NamesOf(front) && (last.DirEntry? ==> Distinct(last.children))
  }

  // Every name passes unchanged: it is one SanitizeFilename keeps, no directory
  // is called "_", no name is in `taken`, and at most `depth` directories nest.
  // The files are within the limits for size and extension.
  predicate Storable(entries: seq<Entry>, depth: nat, cfg: Settings, taken: set<string>) {
    entries == [] || (Storable(entries[..|entries| - 1], depth, cfg, taken)
                      && StorableEntry(entries[|entries| - 1], depth, cfg, taken))
  }

  predicate StorableEntry(entry: Entry, depth: nat, cfg: Settings, taken: set<string>) {
    entry.readable ==>
      SafeName(entry.name) && entry.name !in taken &&
      match entry
      case FileEntry(name, _, data) => ExtAllowed(name, cfg.allowed) && |data| <= cfg.maxBytes
      case DirEntry(name, _, children) =>
        depth > 0 && name != FILENAME_FALLBACK && Storable(children, depth - 1, cfg, taken)
  }

  // ---- Rebuilding ----

  function SubEntries(m: map<string, Inode>, name: string): map<string, Inode> {
    if name in m && m[name].Dir? then m[name].entries else map[]
  }

  // A directory with one more file, the directories on the way made if missing.
  function Put(m: map<string, Inode>, dirs: Path, name: string, data: seq<bv8>): map<string, Inode>
    decreases |dirs|
  {
    if dirs == [] then m[name := File(data)]
    else m[dirs[0] := Dir(Put(SubEntries(m, dirs[0]), dirs[1..], name, data))]
  }

  // The file can be put: nothing but directories on the way, the name free, and
  // none of the names in `taken` beside it.
  predicate Puttable(m: map<string, Inode>, dirs: Path, name: string, taken: set<string>)
    decreases |dirs|
  {
    if dirs == [] then name !in m && m.Keys !! taken
    else dirs[0] !in m || (m[dirs[0]].Dir? && Puttable(m[dirs[0]].entries, dirs[1..], name, taken))
  }

  function PutAll(m: map<string, Inode>, items: seq<Item>): map<string, Inode> {
    if items == [] then m
    else
      var last := items[|items| - 1];
      Put(PutAll(m, items[..|items| - 1]), last.dirs, last.name, last.data)
  }

  predicate AllPuttable(m: map<string, Inode>, items: seq<Item>, taken: set<string>) {
    items == [] ||
    var front, last := items[..|items| - 1], items[|items| - 1];
    AllPuttable(m, front, taken) && Puttable(PutAll(m, front), last.dirs, last.name, taken)
  }

  lemma {:induction false} PutAllConcat(m: map<string, Inode>, a: seq<Item>, b: seq<Item>, taken: set<string>)
    ensures PutAll(m, a + b) == PutAll(PutAll(m, a), b)
    ensures AllPuttable(m, a + b, taken) <==> AllPuttable(m, a, taken) && AllPuttable(PutAll(m, a), b, taken)
  {
    if b == [] {
      assert a + b == a;
    } else {
      var front := b[..|b| - 1];
      assert (a + b)[..|a + b| - 1] == a + front;
      PutAllConcat(m, a, front, taken);
    }
  }

  // Putting files below a name that is free fills one new directory.
  lemma {:induction false} PutAllBelow(m: map<string, Inode>, dir: string, items: seq<Item>)
    requires dir !in m
    ensures PutAll(m, Below(dir, items)) == if items == [] then m else m[dir := Dir(PutAll(map[], items))]
  {
    if items != [] {
      var n := |items| - 1;
      var front, last := items[..n], items[n];
      assert Below(dir, items)[..n] == Below(dir, front);
      PutAllBelow(m, dir, front);
      PutBelow(m, dir, PutAll(map[], front), last, front == []);
    }
  }

  // One more file below the new directory, or the first.
  lemma PutBelow(m: map<string, Inode>, dir: string, sub: map<string, Inode>, item: Item, first: bool)
    requires dir !in m && (first ==> sub == map[])
    ensures var before := if first then m else m[dir := Dir(sub)];
            && Put(before, [dir] + item.dirs, item.name, item.data)
               == m[dir := Dir(Put(sub, item.dirs, item.name, item.data))]
            && (forall taken :: Puttable(sub, item.dirs, item.name, taken) ==>
                  Puttable(before, [dir] + item.dirs, item.name, taken))
  {
    var before := if first then m else m[dir := Dir(sub)];
    assert ([dir] + item.dirs)[1..] == item.dirs;
    assert SubEntries(before, dir) == sub;
    var after := Dir(Put(sub, item.dirs, item.name, item.data));
    assert m[dir := Dir(sub)][dir := after] == m[dir := after];
  }

  lemma {:induction false} PuttableBelow(m: map<string, Inode>, dir: string, items: seq<Item>, taken: set<string>)
    requires dir !in m && AllPuttable(map[], items, taken)
    ensures AllPuttable(m, Below(dir, items), taken)
  {
    if items != [] {
      var n := |items| - 1;
      var front := items[..n];
      assert Below(dir, items)[..n] == Below(dir, front);
      PuttableBelow(m, dir, front, taken);
      PutAllBelow(m, dir, front);
      PutBelow(m, dir, PutAll(map[], front), items[n], front == []);
    }
  }

  // Something of the entry can be read.
  predicate HasFile(entry: Entry) {
    entry.readable && (entry.DirEntry? ==> exists i :: 0 <= i < |entry.children| && HasFile(entry.children[i]))
  }

  predicate Holds(entries: seq<Entry>, name: string) {
    exists i :: 0 <= i < |entries| && entries[i].name == name && HasFile(entries[i])
  }

  // What an entry with something to read stands for.
  function NodeOf(entry: Entry): Inode {
    match entry
    case FileEntry(_, _, data) => File(data)
    case DirEntry(_, _, children) => Dir(Tree(children))
  }

  // The map has the entries with something to read, each under its name.
  ghost predicate ShowsAll(m: map<string, Inode>, entries: seq<Entry>) {
    && (forall name :: name in m <==> Holds(entries, name))
    && (forall i :: 0 <= i < |entries| && HasFile(entries[i]) ==>
          entries[i].name in m && m[entries[i].name] == NodeOf(entries[i]))
  }

  // So has the tree: a file with its content, a directory with the tree of its
  // children.
  lemma {:induction false} TreeMeans(entries: seq<Entry>)
    requires Distinct(entries)
    ensures ShowsAll(Tree(entries), entries)
    decreases entries
  {
    if entries != [] {
      var front, last := entries[..|entries| - 1], entries[|entries| - 1];
      TreeMeans(front);
      if last.DirEntry? {
        TreeMeans(last.children);
      }
      TreeOfMeans(last);
      NamesAt(front);
      ShowsOneMore(Tree(front), front, last);
      assert entries == front + [last];
    }
  }

  lemma ShowsOneMore(m: map<string, Inode>, front: seq<Entry>, last: Entry)
    requires ShowsAll(m, front) && forall i :: 0 <= i < |front| ==> front[i].name != last.name
    ensures ShowsAll(m + if HasFile(last) then map[last.name := NodeOf(last)] else map[], front + [last])
  {
    var entries := front + [last];
    var more := if HasFile(last) then map[last.name := NodeOf(last)] else map[];
    HoldsOneMore(entries);
    assert entries[..|front|] == front;
    forall i | 0 <= i < |entries| && HasFile(entries[i])
      ensures entries[i].name in m + more && (m + more)[entries[i].name] == NodeOf(entries[i])
    {
      assert i < |front| ==> entries[i] == front[i];
    }
  }

  lemma TreeOfMeans(entry: Entry)
    requires entry.DirEntry? ==> forall name :: name in Tree(entry.children) <==> Holds(entry.children, name)
    ensures TreeOf(entry) == if HasFile(entry) then map[entry.name := NodeOf(entry)] else map[]
  {
    if entry.DirEntry? && entry.readable {
      if i :| 0 <= i < |entry.children| && HasFile(entry.children[i]) {
        assert Holds(entry.children, entry.children[i].name);
      } else {
        assert Tree(entry.children).Keys == {};
      }
    }
  }

  lemma HoldsOneMore(entries: seq<Entry>)
    requires entries != []
    ensures var n := |entries| - 1;
            forall name :: Holds(entries, name) <==>
              Holds(entries[..n], name) || (entries[n].name == name && HasFile(entries[n]))
  {
    var n := |entries| - 1;
    forall name
      ensures Holds(entries, name) <==> Holds(entries[..n], name) || (entries[n].name == name && HasFile(entries[n]))
    {
      if Holds(entries[..n], name) {
        var i :| 0 <= i < n && entries[..n][i].name == name && HasFile(entries[..n][i]);
        assert entries[i].name == name && HasFile(entries[i]);
      }
      if Holds(entries, name) {
        var i :| 0 <= i < |entries| && entries[i].name == name && HasFile(entries[i]);
        assert i < n ==> entries[..n][i].name == name && HasFile(entries[..n][i]);
      }
    }
  }

  lemma {:induction false} NamesAt(entries: seq<Entry>)
    ensures forall i :: 0 <= i < |entries| ==> entries[i].name in NamesOf(entries)
  {
    if entries != [] {
      NamesAt(entries[..|entries| - 1]);
    }
  }

  // A directory without files is one that puts nothing.
  lemma {:induction false} TreeIsEmpty(entries: seq<Entry>)
    ensures Items(entries) == [] <==> Tree(entries) == map[]
    decreases entries
  {
    if entries != [] {
      var front, last := entries[..|entries| - 1], entries[|entries| - 1];
      TreeIsEmpty(front);
      if last.DirEntry? {
        TreeIsEmpty(last.children);
      }
      assert TreeOf(last) != map[] <==> last.name in TreeOf(last);
      assert TreeOf(last) != map[] <==> ItemsOf(last) != [];
      UnionIsEmpty(Tree(front), TreeOf(last));
    }
  }

  lemma UnionIsEmpty(a: map<string, Inode>, b: map<string, Inode>)
    ensures a + b == map[] <==> a == map[] && b == map[]
  {
    if a != map[] {
      var k :| k in a;
      assert k in a + b;
    }
    if b != map[] {
      var k :| k in b;
      assert k in a + b;
    }
  }

  lemma {:induction false} TreeNames(entries: seq<Entry>, depth: nat, cfg: Settings, taken: set<string>)
    requires Storable(entries, depth, cfg, taken)
    ensures Tree(entries).Keys <= NamesOf(entries) - taken
  {
    if entries != [] {
      TreeNames(entries[..|entries| - 1], depth, cfg, taken);
    }
  }

  // Putting the flattened files one by one rebuilds the tree they come from.
  lemma {:induction false} PutAllRebuilds(m: map<string, Inode>, entries: seq<Entry>, depth: nat, cfg: Settings,
                                          taken: set<string>)
    requires Distinct(entries) && Storable(entries, depth, cfg, taken)
    requires m.Keys !! taken && m.Keys !! NamesOf(entries)
    ensures PutAll(m, Items(entries)) == m + Tree(entries)
    ensures AllPuttable(m, Items(entries), taken)
    decreases entries
  {
    if entries == [] {
      assert m + Tree(entries) == m;
    } else {
      var n := |entries| - 1;
      var front, last := entries[..n], entries[n];
      PutAllRebuilds(m, front, depth, cfg, taken);
      TreeNames(front, depth, cfg, taken);
      var m1 := m + Tree(front);
      assert m1.Keys == m.Keys + Tree(front).Keys;
      EntryRebuilds(m1, last, depth, cfg, taken);
      OneMoreEntry(m, Items(front), ItemsOf(last), Tree(front), TreeOf(last), taken);
    }
  }

  lemma OneMoreEntry(m: map<string, Inode>, a: seq<Item>, b: seq<Item>, ta: map<string, Inode>, tb: map<string, Inode>,
                     taken: set<string>)
    requires PutAll(m, a) == m + ta && AllPuttable(m, a, taken)
    requires PutAll(m + ta, b) == (m + ta) + tb && AllPuttable(m + ta, b, taken)
    ensures PutAll(m, a + b) == m + (ta + tb) && AllPuttable(m, a + b, taken)
  {
    UnionAssociates(m, ta, tb);
    PutAllConcat(m, a, b, taken);
  }

  lemma UnionAssociates(a: map<string, Inode>, b: map<string, Inode>, c: map<string, Inode>)
    ensures a + (b + c) == (a + b) + c
  {
  }

  lemma {:induction false} EntryRebuilds(m: map<string, Inode>, entry: Entry, depth: nat, cfg: Settings,
                                         taken: set<string>)
    requires (entry.DirEntry? ==> Distinct(entry.children)) && StorableEntry(entry, depth, cfg, taken)
    requires m.Keys !! taken && entry.name !in m
    ensures PutAll(m, ItemsOf(entry)) == m + TreeOf(entry)
    ensures AllPuttable(m, ItemsOf(entry), taken)
    decreases entry
  {
    if !entry.readable {
      assert m + map[] == m;
    } else if entry.FileEntry? {
      FileRebuilds(m, entry.name, entry.data, taken);
    } else {
      PutAllRebuilds(map[], entry.children, depth - 1, cfg, taken);
      TreeIsEmpty(entry.children);
      DirRebuilds(m, entry.name, Items(entry.children), Tree(entry.children), taken);
    }
  }

  lemma DirRebuilds(m: map<string, Inode>, name: string, items: seq<Item>, tree: map<string, Inode>, taken: set<string>)
    requires name !in m && (items == [] <==> tree == map[])
    requires PutAll(map[], items) == map[] + tree && AllPuttable(map[], items, taken)
    ensures PutAll(m, Below(name, items)) == m + if tree == map[] then map[] else map[name := Dir(tree)]
    ensures AllPuttable(m, Below(name, items), taken)
  {
    PutAllBelow(m, name, items);
    PuttableBelow(m, name, items, taken);
    assert map[] + tree == tree;
    AddOne(m, name, Dir(tree));
  }

  lemma AddOne(m: map<string, Inode>, name: string, inode: Inode)
    ensures m + map[] == m && m + map[name := inode] == m[name := inode]
  {
  }

  lemma FileRebuilds(m: map<string, Inode>, name: string, data: seq<bv8>, taken: set<string>)
    requires m.Keys !! taken && name !in m
    ensures PutAll(m, [Item([], name, data)]) == m + map[name := File(data)]
    ensures AllPuttable(m, [Item([], name, data)], taken)
  {
    var items := [Item([], name, data)];
    assert items[..0] == [];
    AddOne(m, name, File(data));
  }

  // ---- The relpath strings ----

  // The path of each file inside the drop, as the browser writes it.
  predicate PairOf(pair: Pair, base: Path, item: Item) {
    pair == Pair(item.name, item.data, Unsplit(base + item.dirs + [item.name]))
  }

  // Only names without slashes can be told apart again in a path.
  predicate SlashFreeNames(entries: seq<Entry>) {
    entries == [] ||
    var last := entries[|entries| - 1];
    && SlashFreeNames(entries[..|entries| - 1])
    && last.name != "" && '/' !in last.name && (last.DirEntry? ==> SlashFreeNames(last.children))
  }

  predicate PairsOf(pairs: seq<Pair>, base: Path, items: seq<Item>) {
    |pairs| == |items| && forall i :: 0 <= i < |items| ==> PairOf(pairs[i], base, items[i])
  }

  lemma PairsConcat(pairs: seq<Pair>, more: seq<Pair>, base: Path, items: seq<Item>, others: seq<Item>)
    requires PairsOf(pairs, base, items) && PairsOf(more, base, others)
    ensures PairsOf(pairs + more, base, items + others)
  {
  }

  lemma {:induction false} TraverseGivesItems(entries: seq<Entry>, base: Path, basePath: string)
    requires SlashFreeNames(entries) && basePath == Unsplit(base) && (base == [] <==> basePath == "")
    ensures PairsOf(TraverseAll(entries, basePath), base, Items(entries))
    decreases entries, 1
  {
    if entries != [] {
      var n := |entries| - 1;
      TraverseGivesItems(entries[..n], base, basePath);
      var childPath := if basePath != "" then basePath + "/" + entries[n].name else entries[n].name;
      EntryGivesItems(entries[n], base, childPath);
      PairsConcat(TraverseAll(entries[..n], basePath), TraverseEntry(entries[n], childPath), base,
                  Items(entries[..n]), ItemsOf(entries[n]));
    }
  }

  lemma {:induction false} EntryGivesItems(entry: Entry, base: Path, path: string)
    requires entry.name != "" && '/' !in entry.name && (entry.DirEntry? ==> SlashFreeNames(entry.children))
    requires path == if base != [] then Unsplit(base) + "/" + entry.name else entry.name
    ensures PairsOf(TraverseEntry(entry, path), base, ItemsOf(entry))
    decreases entry, 0
  {
    var here := base + [entry.name];
    if base != [] {
      UnsplitConcat(base, [entry.name]);
    } else {
      assert here == [entry.name];
    }
    assert path == Unsplit(here) && path != "";
    if entry.readable && entry.DirEntry? {
      TraverseGivesItems(entry.children, here, path);
      PairsBelow(TraverseAll(entry.children, path), base, entry.name, Items(entry.children));
    } else if entry.readable {
      assert base + [] + [entry.name] == here;
    }
  }

  lemma PairsBelow(pairs: seq<Pair>, base: Path, dir: string, items: seq<Item>)
    requires PairsOf(pairs, base + [dir], items)
    ensures PairsOf(pairs, base, Below(dir, items))
  {
    forall i | 0 <= i < |items|
      ensures PairOf(pairs[i], base, Below(dir, items)[i])
    {
      assert PairOf(pairs[i], base + [dir], items[i]);
      assert base + [dir] + items[i].dirs + [items[i].name] == base + ([dir] + items[i].dirs) + [items[i].name];
    }
  }

  // The directory part the form carries for a file.
  lemma DirPartOfItem(dirs: Path, name: string)
    requires SlashFree(dirs) && '/' !in name
    ensures DirPart(Unsplit(dirs + [name])) == if dirs == [] then "" else Unsplit(dirs)
  {
    var all := dirs + [name];
    SplitUnsplit(all);
    assert all[..|all| - 1] == dirs;
  }

  // ---- The server's half ----

  // A file the upload accepts as it is.
  predicate Acceptable(item: Item, depth: nat, cfg: Settings, taken: set<string>) {
    && |item.dirs| <= depth && SafeName(item.name) && item.name !in taken
    && (forall i :: 0 <= i < |item.dirs| ==> Keepable(item.dirs[i]))
    && ExtAllowed(item.name, cfg.allowed) && |item.data| <= cfg.maxBytes
  }

  lemma {:induction false} ItemsAreAcceptable(entries: seq<Entry>, depth: nat, cfg: Settings, taken: set<string>)
    requires Storable(entries, depth, cfg, taken)
    ensures forall i :: 0 <= i < |Items(entries)| ==> Acceptable(Items(entries)[i], depth, cfg, taken)
    decreases entries
  {
    if entries != [] {
      var last := entries[|entries| - 1];
      ItemsAreAcceptable(entries[..|entries| - 1], depth, cfg, taken);
      if last.readable && last.DirEntry? {
        ItemsAreAcceptable(last.children, depth - 1, cfg, taken);
        forall i | 0 <= i < |ItemsOf(last)|
          ensures Acceptable(ItemsOf(last)[i], depth, cfg, taken)
        {
          assert Acceptable(Items(last.children)[i], depth - 1, cfg, taken);
        }
      }
    }
  }

  lemma NothingIsPuttable(dirs: Path, name: string, taken: set<string>)
    ensures Puttable(map[], dirs, name, taken)
  {
  }

  // Making the directories and storing the file is putting it.
  lemma {:induction false} PutMakes(m: map<string, Inode>, dirs: Path, name: string, data: seq<bv8>, taken: set<string>)
    requires Puttable(m, dirs, name, taken)
    ensures var t := MakeDirs(Dir(m), dirs);
            && IsDir(t, dirs) && name !in Entries(t, dirs) && Entries(t, dirs).Keys !! taken
            && Replace(t, dirs, Entries(t, dirs)[name := File(data)]) == Dir(Put(m, dirs, name, data))
    decreases |dirs|
  {
    if dirs != [] {
      NothingIsPuttable(dirs[1..], name, taken);
      var sub := SubEntries(m, dirs[0]);
      PutMakes(sub, dirs[1..], name, data, taken);
      var made := MakeDirs(Dir(sub), dirs[1..]);
      var t := MakeDirs(Dir(m), dirs);
      assert t == Dir(m[dirs[0] := made]);
      assert m[dirs[0] := made][dirs[0] := Dir(Put(sub, dirs[1..], name, data))]
             == m[dirs[0] := Dir(Put(sub, dirs[1..], name, data))];
    }
  }

  lemma {:induction false} PuttableIsClear(m: map<string, Inode>, dirs: Path, name: string, taken: set<string>, j: nat)
    requires Puttable(m, dirs, name, taken) && j <= |dirs|
    ensures Exists(Dir(m), dirs[..j]) ==> IsDir(Dir(m), dirs[..j])
    decreases |dirs|
  {
    if j > 0 && dirs[0] in m {
      PuttableIsClear(m[dirs[0]].entries, dirs[1..], name, taken, j - 1);
      assert dirs[..j][1..] == dirs[1..][..j - 1];
    }
  }

  lemma ClearAndMakeable(t: Inode, p: Path, dirs: Path, name: string, taken: set<string>)
    requires t.Dir? && IsDir(t, p) && Puttable(Entries(t, p), dirs, name, taken)
    ensures ClearBelow(t, p, dirs) && Makeable(t, p + dirs)
  {
    forall j | 0 <= j <= |dirs|
      ensures Exists(t, p + dirs[..j]) ==> IsDir(t, p + dirs[..j])
    {
      PuttableIsClear(Entries(t, p), dirs, name, taken, j);
      LookupConcat(t, p, dirs[..j]);
    }
    forall j | 0 <= j <= |p + dirs|
      ensures Exists(t, (p + dirs)[..j]) ==> IsDir(t, (p + dirs)[..j])
    {
      if j < |p| {
        AncestorIsDir(t, p, j);
        assert (p + dirs)[..j] == p[..j];
      } else {
        assert (p + dirs)[..j] == p + dirs[..j - |p|];
      }
    }
  }

  // With nothing in the way, the file gets its own name.
  lemma QuietWriteSucceeds(t: Inode, p: Path, cfg: Settings, item: Item, depth: nat, env: Env, taken: set<string>)
    requires IsDir(t, p) && item.name !in Entries(t, p) && Entries(t, p).Keys !! taken
    requires Acceptable(item, depth, cfg, taken) && cfg.maxBytes < MAX_INT64 && env.Quiet() && env.tempName in taken
    ensures WriteOutcome(t, p, cfg, item.name, Reader(item.data, false), env) == Ok(item.name)
    ensures Copied(Reader(item.data, false), cfg.maxBytes) == item.data
  {
    var names := Candidates(item.name, env.stamps);
    var with := WithTemp(t, p, env.tempName, item.data);
    assert FirstFree(Entries(with, p).Keys, names) == Some(0);
  }

  // Where the browsed directory is, and that it is one.
  predicate Browses(t: Inode, cfg: Settings, cur: string, dir: Path)
    requires t.Dir?
  {
    && SafeTarget(t, cfg.site.Root(), cur) == Ok(dir) && IsDir(t, dir)
    && ResolvedRoot(t, cfg.site.Root()) != []
  }

  function RelDirOf(item: Item): string {
    if item.dirs == [] then "" else Unsplit(item.dirs)
  }

  lemma SanitizedDirs(dirs: Path)
    requires dirs != [] && forall i :: 0 <= i < |dirs| ==> Keepable(dirs[i])
    ensures AllPlain(dirs) && NulFree(dirs) && Unsplit(dirs) != ""
    ensures SanitizedParts(Split(Unsplit(dirs))) == dirs
  {
    SanitizedPartsFixed(dirs);
    SanitizedPartsSlashFree(dirs);
    SplitUnsplit(dirs);
    UnsplitNonEmpty(dirs);
  }

  // Where a file of the drop is written.
  lemma ItemTarget(t: Inode, cfg: Settings, cur: string, dir: Path, item: Item, taken: set<string>)
    requires t.Dir? && Browses(t, cfg, cur, dir) && Acceptable(item, MAX_REL_PATH_DEPTH, cfg, taken)
    requires Puttable(Entries(t, dir), item.dirs, item.name, taken)
    requires item.dirs != [] ==> |Join(cur, Unsplit(item.dirs))| <= MAX_PATH_LENGTH
    ensures AuditDir(cur, RelDirOf(item)) == if item.dirs == [] then cur else Join(cur, Unsplit(item.dirs))
    ensures SafeTarget(t, cfg.site.Root(), AuditDir(cur, RelDirOf(item))) == Ok(dir + item.dirs)
    ensures item.dirs != [] ==> RelTarget(t, cfg, cur, RelDirOf(item)) == Ok(dir + item.dirs)
    ensures Makeable(t, dir + item.dirs)
  {
    ClearAndMakeable(t, dir, item.dirs, item.name, taken);
    if item.dirs == [] {
      assert dir + item.dirs == dir;
    } else {
      SanitizedDirs(item.dirs);
      BelowTarget(t, cfg.site.Root(), cur, item.dirs);
    }
  }

  // Storing a file of the drop is putting it in the browsed directory.
  lemma StoredIsPut(t: Inode, dir: Path, item: Item, taken: set<string>)
    requires IsDir(t, dir) && t.Dir? && Puttable(Entries(t, dir), item.dirs, item.name, taken)
    ensures var p := dir + item.dirs;
            var base := MakeDirs(t, p);
            && IsDir(base, p) && item.name !in Entries(base, p) && Entries(base, p).Keys !! taken
            && Replace(base, p, Entries(base, p)[item.name := File(item.data)])
               == Replace(t, dir, Put(Entries(t, dir), item.dirs, item.name, item.data))
  {
    var m := Entries(t, dir);
    var made := MakeDirs(Dir(m), item.dirs);
    PutMakes(m, item.dirs, item.name, item.data, taken);
    MakeDirsBelow(t, dir, item.dirs);
    ReplaceEntries(t, dir, made.entries);
    var base := Replace(t, dir, made.entries);
    LookupConcat(base, dir, item.dirs);
    var m' := Entries(made, item.dirs)[item.name := File(item.data)];
    ReplaceBelow(base, dir, item.dirs, m');
    ReplaceTwice(t, dir, made.entries, Replace(made, item.dirs, m').entries);
  }

  // The form part that carries a file of the drop; nothing fails around it.
  predicate Carries(file: FilePart, item: Item, taken: set<string>) {
    && file.filename == item.name && file.opens && file.data == Reader(item.data, false)
    && file.env.Quiet() && file.env.tempName in taken
  }

  // A file at the top of the drop is written flat.
  lemma FlatResult(t: Inode, cfg: Settings, cur: string, dir: Path, name: string, data: Reader, env: Env)
    requires t.Dir? && Browses(t, cfg, cur, dir) && SafeName(name) && ExtAllowed(name, cfg.allowed) && !cfg.readonly
    ensures WriteResult(t, cfg, cur, "", name, data, env) == WriteOutcome(t, dir, cfg, name, data, env)
  {
    SafeIsFixed(name);
  }

  // Any other is written into its directory, which is made if need be.
  lemma NestedResult(t: Inode, cfg: Settings, cur: string, relDir: string, p: Path, name: string, data: Reader, env: Env)
    requires t.Dir? && relDir != "" && RelTarget(t, cfg, cur, relDir) == Ok(p) && CanMake(t, p, env)
    requires SafeName(name) && ExtAllowed(name, cfg.allowed) && IsDir(MakeDirs(t, p), p)
    ensures WriteResult(t, cfg, cur, relDir, name, data, env) == WriteOutcome(MakeDirs(t, p), p, cfg, name, data, env)
  {
    SafeIsFixed(name);
  }

  lemma ItemSucceeds(t: Inode, cfg: Settings, cur: string, dir: Path, item: Item, env: Env, taken: set<string>)
    requires t.Dir? && Browses(t, cfg, cur, dir) && Acceptable(item, MAX_REL_PATH_DEPTH, cfg, taken)
    requires Puttable(Entries(t, dir), item.dirs, item.name, taken)
    requires item.dirs != [] ==> |Join(cur, Unsplit(item.dirs))| <= MAX_PATH_LENGTH
    requires !cfg.readonly && cfg.maxBytes < MAX_INT64 && env.Quiet() && env.tempName in taken
    ensures WriteResult(t, cfg, cur, RelDirOf(item), item.name, Reader(item.data, false), env) == Ok(item.name)
  {
    var p, data := dir + item.dirs, Reader(item.data, false);
    ItemTarget(t, cfg, cur, dir, item, taken);
    StoredIsPut(t, dir, item, taken);
    QuietWriteSucceeds(MakeDirs(t, p), p, cfg, item, MAX_REL_PATH_DEPTH, env, taken);
    if item.dirs == [] {
      assert p == dir;
      MakeDirsExisting(t, dir);
      FlatResult(t, cfg, cur, dir, item.name, data, env);
    } else {
      SanitizedDirs(item.dirs);
      NestedResult(t, cfg, cur, RelDirOf(item), p, item.name, data, env);
    }
  }

  // One file of the drop, uploaded: it succeeds under its own name, and the
  // browsed directory has it where the drop had it.
  lemma ItemIsPut(t: Inode, t': Inode, cfg: Settings, cur: string, dir: Path, item: Item, file: FilePart,
                  r: UploadResult, taken: set<string>)
    requires t.Dir? && Browses(t, cfg, cur, dir) && Acceptable(item, MAX_REL_PATH_DEPTH, cfg, taken)
    requires Puttable(Entries(t, dir), item.dirs, item.name, taken)
    requires item.dirs != [] ==> |Join(cur, Unsplit(item.dirs))| <= MAX_PATH_LENGTH
    requires !cfg.readonly && cfg.maxBytes < MAX_INT64 && Carries(file, item, taken)
    requires FileStep(cfg, cur, RelDirOf(item), item.name, file, t, t', r)
    requires FileAnswer(cfg, cur, RelDirOf(item), item.name, file, t, r)
    ensures r.error.None? && r.finalName == item.name && Extends(t, t')
    ensures t' == Replace(t, dir, Put(Entries(t, dir), item.dirs, item.name, item.data))
  {
    ItemSucceeds(t, cfg, cur, dir, item, file.env, taken);
    ItemTarget(t, cfg, cur, dir, item, taken);
    StoredIsPut(t, dir, item, taken);
    var p := dir + item.dirs;
    QuietWriteSucceeds(MakeDirs(t, p), p, cfg, item, MAX_REL_PATH_DEPTH, file.env, taken);
    StoresFile(t, t', p, item.name, item.data);
  }

  // The same, with the browsed directory as it has become since t0.
  lemma NextItemIsPut(t0: Inode, t: Inode, t': Inode, cfg: Settings, cur: string, dir: Path, m: map<string, Inode>,
                      item: Item, file: FilePart, r: UploadResult, taken: set<string>)
    requires t.Dir? && IsDir(t0, dir) && t == Replace(t0, dir, m)
    requires Browses(t, cfg, cur, dir) && Acceptable(item, MAX_REL_PATH_DEPTH, cfg, taken)
    requires Puttable(m, item.dirs, item.name, taken)
    requires item.dirs != [] ==> |Join(cur, Unsplit(item.dirs))| <= MAX_PATH_LENGTH
    requires !cfg.readonly && cfg.maxBytes < MAX_INT64 && Carries(file, item, taken)
    requires FileStep(cfg, cur, RelDirOf(item), item.name, file, t, t', r)
    requires FileAnswer(cfg, cur, RelDirOf(item), item.name, file, t, r)
    ensures r.error.None? && r.finalName == item.name
    ensures t' == Replace(t0, dir, Put(m, item.dirs, item.name, item.data)) && Browses(t', cfg, cur, dir)
  {
    var after := Put(m, item.dirs, item.name, item.data);
    ReplaceEntries(t0, dir, m);
    ItemIsPut(t, t', cfg, cur, dir, item, file, r, taken);
    BrowsesOn(t, t', cfg, cur, dir, after);
    ReplaceTwice(t0, dir, m, after);
  }

  // The browsed directory stays where it is.
  lemma BrowsesOn(t: Inode, t': Inode, cfg: Settings, cur: string, dir: Path, m: map<string, Inode>)
    requires t.Dir? && t'.Dir? && Browses(t, cfg, cur, dir) && t' == Replace(t, dir, m) && Extends(t, t')
    ensures Browses(t', cfg, cur, dir) && Entries(t', dir) == m
  {
    ReplaceEntries(t, dir, m);
    RevalidationAgrees(t, t', cfg.site.Root(), cur);
    WalkExtends(t, t', [], cfg.site.Root(), EVAL_LINKS);
  }

  // A request that carries the files of a drop.
  ghost predicate CarriesAll(q: Request, items: seq<Item>, taken: set<string>) {
    && |q.files| == |items| && !q.clipboard
    && (forall i :: 0 <= i < |items| ==> Carries(q.files[i], items[i], taken) && q.RelDirOf(i) == RelDirOf(items[i]))
  }

  ghost predicate AllAcceptable(items: seq<Item>, cfg: Settings, cur: string, taken: set<string>) {
    forall i :: 0 <= i < |items| ==>
      Acceptable(items[i], MAX_REL_PATH_DEPTH, cfg, taken)
      && (items[i].dirs != [] ==> |Join(cur, Unsplit(items[i].dirs))| <= MAX_PATH_LENGTH)
  }

  lemma {:induction false} PuttableUpTo(m: map<string, Inode>, items: seq<Item>, taken: set<string>, n: nat)
    requires AllPuttable(m, items, taken) && n < |items|
    ensures Puttable(PutAll(m, items[..n]), items[n].dirs, items[n].name, taken)
  {
    if n < |items| - 1 {
      PuttableUpTo(m, items[..|items| - 1], taken, n);
      assert items[..|items| - 1][..n] == items[..n];
    }
  }

  // What one file does to the browsed directory, whatever m is in it, as long as
  // the trees are `good`.
  ghost predicate Puts(t0: Inode, t: Inode, t': Inode, good: Inode -> bool, dir: Path,
                       item: Item, r: UploadResult, taken: set<string>)
    requires IsDir(t0, dir)
  {
    forall m :: t == Replace(t0, dir, m) && good(t) && Puttable(m, item.dirs, item.name, taken) ==>
      && r.error.None? && r.finalName == item.name
      && t' == Replace(t0, dir, Put(m, item.dirs, item.name, item.data)) && good(t')
  }

  function Browsing(cfg: Settings, cur: string, dir: Path): Inode -> bool {
    (t: Inode) => t.Dir? && Browses(t, cfg, cur, dir)
  }

  lemma ChainStepPuts(cfg: Settings, q: Request, trees: seq<Inode>, results: seq<UploadResult>,
                      items: seq<Item>, dir: Path, taken: set<string>, i: nat)
    requires Chain(cfg, q, trees, results) && CarriesAll(q, items, taken) && AllAcceptable(items, cfg, q.RelPath(), taken)
    requires i < |results| == |items| && !cfg.readonly && cfg.maxBytes < MAX_INT64 && IsDir(trees[0], dir)
    ensures Puts(trees[0], trees[i], trees[i + 1], Browsing(cfg, q.RelPath(), dir), dir, items[i], results[i], taken)
  {
    ChainAt(cfg, q, trees, results, i);
    forall m | trees[i] == Replace(trees[0], dir, m) && Browsing(cfg, q.RelPath(), dir)(trees[i])
               && Puttable(m, items[i].dirs, items[i].name, taken)
      ensures results[i].error.None? && results[i].finalName == items[i].name
      ensures trees[i + 1] == Replace(trees[0], dir, Put(m, items[i].dirs, items[i].name, items[i].data))
      ensures Browsing(cfg, q.RelPath(), dir)(trees[i + 1])
    {
      NextItemIsPut(trees[0], trees[i], trees[i + 1], cfg, q.RelPath(), dir, m, items[i], q.files[i], results[i], taken);
    }
  }

  lemma PutsOnce(t0: Inode, t: Inode, t': Inode, good: Inode -> bool, dir: Path,
                 item: Item, r: UploadResult, taken: set<string>, m: map<string, Inode>)
    requires IsDir(t0, dir) && Puts(t0, t, t', good, dir, item, r, taken)
    requires t == Replace(t0, dir, m) && good(t) && Puttable(m, item.dirs, item.name, taken)
    ensures r.error.None? && r.finalName == item.name
    ensures t' == Replace(t0, dir, Put(m, item.dirs, item.name, item.data)) && good(t')
  {
  }

  // After n files, the browsed directory has exactly the first n put into it.
  lemma {:induction false} StepsPutAll(trees: seq<Inode>, results: seq<UploadResult>, items: seq<Item>,
                                       good: Inode -> bool, dir: Path, taken: set<string>, n: nat)
    requires n <= |items| == |results| && |trees| == |items| + 1
    requires IsDir(trees[0], dir) && good(trees[0]) && AllPuttable(Entries(trees[0], dir), items, taken)
    requires forall i :: 0 <= i < |items| ==> Puts(trees[0], trees[i], trees[i + 1], good, dir, items[i], results[i], taken)
    ensures trees[n] == Replace(trees[0], dir, PutAll(Entries(trees[0], dir), items[..n])) && good(trees[n])
    ensures n > 0 ==> results[n - 1].error.None? && results[n - 1].finalName == items[n - 1].name
    decreases n
  {
    var m := Entries(trees[0], dir);
    if n == 0 {
      ReplaceSame(trees[0], dir);
    } else {
      var k := n - 1;
      StepsPutAll(trees, results, items, good, dir, taken, k);
      PuttableUpTo(m, items, taken, k);
      assert Puts(trees[0], trees[k], trees[k + 1], good, dir, items[k], results[k], taken);
      PutsOnce(trees[0], trees[k], trees[n], good, dir, items[k], results[k], taken, PutAll(m, items[..k]));
      assert items[..n][..k] == items[..k];
    }
  }

  lemma AllStepsPut(trees: seq<Inode>, results: seq<UploadResult>, items: seq<Item>,
                    good: Inode -> bool, dir: Path, taken: set<string>)
    requires |items| == |results| && |trees| == |items| + 1
    requires IsDir(trees[0], dir) && good(trees[0]) && AllPuttable(Entries(trees[0], dir), items, taken)
    requires forall i :: 0 <= i < |items| ==> Puts(trees[0], trees[i], trees[i + 1], good, dir, items[i], results[i], taken)
    ensures trees[|items|] == Replace(trees[0], dir, PutAll(Entries(trees[0], dir), items))
    ensures forall i :: 0 <= i < |items| ==> results[i].error.None? && results[i].finalName == items[i].name
  {
    forall i | 0 <= i < |items|
      ensures results[i].error.None? && results[i].finalName == items[i].name
    {
      StepsPutAll(trees, results, items, good, dir, taken, i + 1);
    }
    StepsPutAll(trees, results, items, good, dir, taken, |items|);
    assert items[..|items|] == items;
  }

  lemma BatchPutsAll(cfg: Settings, q: Request, trees: seq<Inode>, results: seq<UploadResult>,
                     items: seq<Item>, dir: Path, taken: set<string>)
    requires Chain(cfg, q, trees, results) && CarriesAll(q, items, taken) && AllAcceptable(items, cfg, q.RelPath(), taken)
    requires |results| == |items| && !cfg.readonly && cfg.maxBytes < MAX_INT64
    requires Browses(trees[0], cfg, q.RelPath(), dir) && AllPuttable(Entries(trees[0], dir), items, taken)
    ensures trees[|items|] == Replace(trees[0], dir, PutAll(Entries(trees[0], dir), items))
    ensures forall i :: 0 <= i < |items| ==> results[i].error.None? && results[i].finalName == items[i].name
  {
    var good := Browsing(cfg, q.RelPath(), dir);
    forall i | 0 <= i < |items|
      ensures Puts(trees[0], trees[i], trees[i + 1], good, dir, items[i], results[i], taken)
    {
      ChainStepPuts(cfg, q, trees, results, items, dir, taken, i);
    }
    AllStepsPut(trees, results, items, good, dir, taken);
  }

  // ---- The round trip ----

  // The request the browser sends for a drop.
  ghost predicate Sends(q: Request, entries: seq<Entry>, taken: set<string>) {
    var pairs := TraverseAll(entries, "");
    && |q.files| == |q.relPaths| == |pairs| && !q.clipboard
    && (forall i :: 0 <= i < |pairs| ==>
          && q.files[i].filename == pairs[i].name && q.files[i].data == Reader(pairs[i].data, false)
          && q.relPaths[i] == DirPart(pairs[i].relpath)
          && q.files[i].opens && q.files[i].env.Quiet() && q.files[i].env.tempName in taken)
  }

  lemma SentIsCarried(q: Request, entries: seq<Entry>, cfg: Settings, taken: set<string>)
    requires SlashFreeNames(entries) && Sends(q, entries, taken) && Storable(entries, MAX_REL_PATH_DEPTH, cfg, taken)
    ensures CarriesAll(q, Items(entries), taken)
  {
    var items, pairs := Items(entries), TraverseAll(entries, "");
    TraverseGivesItems(entries, [], "");
    ItemsAreAcceptable(entries, MAX_REL_PATH_DEPTH, cfg, taken);
    forall i | 0 <= i < |items|
      ensures Carries(q.files[i], items[i], taken) && q.RelDirOf(i) == RelDirOf(items[i])
    {
      assert PairOf(pairs[i], [], items[i]) && Acceptable(items[i], MAX_REL_PATH_DEPTH, cfg, taken);
      assert [] + items[i].dirs + [items[i].name] == items[i].dirs + [items[i].name];
      forall j | 0 <= j < |items[i].dirs|
        ensures '/' !in items[i].dirs[j]
      {
        SafeNameIsPlain(items[i].dirs[j]);
      }
      SafeNameIsPlain(items[i].name);
      DirPartOfItem(items[i].dirs, items[i].name);
    }
  }

  // Dropping a folder into a directory adds the folder's tree to it, as it was
  // but for empty directories, and every file arrives under its own name. An
  // empty directory becomes exactly the drop.
  lemma {:induction false} FolderRoundTrip(cfg: Settings, q: Request, trees: seq<Inode>, results: seq<UploadResult>,
                                           entries: seq<Entry>, dir: Path, taken: set<string>)
    requires SlashFreeNames(entries) && Distinct(entries) && Storable(entries, MAX_REL_PATH_DEPTH, cfg, taken)
    requires Sends(q, entries, taken) && Chain(cfg, q, trees, results) && |results| == |q.files|
    requires !cfg.readonly && cfg.maxBytes < MAX_INT64
    requires Browses(trees[0], cfg, q.RelPath(), dir)
    requires Entries(trees[0], dir).Keys !! taken && Entries(trees[0], dir).Keys !! NamesOf(entries)
    requires forall i :: 0 <= i < |Items(entries)| && Items(entries)[i].dirs != [] ==>
               |Join(q.RelPath(), Unsplit(Items(entries)[i].dirs))| <= MAX_PATH_LENGTH
    ensures trees[|results|] == Replace(trees[0], dir, Entries(trees[0], dir) + Tree(entries))
    ensures forall i :: 0 <= i < |results| ==> results[i].error.None? && results[i].finalName == q.files[i].filename
  {
    var items := Items(entries);
    SentIsCarried(q, entries, cfg, taken);
    ItemsAreAcceptable(entries, MAX_REL_PATH_DEPTH, cfg, taken);
    PutAllRebuilds(Entries(trees[0], dir), entries, MAX_REL_PATH_DEPTH, cfg, taken);
    BatchPutsAll(cfg, q, trees, results, items, dir, taken);
  }
}
