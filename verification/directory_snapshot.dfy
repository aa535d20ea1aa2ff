/** A directory tree flattened into an ordered list and written back into a file system. */
module DirectorySnapshots {
  import opened Wrappers
  import opened Selections
  import opened TextRewriting

  type Path = seq<string>
  /** What a path names. `Other` is anything that is neither a file nor a directory. */
  datatype Node = Directory | File(contents: Bytes, mode: nat) | Other

  /** Everything under one root, by path relative to it; the root itself is the empty path. */
  type Tree = map<Path, Node>

  function Parent(path: Path): Path
    requires path != []
  {
    path[..|path| - 1]
  }

  predicate IsTree(tree: Tree) {
    && [] in tree && tree[[]] == Directory
    && forall p | p in tree && p != [] :: Parent(p) in tree && tree[Parent(p)] == Directory
  }

  predicate Under(base: Path, path: Path) {
    |base| < |path| && path[..|base|] == base
  }

  function Descendants(tree: Tree, base: Path): set<Path> {
    set p | p in tree && Under(base, p)
  }

  /** The names a directory listing yields. */
  function Names(tree: Tree, base: Path): set<string> {
    set p | p in tree && p != [] && Parent(p) == base :: p[|p| - 1]
  }

  datatype SnapshotEntry =
    | DirectoryEntry(path: Path)
    | FileEntry(path: Path, contents: Bytes, mode: nat)
  {
    function AsNode(): Node {
      match this case DirectoryEntry(_) => Directory case FileEntry(_, contents, mode) => File(contents, mode)
    }
  }

  ghost predicate DistinctPaths(entries: seq<SnapshotEntry>) {
    forall i, j | 0 <= i < j < |entries| :: entries[i].path != entries[j].path
  }

  ghost predicate Belong(entries: seq<SnapshotEntry>, tree: Tree, base: Path, names: set<string>) {
    forall i | 0 <= i < |entries| ::
      && Under(base, entries[i].path) && entries[i].path[|base|] in names
      && entries[i].path in tree && tree[entries[i].path] == entries[i].AsNode()
  }

  ghost predicate Holds(entries: seq<SnapshotEntry>, path: Path) {
    exists i | 0 <= i < |entries| :: entries[i].path == path
  }

  ghost predicate Cover(entries: seq<SnapshotEntry>, tree: Tree, base: Path, names: set<string>) {
    forall p | p in tree && Under(base, p) && p[|base|] in names :: Holds(entries, p)
  }

  /** The entry's parent is the base, or a directory entry before it. */
  ghost predicate ParentBefore(entries: seq<SnapshotEntry>, i: nat, base: Path)
    requires i < |entries| && entries[i].path != []
  {
    Parent(entries[i].path) == base || exists j | 0 <= j < i :: entries[j] == DirectoryEntry(Parent(entries[i].path))
  }

  /** `entries` holds, once each, the paths whose step below `base` is one of `names`, and every
      directory before what it contains. */
  ghost predicate ListsPart(entries: seq<SnapshotEntry>, tree: Tree, base: Path, names: set<string>) {
    && DistinctPaths(entries)
    && Belong(entries, tree, base, names)
    && Cover(entries, tree, base, names)
    && forall i | 0 <= i < |entries| :: ParentBefore(entries, i, base)
  }

  /** A listing of everything in the tree. */
  ghost predicate Lists(entries: seq<SnapshotEntry>, tree: Tree) {
    ListsPart(entries, tree, [], Names(tree, []))
  }

  lemma FileLists(tree: Tree, base: Path, name: string)
    requires IsTree(tree) && base + [name] in tree && tree[base + [name]].File?
    ensures var node := tree[base + [name]];
            ListsPart([FileEntry(base + [name], node.contents, node.mode)], tree, base, {name})
  {
    var path := base + [name];
    var entries := [FileEntry(path, tree[path].contents, tree[path].mode)];
    forall p | p in tree && Under(base, p) && p[|base|] in {name}
      ensures Holds(entries, p)
    {
      if p != path {
        UnderChild(base, name, p);
        AncestorIsDirectory(tree, p, |path|);
      }
      assert entries[0].path == p;
    }
  }

  lemma {:induction false} AncestorIsDirectory(tree: Tree, p: Path, length: nat)
    requires IsTree(tree) && p in tree && length < |p|
    ensures p[..length] in tree && tree[p[..length]] == Directory
    decreases |p|
  {
    if length < |p| - 1 {
      AncestorIsDirectory(tree, Parent(p), length);
      assert Parent(p)[..length] == p[..length];
    }
  }

  lemma UnderChild(base: Path, name: string, p: Path)
    ensures Under(base + [name], p) ==> Under(base, p) && p[|base|] == name
    ensures Under(base, p) && p[|base|] == name && p != base + [name] ==> Under(base + [name], p)
  {
    var path := base + [name];
    if Under(path, p) {
      assert p[..|base|] == p[..|path|][..|base|];
      assert p[|base|] == p[..|path|][|base|];
    }
    if Under(base, p) && p[|base|] == name && p != path {
      assert p[..|base| + 1] == p[..|base|] + [p[|base|]] == path;
      assert p == p[..|base| + 1] + p[|base| + 1..];
    }
  }

  lemma DirectoryCovers(inner: seq<SnapshotEntry>, tree: Tree, base: Path, name: string, p: Path)
    requires IsTree(tree) && Cover(inner, tree, base + [name], Names(tree, base + [name]))
    requires p in tree && Under(base, p) && p[|base|] == name
    ensures Holds([DirectoryEntry(base + [name])] + inner, p)
  {
    hide IsTree, Names, Under;
    var path := base + [name];
    var entries := [DirectoryEntry(path)] + inner;
    if p == path {
      assert entries[0].path == p;
    } else {
      UnderChild(base, name, p);
      NextStepIsListed(tree, path, p);
      var i :| 0 <= i < |inner| && inner[i].path == p;
      assert entries[i + 1].path == p;
    }
  }

  lemma DirectoryBelongs(inner: seq<SnapshotEntry>, tree: Tree, base: Path, name: string)
    requires base + [name] in tree && tree[base + [name]] == Directory
    requires Belong(inner, tree, base + [name], Names(tree, base + [name])) && DistinctPaths(inner)
    ensures Belong([DirectoryEntry(base + [name])] + inner, tree, base, {name})
    ensures DistinctPaths([DirectoryEntry(base + [name])] + inner)
  {
    forall i | 0 <= i < |inner|
      ensures Under(base, inner[i].path) && inner[i].path[|base|] == name && inner[i].path != base + [name]
    {
      UnderChild(base, name, inner[i].path);
    }
  }

  lemma ParentsPrecede(inner: seq<SnapshotEntry>, base: Path, name: string, i: nat)
    requires i < |inner| && inner[i].path != [] && ParentBefore(inner, i, base + [name])
    ensures ParentBefore([DirectoryEntry(base + [name])] + inner, i + 1, base)
  {
    var entries := [DirectoryEntry(base + [name])] + inner;
    if Parent(inner[i].path) == base + [name] {
      assert entries[0] == DirectoryEntry(Parent(inner[i].path));
    } else {
      var j :| 0 <= j < i && inner[j] == DirectoryEntry(Parent(inner[i].path));
      assert entries[j + 1] == inner[j];
    }
  }

  lemma DirectoryLists(inner: seq<SnapshotEntry>, tree: Tree, base: Path, name: string)
    requires IsTree(tree) && base + [name] in tree && tree[base + [name]] == Directory
    requires ListsPart(inner, tree, base + [name], Names(tree, base + [name]))
    ensures ListsPart([DirectoryEntry(base + [name])] + inner, tree, base, {name})
  {
    var entries := [DirectoryEntry(base + [name])] + inner;
    DirectoryBelongs(inner, tree, base, name);
    forall p | p in tree && Under(base, p) && p[|base|] in {name}
      ensures Holds(entries, p)
    {
      DirectoryCovers(inner, tree, base, name, p);
    }
    forall i | 0 <= i < |entries|
      ensures ParentBefore(entries, i, base)
    {
      if i > 0 {
        ParentsPrecede(inner, base, name, i - 1);
      }
    }
  }

  /** A descendant's next step is a name its ancestor's listing yields. */
  lemma NextStepIsListed(tree: Tree, base: Path, p: Path)
    requires IsTree(tree) && p in tree && Under(base, p)
    ensures p[|base|] in Names(tree, base) && base + [p[|base|]] in tree
  {
    var child := p[..|base| + 1];
    if child != p {
      AncestorIsDirectory(tree, p, |base| + 1);
    }
    assert child == base + [p[|base|]] && Parent(child) == base;
  }

  /** Nothing whose step below `base` is one of `names` is anything but a file or a directory. */
  ghost predicate OnlyFiles(tree: Tree, base: Path, names: set<string>) {
    forall p | p in tree && Under(base, p) && p[|base|] in names :: !tree[p].Other?
  }

  /** `later` is `earlier` followed by a listing of the named children of `base`. */
  ghost predicate Appends(earlier: seq<SnapshotEntry>, later: seq<SnapshotEntry>, tree: Tree, base: Path, names: set<string>) {
    && |earlier| <= |later| && later[..|earlier|] == earlier
    && ListsPart(later[|earlier|..], tree, base, names)
  }

  lemma AppendsNothing(entries: seq<SnapshotEntry>, tree: Tree, base: Path)
    ensures Appends(entries, entries, tree, base, {}) && OnlyFiles(tree, base, {})
  {
  }

  lemma AppendsJoin(a: seq<SnapshotEntry>, b: seq<SnapshotEntry>, c: seq<SnapshotEntry>, tree: Tree, base: Path,
                    names: set<string>, name: string)
    requires Appends(a, b, tree, base, names) && Appends(b, c, tree, base, {name}) && name !in names
    ensures Appends(a, c, tree, base, names + {name})
  {
    ListsJoin(b[|a|..], c[|b|..], tree, base, names, name);
    assert c[..|a|] == c[..|b|][..|a|];
    assert c[|a|..] == b[|a|..] + c[|b|..];
  }

  lemma AppendsFile(entries: seq<SnapshotEntry>, tree: Tree, base: Path, name: string)
    requires IsTree(tree) && base + [name] in tree && tree[base + [name]].File?
    ensures var node := tree[base + [name]];
            Appends(entries, entries + [FileEntry(base + [name], node.contents, node.mode)], tree, base, {name})
    ensures OnlyFiles(tree, base, {name})
  {
    var node := tree[base + [name]];
    var listed := [FileEntry(base + [name], node.contents, node.mode)];
    FileLists(tree, base, name);
    assert (entries + listed)[|entries|..] == listed;
    forall p | p in tree && Under(base, p) && p[|base|] in {name}
      ensures !tree[p].Other?
    {
      assert Holds(listed, p);
    }
  }

  lemma AppendsDirectory(a: seq<SnapshotEntry>, b: seq<SnapshotEntry>, tree: Tree, base: Path, name: string)
    requires IsTree(tree) && base + [name] in tree && tree[base + [name]] == Directory
    requires Appends(a + [DirectoryEntry(base + [name])], b, tree, base + [name], Names(tree, base + [name]))
    ensures Appends(a, b, tree, base, {name})
  {
    hide ListsPart, IsTree, Names;
    var entry := DirectoryEntry(base + [name]);
    var inner := b[|a| + 1..];
    DirectoryLists(inner, tree, base, name);
    assert b[..|a|] == b[..|a| + 1][..|a|] && b[|a|] == b[..|a| + 1][|a|];
    assert b[|a|..] == [entry] + inner;
  }

  lemma OtherIsNoFile(tree: Tree, base: Path, name: string)
    requires base + [name] in tree && tree[base + [name]].Other?
    ensures !OnlyFiles(tree, base, {name})
  {
    var path := base + [name];
    assert Under(base, path) && path[|base|] in {name};
  }

  lemma OnlyFilesInDirectory(tree: Tree, base: Path, name: string)
    requires IsTree(tree) && base + [name] in tree && tree[base + [name]] == Directory
    ensures OnlyFiles(tree, base + [name], Names(tree, base + [name])) <==> OnlyFiles(tree, base, {name})
  {
    var path := base + [name];
    forall p | p in tree
      ensures Under(base, p) && p[|base|] == name <==> p == path || Under(path, p)
      ensures Under(path, p) ==> p[|path|] in Names(tree, path)
    {
      UnderChild(base, name, p);
      if Under(path, p) {
        NextStepIsListed(tree, path, p);
      }
    }
  }

  lemma HoldsJoin(a: seq<SnapshotEntry>, b: seq<SnapshotEntry>, p: Path)
    requires Holds(a, p) || Holds(b, p)
    ensures Holds(a + b, p)
  {
    if i :| 0 <= i < |a| && a[i].path == p {
      assert (a + b)[i].path == p;
    } else {
      var i :| 0 <= i < |b| && b[i].path == p;
      assert (a + b)[|a| + i].path == p;
    }
  }

  lemma ParentBeforeJoin(a: seq<SnapshotEntry>, b: seq<SnapshotEntry>, base: Path, i: nat)
    requires i < |a + b| && (a + b)[i].path != []
    requires if i < |a| then ParentBefore(a, i, base) else ParentBefore(b, i - |a|, base)
    ensures ParentBefore(a + b, i, base)
  {
    if i < |a| {
      if j :| 0 <= j < i && a[j] == DirectoryEntry(Parent(a[i].path)) {
        assert (a + b)[j] == a[j];
      }
    } else if j :| 0 <= j < i - |a| && b[j] == DirectoryEntry(Parent(b[i - |a|].path)) {
      assert (a + b)[|a| + j] == b[j];
    }
  }

  lemma ListsJoin(a: seq<SnapshotEntry>, b: seq<SnapshotEntry>, tree: Tree, base: Path, names: set<string>, name: string)
    requires ListsPart(a, tree, base, names) && ListsPart(b, tree, base, {name}) && name !in names
    ensures ListsPart(a + b, tree, base, names + {name})
  {
    forall p | p in tree && Under(base, p) && p[|base|] in names + {name}
      ensures Holds(a + b, p)
    {
      HoldsJoin(a, b, p);
    }
    assert DistinctPaths(a + b) by {
      assert forall i, j | 0 <= i < |a| && 0 <= j < |b| :: a[i].path[|base|] != b[j].path[|base|];
    }
    assert Belong(a + b, tree, base, names + {name});
    forall i | 0 <= i < |a + b|
      ensures ParentBefore(a + b, i, base)
    {
      ParentBeforeJoin(a, b, base, i);
    }
  }

  // The file system, and capturing from it.

  class FileSystem {
    var files: Tree

    constructor (files: Tree)
      ensures this.files == files
    {
      this.files := files;
    }

    method ReadDirectory(path: Path) returns (names: set<string>)
      ensures names == Names(files, path)
    {
      names := Names(files, path);
    }

    /** Remove a directory and everything under it. */
    method RemoveDirectoryAll(path: Path)
      modifies this
      ensures files == map p | p in old(files) && p != path && !Under(path, p) :: old(files)[p]
    {
      files := map p | p in files && p != path && !Under(path, p) :: files[p];
    }

    method RemoveFile(path: Path)
      modifies this
      ensures files == old(files) - {path}
    {
      files := files - {path};
    }

    /** Create one directory; its parent must exist and the path must be free. */
    method CreateDirectory(path: Path) returns (ok: bool)
      modifies this
      ensures var made := Write(old(files), DirectoryEntry(path));
              ok == made.Some? && files == if ok then made.value else old(files)
    {
      if path == [] || path in files || !(Parent(path) in files && files[Parent(path)] == Directory) {
        return false;
      }
      files := files[path := Directory];
      return true;
    }

    /** Write a file's contents and set its permissions; an existing file is overwritten. */
    method WriteFile(path: Path, contents: Bytes, mode: nat) returns (ok: bool)
      modifies this
      ensures var made := Write(old(files), FileEntry(path, contents, mode));
              ok == made.Some? && files == if ok then made.value else old(files)
    {
      if path == [] || !(Parent(path) in files && files[Parent(path)] == Directory)
         || (path in files && !files[path].File?) {
        return false;
      }
      files := files[path := File(contents, mode)];
      return true;
    }
  }

  /** What writing one entry makes of a tree, when the file system allows it. */
  function Write(tree: Tree, entry: SnapshotEntry): Option<Tree> {
    var path := entry.path;
    if path == [] || !(Parent(path) in tree && tree[Parent(path)] == Directory) then None
    else if path in tree && !(entry.FileEntry? && tree[path].File?) then None
    else Some(tree[path := entry.AsNode()])
  }

  /** What writing entries one after another makes of a tree. */
  function Restored(tree: Tree, entries: seq<SnapshotEntry>): Option<Tree>
    decreases |entries|
  {
    if entries == [] then Some(tree)
    else match Write(tree, entries[0])
      case None => None
      case Some(next) => Restored(next, entries[1..])
  }

  class DirectorySnapshot {
    var entries: seq<SnapshotEntry>

    constructor ()
      ensures entries == []
    {
      entries := [];
    }

    /** Append everything under one directory, in whatever order listings come. It fails when it
        meets something that is neither a file nor a directory. */
    method CaptureDirectory(fs: FileSystem, relative: Path) returns (ok: bool)
      requires IsTree(fs.files)
      modifies this
      ensures ok <==> OnlyFiles(fs.files, relative, Names(fs.files, relative))
      ensures ok ==> Appends(old(entries), entries, fs.files, relative, Names(fs.files, relative))
      decreases Descendants(fs.files, relative), 1
    {
      hide ListsPart;
      var names := fs.ReadDirectory(relative);
      var remaining := names;
      AppendsNothing(entries, fs.files, relative);
      assert names - remaining == {};
      while remaining != {}
        invariant remaining <= names
        invariant Appends(old(entries), entries, fs.files, relative, names - remaining)
        invariant OnlyFiles(fs.files, relative, names - remaining)
        decreases remaining
      {
        var name :| name in remaining;
        ghost var soFar := entries;
        var captured := CaptureChild(fs, relative, name);
        if !captured {
          return false;
        }
        AppendsJoin(old(entries), soFar, entries, fs.files, relative, names - remaining, name);
        assert names - (remaining - {name}) == names - remaining + {name};
        remaining := remaining - {name};
      }
      assert names - remaining == names;
      return true;
    }

    /** Append one child of a directory: its file, or its directory and everything under it. */
    method CaptureChild(fs: FileSystem, relative: Path, name: string) returns (ok: bool)
      requires IsTree(fs.files) && name in Names(fs.files, relative)
      modifies this
      ensures ok <==> OnlyFiles(fs.files, relative, {name})
      ensures ok ==> Appends(old(entries), entries, fs.files, relative, {name})
      decreases Descendants(fs.files, relative), 0
    {
      hide ListsPart, Appends, OnlyFiles, IsTree, Names, Descendants;
      var path := relative + [name];
      ChildIsInTree(fs.files, relative, name);
      match fs.files[path] {
        case Directory =>
          entries := entries + [DirectoryEntry(path)];
          ok := CaptureDirectory(fs, path);
          OnlyFilesInDirectory(fs.files, relative, name);
          if ok {
            AppendsDirectory(old(entries), entries, fs.files, relative, name);
          }
        case File(contents, mode) =>
          entries := entries + [FileEntry(path, contents, mode)];
          AppendsFile(old(entries), fs.files, relative, name);
          ok := true;
        case Other =>
          OtherIsNoFile(fs.files, relative, name);
          ok := false;
      }
    }

    /** Rewrite `from` to `to` in every captured file that contains it, and name those files. It
        fails at a file that contains `from` and is not text. */
    method ReplaceText(from: Bytes, to: Bytes, isText: Bytes -> bool) returns (ok: bool, changed: seq<Path>)
      requires from != []
      modifies this
      ensures ok <==> forall i | 0 <= i < |old(entries)| && Mentions(old(entries)[i], from) :: isText(old(entries)[i].contents)
      ensures ok ==> entries == RewrittenAll(old(entries), from, to) && changed == Mentioning(old(entries), from)
      ensures ok ==> |entries| == |old(entries)| && forall i | 0 <= i < |entries| ::
                && entries[i].path == old(entries)[i].path
                && NodeRewritten(old(entries)[i].AsNode(), entries[i].AsNode(), from, to)
    {
      hide Contains, Replaced, NodeRewritten;
      changed := [];
      ghost var before := entries;
      for i := 0 to |entries|
        invariant |entries| == |before|
        invariant forall j | 0 <= j < i :: entries[j] == Rewritten(before[j], from, to)
        invariant forall j | i <= j < |entries| :: entries[j] == before[j]
        invariant changed == Mentioning(before[..i], from)
        invariant forall j | 0 <= j < i && Mentions(before[j], from) :: isText(before[j].contents)
      {
        MentioningAppend(before, from, i);
        if Mentions(entries[i], from) {
          if !isText(entries[i].contents) {
            return false, changed;
          }
          changed := changed + [entries[i].path];
          entries := entries[i := Rewritten(entries[i], from, to)];
        }
      }
      assert before[..|before|] == before;
      forall i | 0 <= i < |entries|
        ensures entries[i].path == before[i].path && NodeRewritten(before[i].AsNode(), entries[i].AsNode(), from, to)
      {
        RewrittenEntry(before[i], from, to);
      }
      return true, changed;
    }

    /** Replace everything under the root with the captured entries. */
    method Restore(fs: FileSystem) returns (ok: bool)
      requires IsTree(fs.files)
      modifies fs
      ensures var made := Restored(map[[] := Directory], entries);
              ok == made.Some? && (ok ==> fs.files == made.value)
    {
      ClearRoot(fs);
      ghost var empty: Tree := map[[] := Directory];
      for i := 0 to |entries|
        invariant Restored(fs.files, entries[i..]) == Restored(empty, entries)
      {
        assert entries[i..][0] == entries[i] && entries[i..][1..] == entries[i + 1..];
        match entries[i] {
          case DirectoryEntry(path) => ok := fs.CreateDirectory(path);
          case FileEntry(path, contents, mode) => ok := fs.WriteFile(path, contents, mode);
        }
        if !ok {
          return false;
        }
      }
      assert entries[|entries|..] == [];
      return true;
    }
  }

  /** Remove everything under the root, listing entry by listing entry. */
  method ClearRoot(fs: FileSystem)
    requires IsTree(fs.files)
    modifies fs
    ensures fs.files == map[[] := Directory]
  {
    var remaining := fs.ReadDirectory([]);
    ghost var before := fs.files;
    StepsAreNames(before);
    while remaining != {}
      invariant remaining <= Names(before, [])
      invariant fs.files == Keeping(before, remaining)
      decreases remaining
    {
      var name :| name in remaining;
      ChildIsInTree(before, [], name);
      assert [] + [name] == [name];
      if fs.files[[name]] == Directory {
        fs.RemoveDirectoryAll([name]);
      } else {
        FileStandsAlone(before, name);
        fs.RemoveFile([name]);
      }
      KeepingLess(before, remaining, name);
      remaining := remaining - {name};
    }
  }

  /** The root and everything whose first step is one of `names`. */
  function Keeping(tree: Tree, names: set<string>): Tree {
    map p | p in tree && (p == [] || p[0] in names) :: tree[p]
  }

  lemma StepsAreNames(tree: Tree)
    requires IsTree(tree)
    ensures Keeping(tree, Names(tree, [])) == tree && Keeping(tree, {}) == map[[] := Directory]
  {
    forall p | p in tree && p != []
      ensures p[0] in Names(tree, [])
    {
      NextStepIsListed(tree, [], p);
    }
  }

  lemma KeepingLess(tree: Tree, names: set<string>, name: string)
    requires name in names
    ensures Keeping(tree, names - {name}) ==
            map p | p in Keeping(tree, names) && p != [name] && !Under([name], p) :: Keeping(tree, names)[p]
    ensures (forall p | p in tree :: !Under([name], p)) ==>
              Keeping(tree, names - {name}) == Keeping(tree, names) - {[name]}
  {
    forall p: Path | p != []
      ensures p[0] == name <==> p == [name] || Under([name], p)
    {
      UnderChild([], name, p);
    }
  }

  lemma FileStandsAlone(tree: Tree, name: string)
    requires IsTree(tree) && [name] in tree && tree[[name]] != Directory
    ensures forall p | p in tree :: !Under([name], p)
  {
    forall p | p in tree && Under([name], p)
      ensures false
    {
      AncestorIsDirectory(tree, p, 1);
    }
  }

  // Rewriting text.

  predicate Mentions(entry: SnapshotEntry, from: Bytes) {
    entry.FileEntry? && Contains(entry.contents, from)
  }

  function Rewritten(entry: SnapshotEntry, from: Bytes, to: Bytes): SnapshotEntry
    requires from != []
  {
    if Mentions(entry, from) then entry.(contents := Replaced(entry.contents, from, to)) else entry
  }

  function RewrittenAll(entries: seq<SnapshotEntry>, from: Bytes, to: Bytes): (r: seq<SnapshotEntry>)
    requires from != []
    ensures |r| == |entries|
    ensures forall i | 0 <= i < |entries| :: r[i] == Rewritten(entries[i], from, to)
  {
    seq(|entries|, i requires 0 <= i < |entries| => Rewritten(entries[i], from, to))
  }

  /** The paths of the files that mention a text, in order. */
  function Mentioning(entries: seq<SnapshotEntry>, from: Bytes): seq<Path> {
    if entries == [] then []
    else Mentioning(entries[..|entries| - 1], from)
         + if Mentions(entries[|entries| - 1], from) then [entries[|entries| - 1].path] else []
  }

  /** They are the paths found where, and only where, an entry mentions the text. */
  lemma {:induction false} MentioningInOrder(entries: seq<SnapshotEntry>, from: Bytes)
    returns (positions: seq<nat>, mentioning: seq<SnapshotEntry>)
    ensures Picks(entries, positions, mentioning)
    ensures forall n: nat :: n in positions <==> n < |entries| && Mentions(entries[n], from)
    ensures |Mentioning(entries, from)| == |mentioning|
    ensures forall i | 0 <= i < |mentioning| :: Mentioning(entries, from)[i] == mentioning[i].path
  {
    hide Mentions;
    positions, mentioning := [], [];
    if entries != [] {
      var front, last := entries[..|entries| - 1], entries[|entries| - 1];
      positions, mentioning := MentioningInOrder(front, from);
      assert entries == front + [last];
      assert forall n: nat | n < |front| :: entries[n] == front[n];
      PicksLonger(front, positions, mentioning, last);
      if Mentions(last, from) {
        positions, mentioning := positions + [|front|], mentioning + [last];
      }
    }
  }

  /** What rewriting makes of one node. */
  ghost predicate NodeRewritten(before: Node, after: Node, from: Bytes, to: Bytes) {
    match before
    case File(contents, mode) => after.File? && after.mode == mode && Replaces(contents, after.contents, from, to)
    case _ => after == before
  }

  lemma RewrittenNode(tree: Tree, from: Bytes, to: Bytes, p: Path)
    requires from != [] && p in tree
    ensures NodeRewritten(tree[p], RewrittenTree(tree, from, to)[p], from, to)
  {
    hide Replaces, Contains;
    if tree[p].File? {
      ReplacedExactly(tree[p].contents, from, to);
      if !Contains(tree[p].contents, from) {
        WithoutOccurrence(tree[p].contents, from, to);
      }
    }
  }

  lemma RewrittenEntry(entry: SnapshotEntry, from: Bytes, to: Bytes)
    requires from != []
    ensures Rewritten(entry, from, to).path == entry.path
    ensures NodeRewritten(entry.AsNode(), Rewritten(entry, from, to).AsNode(), from, to)
  {
    hide Replaces, Contains;
    if entry.FileEntry? {
      ReplacedExactly(entry.contents, from, to);
      if !Contains(entry.contents, from) {
        WithoutOccurrence(entry.contents, from, to);
      }
    }
  }

  lemma MentioningAppend(entries: seq<SnapshotEntry>, from: Bytes, i: nat)
    requires i < |entries|
    ensures Mentioning(entries[..i + 1], from) ==
            Mentioning(entries[..i], from) + if Mentions(entries[i], from) then [entries[i].path] else []
  {
    assert entries[..i + 1][..i] == entries[..i];
  }

  /** The tree with every file's text rewritten; names, places and permissions stay. */
  function RewrittenTree(tree: Tree, from: Bytes, to: Bytes): Tree
    requires from != []
  {
    map p | p in tree ::
      if tree[p].File? && Contains(tree[p].contents, from)
      then tree[p].(contents := Replaced(tree[p].contents, from, to))
      else tree[p]
  }

  lemma RewrittenLists(entries: seq<SnapshotEntry>, tree: Tree, from: Bytes, to: Bytes)
    requires from != [] && IsTree(tree) && Lists(entries, tree)
    ensures IsTree(RewrittenTree(tree, from, to))
    ensures Lists(RewrittenAll(entries, from, to), RewrittenTree(tree, from, to))
  {
    hide Contains;
    hide Replaced;
    var rewritten, after := RewrittenAll(entries, from, to), RewrittenTree(tree, from, to);
    var names := Names(tree, []);
    assert Names(after, []) == names;
    RewrittenBelong(entries, tree, from, to, names);
    RewrittenKeepsPlaces(entries, from, to);
    forall p | p in after && Under([], p) && p[0] in names
      ensures Holds(rewritten, p)
    {
      assert Holds(entries, p);
    }
    forall i | 0 <= i < |rewritten|
      ensures ParentBefore(rewritten, i, [])
    {
      assert ParentBefore(entries, i, []);
    }
  }

  lemma RewrittenKeepsPlaces(entries: seq<SnapshotEntry>, from: Bytes, to: Bytes)
    requires from != []
    ensures DistinctPaths(entries) ==> DistinctPaths(RewrittenAll(entries, from, to))
    ensures forall p | Holds(entries, p) :: Holds(RewrittenAll(entries, from, to), p)
    ensures forall i | 0 <= i < |entries| && entries[i].path != [] && ParentBefore(entries, i, []) ::
              ParentBefore(RewrittenAll(entries, from, to), i, [])
  {
    var rewritten := RewrittenAll(entries, from, to);
    assert forall i | 0 <= i < |entries| :: rewritten[i].path == entries[i].path;
    forall p | Holds(entries, p)
      ensures Holds(rewritten, p)
    {
      var i :| 0 <= i < |entries| && entries[i].path == p;
      assert rewritten[i].path == p;
    }
    forall i | 0 <= i < |entries| && entries[i].path != [] && ParentBefore(entries, i, [])
      ensures ParentBefore(rewritten, i, [])
    {
      if j :| 0 <= j < i && entries[j] == DirectoryEntry(Parent(entries[i].path)) {
        assert rewritten[j] == entries[j];
      }
    }
  }

  lemma RewrittenBelong(entries: seq<SnapshotEntry>, tree: Tree, from: Bytes, to: Bytes, names: set<string>)
    requires from != [] && Belong(entries, tree, [], names)
    ensures Belong(RewrittenAll(entries, from, to), RewrittenTree(tree, from, to), [], names)
  {
    hide Contains;
    hide Replaced;
    var rewritten, after := RewrittenAll(entries, from, to), RewrittenTree(tree, from, to);
    forall i | 0 <= i < |rewritten|
      ensures Under([], rewritten[i].path) && rewritten[i].path[0] in names
      ensures rewritten[i].path in after && after[rewritten[i].path] == rewritten[i].AsNode()
    {
      assert rewritten[i] == Rewritten(entries[i], from, to);
      assert tree[entries[i].path] == entries[i].AsNode();
    }
  }

  // Restoring a listing.

  ghost function Listed(tree: Tree, entries: seq<SnapshotEntry>): Tree {
    map p | p in tree && (p == [] || Holds(entries, p)) :: tree[p]
  }

  lemma {:induction false} ListingRestoresFrom(entries: seq<SnapshotEntry>, tree: Tree, k: nat)
    requires IsTree(tree) && Lists(entries, tree) && k <= |entries|
    ensures Restored(Listed(tree, entries[..k]), entries[k..]) == Some(tree)
    decreases |entries| - k
  {
    if k == |entries| {
      forall p | p in tree && p != []
        ensures Holds(entries, p)
      {
        NextStepIsListed(tree, [], p);
      }
      assert entries[..k] == entries && Listed(tree, entries) == tree;
    } else {
      EntryWrites(entries, tree, k);
      assert entries[k..][0] == entries[k] && entries[k..][1..] == entries[k + 1..];
      ListingRestoresFrom(entries, tree, k + 1);
    }
  }

  lemma ListedGrows(entries: seq<SnapshotEntry>, tree: Tree, k: nat)
    requires k < |entries| && entries[k].path in tree
    ensures Listed(tree, entries[..k + 1]) == Listed(tree, entries[..k])[entries[k].path := tree[entries[k].path]]
  {
    var before, last := entries[..k], [entries[k]];
    assert entries[..k + 1] == before + last && last[0] == entries[k];
    forall p
      ensures Holds(before + last, p) <==> Holds(before, p) || p == entries[k].path
    {
      if Holds(before, p) || Holds(last, p) {
        HoldsJoin(before, last, p);
      }
      if i :| 0 <= i < |before + last| && (before + last)[i].path == p {
        assert i < k ==> before[i].path == p;
      }
    }
  }

  /** Each entry of a listing finds its parent there and its own place free. */
  lemma EntryWrites(entries: seq<SnapshotEntry>, tree: Tree, k: nat)
    requires IsTree(tree) && Lists(entries, tree) && k < |entries|
    ensures Write(Listed(tree, entries[..k]), entries[k]) == Some(Listed(tree, entries[..k + 1]))
  {
    var before, path := Listed(tree, entries[..k]), entries[k].path;
    assert path in tree && tree[path] == entries[k].AsNode() && Under([], path);
    ListedGrows(entries, tree, k);
    if i :| 0 <= i < k && entries[..k][i].path == path {
      assert false;
    }
    assert ParentBefore(entries, k, []);
    if Parent(path) != [] {
      var j :| 0 <= j < k && entries[j] == DirectoryEntry(Parent(path));
      assert entries[..k][j].path == Parent(path);
    }
    assert Parent(path) in before && before[Parent(path)] == Directory;
  }

  /** Writing a listing back into an empty root yields exactly the tree it lists, in whatever order
      the listing was captured. */
  lemma ListingRestores(entries: seq<SnapshotEntry>, tree: Tree)
    requires IsTree(tree) && Lists(entries, tree)
    ensures Restored(map[[] := Directory], entries) == Some(tree)
  {
    ListingRestoresFrom(entries, tree, 0);
    assert Listed(tree, entries[..0]) == map[[] := Directory];
    assert entries[0..] == entries;
  }

  /** Capture one root, rewrite its text, and restore it into another root holding anything. */
  method CopyTree(source: FileSystem, target: FileSystem, from: Bytes, to: Bytes, isText: Bytes -> bool) returns (ok: bool)
    requires source != target && IsTree(source.files) && IsTree(target.files) && from != []
    modifies target
    ensures ok <==>
            forall p | p in source.files && p != [] ::
              !source.files[p].Other?
              && (source.files[p].File? && Contains(source.files[p].contents, from) ==> isText(source.files[p].contents))
    ensures ok ==> target.files == RewrittenTree(source.files, from, to)
    ensures ok ==> target.files.Keys == source.files.Keys && forall p | p in source.files ::
              NodeRewritten(source.files[p], target.files[p], from, to)
  {
    var snapshot := new DirectorySnapshot();
    ok := snapshot.CaptureDirectory(source, []);
    WholeTree(source.files);
    if !ok {
      return false;
    }
    var changed;
    ghost var listing := snapshot.entries;
    assert Lists(listing, source.files) by { assert listing[0..] == listing; }
    ListedFilesAreText(listing, source.files, from, isText);
    ok, changed := snapshot.ReplaceText(from, to, isText);
    if !ok {
      return false;
    }
    RewrittenLists(listing, source.files, from, to);
    ListingRestores(snapshot.entries, RewrittenTree(source.files, from, to));
    ok := snapshot.Restore(target);
    forall p | p in source.files
      ensures NodeRewritten(source.files[p], RewrittenTree(source.files, from, to)[p], from, to)
    {
      RewrittenNode(source.files, from, to, p);
    }
  }

  lemma WholeTree(tree: Tree)
    requires IsTree(tree)
    ensures OnlyFiles(tree, [], Names(tree, [])) <==> forall p | p in tree && p != [] :: !tree[p].Other?
  {
    forall p | p in tree && p != []
      ensures Under([], p) && p[0] in Names(tree, [])
    {
      NextStepIsListed(tree, [], p);
    }
  }

  lemma ListedFilesAreText(entries: seq<SnapshotEntry>, tree: Tree, from: Bytes, isText: Bytes -> bool)
    requires IsTree(tree) && Lists(entries, tree)
    ensures (forall i | 0 <= i < |entries| && Mentions(entries[i], from) :: isText(entries[i].contents)) <==>
            forall p | p in tree && p != [] :: tree[p].File? && Contains(tree[p].contents, from) ==> isText(tree[p].contents)
  {
    forall p | p in tree && p != []
      ensures Holds(entries, p)
    {
      NextStepIsListed(tree, [], p);
    }
    forall i | 0 <= i < |entries|
      ensures entries[i].path in tree && entries[i].path != [] && tree[entries[i].path] == entries[i].AsNode()
    {
    }
  }

  lemma ChildIsInTree(tree: Tree, base: Path, name: string)
    requires name in Names(tree, base)
    ensures base + [name] in tree && Under(base, base + [name])
    ensures Descendants(tree, base + [name]) < Descendants(tree, base)
  {
    var p :| p in tree && p != [] && Parent(p) == base && p[|p| - 1] == name;
    assert p == base + [name];
    forall d | d in Descendants(tree, p)
      ensures d in Descendants(tree, base)
    {
      UnderChild(base, name, d);
    }
    assert p in Descendants(tree, base) && p !in Descendants(tree, p);
  }
}
