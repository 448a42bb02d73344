/**
 The UI's folder view of a flat key list (fileTree.ts): one level of folders with totals, plus the
 files directly at that level; and the breadcrumbs leading there.
 */
module FolderTree {
  import opened Base
  import opened Text

  datatype StoredFile = StoredFile(key: string, fileSize: nat)

  datatype FolderItem = FolderItem(name: string, path: string, fileCount: nat, totalSize: nat)

  datatype FileEntry = FileEntry(name: string, path: string, file: StoredFile)

  function PrefixOf(currentPath: string): string {
    if currentPath == "" then "" else currentPath + "/"
  }

  /** Keys that strictly extend a prefix. */
  predicate Below(f: StoredFile, prefix: string) {
    prefix <= f.key && f.key != prefix
  }

  function Relative(f: StoredFile, prefix: string): string
    requires Below(f, prefix)
  {
    f.key[|prefix|..]
  }

  /** The subfolder a file falls into, if it is not directly at this level. */
  function FolderName(f: StoredFile, prefix: string): Option<string> {
    if !Below(f, prefix) then None
    else match SplitOnce(Relative(f, prefix), '/')
      case None => None
      case Some((name, _)) => Some(name)
  }

  predicate Direct(f: StoredFile, prefix: string) {
    Below(f, prefix) && '/' !in Relative(f, prefix)
  }

  /** Position of a folder path in the insertion-ordered map, or its length. */
  function Find(folders: seq<FolderItem>, path: string): (i: nat)
    ensures i <= |folders|
    ensures i < |folders| ==> folders[i].path == path
    ensures forall k :: 0 <= k < i ==> folders[k].path != path
  {
    if folders == [] then 0
    else if folders[0].path == path then 0
    else 1 + Find(folders[1..], path)
  }

  function AddToFolder(folders: seq<FolderItem>, f: StoredFile, prefix: string): seq<FolderItem> {
    match FolderName(f, prefix)
    case None => folders
    case Some(name) =>
      var i := Find(folders, prefix + name);
      if i < |folders| then
        folders[i := folders[i].(fileCount := folders[i].fileCount + 1, totalSize := folders[i].totalSize + f.fileSize)]
      else folders + [FolderItem(name, prefix + name, 1, f.fileSize)]
  }

  function Folders(files: seq<StoredFile>, prefix: string): seq<FolderItem> {
    if files == [] then []
    else AddToFolder(Folders(files[..|files| - 1], prefix), files[|files| - 1], prefix)
  }

  function Entries(files: seq<StoredFile>, prefix: string): seq<FileEntry> {
    if files == [] then []
    else
      var f := files[|files| - 1];
      Entries(files[..|files| - 1], prefix)
      + if Direct(f, prefix) then [FileEntry(Relative(f, prefix), f.key, f)] else []
  }

  lemma NoFiles(prefix: string)
    ensures Folders([], prefix) == [] && Entries([], prefix) == []
  {
  }

  lemma OneMoreFile(files: seq<StoredFile>, n: nat, prefix: string)
    requires n < |files|
    ensures Folders(files[..n + 1], prefix) == AddToFolder(Folders(files[..n], prefix), files[n], prefix)
    ensures Entries(files[..n + 1], prefix) == Entries(files[..n], prefix)
              + if Direct(files[n], prefix) then [FileEntry(Relative(files[n], prefix), files[n].key, files[n])] else []
  {
    hide AddToFolder, SplitOnce;
    assert files[..n + 1][..n] == files[..n];
  }

  /** `buildFileTree`. */
  method BuildFileTree(files: seq<StoredFile>, currentPath: string)
    returns (folders: seq<FolderItem>, entries: seq<FileEntry>)
    ensures folders == Folders(files, PrefixOf(currentPath))
    ensures entries == Entries(files, PrefixOf(currentPath))
  {
    hide Find, SplitOnce, Folders, Entries;
    NoFiles(if currentPath == "" then "" else currentPath + "/");
    var prefix := if currentPath != "" then currentPath + "/" else "";
    folders, entries := [], [];
    assert files[..0] == [];
    for n := 0 to |files|
      invariant folders == Folders(files[..n], prefix)
      invariant entries == Entries(files[..n], prefix)
    {
      var file := files[n];
      OneMoreFile(files, n, prefix);
      if !(prefix <= file.key) {
        continue;
      }
      var relative := file.key[|prefix|..];
      if relative == "" {
        assert file.key == prefix;
        continue;
      }
      var slash := SplitOnce(relative, '/');
      if slash.None? {
        entries := entries + [FileEntry(relative, file.key, file)];
        continue;
      }
      var folderName := slash.value.0;
      var folderPath := prefix + folderName;
      var i := Find(folders, folderPath);
      if i < |folders| {
        var existing := folders[i];
        folders := folders[i := existing.(fileCount := existing.fileCount + 1, totalSize := existing.totalSize + file.fileSize)];
      } else {
        folders := folders + [FolderItem(folderName, folderPath, 1, file.fileSize)];
      }
    }
    assert files[..|files|] == files;
  }

  // ---- Counting ----

  /** Files and bytes whose key starts with `p`. */
  function CountWith(files: seq<StoredFile>, p: string): nat {
    if files == [] then 0
    else CountWith(files[..|files| - 1], p) + if p <= files[|files| - 1].key then 1 else 0
  }

  function SizeWith(files: seq<StoredFile>, p: string): nat {
    if files == [] then 0
    else SizeWith(files[..|files| - 1], p) + if p <= files[|files| - 1].key then files[|files| - 1].fileSize else 0
  }

  /** Files and bytes whose key is exactly `p`. */
  function CountEqual(files: seq<StoredFile>, p: string): nat {
    if files == [] then 0
    else CountEqual(files[..|files| - 1], p) + if p == files[|files| - 1].key then 1 else 0
  }

  function SizeEqual(files: seq<StoredFile>, p: string): nat {
    if files == [] then 0
    else SizeEqual(files[..|files| - 1], p) + if p == files[|files| - 1].key then files[|files| - 1].fileSize else 0
  }

  function TotalCount(folders: seq<FolderItem>): nat {
    if folders == [] then 0 else TotalCount(folders[..|folders| - 1]) + folders[|folders| - 1].fileCount
  }

  function TotalSize(folders: seq<FolderItem>): nat {
    if folders == [] then 0 else TotalSize(folders[..|folders| - 1]) + folders[|folders| - 1].totalSize
  }

  function EntriesSize(entries: seq<FileEntry>): nat {
    if entries == [] then 0 else EntriesSize(entries[..|entries| - 1]) + entries[|entries| - 1].file.fileSize
  }

  // ---- Folder totals ----

  /** A key lies in the folder `prefix + name` exactly when that is the folder its file falls into. */
  lemma FolderOfKey(f: StoredFile, prefix: string, name: string)
    requires '/' !in name
    ensures prefix + name + "/" <= f.key <==> FolderName(f, prefix) == Some(name)
  {
    hide SplitOnce;
    if prefix + name + "/" <= f.key {
      var rest := f.key[|prefix + name + "/"|..];
      assert f.key == prefix + (name + "/" + rest);
      assert f.key[|prefix|..] == name + "/" + rest;
      SplitOnceAt('/', name, rest);
    }
    if FolderName(f, prefix) == Some(name) {
      var (a, b) := SplitOnce(Relative(f, prefix), '/').value;
      assert f.key == prefix + Relative(f, prefix) == prefix + name + "/" + b;
    }
  }

  /** Folder paths are distinct, and built from a slash-free name under the prefix. */
  ghost predicate WellFormed(folders: seq<FolderItem>, prefix: string) {
    && (forall i, j :: 0 <= i < j < |folders| ==> folders[i].path != folders[j].path)
    && (forall i :: 0 <= i < |folders| ==> folders[i].path == prefix + folders[i].name && '/' !in folders[i].name)
  }

  /** Each folder's totals are exact, and a folder that is not listed holds nothing. */
  ghost predicate Exact(folders: seq<FolderItem>, files: seq<StoredFile>, prefix: string) {
    forall name: string :: '/' !in name ==> ExactAt(folders, files, prefix, name)
  }

  predicate ExactAt(folders: seq<FolderItem>, files: seq<StoredFile>, prefix: string, name: string) {
    var i := Find(folders, prefix + name);
    var p := prefix + name + "/";
    if i < |folders| then folders[i].fileCount == CountWith(files, p) > 0 && folders[i].totalSize == SizeWith(files, p)
    else CountWith(files, p) == 0 && SizeWith(files, p) == 0
  }

  lemma FindIsPosition(folders: seq<FolderItem>, prefix: string, i: nat)
    requires WellFormed(folders, prefix) && i < |folders|
    ensures Find(folders, folders[i].path) == i
  {
  }

  lemma AddKeepsExact(folders: seq<FolderItem>, files: seq<StoredFile>, f: StoredFile, prefix: string)
    requires WellFormed(folders, prefix) && Exact(folders, files, prefix)
    ensures WellFormed(AddToFolder(folders, f, prefix), prefix)
    ensures Exact(AddToFolder(folders, f, prefix), files + [f], prefix)
  {
    hide Find, FolderName, CountWith, SizeWith, ExactAt;
    FolderNameHasNoSlash(f, prefix);
    forall name: string | '/' !in name
      ensures ExactAt(AddToFolder(folders, f, prefix), files + [f], prefix, name)
    {
      ExactAfterAdd(folders, files, f, prefix, name);
    }
  }

  lemma ExactAfterAdd(folders: seq<FolderItem>, files: seq<StoredFile>, f: StoredFile, prefix: string, name: string)
    requires WellFormed(folders, prefix) && Exact(folders, files, prefix) && '/' !in name
    ensures ExactAt(AddToFolder(folders, f, prefix), files + [f], prefix, name)
  {
    hide Find, FolderName, CountWith, SizeWith;
    var folders' := AddToFolder(folders, f, prefix);
    assert ExactAt(folders, files, prefix, name);
    FolderOfKey(f, prefix, name);
    CountOneMore(files, f, prefix + name + "/");
    if FolderName(f, prefix).Some? {
      FolderNameHasNoSlash(f, prefix);
      FindAfterAdd(folders, f, prefix, name);
      var added := FolderName(f, prefix).value;
      var i, i' := Find(folders, prefix + name), Find(folders', prefix + name);
      var j := Find(folders, prefix + added);
      assert (prefix + added)[|prefix|..] == added && (prefix + name)[|prefix|..] == name;
      if added == name {
        if i == |folders| {
          assert folders'[i].path == prefix + name;
        }
      } else if j < |folders| {
        assert folders'[j].path == prefix + added;
      } else {
        assert folders'[j].path == prefix + added;
      }
    }
  }

  /** Adding to a folder keeps every folder's position; a new folder goes last. */
  lemma FindAfterAdd(folders: seq<FolderItem>, f: StoredFile, prefix: string, name: string)
    requires FolderName(f, prefix).Some?
    ensures var i, i' := Find(folders, prefix + name), Find(AddToFolder(folders, f, prefix), prefix + name);
            && |AddToFolder(folders, f, prefix)| >= |folders|
            && (i < |folders| ==> i' == i)
            && (i == |folders| ==> i' >= |folders|)
  {
    hide Find, FolderName;
    var folders' := AddToFolder(folders, f, prefix);
    var path := prefix + name;
    var i, i' := Find(folders, path), Find(folders', path);
    assert forall k :: 0 <= k < |folders| ==> folders'[k].path == folders[k].path;
    if i < |folders| {
      assert folders'[i].path == path;
      assert i' <= i;
      assert folders[i'].path == path;
    } else {
      assert forall k :: 0 <= k < |folders| ==> folders'[k].path != path;
      assert i' >= |folders|;
    }
  }

  lemma FolderNameHasNoSlash(f: StoredFile, prefix: string)
    ensures FolderName(f, prefix).Some? ==> '/' !in FolderName(f, prefix).value
  {
  }

  lemma CountOneMore(files: seq<StoredFile>, f: StoredFile, p: string)
    ensures CountWith(files + [f], p) == CountWith(files, p) + if p <= f.key then 1 else 0
    ensures SizeWith(files + [f], p) == SizeWith(files, p) + if p <= f.key then f.fileSize else 0
  {
  }

  /** The folder view is exact at every level: distinct folders, true counts and sizes, none missing and none empty. */
  lemma {:induction false} FoldersAreExact(files: seq<StoredFile>, prefix: string)
    ensures WellFormed(Folders(files, prefix), prefix)
    ensures Exact(Folders(files, prefix), files, prefix)
  {
    if files != [] {
      var front, last := files[..|files| - 1], files[|files| - 1];
      FoldersAreExact(front, prefix);
      AddKeepsExact(Folders(front, prefix), front, last, prefix);
      assert files == front + [last];
    }
  }

  // ---- Order ----

  /** Some file lies in the first folder before any lies in the second. */
  ghost predicate SeenBefore(files: seq<StoredFile>, first: FolderItem, second: FolderItem) {
    exists n :: 0 <= n < |files| && first.path + "/" <= files[n].key
      && forall m :: 0 <= m <= n ==> !(second.path + "/" <= files[m].key)
  }

  /** Folders come in the order in which their files first appear. */
  lemma {:induction false} FoldersInOrder(files: seq<StoredFile>, prefix: string, i: nat, j: nat)
    requires i < j < |Folders(files, prefix)|
    ensures SeenBefore(files, Folders(files, prefix)[i], Folders(files, prefix)[j])
  {
    hide Find, FolderName, CountWith, SizeWith, SeenBefore, AddToFolder, Exact, WellFormed;
    var n := |files| - 1;
    var before, after := Folders(files[..n], prefix), Folders(files, prefix);
    AddKeepsPaths(before, files[n], prefix);
    if j < |before| {
      FoldersInOrder(files[..n], prefix, i, j);
      SeenBeforeMore(files[..n], files[n], before[i], before[j]);
    } else {
      FoldersAreExact(files[..n], prefix);
      OldBeforeNew(before, files[..n], files[n], prefix, i);
      SeenBeforeMore(files[..n], files[n], before[i], after[j]);
    }
    assert files == files[..n] + [files[n]];
  }

  lemma AddKeepsPaths(folders: seq<FolderItem>, f: StoredFile, prefix: string)
    ensures var folders' := AddToFolder(folders, f, prefix);
            && |folders| <= |folders'| <= |folders| + 1
            && forall k :: 0 <= k < |folders| ==> folders'[k].path == folders[k].path
  {
    hide Find, FolderName;
  }

  lemma OldBeforeNew(folders: seq<FolderItem>, files: seq<StoredFile>, f: StoredFile, prefix: string, i: nat)
    requires WellFormed(folders, prefix) && Exact(folders, files, prefix)
    requires i < |folders| < |AddToFolder(folders, f, prefix)|
    ensures SeenBefore(files, folders[i], AddToFolder(folders, f, prefix)[|folders|])
  {
    hide Find, FolderName, CountWith, SizeWith;
    var added := AddToFolder(folders, f, prefix)[|folders|];
    FindIsPosition(folders, prefix, i);
    FolderNameHasNoSlash(f, prefix);
    assert ExactAt(folders, files, prefix, folders[i].name) && ExactAt(folders, files, prefix, added.name);
    SomeOrNone(files, folders[i].path + "/");
    SomeOrNone(files, added.path + "/");
  }

  lemma {:induction false} SomeOrNone(files: seq<StoredFile>, p: string)
    ensures CountWith(files, p) > 0 <==> exists n :: 0 <= n < |files| && p <= files[n].key
  {
    if files != [] {
      SomeOrNone(files[..|files| - 1], p);
    }
  }

  lemma SeenBeforeMore(front: seq<StoredFile>, last: StoredFile, first: FolderItem, second: FolderItem)
    requires SeenBefore(front, first, second)
    ensures forall a: FolderItem, b: FolderItem :: a.path == first.path && b.path == second.path ==> SeenBefore(front + [last], a, b)
  {
    var n :| 0 <= n < |front| && first.path + "/" <= front[n].key && forall m :: 0 <= m <= n ==> !(second.path + "/" <= front[m].key);
    var files := front + [last];
    forall a: FolderItem, b: FolderItem | a.path == first.path && b.path == second.path
      ensures SeenBefore(files, a, b)
    {
      assert files[n] == front[n] && forall m :: 0 <= m <= n ==> files[m] == front[m];
    }
  }

  // ---- Entries ----

  lemma {:induction false} EntriesAppend(a: seq<StoredFile>, b: seq<StoredFile>, prefix: string)
    ensures Entries(a + b, prefix) == Entries(a, prefix) + Entries(b, prefix)
    decreases b
  {
    hide Direct, Relative;
    if b == [] {
      assert a + b == a;
    } else {
      var n := |b| - 1;
      EntriesAppend(a, b[..n], prefix);
      assert (a + b)[..|a + b| - 1] == a + b[..n];
    }
  }

  /** A file directly at this level, and no other, is listed, with its key as path. */
  lemma OneEntry(f: StoredFile, prefix: string)
    ensures forall name: string :: name != "" && '/' !in name && f.key == prefix + name ==>
              Entries([f], prefix) == [FileEntry(name, f.key, f)]
    ensures (forall name: string :: name != "" && '/' !in name ==> f.key != prefix + name) ==> Entries([f], prefix) == []
  {
    assert [f][..0] == [] && Entries([], prefix) == [];
    if Direct(f, prefix) {
      assert f.key == prefix + Relative(f, prefix);
    }
    forall name: string | name != "" && '/' !in name && f.key == prefix + name
      ensures Entries([f], prefix) == [FileEntry(name, f.key, f)]
    {
      assert f.key[|prefix|..] == name;
    }
  }

  // ---- Conservation ----

  lemma {:induction false} TotalsAfterUpdate(folders: seq<FolderItem>, i: nat, item: FolderItem)
    requires i < |folders|
    ensures TotalCount(folders[i := item]) == TotalCount(folders) - folders[i].fileCount + item.fileCount
    ensures TotalSize(folders[i := item]) == TotalSize(folders) - folders[i].totalSize + item.totalSize
  {
    var n := |folders| - 1;
    if i < n {
      TotalsAfterUpdate(folders[..n], i, item);
      assert folders[i := item][..n] == folders[..n][i := item];
    } else {
      assert folders[i := item][..n] == folders[..n];
    }
  }

  lemma TotalsAfterAdd(folders: seq<FolderItem>, f: StoredFile, prefix: string)
    ensures var n := if FolderName(f, prefix).Some? then 1 else 0;
            && TotalCount(AddToFolder(folders, f, prefix)) == TotalCount(folders) + n
            && TotalSize(AddToFolder(folders, f, prefix)) == TotalSize(folders) + n * f.fileSize
  {
    hide Find, FolderName;
    if FolderName(f, prefix).Some? {
      var i := Find(folders, prefix + FolderName(f, prefix).value);
      if i < |folders| {
        TotalsAfterUpdate(folders, i, AddToFolder(folders, f, prefix)[i]);
      } else {
        assert AddToFolder(folders, f, prefix)[..|folders|] == folders;
      }
    }
  }

  /** Nothing is lost and nothing counted twice: every file below the prefix is in one folder or is listed itself. */
  lemma {:induction false} TreeConserves(files: seq<StoredFile>, prefix: string)
    ensures TotalCount(Folders(files, prefix)) + |Entries(files, prefix)|
         == CountWith(files, prefix) - CountEqual(files, prefix)
    ensures TotalSize(Folders(files, prefix)) + EntriesSize(Entries(files, prefix))
         == SizeWith(files, prefix) - SizeEqual(files, prefix)
  {
    if files != [] {
      hide Find, AddToFolder, SplitOnce;
      var front, last := files[..|files| - 1], files[|files| - 1];
      TreeConserves(front, prefix);
      TotalsAfterAdd(Folders(front, prefix), last, prefix);
      var entries := Entries(front, prefix);
      if Direct(last, prefix) {
        assert Entries(files, prefix)[..|entries|] == entries;
      } else {
        assert Entries(files, prefix) == entries;
      }
    }
  }

  /**
   Opening a folder shows what it promised, exactly when: its count is that of the view at its path, plus
   any key that is the folder path with a trailing slash and nothing more, if and only if its path is not
   empty or every key starts with a slash; and its size likewise, bytes for keys.
   */
  lemma OpeningAFolderConserves(files: seq<StoredFile>, prefix: string, i: nat)
    requires i < |Folders(files, prefix)|
    ensures var folder := Folders(files, prefix)[i];
            var inside := PrefixOf(folder.path);
            && (folder.fileCount == TotalCount(Folders(files, inside)) + |Entries(files, inside)| + CountEqual(files, inside)
                <==> folder.path != "" || CountWith(files, "/") == CountWith(files, ""))
            && (folder.totalSize == TotalSize(Folders(files, inside)) + EntriesSize(Entries(files, inside)) + SizeEqual(files, inside)
                <==> folder.path != "" || SizeWith(files, "/") == SizeWith(files, ""))
  {
    hide Find, Folders, Entries, CountWith, SizeWith, CountEqual, SizeEqual, TotalCount, TotalSize, EntriesSize;
    var folders := Folders(files, prefix);
    FoldersAreExact(files, prefix);
    FindIsPosition(folders, prefix, i);
    assert ExactAt(folders, files, prefix, folders[i].name);
    TreeConserves(files, PrefixOf(folders[i].path));
    if folders[i].path == "" {
      assert prefix == "" && folders[i].name == "";
      assert prefix + folders[i].name + "/" == "/";
    }
  }

  /** Some folder has the empty path exactly at the root, when some key starts with a slash; opening it is staying at the root. */
  lemma EmptyFolderPath(files: seq<StoredFile>, currentPath: string)
    ensures (exists i :: 0 <= i < |Folders(files, PrefixOf(currentPath))| && Folders(files, PrefixOf(currentPath))[i].path == "")
       <==> currentPath == "" && CountWith(files, "/") > 0
  {
    hide Folders, CountWith, PrefixOf;
    if currentPath == "" && CountWith(files, "/") > 0 {
      var i := RootFolder(files);
    }
    forall i | 0 <= i < |Folders(files, PrefixOf(currentPath))| && Folders(files, PrefixOf(currentPath))[i].path == ""
      ensures currentPath == "" && CountWith(files, "/") > 0
    {
      OnlyRootFolder(files, currentPath, i);
    }
  }

  lemma RootFolder(files: seq<StoredFile>) returns (i: nat)
    requires CountWith(files, "/") > 0
    ensures i < |Folders(files, PrefixOf(""))| && Folders(files, PrefixOf(""))[i].path == ""
  {
    hide Find, Folders, CountWith, SizeWith;
    var folders := Folders(files, "");
    FoldersAreExact(files, "");
    assert ExactAt(folders, files, "", "");
    assert "" + "" == "" && "" + "" + "/" == "/";
    i := Find(folders, "");
  }

  lemma OnlyRootFolder(files: seq<StoredFile>, currentPath: string, i: nat)
    requires i < |Folders(files, PrefixOf(currentPath))| && Folders(files, PrefixOf(currentPath))[i].path == ""
    ensures currentPath == "" && CountWith(files, "/") > 0
  {
  }

  // ---- Breadcrumbs ----

  datatype Crumb = Crumb(name: string, path: string)

  function NonEmpty(parts: seq<string>): seq<string> {
    if parts == [] then []
    else NonEmpty(parts[..|parts| - 1]) + if parts[|parts| - 1] == "" then [] else [parts[|parts| - 1]]
  }

  function Trail(parts: seq<string>): seq<Crumb> {
    if parts == [] then [Crumb("Home", "")]
    else Trail(parts[..|parts| - 1]) + [Crumb(parts[|parts| - 1], Join(parts, "/"))]
  }

  function Breadcrumbs(currentPath: string): seq<Crumb> {
    Trail(NonEmpty(Split(currentPath, '/')))
  }

  lemma {:induction false} NonEmptyKeepsAll(parts: seq<string>)
    requires "" !in parts
    ensures NonEmpty(parts) == parts
  {
    if parts != [] {
      assert parts[|parts| - 1] in parts;
      NonEmptyKeepsAll(parts[..|parts| - 1]);
    }
  }

  lemma {:induction false} SplitSnoc(path: string, name: string)
    requires '/' !in name
    ensures Split(path + "/" + name, '/') == Split(path, '/') + [name]
    decreases |path|
  {
    match SplitOnce(path, '/')
    case None => SplitOnceAt('/', path, name);
    case Some((a, b)) =>
      assert path + "/" + name == a + "/" + (b + "/" + name);
      SplitOnceAt('/', a, b + "/" + name);
      SplitSnoc(b, name);
  }

  lemma {:induction false} NonEmptyParts(parts: seq<string>)
    ensures "" !in NonEmpty(parts)
    ensures forall p :: p in NonEmpty(parts) ==> p in parts
  {
    if parts != [] {
      NonEmptyParts(parts[..|parts| - 1]);
    }
  }

  /** The components kept are the non-empty ones, in order. */
  lemma {:induction false} NonEmptyAppend(a: seq<string>, b: seq<string>)
    ensures NonEmpty(a + b) == NonEmpty(a) + NonEmpty(b)
    decreases b
  {
    if b == [] {
      assert a + b == a;
    } else {
      var n := |b| - 1;
      NonEmptyAppend(a, b[..n]);
      assert (a + b)[..|a + b| - 1] == a + b[..n];
    }
  }

  lemma OnePart(part: string)
    ensures NonEmpty([part]) == if part == "" then [] else [part]
  {
    assert [part][..0] == [] && NonEmpty([]) == [];
  }

  /** The trail starts at home and goes through every folder on the path; slashes too many do not count. */
  lemma CrumbsOfPath(currentPath: string)
    ensures var parts, crumbs := NonEmpty(Split(currentPath, '/')), Breadcrumbs(currentPath);
            && |crumbs| == |parts| + 1 && crumbs[0] == Crumb("Home", "")
            && forall k :: 0 <= k < |parts| ==> crumbs[k + 1] == Crumb(parts[k], Join(parts[..k + 1], "/"))
  {
    TrailOfParts(NonEmpty(Split(currentPath, '/')));
  }

  lemma {:induction false} TrailOfParts(parts: seq<string>)
    ensures var crumbs := Trail(parts);
            && |crumbs| == |parts| + 1 && crumbs[0] == Crumb("Home", "")
            && forall k :: 0 <= k < |parts| ==> crumbs[k + 1] == Crumb(parts[k], Join(parts[..k + 1], "/"))
  {
    hide Join;
    if parts != [] {
      var n := |parts| - 1;
      TrailOfParts(parts[..n]);
      assert parts[..n + 1] == parts;
      forall k | 0 <= k < n
        ensures Trail(parts)[k + 1] == Crumb(parts[k], Join(parts[..k + 1], "/"))
      {
        assert parts[..n][..k + 1] == parts[..k + 1];
      }
    }
  }

  /**
   Opening a folder adds exactly one crumb, which leads back to that folder, exactly when the folder has a
   name and the path to it has no empty component.
   */
  lemma OpeningAFolderAddsACrumb(files: seq<StoredFile>, currentPath: string, i: nat)
    requires i < |Folders(files, PrefixOf(currentPath))|
    ensures var folder := Folders(files, PrefixOf(currentPath))[i];
            (Breadcrumbs(folder.path) == Breadcrumbs(currentPath) + [Crumb(folder.name, folder.path)]
             <==> folder.name != "" && (currentPath == "" || "" !in Split(currentPath, '/')))
  {
    hide Find, Folders, Split, Join, NonEmpty, Exact;
    FoldersAreExact(files, PrefixOf(currentPath));
    var folder := Folders(files, PrefixOf(currentPath))[i];
    PartsOfChild(currentPath, folder.name);
    var parts := NonEmpty(Split(currentPath, '/'));
    if folder.name == "" {
      assert NonEmpty(Split(folder.path, '/')) == parts + [] == parts;
    } else {
      assert (parts + [folder.name])[..|parts|] == parts;
      assert Breadcrumbs(folder.path) == Breadcrumbs(currentPath) + [Crumb(folder.name, Join(parts + [folder.name], "/"))];
      ChildPath(currentPath, folder.name);
      var expected := Breadcrumbs(currentPath) + [Crumb(folder.name, folder.path)];
      assert expected[|expected| - 1] == Crumb(folder.name, folder.path);
    }
  }

  /** The kept components of a subfolder's path are those of its parent, and its name unless that is empty. */
  lemma PartsOfChild(currentPath: string, name: string)
    requires '/' !in name
    ensures var child := PrefixOf(currentPath) + name;
            && Split(child, '/') == (if currentPath == "" then [] else Split(currentPath, '/')) + [name]
            && NonEmpty(Split(child, '/')) == NonEmpty(Split(currentPath, '/')) + if name == "" then [] else [name]
  {
    hide SplitOnce;
    var front := if currentPath == "" then [] else Split(currentPath, '/');
    if currentPath == "" {
      assert PrefixOf(currentPath) + name == name;
      assert SplitOnce(name, '/').None?;
      assert Split("", '/') == [""] && NonEmpty([""]) == NonEmpty([""][..0]);
    } else {
      SplitSnoc(currentPath, name);
    }
    assert (front + [name])[..|front|] == front;
  }

  /** Joining the kept components gives the subfolder's path back exactly when none was dropped. */
  lemma ChildPath(currentPath: string, name: string)
    requires name != "" && '/' !in name
    ensures Join(NonEmpty(Split(currentPath, '/')) + [name], "/") == PrefixOf(currentPath) + name
      <==> currentPath == "" || "" !in Split(currentPath, '/')
  {
    hide Split, Join, NonEmpty;
    var child, kept := PrefixOf(currentPath) + name, NonEmpty(Split(currentPath, '/')) + [name];
    PartsOfChild(currentPath, name);
    JoinOfSplit(child, '/');
    JoinOfSplit(currentPath, '/');
    NonEmptyParts(Split(currentPath, '/'));
    SplitOfJoin(kept, '/');
    if currentPath == "" || "" !in Split(currentPath, '/') {
      NonEmptyKeepsAll(Split(child, '/'));
    } else {
      assert "" in Split(child, '/');
    }
  }
}
