/** Where files live: when two files, or a file and another's temporary sibling, share a path. */
module Paths {
  import opened Text
  import opened Cache
  import opened Store
  import opened Integrity

  predicate SlashFree(id: FileId) {
    '/' !in id.bucket
  }

  lemma PathsAreInjective(cfg: Config, a: FileId, b: FileId)
    requires SlashFree(a) && SlashFree(b) && PathOf(cfg, a) == PathOf(cfg, b)
    ensures a == b
  {
    var root := cfg.base + "/";
    assert PathOf(cfg, a) == root + (a.bucket + "/" + a.key) && PathOf(cfg, b) == root + (b.bucket + "/" + b.key);
    assert (root + (a.bucket + "/" + a.key))[|root|..] == a.bucket + "/" + a.key;
    assert (root + (b.bucket + "/" + b.key))[|root|..] == b.bucket + "/" + b.key;
    SplitIsUnique('/', a.bucket, a.key, b.bucket, b.key);
  }

  /** A file lives at base, bucket and key with slashes between, inside its bucket's directory. */
  lemma FilePath(cfg: Config, id: FileId)
    ensures PathOf(cfg, id) == Join([cfg.base, id.bucket, id.key], "/")
    ensures BucketDir(cfg, id.bucket) == Join([cfg.base, id.bucket, ""], "/")
  {
    assert Join([id.bucket, id.key], "/") == id.bucket + "/" + id.key;
    assert Join([id.bucket, ""], "/") == id.bucket + "/" + "";
  }

  /** The file name of a path whose last component is known. */
  lemma FileNameOf(dir: string, name: string)
    requires '/' !in name && (dir == "" || dir[|dir| - 1] == '/')
    ensures FileName(dir + name) == name && Directory(dir + name) == dir
  {
    hide LastIndexOf;
    var path := dir + name;
    var i := LastIndexOf(path, '/');
    if dir != "" {
      assert path[|dir| - 1] == '/';
    }
    assert forall k :: |dir| <= k < |path| ==> path[k] == name[k - |dir|];
    assert i == |dir| - 1;
  }

  lemma {:induction false} LastDot(stem: string, extension: string)
    requires '.' !in extension
    ensures LastIndexOf(stem + "." + extension, '.') == |stem|
    decreases extension
  {
    var name := stem + "." + extension;
    if extension != "" {
      var front := extension[..|extension| - 1];
      assert name[..|name| - 1] == stem + "." + front;
      LastDot(stem, front);
    }
  }

  lemma TempNameOf(stem: string, extension: string)
    requires stem != "" && '.' !in extension
    ensures TempName(stem + "." + extension) == stem + ".tmp"
  {
    hide LastIndexOf;
    LastDot(stem, extension);
    assert (stem + "." + extension)[..|stem|] == stem;
  }

  /** All files of a directory that differ only in their extension share one temporary sibling. */
  lemma TempReplacesExtension(dir: string, stem: string, extension: string)
    requires dir == "" || dir[|dir| - 1] == '/'
    requires stem != "" && '/' !in stem && '/' !in extension && '.' !in extension
    requires stem + "." + extension != ".."
    ensures TempPath(dir + (stem + "." + extension)) == dir + (stem + ".tmp")
  {
    hide TempName, FileName, Directory;
    FileNameOf(dir, stem + "." + extension);
    TempNameOf(stem, extension);
  }

  /** A name without a dot, or with none but its first character, has no extension to replace. */
  lemma TempAddsExtension(dir: string, name: string)
    requires dir == "" || dir[|dir| - 1] == '/'
    requires '/' !in name && name != ".."
    requires '.' !in name || (name[0] == '.' && '.' !in name[1..])
    ensures TempPath(dir + name) == dir + (name + ".tmp")
  {
    hide LastIndexOf;
    FileNameOf(dir, name);
    assert forall k :: 1 <= k < |name| ==> name[k] in name[1..];
  }

  /** So storing `notes.txt` goes through the very path of the file `notes.tmp`. */
  lemma TempCollidesWithAnotherKey(cfg: Config, bucket: string)
    ensures TempPath(PathOf(cfg, FileId(bucket, "notes.txt"))) == PathOf(cfg, FileId(bucket, "notes.tmp"))
  {
    hide TempPath;
    assert "notes.txt" == "notes" + "." + "txt" && "notes.tmp" == "notes" + ".tmp";
    TempReplacesExtension(BucketDir(cfg, bucket), "notes", "txt");
  }

  lemma TempNameIsName(name: string)
    ensures TempName(name) == name <==> |name| > 4 && name[|name| - 4..] == ".tmp"
  {
    hide LastIndexOf;
    assert TempName(name)[|TempName(name)| - 4..] == ".tmp";
    if |name| > 4 && name[|name| - 4..] == ".tmp" {
      var stem := name[..|name| - 4];
      assert name == stem + ".tmp" == stem + "." + "tmp";
      TempNameOf(stem, "tmp");
    }
  }

  /** The temporary sibling is the target itself exactly for names that end in ".tmp" after a non-empty stem, or "..". */
  lemma TempIsTarget(path: string)
    ensures var name := FileName(path);
            TempPath(path) == path <==> name == ".." || (|name| > 4 && name[|name| - 4..] == ".tmp")
  {
    hide TempName, LastIndexOf;
    var name, dir := FileName(path), Directory(path);
    TempNameIsName(name);
    assert path == dir + name;
    assert (dir + TempName(name))[|dir|..] == TempName(name) && (dir + name)[|dir|..] == name;
  }

  /** Without aliasing every row lives at its own path. */
  ghost predicate AtHome(cfg: Config, rows: Rows) {
    forall id :: id in rows ==> SlashFree(id) && rows[id].path == PathOf(cfg, id)
  }

  /** Then a new upload's target is free exactly when no other file sits at its temporary sibling. */
  lemma HomeTargetsAreFree(w: World, s: State, u: Upload, ch: Chance)
    requires AtHome(w.cfg, s.rows) && SlashFree(u.id) && ch.saves
    ensures TargetFree(w, s, u, ch)
      <==> forall id :: id in s.rows && id != u.id ==> PathOf(w.cfg, id) != TempPath(PathOf(w.cfg, u.id))
  {
    hide TempPath, PathOf;
    forall id | id in s.rows && PathOf(w.cfg, id) == PathOf(w.cfg, u.id)
      ensures id == u.id
    {
      PathsAreInjective(w.cfg, id, u.id);
    }
  }

  /** With deduplication off no upload ever aliases, so rows stay at home. */
  lemma UploadsStayHome(w: World, s: State, u: Upload, ch: Chance)
    requires !w.cfg.dedup && AtHome(w.cfg, s.rows) && SlashFree(u.id) && Possible(w, s, u, ch)
    ensures AtHome(w.cfg, StoreFile(w, s, u, ch).0.rows)
  {
  }
}
