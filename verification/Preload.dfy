/** `preload_popular_files` of cache.rs: warming the content cache under a byte budget. */
module Preload {
  import opened Base
  import opened Cache
  import opened Store
  import opened Coherence
  import opened Crash
  import opened Managers

  /** The row filter of the popularity query. */
  const MAX_PRELOAD_SIZE := 10485760

  /** What the popularity query returns: small enough rows whose recorded size is their size on disk. */
  ghost predicate Popular(files: Disk, popular: seq<(FileId, Row)>) {
    forall i :: 0 <= i < |popular| ==>
      && popular[i].1.fileSize <= MAX_PRELOAD_SIZE
      && (popular[i].1.path in files ==> |files[popular[i].1.path]| == popular[i].1.fileSize)
  }

  /** The sizes of the files that exist, added up. */
  function BytesOf(files: Disk, popular: seq<(FileId, Row)>): nat {
    if popular == [] then 0
    else
      var last := popular[|popular| - 1];
      BytesOf(files, popular[..|popular| - 1]) + if last.1.path in files then |files[last.1.path]| else 0
  }

  function CountOf(files: Disk, popular: seq<(FileId, Row)>): nat {
    if popular == [] then 0
    else CountOf(files, popular[..|popular| - 1]) + if popular[|popular| - 1].1.path in files then 1 else 0
  }

  /** The cache after pre-caching these rows one by one. */
  function Warmed(c: Backend, files: Disk, popular: seq<(FileId, Row)>): Backend {
    if popular == [] then c
    else
      var warmed, last := Warmed(c, files, popular[..|popular| - 1]), popular[|popular| - 1];
      if last.1.path in files then PutContent(warmed, last.0, files[last.1.path]) else warmed
  }

  /** `visited` says how many rows the loop got to before the budget was used up. */
  method PreloadPopularFiles(cache: CacheManager, fs: FileSystem, popular: seq<(FileId, Row)>, budget: nat)
    returns (size: nat, cached: nat, visited: nat)
    requires Popular(fs.files, popular)
    modifies cache
    ensures visited <= |popular|
    ensures cache.backend == Warmed(old(cache.backend), fs.files, popular[..visited])
    ensures size == BytesOf(fs.files, popular[..visited]) && cached == CountOf(fs.files, popular[..visited])
    ensures visited < |popular| ==> size >= budget
    ensures visited > 0 ==> BytesOf(fs.files, popular[..visited - 1]) < budget
    ensures budget > 0 ==> size < budget + 10 * 1024 * 1024
  {
    hide MetaKey, ContentKey, PutContent;
    size, cached, visited := 0, 0, 0;
    while visited < |popular|
      invariant visited <= |popular|
      invariant cache.backend == Warmed(old(cache.backend), fs.files, popular[..visited])
      invariant size == BytesOf(fs.files, popular[..visited]) && cached == CountOf(fs.files, popular[..visited])
      invariant visited > 0 ==> BytesOf(fs.files, popular[..visited - 1]) < budget
      invariant budget > 0 ==> size < budget + MAX_PRELOAD_SIZE
    {
      if size >= budget {
        break;
      }
      var (id, row) := popular[visited];
      assert popular[..visited + 1][..visited] == popular[..visited];
      if row.path in fs.files {
        var content := fs.files[row.path];
        cache.SetFileContent(id, content);
        size := size + |content|;
        cached := cached + 1;
      }
      visited := visited + 1;
    }
  }

  /** The content of every row the loop got to that is on disk and at most 1 MiB is cached; no other file's entries change. */
  lemma {:induction false} WarmedView(c: Backend, files: Disk, popular: seq<(FileId, Row)>, id: FileId)
    requires ColonFree(id) && forall i :: 0 <= i < |popular| ==> ColonFree(popular[i].0)
    requires forall i :: 0 <= i < |popular| && popular[i].0 == id ==> popular[i].1.path in files && |files[popular[i].1.path]| <= 1024 * 1024
    requires forall i, j :: 0 <= i < j < |popular| && popular[i].0 == id ==> popular[j].0 != id
    ensures CachedMeta(Warmed(c, files, popular), id) == CachedMeta(c, id)
    ensures (forall i :: 0 <= i < |popular| ==> popular[i].0 != id) ==> CachedContent(Warmed(c, files, popular), id) == CachedContent(c, id)
    ensures forall i :: 0 <= i < |popular| && popular[i].0 == id ==>
      CachedContent(Warmed(c, files, popular), id) == Some(files[popular[i].1.path])
    decreases popular
  {
    hide PutContent, CachedMeta, CachedContent;
    if popular != [] {
      var n := |popular| - 1;
      WarmedView(c, files, popular[..n], id);
      var last := popular[n];
      if last.1.path in files {
        PutContentView(Warmed(c, files, popular[..n]), last.0, files[last.1.path], id);
      }
    }
  }

  /** Sizes are counted row by row: that of the bytes on disk, and nothing for a missing file. */
  lemma {:induction false} SizesAddUp(files: Disk, a: seq<(FileId, Row)>, b: seq<(FileId, Row)>, last: (FileId, Row))
    ensures BytesOf(files, a + b) == BytesOf(files, a) + BytesOf(files, b)
    ensures BytesOf(files, [last]) == if last.1.path in files then |files[last.1.path]| else 0
    decreases b
  {
    assert [last][..0] == [] && BytesOf(files, []) == 0;
    if b == [] {
      assert a + b == a;
    } else {
      var n := |b| - 1;
      SizesAddUp(files, a, b[..n], last);
      assert (a + b)[..|a + b| - 1] == a + b[..n];
    }
  }

  /** The number of rows on disk, each as often as it is listed. */
  lemma {:induction false} CountIsCount(files: Disk, popular: seq<(FileId, Row)>)
    ensures CountOf(files, popular) == |set i | 0 <= i < |popular| && popular[i].1.path in files|
    decreases popular
  {
    var all := set i | 0 <= i < |popular| && popular[i].1.path in files;
    if popular != [] {
      var n := |popular| - 1;
      CountIsCount(files, popular[..n]);
      var front := set i | 0 <= i < |popular[..n]| && popular[..n][i].1.path in files;
      assert all == if popular[n].1.path in files then front + {n} else front;
    }
  }

  /** Every content entry the loop adds keeps the cache coherent. */
  lemma {:induction false} PreloadKeepsCoherence(s: State, popular: seq<(FileId, Row)>)
    requires Coherent(s)
    requires forall i :: 0 <= i < |popular| ==>
      ColonFree(popular[i].0) && popular[i].0 in s.rows && s.rows[popular[i].0] == popular[i].1
    ensures Coherent(s.(cache := Warmed(s.cache, s.disk, popular)))
    decreases popular
  {
    hide MetaKey, ContentKey, PutContent, CoherentAt;
    if popular != [] {
      var front, last := popular[..|popular| - 1], popular[|popular| - 1];
      PreloadKeepsCoherence(s, front);
      var s1 := s.(cache := Warmed(s.cache, s.disk, front));
      if last.1.path in s.disk {
        PutContentKeepsCoherence(s1, last.0);
      }
    }
  }
}
