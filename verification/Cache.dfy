/**
 Rows and the cache of cache.rs: one backend keyed by strings, holding row metadata under "file:"
 keys and raw file content under "content:" keys.
 */
module Cache {
  import opened Base
  import opened Pipeline
  import opened Text

  datatype FileId = FileId(bucket: string, key: string)

  /** A row of the `files` table; its bucket and key are the key it is stored under. */
  datatype Row = Row(
    uuid: nat,
    path: string,
    fileSize: nat,
    originalSize: nat,
    contentType: string,
    hash: string,
    encoding: Encoding,
    accessCount: nat,
    expiresAt: Option<int>)

  datatype Entry = MetaEntry(row: Row) | ContentEntry(bytes: Bytes)

  type Backend = map<string, Entry>

  /** Content above 1 MiB is never cached. */
  const MAX_CACHE_SIZE := 1048576

  function MetaKey(id: FileId): string {
    "file:" + id.bucket + ":" + id.key
  }

  function ContentKey(id: FileId): string {
    "content:" + id.bucket + ":" + id.key
  }

  function CachedMeta(c: Backend, id: FileId): Option<Row> {
    if MetaKey(id) in c && c[MetaKey(id)].MetaEntry? then Some(c[MetaKey(id)].row) else None
  }

  function CachedContent(c: Backend, id: FileId): Option<Bytes> {
    if ContentKey(id) in c && c[ContentKey(id)].ContentEntry? then Some(c[ContentKey(id)].bytes) else None
  }

  function PutMeta(c: Backend, id: FileId, row: Row): Backend {
    c[MetaKey(id) := MetaEntry(row)]
  }

  function PutContent(c: Backend, id: FileId, bytes: Bytes): Backend {
    if |bytes| > MAX_CACHE_SIZE then c else c[ContentKey(id) := ContentEntry(bytes)]
  }

  function Invalidate(c: Backend, id: FileId): Backend {
    c - {MetaKey(id), ContentKey(id)}
  }

  function InvalidateAll(c: Backend, ids: set<FileId>): Backend {
    c - (set id | id in ids :: MetaKey(id)) - (set id | id in ids :: ContentKey(id))
  }

  /** Capacity and time-to-live evictions can drop any entries at any moment. */
  function Evict(c: Backend, keys: set<string>): Backend {
    c - keys
  }

  predicate ColonFree(id: FileId) {
    ':' !in id.bucket
  }

  // ---- The string-keyed backend is two independent maps ----

  /** Metadata and content keys never collide, and both formats are injective over colon-free buckets. */
  lemma KeysAreSeparate(a: FileId, b: FileId)
    ensures MetaKey(a) != ContentKey(b)
    ensures ColonFree(a) && ColonFree(b) ==> (MetaKey(a) == MetaKey(b) <==> a == b)
    ensures ColonFree(a) && ColonFree(b) ==> (ContentKey(a) == ContentKey(b) <==> a == b)
  {
    assert MetaKey(a)[0] == 'f' && ContentKey(b)[0] == 'c';
    if ColonFree(a) && ColonFree(b) {
      if MetaKey(a) == MetaKey(b) {
        assert MetaKey(a)[5..] == a.bucket + ":" + a.key && MetaKey(b)[5..] == b.bucket + ":" + b.key;
        SplitIsUnique(':', a.bucket, a.key, b.bucket, b.key);
      }
      if ContentKey(a) == ContentKey(b) {
        assert ContentKey(a)[8..] == a.bucket + ":" + a.key && ContentKey(b)[8..] == b.bucket + ":" + b.key;
        SplitIsUnique(':', a.bucket, a.key, b.bucket, b.key);
      }
    }
  }

  /** A file shares its cache keys with some other file exactly when its bucket or its key has a colon to split at. */
  lemma KeysCollideAtColons(a: FileId)
    ensures (exists b :: b != a && MetaKey(b) == MetaKey(a)) <==> ':' in a.bucket || ':' in a.key
    ensures (exists b :: b != a && ContentKey(b) == ContentKey(a)) <==> ':' in a.bucket || ':' in a.key
  {
    if ':' in a.bucket {
      var (x, y) := SplitOnce(a.bucket, ':').value;
      SharedKeys(a, FileId(x, y + ":" + a.key));
    } else if ':' in a.key {
      var (x, y) := SplitOnce(a.key, ':').value;
      SharedKeys(a, FileId(a.bucket + ":" + x, y));
    } else {
      forall b | MetaKey(b) == MetaKey(a) || ContentKey(b) == ContentKey(a)
        ensures b == a
      {
        KeyTexts(a);
        KeyTexts(b);
        OnlySplit(a, b);
      }
    }
  }

  lemma KeyTexts(id: FileId)
    ensures MetaKey(id)[5..] == ContentKey(id)[8..] == id.bucket + ":" + id.key
  {
  }

  lemma SharedKeys(a: FileId, b: FileId)
    requires a.bucket + ":" + a.key == b.bucket + ":" + b.key
    ensures MetaKey(a) == MetaKey(b) && ContentKey(a) == ContentKey(b)
  {
    assert forall id: FileId :: MetaKey(id) == "file:" + (id.bucket + ":" + id.key);
    assert forall id: FileId :: ContentKey(id) == "content:" + (id.bucket + ":" + id.key);
  }

  lemma OnlySplit(a: FileId, b: FileId)
    requires ':' !in a.bucket && ':' !in a.key && a.bucket + ":" + a.key == b.bucket + ":" + b.key
    ensures b == a
  {
    var s := a.bucket + ":" + a.key;
    assert s[|b.bucket|] == ':';
    assert forall k :: 0 <= k < |s| && k != |a.bucket| ==> s[k] != ':';
    assert b.bucket == s[..|b.bucket|] && b.key == s[|b.bucket| + 1..];
    assert a.bucket == s[..|a.bucket|] && a.key == s[|a.bucket| + 1..];
  }

  /** A metadata write changes the metadata of that file only. */
  lemma PutMetaView(c: Backend, id: FileId, row: Row, other: FileId)
    requires ColonFree(id) && ColonFree(other)
    ensures CachedMeta(PutMeta(c, id, row), other) == if other == id then Some(row) else CachedMeta(c, other)
    ensures CachedContent(PutMeta(c, id, row), other) == CachedContent(c, other)
  {
    KeysAreSeparate(id, other);
  }

  /** A content write changes the content of that file only, and does nothing above 1 MiB. */
  lemma PutContentView(c: Backend, id: FileId, bytes: Bytes, other: FileId)
    requires ColonFree(id) && ColonFree(other)
    ensures CachedMeta(PutContent(c, id, bytes), other) == CachedMeta(c, other)
    ensures CachedContent(PutContent(c, id, bytes), other)
         == if other == id && |bytes| <= 1024 * 1024 then Some(bytes) else CachedContent(c, other)
  {
    KeysAreSeparate(id, other);
    KeysAreSeparate(other, id);
  }

  /** Invalidating several files drops the entries of these, and leaves every other file's alone. */
  lemma InvalidateAllView(c: Backend, ids: set<FileId>, other: FileId)
    requires ColonFree(other) && forall id :: id in ids ==> ColonFree(id)
    ensures CachedMeta(InvalidateAll(c, ids), other) == if other in ids then None else CachedMeta(c, other)
    ensures CachedContent(InvalidateAll(c, ids), other) == if other in ids then None else CachedContent(c, other)
  {
    hide MetaKey, ContentKey;
    forall id | id in ids
      ensures MetaKey(id) != ContentKey(other) && MetaKey(other) != ContentKey(id)
      ensures MetaKey(id) == MetaKey(other) <==> id == other
      ensures ContentKey(id) == ContentKey(other) <==> id == other
    {
      KeysAreSeparate(id, other);
      KeysAreSeparate(other, id);
    }
    KeysAreSeparate(other, other);
  }

  /** Invalidating one file drops both of its entries and leaves every other file's entries alone. */
  lemma InvalidateView(c: Backend, id: FileId, other: FileId)
    requires ColonFree(id) && ColonFree(other)
    ensures CachedMeta(Invalidate(c, id), other) == if other == id then None else CachedMeta(c, other)
    ensures CachedContent(Invalidate(c, id), other) == if other == id then None else CachedContent(c, other)
  {
    KeysAreSeparate(id, other);
    KeysAreSeparate(other, id);
  }
}
